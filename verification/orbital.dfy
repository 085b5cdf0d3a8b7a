/**
 * The orbital-phase dial of the alien clock: twelve dots, of which the one
 * whose index equals the value is drawn in the highlight colour and every
 * other in the dim colour. Only the colour choice is modelled; the dots'
 * coordinates are floating-point trigonometry.
 */
module Orbital {

  const SegmentCount: nat := 12

  const HighlightFill: string := "#60A5FA"
  const DimFill: string := "#1E3A8A"

  /** The fill of dot `i`: highlighted when `i === value`. */
  function Fill(value: int, i: nat): string
  {
    if i == value then HighlightFill else DimFill
  }

  /** The fills of all twelve dots, in index order. How many of them are
      lit is stated by `ExactlyOneLit`. */
  function Fills(value: int): (fs: seq<string>)
    ensures |fs| == SegmentCount
    ensures forall i :: 0 <= i < |fs| ==> (fs[i] == HighlightFill <==> i == value)
    ensures forall i :: 0 <= i < |fs| ==> (fs[i] == DimFill <==> i != value)
  {
    seq(SegmentCount, i requires 0 <= i => Fill(value, i))
  }

  /** The number of highlighted dots. */
  function CountLit(fs: seq<string>): nat
  {
    if |fs| == 0 then 0
    else CountLit(fs[..|fs| - 1]) + (if fs[|fs| - 1] == HighlightFill then 1 else 0)
  }

  /** A sequence highlighted at index `v` and nowhere else has one
      highlighted entry if `v` is an index of it, and none otherwise. */
  lemma {:induction false} CountLitSingle(fs: seq<string>, v: int)
    requires forall i :: 0 <= i < |fs| ==> (fs[i] == HighlightFill <==> i == v)
    ensures CountLit(fs) == (if 0 <= v < |fs| then 1 else 0)
    decreases |fs|
  {
    if |fs| > 0 {
      var p := fs[..|fs| - 1];
      assert forall i :: 0 <= i < |p| ==> p[i] == fs[i];
      CountLitSingle(p, v);
    }
  }

  /** For a value in 0..11 exactly one dot is lit, the one at that index;
      for any other value none is. */
  lemma ExactlyOneLit(value: int)
    ensures CountLit(Fills(value)) == (if 0 <= value < SegmentCount then 1 else 0)
    ensures 0 <= value < SegmentCount ==> Fills(value)[value] == HighlightFill
  {
    CountLitSingle(Fills(value), value);
  }
}
