/**
 * The dozenal (base-12) encoder of the alien clock, `toDozenal`, together
 * with its inverse reading and the behaviour of the encoder as written on
 * inputs it was not designed for.
 *
 * JavaScript numbers are modelled as mathematical integers (after the
 * `Math.floor` the encoder starts with) and, for the loop itself, as reals.
 */
module Dozenal {
  import opened Optional

  /** The twelve glyphs in digit order: 0 to 9, then TURNED DIGIT TWO (ten)
      and TURNED DIGIT THREE (eleven). Both are single UTF-16 code units, so
      indexing the JavaScript string yields exactly these characters. */
  const Digits: string := "0123456789\U{218A}\U{218B}"

  /** The glyphs for ten and eleven. */
  const Ten: char := '\U{218A}'
  const Eleven: char := '\U{218B}'

  /** A character of the alphabet. */
  predicate IsGlyph(c: char)
  {
    ('0' <= c <= '9') || c == Ten || c == Eleven
  }

  /** A string made of glyphs only. */
  predicate AllGlyphs(s: string)
  {
    forall i :: 0 <= i < |s| ==> IsGlyph(s[i])
  }

  /** The glyph of one digit value. */
  function DigitChar(d: nat): (c: char)
    requires d < 12
    ensures IsGlyph(c)
  {
    if d < 10 then ('0' as int + d) as char
    else if d == 10 then Ten
    else Eleven
  }

  /** The digit value of a glyph; `None` for a character outside the
      alphabet. */
  function DigitValue(c: char): (r: Option<nat>)
    ensures r.Some? <==> IsGlyph(c)
    ensures r.Some? ==> r.value < 12 && DigitChar(r.value) == c
  {
    if '0' <= c <= '9' then Some(c as int - '0' as int)
    else if c == Ten then Some(10)
    else if c == Eleven then Some(11)
    else None
  }

  /** `DigitChar` indexes the alphabet string, so `DigitValue` is a glyph's
      index in it. */
  lemma Alphabet()
    ensures |Digits| == 12
    ensures forall d :: 0 <= d < 12 ==> Digits[d] == DigitChar(d)
    ensures forall c :: c in Digits <==> IsGlyph(c)
  {
  }

  /** Reading a digit's glyph gives back the digit. */
  lemma DigitValueOfDigitChar(d: nat)
    requires d < 12
    ensures DigitValue(DigitChar(d)) == Some(d)
  {
  }

  function Pow12(k: nat): (p: nat)
    ensures 1 <= p
  {
    if k == 0 then 1 else 12 * Pow12(k - 1)
  }

  /**
   * `toDozenal` on a non-negative integer: its base-12 digits, most
   * significant first. Every glyph is drawn from the alphabet, the result is
   * never empty, and no positive number has a leading zero.
   */
  function ToDozenal(n: nat): (r: string)
    ensures 1 <= |r|
    ensures AllGlyphs(r)
    ensures n > 0 ==> r[0] != '0'
    decreases n
  {
    if n < 12 then [DigitChar(n)]
    else ToDozenal(n / 12) + [DigitChar(n % 12)]
  }

  /** Zero, and only zero, is the single glyph "0": the loop body runs once
      even when the argument is zero. */
  lemma ZeroIsSingleGlyph(n: nat)
    ensures ToDozenal(n) == "0" <==> n == 0
  {
    if n == 0 {
      assert ToDozenal(n) == [DigitChar(0)];
    } else {
      assert ToDozenal(n)[0] != "0"[0];
    }
  }

  /** The base-12 value of a glyph string, each glyph standing for its
      index in the alphabet, most significant first. */
  function ValueOf(s: string): nat
    requires AllGlyphs(s)
    decreases |s|
  {
    if |s| == 0 then 0
    else 12 * ValueOf(s[..|s| - 1]) + DigitValue(s[|s| - 1]).value
  }

  /**
   * Reads a glyph string back as a base-12 numeral. `None` when the string
   * is empty or holds a character outside the alphabet.
   */
  function FromDozenal(s: string): Option<nat>
  {
    if 1 <= |s| && AllGlyphs(s) then Some(ValueOf(s)) else None
  }

  /** Appending a glyph to a glyph string multiplies its value by twelve
      and adds the glyph's digit. */
  lemma ReadStep(p: string, c: char)
    requires AllGlyphs(p) && IsGlyph(c)
    ensures AllGlyphs(p + [c])
    ensures ValueOf(p + [c]) == 12 * ValueOf(p) + DigitValue(c).value
  {
    var s := p + [c];
    assert s[..|s| - 1] == p;
  }

  /** A single glyph reads as its digit. */
  lemma ReadSingle(d: nat)
    requires d < 12
    ensures FromDozenal([DigitChar(d)]) == Some(d)
  {
    var s := [DigitChar(d)];
    DigitValueOfDigitChar(d);
    assert AllGlyphs(s);
    assert s[..0] == [] && ValueOf([]) == 0;
    assert ValueOf(s) == 12 * ValueOf(s[..0]) + d;
  }

  lemma ReadAppend(p: string, d: nat)
    requires 1 <= |p| && FromDozenal(p).Some? && d < 12
    ensures FromDozenal(p + [DigitChar(d)]) == Some(12 * FromDozenal(p).value + d)
  {
    DigitValueOfDigitChar(d);
    ReadStep(p, DigitChar(d));
  }

  /** Reading the encoding back yields the number: the encoding loses nothing. */
  lemma {:induction false} RoundTrip(n: nat)
    ensures FromDozenal(ToDozenal(n)) == Some(n)
    decreases n
  {
    if n < 12 {
      assert ToDozenal(n) == [DigitChar(n)];
      ReadSingle(n);
    } else {
      var q := n / 12;
      RoundTrip(q);
      ReadAppend(ToDozenal(q), n % 12);
      assert ToDozenal(n) == ToDozenal(q) + [DigitChar(n % 12)];
      assert 12 * q + n % 12 == n;
    }
  }

  /** Distinct numbers have distinct encodings. */
  lemma Injective(m: nat, n: nat)
    ensures ToDozenal(m) == ToDozenal(n) <==> m == n
  {
    RoundTrip(m);
    RoundTrip(n);
  }

  /** The strings the encoder can produce: non-empty, glyphs only, and no
      leading zero unless the string is "0" itself. */
  predicate Canonical(s: string)
  {
    && 1 <= |s|
    && AllGlyphs(s)
    && (s[0] == '0' ==> |s| == 1)
  }

  /** Every canonical string is the encoding of the number it reads as. */
  lemma {:induction false} DecodeEncode(s: string)
    requires Canonical(s)
    ensures FromDozenal(s).Some? && ToDozenal(FromDozenal(s).value) == s
    decreases |s|
  {
    var c := s[|s| - 1];
    var d := DigitValue(c).value;
    if |s| == 1 {
      assert s == [DigitChar(d)];
      ReadSingle(d);
    } else {
      var p := s[..|s| - 1];
      assert p[0] == s[0];
      DecodeEncode(p);
      var v := FromDozenal(p).value;
      assert s == p + [DigitChar(d)];
      ReadAppend(p, d);
      var n := 12 * v + d;
      assert n / 12 == v && n % 12 == d;
    }
  }

  /** The encoder is a bijection between the naturals and the canonical
      strings. */
  lemma CanonicalIsImage(s: string)
    ensures Canonical(s) <==> exists n: nat :: ToDozenal(n) == s
  {
    if Canonical(s) {
      DecodeEncode(s);
      assert ToDozenal(FromDozenal(s).value) == s;
    }
  }

  /** The encoding of `n` has at most `k` glyphs exactly when `n < 12^k`. */
  lemma {:induction false} LengthBound(n: nat, k: nat)
    requires 1 <= k
    ensures |ToDozenal(n)| <= k <==> n < Pow12(k)
    decreases n
  {
    if n < 12 {
      PowAtLeastTwelve(k);
    } else if k == 1 {
      assert |ToDozenal(n)| == |ToDozenal(n / 12)| + 1;
    } else {
      LengthBound(n / 12, k - 1);
      assert |ToDozenal(n)| == |ToDozenal(n / 12)| + 1;
      assert n / 12 < Pow12(k - 1) <==> n < 12 * Pow12(k - 1);
    }
  }

  lemma PowAtLeastTwelve(k: nat)
    requires 1 <= k
    ensures 12 <= Pow12(k)
  {
    if k > 1 {
      PowAtLeastTwelve(k - 1);
    }
  }

  /** JavaScript's `a % 12`: truncated division, so the remainder takes the
      sign of the dividend. */
  function JsRemainder(a: int): (r: int)
    ensures 0 <= a ==> 0 <= r < 12
    ensures a < 0 ==> -12 < r <= 0
    ensures (a - r) % 12 == 0
  {
    if 0 <= a then a % 12 else -((-a) % 12)
  }

  /** `digits[i]` as an operand of string concatenation: the glyph at `i`,
      or the text "undefined" when `i` is not an index of the alphabet.
      (A remainder of negative zero is the property key "0", modelled here
      as the index 0.) */
  function GlyphAt(i: int): (g: string)
    ensures 0 <= i < 12 ==> g == [DigitChar(i)]
    ensures !(0 <= i < 12) ==> g == "undefined"
  {
    Alphabet();
    if 0 <= i < |Digits| then [Digits[i]] else "undefined"
  }

  /**
   * What `toDozenal` returns for any integer: the encoding of a natural
   * number; for a negative one the loop runs once and looks up a negative
   * remainder, giving "undefined", except for a multiple of twelve, whose
   * remainder is negative zero and reads the glyph "0".
   */
  function ToDozenalAsWritten(n: int): (r: string)
    ensures 0 <= n ==> Canonical(r) && FromDozenal(r) == Some(n)
    ensures n < 0 ==> (r == "0" <==> n % 12 == 0)
    ensures n < 0 ==> (r == "undefined" <==> n % 12 != 0)
  {
    if 0 <= n then RoundTrip(n); ToDozenal(n)
    else if n % 12 == 0 then "0"
    else "undefined"
  }

  /** One pass of the loop on a natural: prepending the glyph of its last
      digit leaves the encoding of the quotient still to be prepended, or
      nothing once the quotient is zero. */
  lemma PrependDigit(num: nat, done: string)
    ensures var r := GlyphAt(JsRemainder(num)) + done;
      if 0 < num / 12 then ToDozenal(num / 12) + r == ToDozenal(num) + done
      else r == ToDozenal(num) + done
  {
    assert JsRemainder(num) == num % 12;
    var g := [DigitChar(num % 12)];
    assert GlyphAt(num % 12) == g;
    if 12 <= num {
      var q := ToDozenal(num / 12);
      assert ToDozenal(num) == q + g;
      assert q + (g + done) == (q + g) + done;
    } else {
      assert ToDozenal(num) == g;
    }
  }

  /** The only pass of the loop on a negative number. */
  lemma NegativeGlyph(n: int)
    requires n < 0
    ensures GlyphAt(JsRemainder(n)) == ToDozenalAsWritten(n)
  {
    assert (-n) % 12 == 0 <==> n % 12 == 0;
  }

  /**
   * The encoder's loop as written: floor the argument, then prepend
   * `digits[num % 12]` and replace `num` by `Math.floor(num / 12)` until
   * `num` is no longer positive, always running the body at least once.
   */
  method ToDozenalLoop(x: real) returns (r: string)
    ensures r == ToDozenalAsWritten(x.Floor)
    ensures 0.0 <= x ==> Canonical(r) && FromDozenal(r).Some? && FromDozenal(r).value == x.Floor
    ensures x < 0.0 ==> r == "0" || r == "undefined"
  {
    var num := x.Floor;
    r := "";
    var first := true;
    while first || num > 0
      invariant first ==> num == x.Floor && r == ""
      invariant !first && num > 0 ==> ToDozenal(num) + r == ToDozenalAsWritten(x.Floor)
      invariant !first && num <= 0 ==> r == ToDozenalAsWritten(x.Floor)
      decreases (if first then 1 else 0) + (if num > 0 then num else 0)
    {
      ghost var before, done := num, r;
      r := GlyphAt(JsRemainder(num)) + r;
      // Math.floor(num / 12): Dafny's division by a positive divisor rounds down.
      num := num / 12;
      first := false;
      if 0 <= before {
        PrependDigit(before, done);
      } else {
        NegativeGlyph(before);
      }
    }
    if 0.0 <= x {
      RoundTrip(x.Floor);
    }
  }

  /** A sign for negative values, then the encoding of the magnitude. */
  function SignedDozenal(n: int): string
  {
    if 0 <= n then ToDozenal(n) else "-" + ToDozenal(-n)
  }

  /** Reads a signed numeral: an optional leading '-' before a non-zero
      magnitude. */
  function FromSignedDozenal(s: string): Option<int>
  {
    if 1 <= |s| && s[0] == '-' then
      match FromDozenal(s[1..])
      case Some(v) => if v == 0 then None else Some(-(v as int))
      case None => None
    else
      match FromDozenal(s)
      case Some(v) => Some(v)
      case None => None
  }

  /** The signed encoding reads back as the number, and agrees with the
      encoder as written wherever that is defined. */
  lemma SignedRoundTrip(n: int)
    ensures FromSignedDozenal(SignedDozenal(n)) == Some(n)
    ensures 0 <= n ==> SignedDozenal(n) == ToDozenalAsWritten(n)
  {
    if 0 <= n {
      RoundTrip(n);
    } else {
      RoundTrip(-n);
      assert SignedDozenal(n)[1..] == ToDozenal(-n);
    }
  }
}
