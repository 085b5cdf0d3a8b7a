/**
 * The alien clock's fields: the calendar reading is split into a stellar
 * cycle (twelve-year periods since 2000), an orbital phase (the month), and
 * rotation, segment and pulse (hour, minute, second), the last three also
 * encoded in dozenal; and the face that shows them.
 *
 * The local clock is not read here: its fields arrive as a `Reading`.
 */
module Clock {
  import opened Optional
  import opened Dozenal
  import Orbital

  /** The calendar fields the clock reads from the local time. */
  datatype Reading = Reading(year: int, month: int, hour: int, minute: int, second: int)

  /** The ranges the local-time getters guarantee: month 0..11, hour 0..23,
      minute and second 0..59. */
  predicate ValidReading(c: Reading)
  {
    && 0 <= c.month < 12
    && 0 <= c.hour < 24
    && 0 <= c.minute < 60
    && 0 <= c.second < 60
  }

  datatype DozenalFields = DozenalFields(rotation: string, segment: string, pulse: string)

  datatype AlienTime = AlienTime(
    stellar: int,
    orbital: int,
    rotation: int,
    segment: int,
    pulse: int,
    dozenal: DozenalFields)

  /** The year the stellar cycles are counted from. */
  const Epoch: int := 2000

  /** The twelve-year period since 2000 that `year` falls in, rounded down,
      so negative before 2000. */
  function StellarCycle(year: int): (s: int)
    ensures 12 * s <= year - Epoch < 12 * s + 12
    ensures s < 0 <==> year < Epoch
  {
    (year - Epoch) / 12
  }

  /** `getAlienTime` on a given reading: the numeric fields copy the
      reading, and on a valid reading each dozenal field reads back as its
      numeric field. */
  function GetAlienTime(c: Reading): (t: AlienTime)
    ensures t.stellar == StellarCycle(c.year) && t.orbital == c.month
    ensures t.rotation == c.hour && t.segment == c.minute && t.pulse == c.second
    ensures ValidReading(c) ==>
      && FromDozenal(t.dozenal.rotation) == Some(c.hour)
      && FromDozenal(t.dozenal.segment) == Some(c.minute)
      && FromDozenal(t.dozenal.pulse) == Some(c.second)
  {
    AlienTime(
      StellarCycle(c.year), c.month, c.hour, c.minute, c.second,
      DozenalFields(
        ToDozenalAsWritten(c.hour),
        ToDozenalAsWritten(c.minute),
        ToDozenalAsWritten(c.second)))
  }

  /**
   * On a valid reading the numeric fields are the reading's fields, and the
   * dozenal fields are canonical numerals of at most two glyphs that read
   * back as the hour, minute and second.
   */
  lemma AlienTimeFields(c: Reading)
    requires ValidReading(c)
    ensures var t := GetAlienTime(c);
      && t.stellar == StellarCycle(c.year)
      && t.orbital == c.month
      && t.rotation == c.hour && t.segment == c.minute && t.pulse == c.second
      && FromDozenal(t.dozenal.rotation) == Some(c.hour)
      && FromDozenal(t.dozenal.segment) == Some(c.minute)
      && FromDozenal(t.dozenal.pulse) == Some(c.second)
      && Canonical(t.dozenal.rotation) && |t.dozenal.rotation| <= 2
      && Canonical(t.dozenal.segment) && |t.dozenal.segment| <= 2
      && Canonical(t.dozenal.pulse) && |t.dozenal.pulse| <= 2
  {
    RoundTrip(c.hour);
    RoundTrip(c.minute);
    RoundTrip(c.second);
    LengthBound(c.hour, 2);
    LengthBound(c.minute, 2);
    LengthBound(c.second, 2);
  }

  /** What the clock face shows: the stellar-cycle glyph, the fills of the
      orbital dial, and the three time glyphs. */
  datatype Face = Face(
    stellar: string,
    orbital: seq<string>,
    rotation: string,
    segment: string,
    pulse: string)

  /** The face as written: the stellar cycle goes through the encoder even
      when it is negative, so only a non-negative cycle reads back. One dial
      dot is lit exactly when the orbital phase is 0..11, and the time
      glyphs are the dozenal fields. */
  function RenderAsWritten(t: AlienTime): (f: Face)
    ensures 0 <= t.stellar ==> FromDozenal(f.stellar) == Some(t.stellar)
    ensures t.stellar < 0 ==> f.stellar == "0" || f.stellar == "undefined"
    ensures Orbital.CountLit(f.orbital) == (if 0 <= t.orbital < Orbital.SegmentCount then 1 else 0)
    ensures f.rotation == t.dozenal.rotation && f.segment == t.dozenal.segment
    ensures f.pulse == t.dozenal.pulse
  {
    Orbital.ExactlyOneLit(t.orbital);
    Face(ToDozenalAsWritten(t.stellar), Orbital.Fills(t.orbital),
      t.dozenal.rotation, t.dozenal.segment, t.dozenal.pulse)
  }

  /** The face with the stellar cycle in signed dozenal. */
  function Render(t: AlienTime): Face
  {
    Face(SignedDozenal(t.stellar), Orbital.Fills(t.orbital),
      t.dozenal.rotation, t.dozenal.segment, t.dozenal.pulse)
  }

  /**
   * Before 2000 the face as written shows "undefined" (or "0" when the
   * cycle is a multiple of twelve) for the stellar cycle, which reads back
   * as no cycle at all or as the wrong one.
   */
  lemma StellarGlyphBefore2000(c: Reading)
    requires c.year < Epoch
    ensures var g := RenderAsWritten(GetAlienTime(c)).stellar;
      && (g == "undefined" || g == "0")
      && FromSignedDozenal(g) != Some(StellarCycle(c.year))
  {
  }

  /** The first year the face as written gets wrong. */
  lemma Year1999ShowsUndefined()
    ensures RenderAsWritten(GetAlienTime(Reading(1999, 11, 23, 59, 59))).stellar == "undefined"
  {
  }

  /**
   * On every valid reading the face reads back as the clock's fields: the
   * stellar glyph as the stellar cycle, exactly one dial dot lit (the
   * month's), and the three time glyphs as hour, minute and second. From
   * 2000 on it is the face as written.
   */
  lemma FaceReadsBack(c: Reading)
    requires ValidReading(c)
    ensures var f := Render(GetAlienTime(c));
      && FromSignedDozenal(f.stellar) == Some(StellarCycle(c.year))
      && Orbital.CountLit(f.orbital) == 1
      && f.orbital[c.month] == Orbital.HighlightFill
      && FromDozenal(f.rotation) == Some(c.hour)
      && FromDozenal(f.segment) == Some(c.minute)
      && FromDozenal(f.pulse) == Some(c.second)
    ensures Epoch <= c.year ==> Render(GetAlienTime(c)) == RenderAsWritten(GetAlienTime(c))
  {
    SignedRoundTrip(StellarCycle(c.year));
    Orbital.ExactlyOneLit(c.month);
    AlienTimeFields(c);
  }
}
