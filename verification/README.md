# Dozenal alien clock

A model of the alien clock of the portfolio site
(`src/components/ui/AlienClock.tsx`), the one self-contained piece of logic
in a repository that is otherwise 3D scene composition and page layout.

The clock reads the local time and shows:

- the **stellar cycle**, the twelve-year period since 2000 the year falls in
  (rounded down), as a dozenal glyph;
- the **orbital phase**, the month 0..11, as a dial of twelve dots with the
  month's dot highlighted;
- **rotation : segment : pulse**, the hour, minute and second, each written
  in dozenal.

Dozenal numerals use the alphabet `0123456789↊↋`: a glyph's index in that
string is its digit value. `toDozenal` floors its argument, then prepends the
glyph of `num % 12` and divides by twelve (rounding down) until the quotient
is no longer positive; its do-while loop always runs at least once.

Files:

- `optional.dfy` — module `Optional`: the `Option` type.
- `dozenal.dfy` — module `Dozenal`: the alphabet, the encoder `ToDozenal`
  on naturals, its inverse reading `FromDozenal`, the loop as written
  (`ToDozenalLoop`) on any number including negative ones, and a signed
  encoding.
- `orbital.dfy` — module `Orbital`: which dial dot gets the highlight fill.
- `clock.dfy` — module `Clock`: the clock fields (`getAlienTime`) from a
  calendar reading, and the face.

The local time is a parameter (`Clock.Reading`: year, month 0..11, hour,
minute, second). JavaScript numbers are mathematical integers, or reals
where the encoder floors its argument. JavaScript's `%` truncates toward
zero, which `Dozenal.JsRemainder` writes out; `Math.floor(num / 12)` is
Dafny's `/` by a positive divisor, which rounds down. Indexing the alphabet
outside 0..11 gives `undefined`, which string concatenation turns into the
text "undefined" (`Dozenal.GlyphAt`).

## Model

| member | source | states |
|---|---|---|
| Dozenal.ToDozenal | src/components/ui/AlienClock.tsx:6-17 | the encoding of a natural is non-empty, uses only the twelve glyphs, and never starts with '0' for a positive number |
| Dozenal.ZeroIsSingleGlyph | src/components/ui/AlienClock.tsx:11-14 | the encoding is exactly "0" for zero, because the loop body runs once, and for no other number |
| Dozenal.DigitValue | src/components/ui/AlienClock.tsx:7 | a character has a digit value exactly when it is in the alphabet, and the value is below twelve and names that character |
| Dozenal.Alphabet | src/components/ui/AlienClock.tsx:7 | the alphabet string has twelve characters, the character at index d is the glyph of digit d, and its characters are exactly the glyphs |
| Dozenal.ReadStep | src/components/ui/AlienClock.tsx:12 | appending a glyph to a glyph string keeps it readable and multiplies its value by twelve before adding the glyph's digit, the inverse of one prepending pass |
| Dozenal.RoundTrip | src/components/ui/AlienClock.tsx:9-14 | reading the encoding of n back as base 12 gives n |
| Dozenal.Injective | src/components/ui/AlienClock.tsx:9-14 | two naturals have the same encoding if and only if they are equal |
| Dozenal.DecodeEncode | src/components/ui/AlienClock.tsx:11-14 | every non-empty glyph string without a leading zero (other than "0") is the encoding of the number it reads as |
| Dozenal.CanonicalIsImage | src/components/ui/AlienClock.tsx:11-14 | the encodings are exactly the canonical numerals, so the encoder is a bijection from the naturals onto them |
| Dozenal.LengthBound | src/components/ui/AlienClock.tsx:11-14 | for k at least 1, the encoding of n has at most k glyphs if and only if n < 12^k |
| Dozenal.JsRemainder | src/components/ui/AlienClock.tsx:12 | the remainder by twelve lies in 0..11 for a non-negative dividend and in -11..0 for a negative one, and differs from the dividend by a multiple of twelve |
| Dozenal.GlyphAt | src/components/ui/AlienClock.tsx:12 | looking up an index 0..11 gives that digit's glyph; any other index gives the text "undefined" |
| Dozenal.PrependDigit | src/components/ui/AlienClock.tsx:11-14 | one pass on a natural prepends the glyph of its last digit, leaving the encoding of the quotient still to prepend while the quotient is positive and nothing once it is zero |
| Dozenal.NegativeGlyph | src/components/ui/AlienClock.tsx:12-14 | the single pass on a negative number gives "0" for a multiple of twelve and "undefined" otherwise |
| Dozenal.ToDozenalAsWritten | src/components/ui/AlienClock.tsx:6-17 | defined to match `toDozenal` on every integer, negatives included (`ToDozenalLoop` proves the loop computes it): a non-negative argument gets a canonical numeral that reads back as it; a negative one gets "0" exactly when it is a multiple of twelve and "undefined" otherwise |
| Dozenal.ToDozenalLoop | src/components/ui/AlienClock.tsx:6-17 | the do-while loop on any number returns the encoding of its floor when the number is non-negative, reading back as the floor; on a negative number it returns "0" or "undefined" |
| Dozenal.SignedRoundTrip | src/components/ui/AlienClock.tsx:117 | the signed encoding reads back as the integer, and agrees with the encoder as written on non-negative integers |
| Clock.StellarCycle | src/components/ui/AlienClock.tsx:23 | the stellar cycle s of a year satisfies 12s <= year - 2000 < 12s + 12, and is negative exactly for years before 2000 |
| Clock.GetAlienTime | src/components/ui/AlienClock.tsx:20-38 | defined to match `getAlienTime` on a given reading: the numeric fields copy the stellar cycle, month, hour, minute and second, and on a valid reading each dozenal field reads back as its numeric field; canonical form and the two-glyph bound are in `AlienTimeFields` |
| Clock.AlienTimeFields | src/components/ui/AlienClock.tsx:20-38 | on a valid reading the numeric fields copy the reading, and the dozenal rotation, segment and pulse are canonical numerals of at most two glyphs that read back as hour, minute and second |
| Clock.RenderAsWritten | src/components/ui/AlienClock.tsx:106-136 | defined to match the face markup: a non-negative stellar cycle reads back from its glyph and a negative one shows "0" or "undefined" (see `StellarGlyphBefore2000`), one dial dot is lit exactly when the orbital phase is 0..11, and the time glyphs are the dozenal fields |
| Clock.StellarGlyphBefore2000 | src/components/ui/AlienClock.tsx:117 | before 2000 the face as written shows "undefined" or "0" for the stellar cycle, which does not read back as the cycle |
| Clock.Year1999ShowsUndefined | src/components/ui/AlienClock.tsx:117 | in 1999 the face as written shows "undefined" for the stellar cycle |
| Clock.FaceReadsBack | src/components/ui/AlienClock.tsx:106-136 | on a valid reading every glyph of the face reads back as its field and exactly one dial dot, the month's, is lit; from 2000 on the face equals the face as written |
| Orbital.Fills | src/components/ui/AlienClock.tsx:68-78 | the dial has twelve dots, and dot i gets the highlight fill exactly when i equals the value and the dim fill otherwise |
| Orbital.CountLitSingle | src/components/ui/AlienClock.tsx:68-78 | a fill sequence highlighted only at index v has one lit dot if v is an index and none otherwise |
| Orbital.ExactlyOneLit | src/components/ui/AlienClock.tsx:61-85 | for a value in 0..11 exactly one dot is lit, the one at that index; for any other value none is |

## Findings

| source | as written | input that shows it | evidently intended | confidence | as-written member | corrected member |
|---|---|---|---|---|---|---|
| src/components/ui/AlienClock.tsx:117 | the stellar cycle, negative before 2000, is passed to `toDozenal`, whose `digits[num % 12]` then indexes the alphabet with a negative number and shows "undefined" (or "0" for a multiple of twelve) | year 1999: cycle -1, glyph "undefined" | a glyph that reads back as the cycle; the model assumes a minus sign before the dozenal magnitude | medium that it is unintended, low on the intended form; not executed | Clock.StellarGlyphBefore2000 | Clock.FaceReadsBack |

`Clock.RenderAsWritten` is the face as the code draws it; `Clock.Render`
uses `Dozenal.SignedDozenal` for the stellar cycle and is otherwise the same.

## Left out

- The refresh loop (`requestAnimationFrame` / `cancelAnimationFrame`), the
  React state and effect, and reading `new Date()`: timing and I/O; the
  calendar fields are a parameter.
- The framer-motion animations of the panel and of the glyphs: animation
  library calls with no logic.
- The dial dots' coordinates (`Math.cos` / `Math.sin` of `i * 2π / 12`,
  radius 20) and their radius: floating-point drawing; only which dot is
  highlighted is modelled.
- JavaScript numbers as IEEE doubles: integers are unbounded and the loop's
  argument is a real, so NaN, infinities and precision loss above 2^53 are
  not modelled. The clock only encodes small integers.
- Negative zero: JavaScript's `-12 % 12` is -0, and `digits[-0]` is the
  property "0"; the model writes this remainder as the index 0, which
  selects the same glyph.
- Every other part of the repository (3D scenes, orbit and camera
  animation, shaders, asset loaders, routing, pages): scene-graph glue and
  floating-point animation outside the clock.
