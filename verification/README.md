# formatFileSize, modelled in Dafny

The cloud-storage web client shows file sizes with `formatFileSize`
(`src/lib/format.ts`). It takes a byte count and returns `"<number> <unit>"`:

- the unit index is the floor of the base-1024 logarithm of the count;
- the label comes from the five-entry table `Bytes, KB, MB, GB, TB`;
- the count is divided by `1024^i` and rounded to two decimals with `toFixed(2)`;
- `parseFloat` removes the trailing zeros;
- a template string joins the number and the label with one space.

An input of exactly zero returns `"0 Bytes"` before any logarithm is taken.

This project models that function over natural-number byte counts with exact
integer arithmetic. Two modules, one per concern:

- `Numerals` (`Numerals.dfy`) holds the decimal text of numbers. It renders a
  natural number (`NatToString`). It also renders a whole count of hundredths
  the way the JavaScript number-to-string conversion prints
  `parseFloat(x.toFixed(2))` (`HundredthsToString`): the whole part, then a
  point and the fraction digits without a trailing zero, and no point when
  the fraction is zero. Each rendering has a parser beside it (`ParseNat`,
  `ParseHundredths`), and round-trip lemmas tie each pair together.
- `FileSize` (`FileSize.dfy`) holds the formatter. It has `Pow1024`, the
  exact integer logarithm `UnitIndex`, the rounded value `Hundredths`, the
  table lookup `Label` and `FormatFileSize` itself. It also has a reader
  `ParseFileSize` that recovers the number and the unit index from the
  output, and the lemmas about all of these.

Idealisation: the source computes with `Math.log`, division and `toFixed` on
binary floating-point numbers. The model uses the exact integer logarithm for
the unit index. That is the only idealised step. The rounding is not
idealised: for an integer count below 2^53, `bytes / Math.pow(1024, i)` is a
dyadic rational that a double holds exactly. `toFixed(2)` then picks the
nearest multiple of 1/100, the larger one on a tie. That is what `Hundredths`
computes, the exact rational `100 * bytes / 1024^i` rounded to the nearest
whole number of hundredths, a half rounded up.

Past the end of the table: `sizes[i]` is indexed without a bound, so from
`1024^5` bytes on the index runs past the five-entry table. The template
string then prints the missing entry as `undefined`, for example
`"1 undefined"` for `1024^5` bytes. The model follows this: `Label(i)` is
`"undefined"` for `i >= 5`, and `FormatFileSize` is total. `LabelInTableIff`
states that the label is one of the five entries exactly when the count is
below `1024^5`.

## Model

| member | source | states |
|---|---|---|
| `Numerals.NatToString` | src/lib/format.ts:8 | the printed whole number is a canonical decimal numeral: digits only, non-empty, no leading zero, and it starts with '0' exactly when the value is 0 |
| `Numerals.ParseNatOfNatToString` | src/lib/format.ts:8 | reading back the printed whole number gives the number |
| `Numerals.NatToStringOfParseNat` | src/lib/format.ts:8 | every canonical numeral is the printed form of its own value, so the printed whole numbers are exactly the canonical numerals |
| `Numerals.HundredthsToString` | src/lib/format.ts:8 | `parseFloat(x.toFixed(2))` printed by the template string, for x a whole number of hundredths; specified by `HundredthsToStringShape` (the form of the text) and `HundredthsRoundTrip` (it reads back as exactly x) |
| `Numerals.HundredthsToStringShape` | src/lib/format.ts:8 | the printed number is non-empty, uses only digits and a point, has a point exactly when the rounded value is not whole, has only digits after the first point (so at most one point), never ends in a trailing zero after the point, and the text before the point (all of it when there is none) is the canonical numeral of the whole part |
| `Numerals.HundredthsRoundTrip` | src/lib/format.ts:8 | reading back the printed number gives exactly the rounded two-decimal value, so stripping trailing zeros loses nothing |
| `FileSize.Pow1024` | src/lib/format.ts:4-8 | `Math.pow(1024, i)` is at least 1 |
| `FileSize.Pow1024Monotone` | src/lib/format.ts:4-8 | larger exponents give larger or equal powers of 1024 |
| `FileSize.UnitIndex` | src/lib/format.ts:6 | for bytes >= 1 the chosen index i satisfies 1024^i <= bytes < 1024^(i+1) |
| `FileSize.UnitIndexUnique` | src/lib/format.ts:6 | any exponent that brackets the count this way is the chosen index, so the index is floor(log_1024 bytes) |
| `FileSize.UnitIndexMonotone` | src/lib/format.ts:6 | a larger byte count never gets a smaller unit index |
| `FileSize.QuotientInRange` | src/lib/format.ts:6-8 | the count divided by 1024^i, before rounding, lies in [1, 1024) |
| `FileSize.Hundredths` | src/lib/format.ts:8 | the two-decimal value is 100 * bytes / 1024^i rounded to the nearest whole number of hundredths, with a half rounded up |
| `FileSize.HundredthsUnique` | src/lib/format.ts:8 | exactly one whole number of hundredths meets that rounding condition |
| `FileSize.HundredthsInRange` | src/lib/format.ts:6-8 | after rounding, the number shown for bytes >= 1 lies in [1, 1024]; that the top value 1024 is reached is `HundredthsBelowNextUnit` |
| `FileSize.Label` | src/lib/format.ts:5-8 | the body is `sizes[i]`, with `undefined` past the table; the contract states that the result is a table entry exactly when i < 5 |
| `FileSize.FormatFileSize` | src/lib/format.ts:1-9 | `formatFileSize(bytes)`; specified by `FormatZero`, `FormatShape`, `ParseFormatRoundTrip`, `ExactMultiple`, `HalfMultiple` and `RoundsUpTo1024` |
| `FileSize.FormatZero` | src/lib/format.ts:2 | an input of 0 yields "0 Bytes" |
| `FileSize.LabelInTableIff` | src/lib/format.ts:5-8 | the unit index is below 5, and the label is one of the five table entries, exactly when bytes < 1024^5 |
| `FileSize.UnitIndexOfUnits` | src/lib/format.ts:6 | n whole units plus less than one more unit (1 <= n < 1024) get unit index i |
| `FileSize.HundredthsOfUnits` | src/lib/format.ts:8 | exactly n units round to 100 * n hundredths, with nothing lost to rounding |
| `Numerals.WholeText` | src/lib/format.ts:8 | a whole number n of units prints as the numeral of n, with no point |
| `FileSize.ExactMultiple` | src/lib/format.ts:8 | exactly n units (1 <= n < 1024) print as the whole number n with no fractional part, followed by the unit |
| `FileSize.HundredthsOfHalf` | src/lib/format.ts:8 | n and a half units round to n.50 |
| `FileSize.HalfUnitIndexAndHundredths` | src/lib/format.ts:6-8 | n and a half units (1 <= n < 1024, from KB on) get unit index i and round to n.50 |
| `Numerals.HalfText` | src/lib/format.ts:8 | n.50 prints as n followed by ".5", with the trailing zero dropped |
| `FileSize.HalfMultiple` | src/lib/format.ts:8 | n and a half units (from KB on) print as "n.5" with a single fraction digit |
| `FileSize.HundredthsBelowNextUnit` | src/lib/format.ts:6-8 | one byte below 1024^(i+1), for i >= 1, keeps unit index i and rounds to 1024.00, so the upper bound of `HundredthsInRange` is reached |
| `FileSize.RoundsUpTo1024` | src/lib/format.ts:6-8 | one byte below the next unit, from KB on, prints as "1024 <unit>", because the unit is never chosen again after rounding |
| `Numerals.NatToString1024` | src/lib/format.ts:8 | 1024 prints as "1024" |
| `FileSize.ExampleOneKilobyte` | src/lib/format.ts:1-9 | 1024 bytes give "1 KB" |
| `FileSize.ExampleOneAndAHalfKilobytes` | src/lib/format.ts:1-9 | 1536 bytes give "1.5 KB" |
| `FileSize.ExampleOneMegabyte` | src/lib/format.ts:1-9 | 1048576 bytes give "1 MB" |
| `FileSize.ExampleRoundsUpTo1024` | src/lib/format.ts:1-9 | 1048575 bytes give "1024 KB" |
| `FileSize.ExamplePastTheTable` | src/lib/format.ts:5-8 | 1024^5 bytes give "1 undefined", because the index runs past the five-entry table |
| `FileSize.SplitAtSpace` | src/lib/format.ts:8 | a number without spaces joined to a label by one space splits back at that space into the number and the label |
| `FileSize.FormatShape` | src/lib/format.ts:8 | for bytes < 1024^5 the output is a non-empty number part made of digits and points, exactly one space, then one of the five labels (that the number has at most one point is `HundredthsToStringShape`) |
| `FileSize.LabelHasNoSpace` | src/lib/format.ts:5 | no label in the table contains a space |
| `FileSize.SizesDistinct` | src/lib/format.ts:5 | the five labels are distinct, so each one identifies its unit index |
| `FileSize.ParseFormatRoundTrip` | src/lib/format.ts:1-9 | for 1 <= bytes < 1024^5, reading the output back gives the rounded number and the unit index floor(log_1024 bytes) it was printed with |
| `FileSize.ParseFormatZero` | src/lib/format.ts:2 | "0 Bytes" reads back as zero hundredths at unit index 0 |

## Left out

- `formatDate` (src/lib/format.ts:11-17): a call into the `Intl.DateTimeFormat` library with the `pt-BR` locale. That library's output is not part of this model.
- src/components/AppSidebar.tsx: React rendering, the collapse toggle and the unused search state, router navigation, the asynchronous sign-out call with its toast notification, and the DOM click on the file input. All of it is UI glue, I/O or foreign calls with no algorithm.
- Floating-point behaviour of `Math.log` in `formatFileSize`. The quotient of two logarithms can land on the wrong side of an integer at an exact power of 1024 and for counts just below one. So `RoundsUpTo1024`'s "1024 TB" for 1024^5 - 1 bytes holds only with the exact logarithm. The unit index is the exact integer logarithm, as described above.
- Counts above 2^53, not all of which a double can hold. Up to that bound the model's rounding matches `toFixed(2)`.
- Negative, fractional and non-finite inputs. A count between 0 and 1 gives a negative index in the source; the model takes natural numbers only.
- JavaScript's exponent notation for printed numbers is not modelled. The printed value is at most 1024, where the plain decimal form applies.
