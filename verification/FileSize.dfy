/** The byte-size formatter formatFileSize.

    A byte count is shown as "<number> <unit>": the unit is picked by the
    floor of the base-1024 logarithm of the count, the count is divided by
    that power of 1024 and rounded to two decimals, and the number is
    printed without trailing zeros. Zero is answered directly as "0 Bytes".

    Idealisation: byte counts are natural numbers, and the floating-point
    steps are exact here. The unit index is the exact integer logarithm
    (the source's Math.log quotient can land on the wrong side of an integer
    at an exact power of 1024 or just below one). The two-decimal rounding
    is exact rounding of a rational, with halves rounded up as toFixed does
    for positive values; for counts below 2^53 the source's quotient is
    exactly representable, so there the rounding matches the source.
 */
module FileSize {
  import opened Numerals

  const Base: nat := 1024

  /** The unit labels, indexed by the power of 1024 they stand for. */
  const Sizes: seq<string> := ["Bytes", "KB", "MB", "GB", "TB"]

  /** 1024^i. */
  function Pow1024(i: nat): (p: nat)
    ensures p >= 1
  {
    if i == 0 then 1 else Base * Pow1024(i - 1)
  }

  /** Larger exponents give larger powers. */
  lemma {:induction false} Pow1024Monotone(i: nat, j: nat)
    requires i <= j
    ensures Pow1024(i) <= Pow1024(j)
    decreases j - i
  {
    if i < j {
      Pow1024Monotone(i, j - 1);
    }
  }

  /** floor(log_1024 b) for b >= 1, computed exactly: the power of 1024
      that the count reaches but does not exceed the next one of. */
  function UnitIndex(b: nat): (i: nat)
    requires b >= 1
    ensures Pow1024(i) <= b < Pow1024(i + 1)
    decreases b
  {
    if b < Base then 0
    else
      var q := b / Base;
      var i' := UnitIndex(q);
      assert Base * Pow1024(i') <= Base * q <= b;
      assert b < Base * (q + 1) <= Base * Pow1024(i' + 1);
      1 + i'
  }

  /** UnitIndex is the only exponent that brackets b, so it is floor(log_1024 b). */
  lemma UnitIndexUnique(b: nat, j: nat)
    requires Pow1024(j) <= b < Pow1024(j + 1)
    ensures UnitIndex(b) == j
  {
    var i := UnitIndex(b);
    if i < j {
      Pow1024Monotone(i + 1, j);
    } else if j < i {
      Pow1024Monotone(j + 1, i);
    }
  }

  /** A larger count never gets a smaller unit. */
  lemma UnitIndexMonotone(a: nat, b: nat)
    requires 1 <= a <= b
    ensures UnitIndex(a) <= UnitIndex(b)
  {
    if UnitIndex(a) > UnitIndex(b) {
      Pow1024Monotone(UnitIndex(b) + 1, UnitIndex(a));
    }
  }

  /** The count divided by the unit's power, before rounding, lies in [1, 1024). */
  lemma QuotientInRange(b: nat)
    requires b >= 1
    ensures 1 <= b / Pow1024(UnitIndex(b)) < Base
  {
    var p := Pow1024(UnitIndex(b));
    assert b < Base * p;
    if b / p >= Base {
      MulMonotone(Base, b / p, p);
    }
  }

  lemma MulMonotone(a: nat, c: nat, p: nat)
    requires a <= c
    ensures a * p <= c * p
  {
  }

  /** a * p < c * p gives a < c. */
  lemma MulCancelLess(a: nat, c: nat, p: nat)
    requires a * p < c * p
    ensures a < c
  {
    if c <= a {
      MulMonotone(c, a, p);
    }
  }

  /** (b / 1024^i).toFixed(2), read as a count of hundredths: 100 * b / 1024^i
      rounded to the nearest whole number, a half rounded up. Both sides are
      doubled: h is the whole number with h <= 100 * b / 1024^i + 1/2 < h + 1. */
  function Hundredths(b: nat, i: nat): (h: nat)
    ensures h * (2 * Pow1024(i)) <= 200 * b + Pow1024(i) < (h + 1) * (2 * Pow1024(i))
  {
    (200 * b + Pow1024(i)) / (2 * Pow1024(i))
  }

  /** Only one count of hundredths is the rounding of 100 * b / 1024^i. */
  lemma HundredthsUnique(b: nat, i: nat, h: nat)
    requires h * (2 * Pow1024(i)) <= 200 * b + Pow1024(i) < (h + 1) * (2 * Pow1024(i))
    ensures Hundredths(b, i) == h
  {
    var d := 2 * Pow1024(i);
    var g := Hundredths(b, i);
    MulCancelLess(g, h + 1, d);
    MulCancelLess(h, g + 1, d);
  }

  /** The rounded number shown for b >= 1 lies in [1, 1024]: it can reach
      1024, because the unit is chosen before rounding and not chosen again. */
  lemma HundredthsInRange(b: nat)
    requires b >= 1
    ensures 100 <= Hundredths(b, UnitIndex(b)) <= 100 * Base
  {
    var i := UnitIndex(b);
    var p := Pow1024(i);
    var d := 2 * p;
    var h := Hundredths(b, i);
    assert p <= b < Base * p;
    assert 100 * d < 200 * b + p;
    MulCancelLess(100, h + 1, d);
    assert 200 * b + p < (100 * Base + 1) * d;
    MulCancelLess(h, 100 * Base + 1, d);
  }

  /** sizes[i]. Past the five-entry table the template string prints the
      missing entry as "undefined". */
  function Label(i: nat): (l: string)
    ensures l in Sizes <==> i < |Sizes|
  {
    if i < |Sizes| then Sizes[i]
    else
      assert "undefined" != Sizes[0] && "undefined" != Sizes[1] && "undefined" != Sizes[2];
      assert "undefined" != Sizes[3] && "undefined" != Sizes[4];
      "undefined"
  }

  /** formatFileSize(bytes). */
  function FormatFileSize(bytes: nat): (s: string)
  {
    if bytes == 0 then "0 Bytes"
    else
      var i := UnitIndex(bytes);
      HundredthsToString(Hundredths(bytes, i)) + " " + Label(i)
  }

  /** For b >= 1 the output is the rounded number, one space, and the label. */
  lemma FormatParts(b: nat, i: nat, h: nat)
    requires b >= 1 && UnitIndex(b) == i && Hundredths(b, i) == h
    ensures FormatFileSize(b) == HundredthsToString(h) + [' '] + Label(i)
  {
  }

  /** Zero is answered directly, without a unit index being computed. */
  lemma FormatZero()
    ensures FormatFileSize(0) == "0 Bytes"
  {
  }

  /** The label is one of the five table entries exactly when the count is
      below 1024^5; from 1024^5 on the unit index runs past the table. */
  lemma LabelInTableIff(b: nat)
    requires b >= 1
    ensures UnitIndex(b) < |Sizes| <==> b < Pow1024(5)
    ensures Label(UnitIndex(b)) in Sizes <==> b < Pow1024(5)
  {
    var i := UnitIndex(b);
    if i < 5 {
      Pow1024Monotone(i + 1, 5);
    } else {
      Pow1024Monotone(5, i);
    }
  }

  /** n units and r bytes more, r short of another unit, have unit index i. */
  lemma UnitIndexOfUnits(n: nat, r: nat, i: nat)
    requires 1 <= n < Base && r < Pow1024(i)
    ensures UnitIndex(n * Pow1024(i) + r) == i
  {
    var p := Pow1024(i);
    MulMonotone(1, n, p);
    MulMonotone(n + 1, Base, p);
    assert (n + 1) * p == n * p + p;
    UnitIndexUnique(n * p + r, i);
  }

  /** A count of exactly n units (1 <= n < 1024) prints as the whole number n. */
  lemma ExactMultiple(n: nat, i: nat)
    requires 1 <= n < Base
    ensures FormatFileSize(n * Pow1024(i)) == NatToString(n) + " " + Label(i)
  {
    var b := n * Pow1024(i);
    UnitIndexOfUnits(n, 0, i);
    HundredthsOfUnits(n, i);
    WholeText(n);
    FormatParts(b, i, 100 * n);
    assert NatToString(n) + [' '] + Label(i) == NatToString(n) + " " + Label(i);
  }

  /** Exactly n units round to 100 * n hundredths. */
  lemma HundredthsOfUnits(n: nat, i: nat)
    ensures Hundredths(n * Pow1024(i), i) == 100 * n
  {
    var p := Pow1024(i);
    var b := n * p;
    assert (100 * n) * (2 * p) == 200 * b;
    assert (100 * n + 1) * (2 * p) == 200 * b + 2 * p;
    HundredthsUnique(b, i, 100 * n);
  }

  /** n and a half units round to 100 * n + 50 hundredths. */
  lemma HundredthsOfHalf(n: nat, i: nat)
    requires i >= 1
    ensures Hundredths(n * Pow1024(i) + Pow1024(i) / 2, i) == 100 * n + 50
  {
    var p := Pow1024(i);
    var half := 512 * Pow1024(i - 1);
    assert p == 2 * half && p / 2 == half;
    var m := n * p;
    var h := 100 * n + 50;
    assert h * (2 * p) == 200 * m + 100 * p;
    assert (h + 1) * (2 * p) == 200 * m + 102 * p;
    HundredthsUnique(m + half, i, h);
  }

  /** n and a half units (1 <= n < 1024, i >= 1) have unit index i and round
      to 100 * n + 50 hundredths. */
  lemma HalfUnitIndexAndHundredths(n: nat, i: nat)
    requires 1 <= n < Base && i >= 1
    ensures n * Pow1024(i) + Pow1024(i) / 2 >= 1
    ensures UnitIndex(n * Pow1024(i) + Pow1024(i) / 2) == i
    ensures Hundredths(n * Pow1024(i) + Pow1024(i) / 2, i) == 100 * n + 50
  {
    var p := Pow1024(i);
    UnitIndexOfUnits(n, p / 2, i);
    HundredthsOfHalf(n, i);
    MulMonotone(1, n, p);
  }

  /** A count of n and a half units (1 <= n < 1024, i >= 1) prints with the
      single fraction digit 5. */
  lemma HalfMultiple(n: nat, i: nat)
    requires 1 <= n < Base && i >= 1
    ensures FormatFileSize(n * Pow1024(i) + Pow1024(i) / 2)
         == NatToString(n) + ".5 " + Label(i)
  {
    var b := n * Pow1024(i) + Pow1024(i) / 2;
    HalfUnitIndexAndHundredths(n, i);
    FormatParts(b, i, 100 * n + 50);
    HalfText(n);
    assert (NatToString(n) + ".5") + [' '] + Label(i) == NatToString(n) + ".5 " + Label(i);
  }

  /** 1024 bytes, exactly one unit up, print as "1 KB". */
  lemma ExampleOneKilobyte()
    ensures FormatFileSize(1024) == "1 KB"
  {
    assert 1 * Pow1024(1) == 1024;
    assert NatToString(1) + " " + Label(1) == "1 KB" by {
      assert NatToString(1) == "1";
    }
    ExactMultiple(1, 1);
  }

  /** 1536 bytes, a unit and a half, print as "1.5 KB". */
  lemma ExampleOneAndAHalfKilobytes()
    ensures FormatFileSize(1536) == "1.5 KB"
  {
    assert 1 * Pow1024(1) + Pow1024(1) / 2 == 1536;
    assert NatToString(1) + ".5 " + Label(1) == "1.5 KB" by {
      assert NatToString(1) == "1";
    }
    HalfMultiple(1, 1);
  }

  /** 1048576 bytes print as "1 MB". */
  lemma ExampleOneMegabyte()
    ensures FormatFileSize(1048576) == "1 MB"
  {
    assert 1 * Pow1024(2) == 1048576 by {
      assert Pow1024(1) == 1024;
    }
    assert NatToString(1) + " " + Label(2) == "1 MB" by {
      assert NatToString(1) == "1";
    }
    ExactMultiple(1, 2);
  }

  /** One byte short of the next unit (for any unit from KB on) keeps the
      current unit and rounds to 102400 hundredths. */
  lemma HundredthsBelowNextUnit(i: nat)
    requires i >= 1
    ensures UnitIndex(Pow1024(i + 1) - 1) == i
    ensures Hundredths(Pow1024(i + 1) - 1, i) == 100 * Base
  {
    var p := Pow1024(i);
    Pow1024Monotone(1, i);
    var b := Base * p - 1;
    assert b == 1023 * p + (p - 1);
    UnitIndexOfUnits(1023, p - 1, i);
    var h := 100 * Base;
    assert h * (2 * p) == 204800 * p;
    assert (h + 1) * (2 * p) == 204802 * p;
    assert 200 * b + p == 204801 * p - 200;
    HundredthsUnique(b, i, h);
  }

  /** One byte short of the next unit (for any unit from KB on) prints as
      1024 of the current unit: the unit is not chosen again after rounding. */
  lemma RoundsUpTo1024(i: nat)
    requires i >= 1
    ensures FormatFileSize(Pow1024(i + 1) - 1) == NatToString(Base) + " " + Label(i)
  {
    var b := Pow1024(i + 1) - 1;
    HundredthsBelowNextUnit(i);
    WholeText(Base);
    FormatParts(b, i, 100 * Base);
  }

  /** One byte short of a megabyte stays in KB and rounds up to "1024 KB". */
  lemma ExampleRoundsUpTo1024()
    ensures FormatFileSize(1048575) == "1024 KB"
  {
    assert Pow1024(1 + 1) - 1 == 1048575 by {
      assert Pow1024(1) == 1024;
    }
    assert NatToString(Base) + " " + Label(1) == "1024 KB" by {
      NatToString1024();
    }
    RoundsUpTo1024(1);
  }

  /** 1024^5 bytes index past the table: the label prints as "undefined". */
  lemma ExamplePastTheTable()
    ensures FormatFileSize(Pow1024(5)) == "1 undefined"
  {
    assert 1 * Pow1024(5) == Pow1024(5);
    assert NatToString(1) + " " + Label(5) == "1 undefined" by {
      assert NatToString(1) == "1";
    }
    ExactMultiple(1, 5);
  }

  /** Reads "<number> <label>" back into (hundredths, unit index); text of
      any other shape, or with a label outside the table, has no reading. */
  function ParseFileSize(s: string): (r: Option<(nat, nat)>)
  {
    var k := Find(s, ' ');
    if k == |s| then None
    else
      var unit := s[k + 1..];
      var i := Find(Sizes, unit);
      match ParseHundredths(s[..k])
      case Some(h) => if i < |Sizes| then Some((h, i)) else None
      case None => None
  }

  /** A text "<num> <unit>" whose first part has no space splits at that space. */
  lemma SplitAtSpace(num: string, unit: string)
    requires forall j :: 0 <= j < |num| ==> num[j] != ' '
    ensures var s := num + [' '] + unit;
      Find(s, ' ') == |num| && s[..|num|] == num && s[|num| + 1..] == unit
  {
    FindAfter(num, ' ', unit);
    var s := num + [' '] + unit;
    assert s[..|num|] == num;
    assert s[|num| + 1..] == unit;
  }

  /** The output is "<number> <label>": a non-empty numeral of digits and a
      point, exactly one space, then one of the five labels. */
  lemma FormatShape(b: nat)
    requires b < Pow1024(5)
    ensures var s := FormatFileSize(b); var k := Find(s, ' ');
      && 0 < k < |s|
      && (forall j :: 0 <= j < |s| && j != k ==> s[j] != ' ')
      && (forall j :: 0 <= j < k ==> IsDigit(s[j]) || s[j] == '.')
      && s[k + 1..] in Sizes
  {
    if b == 0 {
      assert FormatFileSize(b) == "0" + [' '] + "Bytes";
      JoinShape("0", "Bytes");
    } else {
      var i := UnitIndex(b);
      var h := Hundredths(b, i);
      var num := HundredthsToString(h);
      assert |num| >= 1 && forall j :: 0 <= j < |num| ==> IsDigit(num[j]) || num[j] == '.' by {
        HundredthsToStringShape(h);
      }
      assert Label(i) in Sizes by {
        LabelInTableIff(b);
      }
      assert FormatFileSize(b) == num + [' '] + Label(i) by {
        FormatParts(b, i, h);
      }
      JoinShape(num, Label(i));
    }
  }

  /** A non-empty numeral joined to a table label by one space has its only
      space at the join. */
  lemma JoinShape(num: string, unit: string)
    requires |num| >= 1 && forall j :: 0 <= j < |num| ==> IsDigit(num[j]) || num[j] == '.'
    requires unit in Sizes
    ensures var s := num + [' '] + unit; var k := Find(s, ' ');
      && 0 < k < |s|
      && (forall j :: 0 <= j < |s| && j != k ==> s[j] != ' ')
      && (forall j :: 0 <= j < k ==> IsDigit(s[j]) || s[j] == '.')
      && s[k + 1..] in Sizes
  {
    LabelHasNoSpace(unit);
    SplitAtSpace(num, unit);
    var s := num + [' '] + unit;
    assert forall j :: |num| < j < |s| ==> s[j] == unit[j - |num| - 1];
  }

  lemma LabelHasNoSpace(unit: string)
    requires unit in Sizes
    ensures forall j :: 0 <= j < |unit| ==> unit[j] != ' '
  {
  }

  /** Re-reading the output recovers the rounded number and the unit index
      floor(log_1024 b) it was printed with, for every count below 1024^5. */
  lemma ParseFormatRoundTrip(b: nat)
    requires 1 <= b < Pow1024(5)
    ensures ParseFileSize(FormatFileSize(b)) == Some((Hundredths(b, UnitIndex(b)), UnitIndex(b)))
  {
    var i := UnitIndex(b);
    var h := Hundredths(b, i);
    var num := HundredthsToString(h);
    HundredthsToStringShape(h);
    LabelInTableIff(b);
    FormatParts(b, i, h);
    SplitAtSpace(num, Sizes[i]);
    HundredthsRoundTrip(h);
    SizesDistinct(i);
  }

  /** Zero reads back as zero Bytes. */
  lemma ParseFormatZero()
    ensures ParseFileSize(FormatFileSize(0)) == Some((0, 0))
  {
    assert FormatFileSize(0) == "0" + [' '] + "Bytes";
    SplitAtSpace("0", "Bytes");
    HundredthsRoundTrip(0);
    assert HundredthsToString(0) == "0";
    SizesDistinct(0);
  }

  /** Each label is found at its own index, so the unit can be read back. */
  lemma SizesDistinct(i: nat)
    requires i < |Sizes|
    ensures Find(Sizes, Sizes[i]) == i
  {
    assert forall j, k :: 0 <= j < k < |Sizes| ==> Sizes[j] != Sizes[k] by {
      assert Sizes[0][0] == 'B' && Sizes[1][0] == 'K' && Sizes[2][0] == 'M';
      assert Sizes[3][0] == 'G' && Sizes[4][0] == 'T';
    }
  }
}
