/** `pad` (scripts/makePost.js lines 7-11) and the `today` date stamp built
    with it (lines 13-17). The clock is not read: the year, the zero-based
    month and the day of the month are parameters. */
module Padding {
  import opened Wrappers
  import opened Decimal

  /** `z = z || "0"`: a missing or empty fill string falls back to "0". */
  function Fill(z: Option<string>): (f: string)
    ensures |f| >= 1
  {
    match z
    case Some(s) => if s == "" then "0" else s
    case None => "0"
  }

  /** `new Array(k + 1).join(z)`: `k` copies of `z` glued together. */
  function Repeat(z: string, k: nat): (r: string)
    ensures |z| == 1 ==> |r| == k
    ensures |z| == 1 ==> forall i :: 0 <= i < |r| ==> r[i] == z[0]
  {
    if k == 0 then "" else z + Repeat(z, k - 1)
  }

  /** Left-pads the decimal text of `n` with copies of the fill up to `width`. */
  function Pad(n: int, width: int, z: Option<string>): string {
    var s := IntString(n);
    if |s| >= width then s else Repeat(Fill(z), width - |s|) + s
  }

  /** What `pad` promises: text already `width` long or longer is left alone;
      otherwise the text is kept at the end, and with a one-character fill the
      result is exactly `width` long with the fill in every position before it. */
  lemma PadShape(n: int, width: int, z: Option<string>)
    ensures var r, s := Pad(n, width, z), IntString(n);
      && (|s| >= width ==> r == s)
      && |r| >= |s| && r[|r| - |s|..] == s
      && (|Fill(z)| == 1 && |s| < width ==>
            |r| == width && forall i :: 0 <= i < width - |s| ==> r[i] == Fill(z)[0])
  {
    var r, s := Pad(n, width, z), IntString(n);
    if |s| < width {
      var f := Repeat(Fill(z), width - |s|);
      assert r == f + s;
      if |Fill(z)| == 1 {
        forall i | 0 <= i < width - |s| ensures r[i] == Fill(z)[0] {
          assert r[i] == f[i];
        }
      }
    }
  }

  /** Leaving the fill out is the same as asking for "0". */
  lemma PadDefaultFill(n: int, width: int)
    ensures Pad(n, width, None) == Pad(n, width, Some("0"))
    ensures Pad(n, width, Some("")) == Pad(n, width, Some("0"))
  {
  }

  /** Zeros in front of digits leave `parseInt`'s value alone. */
  lemma {:induction false} ZerosValue(k: nat, s: string)
    requires IsDigits(s)
    ensures IsDigits(Repeat("0", k) + s) && DigitsValue(Repeat("0", k) + s) == DigitsValue(s)
  {
    if k > 0 {
      ZerosValue(k - 1, s);
      assert Repeat("0", k) + s == "0" + (Repeat("0", k - 1) + s);
      LeadingZeroValue(Repeat("0", k - 1) + s);
    } else {
      assert Repeat("0", k) + s == s;
    }
  }

  /** Zero-padding a non-negative number keeps it all digits and keeps its value. */
  lemma PadValue(n: nat, width: int)
    ensures IsDigits(Pad(n, width, None)) && DigitsValue(Pad(n, width, None)) == n
  {
    var s := IntString(n);
    if |s| < width {
      ZerosValue(width - |s|, s);
    }
  }

  /** For 1 <= n <= 99, `pad(n, 2)` is two digits whose value is n. */
  lemma PadTwo(n: nat)
    requires 1 <= n < 100
    ensures |Pad(n, 2, None)| == 2 && IsDigits(Pad(n, 2, None)) && DigitsValue(Pad(n, 2, None)) == n
  {
    NatStringLength(n, 2);
    PadValue(n, 2);
  }

  predicate DateChars(s: string) {
    forall i :: 0 <= i < |s| ==> IsDigit(s[i]) || s[i] == '-'
  }

  lemma StampChars(y: string, mm: string, dd: string)
    requires DateChars(y) && IsDigits(mm) && IsDigits(dd)
    ensures DateChars(y + "-" + mm + "-" + dd)
  {
  }

  /** `${dt.getFullYear()}-${pad(dt.getMonth() + 1, 2)}-${pad(dt.getDate(), 2)}`,
      where `month0` is `getMonth()` (0-11) and `date` is `getDate()` (1-31). */
  function Today(year: int, month0: int, date: int): string
    requires 0 <= month0 < 12 && 1 <= date <= 31
  {
    IntString(year) + "-" + Pad(month0 + 1, 2, None) + "-" + Pad(date, 2, None)
  }

  /** The month and day parts of the stamp: two digits each, reading back as
      the month counted from 1 and the day of the month. */
  lemma MonthDayParts(month0: int, date: int) returns (mm: string, dd: string)
    requires 0 <= month0 < 12 && 1 <= date <= 31
    ensures mm == Pad(month0 + 1, 2, None) && dd == Pad(date, 2, None)
    ensures |mm| == 2 && IsDigits(mm) && DigitsValue(mm) == month0 + 1
    ensures |dd| == 2 && IsDigits(dd) && DigitsValue(dd) == date
  {
    mm, dd := Pad(month0 + 1, 2, None), Pad(date, 2, None);
    PadTwo(month0 + 1);
    PadTwo(date);
  }

  /** The stamp is the year, a dash, the month as two digits counted from 1,
      a dash and the day of the month as two digits. */
  lemma TodayLayout(year: int, month0: int, date: int) returns (mm: string, dd: string)
    requires 0 <= month0 < 12 && 1 <= date <= 31
    ensures Today(year, month0, date) == IntString(year) + "-" + mm + "-" + dd
    ensures |mm| == 2 && IsDigits(mm) && DigitsValue(mm) == month0 + 1
    ensures |dd| == 2 && IsDigits(dd) && DigitsValue(dd) == date
  {
    mm, dd := MonthDayParts(month0, date);
  }

  /** The stamp holds only digits and dashes. */
  lemma TodayChars(year: int, month0: int, date: int)
    requires 0 <= month0 < 12 && 1 <= date <= 31
    ensures DateChars(Today(year, month0, date))
  {
    var y, mm, dd := IntString(year), Pad(month0 + 1, 2, None), Pad(date, 2, None);
    PadValue(month0 + 1, 2);
    PadValue(date, 2);
    StampChars(y, mm, dd);
  }

  /** March 3rd is written with both parts zero-padded. */
  lemma MarchThird()
    ensures Today(2024, 2, 3) == "2024-03-03"
  {
    assert NatString(2024) == "2024";
    assert Pad(3, 2, None) == "03";
  }
}
