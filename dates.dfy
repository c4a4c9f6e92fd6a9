/**
 * Calendar dates as the assignment endpoints handle them: a due date arrives as
 * text, is parsed the way `java.sql.Date.valueOf` parses it, is compared with the
 * term's bounds by `before`/`after`, and is echoed back through `toString`
 * (yyyy-mm-dd).
 */
module Dates {
  import opened Common

  datatype Date = Date(year: int, month: int, day: int)

  /** The field ranges that `valueOf` accepts and that `toString` prints in full. */
  predicate WellFormed(d: Date)
  {
    0 <= d.year <= 9999 && 1 <= d.month <= 12 && 1 <= d.day <= 31
  }

  /** `a.before(b)`: `a` is strictly earlier than `b`. */
  predicate Before(a: Date, b: Date)
  {
    || a.year < b.year
    || (a.year == b.year && a.month < b.month)
    || (a.year == b.year && a.month == b.month && a.day < b.day)
  }

  /** `a.after(b)`: `a` is strictly later than `b`. */
  predicate After(a: Date, b: Date)
  {
    Before(b, a)
  }

  /** The non-strict order: `a` is the same day as `b` or earlier. */
  predicate OnOrBefore(a: Date, b: Date)
  {
    a == b || Before(a, b)
  }

  predicate IsDigit(c: char)
  {
    '0' <= c <= '9'
  }

  predicate AllDigits(s: string)
  {
    forall i :: 0 <= i < |s| ==> IsDigit(s[i])
  }

  function Pow10(n: nat): (p: nat)
    ensures p >= 1
  {
    if n == 0 then 1 else 10 * Pow10(n - 1)
  }

  /** The value of a string of decimal digits, most significant first. */
  function DigitsValue(s: string): nat
    requires AllDigits(s)
  {
    if s == [] then 0
    else 10 * DigitsValue(s[..|s| - 1]) + (s[|s| - 1] as int - '0' as int)
  }

  /** `Integer.parseInt(s, 10)` on ASCII digits: an optional sign, then at least one digit. */
  function ParseInt(s: string): Option<int>
  {
    if |s| > 0 && (s[0] == '+' || s[0] == '-') then
      if |s| > 1 && AllDigits(s[1..]) then
        var magnitude: int := DigitsValue(s[1..]);
        Some(if s[0] == '-' then -magnitude else magnitude)
      else None
    else if |s| > 0 && AllDigits(s) then Some(DigitsValue(s))
    else None
  }

  /** `s.indexOf(c, from)`: the first position at or after `from` holding `c`, or -1. */
  function IndexOf(s: string, c: char, from: nat): (r: int)
    decreases |s| - from
    ensures r == -1 || (from <= r < |s| && s[r] == c)
    ensures forall i :: from <= i < |s| && (r == -1 || i < r) ==> s[i] != c
  {
    if from >= |s| then -1
    else if s[from] == c then from
    else IndexOf(s, c, from + 1)
  }

  /**
   * `java.sql.Date.valueOf(s)`: four characters of year, a dash, one or two of
   * month, a dash, one or two of day; month in 1..12 and day in 1..31. `None`
   * stands for the IllegalArgumentException it throws otherwise.
   */
  function ParseDate(s: string): (r: Option<Date>)
    ensures r.Some? ==> WellFormed(r.value)
  {
    var firstDash := IndexOf(s, '-', 0);
    var secondDash := IndexOf(s, '-', firstDash + 1);
    var len := |s|;
    if && firstDash > 0 && secondDash > 0 && secondDash < len - 1
       && firstDash == 4
       && 1 < secondDash - firstDash <= 3
       && 1 < len - secondDash <= 3
    then
      var year := ParseInt(s[..firstDash]);
      var month := ParseInt(s[firstDash + 1..secondDash]);
      var day := ParseInt(s[secondDash + 1..]);
      if year.Some? && month.Some? && day.Some?
         && 1 <= month.value <= 12 && 1 <= day.value <= 31
      then
        NoDashParsesSmall(s[..firstDash]);
        Some(Date(year.value, month.value, day.value))
      else None
    else None
  }

  /** `n` in exactly `width` decimal digits, with leading zeros. */
  function Pad(n: nat, width: nat): (r: string)
    ensures |r| == width && AllDigits(r)
  {
    if width == 0 then []
    else Pad(n / 10, width - 1) + [('0' as int + n % 10) as char]
  }

  /** `Date.toString()`: yyyy-mm-dd. */
  function FormatDate(d: Date): (r: string)
    requires WellFormed(d)
    ensures |r| == 10
  {
    Pad(d.year, 4) + "-" + Pad(d.month, 2) + "-" + Pad(d.day, 2)
  }

  /** The text shape that `toString` produces: yyyy-mm-dd in ASCII digits. */
  predicate Canonical(s: string)
  {
    && |s| == 10 && s[4] == '-' && s[7] == '-'
    && AllDigits(s[..4]) && AllDigits(s[5..7]) && AllDigits(s[8..])
  }

  // ---------------------------------------------------------------------------
  // Lemmas

  lemma {:induction false} DigitsValueBound(s: string)
    requires AllDigits(s)
    ensures DigitsValue(s) < Pow10(|s|)
  {
    if s != [] {
      DigitsValueBound(s[..|s| - 1]);
    }
  }

  /** A four-character field without a minus sign parses into 0..9999. */
  lemma NoDashParsesSmall(s: string)
    requires |s| == 4 && forall i :: 0 <= i < |s| ==> s[i] != '-'
    requires ParseInt(s).Some?
    ensures 0 <= ParseInt(s).value <= 9999
  {
    SmallPowers();
    if s[0] == '+' {
      DigitsValueBound(s[1..]);
    } else {
      DigitsValueBound(s);
    }
  }

  lemma SmallPowers()
    ensures Pow10(2) == 100 && Pow10(3) == 1000 && Pow10(4) == 10000
  {
    assert Pow10(1) == 10;
  }

  /** The last digit of a padding is the number's last digit; the rest pads the number without it. */
  lemma PadLast(n: nat, width: nat)
    requires 0 < width && n < Pow10(width)
    ensures n / 10 < Pow10(width - 1)
    ensures DigitsValue(Pad(n, width)) == 10 * DigitsValue(Pad(n / 10, width - 1)) + n % 10
  {
    var p := Pad(n, width);
    assert p[..|p| - 1] == Pad(n / 10, width - 1);
  }

  /** Padding a number below `10^width` keeps its value. */
  lemma {:induction false} PadValue(n: nat, width: nat)
    requires n < Pow10(width)
    ensures DigitsValue(Pad(n, width)) == n
  {
    if width == 0 {
      assert Pad(n, width) == [];
    } else {
      PadLast(n, width);
      PadValue(n / 10, width - 1);
      assert DigitsValue(Pad(n / 10, width - 1)) == n / 10;
      assert DigitsValue(Pad(n, width)) == 10 * (n / 10) + n % 10;
      assert 10 * (n / 10) + n % 10 == n;
    }
  }

  /** Padding the value of a digit string to its own length gives it back. */
  lemma {:induction false} PadOfDigits(s: string)
    requires AllDigits(s)
    ensures Pad(DigitsValue(s), |s|) == s
  {
    if s != [] {
      var init := s[..|s| - 1];
      PadOfDigits(init);
      var v := DigitsValue(s);
      assert v / 10 == DigitsValue(init);
      assert v % 10 == s[|s| - 1] as int - '0' as int;
    }
  }

  /** `indexOf` finds the first occurrence. */
  lemma {:induction false} IndexOfAt(s: string, c: char, from: nat, k: nat)
    requires from <= k < |s| && s[k] == c
    requires forall i :: from <= i < k ==> s[i] != c
    ensures IndexOf(s, c, from) == k
    decreases k - from
  {
    if from < k {
      IndexOfAt(s, c, from + 1, k);
    }
  }

  /** A digit string without sign parses to its value. */
  lemma ParseDigits(s: string)
    requires |s| > 0 && AllDigits(s)
    ensures ParseInt(s) == Some(DigitsValue(s))
  {
    assert IsDigit(s[0]);
  }

  /** Dashes of a canonical string sit at positions 4 and 7. */
  lemma CanonicalDashes(s: string)
    requires Canonical(s)
    ensures IndexOf(s, '-', 0) == 4 && IndexOf(s, '-', 5) == 7
  {
    forall i | 0 <= i < 4 ensures s[i] != '-' {
      assert s[i] == s[..4][i];
    }
    IndexOfAt(s, '-', 0, 4);
    forall i | 5 <= i < 7 ensures s[i] != '-' {
      assert s[i] == s[5..7][i - 5];
    }
    IndexOfAt(s, '-', 5, 7);
  }

  /** Parsing a canonical string reads its three digit fields. */
  lemma ParseCanonical(s: string)
    requires Canonical(s)
    ensures ParseDate(s).Some? <==>
              (1 <= DigitsValue(s[5..7]) <= 12 && 1 <= DigitsValue(s[8..]) <= 31)
    ensures ParseDate(s).Some? ==>
              ParseDate(s).value == Date(DigitsValue(s[..4]), DigitsValue(s[5..7]), DigitsValue(s[8..]))
  {
    CanonicalDashes(s);
    ParseDigits(s[..4]);
    ParseDigits(s[5..7]);
    ParseDigits(s[8..]);
  }

  /** `toString` output is canonical and reads back as the same fields. */
  lemma FormatFields(d: Date)
    requires WellFormed(d)
    ensures Canonical(FormatDate(d))
    ensures var s := FormatDate(d);
            s[..4] == Pad(d.year, 4) && s[5..7] == Pad(d.month, 2) && s[8..] == Pad(d.day, 2)
  {
  }

  /** Round trip: every well-formed date parses back from its own `toString`. */
  lemma ParseFormat(d: Date)
    requires WellFormed(d)
    ensures ParseDate(FormatDate(d)) == Some(d)
  {
    var s := FormatDate(d);
    FormatFields(d);
    SmallPowers();
    PadValue(d.year, 4);
    PadValue(d.month, 2);
    PadValue(d.day, 2);
    ParseCanonical(s);
  }

  /** Round trip: a canonical string that parses is exactly the `toString` of its date. */
  lemma FormatParse(s: string)
    requires Canonical(s) && ParseDate(s).Some?
    ensures FormatDate(ParseDate(s).value) == s
  {
    ParseCanonical(s);
    PadOfDigits(s[..4]);
    PadOfDigits(s[5..7]);
    PadOfDigits(s[8..]);
    assert s == s[..4] + "-" + s[5..7] + "-" + s[8..];
  }

  /** `before` is a strict total order, so "neither before nor after" means "same day". */
  lemma {:induction false} OrderTrichotomy(a: Date, b: Date)
    ensures OnOrBefore(a, b) <==> !After(a, b)
    ensures !Before(a, b) && !After(a, b) ==> a == b
  {
  }
}
