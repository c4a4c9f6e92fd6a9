/** Small sequence utilities shared by the gradebook model. */
module Common {

  /** A nullable value: Java's `null` is `None`. */
  datatype Option<+T> = None | Some(value: T)

  /** No element occurs twice. */
  ghost predicate Distinct<T>(s: seq<T>)
  {
    forall i, j :: 0 <= i < j < |s| ==> s[i] != s[j]
  }

  /** The elements of `s` that satisfy `keep`, in their original order. */
  function Filter<T(!new)>(s: seq<T>, keep: T -> bool): (r: seq<T>)
    ensures |r| <= |s|
    ensures forall x :: x in r <==> x in s && keep(x)
    ensures forall i :: 0 <= i < |r| ==> r[i] in s && keep(r[i])
    ensures Distinct(s) ==> Distinct(r)
  {
    if s == [] then []
    else
      var rest := Filter(s[1..], keep);
      assert forall x :: x in s[1..] ==> x in s;
      if keep(s[0]) then
        assert Distinct(s) ==> s[0] !in s[1..];
        [s[0]] + rest
      else rest
  }

  /** Filtering keeps the input order: filtering a concatenation concatenates the filtered parts. */
  lemma {:induction false} FilterConcat<T(!new)>(a: seq<T>, b: seq<T>, keep: T -> bool)
    ensures Filter(a + b, keep) == Filter(a, keep) + Filter(b, keep)
  {
    if a == [] {
      assert a + b == b;
    } else {
      assert (a + b)[0] == a[0];
      assert (a + b)[1..] == a[1..] + b;
      FilterConcat(a[1..], b, keep);
    }
  }

  /** A single element stays exactly when it is kept. */
  lemma FilterSingleton<T(!new)>(x: T, keep: T -> bool)
    ensures Filter([x], keep) == if keep(x) then [x] else []
  {
    assert [x][1..] == [];
  }

  /** `s` without any occurrence of `x`. */
  function RemoveValue<T(==,!new)>(s: seq<T>, x: T): seq<T>
  {
    Filter(s, y => y != x)
  }

  /**
   * The index of the first element of `s` that fails `ok`, or `|s|` when all pass:
   * the point at which a fail-fast loop over `s` stops.
   */
  function FirstFailing<T>(s: seq<T>, ok: T -> bool): (k: nat)
    ensures k <= |s|
    ensures forall i :: 0 <= i < k ==> ok(s[i])
    ensures k < |s| ==> !ok(s[k])
  {
    if s == [] || !ok(s[0]) then 0
    else 1 + FirstFailing(s[1..], ok)
  }

  /** Decimal rendering of a natural number, as Java's string concatenation prints an int. */
  function NatToString(n: nat): string
  {
    var digit := [('0' as int + n % 10) as char];
    if n < 10 then digit else NatToString(n / 10) + digit
  }
}
