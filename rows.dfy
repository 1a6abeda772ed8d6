/**
 * The query shapes the server's SQL statements use, over a table held as a
 * sequence of rows in rowid (insertion) order: a `WHERE` filter, `LIMIT`,
 * and JavaScript's `Array.prototype.reverse` on a result set.
 */
module Rows {

  import opened Wrappers

  function Min(a: int, b: int): int { if a <= b then a else b }

  /** `SELECT … WHERE p`: the rows that satisfy `p`, in table order. */
  function Select<T>(rows: seq<T>, p: T -> bool): (r: seq<T>)
    ensures |r| <= |rows|
    ensures forall i :: 0 <= i < |r| ==> r[i] in rows && p(r[i])
    ensures r == [] <==> forall i :: 0 <= i < |rows| ==> !p(rows[i])
  {
    if rows == [] then []
    else
      var rest := Select(rows[1..], p);
      assert forall i :: 1 <= i < |rows| ==> rows[i] == rows[1..][i - 1];
      (if p(rows[0]) then [rows[0]] else []) + rest
  }

  /**
   * Each row that `f` maps to a value, replaced by that value, in table
   * order: what an inner join makes of a table and a lookup into another.
   */
  function FilterMap<T, U>(rows: seq<T>, f: T -> Option<U>): (r: seq<U>)
    ensures |r| <= |rows|
  {
    if rows == [] then []
    else (if f(rows[0]).Some? then [f(rows[0]).value] else []) + FilterMap(rows[1..], f)
  }

  /** `r` is `kept` mapped row by row through `f`, which has a value on each of them. */
  ghost predicate MappedFrom<T, U>(r: seq<U>, kept: seq<T>, f: T -> Option<U>) {
    |r| == |kept| && forall k :: 0 <= k < |r| ==> f(kept[k]) == Some(r[k])
  }

  /** Mapping through `f` keeps exactly the rows `p` selects, when `p` says that `f` has a value. */
  lemma {:induction false} FilterMapSelects<T, U>(rows: seq<T>, f: T -> Option<U>, p: T -> bool)
    requires forall x :: p(x) == f(x).Some?
    ensures MappedFrom(FilterMap(rows, f), Select(rows, p), f)
  {
    if rows != [] {
      var x := rows[0];
      var r, kept := FilterMap(rows[1..], f), Select(rows[1..], p);
      FilterMapSelects(rows[1..], f, p);
      if p(x) {
        assert FilterMap(rows, f) == [f(x).value] + r;
        assert Select(rows, p) == [x] + kept;
        ConsMapped(x, f, r, kept);
      } else {
        assert FilterMap(rows, f) == r;
        assert Select(rows, p) == kept;
      }
    }
  }

  lemma ConsMapped<T, U>(x: T, f: T -> Option<U>, r: seq<U>, kept: seq<T>)
    requires MappedFrom(r, kept, f) && f(x).Some?
    ensures MappedFrom([f(x).value] + r, [x] + kept, f)
  {
    var r', kept' := [f(x).value] + r, [x] + kept;
    forall k | 0 <= k < |r'| ensures f(kept'[k]) == Some(r'[k]) {
      if k > 0 {
        assert r'[k] == r[k - 1] && kept'[k] == kept[k - 1];
      }
    }
  }

  /** The last `n` rows of a mapping are the mapping of the last `n` rows. */
  lemma MappedSuffix<T, U>(r: seq<U>, kept: seq<T>, f: T -> Option<U>, n: nat)
    requires MappedFrom(r, kept, f) && n <= |r|
    ensures MappedFrom(r[|r| - n..], kept[|kept| - n..], f)
  {
    var r', kept' := r[|r| - n..], kept[|kept| - n..];
    forall k | 0 <= k < n ensures f(kept'[k]) == Some(r'[k]) {
      assert r'[k] == r[|r| - n + k] && kept'[k] == kept[|kept| - n + k];
    }
  }

  /**
   * The newest `n` rows of a mapping through `f` are the newest `n` rows
   * `p` selects, mapped.
   */
  lemma NewestMapped<T, U>(rows: seq<T>, f: T -> Option<U>, p: T -> bool, n: nat)
    requires forall x :: p(x) == f(x).Some?
    ensures var kept, h := Select(rows, p), Newest(FilterMap(rows, f), n);
      |h| == Min(|kept|, n) && MappedFrom(h, kept[|kept| - |h|..], f)
  {
    var r := FilterMap(rows, f);
    FilterMapSelects(rows, f, p);
    MappedSuffix(r, Select(rows, p), f, Min(|r|, n));
  }

  /** `result.reverse()`: the same rows, last first. */
  function Reverse<T>(s: seq<T>): (r: seq<T>)
    ensures |r| == |s|
    ensures forall i :: 0 <= i < |s| ==> r[i] == s[|s| - 1 - i]
  {
    if s == [] then []
    else
      var rest := Reverse(s[..|s| - 1]);
      [s[|s| - 1]] + rest
  }

  /** `LIMIT n`: the first `n` rows, or all of them when there are fewer. */
  function Limit<T>(s: seq<T>, n: nat): (r: seq<T>)
    ensures |r| == Min(|s|, n)
    ensures forall i :: 0 <= i < |r| ==> r[i] == s[i]
  {
    if |s| <= n then s else s[..n]
  }

  /**
   * `ORDER BY` newest first, `LIMIT n`, then `reverse()`: the newest `n`
   * rows (all of them when there are fewer), oldest first.
   */
  function Newest<T>(s: seq<T>, n: nat): (r: seq<T>)
    ensures r == s[|s| - Min(|s|, n)..]
  {
    NewestOldestFirst(s, n);
    Reverse(Limit(Reverse(s), n))
  }

  /**
   * Reading a table newest-first, keeping `n` rows and reversing the result
   * gives its last `n` rows oldest-first.
   */
  lemma NewestOldestFirst<T>(s: seq<T>, n: nat)
    ensures Reverse(Limit(Reverse(s), n)) == s[|s| - Min(|s|, n)..]
  {
    var desc := Reverse(s);
    var kept := Limit(desc, n);
    ReversedPrefixOfReversed(s, desc, kept, Reverse(kept));
  }

  /** Index-level form of NewestOldestFirst. */
  lemma ReversedPrefixOfReversed<T>(s: seq<T>, desc: seq<T>, kept: seq<T>, r: seq<T>)
    requires |desc| == |s| && forall i :: 0 <= i < |s| ==> desc[i] == s[|s| - 1 - i]
    requires |kept| <= |desc| && forall i :: 0 <= i < |kept| ==> kept[i] == desc[i]
    requires |r| == |kept| && forall i :: 0 <= i < |kept| ==> r[i] == kept[|kept| - 1 - i]
    ensures r == s[|s| - |kept|..]
  {
  }
}
