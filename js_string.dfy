/**
 * The part of JavaScript's string semantics the chat server relies on:
 * `String.prototype.trim`, which strips white space and line terminators
 * from both ends of a string.
 */
module JsString {

  /**
   * The code points ECMAScript counts as WhiteSpace or LineTerminator:
   * TAB, LF, VT, FF, CR, SPACE, NO-BREAK SPACE, ZERO WIDTH NO-BREAK SPACE
   * and the Unicode space separators.
   */
  predicate IsTrimmable(c: char) {
    var n := c as int;
    (0x09 <= n <= 0x0D) || n == 0x20 || n == 0xA0 || n == 0x1680
    || (0x2000 <= n <= 0x200A) || n == 0x2028 || n == 0x2029
    || n == 0x202F || n == 0x205F || n == 0x3000 || n == 0xFEFF
  }

  /** Every character of `s` is white space (true of the empty string). */
  predicate AllTrimmable(s: string) {
    forall i :: 0 <= i < |s| ==> IsTrimmable(s[i])
  }

  /** `r` is what is left of `s` after its leading white space: a suffix that starts with a non-blank. */
  ghost predicate StripsStart(s: string, r: string) {
    |r| <= |s| && r == s[|s| - |r|..] && AllTrimmable(s[..|s| - |r|]) && (r == [] || !IsTrimmable(r[0]))
  }

  /** `r` is what is left of `s` after its trailing white space: a prefix that ends with a non-blank. */
  ghost predicate StripsEnd(s: string, r: string) {
    |r| <= |s| && r == s[..|r|] && AllTrimmable(s[|r|..]) && (r == [] || !IsTrimmable(r[|r| - 1]))
  }

  /** `s` without its leading white space. */
  function TrimStart(s: string): (r: string)
    ensures StripsStart(s, r)
  {
    if |s| > 0 && IsTrimmable(s[0]) then
      var r := TrimStart(s[1..]);
      assert s[..|s| - |r|] == [s[0]] + s[1..][..|s| - 1 - |r|];
      r
    else s
  }

  /** `s` without its trailing white space. */
  function TrimEnd(s: string): (r: string)
    ensures StripsEnd(s, r)
  {
    if |s| > 0 && IsTrimmable(s[|s| - 1]) then
      var r := TrimEnd(s[..|s| - 1]);
      assert s[|r|..] == s[..|s| - 1][|r|..] + [s[|s| - 1]];
      r
    else s
  }

  /**
   * `text.trim()`: `s` with both blank ends cut off. The result is empty
   * exactly when `s` is blank throughout, and otherwise it starts and ends
   * with a non-blank character (TrimIsInfix says where it sits in `s`).
   */
  function Trim(s: string): (r: string)
    ensures r == [] <==> AllTrimmable(s)
    ensures r != [] ==> !IsTrimmable(r[0]) && !IsTrimmable(r[|r| - 1])
  {
    var front := TrimStart(s);
    var r := TrimEnd(front);
    TrimPieces(s, front, r);
    r
  }

  /** How the two halves of Trim fit back into the string they came from. */
  lemma TrimPieces(s: string, front: string, r: string)
    requires StripsStart(s, front) && StripsEnd(front, r)
    ensures TrimmedAt(s, |s| - |front|, r)
    ensures r == [] <==> AllTrimmable(s)
    ensures r != [] ==> !IsTrimmable(r[0]) && !IsTrimmable(r[|r| - 1])
  {
    var k := |s| - |front|;
    assert s[k..] == front;
    assert s[k..k + |r|] == front[..|r|];
    assert s[k + |r|..] == front[|r|..];
    if r == [] {
      BlankConcat(s[..k], front);
      assert s == s[..k] + front;
    } else {
      assert r[0] == front[0];
      assert s[k] == r[0];
    }
  }

  /** `s` is blank up to `k`, then `r`, then blank again. */
  ghost predicate TrimmedAt(s: string, k: int, r: string) {
    0 <= k <= |s| - |r| && AllTrimmable(s[..k]) && s[k..k + |r|] == r && AllTrimmable(s[k + |r|..])
  }

  /** Two blank strings make a blank string. */
  lemma BlankConcat(a: string, b: string)
    requires AllTrimmable(a) && AllTrimmable(b)
    ensures AllTrimmable(a + b)
  {
    forall i | 0 <= i < |a + b| ensures IsTrimmable((a + b)[i]) {
      if i >= |a| {
        assert (a + b)[i] == b[i - |a|];
      }
    }
  }

  /** What Trim cuts off is blank, and what it keeps is one piece of `s`. */
  lemma TrimIsInfix(s: string)
    ensures exists k :: TrimmedAt(s, k, Trim(s))
  {
    var front := TrimStart(s);
    TrimPieces(s, front, TrimEnd(front));
    assert TrimmedAt(s, |s| - |front|, Trim(s));
  }

  /** Trimming twice is trimming once. */
  lemma TrimIdempotent(s: string)
    ensures Trim(Trim(s)) == Trim(s)
  {
    var t := Trim(s);
    if t != [] {
      assert !IsTrimmable(t[0]) && !IsTrimmable(t[|t| - 1]);
      NothingToStrip(t, TrimStart(t), TrimEnd(TrimStart(t)));
    }
  }

  /** A string that starts and ends with a non-blank loses nothing to either half of Trim. */
  lemma NothingToStrip(t: string, front: string, r: string)
    requires t != [] && !IsTrimmable(t[0]) && !IsTrimmable(t[|t| - 1])
    requires StripsStart(t, front) && StripsEnd(front, r)
    ensures r == t
  {
    StripsStartHead(t, front);
    StripsEndLast(front, r);
  }

  /** When something is stripped from the start, the first character was blank. */
  lemma StripsStartHead(s: string, r: string)
    requires StripsStart(s, r)
    ensures |r| < |s| ==> IsTrimmable(s[0])
  {
    if |r| < |s| {
      assert s[..|s| - |r|][0] == s[0];
    }
  }

  /** When something is stripped from the end, the last character was blank. */
  lemma StripsEndLast(s: string, r: string)
    requires StripsEnd(s, r)
    ensures |r| < |s| ==> IsTrimmable(s[|s| - 1])
  {
    if |r| < |s| {
      assert s[|r|..][|s| - |r| - 1] == s[|s| - 1];
    }
  }
}
