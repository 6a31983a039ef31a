/**
 * The string helpers of the .NET base library that the backend relies on:
 * `string.Trim`, `string.IsNullOrWhiteSpace` and `string.IsNullOrEmpty`.
 * White space is a fixed set of ASCII characters standing in for the .NET
 * table; the lemmas below use nothing about it beyond its being a predicate.
 */
module Text {
  import opened Wrappers

  /** The white-space characters (ASCII space, tab, line feed, vertical tab, form feed, carriage return). */
  predicate IsWhiteSpace(c: char) {
    c == ' ' || c == '\t' || c == '\n' || c == '\r' || c == '\U{000B}' || c == '\U{000C}'
  }

  predicate AllWhiteSpace(s: string) {
    forall i :: 0 <= i < |s| ==> IsWhiteSpace(s[i])
  }

  /** No white space at either end (true of the empty string). */
  predicate IsTrimmed(s: string) {
    s == [] || (!IsWhiteSpace(s[0]) && !IsWhiteSpace(s[|s| - 1]))
  }

  /** `string.TrimStart()`: drops the leading white space, keeping the rest as is. */
  function TrimStart(s: string): (r: string)
    ensures |r| <= |s| && r == s[|s| - |r|..]
    ensures AllWhiteSpace(s[..|s| - |r|])
    ensures r == [] || !IsWhiteSpace(r[0])
  {
    if s != [] && IsWhiteSpace(s[0]) then TrimStart(s[1..]) else s
  }

  /** `string.TrimEnd()`: drops the trailing white space, keeping the rest as is. */
  function TrimEnd(s: string): (r: string)
    ensures |r| <= |s| && r == s[..|r|]
    ensures AllWhiteSpace(s[|r|..])
    ensures r == [] || !IsWhiteSpace(r[|r| - 1])
  {
    if s != [] && IsWhiteSpace(s[|s| - 1]) then TrimEnd(s[..|s| - 1]) else s
  }

  /** `string.Trim()`: the string without its leading and trailing white space. */
  function Trim(s: string): (r: string)
    ensures |r| <= |s|
    ensures IsTrimmed(r)
    ensures r == [] <==> AllWhiteSpace(s)
  {
    TrimEnd(TrimStart(s))
  }

  /** What Trim keeps is the input with white space, and only white space, cut from either end. */
  lemma TrimIsInfix(s: string)
    ensures exists left, right :: AllWhiteSpace(left) && AllWhiteSpace(right) && s == left + Trim(s) + right
  {
    assert Trim(s) == TrimEnd(TrimStart(s));
    PaddedInfix(s, TrimStart(s), TrimEnd(TrimStart(s)));
  }

  /** A prefix of a suffix, each cut off only white space, is the input between two runs of white space. */
  lemma PaddedInfix(s: string, front: string, r: string)
    requires |front| <= |s| && front == s[|s| - |front|..] && AllWhiteSpace(s[..|s| - |front|])
    requires |r| <= |front| && r == front[..|r|] && AllWhiteSpace(front[|r|..])
    ensures exists left, right :: AllWhiteSpace(left) && AllWhiteSpace(right) && s == left + r + right
  {
    var left, right := s[..|s| - |front|], front[|r|..];
    assert front == r + right;
    assert s == left + front;
    assert s == left + r + right;
  }

  /** `string.IsNullOrWhiteSpace(s)`. */
  predicate IsNullOrWhiteSpace(s: Option<string>) {
    s.None? || AllWhiteSpace(s.value)
  }

  /** `string.IsNullOrEmpty(s)`. */
  predicate IsNullOrEmpty(s: Option<string>) {
    s.None? || s.value == []
  }

  /** A string with no white space at either end is its own trim. */
  lemma TrimOfTrimmed(s: string)
    requires IsTrimmed(s)
    ensures Trim(s) == s
  {
  }

  /** Trimming twice is trimming once. */
  lemma TrimIdempotent(s: string)
    ensures Trim(Trim(s)) == Trim(s)
  {
    TrimOfTrimmed(Trim(s));
  }

  /** White space added at either end of a string does not change its trim. */
  lemma TrimIgnoresPadding(left: string, s: string, right: string)
    requires AllWhiteSpace(left) && AllWhiteSpace(right)
    ensures Trim(left + s + right) == Trim(s)
  {
    if AllWhiteSpace(s) {
      assert AllWhiteSpace(left + s + right) by {
        forall i | 0 <= i < |left + s + right| ensures IsWhiteSpace((left + s + right)[i]) {
          if i < |left| {
            assert (left + s + right)[i] == left[i];
          } else if i < |left| + |s| {
            assert (left + s + right)[i] == s[i - |left|];
          } else {
            assert (left + s + right)[i] == right[i - |left| - |s|];
          }
        }
      }
    } else {
      assert left + s + right == left + (s + right);
      TrimStartSkipsPadding(left, s + right);
      TrimStartAppend(s, right);
      TrimEndSkipsPadding(TrimStart(s), right);
    }
  }

  lemma {:induction false} TrimStartSkipsPadding(left: string, s: string)
    requires AllWhiteSpace(left)
    ensures TrimStart(left + s) == TrimStart(s)
  {
    if left != [] {
      assert (left + s)[1..] == left[1..] + s;
      TrimStartSkipsPadding(left[1..], s);
    } else {
      assert left + s == s;
    }
  }

  lemma {:induction false} TrimStartAppend(s: string, right: string)
    requires !AllWhiteSpace(s)
    ensures TrimStart(s + right) == TrimStart(s) + right
  {
    if IsWhiteSpace(s[0]) {
      assert (s + right)[1..] == s[1..] + right;
      assert !AllWhiteSpace(s[1..]) by {
        var i :| 0 <= i < |s| && !IsWhiteSpace(s[i]);
        assert s[1..][i - 1] == s[i];
      }
      TrimStartAppend(s[1..], right);
    }
  }

  lemma {:induction false} TrimEndSkipsPadding(s: string, right: string)
    requires AllWhiteSpace(right)
    ensures TrimEnd(s + right) == TrimEnd(s)
  {
    if right != [] {
      var t := s + right;
      assert t[..|t| - 1] == s + right[..|right| - 1];
      TrimEndSkipsPadding(s, right[..|right| - 1]);
    } else {
      assert s + right == s;
    }
  }
}
