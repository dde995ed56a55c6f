/**
  The JavaScript string built-ins the content script relies on, as functions:
  `Array.prototype.join`, `String.prototype.replaceAll` with a one-character
  pattern and `String.prototype.split` with a non-empty string separator.
 */
module Strings {

  /** `parts.join("")`. */
  function Concat(parts: seq<string>): string
  {
    if parts == [] then "" else parts[0] + Concat(parts[1..])
  }

  lemma {:induction false} ConcatAppend(a: seq<string>, b: seq<string>)
    ensures Concat(a + b) == Concat(a) + Concat(b)
  {
    if a == [] {
      assert a + b == b;
    } else {
      assert (a + b)[1..] == a[1..] + b;
      ConcatAppend(a[1..], b);
    }
  }

  /** Where the parentheses go in a concatenation does not matter; said
      once here so that long chains need not rediscover it. */
  lemma AppendAssoc<T>(a: seq<T>, b: seq<T>, c: seq<T>)
    ensures (a + b) + c == a + (b + c)
  {
  }

  /** `parts.join(sep)`. */
  function Join(parts: seq<string>, sep: string): string
  {
    if parts == [] then ""
    else if |parts| == 1 then parts[0]
    else parts[0] + sep + Join(parts[1..], sep)
  }

  /** The separator stands strictly between consecutive parts: appending a part
      appends the separator and then the part, except to the empty list. */
  lemma {:induction false} JoinAppend(parts: seq<string>, x: string, sep: string)
    ensures Join(parts + [x], sep) == if parts == [] then x else Join(parts, sep) + sep + x
  {
    if |parts| > 1 {
      assert (parts + [x])[1..] == parts[1..] + [x];
      JoinAppend(parts[1..], x, sep);
    } else if |parts| == 1 {
      assert (parts + [x])[1..] == [x];
    }
  }

  /** Whether `sep` occurs in `s` at index `j`. */
  predicate OccursAt(s: string, sep: string, j: nat)
  {
    j + |sep| <= |s| && s[j..j + |sep|] == sep
  }

  /** Whether `sep` occurs anywhere in `s`. */
  predicate Occurs(s: string, sep: string)
  {
    exists j: nat :: j <= |s| && OccursAt(s, sep, j)
  }

  /** `s.split(sep)` for a non-empty separator. */
  function Split(s: string, sep: string): (r: seq<string>)
    requires |sep| > 0
    ensures |r| >= 1
  {
    SplitFrom(s, sep, 0, 0)
  }

  /** The pieces of `s[start..]`, scanning for the next occurrence of `sep` from `i`. */
  function SplitFrom(s: string, sep: string, start: nat, i: nat): (r: seq<string>)
    requires |sep| > 0 && start <= i <= |s|
    ensures |r| >= 1
    decreases |s| - i
  {
    if i + |sep| > |s| then [s[start..]]
    else if s[i..i + |sep|] == sep then [s[start..i]] + SplitFrom(s, sep, i + |sep|, i + |sep|)
    else SplitFrom(s, sep, start, i + 1)
  }

  /** Joining the pieces of a split with the same separator gives the string back. */
  lemma {:induction false} JoinSplit(s: string, sep: string)
    requires |sep| > 0
    ensures Join(Split(s, sep), sep) == s
  {
    JoinSplitFrom(s, sep, 0, 0);
  }

  lemma {:induction false} JoinSplitFrom(s: string, sep: string, start: nat, i: nat)
    requires |sep| > 0 && start <= i <= |s|
    ensures Join(SplitFrom(s, sep, start, i), sep) == s[start..]
    decreases |s| - i
  {
    if i + |sep| > |s| {
    } else if s[i..i + |sep|] == sep {
      var rest := SplitFrom(s, sep, i + |sep|, i + |sep|);
      JoinSplitFrom(s, sep, i + |sep|, i + |sep|);
      var r := [s[start..i]] + rest;
      assert r[1..] == rest;
      assert s[start..] == s[start..i] + s[i..i + |sep|] + s[i + |sep|..];
    } else {
      JoinSplitFrom(s, sep, start, i + 1);
    }
  }

  /** No piece of a split contains the separator. */
  lemma {:induction false} SplitPiecesLackSeparator(s: string, sep: string)
    requires |sep| > 0
    ensures forall k :: 0 <= k < |Split(s, sep)| ==> !Occurs(Split(s, sep)[k], sep)
  {
    SplitFromPiecesLackSeparator(s, sep, 0, 0);
  }

  lemma {:induction false} SplitFromPiecesLackSeparator(s: string, sep: string, start: nat, i: nat)
    requires |sep| > 0 && start <= i <= |s|
    requires forall j: nat :: start <= j < i ==> !OccursAt(s, sep, j)
    ensures forall k :: 0 <= k < |SplitFrom(s, sep, start, i)| ==> !Occurs(SplitFrom(s, sep, start, i)[k], sep)
    decreases |s| - i
  {
    var r := SplitFrom(s, sep, start, i);
    if i + |sep| > |s| {
      PieceLacksSeparator(s, sep, start, |s|);
      assert s[start..|s|] == s[start..];
    } else if s[i..i + |sep|] == sep {
      PieceLacksSeparator(s, sep, start, i);
      SplitFromPiecesLackSeparator(s, sep, i + |sep|, i + |sep|);
      assert r[1..] == SplitFrom(s, sep, i + |sep|, i + |sep|);
      forall k | 0 <= k < |r| ensures !Occurs(r[k], sep) {
        if k > 0 { assert r[k] == r[1..][k - 1]; }
      }
    } else {
      assert !OccursAt(s, sep, i);
      SplitFromPiecesLackSeparator(s, sep, start, i + 1);
    }
  }

  /** A piece `s[start..end]` holds no occurrence when none of its candidate
      starting points is one in `s`. */
  lemma PieceLacksSeparator(s: string, sep: string, start: nat, end: nat)
    requires start <= end <= |s|
    requires forall j: nat :: start <= j && j + |sep| <= end ==> !OccursAt(s, sep, j)
    ensures !Occurs(s[start..end], sep)
  {
    var t := s[start..end];
    forall j: nat | j <= |t| && OccursAt(t, sep, j) ensures false {
      assert start + j + |sep| <= end;
      var inT, inS := t[j..j + |sep|], s[start + j..start + j + |sep|];
      forall m | 0 <= m < |sep| ensures inT[m] == inS[m] {
        assert t[j + m] == s[start + j + m];
      }
      assert inT == inS;
      assert OccursAt(s, sep, start + j);
    }
  }

  /** `s.replaceAll(c, rep)` for a one-character pattern `c`. */
  function ReplaceAll(s: string, c: char, rep: string): (r: string)
    ensures c !in s ==> r == s
    ensures c !in rep ==> c !in r
  {
    if s == [] then "" else (if s[0] == c then rep else [s[0]]) + ReplaceAll(s[1..], c, rep)
  }

  /** Replacing a single character works piecewise. */
  lemma {:induction false} ReplaceAllConcat(a: string, b: string, c: char, rep: string)
    ensures ReplaceAll(a + b, c, rep) == ReplaceAll(a, c, rep) + ReplaceAll(b, c, rep)
  {
    if a == [] {
      assert a + b == b;
    } else {
      assert (a + b)[0] == a[0];
      assert (a + b)[1..] == a[1..] + b;
      ReplaceAllConcat(a[1..], b, c, rep);
    }
  }
}
