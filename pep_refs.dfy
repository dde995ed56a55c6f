/**
  Finding PEP references in text: the regular expression `/PEP \d+/i` (the
  letters P, E, P in either case, exactly one space, then ASCII digits,
  taken greedily), written as a scanner, the split of `pepTextToNodes`
  (`content.split(/(PEP \d+)/gi)`, which keeps each match as a piece of its
  own) and `pepTextToNodes` itself.
 */
module PepRefs {
  import opened Wrappers
  import opened Strings
  import opened Dom

  predicate IsDigit(c: char)
  {
    '0' <= c <= '9'
  }

  predicate IsLetterP(c: char)
  {
    c == 'P' || c == 'p'
  }

  predicate IsLetterE(c: char)
  {
    c == 'E' || c == 'e'
  }

  /** Whether the whole of `t` is one PEP reference. */
  predicate IsPepRef(t: string)
  {
    |t| >= 5 && IsLetterP(t[0]) && IsLetterE(t[1]) && IsLetterP(t[2]) && t[3] == ' '
    && forall k :: 4 <= k < |t| ==> IsDigit(t[k])
  }

  /** Whether a reference can start at `i`: its first five characters are there. */
  predicate StartsRef(s: string, i: nat)
  {
    i + 5 <= |s| && IsLetterP(s[i]) && IsLetterE(s[i + 1]) && IsLetterP(s[i + 2])
    && s[i + 3] == ' ' && IsDigit(s[i + 4])
  }

  /** The length of the run of digits at `i`. */
  function DigitRun(s: string, i: nat): (k: nat)
    requires i <= |s|
    ensures i + k <= |s|
    ensures forall j :: i <= j < i + k ==> IsDigit(s[j])
    ensures i + k == |s| || !IsDigit(s[i + k])
    decreases |s| - i
  {
    if i < |s| && IsDigit(s[i]) then 1 + DigitRun(s, i + 1) else 0
  }

  /** Where the (greedy) match that starts at `i` ends, if one starts there. */
  function MatchEnd(s: string, i: nat): (r: Option<nat>)
    requires i <= |s|
    ensures r.Some? <==> StartsRef(s, i)
    ensures r.Some? ==> i + 5 <= r.value <= |s|
  {
    if StartsRef(s, i) then Some(i + 4 + DigitRun(s, i + 4)) else None
  }

  /** The leftmost match starting at or after `from`. */
  function FindFrom(s: string, from: nat): (r: Option<nat>)
    requires from <= |s|
    ensures r.Some? ==> from <= r.value <= |s| && StartsRef(s, r.value)
    decreases |s| - from
  {
    if StartsRef(s, from) then Some(from)
    else if from == |s| then None
    else FindFrom(s, from + 1)
  }

  /** `s.search(/PEP \d+/i) >= 0`. */
  predicate HasRef(s: string)
  {
    FindFrom(s, 0).Some?
  }

  /** The pieces of `s[from..]` as the capturing split yields them: text
      before a match, the match, text before the next match, and so on. */
  function SplitRefs(s: string, from: nat): seq<string>
    requires from <= |s|
    decreases |s| - from
  {
    match FindFrom(s, from)
    case None => [s[from..]]
    case Some(p) =>
      var e := MatchEnd(s, p).value;
      [s[from..p], s[p..e]] + SplitRefs(s, e)
  }

  /** `part.match(/PEP (\d+)/i)?.[1]`: the digits of the first match. */
  function FirstRefNumber(part: string): Option<string>
  {
    match FindFrom(part, 0)
    case None => None
    case Some(p) => Some(part[p + 4..MatchEnd(part, p).value])
  }

  /** The nodes the `reduce` of `pepTextToNodes` adds for one piece. */
  function PieceNodes(part: string, keepText: bool): seq<Node>
  {
    (if keepText then [Text(part)] else [])
    + (match FirstRefNumber(part) case Some(d) => [Trigger(d)] case None => [])
  }

  /** The `reduce` of `pepTextToNodes` over the pieces: each step appends the
      nodes of one piece, so the result is those nodes, piece after piece. */
  function Reduce(parts: seq<string>, keepText: bool): seq<Node>
  {
    if parts == [] then [] else PieceNodes(parts[0], keepText) + Reduce(parts[1..], keepText)
  }

  /** `pepTextToNodes`. */
  function PepTextToNodes(content: string, keepText: bool): seq<Node>
  {
    Reduce(SplitRefs(content, 0), keepText)
  }

  /** The numbers of the leftmost, non-overlapping references in `s[from..]`. */
  function RefNumbers(s: string, from: nat): seq<string>
    requires from <= |s|
    decreases |s| - from
  {
    match FindFrom(s, from)
    case None => []
    case Some(p) =>
      var e := MatchEnd(s, p).value;
      [s[p + 4..e]] + RefNumbers(s, e)
  }

  // ---------------------------------------------------------------------
  // The scanner
  // ---------------------------------------------------------------------

  /** A match is a whole reference and takes every digit that follows. */
  lemma MatchEndIsRef(s: string, i: nat)
    requires i <= |s| && StartsRef(s, i)
    ensures IsPepRef(s[i..MatchEnd(s, i).value])
    ensures MatchEnd(s, i).value == |s| || !IsDigit(s[MatchEnd(s, i).value])
  {
  }

  /** The search finds the leftmost match, and finds one whenever there is one. */
  lemma {:induction false} FindFromLeftmost(s: string, from: nat)
    requires from <= |s|
    ensures FindFrom(s, from).Some? ==> forall j :: from <= j < FindFrom(s, from).value ==> !StartsRef(s, j)
    ensures FindFrom(s, from).None? ==> forall j :: from <= j <= |s| ==> !StartsRef(s, j)
    decreases |s| - from
  {
    if !StartsRef(s, from) && from < |s| {
      FindFromLeftmost(s, from + 1);
    }
  }

  /** A stretch of `s` in which no match starts holds no reference of its own. */
  lemma GapHasNoRef(s: string, a: nat, b: nat)
    requires a <= b <= |s|
    requires forall j :: a <= j < b ==> !StartsRef(s, j)
    ensures !HasRef(s[a..b])
  {
    var g := s[a..b];
    forall j | 0 <= j <= |g| ensures !StartsRef(g, j) {
      if j + 5 <= |g| {
        assert !StartsRef(s, a + j);
        assert g[j] == s[a + j] && g[j + 1] == s[a + j + 1] && g[j + 2] == s[a + j + 2];
        assert g[j + 3] == s[a + j + 3] && g[j + 4] == s[a + j + 4];
      }
    }
  }

  /** A reference found by the search stands by itself as a reference. */
  lemma FoundRef(s: string, from: nat)
    requires from <= |s| && FindFrom(s, from).Some?
    ensures var p := FindFrom(s, from).value;
      IsPepRef(s[p..MatchEnd(s, p).value]) && !HasRef(s[from..p])
  {
    var p := FindFrom(s, from).value;
    MatchEndIsRef(s, p);
    FindFromLeftmost(s, from);
    GapHasNoRef(s, from, p);
  }

  /** After the last reference, no reference remains. */
  lemma NoMoreRefs(s: string, from: nat)
    requires from <= |s| && FindFrom(s, from).None?
    ensures !HasRef(s[from..])
  {
    FindFromLeftmost(s, from);
    GapHasNoRef(s, from, |s|);
    assert s[from..|s|] == s[from..];
  }

  // ---------------------------------------------------------------------
  // The pieces of the split
  // ---------------------------------------------------------------------

  /** What the capturing split promises of its pieces: an odd number of them,
      text without references at even positions, whole references at odd
      positions, each followed by something that does not continue its digits. */
  predicate SplitLaws(parts: seq<string>)
  {
    |parts| % 2 == 1
    && (forall k :: 0 <= k < |parts| && k % 2 == 0 ==> !HasRef(parts[k]))
    && (forall k :: 0 <= k < |parts| && k % 2 == 1 ==> IsPepRef(parts[k]))
    && (forall k :: 0 < k < |parts| && k % 2 == 0 ==> parts[k] == [] || !IsDigit(parts[k][0]))
  }

  /** The capturing split of `s[from..]` obeys the split laws and loses nothing. */
  lemma {:induction false} SplitRefsLaws(s: string, from: nat)
    requires from <= |s|
    ensures SplitLaws(SplitRefs(s, from))
    ensures Concat(SplitRefs(s, from)) == s[from..]
    decreases |s| - from
  {
    if FindFrom(s, from).None? {
      NoMoreRefs(s, from);
      SplitLawsOne(s[from..]);
    } else {
      var p := FindFrom(s, from).value;
      var e := MatchEnd(s, p).value;
      SplitRefsStep(s, from, p, e);
      SplitRefsLaws(s, e);
      FoundRef(s, from);
      MatchEndIsRef(s, p);
      SplitLawsCons(s, from, p, e, SplitRefs(s, e));
    }
  }

  lemma SplitLawsOne(g: string)
    requires !HasRef(g)
    ensures SplitLaws([g]) && Concat([g]) == g
  {
    assert [g][1..] == [];
  }

  /** Text without references and a whole reference, put in front of pieces
      that obey the laws and do not continue the reference's digits. */
  lemma SplitLawsCons(s: string, from: nat, p: nat, e: nat, rest: seq<string>)
    requires from <= p <= e <= |s|
    requires !HasRef(s[from..p]) && IsPepRef(s[p..e]) && (e == |s| || !IsDigit(s[e]))
    requires SplitLaws(rest) && Concat(rest) == s[e..]
    ensures SplitLaws([s[from..p], s[p..e]] + rest)
    ensures Concat([s[from..p], s[p..e]] + rest) == s[from..]
  {
    var parts := [s[from..p], s[p..e]] + rest;
    assert rest[0] != [] ==> rest[0][0] == s[e] by {
      if rest[0] != [] {
        ConcatHead(rest, s[e..]);
      }
    }
    forall k | 0 <= k < |parts|
      ensures k % 2 == 0 ==> !HasRef(parts[k])
      ensures k % 2 == 1 ==> IsPepRef(parts[k])
      ensures 0 < k && k % 2 == 0 ==> parts[k] == [] || !IsDigit(parts[k][0])
    {
      if k >= 2 {
        assert parts[k] == rest[k - 2];
      }
    }
    ConcatCons(s, from, p, e, rest);
  }

  lemma ConcatCons(s: string, from: nat, p: nat, e: nat, rest: seq<string>)
    requires from <= p <= e <= |s| && Concat(rest) == s[e..]
    ensures Concat([s[from..p], s[p..e]] + rest) == s[from..]
  {
    ConcatAppend([s[from..p], s[p..e]], rest);
    assert [s[from..p], s[p..e]][1..] == [s[p..e]];
    assert [s[p..e]][1..] == [];
    assert Concat([s[from..p], s[p..e]]) == s[from..p] + s[p..e];
    assert s[from..] == s[from..p] + s[p..e] + s[e..];
  }

  /** The first character of a concatenation whose first piece is not empty. */
  lemma ConcatHead(parts: seq<string>, whole: string)
    requires |parts| >= 1 && parts[0] != [] && Concat(parts) == whole
    ensures whole != [] && parts[0][0] == whole[0]
  {
  }

  // ---------------------------------------------------------------------
  // pepTextToNodes
  // ---------------------------------------------------------------------

  lemma ReduceOne(g: string, keepText: bool)
    ensures Reduce([g], keepText) == PieceNodes(g, keepText)
  {
    assert [g][1..] == [];
  }

  lemma ReducePairThen(g: string, m: string, rest: seq<string>, keepText: bool)
    ensures Reduce([g, m] + rest, keepText)
         == PieceNodes(g, keepText) + PieceNodes(m, keepText) + Reduce(rest, keepText)
  {
    assert ([g, m] + rest)[1..] == [m] + rest;
    assert ([m] + rest)[1..] == rest;
  }

  /** A whole reference yields its own digits. */
  lemma FirstRefNumberOfRef(t: string)
    requires IsPepRef(t)
    ensures FirstRefNumber(t) == Some(t[4..])
  {
    assert IsDigit(t[4]);
    assert StartsRef(t, 0);
    assert FindFrom(t, 0) == Some(0);
    DigitRunToEnd(t, 4);
    assert MatchEnd(t, 0) == Some(|t|);
    assert t[4..|t|] == t[4..];
  }

  lemma {:induction false} DigitRunToEnd(s: string, i: nat)
    requires i <= |s|
    requires forall k :: i <= k < |s| ==> IsDigit(s[k])
    ensures DigitRun(s, i) == |s| - i
    decreases |s| - i
  {
    if i < |s| {
      DigitRunToEnd(s, i + 1);
    }
  }

  /** The nodes of `s[from..]` after the last reference. */
  lemma NodesLast(s: string, from: nat, keepText: bool)
    requires from <= |s| && FindFrom(s, from).None?
    ensures Reduce(SplitRefs(s, from), keepText) == if keepText then [Text(s[from..])] else []
  {
    NoMoreRefs(s, from);
    ReduceOne(s[from..], keepText);
  }

  /** The nodes of `s[from..]` when a reference starts at `p` and ends at `e`. */
  lemma NodesStep(s: string, from: nat, keepText: bool, p: nat, e: nat)
    requires from <= |s| && FindFrom(s, from) == Some(p) && MatchEnd(s, p) == Some(e)
    ensures Reduce(SplitRefs(s, from), keepText)
         == (if keepText then [Text(s[from..p]), Text(s[p..e])] else [])
            + [Trigger(s[p + 4..e])] + Reduce(SplitRefs(s, e), keepText)
  {
    SplitRefsStep(s, from, p, e);
    PieceNodesOfStep(s, from, keepText, p, e);
    ReducePairThen(s[from..p], s[p..e], SplitRefs(s, e), keepText);
  }

  lemma SplitRefsStep(s: string, from: nat, p: nat, e: nat)
    requires from <= |s| && FindFrom(s, from) == Some(p) && MatchEnd(s, p) == Some(e)
    ensures SplitRefs(s, from) == [s[from..p], s[p..e]] + SplitRefs(s, e)
  {
  }

  lemma PieceNodesOfStep(s: string, from: nat, keepText: bool, p: nat, e: nat)
    requires from <= |s| && FindFrom(s, from) == Some(p) && MatchEnd(s, p) == Some(e)
    ensures PieceNodes(s[from..p], keepText) == if keepText then [Text(s[from..p])] else []
    ensures PieceNodes(s[p..e], keepText)
         == (if keepText then [Text(s[p..e])] else []) + [Trigger(s[p + 4..e])]
  {
    FoundRef(s, from);
    FirstRefNumberOfRef(s[p..e]);
    assert s[p..e][4..] == s[p + 4..e];
  }

  /** With `keepText`, the text of the nodes is exactly the input. */
  lemma {:induction false} TextPreserved(s: string, from: nat)
    requires from <= |s|
    ensures TextsOf(Reduce(SplitRefs(s, from), true)) == s[from..]
    decreases |s| - from
  {
    if FindFrom(s, from).None? {
      NodesLast(s, from, true);
      TextOne(s[from..]);
    } else {
      var p := FindFrom(s, from).value;
      var e := MatchEnd(s, p).value;
      TextPreserved(s, e);
      TextPreservedStep(s, from, p, e);
    }
  }

  lemma TextOne(g: string)
    ensures TextsOf([Text(g)]) == g
  {
    assert [Text(g)][1..] == [];
  }

  lemma TextPreservedStep(s: string, from: nat, p: nat, e: nat)
    requires from <= |s| && FindFrom(s, from) == Some(p) && MatchEnd(s, p) == Some(e)
    requires TextsOf(Reduce(SplitRefs(s, e), true)) == s[e..]
    ensures TextsOf(Reduce(SplitRefs(s, from), true)) == s[from..]
  {
    NodesStep(s, from, true, p, e);
    TextStep(s, from, p, e, Reduce(SplitRefs(s, from), true), Reduce(SplitRefs(s, e), true));
  }

  lemma TextStep(s: string, from: nat, p: nat, e: nat, r: seq<Node>, rest: seq<Node>)
    requires from <= p && p + 4 <= e <= |s|
    requires r == [Text(s[from..p]), Text(s[p..e])] + [Trigger(s[p + 4..e])] + rest
    requires TextsOf(rest) == s[e..]
    ensures TextsOf(r) == s[from..]
  {
    var head := [Text(s[from..p]), Text(s[p..e]), Trigger(s[p + 4..e])];
    assert r == head + rest;
    TextsOfAppend(head, rest);
    var t := [Trigger(s[p + 4..e])];
    assert t[1..] == [];
    assert TextsOf(t) == "";
    assert head[1..] == [Text(s[p..e])] + t;
    assert head[1..][1..] == t;
    assert TextsOf(head[1..]) == s[p..e];
    assert TextsOf(head) == s[from..p] + s[p..e];
    assert s[from..] == s[from..p] + s[p..e] + s[e..];
  }

  /** The numbers of `s[from..]` after the last reference and at a reference. */
  lemma RefNumbersLast(s: string, from: nat)
    requires from <= |s| && FindFrom(s, from).None?
    ensures RefNumbers(s, from) == []
  {
  }

  lemma RefNumbersStep(s: string, from: nat, p: nat, e: nat)
    requires from <= |s| && FindFrom(s, from) == Some(p) && MatchEnd(s, p) == Some(e)
    ensures RefNumbers(s, from) == [s[p + 4..e]] + RefNumbers(s, e)
  {
  }

  /** One trigger per leftmost reference, carrying its digits, in order,
      whether or not the text is kept. */
  lemma {:induction false} TriggersAreRefs(s: string, from: nat, keepText: bool)
    requires from <= |s|
    ensures TriggerNumbers(Reduce(SplitRefs(s, from), keepText)) == RefNumbers(s, from)
    decreases |s| - from
  {
    if FindFrom(s, from).None? {
      NodesLast(s, from, keepText);
      RefNumbersLast(s, from);
      if keepText {
        assert [Text(s[from..])][1..] == [];
      }
    } else {
      var p := FindFrom(s, from).value;
      var e := MatchEnd(s, p).value;
      NodesStep(s, from, keepText, p, e);
      RefNumbersStep(s, from, p, e);
      TriggersAreRefs(s, e, keepText);
      TriggerNumbersStep(s[from..p], s[p..e], s[p + 4..e], keepText, Reduce(SplitRefs(s, e), keepText));
    }
  }

  lemma TriggerNumbersStep(g: string, m: string, d: string, keepText: bool, rest: seq<Node>)
    ensures TriggerNumbers((if keepText then [Text(g), Text(m)] else []) + [Trigger(d)] + rest)
         == [d] + TriggerNumbers(rest)
  {
    var t := [Trigger(d)];
    var head := (if keepText then [Text(g), Text(m)] else []) + t;
    TriggerNumbersAppend(head, rest);
    assert t[1..] == [];
    if keepText {
      assert head[1..] == [Text(m)] + t;
      assert head[1..][1..] == t;
    } else {
      assert head == t;
      assert TriggerNumbers(t) == [d];
    }
  }

  /** The trigger for each number, in order. */
  function Triggers(numbers: seq<string>): (r: seq<Node>)
    ensures |r| == |numbers|
    ensures forall i :: 0 <= i < |r| ==> r[i] == Trigger(numbers[i])
  {
    if numbers == [] then [] else [Trigger(numbers[0])] + Triggers(numbers[1..])
  }

  /** Without `keepText`, nothing but the triggers, in order. */
  lemma {:induction false} OnlyTriggers(s: string, from: nat)
    requires from <= |s|
    ensures Reduce(SplitRefs(s, from), false) == Triggers(RefNumbers(s, from))
    decreases |s| - from
  {
    if FindFrom(s, from).None? {
      NodesLast(s, from, false);
      RefNumbersLast(s, from);
    } else {
      var p := FindFrom(s, from).value;
      var e := MatchEnd(s, p).value;
      NodesStep(s, from, false, p, e);
      RefNumbersStep(s, from, p, e);
      OnlyTriggers(s, e);
      TriggersCons(s[p + 4..e], RefNumbers(s, e));
    }
  }

  lemma TriggersCons(d: string, numbers: seq<string>)
    ensures Triggers([d] + numbers) == [Trigger(d)] + Triggers(numbers)
  {
    assert ([d] + numbers)[1..] == numbers;
  }

  /** Every trigger in `r` comes right after the text of the reference whose
      digits it carries. */
  predicate TriggersFollowRefs(r: seq<Node>)
  {
    forall i :: 0 <= i < |r| && r[i].Trigger? ==>
      i > 0 && r[i - 1].Text? && IsPepRef(r[i - 1].data) && r[i].number == r[i - 1].data[4..]
  }

  /** With `keepText`, every trigger comes right after the text of the
      reference whose digits it carries. */
  lemma {:induction false} TriggersFollowTheirRef(s: string, from: nat)
    requires from <= |s|
    ensures TriggersFollowRefs(Reduce(SplitRefs(s, from), true))
    decreases |s| - from
  {
    if FindFrom(s, from).None? {
      NodesLast(s, from, true);
      TriggersFollowText(s[from..]);
    } else {
      var p := FindFrom(s, from).value;
      var e := MatchEnd(s, p).value;
      TriggersFollowTheirRef(s, e);
      TriggersFollowStep(s, from, p, e);
    }
  }

  lemma TriggersFollowStep(s: string, from: nat, p: nat, e: nat)
    requires from <= |s| && FindFrom(s, from) == Some(p) && MatchEnd(s, p) == Some(e)
    requires TriggersFollowRefs(Reduce(SplitRefs(s, e), true))
    ensures TriggersFollowRefs(Reduce(SplitRefs(s, from), true))
  {
    NodesStep(s, from, true, p, e);
    StepIsRef(s, from, p, e);
    TriggersFollowCons(s[from..p], s[p..e], s[p + 4..e], Reduce(SplitRefs(s, e), true), Reduce(SplitRefs(s, from), true));
  }

  lemma TriggersFollowText(g: string)
    ensures TriggersFollowRefs([Text(g)])
  {
  }

  lemma StepIsRef(s: string, from: nat, p: nat, e: nat)
    requires from <= |s| && FindFrom(s, from) == Some(p) && MatchEnd(s, p) == Some(e)
    ensures IsPepRef(s[p..e]) && s[p..e][4..] == s[p + 4..e]
  {
    MatchEndIsRef(s, p);
  }

  lemma TriggersFollowCons(g: string, m: string, d: string, rest: seq<Node>, r: seq<Node>)
    requires IsPepRef(m) && d == m[4..] && TriggersFollowRefs(rest)
    requires r == [Text(g), Text(m)] + [Trigger(d)] + rest
    ensures TriggersFollowRefs(r)
  {
    forall i | 0 <= i < |r| && r[i].Trigger?
      ensures i > 0 && r[i - 1].Text? && IsPepRef(r[i - 1].data) && r[i].number == r[i - 1].data[4..]
    {
      if i >= 3 {
        assert r[i] == rest[i - 3];
        if i > 3 {
          assert r[i - 1] == rest[i - 4];
        }
      }
    }
  }

  /** `pepTextToNodes` with its text kept: the text comes back unchanged, the
      triggers are the references in order, each right after its own text. */
  lemma PepTextToNodesKeepText(content: string)
    ensures TextsOf(PepTextToNodes(content, true)) == content
    ensures TriggerNumbers(PepTextToNodes(content, true)) == RefNumbers(content, 0)
    ensures TriggersFollowRefs(PepTextToNodes(content, true))
  {
    TextPreserved(content, 0);
    TriggersAreRefs(content, 0, true);
    TriggersFollowTheirRef(content, 0);
  }

  /** `pepTextToNodes` without the text: one trigger per reference, in order. */
  lemma PepTextToNodesTriggersOnly(content: string)
    ensures PepTextToNodes(content, false) == Triggers(RefNumbers(content, 0))
    ensures TextsOf(PepTextToNodes(content, false)) == ""
  {
    OnlyTriggers(content, 0);
    TriggersHaveNoText(PepTextToNodes(content, false));
  }

  lemma {:induction false} TriggersHaveNoText(ns: seq<Node>)
    requires forall i :: 0 <= i < |ns| ==> ns[i].Trigger?
    ensures TextsOf(ns) == ""
  {
    if ns != [] {
      TriggersHaveNoText(ns[1..]);
    }
  }
}
