/**
  `processElement`: the walk that adds a tooltip trigger after every PEP
  reference in a subtree of the page.

  The page is a value of `Dom.Node`. Where the script rewrites the tree in
  place (`child.replaceWith`, `node.replaceWith`, `replaceChildren` and the
  marker attribute), the model returns what takes the node's place among its
  parent's children: the node as it is afterwards, then the siblings that
  `node.replaceWith(node, ...)` inserts after it.
 */
module Annotator {
  import opened Wrappers
  import opened Dom
  import opened PepRefs

  /** The nodes `processElement` is called on: elements, the wrapper span of
      a trigger among them. */
  predicate IsElement(n: Node)
  {
    n.Element? || n.Trigger?
  }

  /** A text child holding a PEP reference. */
  predicate IsMatchingText(c: Node)
  {
    c.Text? && HasRef(c.data)
  }

  /** The state of the `forEach` over the children: the children built so
      far, the `appendAtNodeEnd` buffer, and the marker. */
  datatype Pass = Pass(children: seq<Node>, appendAtNodeEnd: string, marked: bool)

  /** The `forEach` of `processElement` over the first `k` children of the
      snapshot of `n`'s children. */
  function Fold(n: Node, k: nat): Pass
    requires n.Element? && k <= |n.children|
    decreases n, 0, k
  {
    if k == 0 then Pass([], "", n.marked)
    else
      var p := Fold(n, k - 1);
      var c := n.children[k - 1];
      if IsElement(c) then Pass(p.children + Process(c), p.appendAtNodeEnd, p.marked)
      else if IsMatchingText(c) then
        if n.tag == "A" then Pass(p.children + [c], p.appendAtNodeEnd + c.data, true)
        else Pass(p.children + PepTextToNodes(c.data, true), p.appendAtNodeEnd, true)
      else Pass(p.children + [c], p.appendAtNodeEnd, p.marked)
  }

  /** `processElement(n)`, as what takes `n`'s place among its siblings.

      A trigger is the wrapper span `getTooltipNode` builds: it carries no
      marker and its markup holds no reference (`TriggerLeftAlone`), so
      `processElement` returns from it at the second guard. */
  function Process(n: Node): (r: seq<Node>)
    requires IsElement(n)
    ensures |r| >= 1
    ensures n.Trigger? ==> r == [n]
    ensures n.Element? ==> r[0].Element? && r[0].tag == n.tag && r[0].role == n.role && r[0].attrs == n.attrs
    ensures forall i :: 1 <= i < |r| ==> r[i].Trigger?
    decreases n, 1
  {
    if n.Trigger? then [n]
    else if n.marked || !HasRef(InnerHtml(n)) || n.role == Some("tooltip") then [n]
    else if |n.children| > 0 then
      var p := Fold(n, |n.children|);
      PepTextToNodesTriggersOnly(p.appendAtNodeEnd);
      [n.(children := p.children, marked := p.marked)]
        + (if p.appendAtNodeEnd != "" then PepTextToNodes(p.appendAtNodeEnd, false) else [])
    else
      [n.(marked := true, children := PepTextToNodes(InnerHtml(n), true))]
  }

  /** `processElement`: a recursive walk with a loop over a snapshot of the
      children, computing `Process`. */
  method ProcessElement(n: Node) returns (r: seq<Node>)
    requires IsElement(n)
    ensures r == Process(n)
    decreases n
  {
    if n.Trigger? {
      return [n];
    }
    if n.marked {
      return [n];
    }
    if !HasRef(InnerHtml(n)) {
      return [n];
    }
    if n.role == Some("tooltip") {
      return [n];
    }
    if |n.children| > 0 {
      var snapshot := n.children;
      var children: seq<Node> := [];
      var appendAtNodeEnd := "";
      var marked := n.marked;
      var i := 0;
      while i < |snapshot|
        invariant 0 <= i <= |snapshot|
        invariant Pass(children, appendAtNodeEnd, marked) == Fold(n, i)
      {
        var child := snapshot[i];
        if IsElement(child) {
          var replacement := ProcessElement(child);
          children := children + replacement;
        } else if IsMatchingText(child) {
          if n.tag == "A" {
            children := children + [child];
            appendAtNodeEnd := appendAtNodeEnd + child.data;
          } else {
            children := children + PepTextToNodes(child.data, true);
          }
          marked := true;
        } else {
          children := children + [child];
        }
        i := i + 1;
      }
      r := [n.(children := children, marked := marked)];
      if appendAtNodeEnd != "" {
        r := r + PepTextToNodes(appendAtNodeEnd, false);
      }
      return;
    }
    r := [n.(marked := true, children := PepTextToNodes(InnerHtml(n), true))];
  }

  // ---------------------------------------------------------------------
  // The three guards, and the unreachable terminal branch
  // ---------------------------------------------------------------------

  /** A node already marked, a node whose markup holds no reference, and a
      node whose role is `tooltip` are left as they are. */
  lemma LeftAloneWhenGuarded(n: Node)
    requires n.Element?
    requires n.marked || !HasRef(InnerHtml(n)) || n.role == Some("tooltip")
    ensures Process(n) == [n]
  {
  }

  lemma {:induction false} NoDigitNoRef(s: string, from: nat)
    requires from <= |s|
    requires forall i :: 0 <= i < |s| ==> !IsDigit(s[i])
    ensures FindFrom(s, from).None?
    decreases |s| - from
  {
    if from < |s| {
      NoDigitNoRef(s, from + 1);
    }
  }

  /** The wrapper span of a trigger holds no reference, so `processElement`
      leaves it as it is. */
  lemma TriggerLeftAlone(number: string)
    ensures !HasRef(InnerHtml(Trigger(number)))
    ensures Process(Trigger(number)) == [Trigger(number)]
  {
    var s := IconMarkup;
    assert forall i :: 0 <= i < |s| ==> !IsDigit(s[i]);
    NoDigitNoRef(s, 0);
  }

  /** An element without children has empty markup, so it returns at the
      second guard: the branch for terminal nodes never runs. */
  lemma TerminalBranchUnreachable(n: Node)
    requires n.Element? && |n.children| == 0
    ensures !HasRef(InnerHtml(n))
    ensures Process(n) == [n]
  {
    assert InnerHtml(n) == "";
    assert FindFrom("", 0) == None;
  }

  // ---------------------------------------------------------------------
  // What becomes of each child
  // ---------------------------------------------------------------------

  /** What one child of an element tagged `tag` turns into: an element is
      processed in turn; a text holding a reference stays, under an anchor,
      and is replaced by its `pepTextToNodes` nodes elsewhere; anything else
      stays. */
  function RewriteChild(tag: string, c: Node): seq<Node>
  {
    if IsElement(c) then Process(c)
    else if IsMatchingText(c) then (if tag == "A" then [c] else PepTextToNodes(c.data, true))
    else [c]
  }

  /** Each child's rewrite, child after child. */
  function RewriteChildren(tag: string, cs: seq<Node>): seq<Node>
  {
    if cs == [] then [] else RewriteChild(tag, cs[0]) + RewriteChildren(tag, cs[1..])
  }

  /** What a child adds to an anchor's buffer: its text when it is a text
      holding a reference, nothing otherwise. */
  function MatchedText(c: Node): string
  {
    if IsMatchingText(c) then c.data else ""
  }

  /** The text of the children holding a reference, one after the other. */
  function MatchingTexts(cs: seq<Node>): string
  {
    if cs == [] then "" else MatchedText(cs[0]) + MatchingTexts(cs[1..])
  }

  predicate HasMatchingText(cs: seq<Node>)
  {
    exists i :: 0 <= i < |cs| && IsMatchingText(cs[i])
  }

  lemma {:induction false} RewriteChildrenSnoc(tag: string, cs: seq<Node>, c: Node)
    ensures RewriteChildren(tag, cs + [c]) == RewriteChildren(tag, cs) + RewriteChild(tag, c)
  {
    if cs == [] {
      assert cs + [c] == [c];
    } else {
      assert (cs + [c])[1..] == cs[1..] + [c];
      RewriteChildrenSnoc(tag, cs[1..], c);
      Strings.AppendAssoc(RewriteChild(tag, cs[0]), RewriteChildren(tag, cs[1..]), RewriteChild(tag, c));
    }
  }

  lemma {:induction false} MatchingTextsSnoc(cs: seq<Node>, c: Node)
    ensures MatchingTexts(cs + [c]) == MatchingTexts(cs) + MatchedText(c)
  {
    if cs == [] {
      assert cs + [c] == [c];
      assert MatchingTexts([c]) == MatchedText(c) + MatchingTexts([]);
    } else {
      var h, t := cs[0], cs[1..];
      assert (cs + [c])[0] == h;
      assert (cs + [c])[1..] == t + [c];
      assert MatchingTexts(cs + [c]) == MatchedText(h) + MatchingTexts(t + [c]);
      MatchingTextsSnoc(t, c);
      assert MatchingTexts(cs) == MatchedText(h) + MatchingTexts(t);
      Strings.AppendAssoc(MatchedText(h), MatchingTexts(t), MatchedText(c));
    }
  }

  /** After `k` children, the walk has built each child's rewrite, buffered
      the matching texts under an anchor, and set the marker exactly when a
      matching text has been met. */
  lemma {:induction false} FoldRewrites(n: Node, k: nat)
    requires n.Element? && k <= |n.children|
    ensures Fold(n, k).children == RewriteChildren(n.tag, n.children[..k])
    ensures Fold(n, k).appendAtNodeEnd == if n.tag == "A" then MatchingTexts(n.children[..k]) else ""
    ensures Fold(n, k).marked == (n.marked || HasMatchingText(n.children[..k]))
  {
    if k > 0 {
      var c := n.children[k - 1];
      assert n.children[..k] == n.children[..k - 1] + [c];
      FoldRewrites(n, k - 1);
      RewriteChildrenSnoc(n.tag, n.children[..k - 1], c);
      MatchingTextsSnoc(n.children[..k - 1], c);
      HasMatchingTextSnoc(n.children[..k - 1], c);
    }
  }

  lemma HasMatchingTextSnoc(cs: seq<Node>, c: Node)
    ensures HasMatchingText(cs + [c]) == (HasMatchingText(cs) || IsMatchingText(c))
  {
    if IsMatchingText(c) {
      assert (cs + [c])[|cs|] == c;
    }
    if HasMatchingText(cs) {
      var i :| 0 <= i < |cs| && IsMatchingText(cs[i]);
      assert (cs + [c])[i] == cs[i];
    }
    if HasMatchingText(cs + [c]) {
      var i :| 0 <= i < |cs + [c]| && IsMatchingText((cs + [c])[i]);
      if i < |cs| {
        assert cs[i] == (cs + [c])[i];
      }
    }
  }

  /** A node that passes the three guards has children. It is replaced by
      itself with each child rewritten and the marker set exactly when one of
      its direct children is a text holding a reference; an anchor is then
      followed by one trigger per reference in the text of those children,
      taken together, in order. */
  lemma ProcessRewrites(n: Node)
    requires n.Element? && !n.marked && HasRef(InnerHtml(n)) && n.role != Some("tooltip")
    ensures |n.children| > 0
    ensures Process(n)
         == [n.(children := RewriteChildren(n.tag, n.children), marked := HasMatchingText(n.children))]
            + (if n.tag == "A" then Triggers(RefNumbers(MatchingTexts(n.children), 0)) else [])
  {
    if |n.children| == 0 {
      TerminalBranchUnreachable(n);
    }
    var cs := n.children;
    assert cs[..|cs|] == cs;
    FoldRewrites(n, |cs|);
    var texts := MatchingTexts(cs);
    PepTextToNodesTriggersOnly(texts);
    if texts == "" {
      assert FindFrom(texts, 0) == None;
    }
  }

  /** Only an anchor can get siblings: any other element is replaced by
      itself alone. */
  lemma SiblingsOnlyAfterAnchors(n: Node)
    requires n.Element? && n.tag != "A"
    ensures |Process(n)| == 1
  {
    if !n.marked && HasRef(InnerHtml(n)) && n.role != Some("tooltip") {
      ProcessRewrites(n);
    }
  }

  // ---------------------------------------------------------------------
  // Text is preserved
  // ---------------------------------------------------------------------

  lemma TextsOfOne(n: Node)
    ensures TextsOf([n]) == TextOf(n)
  {
    assert [n][1..] == [];
  }

  /** The text a reader sees is unchanged: references are only followed by
      icons, and an anchor's triggers carry no text. */
  lemma {:induction false} ProcessPreservesText(n: Node)
    requires IsElement(n)
    ensures TextsOf(Process(n)) == TextOf(n)
    decreases n, 1
  {
    if n.Trigger? || n.marked || !HasRef(InnerHtml(n)) || n.role == Some("tooltip") || |n.children| == 0 {
      if n.Element? && |n.children| == 0 {
        TerminalBranchUnreachable(n);
      }
      TextsOfOne(n);
    } else {
      var p := Fold(n, |n.children|);
      FoldPreservesText(n, |n.children|);
      assert n.children[..|n.children|] == n.children;
      var m := n.(children := p.children, marked := p.marked);
      var tail := if p.appendAtNodeEnd != "" then PepTextToNodes(p.appendAtNodeEnd, false) else [];
      PepTextToNodesTriggersOnly(p.appendAtNodeEnd);
      TextsOfAppend([m], tail);
      TextsOfOne(m);
    }
  }

  /** The children built so far carry the text of the children walked. */
  lemma {:induction false} FoldPreservesText(n: Node, k: nat)
    requires n.Element? && k <= |n.children|
    ensures TextsOf(Fold(n, k).children) == TextsOf(n.children[..k])
    decreases n, 0, k
  {
    if k == 0 {
      assert n.children[..0] == [];
    } else {
      var c := n.children[k - 1];
      var p := Fold(n, k - 1);
      FoldPreservesText(n, k - 1);
      assert n.children[..k] == n.children[..k - 1] + [c];
      TextsOfAppend(n.children[..k - 1], [c]);
      TextsOfOne(c);
      if IsElement(c) {
        ProcessPreservesText(c);
        TextsOfAppend(p.children, Process(c));
      } else if IsMatchingText(c) && n.tag != "A" {
        PepTextToNodesKeepText(c.data);
        TextsOfAppend(p.children, PepTextToNodes(c.data, true));
      } else {
        TextsOfAppend(p.children, [c]);
      }
    }
  }

  // ---------------------------------------------------------------------
  // A second walk changes nothing
  // ---------------------------------------------------------------------

  /** Whether walking over `c` again, as a child, leaves it as it is: an
      element is left alone by `processElement`, and any other node is not
      a text holding a reference. */
  predicate Settled(c: Node)
  {
    if IsElement(c) then Process(c) == [c] else !IsMatchingText(c)
  }

  predicate AllSettled(ns: seq<Node>)
  {
    forall j :: 0 <= j < |ns| ==> Settled(ns[j])
  }

  lemma AllSettledAppend(a: seq<Node>, b: seq<Node>)
    requires AllSettled(a) && AllSettled(b)
    ensures AllSettled(a + b)
  {
    forall j | 0 <= j < |a + b|
      ensures Settled((a + b)[j])
    {
      if j < |a| {
        assert (a + b)[j] == a[j];
      } else {
        assert (a + b)[j] == b[j - |a|];
      }
    }
  }

  /** Processing again any node that `processElement` leaves in place of
      `n` changes nothing. */
  lemma {:induction false} ProcessIdempotent(n: Node)
    requires IsElement(n)
    ensures forall i :: 0 <= i < |Process(n)| ==> IsElement(Process(n)[i])
    ensures forall i :: 0 <= i < |Process(n)| ==> Process(Process(n)[i]) == [Process(n)[i]]
    decreases n, 1
  {
    ProcessSettles(n);
  }

  lemma {:induction false} ProcessSettles(n: Node)
    requires IsElement(n)
    ensures AllSettled(Process(n))
    decreases n, 1
  {
    if n.Trigger? || n.marked || !HasRef(InnerHtml(n)) || n.role == Some("tooltip") || |n.children| == 0 {
      if n.Element? && |n.children| == 0 {
        TerminalBranchUnreachable(n);
      }
      assert Process(n) == [n];
    } else {
      var p := Fold(n, |n.children|);
      var m := n.(children := p.children, marked := p.marked);
      var tail := if p.appendAtNodeEnd != "" then PepTextToNodes(p.appendAtNodeEnd, false) else [];
      assert Process(n) == [m] + tail;
      if p.marked {
        LeftAloneWhenGuarded(m);
      } else {
        FoldSettles(n, |n.children|);
        NodeSettles(m);
      }
      TailSettles(p.appendAtNodeEnd, tail);
      AllSettledAppend([m], tail);
    }
  }

  /** The triggers after an anchor are settled. */
  lemma TailSettles(buffer: string, tail: seq<Node>)
    requires tail == if buffer != "" then PepTextToNodes(buffer, false) else []
    ensures AllSettled(tail)
  {
    PepTextToNodesTriggersOnly(buffer);
    forall j | 0 <= j < |tail|
      ensures Settled(tail[j])
    {
      assert tail[j].Trigger?;
    }
  }

  /** An unmarked element whose children are all settled is settled. */
  lemma NodeSettles(m: Node)
    requires m.Element? && !m.marked && AllSettled(m.children)
    ensures Process(m) == [m]
  {
    if HasRef(InnerHtml(m)) && m.role != Some("tooltip") {
      if |m.children| == 0 {
        TerminalBranchUnreachable(m);
      } else {
        FoldQuiet(m, |m.children|);
        assert m.children[..|m.children|] == m.children;
      }
    }
  }

  /** While no matching text has been met, every child built is settled. */
  lemma {:induction false} FoldSettles(n: Node, k: nat)
    requires n.Element? && k <= |n.children| && !Fold(n, k).marked
    ensures AllSettled(Fold(n, k).children)
    decreases n, 0, k
  {
    if k > 0 {
      var c := n.children[k - 1];
      var p := Fold(n, k - 1);
      FoldSettles(n, k - 1);
      if IsElement(c) {
        ProcessSettles(c);
        AllSettledAppend(p.children, Process(c));
      } else {
        assert Settled(c);
        AllSettledAppend(p.children, [c]);
      }
    }
  }

  /** Over settled children, the walk rebuilds them unchanged and buffers
      nothing. */
  lemma {:induction false} FoldQuiet(m: Node, k: nat)
    requires m.Element? && k <= |m.children| && AllSettled(m.children)
    ensures Fold(m, k) == Pass(m.children[..k], "", m.marked)
  {
    if k > 0 {
      var c := m.children[k - 1];
      FoldQuiet(m, k - 1);
      assert Settled(c);
      assert m.children[..k] == m.children[..k - 1] + [c];
    }
  }
}
