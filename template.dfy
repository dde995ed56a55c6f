/**
  The home-made HTML template system of the content script: `_escape`,
  `_htmlParamToString`, the `html` tag function and `joinHTML`.

  A tagged template literal html`t0${p0}t1…${pn-1}tn` hands the tag function
  the literal chunks `t0 … tn` and the interpolated values `p0 … pn-1`; here
  they are the two sequences `texts` and `params`.
 */
module Template {
  import opened Strings

  /** A fragment of markup that is inserted verbatim (`HTMLString`). */
  datatype HtmlString = HtmlString(content: string)

  /** A value interpolated into a template: a plain string (escaped), a
      fragment built by the same system (trusted), or `null`. */
  datatype Param = Str(s: string) | Fragment(html: HtmlString) | Null

  /** `_escape`: five chained `replaceAll` calls, ampersand first. */
  function Escape(unsafe: string): string
  {
    ReplaceAll(ReplaceAll(ReplaceAll(ReplaceAll(ReplaceAll(
      unsafe, '&', "&amp;"), '<', "&lt;"), '>', "&gt;"), '"', "&quot;"), '\'', "&#039;")
  }

  /** The entity one character stands for, or the character itself. */
  function EscapeChar(c: char): string
  {
    if c == '&' then "&amp;"
    else if c == '<' then "&lt;"
    else if c == '>' then "&gt;"
    else if c == '"' then "&quot;"
    else if c == '\'' then "&#039;"
    else [c]
  }

  /** Escaping done character by character. */
  function EscapeEach(s: string): string
  {
    if s == [] then "" else EscapeChar(s[0]) + EscapeEach(s[1..])
  }

  /** The characters `_escape` rewrites. */
  predicate IsSpecial(c: char)
  {
    c == '&' || c == '<' || c == '>' || c == '"' || c == '\''
  }

  lemma EscapeConcat(a: string, b: string)
    ensures Escape(a + b) == Escape(a) + Escape(b)
  {
    var a1, b1 := ReplaceAll(a, '&', "&amp;"), ReplaceAll(b, '&', "&amp;");
    ReplaceAllConcat(a, b, '&', "&amp;");
    var a2, b2 := ReplaceAll(a1, '<', "&lt;"), ReplaceAll(b1, '<', "&lt;");
    ReplaceAllConcat(a1, b1, '<', "&lt;");
    var a3, b3 := ReplaceAll(a2, '>', "&gt;"), ReplaceAll(b2, '>', "&gt;");
    ReplaceAllConcat(a2, b2, '>', "&gt;");
    var a4, b4 := ReplaceAll(a3, '"', "&quot;"), ReplaceAll(b3, '"', "&quot;");
    ReplaceAllConcat(a3, b3, '"', "&quot;");
    ReplaceAllConcat(a4, b4, '\'', "&#039;");
  }

  lemma ReplaceAllOne(c: char, d: char, rep: string)
    ensures ReplaceAll([c], d, rep) == if c == d then rep else [c]
  {
    assert [c][1..] == [];
  }

  /** The chain on one character yields exactly that character's entity:
      an entity produced by an earlier step holds none of the characters
      the later steps replace, so nothing is escaped twice. */
  lemma EscapeOneChar(c: char)
    ensures Escape([c]) == EscapeChar(c)
  {
    var s1 := ReplaceAll([c], '&', "&amp;");
    ReplaceAllOne(c, '&', "&amp;");
    if c == '&' {
      EscapeEntityTail(s1);
    } else {
      assert s1 == [c];
      ReplaceAllOne(c, '<', "&lt;");
      var s2 := ReplaceAll(s1, '<', "&lt;");
      if c == '<' {
        EscapeEntityTail2(s2);
      } else {
        assert s2 == [c];
        ReplaceAllOne(c, '>', "&gt;");
        var s3 := ReplaceAll(s2, '>', "&gt;");
        if c == '>' {
          EscapeEntityTail3(s3);
        } else {
          assert s3 == [c];
          ReplaceAllOne(c, '"', "&quot;");
          ReplaceAllOne(c, '\'', "&#039;");
        }
      }
    }
  }

  /** The steps after the first leave `&amp;` alone. */
  lemma EscapeEntityTail(e: string)
    requires e == "&amp;"
    ensures ReplaceAll(ReplaceAll(ReplaceAll(ReplaceAll(e, '<', "&lt;"), '>', "&gt;"), '"', "&quot;"), '\'', "&#039;") == e
  {
    assert '<' !in e && '>' !in e && '"' !in e && '\'' !in e;
  }

  /** The steps after the second leave `&lt;` alone. */
  lemma EscapeEntityTail2(e: string)
    requires e == "&lt;"
    ensures ReplaceAll(ReplaceAll(ReplaceAll(e, '>', "&gt;"), '"', "&quot;"), '\'', "&#039;") == e
  {
    assert '>' !in e && '"' !in e && '\'' !in e;
  }

  /** The steps after the third leave `&gt;` alone. */
  lemma EscapeEntityTail3(e: string)
    requires e == "&gt;"
    ensures ReplaceAll(ReplaceAll(e, '"', "&quot;"), '\'', "&#039;") == e
  {
    assert '"' !in e && '\'' !in e;
  }

  /** The chained `replaceAll` calls escape each character independently. */
  lemma {:induction false} EscapeIsPerCharacter(s: string)
    ensures Escape(s) == EscapeEach(s)
  {
    if s != [] {
      assert s == [s[0]] + s[1..];
      EscapeConcat([s[0]], s[1..]);
      EscapeOneChar(s[0]);
      EscapeIsPerCharacter(s[1..]);
    }
  }

  lemma {:induction false} EscapeEachConcat(a: string, b: string)
    ensures EscapeEach(a + b) == EscapeEach(a) + EscapeEach(b)
  {
    if a != [] {
      assert (a + b)[0] == a[0];
      assert (a + b)[1..] == a[1..] + b;
      EscapeEachConcat(a[1..], b);
      calc {
        EscapeEach(a + b);
        EscapeChar(a[0]) + EscapeEach(a[1..] + b);
        EscapeChar(a[0]) + (EscapeEach(a[1..]) + EscapeEach(b));
        (EscapeChar(a[0]) + EscapeEach(a[1..])) + EscapeEach(b);
      }
    } else {
      assert a + b == b;
    }
  }

  lemma {:induction false} EscapeEachSafe(s: string)
    ensures '<' !in EscapeEach(s) && '>' !in EscapeEach(s)
    ensures '"' !in EscapeEach(s) && '\'' !in EscapeEach(s)
  {
    if s != [] {
      EscapeCharSafe(s[0]);
      EscapeEachSafe(s[1..]);
      assert EscapeEach(s) == EscapeChar(s[0]) + EscapeEach(s[1..]);
    }
  }

  lemma EscapeCharSafe(c: char)
    ensures '<' !in EscapeChar(c) && '>' !in EscapeChar(c)
    ensures '"' !in EscapeChar(c) && '\'' !in EscapeChar(c)
  {
  }

  /** Escaped text holds no raw `<`, `>`, `"` or `'`. */
  lemma EscapeIsSafe(s: string)
    ensures '<' !in Escape(s) && '>' !in Escape(s)
    ensures '"' !in Escape(s) && '\'' !in Escape(s)
  {
    EscapeIsPerCharacter(s);
    EscapeEachSafe(s);
  }

  lemma {:induction false} EscapeEachLength(s: string)
    ensures |EscapeEach(s)| >= |s|
    ensures (exists i :: 0 <= i < |s| && IsSpecial(s[i])) ==> |EscapeEach(s)| > |s|
  {
    if s != [] {
      EscapeEachLength(s[1..]);
      if exists i :: 0 <= i < |s| && IsSpecial(s[i]) {
        var i :| 0 <= i < |s| && IsSpecial(s[i]);
        if i > 0 {
          assert s[1..][i - 1] == s[i];
        }
      }
    }
  }

  lemma {:induction false} EscapeEachIdentity(s: string)
    requires forall i :: 0 <= i < |s| ==> !IsSpecial(s[i])
    ensures EscapeEach(s) == s
  {
    if s != [] {
      EscapeEachIdentity(s[1..]);
    }
  }

  /** `_escape` leaves a string unchanged exactly when it holds none of the
      five special characters. */
  lemma EscapeUnchangedIff(s: string)
    ensures Escape(s) == s <==> forall i :: 0 <= i < |s| ==> !IsSpecial(s[i])
  {
    EscapeIsPerCharacter(s);
    EscapeEachLength(s);
    if forall i :: 0 <= i < |s| ==> !IsSpecial(s[i]) {
      EscapeEachIdentity(s);
    }
  }

  /** Decodes the five entities `_escape` produces; any other character,
      including an ampersand that starts no such entity, is kept. */
  function Unescape(s: string): string
    decreases |s|
  {
    if s == [] then ""
    else if "&amp;" <= s then "&" + Unescape(s[5..])
    else if "&lt;" <= s then "<" + Unescape(s[4..])
    else if "&gt;" <= s then ">" + Unescape(s[4..])
    else if "&quot;" <= s then "\"" + Unescape(s[6..])
    else if "&#039;" <= s then "'" + Unescape(s[6..])
    else [s[0]] + Unescape(s[1..])
  }

  lemma UnescapeAfterEntity(c: char, rest: string)
    ensures Unescape(EscapeChar(c) + rest) == [c] + Unescape(rest)
  {
    var e := EscapeChar(c);
    assert (e + rest)[..|e|] == e;
    assert (e + rest)[|e|..] == rest;
    if c == '&' {
      assert "&amp;" <= e + rest;
    } else if c == '<' {
      assert !("&amp;" <= e + rest) by { assert (e + rest)[1] == 'l'; }
      assert "&lt;" <= e + rest;
    } else if c == '>' {
      assert !("&amp;" <= e + rest) by { assert (e + rest)[1] == 'g'; }
      assert !("&lt;" <= e + rest) by { assert (e + rest)[1] == 'g'; }
      assert "&gt;" <= e + rest;
    } else if c == '"' {
      assert (e + rest)[1] == 'q';
      assert !("&amp;" <= e + rest) && !("&lt;" <= e + rest) && !("&gt;" <= e + rest);
      assert "&quot;" <= e + rest;
    } else if c == '\'' {
      assert (e + rest)[1] == '#';
      assert !("&amp;" <= e + rest) && !("&lt;" <= e + rest) && !("&gt;" <= e + rest);
      assert !("&quot;" <= e + rest);
      assert "&#039;" <= e + rest;
    } else {
      assert (e + rest)[0] == c;
    }
  }

  lemma {:induction false} UnescapeEscapeEach(s: string)
    ensures Unescape(EscapeEach(s)) == s
  {
    if s != [] {
      UnescapeAfterEntity(s[0], EscapeEach(s[1..]));
      UnescapeEscapeEach(s[1..]);
    }
  }

  /** A character other than `&` starts no entity and decodes to itself. */
  lemma UnescapeOther(s: string)
    requires s != [] && s[0] != '&'
    ensures Unescape(s) == [s[0]] + Unescape(s[1..])
  {
  }

  /** Text without ampersands decodes to itself, whatever follows it. */
  lemma {:induction false} UnescapePlain(p: string, e: string)
    requires forall i :: 0 <= i < |p| ==> p[i] != '&'
    ensures Unescape(p + e) == p + Unescape(e)
  {
    if p == [] {
      assert p + e == e;
    } else {
      var s, t := p + e, p[1..];
      assert s[0] == p[0];
      UnescapeOther(s);
      assert s[1..] == t + e;
      assert forall i :: 0 <= i < |t| ==> t[i] == p[i + 1];
      UnescapePlain(t, e);
      assert Unescape(s) == [p[0]] + (t + Unescape(e));
      Strings.AppendAssoc([p[0]], t, Unescape(e));
      assert [p[0]] + t == p;
    }
  }

  /** Escaping loses nothing: decoding the five entities gives the input back. */
  lemma UnescapeEscape(s: string)
    ensures Unescape(Escape(s)) == s
  {
    EscapeIsPerCharacter(s);
    UnescapeEscapeEach(s);
  }

  /** `_htmlParamToString`. */
  function ParamToString(param: Param): string
  {
    match param
    case Null => ""
    case Fragment(h) => h.content
    case Str(s) => Escape(s)
  }

  /** The parameter that follows chunk `i`, rendered, or nothing. */
  function ParamAfter(params: seq<Param>, i: nat): string
  {
    if i < |params| then ParamToString(params[i]) else ""
  }

  /** The array `reduce` builds in `html` after the first `k` text chunks:
      each chunk, followed by its parameter when there is one. */
  function Parts(texts: seq<string>, params: seq<Param>, k: nat): seq<string>
    requires k <= |texts|
  {
    if k == 0 then []
    else Parts(texts, params, k - 1) + [texts[k - 1]]
         + (if k - 1 < |params| then [ParamAfter(params, k - 1)] else [])
  }

  /** The `html` tag function. */
  function Html(texts: seq<string>, params: seq<Param>): HtmlString
  {
    HtmlString(Concat(Parts(texts, params, |texts|)))
  }

  /** What a template denotes from chunk `i` on:
      `texts[i] · r(params[i]) · texts[i + 1] · …`, a parameter only where there is one. */
  function InterleaveFrom(texts: seq<string>, params: seq<Param>, i: nat): string
    decreases |texts| - i
  {
    if i >= |texts| then ""
    else texts[i] + (ParamAfter(params, i) + InterleaveFrom(texts, params, i + 1))
  }

  /** What a template denotes: `texts[0] · r(p0) · texts[1] · r(p1) · …`. */
  function Interleave(texts: seq<string>, params: seq<Param>): string
  {
    InterleaveFrom(texts, params, 0)
  }

  /** Each step of the `reduce` adds a chunk and the parameter after it. */
  lemma PartsStep(texts: seq<string>, params: seq<Param>, k: nat)
    requires 0 < k <= |texts|
    ensures Concat(Parts(texts, params, k)) == Concat(Parts(texts, params, k - 1)) + (texts[k - 1] + ParamAfter(params, k - 1))
  {
    var last := ParamAfter(params, k - 1);
    var tail := [texts[k - 1]] + (if k - 1 < |params| then [last] else []);
    assert Parts(texts, params, k) == Parts(texts, params, k - 1) + tail;
    ConcatAppend(Parts(texts, params, k - 1), tail);
    assert tail[0] == texts[k - 1];
    if k - 1 < |params| {
      assert tail[1..] == [last];
      assert Concat(tail[1..]) == last + Concat([]);
    } else {
      assert tail[1..] == [];
    }
  }

  /** The pieces `reduce` has collected after `k` chunks, followed by what
      the remaining chunks denote, make up the whole template. */
  lemma {:induction false} PartsThenRest(texts: seq<string>, params: seq<Param>, k: nat)
    requires k <= |texts|
    ensures Concat(Parts(texts, params, k)) + InterleaveFrom(texts, params, k) == Interleave(texts, params)
  {
    if k > 0 {
      PartsThenRest(texts, params, k - 1);
      PartsStep(texts, params, k);
      var before, last := Concat(Parts(texts, params, k - 1)), ParamAfter(params, k - 1);
      var rest := InterleaveFrom(texts, params, k);
      assert InterleaveFrom(texts, params, k - 1) == texts[k - 1] + (last + rest);
      AppendAssoc(before, texts[k - 1] + last, rest);
      AppendAssoc(texts[k - 1], last, rest);
    }
  }

  /** The `reduce`-and-`join` of `html` builds exactly the interleaving. */
  lemma HtmlIsInterleaving(texts: seq<string>, params: seq<Param>)
    ensures Html(texts, params).content == Interleave(texts, params)
  {
    PartsThenRest(texts, params, |texts|);
  }

  /** A template ends with its last chunk: the last step of `reduce` finds no
      parameter and appends nothing after that chunk. */
  lemma HtmlLastChunk(texts: seq<string>, params: seq<Param>)
    requires |texts| == |params| + 1
    ensures Html(texts, params).content == Concat(Parts(texts, params, |params|)) + texts[|params|]
  {
    PartsStep(texts, params, |texts|);
    assert ParamAfter(params, |params|) == "";
    assert texts[|params|] + "" == texts[|params|];
  }

  /** Templates of the sizes the content script uses, in closed form:
      each chunk, then its parameter rendered, and the last chunk at the end. */
  lemma Interleave0(t0: string)
    ensures Interleave([t0], [])
         == t0
  {
    var ts, ps := [t0], [];
    assert InterleaveFrom(ts, ps, 1) == "";
    assert InterleaveFrom(ts, ps, 0) == t0;
  }

  lemma Html0(t0: string)
    ensures Html([t0], []).content
         == t0
  {
    HtmlIsInterleaving([t0], []);
    Interleave0(t0);
  }

  lemma Interleave1(t0: string, p0: Param, t1: string)
    ensures Interleave([t0, t1], [p0])
         == t0 + (ParamToString(p0) + t1)
  {
    var ts, ps := [t0, t1], [p0];
    assert InterleaveFrom(ts, ps, 2) == "";
    assert InterleaveFrom(ts, ps, 1) == t1;
    assert InterleaveFrom(ts, ps, 0) == t0 + (ParamToString(p0) + InterleaveFrom(ts, ps, 1));
  }

  lemma Html1(t0: string, p0: Param, t1: string)
    ensures Html([t0, t1], [p0]).content
         == t0 + (ParamToString(p0) + t1)
  {
    HtmlIsInterleaving([t0, t1], [p0]);
    Interleave1(t0, p0, t1);
  }

  lemma Interleave3(t0: string, p0: Param, t1: string, p1: Param, t2: string, p2: Param, t3: string)
    ensures Interleave([t0, t1, t2, t3], [p0, p1, p2])
         == t0 + (ParamToString(p0) + (t1 + (ParamToString(p1) + (t2 + (ParamToString(p2) + t3)))))
  {
    var ts, ps := [t0, t1, t2, t3], [p0, p1, p2];
    assert InterleaveFrom(ts, ps, 4) == "";
    assert InterleaveFrom(ts, ps, 3) == t3;
    assert InterleaveFrom(ts, ps, 2) == t2 + (ParamToString(p2) + InterleaveFrom(ts, ps, 3));
    assert InterleaveFrom(ts, ps, 1) == t1 + (ParamToString(p1) + InterleaveFrom(ts, ps, 2));
    assert InterleaveFrom(ts, ps, 0) == t0 + (ParamToString(p0) + InterleaveFrom(ts, ps, 1));
  }

  lemma Html3(t0: string, p0: Param, t1: string, p1: Param, t2: string, p2: Param, t3: string)
    ensures Html([t0, t1, t2, t3], [p0, p1, p2]).content
         == t0 + (ParamToString(p0) + (t1 + (ParamToString(p1) + (t2 + (ParamToString(p2) + t3)))))
  {
    HtmlIsInterleaving([t0, t1, t2, t3], [p0, p1, p2]);
    Interleave3(t0, p0, t1, p1, t2, p2, t3);
  }

  lemma Interleave4(t0: string, p0: Param, t1: string, p1: Param, t2: string, p2: Param, t3: string, p3: Param, t4: string)
    ensures Interleave([t0, t1, t2, t3, t4], [p0, p1, p2, p3])
         == t0 + (ParamToString(p0) + (t1 + (ParamToString(p1) + (t2 + (ParamToString(p2) + (t3 +
            (ParamToString(p3) + t4)))))))
  {
    var ts, ps := [t0, t1, t2, t3, t4], [p0, p1, p2, p3];
    assert InterleaveFrom(ts, ps, 5) == "";
    assert InterleaveFrom(ts, ps, 4) == t4;
    assert InterleaveFrom(ts, ps, 3) == t3 + (ParamToString(p3) + InterleaveFrom(ts, ps, 4));
    assert InterleaveFrom(ts, ps, 2) == t2 + (ParamToString(p2) + InterleaveFrom(ts, ps, 3));
    assert InterleaveFrom(ts, ps, 1) == t1 + (ParamToString(p1) + InterleaveFrom(ts, ps, 2));
    assert InterleaveFrom(ts, ps, 0) == t0 + (ParamToString(p0) + InterleaveFrom(ts, ps, 1));
  }

  lemma Html4(t0: string, p0: Param, t1: string, p1: Param, t2: string, p2: Param, t3: string, p3: Param, t4: string)
    ensures Html([t0, t1, t2, t3, t4], [p0, p1, p2, p3]).content
         == t0 + (ParamToString(p0) + (t1 + (ParamToString(p1) + (t2 + (ParamToString(p2) + (t3 +
            (ParamToString(p3) + t4)))))))
  {
    HtmlIsInterleaving([t0, t1, t2, t3, t4], [p0, p1, p2, p3]);
    Interleave4(t0, p0, t1, p1, t2, p2, t3, p3, t4);
  }

  lemma Interleave9(t0: string, p0: Param, t1: string, p1: Param, t2: string, p2: Param, t3: string, p3: Param, t4: string, p4: Param, t5: string, p5: Param, t6: string, p6: Param, t7: string, p7: Param, t8: string, p8: Param, t9: string)
    ensures Interleave([t0, t1, t2, t3, t4, t5, t6, t7, t8, t9], [p0, p1, p2, p3, p4, p5, p6, p7, p8])
         == t0 + (ParamToString(p0) + (t1 + (ParamToString(p1) + (t2 + (ParamToString(p2) + (t3 +
            (ParamToString(p3) + (t4 + (ParamToString(p4) + (t5 + (ParamToString(p5) + (t6 +
            (ParamToString(p6) + (t7 + (ParamToString(p7) + (t8 + (ParamToString(p8) + t9)))))))))))))))))
  {
    var ts, ps := [t0, t1, t2, t3, t4, t5, t6, t7, t8, t9], [p0, p1, p2, p3, p4, p5, p6, p7, p8];
    assert InterleaveFrom(ts, ps, 10) == "";
    assert InterleaveFrom(ts, ps, 9) == t9;
    assert InterleaveFrom(ts, ps, 8) == t8 + (ParamToString(p8) + InterleaveFrom(ts, ps, 9));
    assert InterleaveFrom(ts, ps, 7) == t7 + (ParamToString(p7) + InterleaveFrom(ts, ps, 8));
    assert InterleaveFrom(ts, ps, 6) == t6 + (ParamToString(p6) + InterleaveFrom(ts, ps, 7));
    assert InterleaveFrom(ts, ps, 5) == t5 + (ParamToString(p5) + InterleaveFrom(ts, ps, 6));
    assert InterleaveFrom(ts, ps, 4) == t4 + (ParamToString(p4) + InterleaveFrom(ts, ps, 5));
    assert InterleaveFrom(ts, ps, 3) == t3 + (ParamToString(p3) + InterleaveFrom(ts, ps, 4));
    assert InterleaveFrom(ts, ps, 2) == t2 + (ParamToString(p2) + InterleaveFrom(ts, ps, 3));
    assert InterleaveFrom(ts, ps, 1) == t1 + (ParamToString(p1) + InterleaveFrom(ts, ps, 2));
    assert InterleaveFrom(ts, ps, 0) == t0 + (ParamToString(p0) + InterleaveFrom(ts, ps, 1));
  }

  lemma Html9(t0: string, p0: Param, t1: string, p1: Param, t2: string, p2: Param, t3: string, p3: Param, t4: string, p4: Param, t5: string, p5: Param, t6: string, p6: Param, t7: string, p7: Param, t8: string, p8: Param, t9: string)
    ensures Html([t0, t1, t2, t3, t4, t5, t6, t7, t8, t9], [p0, p1, p2, p3, p4, p5, p6, p7, p8]).content
         == t0 + (ParamToString(p0) + (t1 + (ParamToString(p1) + (t2 + (ParamToString(p2) + (t3 +
            (ParamToString(p3) + (t4 + (ParamToString(p4) + (t5 + (ParamToString(p5) + (t6 +
            (ParamToString(p6) + (t7 + (ParamToString(p7) + (t8 + (ParamToString(p8) + t9)))))))))))))))))
  {
    HtmlIsInterleaving([t0, t1, t2, t3, t4, t5, t6, t7, t8, t9], [p0, p1, p2, p3, p4, p5, p6, p7, p8]);
    Interleave9(t0, p0, t1, p1, t2, p2, t3, p3, t4, p4, t5, p5, t6, p6, t7, p7, t8, p8, t9);
  }

  /** The contents of a list of fragments. */
  function Contents(fragments: seq<HtmlString>): (r: seq<string>)
    ensures |r| == |fragments|
    ensures forall i :: 0 <= i < |fragments| ==> r[i] == fragments[i].content
  {
    if fragments == [] then [] else [fragments[0].content] + Contents(fragments[1..])
  }

  /** `joinHTML`. */
  function JoinHtml(texts: seq<HtmlString>, separator: HtmlString): HtmlString
  {
    HtmlString(Join(Contents(texts), separator.content))
  }

  /** `joinHTML` of nothing is empty, of one fragment is that fragment, and
      puts the separator strictly between a list and one more fragment. */
  lemma JoinHtmlShape(texts: seq<HtmlString>, x: HtmlString, separator: HtmlString)
    ensures JoinHtml([], separator).content == ""
    ensures JoinHtml([x], separator).content == x.content
    ensures JoinHtml(texts + [x], separator).content
         == if texts == [] then x.content
            else JoinHtml(texts, separator).content + separator.content + x.content
  {
    assert Contents([x]) == [x.content];
    assert Contents(texts + [x]) == Contents(texts) + [x.content];
    JoinAppend(Contents(texts), x.content, separator.content);
  }
}
