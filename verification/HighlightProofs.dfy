/** What the output of the highlighter means: the text is the input but for line breaks, the marks are
    around a greedy choice of disjoint regions, and no chunk cuts a marked one. */
module HighlightProofs {
  import opened Closed
  import opened LongestFirst
  import opened SplitText
  import opened Highlight

  function Flat(chunks: seq<seq<Piece>>): seq<Piece> {
    if chunks == [] then [] else Flat(chunks[..|chunks| - 1]) + chunks[|chunks| - 1]
  }

  /** All pieces so far. */
  function Out(p: Pen): seq<Piece> {
    Flat(p.done) + p.chunk
  }

  lemma ChunksAre(p: Pen)
    ensures Flat(Chunks(p)) == Out(p)
  {
    assert Chunks(p)[..|p.done|] == p.done;
  }

  // The text.

  function TextOf(ps: seq<Piece>): seq<nat> {
    if ps == [] then []
    else TextOf(ps[..|ps| - 1]) + (if ps[|ps| - 1].Text? then [ps[|ps| - 1].c] else [])
  }

  lemma {:induction false} TextJoin(a: seq<Piece>, b: seq<Piece>)
    ensures TextOf(a + b) == TextOf(a) + TextOf(b)
    decreases |b|
  {
    if b == [] {
      assert a + b == a;
    } else {
      TextJoin(a, b[..|b| - 1]);
      assert (a + b)[..|a + b| - 1] == a + b[..|b| - 1];
    }
  }

  lemma {:induction false} TextOfTexts(s: seq<nat>)
    ensures TextOf(Texts(s)) == s
  {
    if s != [] {
      TextOfTexts(s[..|s| - 1]);
      assert Texts(s)[..|s| - 1] == Texts(s[..|s| - 1]);
      assert s == s[..|s| - 1] + [s[|s| - 1]];
    }
  }

  /** How many line breaks stand just before character `i`: a CR and LF pair is one. */
  function BreakCount(t: seq<nat>, i: nat): nat
    requires i <= |t|
  {
    if i == 0 || !IsBreak(t[i - 1]) then 0
    else BreakCount(t, i - 1) + (if t[i - 1] == LF && i > 1 && t[i - 2] == CR then 0 else 1)
  }

  /** The first `i` characters with at most two line breaks in a row, each of them LF, and none after the
      last other character. */
  function Kept(t: seq<nat>, i: nat): seq<nat>
    requires i <= |t|
  {
    if i == 0 then []
    else if IsBreak(t[i - 1]) then Kept(t, i - 1)
    else Kept(t, i - 1) + Breaks(BreakCount(t, i - 1)) + [t[i - 1]]
  }

  function EscapeAll(s: seq<nat>): seq<nat> {
    if s == [] then [] else Escape(s[0]) + EscapeAll(s[1..])
  }

  function Unescape(s: seq<nat>): seq<nat>
    decreases |s|
  {
    if s == [] then []
    else if Codes("&lt;") <= s then ['<' as nat] + Unescape(s[4..])
    else if Codes("&amp;") <= s then ['&' as nat] + Unescape(s[5..])
    else [s[0]] + Unescape(s[1..])
  }

  lemma UnescapeOne(c: nat, rest: seq<nat>)
    ensures Unescape(Escape(c) + rest) == [c] + Unescape(rest)
  {
    var s := Escape(c) + rest;
    if c == '<' as nat {
      assert s[..4] == Codes("&lt;") && s[4..] == rest;
    } else if c == '&' as nat {
      assert s[..5] == Codes("&amp;") && s[5..] == rest;
      assert s[1] == 'a' as nat && Codes("&lt;")[1] == 'l' as nat;
    } else {
      assert s[0] == c && Codes("&lt;")[0] == Codes("&amp;")[0] == '&' as nat;
      assert s[1..] == rest;
    }
  }

  /** Escaping can be undone. */
  lemma {:induction false} UnescapeAll(s: seq<nat>)
    ensures Unescape(EscapeAll(s)) == s
  {
    if s != [] {
      UnescapeOne(s[0], EscapeAll(s[1..]));
      UnescapeAll(s[1..]);
    }
  }

  /** No text of the input comes out as markup: in the escaped text no tag is opened, and every ampersand
      begins one of the two escapes. */
  lemma {:induction false} EscapedIsText(s: seq<nat>, k: nat)
    requires k < |EscapeAll(s)|
    ensures EscapeAll(s)[k] != '<' as nat
    ensures EscapeAll(s)[k] == '&' as nat ==> Codes("&lt;") <= EscapeAll(s)[k..] || Codes("&amp;") <= EscapeAll(s)[k..]
    decreases |s|
  {
    var e, rest := Escape(s[0]), EscapeAll(s[1..]);
    assert EscapeAll(s) == e + rest;
    if k < |e| {
      assert k == 0 ==> (e + rest)[k..] == e + rest;
      assert e <= e + rest;
      assert Codes("&lt;")[0] == Codes("&amp;")[0] == '&' as nat;
    } else {
      EscapedIsText(s[1..], k - |e|);
      assert (e + rest)[k..] == rest[k - |e|..];
    }
  }

  lemma {:induction false} EscapeJoin(a: seq<nat>, b: seq<nat>)
    ensures EscapeAll(a + b) == EscapeAll(a) + EscapeAll(b)
  {
    if a == [] {
      assert a + b == b;
    } else {
      assert (a + b)[1..] == a[1..] + b;
      EscapeJoin(a[1..], b);
      assert Escape(a[0]) + (EscapeAll(a[1..]) + EscapeAll(b)) == Escape(a[0]) + EscapeAll(a[1..]) + EscapeAll(b);
    }
  }

  lemma EscapeChar(eol: nat, c: nat)
    ensures EscapeAll(Breaks(eol) + [c]) == Breaks(eol) + Escape(c)
  {
    EscapeJoin(Breaks(eol), [c]);
    assert EscapeAll([c]) == Escape(c) + [];
    assert EscapeAll([LF]) == [LF];
    assert [LF, LF][1..] == [LF];
    assert EscapeAll([LF, LF]) == [LF] + [LF];
  }

  lemma OutMark(rs: seq<Region>, b: nat, p: Pen)
    requires p.k <= |rs|
    ensures Out(Mark(rs, b, p)) == Out(p) + MarkAt(rs, p.k, b) && TextOf(Out(Mark(rs, b, p))) == TextOf(Out(p))
  {
    var mark := MarkAt(rs, p.k, b);
    assert Flat(p.done) + (p.chunk + mark) == Flat(p.done) + p.chunk + mark;
    TextJoin(Out(p), mark);
    assert mark != [] ==> mark[..0] == [];
    assert TextOf(mark) == [];
  }

  lemma OutFlush(style: Style, size: nat, p: Pen)
    ensures var f := Flush(style, size, p); var text := Out(p) + Texts(Breaks(p.eol));
            f.eol == 0 && (Out(f) == text || Out(f) == text + [StartChunk])
  {
    var text := Texts(Breaks(p.eol));
    assert p.eol == 0 ==> Out(p) + text == Out(p);
    assert Flat(p.done) + (p.chunk + text) == Out(p) + text;
    assert (p.done + [p.chunk + text])[..|p.done|] == p.done;
  }

  lemma TextFlush(style: Style, size: nat, p: Pen)
    ensures TextOf(Out(Flush(style, size, p))) == TextOf(Out(p)) + Breaks(p.eol)
  {
    OutFlush(style, size, p);
    var text := Texts(Breaks(p.eol));
    TextJoin(Out(p), text);
    TextOfTexts(Breaks(p.eol));
    TextJoin(Out(p) + text, [StartChunk]);
    assert [StartChunk][..0] == [];
    assert TextOf([StartChunk]) == [];
  }

  lemma OutWrite(style: Style, size: nat, c: nat, p: Pen)
    ensures Out(Write(style, size, c, p)) ==
            if IsBreak(c) then Out(p) else Out(Flush(style, size, p)) + Texts(Escape(c))
  {
    if !IsBreak(c) {
      var f := Flush(style, size, p);
      assert Flat(f.done) + (f.chunk + Texts(Escape(c))) == Out(f) + Texts(Escape(c));
    }
  }

  lemma TextWrite(style: Style, size: nat, c: nat, p: Pen)
    ensures TextOf(Out(Write(style, size, c, p))) ==
            if IsBreak(c) then TextOf(Out(p)) else TextOf(Out(p)) + Breaks(p.eol) + Escape(c)
  {
    OutWrite(style, size, c, p);
    TextFlush(style, size, p);
    TextJoin(Out(Flush(style, size, p)), Texts(Escape(c)));
    TextOfTexts(Escape(c));
  }

  lemma BreaksOf(style: Style, size: nat, c: nat, p: Pen)
    ensures var w := Write(style, size, c, p);
            if c == LF then w.eol == (if p.hadcr then p.eol else p.eol + 1) && !w.hadcr
            else if c == CR then w.eol == p.eol + 1 && w.hadcr
            else w.eol == 0 && (w.hadcr <==> p.hadcr && p.eol == 0)
  {
  }

  lemma MarkKeepsBreaks(rs: seq<Region>, b: nat, p: Pen)
    requires p.k <= |rs|
    ensures Mark(rs, b, p).eol == p.eol && Mark(rs, b, p).hadcr == p.hadcr
  {
  }

  /** The pending line breaks are those just before character `i`. */
  ghost predicate Pends(t: seq<nat>, i: nat, p: Pen)
    requires i <= |t|
  {
    forall eye :: Look(eye) ==> p.eol == BreakCount(t, i) && (p.hadcr <==> i > 0 && t[i - 1] == CR)
  }

  lemma PendsIs(t: seq<nat>, i: nat, p: Pen)
    requires i <= |t|
    ensures Pends(t, i, p) <==> p.eol == BreakCount(t, i) && (p.hadcr <==> i > 0 && t[i - 1] == CR)
  {
    if Pends(t, i, p) {
      assert Look(Eye);
    }
  }

  lemma {:induction false} PendingBreaks(t: seq<nat>, rs: seq<Region>, style: Style, size: nat, i: nat, p: Pen)
    requires i <= |t| && Reaches(t, rs, style, size, i, p)
    ensures Pends(t, i, p)
    decreases i
  {
    if i == 0 {
      ReachesStart(t, rs, style, size, p);
      PendsIs(t, 0, p);
    } else {
      var q, j := ReachesBack(t, rs, style, size, i, p);
      PendingBreaks(t, rs, style, size, j, q);
      BreaksTurn(t, rs, style, size, j, i, q, p);
    }
  }

  lemma BreaksTurn(t: seq<nat>, rs: seq<Region>, style: Style, size: nat, i: nat, next: nat, p: Pen, w: Pen)
    requires i + 1 == next <= |t| && Turns(t, rs, style, size, i, p, w) && Pends(t, i, p)
    ensures Pends(t, next, w)
  {
    TurnsIs(t, rs, style, size, i, p, w);
    PendsIs(t, i, p);
    MarkKeepsBreaks(rs, Bpos(t, i), p);
    BreaksOf(style, size, t[i], Mark(rs, Bpos(t, i), p));
    PendsIs(t, next, w);
  }

  lemma EscapeMore(kept: seq<nat>, eol: nat, c: nat)
    ensures EscapeAll(kept + Breaks(eol) + [c]) == EscapeAll(kept) + Breaks(eol) + Escape(c)
  {
    EscapeJoin(kept, Breaks(eol) + [c]);
    EscapeChar(eol, c);
    assert kept + (Breaks(eol) + [c]) == kept + Breaks(eol) + [c];
    assert EscapeAll(kept) + (Breaks(eol) + Escape(c)) == EscapeAll(kept) + Breaks(eol) + Escape(c);
  }

  lemma KeptStep(t: seq<nat>, i: nat, text: seq<nat>)
    requires i < |t| && text == EscapeAll(Kept(t, i))
    ensures EscapeAll(Kept(t, i + 1)) ==
            if IsBreak(t[i]) then text else text + Breaks(BreakCount(t, i)) + Escape(t[i])
  {
    EscapeMore(Kept(t, i), BreakCount(t, i), t[i]);
  }

  /** `text` is what has been output so far, but for marks and headers. */
  ghost predicate Shows(p: Pen, text: seq<nat>) {
    forall eye :: Look(eye) ==> TextOf(Out(p)) == text
  }

  lemma ShowsIs(p: Pen, text: seq<nat>)
    ensures Shows(p, text) <==> TextOf(Out(p)) == text
  {
    if Shows(p, text) {
      assert Look(Eye);
    }
  }

  /** What has been output is the escaped text so far. */
  ghost predicate ShowsKept(t: seq<nat>, i: nat, p: Pen)
    requires i <= |t|
  {
    forall eye :: Look(eye) ==> Shows(p, EscapeAll(Kept(t, i)))
  }

  lemma ShowsKeptIs(t: seq<nat>, i: nat, p: Pen)
    requires i <= |t|
    ensures ShowsKept(t, i, p) <==> Shows(p, EscapeAll(Kept(t, i)))
  {
    if ShowsKept(t, i, p) {
      assert Look(Eye);
    }
  }

  lemma TextTurn(t: seq<nat>, rs: seq<Region>, style: Style, size: nat, i: nat, q: Pen, w: Pen, text: seq<nat>)
    requires i < |t| && Turns(t, rs, style, size, i, q, w) && Shows(q, text)
    ensures Shows(w, if IsBreak(t[i]) then text else text + Breaks(q.eol) + Escape(t[i]))
  {
    TurnsIs(t, rs, style, size, i, q, w);
    ShowsIs(q, text);
    OutMark(rs, Bpos(t, i), q);
    TextWrite(style, size, t[i], Mark(rs, Bpos(t, i), q));
    ShowsIs(w, if IsBreak(t[i]) then text else text + Breaks(q.eol) + Escape(t[i]));
  }

  lemma KeptTurn(t: seq<nat>, rs: seq<Region>, style: Style, size: nat, i: nat, next: nat, q: Pen, w: Pen)
    requires i + 1 == next <= |t| && Turns(t, rs, style, size, i, q, w) && ShowsKept(t, i, q) && Pends(t, i, q)
    ensures ShowsKept(t, next, w)
  {
    ShowsKeptIs(t, i, q);
    PendsIs(t, i, q);
    var text := EscapeAll(Kept(t, i));
    KeptStep(t, i, text);
    TextTurn(t, rs, style, size, i, q, w, text);
    ShowsKeptIs(t, next, w);
  }

  lemma ShowsStart(p: Pen)
    requires p.done == [] && p.chunk == [Header]
    ensures Shows(p, [])
  {
    assert Out(p) == [Header];
    assert [Header][..0] == [];
    ShowsIs(p, []);
  }

  lemma {:induction false} TextSoFar(t: seq<nat>, rs: seq<Region>, style: Style, size: nat, i: nat, p: Pen)
    requires i <= |t| && Reaches(t, rs, style, size, i, p)
    ensures ShowsKept(t, i, p)
    decreases i
  {
    if i == 0 {
      ReachesStart(t, rs, style, size, p);
      ShowsStart(p);
      ShowsKeptIs(t, 0, p);
    } else {
      var q, j := ReachesBack(t, rs, style, size, i, p);
      TextSoFar(t, rs, style, size, j, q);
      PendingBreaks(t, rs, style, size, j, q);
      KeptTurn(t, rs, style, size, j, i, q, p);
    }
  }

  /** The whole text with its line breaks normalised: at most two in a row, each of them LF. */
  function Normal(t: seq<nat>): seq<nat> {
    Kept(t, |t|) + Breaks(BreakCount(t, |t|))
  }

  lemma EscapeBreaks(kept: seq<nat>, eol: nat)
    ensures EscapeAll(kept + Breaks(eol)) == EscapeAll(kept) + Breaks(eol)
  {
    EscapeJoin(kept, Breaks(eol));
    assert EscapeAll([LF]) == [LF] + EscapeAll([]);
    assert [LF, LF][1..] == [LF];
    assert EscapeAll([LF, LF]) == [LF] + [LF];
  }

  /** The last turn outputs the pending line breaks and no character. */
  lemma LastTurn(t: seq<nat>, rs: seq<Region>, style: Style, size: nat, q: Pen, w: Pen, text: seq<nat>)
    requires Turns(t, rs, style, size, |t|, q, w) && Shows(q, text)
    ensures Shows(w, text + Breaks(q.eol))
  {
    TurnsIs(t, rs, style, size, |t|, q, w);
    ShowsIs(q, text);
    OutMark(rs, Bpos(t, |t|), q);
    MarkKeepsBreaks(rs, Bpos(t, |t|), q);
    TextFlush(style, size, Mark(rs, Bpos(t, |t|), q));
    ShowsIs(w, text + Breaks(q.eol));
  }

  lemma WholeText(t: seq<nat>, rs: seq<Region>, style: Style, size: nat, w: Pen)
    requires Reaches(t, rs, style, size, Steps(t), w)
    ensures Shows(w, EscapeAll(Normal(t)))
  {
    var q, j := ReachesBack(t, rs, style, size, Steps(t), w);
    assert j == |t|;
    TextSoFar(t, rs, style, size, j, q);
    ShowsKeptIs(t, j, q);
    PendingBreaks(t, rs, style, size, j, q);
    PendsIs(t, j, q);
    LastTurn(t, rs, style, size, q, w, EscapeAll(Kept(t, j)));
    EscapeBreaks(Kept(t, j), BreakCount(t, j));
  }

  /** Taking away the marks and undoing the escapes gives the input back, but for line breaks. */
  lemma TextComesBack(t: seq<nat>, rs: seq<Region>, style: Style, size: nat)
    ensures var out := Chunks(After(t, rs, style, size, Steps(t))); Unescape(TextOf(Flat(out))) == Normal(t)
  {
    var p := After(t, rs, style, size, Steps(t));
    ReachesEnd(t, rs, style, size, Steps(t));
    ChunksAre(p);
    WholeText(t, rs, style, size, p);
    ShowsIs(p, EscapeAll(Normal(t)));
    UnescapeAll(Normal(t));
  }

  function NoBreaks(s: seq<nat>): seq<nat> {
    if s == [] then []
    else NoBreaks(s[..|s| - 1]) + (if IsBreak(s[|s| - 1]) then [] else [s[|s| - 1]])
  }

  lemma {:induction false} NoBreaksJoin(a: seq<nat>, b: seq<nat>)
    ensures NoBreaks(a + b) == NoBreaks(a) + NoBreaks(b)
    decreases |b|
  {
    if b == [] {
      assert a + b == a;
    } else {
      NoBreaksJoin(a, b[..|b| - 1]);
      assert (a + b)[..|a + b| - 1] == a + b[..|b| - 1];
    }
  }

  lemma NoBreaksIn(s: seq<nat>, eol: nat)
    ensures NoBreaks(s + Breaks(eol)) == NoBreaks(s)
  {
    NoBreaksJoin(s, Breaks(eol));
    assert [LF][..0] == [] && [LF, LF][..1] == [LF];
    assert NoBreaks([LF]) == [] && NoBreaks([LF, LF]) == [];
  }

  lemma {:induction false} KeptSoFar(t: seq<nat>, i: nat)
    requires i <= |t|
    ensures NoBreaks(Kept(t, i)) == NoBreaks(t[..i])
  {
    if i > 0 {
      KeptSoFar(t, i - 1);
      assert t[..i][..i - 1] == t[..i - 1];
      var n := BreakCount(t, i - 1);
      NoBreaksJoin(Kept(t, i - 1) + Breaks(n), [t[i - 1]]);
      NoBreaksIn(Kept(t, i - 1), n);
      assert [t[i - 1]][..0] == [];
    }
  }

  /** Nothing but line breaks differs. */
  lemma OnlyBreaksDiffer(t: seq<nat>)
    ensures NoBreaks(Normal(t)) == NoBreaks(t)
  {
    KeptSoFar(t, |t|);
    NoBreaksIn(Kept(t, |t|), BreakCount(t, |t|));
    assert t[..|t|] == t;
  }

  /** A text that ends in line breaks keeps one or two of them. */
  lemma LastBreaksKept(t: seq<nat>)
    requires t != [] && IsBreak(t[|t| - 1])
    ensures Normal(t) != [] && Normal(t)[|Normal(t)| - 1] == LF
    ensures |Normal(t)| == |Kept(t, |t|)| + (if BreakCount(t, |t|) == 1 then 1 else 2)
  {
    BreaksCounted(t, |t|);
  }

  lemma {:induction false} BreaksCounted(t: seq<nat>, i: nat)
    requires 0 < i <= |t| && IsBreak(t[i - 1])
    ensures BreakCount(t, i) >= 1
  {
    if i > 1 && t[i - 1] == LF && t[i - 2] == CR {
      BreaksCounted(t, i - 1);
    }
  }
}
