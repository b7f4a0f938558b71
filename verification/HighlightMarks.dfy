/** The marks of the highlighter: which regions are marked, where the marks stand in the output, and that
    they alternate in every chunk. */
module HighlightMarks {
  import opened Closed
  import opened LongestFirst
  import opened SplitText
  import opened Highlight
  import opened HighlightProofs
  import opened HighlightChunks

  /** A mark and the byte of the input it stands before. */
  datatype Placed = Placed(mark: Piece, at: nat)

  /** The marks from turn `i` on, region `k` being the next. */
  function Log(t: seq<nat>, rs: seq<Region>, k: nat, i: nat): seq<Placed>
    requires k <= |rs| && i <= Steps(t)
    decreases Steps(t) - i
  {
    if i == Steps(t) then []
    else
      var b := Bpos(t, i);
      var m := MarkAt(rs, k, b);
      var rest := Log(t, rs, NextRegion(rs, k, b), i + 1);
      if m == [] then rest else [Placed(m[0], b)] + rest
  }

  /** The greedy choice of regions: the first one, then the first one that begins at its end or later. */
  function Greedy(rs: seq<Region>, k: nat): seq<Region>
    requires k <= |rs|
    decreases |rs| - k
  {
    if k == |rs| then []
    else
      var next := SkipTo(rs, k, rs[k].end);
      [rs[k]] + Greedy(rs, if next > k then next else k + 1)
  }

  /** The marks that these regions should get. */
  function Expected(kept: seq<Region>): seq<Placed> {
    if kept == [] then []
    else [Placed(StartMatch(kept[0].what), kept[0].start), Placed(EndMatch, kept[0].end)] + Expected(kept[1..])
  }

  /** A byte offset at which a turn of the loop stands: that of a character, or the end of the text. */
  ghost predicate OnChar(t: seq<nat>, b: nat) {
    exists i: nat :: i < Steps(t) && Bpos(t, i) == b
  }

  /** Regions that can be marked: not empty, from a character to a character or to the end of the text, and
      none beginning where the one before it ends. */
  ghost predicate Markable(t: seq<nat>, kept: seq<Region>) {
    && (forall r :: r in kept ==> r.start < r.end && OnChar(t, r.start) && OnChar(t, r.end))
    && (forall j :: 0 < j < |kept| ==> kept[j - 1].end < kept[j].start)
  }

  lemma {:induction false} BposRises(t: seq<nat>, i: nat, j: nat)
    requires i < j <= |t|
    ensures Bpos(t, i) < Bpos(t, j)
  {
    if i < j - 1 {
      BposRises(t, i, j - 1);
    }
  }

  /** Bytes of characters are one after the other: at a byte not passed yet, the next turn is not past it. */
  lemma NotPassed(t: seq<nat>, i: nat, b: nat)
    requires i < Steps(t) && OnChar(t, b) && Bpos(t, i) < b
    ensures i + 1 < Steps(t) && Bpos(t, i + 1) <= b
  {
    var j: nat :| j < Steps(t) && Bpos(t, j) == b;
    if j < i {
      BposRises(t, j, i);
    } else if i + 1 < j {
      BposRises(t, i + 1, j);
    }
  }

  lemma MarkableTail(t: seq<nat>, kept: seq<Region>)
    requires Markable(t, kept) && kept != []
    ensures Markable(t, kept[1..]) && (|kept| > 1 ==> kept[0].end < kept[1].start)
    ensures kept[0].start < kept[0].end && OnChar(t, kept[0].start) && OnChar(t, kept[0].end)
  {
    var more := kept[1..];
    assert forall j :: 0 <= j < |more| ==> more[j] == kept[j + 1];
    assert kept[0] in kept;
  }

  /** The regions still to come are the greedy choice from `k` on, whose first one is not passed yet. */
  ghost predicate Coming(t: seq<nat>, rs: seq<Region>, k: nat, i: nat)
    requires k <= |rs| && i <= Steps(t)
  {
    Markable(t, Greedy(rs, k)) && (i < Steps(t) && k < |rs| ==> Bpos(t, i) <= rs[k].start) && (i == Steps(t) ==> k == |rs|)
  }

  /** Inside region `k`, whose end is not passed yet. */
  ghost predicate Within(t: seq<nat>, rs: seq<Region>, k: nat, i: nat)
    requires k <= |rs| && i <= Steps(t)
  {
    && k < |rs| && Markable(t, Greedy(rs, k)) && i < Steps(t) && rs[k].start < Bpos(t, i) <= rs[k].end
  }

  lemma GreedyFirst(t: seq<nat>, rs: seq<Region>, k: nat)
    requires k < |rs| && Markable(t, Greedy(rs, k))
    ensures rs[k].start < rs[k].end && OnChar(t, rs[k].start) && OnChar(t, rs[k].end)
    ensures var next := SkipTo(rs, k, rs[k].end);
            && k < next && Greedy(rs, k) == [rs[k]] + Greedy(rs, next) && Markable(t, Greedy(rs, next))
            && (next < |rs| ==> rs[k].end < rs[next].start)
  {
    MarkableTail(t, Greedy(rs, k));
    var next := SkipTo(rs, k, rs[k].end);
    assert Greedy(rs, k)[1..] == Greedy(rs, next);
    if next < |rs| {
      assert Greedy(rs, k)[1] == Greedy(rs, next)[0] == rs[next];
    }
  }

  /** Outside regions: either the next one begins here, or it is still to come. */
  lemma ComingTurn(t: seq<nat>, rs: seq<Region>, k: nat, i: nat)
    requires k <= |rs| && i < Steps(t) && Coming(t, rs, k, i)
    ensures var b := Bpos(t, i);
            if Starts(rs, k, b) then Within(t, rs, k, i + 1)
            else !Ends(rs, k, b) && Coming(t, rs, k, i + 1)
  {
    if k < |rs| {
      GreedyFirst(t, rs, k);
      if Bpos(t, i) == rs[k].start {
        NotPassed(t, i, rs[k].end);
      } else {
        NotPassed(t, i, rs[k].start);
      }
    }
  }

  /** Inside a region: either it ends here, or it goes on. */
  lemma WithinTurn(t: seq<nat>, rs: seq<Region>, k: nat, i: nat)
    requires k <= |rs| && i < Steps(t) && Within(t, rs, k, i)
    ensures var b := Bpos(t, i);
            && !Starts(rs, k, b)
            && if Ends(rs, k, b) then b > 0 && Coming(t, rs, NextRegion(rs, k, b), i + 1) else Within(t, rs, k, i + 1)
  {
    GreedyFirst(t, rs, k);
    var b := Bpos(t, i);
    if b == rs[k].end {
      var next := SkipTo(rs, k, rs[k].end);
      if next < |rs| {
        GreedyFirst(t, rs, next);
        NotPassed(t, i, rs[next].start);
      }
    } else {
      NotPassed(t, i, rs[k].end);
    }
  }

  /** The regions of the greedy choice get their marks, if they can be marked. */
  lemma {:induction false} LogComing(t: seq<nat>, rs: seq<Region>, k: nat, i: nat)
    requires k <= |rs| && i <= Steps(t) && Coming(t, rs, k, i)
    ensures Log(t, rs, k, i) == Expected(Greedy(rs, k))
    decreases Steps(t) - i
  {
    if i < Steps(t) {
      ComingTurn(t, rs, k, i);
      if Starts(rs, k, Bpos(t, i)) {
        LogWithin(t, rs, k, i + 1);
        GreedyFirst(t, rs, k);
        ExpectedFirst(rs[k], Greedy(rs, SkipTo(rs, k, rs[k].end)));
      } else {
        LogComing(t, rs, k, i + 1);
      }
    }
  }

  lemma {:induction false} LogWithin(t: seq<nat>, rs: seq<Region>, k: nat, i: nat)
    requires k <= |rs| && i <= Steps(t) && Within(t, rs, k, i)
    ensures Log(t, rs, k, i) == [Placed(EndMatch, rs[k].end)] + Expected(Greedy(rs, SkipTo(rs, k, rs[k].end)))
    decreases Steps(t) - i
  {
    var b := Bpos(t, i);
    WithinTurn(t, rs, k, i);
    if Ends(rs, k, b) {
      LogComing(t, rs, NextRegion(rs, k, b), i + 1);
    } else {
      LogWithin(t, rs, k, i + 1);
    }
  }

  lemma ExpectedFirst(r: Region, rest: seq<Region>)
    ensures Expected([r] + rest) == [Placed(StartMatch(r.what), r.start)] + ([Placed(EndMatch, r.end)] + Expected(rest))
  {
    assert ([r] + rest)[1..] == rest;
  }

  // The other way.

  /** Marks stand at characters not passed yet, one after the other. */
  ghost predicate Rising(t: seq<nat>, log: seq<Placed>, i: nat)
    requires i <= Steps(t)
  {
    && (forall m :: 0 <= m < |log| ==> OnChar(t, log[m].at) && (i < Steps(t) ==> Bpos(t, i) <= log[m].at))
    && (forall m :: 0 < m < |log| ==> log[m - 1].at < log[m].at)
    && (i == Steps(t) ==> log == [])
  }

  lemma {:induction false} LogRises(t: seq<nat>, rs: seq<Region>, k: nat, i: nat)
    requires k <= |rs| && i <= Steps(t)
    ensures Rising(t, Log(t, rs, k, i), i)
    decreases Steps(t) - i
  {
    if i < Steps(t) {
      var b := Bpos(t, i);
      var k' := NextRegion(rs, k, b);
      LogRises(t, rs, k', i + 1);
      RisingMore(t, Log(t, rs, k', i + 1), i);
      if MarkAt(rs, k, b) != [] {
        RisingPush(t, Log(t, rs, k', i + 1), MarkAt(rs, k, b)[0], i);
      }
    }
  }

  lemma RisingMore(t: seq<nat>, log: seq<Placed>, i: nat)
    requires i < Steps(t) && Rising(t, log, i + 1)
    ensures Rising(t, log, i) && forall m :: 0 <= m < |log| ==> Bpos(t, i) < log[m].at
  {
    if i + 1 < Steps(t) {
      BposRises(t, i, i + 1);
    }
  }

  lemma RisingPush(t: seq<nat>, log: seq<Placed>, mark: Piece, i: nat)
    requires i < Steps(t) && Rising(t, log, i) && forall m :: 0 <= m < |log| ==> Bpos(t, i) < log[m].at
    ensures Rising(t, [Placed(mark, Bpos(t, i))] + log, i)
  {
    var more := [Placed(mark, Bpos(t, i))] + log;
    assert OnChar(t, Bpos(t, i));
    assert forall m :: 0 < m < |more| ==> more[m] == log[m - 1];
  }

  lemma {:induction false} ExpectedMarkable(t: seq<nat>, kept: seq<Region>)
    requires Rising(t, Expected(kept), 0)
    ensures Markable(t, kept)
    decreases |kept|
  {
    if kept != [] {
      var log, more := Expected(kept), kept[1..];
      assert log[0].at == kept[0].start && log[1].at == kept[0].end && log[0].at < log[1].at;
      assert log[2..] == Expected(more);
      assert forall m :: 0 <= m < |Expected(more)| ==> Expected(more)[m] == log[m + 2];
      ExpectedMarkable(t, more);
      if more != [] {
        assert log[2].at == more[0].start && log[1].at < log[2].at;
      }
      assert forall r :: r in kept ==> r == kept[0] || r in more;
      assert forall j :: 0 < j < |kept| ==> kept[j] == more[j - 1];
    }
  }

  /** The marks are those of the greedy choice exactly when its regions can be marked. */
  lemma MarkedIffMarkable(t: seq<nat>, rs: seq<Region>)
    ensures Log(t, rs, 0, 0) == Expected(Greedy(rs, 0)) <==> Markable(t, Greedy(rs, 0))
  {
    if Markable(t, Greedy(rs, 0)) {
      assert Coming(t, rs, 0, 0);
      LogComing(t, rs, 0, 0);
    }
    if Log(t, rs, 0, 0) == Expected(Greedy(rs, 0)) {
      LogRises(t, rs, 0, 0);
      ExpectedMarkable(t, Greedy(rs, 0));
    }
  }

  /** A region that begins where another ends: its end is marked and its beginning is not. */
  lemma TouchingRegions()
    ensures var t, rs := Codes("abc"), [Entry(0, 1, 7), Entry(1, 2, 8)];
            && Greedy(rs, 0) == rs
            && Log(t, rs, 0, 0) == [Placed(StartMatch(7), 0), Placed(EndMatch, 1), Placed(EndMatch, 2)]
  {
    var t, rs := Codes("abc"), [Entry(0, 1, 7), Entry(1, 2, 8)];
    assert SkipTo(rs, 0, 1) == 1 && SkipTo(rs, 1, 2) == 2;
    assert Greedy(rs, 1) == [rs[1]] + Greedy(rs, 2);
    assert Bpos(t, 1) == 1 && Bpos(t, 2) == 2;
    assert Log(t, rs, 2, 4) == [] && Log(t, rs, 2, 3) == [];
    assert Log(t, rs, 1, 2) == [Placed(EndMatch, 2)];
    assert MarkAt(rs, 0, 1) == [EndMatch] && NextRegion(rs, 0, 1) == 1;
    assert Log(t, rs, 0, 1) == [Placed(EndMatch, 1)] + Log(t, rs, 1, 2);
    assert MarkAt(rs, 0, 0) == [StartMatch(7)] && NextRegion(rs, 0, 0) == 0;
  }

  /** In the order of the sort, the greedy choice leaves out only regions that begin inside a chosen one. */
  lemma {:induction false} GreedyLeavesOut(rs: seq<Region>, k: nat, n: nat) returns (m: nat)
    requires InOrder(rs) && k <= n < |rs|
    ensures m < |Greedy(rs, k)|
    ensures Greedy(rs, k)[m] == rs[n] || Greedy(rs, k)[m].start <= rs[n].start < Greedy(rs, k)[m].end
    decreases |rs| - k
  {
    var next := SkipTo(rs, k, rs[k].end);
    var k' := if next > k then next else k + 1;
    if n >= k' {
      var m' := GreedyLeavesOut(rs, k', n);
      m := m' + 1;
    } else {
      m := 0;
      SkippedBegin(rs, k, rs[k].end, n);
      if n > k {
        assert !Before(rs[n], rs[k]);
      }
    }
  }

  lemma {:induction false} SkippedBegin(rs: seq<Region>, k: nat, end: nat, n: nat)
    requires k <= n < |rs|
    ensures n < SkipTo(rs, k, end) ==> rs[n].start < end
    decreases |rs| - k
  {
    if k < n && rs[k].start < end {
      SkippedBegin(rs, k + 1, end, n);
    }
  }

  // Where the marks stand in the output.

  /** The output but for the headers of the document and of chunks. */
  function Body(ps: seq<Piece>): seq<Piece> {
    if ps == [] then []
    else
      var p := ps[|ps| - 1];
      Body(ps[..|ps| - 1]) + (if p == Header || p == StartChunk then [] else [p])
  }

  lemma {:induction false} BodyJoin(a: seq<Piece>, b: seq<Piece>)
    ensures Body(a + b) == Body(a) + Body(b)
    decreases |b|
  {
    if b == [] {
      assert a + b == a;
    } else {
      BodyJoin(a, b[..|b| - 1]);
      assert (a + b)[..|a + b| - 1] == a + b[..|b| - 1];
    }
  }

  lemma {:induction false} BodyOfAll(ps: seq<Piece>)
    requires forall k :: 0 <= k < |ps| ==> ps[k] != Header && ps[k] != StartChunk
    ensures Body(ps) == ps
  {
    if ps != [] {
      BodyOfAll(ps[..|ps| - 1]);
      assert ps == ps[..|ps| - 1] + [ps[|ps| - 1]];
    }
  }

  /** The text that turn `i` outputs. */
  function TextAt(t: seq<nat>, i: nat): seq<Piece>
    requires i < Steps(t)
  {
    if i == |t| then Texts(Breaks(BreakCount(t, i)))
    else if IsBreak(t[i]) then []
    else Texts(Breaks(BreakCount(t, i))) + Texts(Escape(t[i]))
  }

  /** The text from turn `i` on with the marks put in where they belong. */
  function Weave(t: seq<nat>, log: seq<Placed>, i: nat): seq<Piece>
    requires i <= Steps(t)
    decreases Steps(t) - i
  {
    if i == Steps(t) then []
    else if log != [] && log[0].at == Bpos(t, i) then [log[0].mark] + TextAt(t, i) + Weave(t, log[1..], i + 1)
    else TextAt(t, i) + Weave(t, log, i + 1)
  }

  /** `body` is what has been output so far, and with the rest it makes `whole`. */
  ghost predicate Makes(t: seq<nat>, rs: seq<Region>, p: Pen, i: nat, whole: seq<Piece>)
    requires p.k <= |rs| && i <= Steps(t)
  {
    forall eye :: Look(eye) ==> whole == Body(Out(p)) + Weave(t, Log(t, rs, p.k, i), i)
  }

  lemma MakesIs(t: seq<nat>, rs: seq<Region>, p: Pen, i: nat, whole: seq<Piece>)
    requires p.k <= |rs| && i <= Steps(t)
    ensures Makes(t, rs, p, i, whole) <==> whole == Body(Out(p)) + Weave(t, Log(t, rs, p.k, i), i)
  {
    if Makes(t, rs, p, i, whole) {
      assert Look(Eye);
    }
  }

  lemma BodyMark(rs: seq<Region>, b: nat, p: Pen)
    requires p.k <= |rs|
    ensures Body(Out(Mark(rs, b, p))) == Body(Out(p)) + MarkAt(rs, p.k, b)
  {
    OutMark(rs, b, p);
    BodyJoin(Out(p), MarkAt(rs, p.k, b));
    BodyOfAll(MarkAt(rs, p.k, b));
  }

  lemma BodyText(p: seq<Piece>, s: seq<nat>)
    ensures Body(p + Texts(s)) == Body(p) + Texts(s)
  {
    BodyJoin(p, Texts(s));
    BodyOfAll(Texts(s));
  }

  lemma BodyFlush(style: Style, size: nat, p: Pen)
    ensures Body(Out(Flush(style, size, p))) == Body(Out(p)) + Texts(Breaks(p.eol))
  {
    OutFlush(style, size, p);
    var text := Out(p) + Texts(Breaks(p.eol));
    BodyText(Out(p), Breaks(p.eol));
    BodyJoin(text, [StartChunk]);
    assert [StartChunk][..0] == [];
    assert Body([StartChunk]) == [];
    assert Body(text) + [] == Body(text);
  }

  lemma BodyWrite(style: Style, size: nat, c: nat, p: Pen)
    ensures Body(Out(Write(style, size, c, p))) ==
            if IsBreak(c) then Body(Out(p)) else Body(Out(p)) + Texts(Breaks(p.eol)) + Texts(Escape(c))
  {
    OutWrite(style, size, c, p);
    BodyFlush(style, size, p);
    BodyText(Out(Flush(style, size, p)), Escape(c));
  }

  lemma {:induction false} BodyTurn(t: seq<nat>, rs: seq<Region>, style: Style, size: nat, i: nat, p: Pen, w: Pen)
    requires i < Steps(t) && p.k <= |rs| && Turns(t, rs, style, size, i, p, w) && Pends(t, i, p)
    ensures Body(Out(w)) == Body(Out(p)) + MarkAt(rs, p.k, Bpos(t, i)) + TextAt(t, i)
    ensures w.k == NextRegion(rs, p.k, Bpos(t, i))
  {
    TurnsIs(t, rs, style, size, i, p, w);
    var m := Mark(rs, Bpos(t, i), p);
    BodyMark(rs, Bpos(t, i), p);
    PendsIs(t, i, p);
    MarkKeepsBreaks(rs, Bpos(t, i), p);
    if i == |t| {
      BodyFlush(style, size, m);
    } else {
      BodyChar(t, style, size, i, m, w);
    }
  }

  lemma {:induction false} BodyChar(t: seq<nat>, style: Style, size: nat, i: nat, m: Pen, w: Pen)
    requires i < |t| && w == Write(style, size, t[i], m) && m.eol == BreakCount(t, i)
    ensures Body(Out(w)) == Body(Out(m)) + TextAt(t, i) && w.k == m.k
  {
    BodyWrite(style, size, t[i], m);
    WriteKeepsRegion(style, size, t[i], m);
    TextSum(Body(Out(m)), Breaks(m.eol), Escape(t[i]));
  }

  lemma TextSum(a: seq<Piece>, b: seq<nat>, c: seq<nat>)
    ensures a + (Texts(b) + Texts(c)) == a + Texts(b) + Texts(c)
  {
  }

  lemma WriteKeepsRegion(style: Style, size: nat, c: nat, p: Pen)
    ensures Write(style, size, c, p).k == p.k
  {
  }

  /** The log from a turn on, woven in, is the turn's mark and text and then the rest. */
  lemma WeaveTurn(t: seq<nat>, rs: seq<Region>, k: nat, i: nat)
    requires i < Steps(t) && k <= |rs|
    ensures var b := Bpos(t, i);
            Weave(t, Log(t, rs, k, i), i) ==
            MarkAt(rs, k, b) + TextAt(t, i) + Weave(t, Log(t, rs, NextRegion(rs, k, b), i + 1), i + 1)
  {
    var b := Bpos(t, i);
    var rest := Log(t, rs, NextRegion(rs, k, b), i + 1);
    LogRises(t, rs, NextRegion(rs, k, b), i + 1);
    RisingMore(t, rest, i);
    var m := MarkAt(rs, k, b);
    if m == [] {
      assert [] + TextAt(t, i) == TextAt(t, i);
    } else {
      assert m == [m[0]];
      assert ([Placed(m[0], b)] + rest)[1..] == rest;
    }
  }

  lemma MakesTurn(t: seq<nat>, rs: seq<Region>, style: Style, size: nat, i: nat, next: nat, p: Pen, w: Pen,
                  whole: seq<Piece>)
    requires i + 1 == next <= Steps(t) && p.k <= |rs| && w.k <= |rs|
    requires Turns(t, rs, style, size, i, p, w) && Pends(t, i, p) && Makes(t, rs, p, i, whole)
    ensures Makes(t, rs, w, next, whole)
  {
    MakesIs(t, rs, p, i, whole);
    BodyTurn(t, rs, style, size, i, p, w);
    WeaveTurn(t, rs, p.k, i);
    var rest := Weave(t, Log(t, rs, w.k, i + 1), i + 1);
    SeqJoin(Body(Out(p)), MarkAt(rs, p.k, Bpos(t, i)), TextAt(t, i), rest);
    MakesIs(t, rs, w, next, whole);
  }

  lemma SeqJoin(a: seq<Piece>, b: seq<Piece>, c: seq<Piece>, d: seq<Piece>)
    ensures a + (b + c + d) == a + b + c + d
  {
  }

  lemma MakesStart(t: seq<nat>, rs: seq<Region>, p: Pen, whole: seq<Piece>)
    requires p.k == 0 && Out(p) == [Header] && whole == Weave(t, Log(t, rs, 0, 0), 0)
    ensures Makes(t, rs, p, 0, whole)
  {
    assert [Header][..0] == [];
    assert Body([Header]) == [] && [] + whole == whole;
    MakesIs(t, rs, p, 0, whole);
  }

  lemma {:induction false} MakesAll(t: seq<nat>, rs: seq<Region>, style: Style, size: nat, i: nat, p: Pen, whole: seq<Piece>)
    requires Reaches(t, rs, style, size, i, p) && whole == Weave(t, Log(t, rs, 0, 0), 0)
    requires i <= Steps(t) && p.k <= |rs|
    ensures Makes(t, rs, p, i, whole)
    decreases i
  {
    if i == 0 {
      ReachesStart(t, rs, style, size, p);
      MakesStart(t, rs, p, whole);
    } else {
      var q, j := ReachesBack(t, rs, style, size, i, p);
      MakesAll(t, rs, style, size, j, q, whole);
      PendingBreaks(t, rs, style, size, j, q);
      MakesTurn(t, rs, style, size, j, i, q, p, whole);
    }
  }

  /** Whatever the regions and the size of chunks, the chunks together are the text with the marks of the
      log in it, each where it belongs. */
  lemma OutputIsWoven(t: seq<nat>, rs: seq<Region>, style: Style, size: nat)
    ensures var out := Chunks(After(t, rs, style, size, Steps(t)));
            Body(Flat(out)) == Weave(t, Log(t, rs, 0, 0), 0)
  {
    var p := After(t, rs, style, size, Steps(t));
    var whole := Weave(t, Log(t, rs, 0, 0), 0);
    ReachesEnd(t, rs, style, size, Steps(t));
    MakesAll(t, rs, style, size, Steps(t), p, whole);
    MakesIs(t, rs, p, Steps(t), whole);
    ChunksAre(p);
    assert Body(Out(p)) + [] == Body(Out(p));
  }

  /** When the greedy choice can be marked, the output is the text with just the marks of that choice. */
  lemma GreedyIsMarked(t: seq<nat>, rs: seq<Region>, style: Style, size: nat)
    requires Markable(t, Greedy(rs, 0))
    ensures var out := Chunks(After(t, rs, style, size, Steps(t)));
            Body(Flat(out)) == Weave(t, Expected(Greedy(rs, 0)), 0)
  {
    OutputIsWoven(t, rs, style, size);
    MarkedIffMarkable(t, rs);
  }

  // Marks and chunks.

  /** Follow the marks from a state inside or outside a marked region: None if they do not alternate. */
  function Follow(ps: seq<Piece>, inside: bool): Track {
    if ps == [] then On(inside)
    else
      match Follow(ps[..|ps| - 1], inside)
      case Lost => Lost
      case On(now) =>
        var p := ps[|ps| - 1];
        if p.StartMatch? then (if now then Lost else On(true))
        else if p == EndMatch then (if now then On(false) else Lost)
        else On(now)
  }

  datatype Track = Lost | On(inside: bool)

  lemma {:induction false} FollowText(ps: seq<Piece>, more: seq<Piece>, inside: bool)
    requires forall k :: 0 <= k < |more| ==> !more[k].StartMatch? && more[k] != EndMatch
    ensures Follow(ps + more, inside) == Follow(ps, inside)
    decreases |more|
  {
    if more == [] {
      assert ps + more == ps;
    } else {
      FollowText(ps, more[..|more| - 1], inside);
      assert (ps + more)[..|ps + more| - 1] == ps + more[..|more| - 1];
    }
  }

  /** Every finished chunk has marks that alternate and that are closed, and so far the last chunk too. */
  ghost predicate Tidy(p: Pen) {
    (forall c :: 0 <= c < |p.done| ==> Follow(p.done[c], false) == On(false)) && Follow(p.chunk, false) == On(p.inside)
  }

  lemma TidyMark(rs: seq<Region>, b: nat, p: Pen)
    requires p.k <= |rs| && Tidy(p)
    requires Starts(rs, p.k, b) ==> !p.inside
    requires Ends(rs, p.k, b) ==> p.inside && b > 0
    ensures Tidy(Mark(rs, b, p))
  {
    var m := MarkAt(rs, p.k, b);
    if m == [] {
      assert p.chunk + m == p.chunk;
    } else {
      assert (p.chunk + m)[..|p.chunk|] == p.chunk;
    }
  }

  lemma TidyFlush(style: Style, size: nat, p: Pen)
    requires Tidy(p)
    ensures var f := Flush(style, size, p); Tidy(f) && f.inside == p.inside && f.k == p.k
  {
    FollowText(p.chunk, Texts(Breaks(p.eol)), false);
    assert [StartChunk][..0] == [];
    assert Follow([StartChunk], false) == On(false);
  }

  lemma TidyWrite(style: Style, size: nat, c: nat, p: Pen)
    requires Tidy(p)
    ensures Tidy(Write(style, size, c, p)) && Write(style, size, c, p).inside == p.inside
  {
    if !IsBreak(c) {
      var f := Flush(style, size, p);
      TidyFlush(style, size, p);
      FollowText(f.chunk, Texts(Escape(c)), false);
    }
  }

  /** Before every turn: outside with the regions to come, or inside the region that the state names. */
  lemma {:induction false} StaysTidy(t: seq<nat>, rs: seq<Region>, style: Style, size: nat, i: nat, p: Pen)
    requires i <= Steps(t) && p.k <= |rs| && Markable(t, Greedy(rs, 0)) && Reaches(t, rs, style, size, i, p)
    ensures Tidy(p) && if p.inside then Within(t, rs, p.k, i) else Coming(t, rs, p.k, i)
    decreases i
  {
    if i == 0 {
      ReachesStart(t, rs, style, size, p);
      assert [Header][..0] == [];
      assert Follow([Header], false) == On(false);
    } else {
      var q, j := ReachesBack(t, rs, style, size, i, p);
      StaysTidy(t, rs, style, size, j, q);
      TidyTurn(t, rs, style, size, j, q, p);
    }
  }

  lemma TidyTurn(t: seq<nat>, rs: seq<Region>, style: Style, size: nat, i: nat, p: Pen, w: Pen)
    requires i < Steps(t) && p.k <= |rs| && w.k <= |rs| && Tidy(p) && Turns(t, rs, style, size, i, p, w)
    requires if p.inside then Within(t, rs, p.k, i) else Coming(t, rs, p.k, i)
    ensures Tidy(w) && if w.inside then Within(t, rs, w.k, i + 1) else Coming(t, rs, w.k, i + 1)
  {
    TurnsIs(t, rs, style, size, i, p, w);
    var m := Mark(rs, Bpos(t, i), p);
    if p.inside {
      WithinTurn(t, rs, p.k, i);
    } else {
      ComingTurn(t, rs, p.k, i);
    }
    TidyMark(rs, Bpos(t, i), p);
    if i < |t| {
      TidyWrite(style, size, t[i], m);
      WriteKeepsRegion(style, size, t[i], m);
    } else {
      TidyFlush(style, size, m);
    }
  }

  /** In every chunk the marks alternate, beginning and ending a region: no chunk cuts a marked one. */
  lemma ChunksAlternate(t: seq<nat>, rs: seq<Region>, style: Style, size: nat)
    requires Markable(t, Greedy(rs, 0))
    ensures var out := Chunks(After(t, rs, style, size, Steps(t)));
            forall c :: 0 <= c < |out| ==> Follow(out[c], false) == On(false)
  {
    var p := After(t, rs, style, size, Steps(t));
    ReachesEnd(t, rs, style, size, Steps(t));
    StaysTidy(t, rs, style, size, Steps(t), p);
  }

  /** The highlighter as a whole, for any text, regions and chunk size. */
  method Highlighted(t: seq<nat>, regions: seq<Region>, style: Style, size: nat)
    returns (out: seq<seq<Piece>>, found: bool, ghost rs: seq<Region>)
    ensures InOrder(rs) && multiset(rs) == multiset(regions) && (found <==> regions != [])
    ensures Unescape(TextOf(Flat(out))) == Normal(t)
    ensures out != [] && Small(style, size, out[|out| - 1], |out[|out| - 1]| + 1)
    ensures forall c :: 0 <= c < |out| - 1 ==> Full(style, size, out[c])
    ensures forall c: nat :: c < |out| ==> Headed(out[c], c)
    ensures Markable(t, Greedy(rs, 0)) ==>
              && Body(Flat(out)) == Weave(t, Expected(Greedy(rs, 0)), 0)
              && forall c :: 0 <= c < |out| ==> Follow(out[c], false) == On(false)
  {
    var p := new PlainToRich(style);
    rs, out, found := p.Rich(t, regions, size);
    TextComesBack(t, rs, style, size);
    ChunksSized(t, rs, style, size);
    ChunksHeaded(t, rs, style, size);
    if Markable(t, Greedy(rs, 0)) {
      GreedyIsMarked(t, rs, style, size);
      ChunksAlternate(t, rs, style, size);
    }
  }
}
