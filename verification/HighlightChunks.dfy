/** Where the output is cut into chunks: after the first line breaks outside a marked region that take the
    chunk over the size asked for, and nowhere else. */
module HighlightChunks {
  import opened Closed
  import opened LongestFirst
  import opened SplitText
  import opened Highlight

  /** After these pieces of a chunk, is a marked region open? */
  predicate Open(ps: seq<Piece>) {
    ps != [] && (ps[|ps| - 1].StartMatch? || (ps[|ps| - 1] != EndMatch && Open(ps[..|ps| - 1])))
  }

  /** The first `m` pieces of the chunk end with line breaks, all that stand there together. */
  predicate EndsBreaks(chunk: seq<Piece>, m: nat)
    requires m <= |chunk|
  {
    m > 0 && chunk[m - 1] == Text(LF) && (m == |chunk| || chunk[m] != Text(LF))
  }

  /** The chunk could be cut after its first `m` pieces. */
  predicate CanCut(chunk: seq<Piece>, m: nat)
    requires m <= |chunk|
  {
    EndsBreaks(chunk, m) && !Open(chunk[..m])
  }

  /** No place before the first `n` pieces where the chunk could be cut is beyond the size. */
  ghost predicate Small(style: Style, size: nat, chunk: seq<Piece>, n: nat) {
    forall m: nat :: m < n && m <= |chunk| && CanCut(chunk, m) ==> Size(style, chunk[..m]) <= size
  }

  /** A chunk that another one follows: it could be cut at its end, which is beyond the size, and at no place
      before that beyond the size. */
  ghost predicate Full(style: Style, size: nat, chunk: seq<Piece>) {
    CanCut(chunk, |chunk|) && Size(style, chunk) > size && Small(style, size, chunk, |chunk|)
  }

  /** The state of the loop: full chunks, and a last one that so far need not be cut. */
  ghost predicate Sized(style: Style, size: nat, p: Pen) {
    && (forall c :: 0 <= c < |p.done| ==> Full(style, size, p.done[c]))
    && Small(style, size, p.chunk, |p.chunk| + 1) && (Open(p.chunk) <==> p.inside)
  }

  lemma {:induction false} OpenMore(a: seq<Piece>, b: seq<Piece>)
    requires forall k :: 0 <= k < |b| ==> !b[k].StartMatch? && b[k] != EndMatch
    ensures Open(a + b) == Open(a)
    decreases |b|
  {
    if b == [] {
      assert a + b == a;
    } else {
      assert (a + b)[..|a + b| - 1] == a + b[..|b| - 1];
      OpenMore(a, b[..|b| - 1]);
    }
  }

  lemma OpenMark(a: seq<Piece>, mark: Piece)
    requires mark.StartMatch? || mark == EndMatch
    ensures Open(a + [mark]) == mark.StartMatch?
  {
    assert (a + [mark])[..|a|] == a;
  }

  /** Pieces that are no line breaks, put at the end, make no new place to cut. */
  lemma SmallMore(style: Style, size: nat, chunk: seq<Piece>, more: seq<Piece>)
    requires Small(style, size, chunk, |chunk| + 1) && forall k :: 0 <= k < |more| ==> more[k] != Text(LF)
    ensures Small(style, size, chunk + more, |chunk + more| + 1)
  {
    var c := chunk + more;
    assert forall k :: |chunk| <= k < |c| ==> c[k] == more[k - |chunk|] && c[k] != Text(LF);
    forall m: nat | m <= |c| && CanCut(c, m) ensures Size(style, c[..m]) <= size {
      assert m <= |chunk| && c[..m] == chunk[..m] && chunk[m - 1] == c[m - 1];
      assert m < |chunk| ==> chunk[m] == c[m];
    }
  }

  /** Line breaks at the end make one new place to cut, the very end. */
  lemma SmallBreaks(style: Style, size: nat, chunk: seq<Piece>, n: nat)
    requires Small(style, size, chunk, |chunk| + 1) && 0 < n <= 2
    ensures var c := chunk + Texts(Breaks(n)); Small(style, size, c, |c|)
    ensures EndsBreaks(chunk + Texts(Breaks(n)), |chunk + Texts(Breaks(n))|)
  {
    var lf := Texts(Breaks(n));
    var c := chunk + lf;
    assert forall k :: |chunk| <= k < |c| ==> c[k] == lf[k - |chunk|] == Text(LF);
    forall m: nat | m < |c| && CanCut(c, m) ensures Size(style, c[..m]) <= size {
      assert m < |chunk| && c[..m] == chunk[..m] && chunk[m - 1] == c[m - 1] && chunk[m] == c[m];
    }
  }

  lemma SizedMark(rs: seq<Region>, b: nat, style: Style, size: nat, p: Pen)
    requires p.k <= |rs| && Sized(style, size, p)
    requires b == 0 ==> !p.inside
    ensures Sized(style, size, Mark(rs, b, p))
  {
    var mark := MarkAt(rs, p.k, b);
    SmallMore(style, size, p.chunk, mark);
    if mark == [] {
      assert p.chunk + mark == p.chunk;
    } else {
      OpenMark(p.chunk, mark[0]);
      assert mark == [mark[0]];
    }
  }

  lemma SizedFlush(style: Style, size: nat, p: Pen)
    requires Sized(style, size, p)
    ensures Sized(style, size, Flush(style, size, p)) && Flush(style, size, p).inside == p.inside
  {
    if p.eol > 0 {
      var n := if p.eol > 2 then 2 else p.eol;
      var c := p.chunk + Texts(Breaks(p.eol));
      assert Breaks(p.eol) == Breaks(n);
      SmallBreaks(style, size, p.chunk, n);
      OpenMore(p.chunk, Texts(Breaks(n)));
      assert c[..|c|] == c;
      assert Open([StartChunk]) == Open([StartChunk][..0]);
      FlushChunks(style, size, p, c);
    }
  }

  lemma FlushChunks(style: Style, size: nat, p: Pen, c: seq<Piece>)
    requires Sized(style, size, p) && p.eol > 0 && c == p.chunk + Texts(Breaks(p.eol)) && !Open([StartChunk])
    requires Small(style, size, c, |c|) && EndsBreaks(c, |c|) && Open(c) == p.inside && c[..|c|] == c
    ensures Sized(style, size, Flush(style, size, p))
  {
    var f := Flush(style, size, p);
    if !p.inside && Size(style, c) > size {
      assert Full(style, size, c);
      assert forall k :: 0 <= k < |f.done| ==> f.done[k] == if k < |p.done| then p.done[k] else c;
      assert [StartChunk][0] != Text(LF);
    } else {
      assert f.chunk == c;
    }
  }

  lemma SizedWrite(style: Style, size: nat, c: nat, p: Pen)
    requires Sized(style, size, p)
    ensures Sized(style, size, Write(style, size, c, p)) && Write(style, size, c, p).inside == p.inside
  {
    if !IsBreak(c) {
      var f := Flush(style, size, p);
      SizedFlush(style, size, p);
      EscapeNoBreak(c);
      SmallMore(style, size, f.chunk, Texts(Escape(c)));
      OpenMore(f.chunk, Texts(Escape(c)));
    }
  }

  lemma EscapeNoBreak(c: nat)
    requires !IsBreak(c)
    ensures forall k :: 0 <= k < |Escape(c)| ==> Escape(c)[k] != LF
  {
  }

  /** Before the first byte nothing is marked. */
  lemma {:induction false} BposZero(t: seq<nat>, i: nat)
    requires 0 < i <= |t|
    ensures Bpos(t, i) > 0
  {
  }

  lemma {:induction false} StaysSized(t: seq<nat>, rs: seq<Region>, style: Style, size: nat, i: nat, p: Pen)
    requires i <= Steps(t) && p.k <= |rs| && Reaches(t, rs, style, size, i, p)
    ensures Sized(style, size, p) && (i == 0 ==> !p.inside)
    decreases i
  {
    if i == 0 {
      ReachesStart(t, rs, style, size, p);
      assert [Header][..0] == [] && !Open([Header][..0]);
      assert !Open([Header]) && [Header][0] != Text(LF);
    } else {
      var q, j := ReachesBack(t, rs, style, size, i, p);
      StaysSized(t, rs, style, size, j, q);
      SizedTurn(t, rs, style, size, j, q, p);
    }
  }

  lemma SizedTurn(t: seq<nat>, rs: seq<Region>, style: Style, size: nat, i: nat, p: Pen, w: Pen)
    requires i < Steps(t) && p.k <= |rs| && w.k <= |rs| && Sized(style, size, p) && (i == 0 ==> !p.inside)
    requires Turns(t, rs, style, size, i, p, w)
    ensures Sized(style, size, w)
  {
    TurnsIs(t, rs, style, size, i, p, w);
    if i > 0 {
      BposZero(t, i);
    }
    SizedMark(rs, Bpos(t, i), style, size, p);
    var m := Mark(rs, Bpos(t, i), p);
    if i < |t| {
      SizedWrite(style, size, t[i], m);
    } else {
      SizedFlush(style, size, m);
    }
  }

  /** For any text, regions and size: every chunk but the last is beyond the size and ends with line breaks
      outside a marked region, and no chunk has such a place further up that is beyond the size, nor has the
      last one at its end. */
  lemma ChunksSized(t: seq<nat>, rs: seq<Region>, style: Style, size: nat)
    ensures var out := Chunks(After(t, rs, style, size, Steps(t)));
            && (forall c :: 0 <= c < |out| - 1 ==> Full(style, size, out[c]))
            && Small(style, size, out[|out| - 1], |out[|out| - 1]| + 1)
  {
    var p := After(t, rs, style, size, Steps(t));
    ReachesEnd(t, rs, style, size, Steps(t));
    StaysSized(t, rs, style, size, Steps(t), p);
  }

  // What chunks begin with.

  predicate IsHeading(p: Piece) {
    p == Header || p == StartChunk
  }

  /** The first chunk begins with the header of the document, the others with that of a chunk, and there is
      no other one in them. */
  ghost predicate Headed(chunk: seq<Piece>, c: nat) {
    && chunk != [] && chunk[0] == (if c == 0 then Header else StartChunk)
    && forall k :: 0 < k < |chunk| ==> !IsHeading(chunk[k])
  }

  ghost predicate AllHeaded(p: Pen) {
    (forall c: nat :: c < |p.done| ==> Headed(p.done[c], c)) && Headed(p.chunk, |p.done|)
  }

  lemma HeadedMore(chunk: seq<Piece>, c: nat, more: seq<Piece>)
    requires Headed(chunk, c) && forall k :: 0 <= k < |more| ==> !IsHeading(more[k])
    ensures Headed(chunk + more, c)
  {
  }

  lemma HeadedFlush(style: Style, size: nat, p: Pen)
    requires AllHeaded(p)
    ensures AllHeaded(Flush(style, size, p))
  {
    var f := Flush(style, size, p);
    HeadedMore(p.chunk, |p.done|, Texts(Breaks(p.eol)));
    assert forall c :: 0 <= c < |f.done| && c < |p.done| ==> f.done[c] == p.done[c];
  }

  lemma {:induction false} StaysHeaded(t: seq<nat>, rs: seq<Region>, style: Style, size: nat, i: nat, p: Pen)
    requires i <= Steps(t) && p.k <= |rs| && Reaches(t, rs, style, size, i, p)
    ensures AllHeaded(p)
    decreases i
  {
    if i == 0 {
      ReachesStart(t, rs, style, size, p);
    } else {
      var q, j := ReachesBack(t, rs, style, size, i, p);
      StaysHeaded(t, rs, style, size, j, q);
      TurnsIs(t, rs, style, size, j, q, p);
      var m := Mark(rs, Bpos(t, j), q);
      HeadedMore(q.chunk, |q.done|, MarkAt(rs, q.k, Bpos(t, j)));
      HeadedFlush(style, size, m);
      if j < |t| && !IsBreak(t[j]) {
        var f := Flush(style, size, m);
        HeadedMore(f.chunk, |f.done|, Texts(Escape(t[j])));
      }
    }
  }

  lemma ChunksHeaded(t: seq<nat>, rs: seq<Region>, style: Style, size: nat)
    ensures var out := Chunks(After(t, rs, style, size, Steps(t)));
            forall c: nat :: c < |out| ==> Headed(out[c], c)
  {
    var p := After(t, rs, style, size, Steps(t));
    ReachesEnd(t, rs, style, size, Steps(t));
    StaysHeaded(t, rs, style, size, Steps(t), p);
  }

  /** The size of a chunk is that of its pieces together. */
  lemma {:induction false} SizeJoin(style: Style, a: seq<Piece>, b: seq<Piece>)
    ensures Size(style, a + b) == Size(style, a) + Size(style, b)
    decreases |b|
  {
    if b == [] {
      assert a + b == a;
    } else {
      assert (a + b)[..|a + b| - 1] == a + b[..|b| - 1];
      SizeJoin(style, a, b[..|b| - 1]);
    }
  }
}
