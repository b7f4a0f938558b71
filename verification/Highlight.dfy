/** The highlighter on plain text: marks around the matched regions, escaping, line breaks, and the
    output cut into chunks. */
module Highlight {
  import opened Closed
  import opened LongestFirst
  import opened SplitText

  /** A matched region, in bytes, with the search group it comes from. */
  type Region = Entry<nat>

  /** What is output: marks around a match, the headers of the document and of a chunk, and text. */
  datatype Piece = StartMatch(grp: nat) | EndMatch | Header | StartChunk | Text(c: nat)

  /** Sizes of the strings that the user of the highlighter supplies. */
  datatype Style = Style(startMatch: nat -> nat, endMatch: nat, header: nat, startChunk: nat)

  /** Where the loop over the characters is: the region to come next, whether inside a marked one, the
      line breaks seen, and the chunks. */
  datatype Pen = Pen(k: nat, inside: bool, eol: nat, hadcr: bool, done: seq<seq<Piece>>, chunk: seq<Piece>)

  const LF: nat := 10
  const CR: nat := 13

  predicate IsBreak(c: nat) {
    c == LF || c == CR
  }

  function Texts(s: seq<nat>): (r: seq<Piece>)
    ensures |r| == |s|
  {
    seq(|s|, k requires 0 <= k < |s| => Text(s[k]))
  }

  function Codes(s: string): seq<nat> {
    seq(|s|, k requires 0 <= k < |s| => s[k] as nat)
  }

  /** A character as it goes to the output. */
  function Escape(c: nat): seq<nat> {
    if c == '<' as nat then Codes("&lt;") else if c == '&' as nat then Codes("&amp;") else [c]
  }

  function PieceSize(style: Style, p: Piece): nat {
    match p
    case StartMatch(g) => style.startMatch(g)
    case EndMatch => style.endMatch
    case Header => style.header
    case StartChunk => style.startChunk
    case Text(c) => Width(c)
  }

  function Size(style: Style, chunk: seq<Piece>): nat {
    if chunk == [] then 0 else Size(style, chunk[..|chunk| - 1]) + PieceSize(style, chunk[|chunk| - 1])
  }

  /** The first region from `k` on that does not begin before `end`. */
  function SkipTo(rs: seq<Region>, k: nat, end: nat): (r: nat)
    requires k <= |rs|
    ensures k <= r <= |rs| && (r < |rs| ==> rs[r].start >= end)
    decreases |rs| - k
  {
    if k < |rs| && rs[k].start < end then SkipTo(rs, k + 1, end) else k
  }

  predicate Starts(rs: seq<Region>, k: nat, b: nat) {
    k < |rs| && b == rs[k].start
  }

  predicate Ends(rs: seq<Region>, k: nat, b: nat) {
    k < |rs| && b != rs[k].start && b == rs[k].end
  }

  /** The mark at byte `b`, region `k` being the next. */
  function MarkAt(rs: seq<Region>, k: nat, b: nat): seq<Piece> {
    if Starts(rs, k, b) then [StartMatch(rs[k].what)] else if Ends(rs, k, b) && b > 0 then [EndMatch] else []
  }

  /** The region to come after byte `b`. */
  function NextRegion(rs: seq<Region>, k: nat, b: nat): (r: nat)
    requires k <= |rs|
    ensures k <= r <= |rs|
  {
    if Ends(rs, k, b) then SkipTo(rs, k, rs[k].end) else k
  }

  predicate Inside(rs: seq<Region>, k: nat, b: nat, inside: bool) {
    if Starts(rs, k, b) then true else if Ends(rs, k, b) then false else inside
  }

  /** Marking at byte `b`. */
  function Mark(rs: seq<Region>, b: nat, p: Pen): Pen
    requires p.k <= |rs|
  {
    p.(k := NextRegion(rs, p.k, b), inside := Inside(rs, p.k, b, p.inside), chunk := p.chunk + MarkAt(rs, p.k, b))
  }

  /** Counting a line break. */
  function Break(c: nat, p: Pen): Pen
    requires IsBreak(c)
  {
    if c == LF then p.(eol := if p.hadcr then p.eol else p.eol + 1, hadcr := false)
    else p.(eol := p.eol + 1, hadcr := true)
  }

  /** Line breaks to output for those seen. */
  function Breaks(eol: nat): seq<nat> {
    if eol >= 2 then [LF, LF] else if eol == 1 then [LF] else []
  }

  /** Output of the pending line breaks, which may end a chunk. */
  function Flush(style: Style, size: nat, p: Pen): Pen {
    if p.eol == 0 then p
    else
      var chunk := p.chunk + Texts(Breaks(p.eol));
      if !p.inside && Size(style, chunk) > size
      then p.(eol := 0, hadcr := false, done := p.done + [chunk], chunk := [StartChunk])
      else p.(eol := 0, hadcr := false, chunk := chunk)
  }

  /** One character. */
  function Write(style: Style, size: nat, c: nat, p: Pen): Pen {
    if IsBreak(c) then Break(c, p)
    else var f := Flush(style, size, p); f.(chunk := f.chunk + Texts(Escape(c)))
  }

  /** The loop makes one more turn at the end of the text. */
  function Steps(t: seq<nat>): nat {
    |t| + 1
  }

  /** Turn `i` of the loop. At the end of the text there is no character to output, but the pending line
      breaks are. */
  function TurnOf(t: seq<nat>, rs: seq<Region>, style: Style, size: nat, i: nat, p: Pen): (w: Pen)
    requires i < Steps(t) && p.k <= |rs|
    ensures w.k <= |rs|
  {
    var m := Mark(rs, Bpos(t, i), p);
    if i < |t| then Write(style, size, t[i], m) else Flush(style, size, m)
  }

  /** State after `i` turns of the loop. */
  function After(t: seq<nat>, rs: seq<Region>, style: Style, size: nat, i: nat): (p: Pen)
    requires i <= Steps(t)
    ensures p.k <= |rs|
  {
    if i == 0 then Pen(0, false, 0, false, [], [Header])
    else TurnOf(t, rs, style, size, i - 1, After(t, rs, style, size, i - 1))
  }

  /** `p` is the state after `i` turns. */
  ghost predicate Reaches(t: seq<nat>, rs: seq<Region>, style: Style, size: nat, i: nat, p: Pen) {
    forall eye :: Look(eye) ==> i <= Steps(t) && p == After(t, rs, style, size, i)
  }

  /** Turn `i` leads from `p` to `w`. */
  ghost predicate Turns(t: seq<nat>, rs: seq<Region>, style: Style, size: nat, i: nat, p: Pen, w: Pen) {
    forall eye :: Look(eye) ==>
      p.k <= |rs| && i < Steps(t) && w == TurnOf(t, rs, style, size, i, p)
  }

  lemma TurnsIs(t: seq<nat>, rs: seq<Region>, style: Style, size: nat, i: nat, p: Pen, w: Pen)
    ensures Turns(t, rs, style, size, i, p, w) <==>
            p.k <= |rs| && i < Steps(t)
            && var m := Mark(rs, Bpos(t, i), p);
               w == if i < |t| then Write(style, size, t[i], m) else Flush(style, size, m)
  {
    if Turns(t, rs, style, size, i, p, w) {
      assert Look(Eye);
    }
  }

  lemma ReachesStart(t: seq<nat>, rs: seq<Region>, style: Style, size: nat, p: Pen)
    requires Reaches(t, rs, style, size, 0, p)
    ensures p == Pen(0, false, 0, false, [], [Header])
  {
    assert Look(Eye);
  }

  lemma ReachesEnd(t: seq<nat>, rs: seq<Region>, style: Style, size: nat, i: nat)
    requires i <= Steps(t)
    ensures Reaches(t, rs, style, size, i, After(t, rs, style, size, i))
  {
  }

  lemma AfterTurn(t: seq<nat>, rs: seq<Region>, style: Style, size: nat, i: nat)
    requires i < Steps(t)
    ensures Turns(t, rs, style, size, i, After(t, rs, style, size, i), After(t, rs, style, size, i + 1))
  {
    TurnsIs(t, rs, style, size, i, After(t, rs, style, size, i), After(t, rs, style, size, i + 1));
  }

  lemma ReachesIs(t: seq<nat>, rs: seq<Region>, style: Style, size: nat, i: nat, p: Pen)
    requires Reaches(t, rs, style, size, i, p)
    ensures i <= Steps(t) && p == After(t, rs, style, size, i) && p.k <= |rs|
  {
    assert Look(Eye);
  }

  lemma ReachesBack(t: seq<nat>, rs: seq<Region>, style: Style, size: nat, i: nat, p: Pen) returns (q: Pen, j: nat)
    requires i > 0 && Reaches(t, rs, style, size, i, p)
    ensures j + 1 == i <= Steps(t) && q.k <= |rs| && p.k <= |rs|
    ensures Reaches(t, rs, style, size, j, q) && Turns(t, rs, style, size, j, q, p)
  {
    ReachesIs(t, rs, style, size, i, p);
    j := i - 1;
    q := After(t, rs, style, size, j);
    AfterTurn(t, rs, style, size, j);
    ReachesEnd(t, rs, style, size, j);
  }

  lemma ReachesNext(t: seq<nat>, rs: seq<Region>, style: Style, size: nat, i: nat, next: nat, p: Pen, w: Pen)
    requires next == i + 1 && Reaches(t, rs, style, size, i, p) && Turns(t, rs, style, size, i, p, w)
    ensures Reaches(t, rs, style, size, next, w) && w.k <= |rs|
  {
    ReachesIs(t, rs, style, size, i, p);
    TurnsIs(t, rs, style, size, i, p, w);
    ReachesEnd(t, rs, style, size, next);
  }

  /** All chunks. */
  function Chunks(p: Pen): seq<seq<Piece>> {
    p.done + [p.chunk]
  }

  lemma SameSize(a: seq<Region>, b: seq<Region>)
    requires multiset(a) == multiset(b)
    ensures |a| == |b|
  {
    assert |multiset(a)| == |a| && |multiset(b)| == |b|;
  }

  class PlainToRich {
    const style: Style
    // The chunks of output before the last, the last chunk, and the state of the loop.
    var done: seq<seq<Piece>>
    var chunk: seq<Piece>
    var k: nat
    var inside: bool
    var eol: nat
    var hadcr: bool

    ghost function State(): Pen
      reads this
    {
      Pen(k, inside, eol, hadcr, done, chunk)
    }

    constructor (style: Style)
      ensures this.style == style
    {
      this.style := style;
      done, chunk, k, inside, eol, hadcr := [], [], 0, false, 0, false;
    }

    /** Mark the beginning or the end of a region. */
    method DoMark(rs: seq<Region>, b: nat)
      requires k <= |rs|
      modifies this`chunk, this`k, this`inside
      ensures State() == Mark(rs, b, old(State()))
    {
      ghost var mark := MarkAt(rs, k, b);
      assert mark == [] ==> chunk + mark == chunk;
      if k < |rs| {
        if b == rs[k].start {
          chunk := chunk + [StartMatch(rs[k].what)];
          inside := true;
        } else if b == rs[k].end {
          if b > 0 {
            chunk := chunk + [EndMatch];
          }
          var crend := rs[k].end;
          ghost var k0, marked := k, chunk;
          while k < |rs| && rs[k].start < crend
            invariant chunk == marked && k <= |rs| && SkipTo(rs, k, crend) == SkipTo(rs, k0, crend)
          {
            k := k + 1;
          }
          assert k == SkipTo(rs, k0, crend);
          inside := false;
        }
      }
    }

    /** Output the pending line breaks, and maybe begin a new chunk. */
    method DoBreaks(size: nat)
      modifies this`done, this`chunk, this`eol, this`hadcr
      ensures State() == Flush(style, size, old(State()))
    {
      if eol == 0 {
        return;
      }
      hadcr := false;
      if eol > 2 {
        eol := 2;
      }
      ghost var was, n := chunk, eol;
      assert was + Texts(Breaks(0)) == was;
      while eol > 0
        invariant done == old(done) && !hadcr
        invariant eol <= n <= 2 && chunk == was + Texts(Breaks(n - eol))
      {
        assert Texts(Breaks(n - eol + 1)) == Texts(Breaks(n - eol)) + [Text(LF)];
        chunk := chunk + [Text(LF)];
        eol := eol - 1;
      }
      assert chunk == old(chunk) + Texts(Breaks(old(eol)));
      if !inside && Size(style, chunk) > size {
        done := done + [chunk];
        chunk := [StartChunk];
      }
    }

    /** One character. */
    method DoChar(c: nat, size: nat)
      modifies this`done, this`chunk, this`eol, this`hadcr
      ensures State() == Write(style, size, c, old(State()))
    {
      if c == LF {
        if !hadcr {
          eol := eol + 1;
        }
        hadcr := false;
        return;
      } else if c == CR {
        hadcr := true;
        eol := eol + 1;
        return;
      }
      DoBreaks(size);
      chunk := chunk + Texts(Escape(c));
    }

    /** One turn of the loop. */
    method DoTurn(t: seq<nat>, rs: seq<Region>, size: nat, i: nat)
      requires i < Steps(t) && k <= |rs|
      modifies this`done, this`chunk, this`eol, this`hadcr, this`k, this`inside
      ensures Turns(t, rs, style, size, i, old(State()), State()) && k <= |rs|
    {
      ghost var p := State();
      DoMark(rs, Bpos(t, i));
      if i < |t| {
        DoChar(t[i], size);
      } else {
        DoBreaks(size);
      }
      TurnsIs(t, rs, style, size, i, p, State());
    }

    /** The loop over the characters, from the first one to the end of the text. */
    method Loop(t: seq<nat>, rs: seq<Region>, size: nat)
      requires State() == Pen(0, false, 0, false, [], [Header])
      modifies this
      ensures Reaches(t, rs, style, size, Steps(t), State())
    {
      var i := 0;
      ReachesEnd(t, rs, style, size, 0);
      while i <= |t|
        invariant i <= Steps(t) && k <= |rs|
        invariant Reaches(t, rs, style, size, i, State())
      {
        ghost var j, p := i, State();
        DoTurn(t, rs, size, i);
        i := i + 1;
        ReachesNext(t, rs, style, size, j, i, p, State());
      }
    }

    /** Highlight a text. */
    method Rich(t: seq<nat>, regions: seq<Region>, size: nat)
      returns (ghost rs: seq<Region>, out: seq<seq<Piece>>, found: bool)
      modifies this
      ensures InOrder(rs) && multiset(rs) == multiset(regions)
      ensures out == Chunks(After(t, rs, style, size, Steps(t)))
      ensures found <==> regions != []
    {
      var sorted := Sort(regions);
      rs := sorted;
      SameSize(regions, sorted);
      found := |sorted| > 0;
      done, chunk, k, inside, eol, hadcr := [], [Header], 0, false, 0, false;
      Loop(t, sorted, size);
      ReachesIs(t, sorted, style, size, Steps(t), State());
      out := done + [chunk];
    }
  }
}
