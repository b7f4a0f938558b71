/** The MIME parser over its character source, character by character as the source does it, proved
    to stop where MimeSpec says and to record what MimeSpec says. */
module MimeParser {
  import opened Closed
  import opened InputSource
  import opened Common
  import opened Matcher
  import opened HeaderText
  import opened MimeSpec

  /** A line that turns out to be no header is given back in full. */
  method RewindLine(ms: MimeInputSource, name: string)
    requires ms.Ready() && |name| < ms.offset && ms.high <= ms.offset - |name| - 1 + WINDOW
    modifies ms`head, ms`offset
    ensures ms.Ready() && ms.offset == old(ms.offset) - |name| - 1
  {
    ms.UngetChars(|name| + 1);
  }

  /** The header name, up to a colon. `rewound` when a CR came first. */
  method ReadName(ms: MimeInputSource) returns (name: string, rewound: bool)
    requires ms.Ready() && RewindFits(ms.Text(), ms.offset)
    modifies ms, ms.data
    ensures ms.Ready()
    ensures var t, p := ms.Text(), old(ms.offset);
            var k := NameEnd(t, p);
            && (rewound <==> k < |t| && t[k] == '\r')
            && (rewound ==> ms.offset == p)
            && (!rewound ==> name == t[p..k] && ms.offset == if k < |t| then k + 1 else |t|)
  {
    ghost var t, p := ms.Text(), ms.offset;
    name, rewound := "", false;
    while true
      invariant ms.Ready() && p <= ms.offset && name == t[p..ms.offset]
      invariant NameEnd(t, p) == NameEnd(t, ms.offset)
      invariant ms.high <= p + WINDOW || ms.high <= ms.offset
      decreases |t| - ms.offset
    {
      var ok, c := ms.Next();
      if !ok {
        return;
      }
      if c == '\r' {
        RewindLine(ms, name);
        return name, true;
      }
      if c == ':' {
        return;
      }
      name := name + [c];
    }
  }

  /** Shift a character into the four-character queue and look for an empty line. */
  method PushFour(cqueue: array<char>, c: char) returns (emptyLine: bool)
    requires cqueue.Length == 4
    modifies cqueue
    ensures cqueue[..] == old(cqueue[1..]) + [c]
    ensures emptyLine <==> cqueue[..] == "\r\n\r\n"
  {
    for i := 0 to 3
      invariant forall k :: 0 <= k < i ==> cqueue[k] == old(cqueue[k + 1])
      invariant forall k :: i <= k < 4 ==> cqueue[k] == old(cqueue[k])
    {
      cqueue[i] := cqueue[i + 1];
    }
    cqueue[3] := c;
    emptyLine := cqueue[..] == "\r\n\r\n";
  }

  /** The queue ends in the last two characters of the value so far. */
  ghost predicate LastTwo(queue: seq<char>, t: string, q: nat, cur: nat)
    requires q <= cur <= |t|
  {
    |queue| == 4 && queue[3] == Past(t, q, cur, 1) && queue[2] == Past(t, q, cur, 2)
  }

  /** An empty line cannot come up: the line before it would have ended the value. */
  lemma NoEmptyLine(queue: seq<char>, t: string, q: nat, i: nat)
    requires q <= i < |t| && LastTwo(queue, t, q, i)
    requires InValue(t, q, i)
    ensures queue[1..] + [t[i]] != "\r\n\r\n"
    ensures (queue[3] == '\n' && t[i] != ' ' && t[i] != '\t') <==> (q < i && ValueEndsAt(t, i))
  {
    if queue[1..] + [t[i]] == "\r\n\r\n" {
      assert (queue[1..] + [t[i]])[1] == '\n' && (queue[1..] + [t[i]])[2] == '\r';
      assert ValueEndsAt(t, i - 1);
    }
  }

  /** The header value, up to the start of a line that does not continue it. `stop` is the character
      that begins that line, none at the end of the text. The four-character queue is the source's own
      test for an empty line; the test of the previous character always fires before it. */
  method ReadValue(ms: MimeInputSource) returns (content: string, stop: Option<char>)
    requires ms.Ready()
    modifies ms, ms.data
    ensures ms.Ready()
    ensures var t, q := ms.Text(), old(ms.offset);
            var i := if q == |t| then q else ValueEnd(t, q + 1);
            && content == t[q..i]
            && (i == |t| ==> stop == None && ms.offset == i)
            && (i < |t| ==> stop == Some(t[i]) && ms.offset == i + 1)
            && (ms.high <= q + WINDOW || ms.high <= ms.offset)
  {
    ghost var t, q := ms.Text(), ms.offset;
    content, stop := "", None;
    var cqueue := new char[4](_ => '\0');
    while true
      invariant ms.Ready() && q <= ms.offset && content == t[q..ms.offset]
      invariant InValue(t, q, ms.offset)
      invariant LastTwo(cqueue[..], t, q, ms.offset)
      invariant ms.high <= q + WINDOW || ms.high <= ms.offset
      decreases |t| - ms.offset
    {
      ghost var i := ms.offset;
      var ok, c := ms.Next();
      if !ok {
        InValueEnds(t, q, i);
        return;
      }
      ghost var before := cqueue[..];
      var emptyLine := PushFour(cqueue, c);
      NoEmptyLine(before, t, q, i);
      if emptyLine {
        assert false;
      } else if cqueue[2] == '\n' && c != ' ' && c != '\t' {
        assert cqueue[2] == before[3];
        InValueEnds(t, q, i);
        return content, Some(c);
      }
      assert before[3] == cqueue[2];
      InValueStep(t, q, i, ms.offset);
      content := content + [c];
    }
  }

  /** The value that begins at `q` has not ended before `i`. */
  ghost predicate InValue(t: string, q: nat, i: nat)
    requires q <= i <= |t|
  {
    forall j :: q < j < i ==> !ValueEndsAt(t, j)
  }

  lemma InValueStep(t: string, q: nat, i: nat, next: nat)
    requires q <= i < next == i + 1 <= |t| && InValue(t, q, i) && (i == q || !ValueEndsAt(t, i))
    ensures InValue(t, q, next)
  {
  }

  lemma InValueEnds(t: string, q: nat, i: nat)
    requires q <= i <= |t| && InValue(t, q, i) && (i == |t| || (q < i && ValueEndsAt(t, i)))
    ensures i == if q == |t| then q else ValueEnd(t, q + 1)
  {
  }

  /** The header line at `p` reads as `line`. */
  ghost predicate ReadsAs(t: string, p: nat, line: Line)
    requires p <= |t|
  {
    forall eye :: Look(eye) ==> HeaderLine(t, p) == line
  }

  lemma ReadsAsIs(t: string, p: nat, line: Line)
    requires p <= |t|
    ensures ReadsAs(t, p, line) <==> HeaderLine(t, p) == line
  {
    if ReadsAs(t, p, line) {
      assert Look(Eye);
    }
  }

  lemma NoField(t: string, p: nat, k: nat)
    requires p <= k < |t| && k == NameEnd(t, p) && t[k] == '\r'
    ensures ReadsAs(t, p, Line([], p, false))
  {
    ReadsAsIs(t, p, Line([], p, false));
  }

  /** The text ends with the name, or with the value that begins at `q`. */
  lemma LastField(t: string, p: nat, k: nat, q: nat, name: string, value: string)
    requires p <= k <= |t| && k == NameEnd(t, p) && (k < |t| ==> t[k] == ':') && name == t[p..k]
    requires q == if k < |t| then k + 1 else |t|
    requires (if q == |t| then q else ValueEnd(t, q + 1)) == |t| && value == DropEol(t[q..|t|])
    ensures ReadsAs(t, p, Line(if name == "" then [] else [Item(name, value)], |t|, false))
  {
    if q == |t| {
      assert t[q..|t|] == "";
    }
    ReadsAsIs(t, p, Line(if name == "" then [] else [Item(name, value)], |t|, false));
  }

  /** The value that begins at `q` ends at `i`, before another line. */
  lemma OneField(t: string, p: nat, k: nat, q: nat, i: nat, name: string, value: string)
    requires p <= k < |t| && k == NameEnd(t, p) && t[k] == ':' && name == t[p..k] && q == k + 1 < |t|
    requires i == ValueEnd(t, q + 1) < |t| && value == Trim(DropEol(t[q..i]), BLANKS)
    ensures ReadsAs(t, p, if t[i] == '\r' then Line([Item(name, value)], if i + 2 <= |t| then i + 2 else |t|, false)
                          else Line([Item(name, value)], i, true))
  {
    ReadsAsIs(t, p, if t[i] == '\r' then Line([Item(name, value)], if i + 2 <= |t| then i + 2 else |t|, false)
                    else Line([Item(name, value)], i, true));
  }

  /** One header line. Returns the field to add, if any, and whether more lines follow. */
  method ParseOneHeaderLine(ms: MimeInputSource) returns (added: seq<Item>, more: bool)
    requires ms.Ready() && RewindFits(ms.Text(), ms.offset)
    modifies ms, ms.data
    ensures ms.Ready()
    ensures Line(added, ms.offset, more) == HeaderLine(ms.Text(), old(ms.offset))
  {
    ghost var t, p := ms.Text(), ms.offset;
    added, more := ReadField(ms);
    ReadsAsIs(t, p, Line(added, ms.offset, more));
  }

  /** After a value and the first character of the next line: a CR ends the header, and the character
      after it is taken too; anything else is given back. */
  method AfterField(ms: MimeInputSource, c: char) returns (more: bool)
    requires ms.Ready() && ms.offset > 0 && ms.high <= ms.offset - 1 + WINDOW
    modifies ms, ms.data
    ensures ms.Ready() && more == (c != '\r')
    ensures ms.offset == if more then old(ms.offset) - 1
                         else if old(ms.offset) < |ms.Text()| then old(ms.offset) + 1 else old(ms.offset)
  {
    if c != '\r' {
      ms.UngetChars(1);
      return true;
    }
    var _, _ := ms.Next();
    more := false;
  }

  /** The same, as the relation. */
  method ReadField(ms: MimeInputSource) returns (added: seq<Item>, more: bool)
    requires ms.Ready() && RewindFits(ms.Text(), ms.offset)
    modifies ms, ms.data
    ensures ms.Ready() && ReadsAs(ms.Text(), old(ms.offset), Line(added, ms.offset, more))
  {
    ghost var t, p := ms.Text(), ms.offset;
    ghost var k := NameEnd(t, p);
    var name, rewound := ReadName(ms);
    if rewound {
      NoField(t, p, k);
      return [], false;
    }
    ghost var q := ms.offset;
    var content, stop := ReadValue(ms);
    if stop.Some? {
      content := Trim(DropEol(content), BLANKS);
      OneField(t, p, k, q, ValueEnd(t, q + 1), name, content);
      added := [Item(name, content)];
      more := AfterField(ms, stop.value);
      return;
    }
    content := DropEol(content);
    LastField(t, p, k, q, name, content);
    added := if name != "" then [Item(name, content)] else [];
    more := false;
  }

  lemma HeaderStep(t: string, p: nat, items: seq<Item>)
    requires p <= |t|
    ensures var line := HeaderLine(t, p);
            items + Header(t, p).items == items + line.added + (if line.more then Header(t, line.pos).items else [])
  {
    var line := HeaderLine(t, p);
    if line.more {
      assert items + (line.added + Header(t, line.pos).items) == items + line.added + Header(t, line.pos).items;
    }
  }

  /** Header lines until one says that it was the last. */
  method ParseHeader(ms: MimeInputSource) returns (items: seq<Item>)
    requires ms.Ready() && HeaderFits(ms.Text(), ms.offset)
    modifies ms, ms.data
    ensures ms.Ready()
    ensures Fields(items, ms.offset) == Header(ms.Text(), old(ms.offset))
  {
    ghost var t, p := ms.Text(), ms.offset;
    items := [];
    var more := true;
    while more
      invariant ms.Ready() && p <= ms.offset
      invariant more ==> Header(t, p).items == items + Header(t, ms.offset).items
      invariant more ==> Header(t, p).pos == Header(t, ms.offset).pos
      invariant !more ==> Header(t, p) == Fields(items, ms.offset)
      invariant more ==> HeaderFits(t, ms.offset)
      decreases |t| - ms.offset, more
    {
      var added;
      ghost var here := ms.offset;
      added, more := ParseOneHeaderLine(ms);
      HeaderStep(t, here, items);
      items := items + added;
    }
  }

  /** Give back at most four characters, not before `p`, from where the source was ready. */
  method GiveBack(ms: MimeInputSource, ghost p: nat, n: nat)
    requires ms.Ready() && n <= 4 && p + n <= ms.offset
    requires ms.high <= p + WINDOW || ms.high <= ms.offset
    modifies ms`head, ms`offset
    ensures ms.Ready() && ms.offset == old(ms.offset) - n
  {
    ms.UngetChars(n);
  }

  /** Read two characters into `a` and `b`, which keep their values past the end of the text. */
  method ReadTwo(ms: MimeInputSource, a0: char, b0: char) returns (a: char, b: char, eof: bool)
    requires ms.Ready()
    modifies ms, ms.data
    ensures ms.Ready()
    ensures var t, p := ms.Text(), old(ms.offset);
            && eof == (p + 2 > |t|) && ms.offset == (if eof then |t| else p + 2)
            && a == (if p < |t| then t[p] else a0) && b == (if p + 1 < |t| then t[p + 1] else b0)
            && (!eof ==> t[p..p + 2] == [a, b])
    ensures ms.high == old(ms.high) || ms.high <= ms.offset
  {
    a, b, eof := a0, b0, false;
    var ok, c := ms.Next();
    if ok { a := c; } else { eof := true; }
    ok, c := ms.Next();
    if ok { b := c; } else { eof := true; }
  }

  /** A line end after the delimiter is kept unless two dashes follow it; anything else is given back. */
  method KeepLineEnd(ms: MimeInputSource, a: char, b: char, m: Mark, ghost p: nat) returns (r: Mark)
    requires ms.Ready() && p + 2 <= ms.offset
    requires ms.high <= p + WINDOW || ms.high <= ms.offset
    requires a == '\r' && b == '\n' ==> ms.Text()[ms.offset - 2..ms.offset] == "\r\n"
    modifies ms, ms.data
    ensures ms.Ready() && ms.offset == r.pos
    ensures r == if a == '\r' && b == '\n' then AfterLine(ms.Text(), m, old(ms.offset))
                 else m.(pos := old(ms.offset) - 2)
  {
    ghost var t, q := ms.Text(), ms.offset;
    if a == '\r' && b == '\n' {
      var first, x := ms.Next();
      var second, y := false, '\0';
      if first {
        second, y := ms.Next();
      }
      if !first || !second {
        return m.(pos := ms.offset, eof := true);
      }
      assert t[q..q + 2] == [x, y];
      if x == '-' && y == '-' {
        GiveBack(ms, p, 4);
        return m.(pos := ms.offset);
      } else {
        GiveBack(ms, p, 2);
        return m.(pos := ms.offset, size := m.size + 2);
      }
    }
    GiveBack(ms, p, 2);
    r := m.(pos := ms.offset);
  }

  /** Look at what follows a boundary, keeping for it what belongs to it and giving back the rest. */
  method PostBoundaryProcessing(ms: MimeInputSource, m: Mark) returns (r: Mark)
    requires ms.Ready() && ms.offset == m.pos
    modifies ms, ms.data
    ensures ms.Ready() && r == AfterBoundary(ms.Text(), m) && ms.offset == r.pos
  {
    ghost var t, p := ms.Text(), m.pos;
    var a, b, eof := ReadTwo(ms, '\0', '\0');
    if m.eof || eof {
      return m.(pos := ms.offset, eof := true);
    }
    r := m;
    if a == '-' && b == '-' {
      r := r.(last := true, size := r.size + 2);
      a, b, eof := ReadTwo(ms, a, b);
      r := r.(eof := eof);
    }
    r := KeepLineEnd(ms, a, b, r, p);
  }

  /** A body without parts: read to the delimiter, or to the end when there is none to look for. */
  method ParseSinglePart(ms: MimeInputSource, toboundary: string) returns (b: Body)
    requires ms.Ready()
    modifies ms, ms.data
    ensures ms.Ready() && ms.offset == b.mark.pos
    ensures b == SinglePart(ms.Text(), old(ms.offset), toboundary)
  {
    ghost var t := ms.Text();
    var start := ms.offset;
    var delimiter := if toboundary == "" then "" else "\r\n--" + toboundary;
    var found := ReadToDelimiter(ms, delimiter);
    var m := Mark(ms.offset, false, if found then |delimiter| else 0, false);
    if toboundary != "" {
      m := PostBoundaryProcessing(ms, m);
    } else {
      m := m.(eof := true);
    }
    b := Body(m, Clip(ms.offset, start, m.size), []);
  }

  /** The loop of parseSinglePart: the same queue search, reading every character of the body. */
  method ReadToDelimiter(ms: MimeInputSource, delimiter: string) returns (found: bool)
    requires ms.Ready() && (delimiter != "" ==> delimiter[0] != '\0')
    modifies ms, ms.data
    ensures ms.Ready()
    ensures delimiter == "" ==> !found && ms.offset == |ms.Text()|
    ensures delimiter != "" ==>
      var r := FindEnd(ms.Text(), old(ms.offset), delimiter);
      found == r.Some? && ms.offset == if r.Some? then r.value else |ms.Text()|
  {
    ghost var t, p := ms.Text(), ms.offset;
    var queue := new char[|delimiter|](_ => '\0');
    var pos := 0;
    found := false;
    var ok, c := ms.Next();
    while ok
      invariant ms.Ready() && p <= ms.offset
      invariant ok ==> p < ms.offset && c == t[ms.offset - 1]
      invariant !ok ==> ms.offset == |t|
      invariant delimiter != "" ==> Recent(queue[..], pos, t, p, if ok then ms.offset - 1 else ms.offset)
      invariant delimiter != "" ==>
        forall e :: p <= e <= (if ok then ms.offset - 1 else ms.offset) ==> !EndsAt(t, p, delimiter, e)
      decreases |t| - ms.offset, ok
    {
      if delimiter != "" {
        var same;
        pos, same := PushAndCompare(queue, pos, c, delimiter, t, p, ms.offset - 1);
        if same {
          FirstEnd(t, p, delimiter, ms.offset);
          return true;
        }
      }
      ok, c := ms.Next();
    }
    FindEndFirst(t, p, delimiter);
  }

  /** A multipart body: preamble, parts, and what comes before the outer delimiter. */
  method ParseMultipart(ms: MimeInputSource, boundary: string, toboundary: string, size: nat) returns (b: Body)
    requires ms.Ready() && CanParseMultipart(ms.Text(), ms.offset, boundary, size)
    modifies ms, ms.data
    ensures ms.Ready() && ms.offset == b.mark.pos
    ensures b == Multipart(ms.Text(), old(ms.offset), boundary, toboundary, size)
    decreases |ms.Text()| - ms.offset, 3
  {
    ghost var t, p := ms.Text(), ms.offset;
    var start := ms.offset;
    var found := SkipUntilBoundary(ms, "--" + boundary);
    // The source tests the pointer here, not the flag, so the size of a found delimiter is not set.
    var m := Mark(ms.offset, !found, size, false);
    m := PostBoundaryProcessing(ms, m);
    CanParseFirst(t, p, boundary, size, m);
    var parts: seq<Part> := [];
    if !m.last && !m.eof {
      ghost var first := ms.offset;
      var quit := false;
      var bsize := 0;
      while !quit
        invariant ms.Ready() && first <= ms.offset && p < ms.offset
        invariant !quit ==> Chain(t, first, boundary, parts, ms.offset) && CanParseMembers(t, ms.offset, boundary)
        invariant quit ==> ParseMembers(t, first, boundary) == Members(parts, bsize, ms.offset)
        decreases !quit, |t| - ms.offset
      {
        ghost var here := ms.offset;
        CanParseNext(t, here, boundary);
        var member := DoParseFull(ms, boundary, 0);
        ChainStep(t, first, boundary, parts, here);
        parts := parts + [member.part];
        if member.done {
          quit := true;
          bsize := member.size;
        }
      }
      var d := "\r\n--" + toboundary;
      m := m.(size := bsize);
      found := SkipUntilBoundary(ms, d);
      m := Mark(ms.offset, !found, if found then |d| else bsize, false);
      m := PostBoundaryProcessing(ms, m);
    }
    b := Body(m, Clip(ms.offset, start, m.size), parts);
  }

  /** `done` are the first parts of the multipart whose parts begin at `first`, the next begins at `q`. */
  ghost predicate Chain(t: string, first: nat, boundary: string, done: seq<Part>, q: nat)
    requires first <= |t|
  {
    && q <= |t|
    && var all, rest := ParseMembers(t, first, boundary), ParseMembers(t, q, boundary);
       all == rest.(parts := done + rest.parts)
  }

  lemma ChainStep(t: string, first: nat, boundary: string, done: seq<Part>, q: nat)
    requires first <= |t| && Chain(t, first, boundary, done, q)
    ensures var m := Parse(t, q, boundary, 0);
            if m.done then ParseMembers(t, first, boundary) == Members(done + [m.part], m.size, m.pos)
            else Chain(t, first, boundary, done + [m.part], m.pos)
  {
    var m := Parse(t, q, boundary, 0);
    if !m.done {
      var rest := ParseMembers(t, m.pos, boundary).parts;
      assert done + ([m.part] + rest) == done + [m.part] + rest;
    }
  }

  /** An enclosed message: one part parsed with the outer boundary. The caller's size is left alone. */
  method ParseMessageRFC822(ms: MimeInputSource, toboundary: string) returns (part: Part, length: nat, done: bool)
    requires ms.Ready() && CanParse(ms.Text(), ms.offset, 0)
    modifies ms, ms.data
    ensures ms.Ready()
    ensures var r := Parse(ms.Text(), old(ms.offset), toboundary, 0);
            ms.offset == r.pos && part == r.part && done == r.done && length == Clip(r.pos, old(ms.offset), r.size)
    decreases |ms.Text()| - ms.offset, 2
  {
    var start := ms.offset;
    var m := DoParseFull(ms, toboundary, 0);
    part, length, done := m.part, Clip(ms.offset, start, m.size), m.done;
  }

  /** A part: header, analysis, then the body its type calls for. */
  method DoParseFull(ms: MimeInputSource, toboundary: string, size: nat) returns (r: Parsed)
    requires ms.Ready() && CanParse(ms.Text(), ms.offset, size)
    modifies ms, ms.data
    ensures ms.Ready() && ms.offset == r.pos
    ensures r == Parse(ms.Text(), old(ms.offset), toboundary, size)
    decreases |ms.Text()| - ms.offset, 1
  {
    ghost var t, p := ms.Text(), ms.offset;
    CanParseHeader(t, p, size);
    var headerStart := ms.offset;
    var items := ParseHeader(ms);
    CanParseBody(t, p, size, Fields(items, ms.offset));
    var headerLength := ms.offset - headerStart;
    var bodyStart := ms.offset;
    var kind := AnalyzeHeader(items);
    if kind.rfc822 {
      var member, length, done := ParseMessageRFC822(ms, toboundary);
      r := Parsed(Part(headerStart, headerLength, bodyStart, length, items, kind, [member]), ms.offset, size, done);
    } else {
      var b;
      if kind.multipart {
        b := ParseMultipart(ms, kind.boundary, toboundary, size);
      } else {
        b := ParseSinglePart(ms, toboundary);
      }
      r := Parsed(Part(headerStart, headerLength, bodyStart, b.length, items, kind, b.members),
                  ms.offset, b.mark.size, b.mark.eof || b.mark.last);
    }
  }

  /** A whole document, and its size. */
  method ParseFull(ms: MimeInputSource) returns (document: Part, size: nat)
    requires ms.Ready() && ms.offset == 0 && ParseFits(ms.Text(), 0, 0)
    modifies ms, ms.data
    ensures ms.Ready() && ms.offset == |ms.Text()|
    ensures document == Parse(ms.Text(), 0, "", 0).part && size == |ms.Text()|
  {
    CanParseIs(ms.Text(), 0, 0);
    var r := DoParseFull(ms, "", 0);
    document := r.part;
    var ok, c := ms.Next();
    while ok
      invariant ms.Ready() && (!ok ==> ms.offset == |ms.Text()|)
      decreases |ms.Text()| - ms.offset, ok
    {
      ok, c := ms.Next();
    }
    size := ms.offset;
  }
}
