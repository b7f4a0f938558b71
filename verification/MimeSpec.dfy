/** The MIME parser as a function of the text and a position in it. Each function says where the
    parser stops and what it records, by first occurrences rather than by characters and queues;
    the methods of MimeParser are proved against them. */
module MimeSpec {
  import opened Closed
  import opened InputSource
  import opened Common
  import opened Matcher
  import opened HeaderText

  /** What a parse records about one part: extents as offsets in the normal text, header fields,
      media type, and the parts inside. */
  datatype Part = Part(
    headerStart: nat, headerLength: nat, bodyStart: nat, bodyLength: nat,
    header: seq<Item>, kind: Analysis, members: seq<Part>)

  /** Where reading stands around a boundary: the offset, end of file met, the number of characters
      to take off the body, and whether the closing delimiter was seen. */
  datatype Mark = Mark(pos: nat, eof: bool, size: nat, last: bool)

  datatype Line = Line(added: seq<Item>, pos: nat, more: bool)
  datatype Fields = Fields(items: seq<Item>, pos: nat)
  datatype Body = Body(mark: Mark, length: nat, members: seq<Part>)
  datatype Members = Members(parts: seq<Part>, size: nat, pos: nat)
  datatype Parsed = Parsed(part: Part, pos: nat, size: nat, done: bool)

  /** First colon or CR at or after `p`. */
  function NameEnd(t: string, p: nat): (k: nat)
    requires p <= |t|
    ensures p <= k <= |t|
    ensures forall i :: p <= i < k ==> t[i] != ':' && t[i] != '\r'
    ensures k < |t| ==> t[k] == ':' || t[k] == '\r'
    decreases |t| - p
  {
    if p == |t| || t[p] == ':' || t[p] == '\r' then p else NameEnd(t, p + 1)
  }

  /** A header value ends before `i`: a line begins there and is no continuation. */
  predicate ValueEndsAt(t: string, i: nat) {
    0 < i < |t| && t[i - 1] == '\n' && t[i] != ' ' && t[i] != '\t'
  }

  /** First end of a header value at or after `i`. */
  function ValueEnd(t: string, i: nat): (k: nat)
    requires i <= |t|
    ensures i <= k <= |t|
    ensures forall j :: i <= j < k ==> !ValueEndsAt(t, j)
    ensures k < |t| ==> ValueEndsAt(t, k)
    decreases |t| - i
  {
    if i == |t| || ValueEndsAt(t, i) then i else ValueEnd(t, i + 1)
  }

  /** One header line, continuations included, from `p`. */
  function HeaderLine(t: string, p: nat): (r: Line)
    requires p <= |t|
    ensures p <= r.pos <= |t|
    ensures r.more ==> p < r.pos < |t|
    ensures r.added != [] ==> p < r.pos
  {
    var k := NameEnd(t, p);
    if k < |t| && t[k] == '\r' then Line([], p, false)
    else
      var name := t[p..k];
      if k >= |t| - 1 then Line(if name == "" then [] else [Item(name, "")], |t|, false)
      else
        var i := ValueEnd(t, k + 2);
        var value := DropEol(t[k + 1..i]);
        if i == |t| then Line(if name == "" then [] else [Item(name, value)], |t|, false)
        else if t[i] == '\r' then
          Line([Item(name, Trim(value, BLANKS))], if i + 2 <= |t| then i + 2 else |t|, false)
        else Line([Item(name, Trim(value, BLANKS))], i, true)
  }

  /** The header fields from `p`, and where the body begins. */
  function Header(t: string, p: nat): (r: Fields)
    requires p <= |t|
    ensures p <= r.pos <= |t|
    ensures r.items != [] ==> p < r.pos
    decreases |t| - p
  {
    var line := HeaderLine(t, p);
    if line.more then
      var rest := Header(t, line.pos);
      Fields(line.added + rest.items, rest.pos)
    else Fields(line.added, line.pos)
  }

  /** What follows a delimiter that ends at `m.pos`: two dashes close the multipart; a CRLF belongs to
      this delimiter unless two dashes follow it. */
  function AfterBoundary(t: string, m: Mark): (r: Mark)
    requires m.pos <= |t|
    ensures m.pos <= r.pos <= |t|
    ensures m.size <= r.size && (m.eof ==> r.eof) && (m.last ==> r.last)
  {
    if m.eof || m.pos + 2 > |t| then m.(pos := if m.pos + 2 <= |t| then m.pos + 2 else |t|, eof := true)
    else if t[m.pos..m.pos + 2] != "--" then AfterLine(t, m, m.pos + 2)
    else
      var closed := m.(size := m.size + 2, last := true);
      if m.pos + 4 > |t| then closed.(pos := |t| - 2, eof := true)
      else AfterLine(t, closed, m.pos + 4)
  }

  /** The two characters before `q` are a line end or are given back. */
  function AfterLine(t: string, m: Mark, q: nat): (r: Mark)
    requires 2 <= q <= |t|
    ensures q - 2 <= r.pos <= |t|
    ensures m.size <= r.size && (m.eof ==> r.eof) && r.last == m.last
  {
    if t[q - 2..q] != "\r\n" then m.(pos := q - 2)
    else if q + 2 > |t| then m.(pos := |t|, eof := true)
    else if t[q..q + 2] == "--" then m.(pos := q - 2)
    else m.(pos := q, size := m.size + 2)
  }

  /** Body length from the offset reached, never negative. */
  function Clip(pos: nat, start: nat, size: nat): nat {
    if pos >= start + size then pos - start - size else 0
  }

  /** Skip to the delimiter `d`, then past what follows it. Only a found delimiter sets the size. */
  function ToBoundary(t: string, p: nat, d: string, size: nat): (r: Mark)
    requires p <= |t| && d != ""
    ensures p <= r.pos <= |t|
    ensures !r.eof ==> p < r.pos
  {
    match FindEnd(t, p, d)
    case Some(e) => AfterBoundary(t, Mark(e, false, size, false))
    case None => Mark(|t|, true, size, false)
  }

  /** A body without parts: up to the delimiter, to the end of the text when there is none. */
  function SinglePart(t: string, p: nat, toboundary: string): (r: Body)
    requires p <= |t|
    ensures p <= r.mark.pos <= |t| && p + r.length <= r.mark.pos
    ensures !r.mark.eof ==> p < r.mark.pos
  {
    if toboundary == "" then Body(Mark(|t|, true, 0, false), |t| - p, [])
    else
      var d := "\r\n--" + toboundary;
      var found := FindEnd(t, p, d).Some?;
      var m := ToBoundary(t, p, d, if found then |d| else 0);
      Body(m, Clip(m.pos, p, m.size), [])
  }

  /** A multipart body: to the first delimiter, the parts, then to the outer delimiter. The size a
      found first delimiter should set is never set. */
  function Multipart(t: string, p: nat, boundary: string, toboundary: string, size: nat): (r: Body)
    requires p <= |t|
    ensures p <= r.mark.pos <= |t| && p + r.length <= r.mark.pos
    ensures !r.mark.eof && !r.mark.last ==> p < r.mark.pos
    decreases |t| - p, 3
  {
    var first := ToBoundary(t, p, "--" + boundary, size);
    if first.last || first.eof then Body(first, Clip(first.pos, p, first.size), [])
    else
      var ms := ParseMembers(t, first.pos, boundary);
      var d := "\r\n--" + toboundary;
      var found := FindEnd(t, ms.pos, d).Some?;
      var m := ToBoundary(t, ms.pos, d, if found then |d| else ms.size);
      Body(m, Clip(m.pos, p, m.size), ms.parts)
  }

  /** The parts of a multipart, up to the one that reports its end. */
  function ParseMembers(t: string, p: nat, boundary: string): (r: Members)
    requires p <= |t|
    ensures p <= r.pos <= |t| && r.parts != []
    decreases |t| - p, 2
  {
    var m := Parse(t, p, boundary, 0);
    if m.done then Members([m.part], m.size, m.pos)
    else
      var rest := ParseMembers(t, m.pos, boundary);
      rest.(parts := [m.part] + rest.parts)
  }

  /** A part from its header to just before what follows it. `size` is the caller's boundary size. */
  function Parse(t: string, p: nat, toboundary: string, size: nat): (r: Parsed)
    requires p <= |t|
    ensures p <= r.pos <= |t|
    ensures !r.done ==> p < r.pos
    decreases |t| - p, 1
  {
    var h := Header(t, p);
    var kind := Analyze(h.items);
    if kind.rfc822 then
      var inner := Parse(t, h.pos, toboundary, 0);
      var length := Clip(inner.pos, h.pos, inner.size);
      Parsed(Part(p, h.pos - p, h.pos, length, h.items, kind, [inner.part]), inner.pos, size, inner.done)
    else
      var b := if kind.multipart then Multipart(t, h.pos, kind.boundary, toboundary, size)
               else SinglePart(t, h.pos, toboundary);
      Parsed(Part(p, h.pos - p, h.pos, b.length, h.items, kind, b.members),
             b.mark.pos, b.mark.size, b.mark.eof || b.mark.last)
  }

  // What the rewind window asks of a text. Only a header line without a colon is given back in full; it must
  // fit the window. Lines that are no headers may be of any length.

  /** The characters up to a CR that comes before any colon can be given back. */
  predicate RewindFits(t: string, p: nat)
    requires p <= |t|
  {
    var k := NameEnd(t, p);
    k < |t| && t[k] == '\r' ==> k + 1 - p <= WINDOW
  }

  /** So they can for all lines read as a header from `p` on. */
  predicate HeaderFits(t: string, p: nat)
    requires p <= |t|
    decreases |t| - p
  {
    RewindFits(t, p) && var line := HeaderLine(t, p); line.more ==> HeaderFits(t, line.pos)
  }

  predicate MultipartFits(t: string, p: nat, boundary: string, size: nat)
    requires p <= |t|
    decreases |t| - p, 3
  {
    var first := ToBoundary(t, p, "--" + boundary, size);
    first.last || first.eof || MembersFit(t, first.pos, boundary)
  }

  predicate MembersFit(t: string, p: nat, boundary: string)
    requires p <= |t|
    decreases |t| - p, 2
  {
    ParseFits(t, p, 0) && var m := Parse(t, p, boundary, 0); !m.done ==> MembersFit(t, m.pos, boundary)
  }

  /** And for all headers of the parts that a parse from `p` goes through. */
  predicate ParseFits(t: string, p: nat, size: nat)
    requires p <= |t|
    decreases |t| - p, 1
  {
    && HeaderFits(t, p)
    && var h := Header(t, p);
       var kind := Analyze(h.items);
       if kind.rfc822 then ParseFits(t, h.pos, 0)
       else kind.multipart ==> MultipartFits(t, h.pos, kind.boundary, size)
  }

  /** ParseFits, closed. */
  ghost predicate CanParse(t: string, p: nat, size: nat) {
    forall eye :: Look(eye) ==> p <= |t| && ParseFits(t, p, size)
  }

  lemma CanParseIs(t: string, p: nat, size: nat)
    ensures CanParse(t, p, size) <==> p <= |t| && ParseFits(t, p, size)
  {
    if CanParse(t, p, size) {
      assert Look(Eye);
    }
  }

  ghost predicate CanParseMembers(t: string, p: nat, boundary: string) {
    forall eye :: Look(eye) ==> p <= |t| && MembersFit(t, p, boundary)
  }

  lemma CanParseMembersIs(t: string, p: nat, boundary: string)
    ensures CanParseMembers(t, p, boundary) <==> p <= |t| && MembersFit(t, p, boundary)
  {
    if CanParseMembers(t, p, boundary) {
      assert Look(Eye);
    }
  }

  ghost predicate CanParseMultipart(t: string, p: nat, boundary: string, size: nat) {
    forall eye :: Look(eye) ==> p <= |t| && MultipartFits(t, p, boundary, size)
  }

  lemma CanParseMultipartIs(t: string, p: nat, boundary: string, size: nat)
    ensures CanParseMultipart(t, p, boundary, size) <==> p <= |t| && MultipartFits(t, p, boundary, size)
  {
    if CanParseMultipart(t, p, boundary, size) {
      assert Look(Eye);
    }
  }

  lemma CanParseHeader(t: string, p: nat, size: nat)
    requires CanParse(t, p, size)
    ensures p <= |t| && HeaderFits(t, p)
  {
    CanParseIs(t, p, size);
  }

  lemma CanParseBody(t: string, p: nat, size: nat, h: Fields)
    requires CanParse(t, p, size) && p <= |t| && h == Header(t, p)
    ensures var kind := Analyze(h.items);
            && (kind.rfc822 ==> CanParse(t, h.pos, 0))
            && (!kind.rfc822 && kind.multipart ==> CanParseMultipart(t, h.pos, kind.boundary, size))
  {
    CanParseIs(t, p, size);
    CanParseIs(t, h.pos, 0);
    CanParseMultipartIs(t, h.pos, Analyze(h.items).boundary, size);
  }

  lemma CanParseFirst(t: string, p: nat, boundary: string, size: nat, m: Mark)
    requires CanParseMultipart(t, p, boundary, size) && p <= |t| && m == ToBoundary(t, p, "--" + boundary, size)
    ensures !m.last && !m.eof ==> CanParseMembers(t, m.pos, boundary)
  {
    CanParseMultipartIs(t, p, boundary, size);
    CanParseMembersIs(t, m.pos, boundary);
  }

  lemma CanParseNext(t: string, p: nat, boundary: string)
    requires CanParseMembers(t, p, boundary)
    ensures p <= |t| && CanParse(t, p, 0)
    ensures var m := Parse(t, p, boundary, 0); !m.done ==> CanParseMembers(t, m.pos, boundary)
  {
    CanParseMembersIs(t, p, boundary);
    CanParseIs(t, p, 0);
    CanParseMembersIs(t, Parse(t, p, boundary, 0).pos, boundary);
  }

  /** A text without overlong lines can be parsed from anywhere. */
  lemma {:induction false} ShortLinesFit(t: string, p: nat, size: nat)
    requires p <= |t| && forall q :: 0 <= q <= |t| ==> RewindFits(t, q)
    ensures ParseFits(t, p, size)
    decreases |t| - p, 1
  {
    ShortHeaderFits(t, p);
    var h := Header(t, p);
    var kind := Analyze(h.items);
    if kind.rfc822 {
      ShortLinesFit(t, h.pos, 0);
    } else if kind.multipart {
      var first := ToBoundary(t, h.pos, "--" + kind.boundary, size);
      if !first.last && !first.eof {
        ShortMembersFit(t, first.pos, kind.boundary);
      }
    }
  }

  lemma {:induction false} ShortHeaderFits(t: string, p: nat)
    requires p <= |t| && forall q :: 0 <= q <= |t| ==> RewindFits(t, q)
    ensures HeaderFits(t, p)
    decreases |t| - p
  {
    var line := HeaderLine(t, p);
    if line.more {
      ShortHeaderFits(t, line.pos);
    }
  }

  lemma {:induction false} ShortMembersFit(t: string, p: nat, boundary: string)
    requires p <= |t| && forall q :: 0 <= q <= |t| ==> RewindFits(t, q)
    ensures MembersFit(t, p, boundary)
    decreases |t| - p, 2
  {
    ShortLinesFit(t, p, 0);
    var m := Parse(t, p, boundary, 0);
    if !m.done {
      ShortMembersFit(t, m.pos, boundary);
    }
  }
}
