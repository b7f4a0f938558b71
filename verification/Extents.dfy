/** What the recorded extents mean, for every input: where bodies end and how parts lie. */
module Extents {
  import opened InputSource
  import opened Common
  import opened Matcher
  import opened HeaderText
  import opened MimeSpec
  import opened GetBody

  /** The text ends inside what may belong to a delimiter that ends at `e`. */
  predicate CutShort(t: string, e: nat)
    requires e <= |t|
  {
    var rest := t[e..];
    || |rest| < 2
    || (rest[..2] == "\r\n" && |rest| < 4)
    || (rest[..2] == "--" && (|rest| < 4 || (rest[2..4] == "\r\n" && |rest| < 6)))
  }

  /** By how much a cut-short trailing marker moves the computed end of the body. */
  function Slip(t: string, e: nat): int
    requires e <= |t|
  {
    if !CutShort(t, e) then 0
    else match |t| - e
      case 2 => if t[e..] == "--" then -2 else 2
      case 3 => if t[e] == '-' then -1 else 3
      case 4 => 2
      case 5 => 3
      case n => n
  }

  /** Past a delimiter, offset minus size is still the start of the delimiter, up to the slip. */
  lemma DelimiterStart(t: string, e: nat, size: nat)
    requires e <= |t|
    ensures var m := AfterBoundary(t, Mark(e, false, size, false));
            m.eof == CutShort(t, e) && m.pos - m.size == e - size + Slip(t, e)
    ensures -2 <= Slip(t, e) <= 3
  {
    var rest := t[e..];
    if |rest| >= 2 {
      assert rest[..2] == t[e..e + 2];
      if |rest| >= 4 {
        assert rest[2..4] == t[e + 2..e + 4];
      }
      if |rest| == 2 {
        assert rest == rest[..2];
      }
    }
  }

  /** The computed length of a body that a delimiter ends: the distance to the delimiter, unless the
      text ends inside the trailing marker. */
  lemma SinglePartExact(t: string, p: nat, toboundary: string, e: nat)
    requires p <= |t| && toboundary != "" && FindEnd(t, p, "\r\n--" + toboundary) == Some(e)
    ensures var b, end := SinglePart(t, p, toboundary), e - |toboundary| - 4;
            && b.mark.eof == CutShort(t, e)
            && b.length == (if end + Slip(t, e) >= p then end + Slip(t, e) - p else 0)
            && (b.length == end - p <==> Slip(t, e) == 0 || (Slip(t, e) < 0 && end == p))
  {
    DelimiterStart(t, e, |toboundary| + 4);
  }

  /** A leaf part runs from the end of its header, its body by its delimiter. */
  lemma LeafPart(t: string, p: nat, toboundary: string, size: nat)
    requires p <= |t| && var a := Analyze(Header(t, p).items); !a.multipart && !a.rfc822
    ensures var part, h := Parse(t, p, toboundary, size).part, Header(t, p);
            part.bodyStart == h.pos && part.bodyLength == SinglePart(t, h.pos, toboundary).length
  {
  }

  /** A leaf part whose delimiter is not cut short: reading its body back gives the text between the
      header and the delimiter. */
  lemma LeafBodyReadsBack(t: string, p: nat, toboundary: string, size: nat, e: nat, part: Part)
    requires p <= |t| < U32 && part == Parse(t, p, toboundary, size).part
    requires var h := Header(t, p);
             && !Analyze(h.items).multipart && !Analyze(h.items).rfc822
             && toboundary != "" && FindEnd(t, h.pos, "\r\n--" + toboundary) == Some(e)
    requires !CutShort(t, e)
    ensures part.bodyStart == Header(t, p).pos <= e - |toboundary| - 4
    ensures BodyRead(t, part, 0, part.bodyLength) == t[part.bodyStart..e - |toboundary| - 4]
  {
    LeafPart(t, p, toboundary, size);
    SinglePartExact(t, Header(t, p).pos, toboundary, e);
    BodyReadExact(t, part, 0, part.bodyLength);
  }

  /** An enclosed message: the body of the part that encloses it ends where the body of the message does,
      if the message's own boundary size fits; around a message that itself only encloses one, it runs to
      where the parse returned, the delimiter included. */
  lemma MessageEnd(t: string, p: nat, toboundary: string, size: nat, h: nat, r: Parsed, inner: Parsed)
    requires p <= |t| && h == Header(t, p).pos && Analyze(Header(t, p).items).rfc822
    requires r == Parse(t, p, toboundary, size) && inner == Parse(t, h, toboundary, 0)
    ensures r.part.members == [inner.part] && r.part.bodyStart == h && r.pos == inner.pos && r.done == inner.done
    ensures if Analyze(Header(t, h).items).rfc822 then r.part.bodyStart + r.part.bodyLength == inner.pos
            else inner.part.bodyStart + inner.size <= inner.pos ==>
                   r.part.bodyStart + r.part.bodyLength == inner.part.bodyStart + inner.part.bodyLength
  {
  }

  // Texts that are cut off: a delimiter that is not there.

  /** A body whose delimiter is not in the rest of the text runs to the end of the text. */
  lemma SinglePartCutOff(t: string, p: nat, toboundary: string)
    requires p <= |t| && (toboundary == "" || FindEnd(t, p, "\r\n--" + toboundary) == None)
    ensures var b := SinglePart(t, p, toboundary);
            b.length == |t| - p && b.mark.pos == |t| && b.mark.eof && b.mark.size == 0 && b.members == []
  {
  }

  /** A leaf part that is cut off ends the parse, and its body read back is the rest of the text. */
  lemma LeafCutOff(t: string, p: nat, toboundary: string, size: nat, q: nat, r: Parsed)
    requires p <= |t| < U32 && q == Header(t, p).pos && r == Parse(t, p, toboundary, size)
    requires var a := Analyze(Header(t, p).items); !a.multipart && !a.rfc822
    requires toboundary == "" || FindEnd(t, q, "\r\n--" + toboundary) == None
    ensures r.done && r.pos == |t| && r.part.bodyStart == q && r.part.bodyLength == |t| - q
    ensures BodyRead(t, r.part, 0, r.part.bodyLength) == t[q..]
  {
    SinglePartCutOff(t, q, toboundary);
    BodyReadExact(t, r.part, 0, r.part.bodyLength);
  }

  /** A multipart without its first delimiter has no parts and ends the parse. From its length the caller's
      boundary size is taken, which is 0 for a part of a multipart and for a whole document. */
  lemma FirstDelimiterMissing(t: string, p: nat, boundary: string, toboundary: string, size: nat)
    requires p <= |t| && FindEnd(t, p, "--" + boundary) == None
    ensures var b := Multipart(t, p, boundary, toboundary, size);
            && b.members == [] && b.mark.eof && b.mark.pos == |t|
            && b.length == if |t| - p >= size then |t| - p - size else 0
  {
  }

  /** A multipart whose outer delimiter is missing has all its parts and ends the parse. Its length is up to
      the end of the text less the boundary size that its last part left. */
  lemma OuterDelimiterMissing(t: string, p: nat, boundary: string, toboundary: string, size: nat, first: Mark,
                              ms: Members)
    requires p <= |t| && first == ToBoundary(t, p, "--" + boundary, size) && !first.last && !first.eof
    requires ms == ParseMembers(t, first.pos, boundary)
    requires FindEnd(t, ms.pos, "\r\n--" + toboundary) == None
    ensures var b := Multipart(t, p, boundary, toboundary, size);
            && b.members == ms.parts && b.mark.eof && b.mark.pos == |t|
            && b.length == if |t| - p >= ms.size then |t| - p - ms.size else 0
  {
  }

  /** A part and everything inside it lie in order and end by `hi`. */
  ghost predicate LaidOut(part: Part, hi: nat)
    decreases part, 1
  {
    && part.bodyStart == part.headerStart + part.headerLength
    && part.bodyStart + part.bodyLength <= hi
    && (part.members != [] ==>
          part.bodyStart <= part.members[0].headerStart
          && InOrder(part.members, part.members[0].headerStart, hi))
  }

  /** Siblings: the first begins at `lo`, each ends by where the next one begins, the last by `hi`. */
  ghost predicate InOrder(parts: seq<Part>, lo: nat, hi: nat)
    decreases parts, 0
  {
    parts == [] ||
    var end := if |parts| == 1 then hi else parts[1].headerStart;
    && parts[0].headerStart == lo
    && (if |parts| == 1 then lo <= end else lo < end <= hi)
    && LaidOut(parts[0], end)
    && InOrder(parts[1..], end, hi)
  }

  lemma {:induction false} LaidOutWiden(part: Part, hi: nat, hi': nat)
    requires LaidOut(part, hi) && hi <= hi'
    ensures LaidOut(part, hi')
    decreases part, 1
  {
    if part.members != [] {
      InOrderWiden(part.members, part.members[0].headerStart, hi, hi');
    }
  }

  lemma {:induction false} InOrderWiden(parts: seq<Part>, lo: nat, hi: nat, hi': nat)
    requires InOrder(parts, lo, hi) && hi <= hi'
    ensures InOrder(parts, lo, hi')
    decreases parts, 0
  {
    if |parts| == 1 {
      LaidOutWiden(parts[0], hi, hi');
    } else if parts != [] {
      InOrderWiden(parts[1..], parts[1].headerStart, hi, hi');
    }
  }

  /** For every text, boundary and starting point the parse lays its parts out in order: header next to
      body, bodies ending by where the parse returned, each sibling starting where the one before it
      returned, at every depth. */
  lemma {:induction false} ParseLaysOut(t: string, p: nat, toboundary: string, size: nat)
    requires p <= |t|
    ensures var r := Parse(t, p, toboundary, size);
            r.part.headerStart == p && LaidOut(r.part, r.pos)
    decreases |t| - p, 1
  {
    var h := Header(t, p);
    var kind := Analyze(h.items);
    if kind.rfc822 {
      ParseLaysOut(t, h.pos, toboundary, 0);
      var inner := Parse(t, h.pos, toboundary, 0);
      assert [inner.part][1..] == [];
      assert InOrder([inner.part], h.pos, inner.pos);
    } else if kind.multipart {
      var first := ToBoundary(t, h.pos, "--" + kind.boundary, size);
      if !first.last && !first.eof {
        MembersLieInOrder(t, first.pos, kind.boundary);
        var ms := ParseMembers(t, first.pos, kind.boundary);
        InOrderWiden(ms.parts, first.pos, ms.pos, Multipart(t, h.pos, kind.boundary, toboundary, size).mark.pos);
      }
    }
  }

  lemma {:induction false} MembersLieInOrder(t: string, p: nat, boundary: string)
    requires p <= |t|
    ensures var r := ParseMembers(t, p, boundary); InOrder(r.parts, p, r.pos)
    decreases |t| - p, 2
  {
    ParseLaysOut(t, p, boundary, 0);
    var m := Parse(t, p, boundary, 0);
    if m.done {
      assert [m.part][1..] == [];
    } else {
      MembersLieInOrder(t, m.pos, boundary);
      var rest := ParseMembers(t, m.pos, boundary);
      assert ([m.part] + rest.parts)[1..] == rest.parts;
    }
  }

  /** Each sibling's header begins where the parse of the one before it returned, the first one's at `p`. */
  lemma {:induction false} MembersFollow(t: string, p: nat, boundary: string, k: nat)
    requires p <= |t| && k < |ParseMembers(t, p, boundary).parts|
    ensures var parts := ParseMembers(t, p, boundary).parts;
            && parts[0].headerStart == p && parts[k].headerStart <= |t|
            && parts[k] == Parse(t, parts[k].headerStart, boundary, 0).part
            && (k + 1 < |parts| ==> parts[k + 1].headerStart == Parse(t, parts[k].headerStart, boundary, 0).pos)
    decreases |t| - p
  {
    var m := Parse(t, p, boundary, 0);
    if !m.done {
      MembersFollow(t, m.pos, boundary, if k == 0 then 0 else k - 1);
    }
  }

  lemma FirstInOrder(parts: seq<Part>, lo: nat, hi: nat)
    requires InOrder(parts, lo, hi) && parts != []
    ensures lo == parts[0].headerStart <= parts[0].bodyStart
  {
  }

  /** Siblings are disjoint: one ends before a later one begins. */
  lemma {:induction false} SiblingsDisjoint(parts: seq<Part>, lo: nat, hi: nat, i: nat, j: nat)
    requires InOrder(parts, lo, hi) && i < j < |parts|
    ensures parts[i].bodyStart + parts[i].bodyLength <= parts[j].headerStart <= hi
    decreases |parts|
  {
    if i > 0 {
      SiblingsDisjoint(parts[1..], parts[1].headerStart, hi, i - 1, j - 1);
    } else if j > 1 {
      FirstInOrder(parts[1..], parts[1].headerStart, hi);
      SiblingsDisjoint(parts[1..], parts[1].headerStart, hi, 0, j - 1);
    }
  }

  /** A multipart that an outer delimiter ends properly: its body runs to that delimiter, and its last
      part returned before it. */
  lemma MultipartEnd(t: string, p: nat, boundary: string, toboundary: string, size: nat,
                     first: Mark, ms: Members, e: nat)
    requires p <= |t| && first == ToBoundary(t, p, "--" + boundary, size) && !first.last && !first.eof
    requires ms == ParseMembers(t, first.pos, boundary)
    requires FindEnd(t, ms.pos, "\r\n--" + toboundary) == Some(e) && !CutShort(t, e)
    ensures ms.pos + |toboundary| + 4 <= e
    ensures Multipart(t, p, boundary, toboundary, size).members == ms.parts
    ensures p + Multipart(t, p, boundary, toboundary, size).length == e - |toboundary| - 4
  {
    var d := "\r\n--" + toboundary;
    assert |d| == |toboundary| + 4;
    DelimiterStart(t, e, |d|);
    assert ToBoundary(t, ms.pos, d, |d|) == AfterBoundary(t, Mark(e, false, |d|, false));
  }

  /** Parts lie in order inside any stretch that reaches past where the last of them returned. */
  lemma MembersReach(t: string, p: nat, boundary: string, ms: Members, hi: nat)
    requires p <= |t| && ms == ParseMembers(t, p, boundary) && ms.pos <= hi
    ensures InOrder(ms.parts, p, hi)
  {
    MembersLieInOrder(t, p, boundary);
    InOrderWiden(ms.parts, p, ms.pos, hi);
  }

  /** Such a multipart holds its parts: they lie in order between the first delimiter and the recorded
      end of the body, which is where the outer delimiter starts. */
  lemma MembersInBody(t: string, p: nat, boundary: string, toboundary: string, size: nat,
                      first: Mark, ms: Members, e: nat, body: Body, end: nat)
    requires p <= |t| && first == ToBoundary(t, p, "--" + boundary, size) && !first.last && !first.eof
    requires ms == ParseMembers(t, first.pos, boundary)
    requires FindEnd(t, ms.pos, "\r\n--" + toboundary) == Some(e) && !CutShort(t, e)
    requires body == Multipart(t, p, boundary, toboundary, size) && end == p + body.length
    ensures end == e - |toboundary| - 4 && body.members == ms.parts
    ensures InOrder(ms.parts, first.pos, end)
  {
    MultipartEnd(t, p, boundary, toboundary, size, first, ms, e);
    MembersReach(t, first.pos, boundary, ms, end);
  }
}
