/** The character source of the MIME parser: a ring of 16384 slots refilled by reads of at most
    4096 raw bytes, normalising line ends on the way in, with one-character rewind and seek.
    Proved to read exactly the normal form of the raw input, as an unbounded list would, as long as
    nobody rewinds more than WINDOW characters from the furthest point read. */
module InputSource {
  import opened Closed
  import opened LineEnds

  const RING: nat := 16384
  const READ: nat := 4096
  const WINDOW: nat := 8191

  /** The reads a raw source delivers: none is empty and none exceeds the read buffer. */
  predicate ValidChunks(chunks: seq<string>) {
    forall i :: 0 <= i < |chunks| ==> 1 <= |chunks[i]| <= READ
  }

  /** No read adds nothing: none is a lone CR unless a CR is pending. */
  predicate NoStall(last: char, chunks: seq<string>)
    decreases |chunks|
  {
    chunks == [] || (!(chunks[0] == "\r" && last != '\r') && NoStall(LastOf(last, chunks[0]), chunks[1..]))
  }

  /** The ring `d` holds the last RING characters of everything ever put into it. */
  ghost predicate Holds(d: seq<char>, out: string) {
    && |d| == RING
    && forall k {:trigger out[k]} :: 0 <= k < |out| && |out| <= k + RING ==> d[k % RING] == out[k]
  }

  lemma HoldsPush(d: seq<char>, out: string, c: char)
    requires Holds(d, out)
    ensures Holds(d[|out| % RING := c], out + [c])
  {
    var out' := out + [c];
    forall k | 0 <= k < |out'| && |out'| <= k + RING ensures d[|out| % RING := c][k % RING] == out'[k] {
      if k < |out| {
        assert out'[k] == out[k];
        assert k % RING != |out| % RING;
      }
    }
  }

  lemma HoldsAt(d: seq<char>, out: string, k: nat)
    requires Holds(d, out) && k < |out| <= k + RING
    ensures d[k % RING] == out[k]
  {
  }

  lemma {:induction false} FlattenSnoc(chunks: seq<string>, n: nat)
    requires n < |chunks|
    ensures Flatten(chunks[..n + 1]) == Flatten(chunks[..n]) + chunks[n]
    decreases n
  {
    if n > 0 {
      assert chunks[..n + 1][1..] == chunks[1..][..n];
      assert chunks[..n][1..] == chunks[1..][..n - 1];
      FlattenSnoc(chunks[1..], n - 1);
    } else {
      assert chunks[..1] == [chunks[0]];
      assert Flatten(chunks[..1]) == chunks[0] + Flatten(chunks[..1][1..]);
    }
  }

  lemma {:induction false} FlattenSplit(chunks: seq<string>, n: nat)
    requires n <= |chunks|
    ensures Flatten(chunks) == Flatten(chunks[..n]) + Flatten(chunks[n..])
    decreases |chunks| - n
  {
    if n < |chunks| {
      FlattenSplit(chunks, n + 1);
      FlattenSnoc(chunks, n);
      assert chunks[n..] == [chunks[n]] + chunks[n + 1..];
    } else {
      assert chunks[..n] == chunks;
    }
  }

  /** What the first `n` reads delivered is a prefix of the whole text. */
  lemma DeliveredPrefix(chunks: seq<string>, n: nat)
    requires n <= |chunks|
    ensures Run('\0', Flatten(chunks[..n])) <= Norm(Flatten(chunks))
    ensures n == |chunks| ==> Run('\0', Flatten(chunks[..n])) == Norm(Flatten(chunks))
  {
    FlattenSplit(chunks, n);
    RunConcat('\0', Flatten(chunks[..n]), Flatten(chunks[n..]));
    RunIsNorm('\0', Flatten(chunks));
    if n == |chunks| {
      assert chunks[..n] == chunks;
    }
  }

  /** A schedule without stalls never offers a stalling read. */
  lemma {:induction false} NoStallAt(last: char, chunks: seq<string>, n: nat)
    requires NoStall(last, chunks) && n < |chunks|
    ensures !(chunks[n] == "\r" && LastOf(last, Flatten(chunks[..n])) != '\r')
    decreases n
  {
    if n > 0 {
      NoStallAt(LastOf(last, chunks[0]), chunks[1..], n - 1);
      assert chunks[..n][1..] == chunks[1..][..n - 1];
      assert Flatten(chunks[..n]) == chunks[0] + Flatten(chunks[1..][..n - 1]);
    }
  }

  /** The reads of MimeInputSourceStream: whole buffers, then what is left. */
  function StreamReads(raw: string): seq<string>
    decreases |raw|
  {
    if raw == [] then [] else if |raw| <= READ then [raw] else [raw[..READ]] + StreamReads(raw[READ..])
  }

  lemma {:induction false} StreamReadsFlatten(raw: string)
    ensures ValidChunks(StreamReads(raw)) && Flatten(StreamReads(raw)) == raw
    decreases |raw|
  {
    if |raw| > READ {
      StreamReadsFlatten(raw[READ..]);
      assert StreamReads(raw)[1..] == StreamReads(raw[READ..]);
    } else if raw != [] {
      assert StreamReads(raw)[1..] == [];
    }
  }

  /** The last read is a single CR that no CR precedes. */
  predicate EndsInLoneRead(last: char, raw: string) {
    |raw| % READ == 1 && raw[|raw| - 1] == '\r' && LastOf(last, raw[..|raw| - 1]) != '\r'
  }

  lemma EndsInLoneReadDrop(last: char, raw: string)
    requires |raw| > READ
    ensures EndsInLoneRead(last, raw) <==> EndsInLoneRead(LastOf(last, raw[..READ]), raw[READ..])
  {
    assert |raw[READ..]| % READ == |raw| % READ;
  }

  /** A stream stalls exactly when it ends in such a read. */
  lemma {:induction false} StreamStalls(last: char, raw: string)
    ensures NoStall(last, StreamReads(raw)) <==> !EndsInLoneRead(last, raw)
    decreases |raw|
  {
    var cut := StreamReads(raw);
    if |raw| > READ {
      StreamStalls(LastOf(last, raw[..READ]), raw[READ..]);
      EndsInLoneReadDrop(last, raw);
      assert cut[1..] == StreamReads(raw[READ..]) && cut[0] == raw[..READ];
      assert |cut[0]| == READ;
      assert cut[0] != "\r";
    } else if raw != [] {
      assert cut[0] == raw && NoStall(LastOf(last, raw), cut[1..]);
      assert |raw| == 1 ==> raw == [raw[0]];
    }
  }

  class MimeInputSource {
    const chunks: seq<string>
    const data: array<char>
    var nextChunk: nat
    var offset: nat
    var tail: nat
    var head: nat
    var lastChar: char
    // The furthest offset reached since the last reset.
    ghost var high: nat

    /** The text this source delivers. */
    function Text(): string {
      Norm(Flatten(chunks))
    }

    ghost function Delivered(): string
      reads this
      requires nextChunk <= |chunks|
    {
      Run('\0', Flatten(chunks[..nextChunk]))
    }

    /** What construction alone guarantees. */
    predicate Built()
    {
      ValidChunks(chunks) && data.Length == RING
    }

    /** The ring is consistent, apart from the order of head and tail. */
    ghost predicate Shape()
      reads this, data
    {
      && ValidChunks(chunks)
      && nextChunk <= |chunks|
      && Holds(data[..], Delivered())
      && tail == |Delivered()|
      && lastChar == LastOf('\0', Flatten(chunks[..nextChunk]))
      && head == offset <= high <= offset + WINDOW
    }

    ghost predicate Valid()
      reads this, data
    {
      Shape() && high <= tail <= high + 2 * READ + 1
    }

    /** The next getChar would refill and the refill would add nothing. */
    predicate WouldStall()
      reads this
    {
      head == tail && nextChunk < |chunks| && chunks[nextChunk] == "\r" && lastChar != '\r'
    }

    /** What the parser needs of its source, and keeps: between calls any character read since the last
        one can be given back. */
    ghost predicate Ready()
      reads this, data
    {
      && offset <= |Text()| && offset <= high <= offset + WINDOW
      && forall look :: Look(look) ==> Sound()
    }

    ghost predicate Sound()
      reads this, data
    {
      Valid() && NoStall('\0', chunks) && offset <= |Text()|
    }

    /** Open or close the definition of Ready, which the parser's proofs never need to see. */
    lemma ReadyIsSound()
      ensures Ready() <==> Sound()
    {
      if Ready() {
        assert Look(Eye);
      }
    }

    constructor (chunks: seq<string>)
      requires ValidChunks(chunks)
      ensures Built() && Valid() && this.chunks == chunks && offset == high == 0
      ensures fresh(data)
      ensures NoStall('\0', chunks) ==> Ready()
    {
      this.chunks := chunks;
      data := new char[RING](_ => '\0');
      nextChunk, offset, tail, head, high := 0, 0, 0, 0, 0;
      lastChar := '\0';
      new;
      ReadyIsSound();
    }

    /** One read of the raw source, empty at its end. */
    method FillRaw() returns (raw: string)
      requires nextChunk <= |chunks|
      modifies this`nextChunk
      ensures if old(nextChunk) < |chunks| then raw == chunks[old(nextChunk)] && nextChunk == old(nextChunk) + 1
              else raw == "" && nextChunk == old(nextChunk)
    {
      if nextChunk < |chunks| {
        raw := chunks[nextChunk];
        nextChunk := nextChunk + 1;
      } else {
        raw := "";
      }
    }

    /** Append one character to the ring. */
    method Put(c: char, ghost out: string)
      requires Holds(data[..], out) && tail == |out|
      modifies data, this`tail
      ensures Holds(data[..], out + [c]) && tail == |out| + 1
    {
      HoldsPush(data[..], out, c);
      ghost var before := data[..];
      data[tail % RING] := c;
      tail := tail + 1;
      assert data[..] == before[|out| % RING := c];
    }

    method PutCRLF(ghost out: string)
      requires Holds(data[..], out) && tail == |out|
      modifies data, this`tail
      ensures Holds(data[..], out + CRLF) && tail == |out| + 2
    {
      Put('\r', out);
      Put('\n', out + ['\r']);
      assert out + ['\r'] + ['\n'] == out + CRLF;
    }

    /** Append what one raw character contributes. */
    method Deliver(c: char, ghost out: string)
      requires Holds(data[..], out) && tail == |out|
      modifies data, this`tail
      ensures Holds(data[..], out + Step(lastChar, c)) && tail == |out + Step(lastChar, c)|
    {
      if c == '\r' {
        if lastChar == '\r' {
          PutCRLF(out);
        }
      } else if c == '\n' {
        PutCRLF(out);
      } else if lastChar == '\r' {
        PutCRLF(out);
        Put(c, out + CRLF);
        assert out + CRLF + [c] == out + Step(lastChar, c);
      } else {
        Put(c, out);
      }
    }

    /** All characters of one read, `out` being what the ring held. */
    method DeliverAll(raw: string, ghost out: string)
      requires data.Length == RING && |raw| <= READ && Holds(data[..], out) && tail == |out|
      modifies data, this`tail, this`lastChar
      ensures lastChar == LastOf(old(lastChar), raw)
      ensures Holds(data[..], out + Run(old(lastChar), raw)) && tail == |out + Run(old(lastChar), raw)|
    {
      ghost var last, all := lastChar, out;
      for i := 0 to |raw|
        invariant lastChar == LastOf(last, raw[..i]) && all == out + Run(last, raw[..i])
        invariant Holds(data[..], all) && tail == |all|
      {
        var c := raw[i];
        assert raw[..i + 1] == raw[..i] + [c];
        RunSnoc(last, raw[..i], c);
        Deliver(c, all);
        assert all + Step(lastChar, c) == out + Run(last, raw[..i + 1]);
        all := all + Step(lastChar, c);
        lastChar := c;
      }
      assert raw[..|raw|] == raw;
    }

    /** Refill the ring from one read. */
    method FillInputBuffer() returns (ok: bool)
      requires Shape() && head == tail
      modifies data, this`nextChunk, this`tail, this`lastChar
      ensures Shape()
      ensures ok == (old(nextChunk) < |chunks|)
      ensures !ok ==> tail == old(tail)
      ensures !ok ==> Delivered() == Text()
      ensures old(tail) <= tail <= old(tail) + 2 * READ + 1
      ensures ok ==> (tail == old(tail) <==> old(WouldStall()))
    {
      ghost var n := nextChunk;
      var raw := FillRaw();
      if raw == "" {
        assert chunks[..nextChunk] == chunks;
        DeliveredPrefix(chunks, nextChunk);
        return false;
      }
      ghost var base, last := Run('\0', Flatten(chunks[..n])), lastChar;
      DeliverAll(raw, base);
      FlattenSnoc(chunks, n);
      RunConcat('\0', Flatten(chunks[..n]), raw);
      RunLength(last, raw);
      AddsNothing(last, raw);
      return true;
    }

    /** Back to the start of the raw source, whatever happened before. */
    method Reset()
      requires Built()
      modifies this
      ensures Valid() && offset == high == 0
      ensures NoStall('\0', chunks) ==> Ready()
    {
      offset, head, tail := 0, 0, 0;
      lastChar := '\0';
      nextChunk := 0;
      high := 0;
      ReadyIsSound();
    }

    /** Read one character: the next one of the text, or failure at its end. The one exception is a
        refill that adds nothing, which makes the source hand out a stale character and lose its
        invariant. */
    method GetChar() returns (ok: bool, c: char)
      requires Valid() && offset <= |Text()|
      modifies this, data
      ensures Valid() <==> !old(WouldStall())
      ensures old(WouldStall()) ==> ok && head == tail + 1
      ensures Valid() ==> ok == (old(offset) < |Text()|)
      ensures Valid() && ok ==> c == Text()[old(offset)] && offset == old(offset) + 1
      ensures Valid() && ok ==> high == if offset > old(high) then offset else old(high)
      ensures Valid() && !ok ==> offset == old(offset) && high == old(high)
    {
      DeliveredPrefix(chunks, nextChunk);
      if head == tail {
        var filled := FillInputBuffer();
        DeliveredPrefix(chunks, nextChunk);
        if !filled {
          return false, '\0';
        }
      }
      ghost var out := Delivered();
      if head < tail {
        HoldsAt(data[..], out, head);
      }
      c := data[head % RING];
      head := head + 1;
      offset := offset + 1;
      high := if offset > high then offset else high;
      ok := true;
    }

    /** GetChar on a source that never stalls. */
    method Next() returns (ok: bool, c: char)
      requires Ready()
      modifies this, data
      ensures Ready()
      ensures ok == (old(offset) < |Text()|)
      ensures ok ==> c == Text()[old(offset)] && offset == old(offset) + 1
      ensures !ok ==> offset == old(offset)
      ensures high == if offset > old(high) then offset else old(high)
    {
      ReadyIsSound();
      if nextChunk < |chunks| {
        NoStallAt('\0', chunks, nextChunk);
      }
      ok, c := GetChar();
      ReadyIsSound();
    }

    /** Give back one character. */
    method UngetChar()
      requires Valid() && 0 < offset && high < offset + WINDOW
      modifies this`head, this`offset
      ensures Valid() && offset == old(offset) - 1
    {
      head := head - 1;
      offset := offset - 1;
    }

    /** Give back `n` characters, as long as that stays inside the window. */
    method UngetChars(n: nat)
      requires Ready() && n <= offset && high <= offset - n + WINDOW
      modifies this`head, this`offset
      ensures Ready() && offset == old(offset) - n
    {
      ReadyIsSound();
      ghost var to := offset - n;
      for i := 0 to n
        invariant Valid() && offset == to + n - i
      {
        UngetChar();
      }
      ReadyIsSound();
    }

    /** Move to an offset, or to the end of the text when it lies beyond. */
    method Seek(to: nat)
      requires Ready()
      modifies this, data
      ensures Ready() && offset == if to <= |Text()| then to else |Text()|
    {
      if offset > to {
        ReadyIsSound();
        Reset();
      }
      while to > offset
        invariant Ready() && offset <= to
      {
        var ok, _ := Next();
        if !ok {
          break;
        }
      }
    }
  }
}
