/** Whole runs of the character source: any mix of reading and giving back that stays in the window reads
    what a list would. */
module Reader {
  import opened LineEnds
  import opened InputSource

  datatype Op = Get | Unget

  /** Nothing is given back before the start, nor more than the window behind the furthest point read. */
  predicate Legal(t: string, ops: seq<Op>, pos: nat, high: nat)
    decreases |ops|
  {
    ops == [] ||
    match ops[0]
    case Get =>
      var next := if pos < |t| then pos + 1 else pos;
      Legal(t, ops[1..], next, if next > high then next else high)
    case Unget => 0 < pos && high < pos + WINDOW && Legal(t, ops[1..], pos - 1, high)
  }

  /** What a reader of the list gets: a character, or nothing at the end. */
  function ListRead(t: string, ops: seq<Op>, pos: nat): seq<string>
    decreases |ops|
  {
    if ops == [] then []
    else
      match ops[0]
      case Get => if pos < |t| then [[t[pos]]] + ListRead(t, ops[1..], pos + 1) else [""] + ListRead(t, ops[1..], pos)
      case Unget => if pos > 0 then ListRead(t, ops[1..], pos - 1) else []
  }

  /** One operation on the ring. */
  method Do(ms: MimeInputSource, op: Op) returns (got: seq<string>)
    requires ms.Valid() && NoStall('\0', ms.chunks) && ms.offset <= |ms.Text()|
    requires op.Unget? ==> 0 < ms.offset && ms.high < ms.offset + WINDOW
    modifies ms, ms.data
    ensures ms.Valid() && ms.offset <= |ms.Text()|
    ensures var t, pos := ms.Text(), old(ms.offset);
            if op.Get? then
              && got == [if pos < |t| then [t[pos]] else ""] && ms.offset == (if pos < |t| then pos + 1 else pos)
              && ms.high == (if ms.offset > old(ms.high) then ms.offset else old(ms.high))
            else got == [] && ms.offset == pos - 1 && ms.high == old(ms.high)
  {
    match op
    case Get =>
      if ms.nextChunk < |ms.chunks| {
        NoStallAt('\0', ms.chunks, ms.nextChunk);
      }
      var ok, c := ms.GetChar();
      got := [if ok then [c] else ""];
    case Unget =>
      ms.UngetChar();
      got := [];
  }

  /** The same through the ring, for any raw input cut into any reads that do not stall. */
  method Replay(chunks: seq<string>, ops: seq<Op>) returns (read: seq<string>)
    requires ValidChunks(chunks) && NoStall('\0', chunks) && Legal(Norm(Flatten(chunks)), ops, 0, 0)
    ensures read == ListRead(Norm(Flatten(chunks)), ops, 0)
  {
    var ms := new MimeInputSource(chunks);
    ghost var t := ms.Text();
    read := [];
    assert ops[0..] == ops;
    for n := 0 to |ops|
      invariant fresh(ms) && fresh(ms.data) && ms.chunks == chunks && ms.Valid() && ms.offset <= |t|
      invariant Legal(t, ops[n..], ms.offset, ms.high)
      invariant read + ListRead(t, ops[n..], ms.offset) == ListRead(t, ops, 0)
    {
      Unfold(t, ops, n, ms.offset, ms.high, read);
      var got := Do(ms, ops[n]);
      read := read + got;
    }
    assert ops[|ops|..] == [];
    assert read + [] == read;
  }

  lemma Unfold(t: string, ops: seq<Op>, n: nat, pos: nat, high: nat, read: seq<string>)
    requires n < |ops| && pos <= |t| && Legal(t, ops[n..], pos, high)
    ensures ops[n].Get? ==>
      var next := if pos < |t| then pos + 1 else pos;
      && Legal(t, ops[n + 1..], next, if next > high then next else high)
      && read + ListRead(t, ops[n..], pos) ==
         read + [if pos < |t| then [t[pos]] else ""] + ListRead(t, ops[n + 1..], next)
    ensures ops[n].Unget? ==>
      && 0 < pos && high < pos + WINDOW && Legal(t, ops[n + 1..], pos - 1, high)
      && read + ListRead(t, ops[n..], pos) == read + [] + ListRead(t, ops[n + 1..], pos - 1)
  {
    assert ops[n..][0] == ops[n] && ops[n..][1..] == ops[n + 1..];
    assert read + [] == read;
    if ops[n].Get? {
      var got := [if pos < |t| then [t[pos]] else ""];
      var rest := ListRead(t, ops[n + 1..], if pos < |t| then pos + 1 else pos);
      assert read + (got + rest) == read + got + rest;
    }
  }
}
