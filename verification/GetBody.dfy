/** Re-reading a recorded body from the source, and what a parse records about extents. */
module GetBody {
  import opened InputSource
  import opened HeaderText
  import opened MimeSpec

  /** The source computes extents in 32-bit unsigned integers. */
  const U32: nat := 0x1_0000_0000

  function Min(a: nat, b: nat): nat {
    if a <= b then a else b
  }

  /** How many characters are asked for after the length is limited to the body. */
  function Limited(part: Part, startoffset: nat, length: nat): nat {
    if (startoffset + length) % U32 > part.bodyLength then (part.bodyLength - startoffset) % U32 else length
  }

  /** What is read: from the wrapped start, as far as the text goes. */
  function BodyRead(t: string, part: Part, startoffset: nat, length: nat): string {
    var lo := Min((part.bodyStart + startoffset) % U32, |t|);
    t[lo..Min(lo + Limited(part, startoffset, length), |t|)]
  }

  /** Append a piece of the body to `s`. The source is reset first, so it may have been left in any state. */
  method GetBody(ms: MimeInputSource, part: Part, s: string, startoffset: nat, length: nat) returns (r: string)
    requires ms.Built() && NoStall('\0', ms.chunks) && startoffset < U32 && length < U32
    modifies ms, ms.data
    ensures ms.Ready()
    ensures r == s + BodyRead(ms.Text(), part, startoffset, length)
  {
    ghost var t := ms.Text();
    ms.Reset();
    ms.Seek((part.bodyStart + startoffset) % U32);
    ghost var lo := ms.offset;
    var todo := length;
    if (startoffset + length) % U32 > part.bodyLength {
      todo := (part.bodyLength - startoffset) % U32;
    }
    r := s;
    for i := 0 to todo
      invariant ms.Ready() && ms.offset == lo + i
      invariant r == s + t[lo..lo + i]
    {
      var ok, c := ms.Next();
      if !ok {
        break;
      }
      r := r + [c];
    }
  }

  /** The piece of the body that was asked for. */
  function Wanted(t: string, part: Part, startoffset: nat, length: nat): string
    requires part.bodyStart + part.bodyLength <= |t|
  {
    var from := Min(startoffset, part.bodyLength);
    t[part.bodyStart + from..part.bodyStart + Min(startoffset + length, part.bodyLength)]
  }

  /** With extents that fit in 32 bits, getBody reads exactly what was asked for unless the start lies
      beyond the body but inside the text: there the length wraps and the rest of the text is read. */
  lemma BodyReadExact(t: string, part: Part, startoffset: nat, length: nat)
    requires |t| < U32 && part.bodyStart + part.bodyLength <= |t|
    requires part.bodyStart + startoffset < U32 && startoffset + length < U32
    ensures BodyRead(t, part, startoffset, length) == Wanted(t, part, startoffset, length) <==>
            startoffset <= part.bodyLength || part.bodyStart + startoffset >= |t|
  {
    var lo := Min(part.bodyStart + startoffset, |t|);
    if startoffset > part.bodyLength {
      assert Limited(part, startoffset, length) == part.bodyLength - startoffset + U32;
      assert lo + Limited(part, startoffset, length) >= |t|;
      assert Wanted(t, part, startoffset, length) == "";
    }
  }
}
