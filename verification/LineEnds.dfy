/** Line-end normalisation done by MimeInputSource while it fills its buffer.
    `Run` is the character transducer of the source, one character of memory and no lookahead;
    `Norm` is what it is for: CRLF, LF and a lone CR each become CRLF, a final CR is dropped. */
module LineEnds {

  const CRLF: string := "\r\n"

  /** What the transducer appends when it reads `c` after `last`. */
  function Step(last: char, c: char): string {
    if c == '\r' then (if last == '\r' then CRLF else "")
    else if c == '\n' then CRLF
    else if last == '\r' then CRLF + [c]
    else [c]
  }

  /** The last character read, `last` when nothing was. */
  function LastOf(last: char, raw: string): char {
    if raw == [] then last else raw[|raw| - 1]
  }

  /** The output of the transducer over `raw`. */
  function Run(last: char, raw: string): string
    decreases |raw|
  {
    if raw == [] then [] else Step(last, raw[0]) + Run(raw[0], raw[1..])
  }

  /** The normal form of a raw text, by lookahead. */
  function Norm(raw: string): string {
    if raw == [] then []
    else if raw[0] == '\n' then CRLF + Norm(raw[1..])
    else if raw[0] == '\r' then
      if |raw| == 1 then []
      else if raw[1] == '\n' then CRLF + Norm(raw[2..])
      else CRLF + Norm(raw[1..])
    else [raw[0]] + Norm(raw[1..])
  }

  function Flatten(chunks: seq<string>): string {
    if chunks == [] then [] else chunks[0] + Flatten(chunks[1..])
  }

  /** CR and LF occur only as CRLF pairs. */
  predicate Paired(t: string) {
    && (forall i :: 0 <= i < |t| && t[i] == '\r' ==> i + 1 < |t| && t[i + 1] == '\n')
    && (forall i :: 0 <= i < |t| && t[i] == '\n' ==> 0 < i && t[i - 1] == '\r')
  }

  /** Cutting the input anywhere does not change the output. */
  lemma {:induction false} RunConcat(last: char, a: string, b: string)
    ensures Run(last, a + b) == Run(last, a) + Run(LastOf(last, a), b)
    decreases |a|
  {
    if a == [] {
      assert a + b == b;
    } else {
      assert (a + b)[1..] == a[1..] + b;
      RunConcat(a[0], a[1..], b);
    }
  }

  lemma RunSnoc(last: char, a: string, c: char)
    ensures Run(last, a + [c]) == Run(last, a) + Step(LastOf(last, a), c)
  {
    RunConcat(last, a, [c]);
    assert Run(LastOf(last, a), [c]) == Step(LastOf(last, a), c) + Run(c, []);
  }

  /** At most two bytes for each byte read, and two more for a CR left over from before. */
  lemma {:induction false} RunLength(last: char, raw: string)
    ensures |Run(last, raw)| <= 2 * |raw| + (if last == '\r' then 1 else 0)
                                - (if LastOf(last, raw) == '\r' then 1 else 0)
    decreases |raw|
  {
    if raw != [] {
      RunLength(raw[0], raw[1..]);
    }
  }

  /** A non-empty read adds nothing exactly when it delivers a lone CR with no CR pending. */
  lemma AddsNothing(last: char, raw: string)
    requires raw != []
    ensures Run(last, raw) == [] <==> raw == "\r" && last != '\r'
  {
    if |raw| == 1 {
      assert raw == [raw[0]];
    } else if raw[0] == '\r' {
      assert Run(raw[0], raw[1..]) == Step(raw[0], raw[1]) + Run(raw[1], raw[1..][1..]);
    }
  }

  /** The transducer computes the normal form; a pending CR counts as part of the input. */
  lemma {:induction false} RunIsNorm(last: char, raw: string)
    ensures Run(last, raw) == if last == '\r' && raw != [] && raw[0] != '\n' then CRLF + Norm(raw) else Norm(raw)
    decreases |raw|
  {
    if raw != [] {
      var c, rest := raw[0], raw[1..];
      RunIsNorm(c, rest);
      var step, after := Step(last, c), Run(c, rest);
      assert Run(last, raw) == step + after;
      if c == '\r' {
        assert rest != [] ==> raw[1] == rest[0];
        if rest != [] && rest[0] == '\n' {
          assert rest[1..] == raw[2..];
        }
        assert "" + after == after;
      } else if c != '\n' {
        assert CRLF + [c] + Norm(rest) == CRLF + ([c] + Norm(rest));
      }
    }
  }

  /** The output of one fill for each chunk, the last character carried from fill to fill. */
  function FillAll(last: char, chunks: seq<string>): string
    decreases |chunks|
  {
    if chunks == [] then [] else Run(last, chunks[0]) + FillAll(LastOf(last, chunks[0]), chunks[1..])
  }

  lemma {:induction false} FillAllIsRun(last: char, chunks: seq<string>)
    ensures FillAll(last, chunks) == Run(last, Flatten(chunks))
    decreases |chunks|
  {
    if chunks != [] {
      FillAllIsRun(LastOf(last, chunks[0]), chunks[1..]);
      RunConcat(last, chunks[0], Flatten(chunks[1..]));
    }
  }

  /** However the raw input is cut into reads, the fills deliver its normal form. */
  lemma ChunkIndependence(chunks: seq<string>)
    ensures FillAll('\0', chunks) == Norm(Flatten(chunks))
  {
    FillAllIsRun('\0', chunks);
    RunIsNorm('\0', Flatten(chunks));
  }

  /** Normal text is exactly the text that normalisation leaves alone. */
  lemma {:induction false} NormFixed(t: string)
    ensures Norm(t) == t <==> Paired(t)
  {
    NormPaired(t);
    if Paired(t) {
      PairedFixed(t);
    }
  }

  lemma {:induction false} NormPaired(raw: string)
    ensures Paired(Norm(raw))
    decreases |raw|
  {
    if raw == [] {
    } else if raw[0] == '\n' {
      NormPaired(raw[1..]);
      PairedPrepend(CRLF, Norm(raw[1..]));
    } else if raw[0] == '\r' {
      if |raw| > 1 {
        var rest := if raw[1] == '\n' then raw[2..] else raw[1..];
        NormPaired(rest);
        PairedPrepend(CRLF, Norm(rest));
      }
    } else {
      NormPaired(raw[1..]);
      PairedPrepend([raw[0]], Norm(raw[1..]));
    }
  }

  lemma PairedPrepend(head: string, t: string)
    requires Paired(t)
    requires head == CRLF || (|head| == 1 && head[0] != '\r' && head[0] != '\n')
    ensures Paired(head + t)
  {
    var s := head + t;
    forall i | 0 <= i < |s| && s[i] == '\r' ensures i + 1 < |s| && s[i + 1] == '\n' {
      if i >= |head| { assert t[i - |head|] == '\r'; }
    }
    forall i | 0 <= i < |s| && s[i] == '\n' ensures 0 < i && s[i - 1] == '\r' {
      if i >= |head| { assert t[i - |head|] == '\n'; }
    }
  }

  lemma {:induction false} PairedFixed(t: string)
    requires Paired(t)
    ensures Norm(t) == t
    decreases |t|
  {
    if t != [] {
      var n := if t[0] == '\r' then 2 else 1;
      assert n == 2 ==> t[1] == '\n';
      PairedDrop(t, n);
      PairedFixed(t[n..]);
      assert t == t[..n] + t[n..];
    }
  }

  lemma PairedDrop(t: string, n: nat)
    requires Paired(t) && 0 < n <= |t| && t[n - 1] != '\r'
    ensures Paired(t[n..])
  {
    var s := t[n..];
    forall i | 0 <= i < |s| && s[i] == '\r' ensures i + 1 < |s| && s[i + 1] == '\n' {
      assert t[i + n] == '\r';
    }
    forall i | 0 <= i < |s| && s[i] == '\n' ensures 0 < i && s[i - 1] == '\r' {
      assert t[i + n] == '\n';
    }
  }

  /** Normalising twice changes nothing. */
  lemma NormIdempotent(raw: string)
    ensures Norm(Norm(raw)) == Norm(raw)
  {
    NormPaired(raw);
    PairedFixed(Norm(raw));
  }
}
