/** The n-gram splitter: what a run of n-grammed characters gives in each output mode. */
module NGrams {
  import opened Closed
  import opened SplitText

  /** The array sizes of the splitter bound the n-gram length. */
  const MAX_NGRAM: nat := 5

  /** What a section of text gave, where it ended, and the position reached. */
  datatype Grams = Grams(terms: seq<Term>, next: nat, wordpos: int)

  predicate IsBlank(b: Octet) {
    b.k == 0 && b.c in {13, 10, 12, 32, 9}
  }

  function TrimFront(w: seq<Octet>): seq<Octet> {
    if w != [] && IsBlank(w[0]) then TrimFront(w[1..]) else w
  }

  function TrimBack(w: seq<Octet>): seq<Octet> {
    if w != [] && IsBlank(w[|w| - 1]) then TrimBack(w[..|w| - 1]) else w
  }

  function TrimWord(w: seq<Octet>): seq<Octet> {
    TrimBack(TrimFront(w))
  }

  /** A character that hands the text back to the word splitter. */
  predicate Breaks(c: int, spaceBefore: bool) {
    (spaceBefore || c > 255 || IsAsciiLetter(c)) && !IsNgrammed(c)
  }

  /** The term made of characters `x` to `y` at position `pos`. */
  function Gram(t: seq<nat>, x: nat, y: nat, pos: int): Term
    requires x <= y <= |t|
  {
    Term(TrimWord(Bytes(t, x, y)), pos, Bpos(t, x), Bpos(t, y))
  }

  /** The grams ending at `y` that begin at `x`, `x + 1`, and so on up to `to`, the last character being
      at position `pos`. */
  function GramsEnding(t: seq<nat>, x: nat, to: nat, y: nat, pos: int): seq<Term>
    requires to <= y <= |t|
  {
    if x >= to then [] else seq(to - x, k requires 0 <= k < to - x => Gram(t, x + k, y, pos - (y - x - k - 1)))
  }

  /** What one character adds when `count` characters are in the window with it. */
  function GramsAt(mode: Mode, n: nat, t: seq<nat>, i: nat, count: nat, pos: int): seq<Term>
    requires i < |t| && 0 < count <= i + 1
  {
    if mode.onlyspans && count != n then []
    else
      var from := if mode.nospans then i else i + 1 - count;
      var to := if mode.onlyspans then i + 2 - count else i + 1;
      GramsEnding(t, from, to, i + 1, pos)
  }

  /** Window size after reading a character. */
  function Grow(count: nat, n: nat): nat {
    if count == n then n else count + 1
  }

  /** The section from character `i` on, `count` characters being in the window. */
  function Section(cfg: Config, mode: Mode, n: nat, t: seq<nat>, i: nat, count: nat, space: bool, pos: int): Grams
    requires count <= i <= |t| && count <= n && n > 0
    decreases |t| - i
  {
    if i == |t| || Breaks(t[i], space) then
      Grams(if mode.onlyspans && count > 0 && count != n then [Gram(t, i - count, i, pos - count)] else [], i, pos)
    else if IsSpace(cfg, t[i]) then Section(cfg, mode, n, t, i + 1, 0, true, pos)
    else
      var c := Grow(count, n);
      var here := GramsAt(mode, n, t, i, c, pos);
      var rest := Section(cfg, mode, n, t, i + 1, if mode.onlyspans && c == n then 0 else c, false, pos + 1);
      rest.(terms := here + rest.terms)
  }

  /** A section goes forward, and so does the position. */
  lemma {:induction false} SectionAdvances(cfg: Config, mode: Mode, n: nat, t: seq<nat>, i: nat, count: nat, space: bool,
                                           pos: int)
    requires count <= i <= |t| && count <= n && n > 0
    ensures var r := Section(cfg, mode, n, t, i, count, space, pos);
            && i <= r.next <= |t| && pos <= r.wordpos
            && (i < |t| && !Breaks(t[i], space) ==> i < r.next)
    decreases |t| - i
  {
    if i < |t| && !Breaks(t[i], space) {
      if IsSpace(cfg, t[i]) {
        SectionAdvances(cfg, mode, n, t, i + 1, 0, true, pos);
      } else {
        var c := Grow(count, n);
        SectionAdvances(cfg, mode, n, t, i + 1, if mode.onlyspans && c == n then 0 else c, false, pos + 1);
      }
    }
  }

  /** `terms` and what the section still gives from here make up `whole`. */
  ghost predicate Left(cfg: Config, mode: Mode, n: nat, t: seq<nat>, i: nat, count: nat, space: bool, pos: int,
                       terms: seq<Term>, whole: Grams)
    requires count <= i <= |t| && count <= n && n > 0
  {
    forall eye :: Look(eye) ==>
      var rest := Section(cfg, mode, n, t, i, count, space, pos); whole == rest.(terms := terms + rest.terms)
  }

  lemma LeftIs(cfg: Config, mode: Mode, n: nat, t: seq<nat>, i: nat, count: nat, space: bool, pos: int,
               terms: seq<Term>, whole: Grams)
    requires count <= i <= |t| && count <= n && n > 0
    ensures Left(cfg, mode, n, t, i, count, space, pos, terms, whole) <==>
            var rest := Section(cfg, mode, n, t, i, count, space, pos); whole == rest.(terms := terms + rest.terms)
  {
    if Left(cfg, mode, n, t, i, count, space, pos, terms, whole) {
      assert Look(Eye);
    }
  }

  lemma LeftSpace(cfg: Config, mode: Mode, n: nat, t: seq<nat>, i: nat, count: nat, space: bool, pos: int,
                  terms: seq<Term>, whole: Grams)
    requires count <= i < |t| && count <= n && n > 0 && !Breaks(t[i], space) && IsSpace(cfg, t[i])
    requires Left(cfg, mode, n, t, i, count, space, pos, terms, whole)
    ensures Left(cfg, mode, n, t, i + 1, 0, true, pos, terms, whole)
  {
    LeftIs(cfg, mode, n, t, i, count, space, pos, terms, whole);
    LeftIs(cfg, mode, n, t, i + 1, 0, true, pos, terms, whole);
  }

  lemma LeftChar(cfg: Config, mode: Mode, n: nat, t: seq<nat>, i: nat, count: nat, space: bool, pos: int,
                 terms: seq<Term>, whole: Grams, c: nat, here: seq<Term>)
    requires count <= i < |t| && count <= n && n > 0 && !Breaks(t[i], space) && !IsSpace(cfg, t[i])
    requires c == Grow(count, n) && here == GramsAt(mode, n, t, i, c, pos)
    requires Left(cfg, mode, n, t, i, count, space, pos, terms, whole)
    ensures Left(cfg, mode, n, t, i + 1, if mode.onlyspans && c == n then 0 else c, false, pos + 1, terms + here, whole)
  {
    var c' := if mode.onlyspans && c == n then 0 else c;
    LeftIs(cfg, mode, n, t, i, count, space, pos, terms, whole);
    LeftIs(cfg, mode, n, t, i + 1, c', false, pos + 1, terms + here, whole);
    var rest := Section(cfg, mode, n, t, i + 1, c', false, pos + 1);
    assert terms + (here + rest.terms) == terms + here + rest.terms;
  }

  lemma LeftEnd(cfg: Config, mode: Mode, n: nat, t: seq<nat>, i: nat, count: nat, space: bool, pos: int,
                terms: seq<Term>, whole: Grams)
    requires count <= i <= |t| && count <= n && n > 0 && (i == |t| || Breaks(t[i], space))
    requires Left(cfg, mode, n, t, i, count, space, pos, terms, whole)
    ensures whole == Grams(
      terms + (if mode.onlyspans && count > 0 && count != n then [Gram(t, i - count, i, pos - count)] else []), i, pos)
  {
    LeftIs(cfg, mode, n, t, i, count, space, pos, terms, whole);
  }

  /** The window arrays describe characters `x` to `i`: where they are in the text, and where they are
      in the local buffer. */
  ghost predicate Window(t: seq<nat>, x: nat, i: nat, boffs: seq<nat>, myboffs: seq<nat>, mybuf: seq<Octet>) {
    && x <= i <= |t| && i - x <= |boffs| && i - x <= |myboffs|
    && forall k: nat :: k < i - x ==> Slot(t, x + k, i, boffs[k], myboffs[k], mybuf)
  }

  /** One window entry: the byte offset of character `x`, and the buffer from `at` on holding it and
      what follows. */
  ghost predicate Slot(t: seq<nat>, x: nat, i: nat, boff: nat, at: nat, mybuf: seq<Octet>) {
    x <= i <= |t| && boff == Bpos(t, x) && at <= |mybuf| && mybuf[at..] == Bytes(t, x, i)
  }

  lemma SlotGrow(t: seq<nat>, x: nat, i: nat, boff: nat, at: nat, mybuf: seq<Octet>)
    requires i < |t| && Slot(t, x, i, boff, at, mybuf)
    ensures Slot(t, x, i + 1, boff, at, mybuf + Enc(t[i]))
  {
    assert (mybuf + Enc(t[i]))[at..] == mybuf[at..] + Enc(t[i]);
  }

  lemma SlotNew(t: seq<nat>, i: nat, mybuf: seq<Octet>)
    requires i < |t|
    ensures Slot(t, i, i + 1, Bpos(t, i), |mybuf|, mybuf + Enc(t[i]))
  {
    assert (mybuf + Enc(t[i]))[|mybuf|..] == Bytes(t, i, i) + Enc(t[i]);
  }

  /** A full window loses its oldest character. */
  lemma WindowDrop(t: seq<nat>, x: nat, i: nat, boffs: seq<nat>, myboffs: seq<nat>, boffs': seq<nat>, myboffs': seq<nat>,
                   mybuf: seq<Octet>)
    requires x < i && Window(t, x, i, boffs, myboffs, mybuf) && |boffs'| == |boffs| && |myboffs'| == |myboffs|
    requires forall k: nat :: k < i - x - 1 ==> boffs'[k] == boffs[k + 1] && myboffs'[k] == myboffs[k + 1]
    ensures Window(t, x + 1, i, boffs', myboffs', mybuf)
  {
    forall k: nat | k < i - (x + 1) ensures Slot(t, x + 1 + k, i, boffs'[k], myboffs'[k], mybuf) {
      assert Slot(t, x + (k + 1), i, boffs[k + 1], myboffs[k + 1], mybuf);
    }
  }

  /** A window with room takes the next character. */
  lemma WindowAdd(t: seq<nat>, x: nat, i: nat, boffs: seq<nat>, myboffs: seq<nat>, boffs': seq<nat>, myboffs': seq<nat>,
                  mybuf: seq<Octet>)
    requires i < |t| && Window(t, x, i, boffs, myboffs, mybuf) && i - x < |boffs| && i - x < |myboffs|
    requires boffs' == boffs[i - x := Bpos(t, i)] && |myboffs'| == |myboffs| && myboffs'[i - x] == |mybuf|
    requires forall k: nat :: k < i - x ==> myboffs'[k] == myboffs[k]
    ensures Window(t, x, i + 1, boffs', myboffs', mybuf + Enc(t[i]))
  {
    forall k: nat | k < i + 1 - x ensures Slot(t, x + k, i + 1, boffs'[k], myboffs'[k], mybuf + Enc(t[i])) {
      if k < i - x {
        SlotGrow(t, x + k, i, boffs[k], myboffs[k], mybuf);
      } else {
        SlotNew(t, i, mybuf);
      }
    }
  }

  class CJKSplitter {
    const ngramLen: nat

    constructor (ngramLen: nat)
      ensures this.ngramLen == ngramLen
    {
      this.ngramLen := ngramLen;
    }

    /** Room for one more character: the oldest one is dropped when the window is full. */
    method Shift(boffs: array<nat>, myboffs: array<nat>, nchars: nat)
      requires 0 < nchars <= boffs.Length && nchars <= myboffs.Length && boffs != myboffs
      modifies boffs, myboffs
      ensures forall k :: 0 <= k < nchars - 1 ==> boffs[k] == old(boffs[k + 1]) && myboffs[k] == old(myboffs[k + 1])
    {
      for i := 0 to nchars - 1
        invariant forall k :: 0 <= k < i ==> boffs[k] == old(boffs[k + 1])
        invariant forall k :: i <= k < nchars ==> boffs[k] == old(boffs[k])
        invariant forall k :: 0 <= k < nchars ==> myboffs[k] == old(myboffs[k])
      {
        boffs[i] := boffs[i + 1];
      }
      for i := 0 to nchars - 1
        invariant forall k :: 0 <= k < i ==> myboffs[k] == old(myboffs[k + 1])
        invariant forall k :: i <= k < nchars ==> myboffs[k] == old(myboffs[k])
        invariant forall k :: 0 <= k < nchars - 1 ==> boffs[k] == old(boffs[k + 1])
      {
        myboffs[i] := myboffs[i + 1];
      }
    }

    /** Note where the newest character is. */
    method Store(boffs: array<nat>, myboffs: array<nat>, k: nat, boff: nat, at: nat)
      requires k < boffs.Length && k < myboffs.Length && boffs != myboffs
      modifies boffs, myboffs
      ensures boffs[..] == old(boffs[..])[k := boff] && myboffs[..] == old(myboffs[..])[k := at]
    {
      myboffs[k] := at;
      boffs[k] := boff;
    }

    /** One character into the window. */
    method Push(t: seq<nat>, i: nat, nchars: nat, boffs: array<nat>, myboffs: array<nat>, mybuf: seq<Octet>)
      returns (nchars': nat, mybuf': seq<Octet>)
      requires nchars <= i < |t| && 0 < ngramLen < MAX_NGRAM && nchars <= ngramLen
      requires boffs.Length == myboffs.Length == MAX_NGRAM + 1 && boffs != myboffs
      requires Window(t, i - nchars, i, boffs[..], myboffs[..], mybuf)
      modifies boffs, myboffs
      ensures nchars' == Grow(nchars, ngramLen)
      ensures Window(t, i + 1 - nchars', i + 1, boffs[..], myboffs[..], mybuf')
    {
      ghost var x := i - nchars;
      nchars' := nchars + 1;
      if nchars == ngramLen {
        ghost var b, m := boffs[..], myboffs[..];
        Shift(boffs, myboffs, nchars);
        WindowDrop(t, x, i, b, m, boffs[..], myboffs[..], mybuf);
        nchars' := nchars;
        x := x + 1;
      }
      ghost var b, m := boffs[..], myboffs[..];
      Store(boffs, myboffs, nchars' - 1, Bpos(t, i), |mybuf|);
      mybuf' := mybuf + Enc(t[i]);
      WindowAdd(t, x, i, b, m, boffs[..], myboffs[..], mybuf);
    }

    /** Output the n-grams that end with the last character. */
    method Emit(mode: Mode, t: seq<nat>, i: nat, nchars: nat, boffs: array<nat>, myboffs: array<nat>, mybuf: seq<Octet>,
                wordpos: int) returns (terms: seq<Term>)
      requires i < |t| && 0 < nchars <= i + 1
      requires Window(t, i + 1 - nchars, i + 1, boffs[..], myboffs[..], mybuf)
      requires !mode.onlyspans || nchars == ngramLen
      ensures terms == GramsAt(mode, ngramLen, t, i, nchars, wordpos)
    {
      var loopbeg := if mode.nospans then nchars - 1 else 0;
      var loopend := if mode.onlyspans then 1 else nchars;
      terms := EmitFrom(t, i, i + 1 - nchars, boffs, myboffs, mybuf, wordpos, loopbeg, loopend);
    }

    /** Output the words of window entries `loopbeg` to `loopend`. */
    method EmitFrom(t: seq<nat>, i: nat, x: nat, boffs: array<nat>, myboffs: array<nat>, mybuf: seq<Octet>,
                    wordpos: int, loopbeg: nat, loopend: nat) returns (terms: seq<Term>)
      requires x <= i < |t| && loopend <= i + 1 - x
      requires Window(t, x, i + 1, boffs[..], myboffs[..], mybuf)
      ensures terms == GramsEnding(t, x + loopbeg, x + loopend, i + 1, wordpos)
    {
      terms := [];
      var k: nat := loopbeg;
      while k < loopend
        invariant loopbeg <= k && |terms| == k - loopbeg && (k <= loopend || k == loopbeg)
        invariant forall m :: 0 <= m < |terms| ==>
          terms[m] == Gram(t, x + loopbeg + m, i + 1, wordpos - (i + 1 - (x + loopbeg) - m - 1))
      {
        var term := Word(t, i, i + 1 - x, boffs, myboffs, mybuf, wordpos, k, Bpos(t, i) + Width(t[i]));
        terms := terms + [term];
        k := k + 1;
      }
    }

    /** The word of window entry `k`, up to the end of the buffer. */
    method Word(t: seq<nat>, i: nat, nchars: nat, boffs: array<nat>, myboffs: array<nat>, mybuf: seq<Octet>,
                wordpos: int, k: nat, btend: nat) returns (term: Term)
      requires i < |t| && k < nchars <= i + 1 && btend == Bpos(t, i + 1)
      requires Window(t, i + 1 - nchars, i + 1, boffs[..], myboffs[..], mybuf)
      ensures term == Gram(t, i + 1 - nchars + k, i + 1, wordpos - (nchars - k - 1))
    {
      assert Slot(t, i + 1 - nchars + k, i + 1, boffs[..][k], myboffs[..][k], mybuf);
      var word := mybuf[myboffs[k]..];
      term := Term(TrimWord(word), wordpos - (nchars - k - 1), boffs[k], btend);
    }

    /** Output what is left in the window at the end. */
    method Flush(mode: Mode, t: seq<nat>, next: nat, nchars: nat, boffs: array<nat>, myboffs: array<nat>,
                 mybuf: seq<Octet>, wordpos: int) returns (terms: seq<Term>)
      requires nchars <= next <= |t| && Window(t, next - nchars, next, boffs[..], myboffs[..], mybuf)
      ensures terms == if mode.onlyspans && nchars > 0 && nchars != ngramLen
                       then [Gram(t, next - nchars, next, wordpos - nchars)] else []
    {
      terms := [];
      if mode.onlyspans && nchars > 0 && nchars != ngramLen {
        assert Slot(t, next - nchars, next, boffs[..][0], myboffs[..][0], mybuf);
        var word := mybuf[myboffs[0]..];
        terms := [Term(TrimWord(word), wordpos - nchars, boffs[0], Bpos(t, next))];
      }
    }

    /** Split from character `start` to the first character that is not for this splitter. */
    method TextToWords(cfg: Config, mode: Mode, t: seq<nat>, start: nat, wordpos0: int)
      returns (terms: seq<Term>, next: nat, wordpos: int)
      requires start <= |t| && 0 < ngramLen < MAX_NGRAM
      ensures Grams(terms, next, wordpos) == Section(cfg, mode, ngramLen, t, start, 0, false, wordpos0)
    {
      var boffs := new nat[MAX_NGRAM + 1];
      var myboffs := new nat[MAX_NGRAM + 1];
      var mybuf: seq<Octet> := [];
      var nchars: nat := 0;
      var spaceBefore := false;
      terms, next, wordpos := [], start, wordpos0;
      ghost var whole := Section(cfg, mode, ngramLen, t, start, 0, false, wordpos0);
      LeftIs(cfg, mode, ngramLen, t, start, 0, false, wordpos0, [], whole);
      while next < |t|
        invariant nchars <= next <= |t| && nchars <= ngramLen
        invariant Window(t, next - nchars, next, boffs[..], myboffs[..], mybuf)
        invariant Left(cfg, mode, ngramLen, t, next, nchars, spaceBefore, wordpos, terms, whole)
      {
        var c := t[next];
        if Breaks(c, spaceBefore) {
          break;
        }
        if IsSpace(cfg, c) {
          LeftSpace(cfg, mode, ngramLen, t, next, nchars, spaceBefore, wordpos, terms, whole);
          nchars := 0;
          mybuf := [];
          spaceBefore := true;
        } else {
          ghost var count, space := nchars, spaceBefore;
          spaceBefore := false;
          nchars, mybuf := Push(t, next, nchars, boffs, myboffs, mybuf);
          var here := [];
          if !mode.onlyspans || nchars == ngramLen {
            here := Emit(mode, t, next, nchars, boffs, myboffs, mybuf, wordpos);
          }
          LeftChar(cfg, mode, ngramLen, t, next, count, space, wordpos, terms, whole, nchars, here);
          terms := terms + here;
          if mode.onlyspans && nchars == ngramLen {
            nchars := 0;
            mybuf := [];
          }
          wordpos := wordpos + 1;
        }
        next := next + 1;
      }
      LeftEnd(cfg, mode, ngramLen, t, next, nchars, spaceBefore, wordpos, terms, whole);
      var last := Flush(mode, t, next, nchars, boffs, myboffs, mybuf, wordpos);
      terms := terms + last;
    }
  }
}
