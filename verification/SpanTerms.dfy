/** Terms from events: which terms a finished span gives in each output mode, and the final checks. */
module SpanTerms {
  import Acronyms
  import opened SplitText
  import opened NGrams
  import opened NGramRuns
  import opened SpanSpec
  import opened SpanInvariant

  /** Position and length of the last term taken. */
  datatype Prev = Prev(pos: int, len: nat)

  datatype Emitted = Emitted(terms: seq<Term>, prev: Prev)

  /** The letters of an acronym. */
  function Letters(span: seq<Octet>): seq<Octet> {
    seq(|span| / 2, k requires 0 <= k < |span| / 2 => span[2 * k])
  }

  /** The terms that begin at word `i`. */
  function TermsAt(mode: Mode, span: seq<Octet>, words: seq<Range>, i: nat, pos: int, base: int): seq<Term>
    requires GoodSpan(span, words) && i < |words|
  {
    var from := if mode.onlyspans then |words| - 1 else i;
    var to := if mode.nospans then i + 1 else |words|;
    if from >= to then [] else
      seq(to - from, k requires 0 <= k < to - from => WordTerm(span, words, i, from + k, pos, base))
  }

  /** Words `i` to `j` with what stands between them. */
  function WordTerm(span: seq<Octet>, words: seq<Range>, i: nat, j: nat, pos: int, base: int): Term
    requires GoodSpan(span, words) && i <= j < |words|
  {
    WordBounds(span, words, i, j);
    var deb, fin := words[i].first, words[j].second;
    Term(span[deb..fin], pos, base + deb, base + fin)
  }

  lemma {:induction false} WordBounds(span: seq<Octet>, words: seq<Range>, i: nat, j: nat)
    requires GoodSpan(span, words) && i <= j < |words|
    ensures words[i].first <= words[j].second <= |span|
    ensures i < j ==> words[i].second < words[j].first
    decreases |words| - i
  {
    if j < |words| - 1 {
      WordBounds(span, words, j + 1, |words| - 1);
      assert words[j].second < words[j + 1].first;
    }
    if i < j {
      WordBounds(span, words, i + 1, j);
      assert words[i].second < words[i + 1].first <= words[j].first;
    }
  }

  /** Position of the terms that begin at word `i`: an empty word takes none. */
  function PosAt(words: seq<Range>, i: nat, spanpos: int): int {
    spanpos + i - (if LeadsEmpty(words) && i > 0 then 1 else 0)
  }

  /** The terms that begin at word `i` or later. */
  function TermsFrom(mode: Mode, span: seq<Octet>, words: seq<Range>, i: nat, spanpos: int, base: int): seq<Term>
    requires GoodSpan(span, words) && i <= |words|
    decreases |words| - i
  {
    if i >= (if mode.onlyspans then 1 else |words|) || i == |words| then []
    else TermsAt(mode, span, words, i, PosAt(words, i, spanpos), base) + TermsFrom(mode, span, words, i + 1, spanpos, base)
  }

  /** Two words around a hyphen, as one. */
  function Dehyphenated(cfg: Config, span: seq<Octet>, words: seq<Range>, spanpos: int, base: int): seq<Term>
    requires GoodSpan(span, words)
  {
    if cfg.deHyphenate && |words| == 2 then
      WordBounds(span, words, 0, 1);
      WordBounds(span, words, 1, 1);
      var w0, w1 := words[0], words[1];
      if span[w0.second] == Octet('-' as nat, 0) && w0.first < w0.second && w1.first < w1.second then
        [Term(span[w0.first..w0.second] + span[w1.first..w1.second], spanpos, base, base + w1.second)]
      else []
    else []
  }

  /** What a finished span offers, in order, before the final checks. */
  function Offered(cfg: Config, mode: Mode, span: seq<Octet>, words: seq<Range>, spanpos: int, bp: int): seq<Term>
    requires GoodSpan(span, words)
  {
    var base := bp - |span|;
    (if IsInitials(span) then [Term(Letters(span), spanpos, base, bp)] else [])
    + Dehyphenated(cfg, span, words, spanpos, base) + TermsFrom(mode, span, words, 0, spanpos, base)
  }

  /** Length in characters. */
  function CharLen(w: seq<Octet>): nat {
    if w == [] then 0 else CharLen(w[1..]) + (if w[0].k == 0 then 1 else 0)
  }

  /** Not too long, not empty, and no single byte that is neither letter nor digit. */
  predicate Passes(cfg: Config, w: seq<Octet>) {
    && (w == [] || |w| >= cfg.maxWordLength ==> 0 < CharLen(w) <= cfg.maxWordLength)
    && (|w| == 1 ==> w[0].k == 0 && w[0].c <= 127 && WhatCc(cfg, w[0].c) in {Upper, Lower, Digit})
  }

  /** The final checkpoint over a list of terms: a term with the position and length of the one taken
      before it is taken for a duplicate. */
  function EmitAll(cfg: Config, terms: seq<Term>, prev: Prev): Emitted
    decreases |terms|
  {
    if terms == [] then Emitted([], prev)
    else
      var key := Prev(terms[0].pos, |terms[0].word|);
      if Passes(cfg, terms[0].word) && key != prev then
        var rest := EmitAll(cfg, terms[1..], key);
        rest.(terms := [terms[0]] + rest.terms)
      else EmitAll(cfg, terms[1..], prev)
  }

  /** The terms that pass, duplicates not considered. */
  function Passing(cfg: Config, terms: seq<Term>): seq<Term> {
    if terms == [] then []
    else (if Passes(cfg, terms[0].word) then [terms[0]] else []) + Passing(cfg, terms[1..])
  }

  // The duplicate check never drops a term.

  predicate Clash(a: Term, b: Term) {
    a.pos == b.pos && |a.word| == |b.word| > 0
  }

  ghost predicate NoClash(terms: seq<Term>) {
    forall a, b :: 0 <= a < b < |terms| ==> !Clash(terms[a], terms[b])
  }

  ghost predicate Apart(prev: Prev, terms: seq<Term>) {
    forall a :: 0 <= a < |terms| ==> !(prev.pos == terms[a].pos && prev.len == |terms[a].word| > 0)
  }

  /** Where the last taken term can be: where it was, or among these. */
  predicate PrevIn(prev: Prev, was: Prev, lo: int, hi: int) {
    prev == was || lo <= prev.pos < hi
  }

  lemma {:induction false} NothingDropped(cfg: Config, terms: seq<Term>, prev: Prev, lo: int, hi: int)
    requires NoClash(terms) && Apart(prev, terms)
    requires forall a :: 0 <= a < |terms| && terms[a].word != [] ==> lo <= terms[a].pos < hi
    ensures var e := EmitAll(cfg, terms, prev); e.terms == Passing(cfg, terms) && PrevIn(e.prev, prev, lo, hi)
    decreases |terms|
  {
    if terms != [] {
      var rest := terms[1..];
      assert forall a :: 0 <= a < |rest| ==> rest[a] == terms[a + 1];
      if Passes(cfg, terms[0].word) {
        assert terms[0].word != [];
        assert forall a :: 0 <= a < |rest| ==> !Clash(terms[0], rest[a]);
        NothingDropped(cfg, rest, Prev(terms[0].pos, |terms[0].word|), lo, hi);
      } else {
        NothingDropped(cfg, rest, prev, lo, hi);
      }
    }
  }

  /** Two different stretches of words never have both the same position and the same length. */
  lemma WordTermsApart(span: seq<Octet>, words: seq<Range>, i: nat, j: nat, i': nat, j': nat, spanpos: int, base: int)
    requires GoodSpan(span, words) && i <= j < |words| && i' <= j' < |words| && (i < i' || (i == i' && j < j'))
    ensures !Clash(WordTerm(span, words, i, j, PosAt(words, i, spanpos), base),
                   WordTerm(span, words, i', j', PosAt(words, i', spanpos), base))
  {
    WordBounds(span, words, i, j);
    WordBounds(span, words, i', j');
    if i == i' {
      EndsApart(span, words, j, j');
    } else if PosAt(words, i, spanpos) == PosAt(words, i', spanpos) {
      assert i == 0 && i' == 1 && words[0] == Range(0, 0) && words[1].first == 1;
      if j < j' {
        if j > 0 { EndsApart(span, words, j, j'); }
      } else if j' < j {
        EndsApart(span, words, j', j);
      }
    }
  }

  lemma EndsApart(span: seq<Octet>, words: seq<Range>, j: nat, j': nat)
    requires GoodSpan(span, words) && j < j' < |words|
    ensures words[j].second + 2 <= words[j'].second
  {
    WordBounds(span, words, j, j');
    assert words[j'].first < words[j'].second;
  }

  lemma {:induction false} ElementOf(mode: Mode, span: seq<Octet>, words: seq<Range>, from: nat, spanpos: int, base: int,
                                     a: nat) returns (i: nat, j: nat)
    requires GoodSpan(span, words) && from <= |words| && a < |TermsFrom(mode, span, words, from, spanpos, base)|
    ensures from <= i <= j < |words|
    ensures TermsFrom(mode, span, words, from, spanpos, base)[a] ==
            WordTerm(span, words, i, j, PosAt(words, i, spanpos), base)
    decreases |words| - from
  {
    var here := TermsAt(mode, span, words, from, PosAt(words, from, spanpos), base);
    if a < |here| {
      i, j := from, (if mode.onlyspans then |words| - 1 else from) + a;
    } else {
      i, j := ElementOf(mode, span, words, from + 1, spanpos, base, a - |here|);
    }
  }

  lemma NoClashJoin(a: seq<Term>, b: seq<Term>)
    requires NoClash(a) && NoClash(b)
    requires forall x, y :: 0 <= x < |a| && 0 <= y < |b| ==> !Clash(a[x], b[y])
    ensures NoClash(a + b)
  {
    var c := a + b;
    forall x, y | 0 <= x < y < |c| ensures !Clash(c[x], c[y]) {
      if x >= |a| {
        assert c[x] == b[x - |a|] && c[y] == b[y - |a|];
      }
    }
  }

  lemma TermsAtNoClash(mode: Mode, span: seq<Octet>, words: seq<Range>, i: nat, spanpos: int, base: int)
    requires GoodSpan(span, words) && i < |words|
    ensures NoClash(TermsAt(mode, span, words, i, PosAt(words, i, spanpos), base))
  {
    var here := TermsAt(mode, span, words, i, PosAt(words, i, spanpos), base);
    var from := if mode.onlyspans then |words| - 1 else i;
    forall x, y | 0 <= x < y < |here| ensures !Clash(here[x], here[y]) {
      WordTermsApart(span, words, i, from + x, i, from + y, spanpos, base);
    }
  }

  lemma HereRestApart(mode: Mode, span: seq<Octet>, words: seq<Range>, i: nat, spanpos: int, base: int, x: nat, y: nat)
    requires GoodSpan(span, words) && i < |words|
    requires x < |TermsAt(mode, span, words, i, PosAt(words, i, spanpos), base)|
    requires y < |TermsFrom(mode, span, words, i + 1, spanpos, base)|
    ensures !Clash(TermsAt(mode, span, words, i, PosAt(words, i, spanpos), base)[x],
                   TermsFrom(mode, span, words, i + 1, spanpos, base)[y])
  {
    var i', j' := ElementOf(mode, span, words, i + 1, spanpos, base, y);
    WordTermsApart(span, words, i, (if mode.onlyspans then |words| - 1 else i) + x, i', j', spanpos, base);
  }

  lemma {:induction false} TermsFromNoClash(mode: Mode, span: seq<Octet>, words: seq<Range>, i: nat, spanpos: int, base: int)
    requires GoodSpan(span, words) && i <= |words|
    ensures NoClash(TermsFrom(mode, span, words, i, spanpos, base))
    decreases |words| - i
  {
    if i < (if mode.onlyspans then 1 else |words|) && i < |words| {
      var here := TermsAt(mode, span, words, i, PosAt(words, i, spanpos), base);
      var rest := TermsFrom(mode, span, words, i + 1, spanpos, base);
      TermsAtNoClash(mode, span, words, i, spanpos, base);
      TermsFromNoClash(mode, span, words, i + 1, spanpos, base);
      forall x, y | 0 <= x < |here| && 0 <= y < |rest| ensures !Clash(here[x], rest[y]) {
        HereRestApart(mode, span, words, i, spanpos, base, x, y);
      }
      NoClashJoin(here, rest);
    }
  }

  /** Positions of a span's non-empty terms lie between its position and that of the next span. */
  lemma PositionBounds(mode: Mode, span: seq<Octet>, words: seq<Range>, spanpos: int, base: int, a: nat)
    requires GoodSpan(span, words) && a < |TermsFrom(mode, span, words, 0, spanpos, base)|
    ensures var term := TermsFrom(mode, span, words, 0, spanpos, base)[a];
            term.word != [] ==> spanpos <= term.pos < spanpos + WordCount(words)
  {
    var i, j := ElementOf(mode, span, words, 0, spanpos, base, a);
    WordBounds(span, words, i, j);
  }

  lemma DehyphenatedApart(cfg: Config, mode: Mode, span: seq<Octet>, words: seq<Range>, spanpos: int, base: int, a: nat)
    requires GoodSpan(span, words) && Dehyphenated(cfg, span, words, spanpos, base) != []
    requires a < |TermsFrom(mode, span, words, 0, spanpos, base)|
    ensures !Clash(Dehyphenated(cfg, span, words, spanpos, base)[0], TermsFrom(mode, span, words, 0, spanpos, base)[a])
  {
    var i, j := ElementOf(mode, span, words, 0, spanpos, base, a);
    WordBounds(span, words, i, j);
    WordBounds(span, words, 0, 1);
  }

  /** The terms of a span that is no acronym. */
  function PlainTerms(cfg: Config, mode: Mode, span: seq<Octet>, words: seq<Range>, spanpos: int, base: int): seq<Term>
    requires GoodSpan(span, words)
  {
    Dehyphenated(cfg, span, words, spanpos, base) + TermsFrom(mode, span, words, 0, spanpos, base)
  }

  lemma PlainNoClash(cfg: Config, mode: Mode, span: seq<Octet>, words: seq<Range>, spanpos: int, base: int)
    requires GoodSpan(span, words)
    ensures NoClash(PlainTerms(cfg, mode, span, words, spanpos, base))
    ensures forall a :: var l := PlainTerms(cfg, mode, span, words, spanpos, base);
              0 <= a < |l| && l[a].word != [] ==> spanpos <= l[a].pos < spanpos + WordCount(words)
  {
    var d := Dehyphenated(cfg, span, words, spanpos, base);
    var l := TermsFrom(mode, span, words, 0, spanpos, base);
    TermsFromNoClash(mode, span, words, 0, spanpos, base);
    forall x, y | 0 <= x < |d| && 0 <= y < |l| ensures !Clash(d[x], l[y]) {
      DehyphenatedApart(cfg, mode, span, words, spanpos, base, y);
    }
    NoClashJoin(d, l);
    forall a | 0 <= a < |d + l| && (d + l)[a].word != []
      ensures spanpos <= (d + l)[a].pos < spanpos + WordCount(words)
    {
      if a >= |d| {
        PositionBounds(mode, span, words, spanpos, base, a - |d|);
      }
    }
  }

  lemma InitialsNoHyphen(cfg: Config, span: seq<Octet>, words: seq<Range>, spanpos: int, base: int)
    requires GoodSpan(span, words) && IsInitials(span)
    ensures Dehyphenated(cfg, span, words, spanpos, base) == []
    ensures words != [] && words[0] == Range(0, 1) && IsLetterByte(span[0]) && WordCount(words) > 0
  {
    assert IsLetterByte(span[0]) && IsDot(span[1]) && IsLetterByte(span[2]);
  }

  lemma InitialsFirstWord(cfg: Config, mode: Mode, span: seq<Octet>, words: seq<Range>, spanpos: int, bp: int)
    requires GoodSpan(span, words) && IsInitials(span) && !mode.onlyspans
    ensures var l := PlainTerms(cfg, mode, span, words, spanpos, bp - |span|);
            l != [] && l[0].pos == spanpos && l[0].word == [span[0]]
  {
    var base := bp - |span|;
    InitialsNoHyphen(cfg, span, words, spanpos, base);
    var first := TermsAt(mode, span, words, 0, PosAt(words, 0, spanpos), base);
    assert first[0] == WordTerm(span, words, 0, 0, spanpos, base);
    assert span[0..1] == [span[0]];
    assert TermsFrom(mode, span, words, 0, spanpos, base)[0] == first[0];
  }

  /** When only spans are wanted, an acronym is offered by its letters and, if at
      all, by all of it but the last dot. */
  lemma InitialsWholeSpan(cfg: Config, mode: Mode, span: seq<Octet>, words: seq<Range>, spanpos: int, bp: int)
    requires GoodSpan(span, words) && IsInitials(span) && mode.onlyspans && Acronyms.Spelled(span, words)
    ensures var l := PlainTerms(cfg, mode, span, words, spanpos, bp - |span|);
            |l| <= 1 && (l != [] ==> l[0].pos == spanpos && |l[0].word| == |span| - 1)
  {
    var base, last := bp - |span|, |words| - 1;
    InitialsNoHyphen(cfg, span, words, spanpos, base);
    WordBounds(span, words, 0, last);
    var first := TermsAt(mode, span, words, 0, PosAt(words, 0, spanpos), base);
    assert first == [] || first == [WordTerm(span, words, 0, last, spanpos, base)];
    assert TermsFrom(mode, span, words, 0, spanpos, base) == first + TermsFrom(mode, span, words, 1, spanpos, base);
  }

  /** The duplicate check drops nothing of a finished span. */
  lemma SpanDropsNothing(cfg: Config, mode: Mode, span: seq<Octet>, words: seq<Range>, spanpos: int, bp: int, prev: Prev)
    requires GoodSpan(span, words) && (prev.len == 0 || prev.pos < spanpos)
    requires mode.onlyspans ==> Acronyms.Spelled(span, words)
    ensures var l := Offered(cfg, mode, span, words, spanpos, bp);
            var e := EmitAll(cfg, l, prev);
            && e.terms == Passing(cfg, l)
            && (e.prev.len == 0 || e.prev.pos < spanpos + WordCount(words))
  {
    var base := bp - |span|;
    var plain := PlainTerms(cfg, mode, span, words, spanpos, base);
    PlainNoClash(cfg, mode, span, words, spanpos, base);
    var l := Offered(cfg, mode, span, words, spanpos, bp);
    var hi := spanpos + WordCount(words);
    if IsInitials(span) {
      var ini := Term(Letters(span), spanpos, base, bp);
      assert l == [ini] + plain;
      InitialsNoHyphen(cfg, span, words, spanpos, base);
      if mode.onlyspans {
        InitialsWholeSpan(cfg, mode, span, words, spanpos, bp);
        TwoDropNothing(cfg, ini, plain, prev, spanpos, hi);
      } else {
        InitialsFirstWord(cfg, mode, span, words, spanpos, bp);
        InitialsDropNothing(cfg, ini, plain, prev, spanpos, hi);
      }
    } else {
      assert l == plain;
      ApartBefore(prev, plain, spanpos);
      NothingDropped(cfg, plain, prev, spanpos, hi);
    }
  }

  /** At most two terms, not of one length. */
  lemma TwoDropNothing(cfg: Config, ini: Term, plain: seq<Term>, prev: Prev, lo: int, hi: int)
    requires |plain| <= 1 && (prev.len == 0 || prev.pos < lo) && ini.pos == lo < hi
    requires plain != [] ==> plain[0].pos == lo && |ini.word| != |plain[0].word|
    ensures var e := EmitAll(cfg, [ini] + plain, prev);
            e.terms == Passing(cfg, [ini] + plain) && (e.prev.len == 0 || e.prev.pos < hi)
  {
    var l := [ini] + plain;
    assert forall a :: 0 <= a < |l| ==> l[a] == if a == 0 then ini else plain[a - 1];
    ApartBefore(prev, l, lo);
    NothingDropped(cfg, l, prev, lo, hi);
  }

  lemma ApartBefore(prev: Prev, terms: seq<Term>, lo: int)
    requires prev.len == 0 || prev.pos < lo
    requires forall a :: 0 <= a < |terms| && terms[a].word != [] ==> lo <= terms[a].pos
    ensures Apart(prev, terms)
  {
  }

  /** An acronym is followed by its first letter, which separates it from anything of its own length. */
  lemma InitialsDropNothing(cfg: Config, ini: Term, plain: seq<Term>, prev: Prev, lo: int, hi: int)
    requires plain != [] && NoClash(plain) && (prev.len == 0 || prev.pos < lo)
    requires forall a :: 0 <= a < |plain| && plain[a].word != [] ==> lo <= plain[a].pos < hi
    requires ini.pos == lo == plain[0].pos && |ini.word| >= 2 && |plain[0].word| == 1 && IsLetterByte(plain[0].word[0])
    ensures var e := EmitAll(cfg, [ini] + plain, prev);
            e.terms == Passing(cfg, [ini] + plain) && (e.prev.len == 0 || e.prev.pos < hi)
  {
    assert ([ini] + plain)[1..] == plain;
    if Passes(cfg, ini.word) {
      FirstPasses(cfg, ini.word, plain[0].word);
      var rest := plain[1..];
      assert forall a :: 0 <= a < |rest| ==> rest[a] == plain[a + 1] && !Clash(plain[0], rest[a]);
      NothingDropped(cfg, rest, Prev(lo, 1), lo, hi);
    } else {
      ApartBefore(prev, plain, lo);
      NothingDropped(cfg, plain, prev, lo, hi);
    }
  }

  lemma FirstPasses(cfg: Config, w: seq<Octet>, one: seq<Octet>)
    requires Passes(cfg, w) && |w| >= 2 && |one| == 1 && IsLetterByte(one[0])
    ensures Passes(cfg, one)
  {
    assert CharLen(one) == 1 by { assert one[1..] == []; }
    CharLenBound(w);
  }

  lemma {:induction false} CharLenBound(w: seq<Octet>)
    ensures CharLen(w) <= |w|
  {
    if w != [] {
      CharLenBound(w[1..]);
    }
  }
}
