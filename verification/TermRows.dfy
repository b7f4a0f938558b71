/** Which terms a finished span gives: in the indexing mode every row of consecutive words, alone or
    together, at the position of its first word; in the other modes the words or the whole. */
module TermRows {
  import opened SplitText
  import opened NGrams
  import opened NGramRuns
  import opened SpanSpec
  import opened SpanInvariant
  import opened SpanTerms

  /** How many of the first `i` words are not empty. */
  function NonEmpty(words: seq<Range>, i: nat): nat
    requires i <= |words|
  {
    if i == 0 then 0 else NonEmpty(words, i - 1) + (if words[i - 1].first < words[i - 1].second then 1 else 0)
  }

  /** The term is the bytes of the span from the first of word `i` to the last of word `j`, at the position of
      word `i`, the span beginning at byte `base` of the text. */
  predicate IsRow(span: seq<Octet>, words: seq<Range>, i: nat, j: nat, spanpos: int, base: int, term: Term) {
    && i <= j < |words| && words[i].first <= words[j].second <= |span|
    && term == Term(span[words[i].first..words[j].second], spanpos + NonEmpty(words, i),
                    base + words[i].first, base + words[j].second)
  }

  lemma {:induction false} PositionCounts(span: seq<Octet>, words: seq<Range>, i: nat, spanpos: int)
    requires GoodSpan(span, words) && i <= |words|
    ensures PosAt(words, i, spanpos) == spanpos + NonEmpty(words, i)
  {
    if i > 0 {
      PositionCounts(span, words, i - 1, spanpos);
    }
  }

  lemma RowIsTerm(span: seq<Octet>, words: seq<Range>, i: nat, j: nat, spanpos: int, base: int, term: Term)
    requires GoodSpan(span, words) && i <= j < |words|
    ensures term == WordTerm(span, words, i, j, PosAt(words, i, spanpos), base) <==>
            IsRow(span, words, i, j, spanpos, base, term)
  {
    WordBounds(span, words, i, j);
    PositionCounts(span, words, i, spanpos);
  }

  /** A row of words from `from` on. */
  ghost predicate RowFrom(span: seq<Octet>, words: seq<Range>, from: nat, spanpos: int, base: int, term: Term) {
    exists i: nat, j: nat :: from <= i && IsRow(span, words, i, j, spanpos, base, term)
  }

  lemma FirstRows(span: seq<Octet>, words: seq<Range>, i: nat, spanpos: int, base: int, term: Term)
    requires GoodSpan(span, words) && i < |words|
    ensures term in TermsAt(DEFAULT, span, words, i, PosAt(words, i, spanpos), base) <==>
            exists j: nat :: IsRow(span, words, i, j, spanpos, base, term)
  {
    var here := TermsAt(DEFAULT, span, words, i, PosAt(words, i, spanpos), base);
    if term in here {
      var k :| 0 <= k < |here| && here[k] == term;
      RowIsTerm(span, words, i, i + k, spanpos, base, term);
    }
    if j: nat :| IsRow(span, words, i, j, spanpos, base, term) {
      RowIsTerm(span, words, i, j, spanpos, base, term);
      assert here[j - i] == term;
    }
  }

  lemma {:induction false} RowsFromIff(span: seq<Octet>, words: seq<Range>, i: nat, spanpos: int, base: int, term: Term)
    requires GoodSpan(span, words) && i <= |words|
    ensures term in TermsFrom(DEFAULT, span, words, i, spanpos, base) <==> RowFrom(span, words, i, spanpos, base, term)
    decreases |words| - i
  {
    if i < |words| {
      FirstRows(span, words, i, spanpos, base, term);
      RowsFromIff(span, words, i + 1, spanpos, base, term);
      RowsSplit(span, words, i, spanpos, base, term);
    }
  }

  lemma RowsSplit(span: seq<Octet>, words: seq<Range>, i: nat, spanpos: int, base: int, term: Term)
    ensures RowFrom(span, words, i, spanpos, base, term) <==>
            (exists j: nat :: IsRow(span, words, i, j, spanpos, base, term))
            || RowFrom(span, words, i + 1, spanpos, base, term)
  {
    if i', j': nat :| i <= i' && IsRow(span, words, i', j', spanpos, base, term) {
      assert i' == i || i + 1 <= i';
    }
  }

  ghost predicate AnyRow(span: seq<Octet>, words: seq<Range>, spanpos: int, base: int, term: Term) {
    exists i: nat, j: nat :: IsRow(span, words, i, j, spanpos, base, term)
  }

  /** In the indexing mode the words of a span give exactly its rows of words, from any word to any later
      one. */
  lemma RowsIff(span: seq<Octet>, words: seq<Range>, spanpos: int, base: int, term: Term)
    requires GoodSpan(span, words)
    ensures term in TermsFrom(DEFAULT, span, words, 0, spanpos, base) <==> AnyRow(span, words, spanpos, base, term)
  {
    RowsFromIff(span, words, 0, spanpos, base, term);
    if i: nat, j: nat :| IsRow(span, words, i, j, spanpos, base, term) {
      assert RowFrom(span, words, 0, spanpos, base, term);
    }
  }

  /** When only spans are wanted there is one term, from the first word to the last. When single words are
      wanted too, there is none unless the span is a single word. */
  lemma WholeRow(mode: Mode, span: seq<Octet>, words: seq<Range>, spanpos: int, base: int)
    requires GoodSpan(span, words) && mode.onlyspans
    ensures var l := TermsFrom(mode, span, words, 0, spanpos, base);
            if words == [] || (mode.nospans && |words| > 1) then l == []
            else |l| == 1 && IsRow(span, words, 0, |words| - 1, spanpos, base, l[0])
  {
    if words != [] {
      var here := TermsAt(mode, span, words, 0, PosAt(words, 0, spanpos), base);
      assert TermsFrom(mode, span, words, 1, spanpos, base) == [];
      assert TermsFrom(mode, span, words, 0, spanpos, base) == here + [];
      if here != [] {
        assert here[0] == WordTerm(span, words, 0, |words| - 1, PosAt(words, 0, spanpos), base);
        RowIsTerm(span, words, 0, |words| - 1, spanpos, base, here[0]);
      }
    }
  }

  /** When single words are wanted there is one term for each, in order. */
  lemma {:induction false} SingleRows(span: seq<Octet>, words: seq<Range>, i: nat, spanpos: int, base: int)
    requires GoodSpan(span, words) && i <= |words|
    ensures var l := TermsFrom(Mode(false, true), span, words, i, spanpos, base);
            |l| == |words| - i && forall k: nat :: k < |l| ==> IsRow(span, words, i + k, i + k, spanpos, base, l[k])
    decreases |words| - i
  {
    if i < |words| {
      SingleRows(span, words, i + 1, spanpos, base);
      var l, rest := TermsFrom(Mode(false, true), span, words, i, spanpos, base),
                     TermsFrom(Mode(false, true), span, words, i + 1, spanpos, base);
      var here := TermsAt(Mode(false, true), span, words, i, PosAt(words, i, spanpos), base);
      assert |here| == 1 && here[0] == WordTerm(span, words, i, i, PosAt(words, i, spanpos), base);
      RowIsTerm(span, words, i, i, spanpos, base, here[0]);
      forall k: nat | k < |l| ensures IsRow(span, words, i + k, i + k, spanpos, base, l[k]) {
        assert l[k] == if k == 0 then here[0] else rest[k - 1];
        assert k > 0 ==> IsRow(span, words, i + 1 + (k - 1), i + 1 + (k - 1), spanpos, base, rest[k - 1]);
      }
    }
  }

  // The two other terms that a span can give.

  /** The letters of an acronym, for the whole span. */
  predicate IsAcronymTerm(span: seq<Octet>, spanpos: int, bp: int, term: Term) {
    && IsInitials(span) && term.pos == spanpos && term.bts == bp - |span| && term.bte == bp
    && 2 * |term.word| == |span| && forall k :: 0 <= k < |term.word| ==> term.word[k] == span[2 * k]
  }

  /** Two words with a hyphen between them, as one, from the start of the span to the end of the second. */
  predicate IsHyphenTerm(cfg: Config, span: seq<Octet>, words: seq<Range>, spanpos: int, base: int, term: Term) {
    && cfg.deHyphenate && |words| == 2 && words[0].first < words[0].second < words[1].first < words[1].second <= |span|
    && span[words[0].second] == Octet('-' as nat, 0)
    && term == Term(span[words[0].first..words[0].second] + span[words[1].first..words[1].second],
                    spanpos, base, base + words[1].second)
  }

  /** All that a finished span offers in the indexing mode: its rows of words, the letters of an acronym, and
      two hyphenated words as one. */
  lemma OfferedIff(cfg: Config, span: seq<Octet>, words: seq<Range>, spanpos: int, bp: int, term: Term)
    requires GoodSpan(span, words)
    ensures term in Offered(cfg, DEFAULT, span, words, spanpos, bp) <==>
            || AnyRow(span, words, spanpos, bp - |span|, term)
            || IsAcronymTerm(span, spanpos, bp, term)
            || IsHyphenTerm(cfg, span, words, spanpos, bp - |span|, term)
  {
    RowsIff(span, words, spanpos, bp - |span|, term);
    AcronymIff(span, spanpos, bp, term);
    HyphenIff(cfg, span, words, spanpos, bp - |span|, term);
  }

  lemma AcronymIff(span: seq<Octet>, spanpos: int, bp: int, term: Term)
    ensures IsInitials(span) && term == Term(Letters(span), spanpos, bp - |span|, bp) <==>
            IsAcronymTerm(span, spanpos, bp, term)
  {
    if IsAcronymTerm(span, spanpos, bp, term) {
      assert term.word == Letters(span);
    }
  }

  lemma HyphenIff(cfg: Config, span: seq<Octet>, words: seq<Range>, spanpos: int, base: int, term: Term)
    requires GoodSpan(span, words)
    ensures term in Dehyphenated(cfg, span, words, spanpos, base) <==>
            IsHyphenTerm(cfg, span, words, spanpos, base, term)
  {
    if |words| == 2 {
      WordBounds(span, words, 0, 1);
      WordBounds(span, words, 1, 1);
    }
  }

  // The length check.

  /** A byte that may be a term by itself. */
  predicate IsSingle(cfg: Config, c: nat) {
    || IsAsciiLetter(c) || '0' as nat <= c <= '9' as nat
    || (c == '\\' as nat && cfg.backslashAsLetter) || (c == '_' as nat && cfg.underscoreAsLetter)
  }

  /** A word passes when it is not empty, has at most as many characters as allowed, and is no single byte
      other than an ASCII letter or digit, or what the configuration takes for one. */
  lemma PassesIff(cfg: Config, w: seq<Octet>)
    requires w != [] ==> w[0].k == 0
    ensures Passes(cfg, w) <==> 0 < CharLen(w) <= cfg.maxWordLength && (|w| == 1 ==> IsSingle(cfg, w[0].c))
  {
    ShortEnough(w);
    if |w| == 1 {
      SingleIff(cfg, w[0].c);
    }
  }

  lemma SingleIff(cfg: Config, c: nat)
    ensures c <= 127 && WhatCc(cfg, c) in {Upper, Lower, Digit} <==> IsSingle(cfg, c)
  {
  }

  lemma {:induction false} ShortEnough(w: seq<Octet>)
    ensures CharLen(w) <= |w| && (w != [] && w[0].k == 0 ==> CharLen(w) > 0)
  {
    if w != [] {
      CharLenBound(w[1..]);
    }
  }
}
