/** Spans of several words, said of the text: a span is the text from its first word to its last, and in the
    indexing mode its terms are the stretches of text from any word to any later one. */
module GluedText {
  import opened SplitText
  import opened NGrams
  import opened NGramRuns
  import opened SpanSpec
  import opened SpanInvariant
  import opened SpanTerms
  import opened Agreement
  import opened TermRows
  import opened SpanWords
  import opened SpanLayout
  import opened SpanText

  /** One after the other, with one character between each two. */
  predicate Chained(t: seq<nat>, ws: seq<(nat, nat)>)
    decreases |ws|
  {
    ws != [] && ws[0].0 < ws[0].1 <= |t| && (|ws| > 1 ==> ws[1].0 == ws[0].1 + 1 && Chained(t, ws[1..]))
  }

  lemma {:induction false} JoinedChained(cfg: Config, t: seq<nat>, ws: seq<(nat, nat)>, stop: bool, first: bool)
    requires Joined(cfg, t, ws, stop, first)
    ensures Chained(t, ws)
    decreases |ws|
  {
    if |ws| > 1 {
      JoinedChained(cfg, t, ws[1..], stop, false);
    }
  }

  lemma {:induction false} ChainedAfter(t: seq<nat>, ws: seq<(nat, nat)>)
    requires Chained(t, ws)
    ensures forall k :: 0 <= k < |ws| ==> ws[0].0 <= ws[k].0 < ws[k].1 <= |t| && ws[k].1 <= ws[|ws| - 1].1
    ensures forall j, k :: 0 <= j < k < |ws| ==> ws[j].1 < ws[k].0
    decreases |ws|
  {
    if |ws| > 1 {
      ChainedAfter(t, ws[1..]);
      assert forall k :: 1 <= k < |ws| ==> ws[k] == ws[1..][k - 1];
      assert ws[1..][|ws| - 2] == ws[|ws| - 1];
    }
  }

  /** None of the words is an unwanted number. */
  predicate AllWanted(cfg: Config, t: seq<nat>, ws: seq<(nat, nat)>) {
    forall w :: w in ws ==> w.1 <= |t| && !Unwanted(cfg, t, w.0, w.1)
  }

  /** All of them are at or after character `s`. */
  predicate After(t: seq<nat>, s: nat, ws: seq<(nat, nat)>) {
    forall w :: w in ws ==> s <= w.0 <= w.1 <= |t|
  }

  /** The words as byte offsets from character `s`. */
  function Offsets(t: seq<nat>, s: nat, ws: seq<(nat, nat)>): (r: seq<Range>)
    requires After(t, s, ws)
    ensures |r| == |ws|
    decreases |ws|
  {
    if ws == [] then []
    else [Range(|Bytes(t, s, ws[0].0)|, |Bytes(t, s, ws[0].1)|)] + Offsets(t, s, ws[1..])
  }

  lemma {:induction false} OffsetAt(t: seq<nat>, s: nat, ws: seq<(nat, nat)>, k: nat)
    requires After(t, s, ws) && k < |ws|
    ensures s <= ws[k].0 <= ws[k].1 <= |t|
    ensures Offsets(t, s, ws)[k] == Range(|Bytes(t, s, ws[k].0)|, |Bytes(t, s, ws[k].1)|)
    decreases |ws|
  {
    assert ws[k] in ws;
    if k > 0 {
      OffsetAt(t, s, ws[1..], k - 1);
    }
  }

  /** The end of the span, the full stop being part of it. */
  function End(ws: seq<(nat, nat)>, stop: bool): nat
    requires ws != []
  {
    ws[|ws| - 1].1 + (if stop then 1 else 0)
  }

  lemma MoreHere(cfg: Config, t: seq<nat>, s: nat, words: seq<Range>, a: nat, b: nat)
    requires s <= a <= b <= |t| && !Unwanted(cfg, t, a, b)
    ensures Bytes(t, s, a) + Bytes(t, a, b) == Bytes(t, s, b)
    ensures More(cfg, t, Bytes(t, s, a), words, a, b) == words + [Range(|Bytes(t, s, a)|, |Bytes(t, s, b)|)]
  {
    BytesJoin(t, s, a, b);
  }

  lemma {:induction false} OffsetsFirst(t: seq<nat>, s: nat, ws: seq<(nat, nat)>, words: seq<Range>, r: seq<Range>,
                                        a: nat, b: nat)
    requires ws != [] && After(t, s, ws) && ws[0] == (a, b) && s <= a <= b <= |t|
    requires r == words + [Range(|Bytes(t, s, a)|, |Bytes(t, s, b)|)]
    ensures After(t, s, ws[1..]) && words + Offsets(t, s, ws) == r + Offsets(t, s, ws[1..])
  {
    assert forall w :: w in ws[1..] ==> w in ws;
    var first, rest := [Range(|Bytes(t, s, a)|, |Bytes(t, s, b)|)], Offsets(t, s, ws[1..]);
    assert Offsets(t, s, ws) == first + rest;
    assert words + (first + rest) == (words + first) + rest;
  }

  lemma ListRest(cfg: Config, t: seq<nat>, ws: seq<(nat, nat)>, stop: bool)
    requires Chained(t, ws) && |ws| > 1 && Fits(t, ws, stop) && AllWanted(cfg, t, ws)
    ensures Chained(t, ws[1..]) && Fits(t, ws[1..], stop) && AllWanted(cfg, t, ws[1..])
    ensures ws[1..][0].0 == ws[0].1 + 1 && End(ws[1..], stop) == End(ws, stop)
  {
    assert forall k :: 1 <= k < |ws| ==> ws[1..][k - 1] == ws[k];
    assert forall w :: w in ws[1..] ==> w in ws;
  }

  lemma {:induction false} NotCutLast(cfg: Config, t: seq<nat>, s: nat, words: seq<Range>, p: int, ws: seq<(nat, nat)>,
                                      stop: bool, a: nat, b: nat, e: nat)
    requires ws == [(a, b)] && s <= a < b <= e <= |t| && e == End(ws, stop) && !Unwanted(cfg, t, a, b)
    ensures Fits(t, ws, stop) && After(t, s, ws)
    ensures SpansFrom(cfg, t, Bytes(t, s, a), words, p, ws, stop) ==
            [SpanEvent(Bytes(t, s, e), words + Offsets(t, s, ws), p, Bpos(t, e))]
  {
    MoreHere(cfg, t, s, words, a, b);
    SpansOfLast(cfg, t, Bytes(t, s, a), words, p, ws, stop, a, b);
    assert Offsets(t, s, ws) == [Range(|Bytes(t, s, a)|, |Bytes(t, s, b)|)];
    assert Bytes(t, s, b) + [] == Bytes(t, s, b);
  }

  lemma {:induction false} NotCutMore(cfg: Config, t: seq<nat>, s: nat, words: seq<Range>, r: seq<Range>, p: int,
                                      ws: seq<(nat, nat)>, stop: bool, a: nat, b: nat, next: nat)
    requires |ws| > 1 && Fits(t, ws, stop) && Fits(t, ws[1..], stop) && ws[0] == (a, b) && s <= a <= b < |t|
    requires next == b + 1 && r == words + [Range(|Bytes(t, s, a)|, |Bytes(t, s, b)|)] && |r| < cfg.maxWordsInSpan
    requires !Unwanted(cfg, t, a, b)
    ensures SpansFrom(cfg, t, Bytes(t, s, a), words, p, ws, stop) ==
            SpansFrom(cfg, t, Bytes(t, s, next), r, p, ws[1..], stop)
  {
    MoreHere(cfg, t, s, words, a, b);
    SpansOfRest(cfg, t, Bytes(t, s, a), words, p, ws, stop, a, b, [], Bytes(t, s, next), r, p);
    var rest := SpansFrom(cfg, t, Bytes(t, s, next), r, p, ws[1..], stop);
    assert [] + rest == rest;
  }

  /** A span that has no more words than allowed is not cut: it is the text from where it began to its end. */
  lemma {:induction false} NotCut(cfg: Config, t: seq<nat>, s: nat, words: seq<Range>, p: int, ws: seq<(nat, nat)>,
                                  stop: bool, a: nat, e: nat)
    requires Chained(t, ws) && Fits(t, ws, stop) && AllWanted(cfg, t, ws) && After(t, s, ws)
    requires a == ws[0].0 && e == End(ws, stop) && s <= a && s <= e <= |t|
    requires |words| + |ws| <= cfg.maxWordsInSpan
    ensures SpansFrom(cfg, t, Bytes(t, s, a), words, p, ws, stop) ==
            [SpanEvent(Bytes(t, s, e), words + Offsets(t, s, ws), p, Bpos(t, e))]
    decreases |ws|
  {
    var b := ws[0].1;
    assert ws[0] in ws && ws[0] == (a, b);
    if |ws| == 1 {
      NotCutLast(cfg, t, s, words, p, ws, stop, a, b, e);
    } else {
      var r := words + [Range(|Bytes(t, s, a)|, |Bytes(t, s, b)|)];
      ListRest(cfg, t, ws, stop);
      NotCutMore(cfg, t, s, words, r, p, ws, stop, a, b, b + 1);
      OffsetsFirst(t, s, ws, words, r, a, b);
      NotCut(cfg, t, s, r, p, ws[1..], stop, b + 1, e);
    }
  }

  // The span of a layout.

  /** The words, a leading dot coming with an empty one before it. */
  function AllWords(l: Layout): seq<(nat, nat)>
    requires l.words != [] && Start(l) >= 0
  {
    (if l.dot then [(Start(l) as nat, Start(l) as nat)] else []) + l.words
  }

  /** A span in the text, with no unwanted number and no more words than allowed. */
  ghost predicate Usual(cfg: Config, t: seq<nat>, l: Layout) {
    && Joined(cfg, t, l.words, l.stop, !l.dot) && AllWanted(cfg, t, l.words)
    && 0 <= Start(l) && (l.dot ==> Leading(cfg, t, Start(l))) && |AllWords(l)| <= cfg.maxWordsInSpan
  }

  lemma UsualFits(cfg: Config, t: seq<nat>, l: Layout)
    requires Usual(cfg, t, l)
    ensures Fits(t, l.words, l.stop) && Chained(t, l.words) && Start(l) <= l.words[0].0 < End(l.words, l.stop) <= |t|
    ensures After(t, Start(l), l.words) && After(t, Start(l), AllWords(l))
    ensures forall w :: w in AllWords(l) ==> w.1 <= End(l.words, l.stop)
  {
    JoinedFits(cfg, t, l.words, l.stop, !l.dot);
    JoinedChained(cfg, t, l.words, l.stop, !l.dot);
    ChainedAfter(t, l.words);
  }

  /** The whole span: the text from its beginning to its end, with its words. */
  function WholeEvent(t: seq<nat>, p: int, l: Layout): Event
    requires l.words != [] && 0 <= Start(l) <= End(l.words, l.stop) <= |t| && After(t, Start(l), AllWords(l))
  {
    SpanEvent(Bytes(t, Start(l), End(l.words, l.stop)), Offsets(t, Start(l), AllWords(l)), p,
              Bpos(t, End(l.words, l.stop)))
  }

  lemma {:induction false} LayoutSpan(cfg: Config, t: seq<nat>, p: int, l: Layout)
    requires Usual(cfg, t, l)
    ensures Fits(t, l.words, l.stop) && 0 <= Start(l) <= End(l.words, l.stop) <= |t| && After(t, Start(l), AllWords(l))
    ensures SpansFrom(cfg, t, Head(l), HeadWords(l), p, l.words, l.stop) == [WholeEvent(t, p, l)]
  {
    UsualFits(cfg, t, l);
    var s: nat := Start(l);
    HeadIs(t, l, s);
    NotCut(cfg, t, s, HeadWords(l), p, l.words, l.stop, l.words[0].0, End(l.words, l.stop));
  }

  lemma {:induction false} HeadIs(t: seq<nat>, l: Layout, s: nat)
    requires l.words != [] && s == Start(l) && s <= l.words[0].0 <= |t| && After(t, s, l.words)
    requires l.dot ==> t[s] == '.' as nat
    ensures After(t, s, AllWords(l))
    ensures Head(l) == Bytes(t, s, l.words[0].0) && HeadWords(l) + Offsets(t, s, l.words) == Offsets(t, s, AllWords(l))
  {
    if l.dot {
      assert Bytes(t, s, s + 1) == [] + Enc(t[s]) == Enc(t[s]);
      assert AllWords(l)[0] == (s, s);
      OffsetsFirst(t, s, AllWords(l), [], HeadWords(l), s, s);
      assert AllWords(l)[1..] == l.words;
      assert [] + Offsets(t, s, AllWords(l)) == Offsets(t, s, AllWords(l));
    } else {
      assert AllWords(l) == l.words;
      assert [] + Offsets(t, s, l.words) == Offsets(t, s, l.words);
    }
  }

  // Rows of words as stretches of the text.

  /** The term is the text from word `i` to word `j`, the span being at position `p`. */
  predicate TextRow(t: seq<nat>, p: int, l: Layout, i: nat, j: nat, term: Term)
    requires l.words != [] && Start(l) >= 0
  {
    var ws := AllWords(l);
    && i <= j < |ws| && ws[i].0 <= ws[j].1 <= |t|
    && term == Term(Bytes(t, ws[i].0, ws[j].1), p + i - (if l.dot && i > 0 then 1 else 0),
                    Bpos(t, ws[i].0), Bpos(t, ws[j].1))
  }

  lemma {:induction false} BytesSlice(t: seq<nat>, s: nat, e: nat, x: nat, y: nat)
    requires s <= x <= y <= e <= |t|
    ensures |Bytes(t, s, x)| <= |Bytes(t, s, y)| <= |Bytes(t, s, e)|
    ensures Bytes(t, s, e)[|Bytes(t, s, x)|..|Bytes(t, s, y)|] == Bytes(t, x, y)
  {
    BytesJoin(t, s, x, y);
    BytesJoin(t, s, y, e);
  }

  lemma {:induction false} NonEmptyWords(t: seq<nat>, s: nat, l: Layout, words: seq<Range>, i: nat)
    requires l.words != [] && s == Start(l) && After(t, s, AllWords(l)) && words == Offsets(t, s, AllWords(l))
    requires i <= |words| && forall w :: w in l.words ==> w.0 < w.1
    ensures NonEmpty(words, i) == i - (if l.dot && i > 0 then 1 else 0)
  {
    if i > 0 {
      NonEmptyWords(t, s, l, words, i - 1);
      var ws := AllWords(l);
      var w := ws[i - 1];
      assert w in ws;
      OffsetAt(t, s, ws, i - 1);
      if !(l.dot && i == 1) {
        assert w in l.words;
        BytesJoin(t, s, w.0, w.1);
        BytesLong(t, w.0, w.1);
      }
    }
  }

  lemma {:induction false} StretchOfSpan(t: seq<nat>, s: nat, e: nat, x: nat, y: nat, span: seq<Octet>, base: int)
    requires s <= x <= y <= e <= |t| && span == Bytes(t, s, e) && base == Bpos(t, e) - |span|
    ensures |Bytes(t, s, x)| <= |Bytes(t, s, y)| <= |span|
    ensures span[|Bytes(t, s, x)|..|Bytes(t, s, y)|] == Bytes(t, x, y)
    ensures base + |Bytes(t, s, x)| == Bpos(t, x) && base + |Bytes(t, s, y)| == Bpos(t, y)
  {
    BytesSlice(t, s, e, x, y);
  }

  lemma {:induction false} RowMatch(span: seq<Octet>, words: seq<Range>, i: nat, j: nat, p: int, base: int, term: Term,
                                    row: Term)
    requires i <= j < |words| && words[i].first <= words[j].second <= |span|
    requires row == Term(span[words[i].first..words[j].second], p + NonEmpty(words, i),
                         base + words[i].first, base + words[j].second)
    ensures IsRow(span, words, i, j, p, base, term) <==> term == row
  {
  }

  /** The rows of words of the span are these stretches. */
  lemma {:induction false} RowIffText(cfg: Config, t: seq<nat>, p: int, l: Layout, i: nat, j: nat, term: Term,
                                      s: nat, e: nat, span: seq<Octet>, words: seq<Range>, base: int)
    requires Usual(cfg, t, l) && s == Start(l) && e == End(l.words, l.stop) && s <= e <= |t| && After(t, s, AllWords(l))
    requires span == Bytes(t, s, e) && words == Offsets(t, s, AllWords(l)) && base == Bpos(t, e) - |span|
    ensures IsRow(span, words, i, j, p, base, term) <==> TextRow(t, p, l, i, j, term)
  {
    if i <= j < |AllWords(l)| {
      UsualFits(cfg, t, l);
      RowIn(t, p, l, i, j, term, s, e, span, words, base);
    }
  }

  lemma {:induction false} RowIn(t: seq<nat>, p: int, l: Layout, i: nat, j: nat, term: Term,
                                 s: nat, e: nat, span: seq<Octet>, words: seq<Range>, base: int)
    requires Chained(t, l.words) && s == Start(l) && e == End(l.words, l.stop) && s <= e <= |t| && After(t, s, AllWords(l))
    requires span == Bytes(t, s, e) && words == Offsets(t, s, AllWords(l)) && base == Bpos(t, e) - |span|
    requires i <= j < |AllWords(l)| && forall w :: w in AllWords(l) ==> w.1 <= e
    ensures IsRow(span, words, i, j, p, base, term) <==> TextRow(t, p, l, i, j, term)
  {
    var x, y := AllWords(l)[i].0, AllWords(l)[j].1;
    RowEnds(t, l, i, j, s, e, words, x, y);
    StretchOfSpan(t, s, e, x, y, span, base);
    NonEmptyWords(t, s, l, words, i);
    RowMatch(span, words, i, j, p, base, term,
             Term(Bytes(t, x, y), p + i - (if l.dot && i > 0 then 1 else 0), Bpos(t, x), Bpos(t, y)));
  }

  lemma {:induction false} RowEnds(t: seq<nat>, l: Layout, i: nat, j: nat, s: nat, e: nat, words: seq<Range>, x: nat, y: nat)
    requires Chained(t, l.words) && s == Start(l) && After(t, s, AllWords(l)) && words == Offsets(t, s, AllWords(l))
    requires i <= j < |AllWords(l)| && (forall w :: w in AllWords(l) ==> w.1 <= e)
    requires x == AllWords(l)[i].0 && y == AllWords(l)[j].1
    ensures s <= x <= y <= e && y <= |t|
    ensures words[i].first == |Bytes(t, s, x)| && words[j].second == |Bytes(t, s, y)|
    ensures forall w :: w in l.words ==> w.0 < w.1
  {
    var ws := AllWords(l);
    assert ws[j] in ws;
    WordsApart(t, l, i, j);
    OffsetAt(t, s, ws, i);
    OffsetAt(t, s, ws, j);
  }

  lemma WordsApart(t: seq<nat>, l: Layout, i: nat, j: nat)
    requires Chained(t, l.words) && Start(l) >= 0 && i <= j < |AllWords(l)|
    ensures AllWords(l)[i].0 <= AllWords(l)[j].1 <= |t| && forall w :: w in l.words ==> w.0 < w.1
  {
    ChainedAfter(t, l.words);
    forall w | w in l.words ensures w.0 < w.1 {
      var k :| 0 <= k < |l.words| && l.words[k] == w;
    }
    var d := if l.dot then 1 else 0;
    if j >= d {
      assert AllWords(l)[j] == l.words[j - d];
      if d <= i < j {
        assert AllWords(l)[i] == l.words[i - d];
        assert l.words[i - d].1 < l.words[j - d].0;
      }
    }
  }

  ghost predicate AnyTextRow(t: seq<nat>, p: int, l: Layout, term: Term)
    requires l.words != [] && Start(l) >= 0
  {
    exists i: nat, j: nat :: TextRow(t, p, l, i, j, term)
  }

  /** The two words without the hyphen between them. */
  predicate TextHyphen(cfg: Config, t: seq<nat>, p: int, l: Layout, term: Term) {
    && cfg.deHyphenate && !l.dot && |l.words| == 2
    && var (a, b) := l.words[0];
       var (c, d) := l.words[1];
       && a <= b < c <= d <= |t| && t[b] == '-' as nat
       && term == Term(Bytes(t, a, b) + Bytes(t, c, d), p, Bpos(t, a), Bpos(t, d))
  }

  /** What the span at position `p` gives in the indexing mode: any stretch of text from a word to a later one,
      the letters of an acronym, two words without their hyphen. */
  ghost predicate Given(cfg: Config, t: seq<nat>, p: int, l: Layout, term: Term)
    requires l.words != [] && 0 <= Start(l) <= End(l.words, l.stop) <= |t|
  {
    || AnyTextRow(t, p, l, term)
    || IsAcronymTerm(Bytes(t, Start(l), End(l.words, l.stop)), p, Bpos(t, End(l.words, l.stop)), term)
    || TextHyphen(cfg, t, p, l, term)
  }

  lemma {:induction false} AnyRowIffText(cfg: Config, t: seq<nat>, p: int, l: Layout, term: Term,
                                         s: nat, e: nat, span: seq<Octet>, words: seq<Range>, base: int)
    requires Usual(cfg, t, l) && s == Start(l) && e == End(l.words, l.stop) && s <= e <= |t| && After(t, s, AllWords(l))
    requires span == Bytes(t, s, e) && words == Offsets(t, s, AllWords(l)) && base == Bpos(t, e) - |span|
    ensures AnyRow(span, words, p, base, term) <==> AnyTextRow(t, p, l, term)
  {
    forall i: nat, j: nat ensures IsRow(span, words, i, j, p, base, term) <==> TextRow(t, p, l, i, j, term) {
      RowIffText(cfg, t, p, l, i, j, term, s, e, span, words, base);
    }
  }

  lemma {:induction false} HyphenIffText(cfg: Config, t: seq<nat>, p: int, l: Layout, term: Term,
                                         s: nat, e: nat, span: seq<Octet>, words: seq<Range>, base: int)
    requires Usual(cfg, t, l) && s == Start(l) && e == End(l.words, l.stop) && s <= e <= |t| && After(t, s, AllWords(l))
    requires span == Bytes(t, s, e) && words == Offsets(t, s, AllWords(l)) && base == Bpos(t, e) - |span|
    ensures IsHyphenTerm(cfg, span, words, p, base, term) <==> TextHyphen(cfg, t, p, l, term)
  {
    if |words| == 2 {
      OffsetAt(t, s, AllWords(l), 0);
      if !l.dot {
        UsualFits(cfg, t, l);
        HyphenIn(cfg, t, p, l, term, e, span, words, base, s, l.words[0].1, l.words[1].1);
      }
    }
  }

  lemma {:induction false} HyphenIn(cfg: Config, t: seq<nat>, p: int, l: Layout, term: Term, e: nat, span: seq<Octet>,
                                    words: seq<Range>, base: int, a: nat, b: nat, d: nat)
    requires Chained(t, l.words) && !l.dot && l.words == [(a, b), (b + 1, d)] && b + 1 < d <= e <= |t|
    requires After(t, a, l.words) && words == Offsets(t, a, l.words)
    requires span == Bytes(t, a, e) && base == Bpos(t, e) - |span|
    ensures IsHyphenTerm(cfg, span, words, p, base, term) <==> TextHyphen(cfg, t, p, l, term)
  {
    var x, y, z := |Bytes(t, a, b)|, |Bytes(t, a, b + 1)|, |Bytes(t, a, d)|;
    OffsetAt(t, a, l.words, 0);
    OffsetAt(t, a, l.words, 1);
    FirstWord(t, a, e, b, span, base, x);
    NextWord(t, a, e, b + 1, d, span, base, y, z);
    ByteBetween(t, a, e, b, span, base);
    HyphenMatch(cfg, span, words, p, base, term, x, y, z);
  }

  lemma HyphenMatch(cfg: Config, span: seq<Octet>, words: seq<Range>, p: int, base: int, term: Term,
                    x: nat, y: nat, z: nat)
    requires |words| == 2 && words[0] == Range(0, x) && words[1] == Range(y, z) && 0 < x < y < z <= |span|
    ensures IsHyphenTerm(cfg, span, words, p, base, term) <==>
            cfg.deHyphenate && span[x] == Octet('-' as nat, 0) &&
            term == Term(span[0..x] + span[y..z], p, base, base + z)
  {
  }

  lemma {:induction false} FirstWord(t: seq<nat>, s: nat, e: nat, b: nat, span: seq<Octet>, base: int, x: nat)
    requires s < b <= e <= |t| && span == Bytes(t, s, e) && base == Bpos(t, e) - |span| && x == |Bytes(t, s, b)|
    ensures 0 < x <= |span| && span[0..x] == Bytes(t, s, b) && base == Bpos(t, s)
  {
    BytesJoin(t, s, b, e);
    BytesLong(t, s, b);
  }

  lemma {:induction false} NextWord(t: seq<nat>, s: nat, e: nat, c: nat, d: nat, span: seq<Octet>, base: int, y: nat,
                                    z: nat)
    requires s <= c < d <= e <= |t| && span == Bytes(t, s, e) && base == Bpos(t, e) - |span|
    requires y == |Bytes(t, s, c)| && z == |Bytes(t, s, d)|
    ensures y < z <= |span| && span[y..z] == Bytes(t, c, d) && base + z == Bpos(t, d)
  {
    StretchOfSpan(t, s, e, c, d, span, base);
    LongerBytes(t, s, c, d);
  }

  lemma {:induction false} LongerBytes(t: seq<nat>, s: nat, x: nat, y: nat)
    requires s <= x < y <= |t|
    ensures |Bytes(t, s, x)| < |Bytes(t, s, y)|
  {
    BytesJoin(t, s, x, y);
    BytesLong(t, x, y);
  }

  lemma {:induction false} ByteBetween(t: seq<nat>, s: nat, e: nat, b: nat, span: seq<Octet>, base: int)
    requires s <= b < e <= |t| && span == Bytes(t, s, e) && base == Bpos(t, e) - |span|
    ensures |Bytes(t, s, b)| < |Bytes(t, s, b + 1)| <= |span| && span[|Bytes(t, s, b)|] == Octet(t[b], 0)
  {
    StretchOfSpan(t, s, e, b, b + 1, span, base);
    assert Bytes(t, b, b + 1) == [] + Enc(t[b]) == Enc(t[b]);
    assert Bytes(t, b, b + 1)[0] == span[|Bytes(t, s, b)|..|Bytes(t, s, b + 1)|][0] == span[|Bytes(t, s, b)|];
  }

  /** The span of a layout gives exactly this. */
  lemma {:induction false} GivenIff(cfg: Config, t: seq<nat>, p: int, l: Layout, term: Term)
    requires Usual(cfg, t, l)
    ensures 0 <= Start(l) <= End(l.words, l.stop) <= |t| && After(t, Start(l), AllWords(l))
    ensures FromSpan(cfg, WholeEvent(t, p, l), term) <==> Given(cfg, t, p, l, term)
  {
    UsualFits(cfg, t, l);
    var e := WholeEvent(t, p, l);
    AnyRowIffText(cfg, t, p, l, term, Start(l), End(l.words, l.stop), e.span, e.words, e.bp - |e.span|);
    HyphenIffText(cfg, t, p, l, term, Start(l), End(l.words, l.stop), e.span, e.words, e.bp - |e.span|);
  }

  ghost predicate AllUsual(cfg: Config, t: seq<nat>, ls: seq<Layout>) {
    forall l :: l in ls ==> Usual(cfg, t, l)
  }

  /** One of the spans gives it, the first being at position `p`. */
  ghost predicate GivenBy(cfg: Config, t: seq<nat>, p: int, ls: seq<Layout>, term: Term)
    requires AllUsual(cfg, t, ls)
    decreases |ls|
  {
    ls != [] &&
    (UsualFits(cfg, t, ls[0]);
     Given(cfg, t, p, ls[0], term) || GivenBy(cfg, t, p + |ls[0].words|, ls[1..], term))
  }

  lemma {:induction false} AllCount(cfg: Config, t: seq<nat>, ws: seq<(nat, nat)>)
    requires (forall w :: w in ws ==> w.0 <= w.1 <= |t|) && AllWanted(cfg, t, ws)
    ensures Wanted(cfg, t, ws) == |ws|
    decreases |ws|
  {
    if ws != [] {
      assert ws[0] in ws;
      AllCount(cfg, t, ws[1..]);
    }
  }

  lemma {:induction false} FirstWhole(cfg: Config, t: seq<nat>, p: int, ls: seq<Layout>, l: Layout, p': int)
    requires AllUsual(cfg, t, ls) && AllFit(t, ls) && ls != [] && l == ls[0] && p' == p + |l.words|
    ensures Usual(cfg, t, l) && AllUsual(cfg, t, ls[1..]) && AllFit(t, ls[1..])
    ensures 0 <= Start(l) <= End(l.words, l.stop) <= |t| && After(t, Start(l), AllWords(l))
    ensures LayoutSpans(cfg, t, p, ls) == [WholeEvent(t, p, l)] + LayoutSpans(cfg, t, p', ls[1..])
  {
    assert l in ls && forall x :: x in ls[1..] ==> x in ls;
    AllCount(cfg, t, l.words);
    SpansOfFirst(cfg, t, p, ls, p');
    LayoutSpan(cfg, t, p, l);
  }

  lemma {:induction false} FromSomeIff(cfg: Config, t: seq<nat>, p: int, ls: seq<Layout>, term: Term)
    requires AllUsual(cfg, t, ls) && AllFit(t, ls)
    ensures FromSome(cfg, LayoutSpans(cfg, t, p, ls), term) <==> GivenBy(cfg, t, p, ls, term)
    decreases |ls|
  {
    if ls != [] {
      var l, p' := ls[0], p + |ls[0].words|;
      FirstWhole(cfg, t, p, ls, l, p');
      FromSomeIff(cfg, t, p', ls[1..], term);
      FromSomeStep(cfg, t, p, ls, l, p', term, LayoutSpans(cfg, t, p', ls[1..]));
    }
  }

  lemma {:induction false} FromSomeStep(cfg: Config, t: seq<nat>, p: int, ls: seq<Layout>, l: Layout, p': int, term: Term,
                                        rest: seq<Event>)
    requires ls != [] && AllUsual(cfg, t, ls) && AllUsual(cfg, t, ls[1..]) && l == ls[0] && p' == p + |l.words|
    requires l.words != [] && 0 <= Start(l) <= End(l.words, l.stop) <= |t| && After(t, Start(l), AllWords(l))
    requires FromSome(cfg, rest, term) <==> GivenBy(cfg, t, p', ls[1..], term)
    ensures FromSome(cfg, [WholeEvent(t, p, l)] + rest, term) <==> GivenBy(cfg, t, p, ls, term)
  {
    assert l in ls;
    GivenIff(cfg, t, p, l, term);
    FromFirst(cfg, WholeEvent(t, p, l), rest, term);
    GivenByFirst(cfg, t, p, ls, l, p', term);
  }

  lemma {:induction false} GivenByFirst(cfg: Config, t: seq<nat>, p: int, ls: seq<Layout>, l: Layout, p': int, term: Term)
    requires ls != [] && AllUsual(cfg, t, ls) && AllUsual(cfg, t, ls[1..]) && l == ls[0] && p' == p + |l.words|
    requires l.words != [] && 0 <= Start(l) <= End(l.words, l.stop) <= |t|
    ensures GivenBy(cfg, t, p, ls, term) <==> Given(cfg, t, p, l, term) || GivenBy(cfg, t, p', ls[1..], term)
  {
  }

  lemma {:induction false} FromFirst(cfg: Config, e: Event, rest: seq<Event>, term: Term)
    ensures FromSome(cfg, [e] + rest, term) <==> FromSpan(cfg, e, term) || FromSome(cfg, rest, term)
  {
    FromRest(cfg, [e] + rest, term);
    assert ([e] + rest)[1..] == rest;
  }

  /** The terms of a text in the indexing mode, said of the text alone: those of its spans that pass the length
      check, words being at consecutive positions. */
  lemma TextIff(cfg: Config, t: seq<nat>, ls: seq<Layout>, term: Term)
    requires cfg.ngramLen > 0 && Simple(cfg, t) && Laid(cfg, t, 0, ls) && AllUsual(cfg, t, ls)
    ensures term in Terms(cfg, DEFAULT, t) <==> Passes(cfg, term.word) && GivenBy(cfg, t, 0, ls, term)
  {
    IndexedIff(cfg, t, ls, term);
    FromSomeIff(cfg, t, 0, ls, term);
  }

  // The other modes.

  /** The text from word `i` to word `j`. */
  function RowTerm(t: seq<nat>, p: int, l: Layout, i: nat, j: nat): Term
    requires l.words != [] && Start(l) >= 0 && i <= j < |AllWords(l)| && AllWords(l)[i].0 <= AllWords(l)[j].1 <= |t|
  {
    var ws := AllWords(l);
    Term(Bytes(t, ws[i].0, ws[j].1), p + i - (if l.dot && i > 0 then 1 else 0), Bpos(t, ws[i].0), Bpos(t, ws[j].1))
  }

  /** Where single words are wanted, each word. Where whole spans are, the span from its first word to its last;
      where both are, only a span of one word. */
  function ModeRows(cfg: Config, mode: Mode, t: seq<nat>, p: int, l: Layout): seq<Term>
    requires Chained(t, l.words) && Start(l) >= 0 && mode != DEFAULT
  {
    var n := |AllWords(l)|;
    if mode.onlyspans then
      if mode.nospans && n > 1 then [] else WordsApart(t, l, 0, n - 1); [RowTerm(t, p, l, 0, n - 1)]
    else seq(n, k requires 0 <= k < n => WordsApart(t, l, k, k); RowTerm(t, p, l, k, k))
  }

  lemma {:induction false} RowIsTerm(cfg: Config, t: seq<nat>, p: int, l: Layout, i: nat, j: nat, term: Term,
                                     s: nat, e: nat, span: seq<Octet>, words: seq<Range>, base: int)
    requires Usual(cfg, t, l) && s == Start(l) && e == End(l.words, l.stop) && s <= e <= |t| && After(t, s, AllWords(l))
    requires span == Bytes(t, s, e) && words == Offsets(t, s, AllWords(l)) && base == Bpos(t, e) - |span|
    requires IsRow(span, words, i, j, p, base, term)
    ensures i <= j < |AllWords(l)| && AllWords(l)[i].0 <= AllWords(l)[j].1 <= |t| && term == RowTerm(t, p, l, i, j)
  {
    RowIffText(cfg, t, p, l, i, j, term, s, e, span, words, base);
  }

  lemma {:induction false} ModeRowsAre(cfg: Config, mode: Mode, t: seq<nat>, p: int, l: Layout,
                                       s: nat, e: nat, span: seq<Octet>, words: seq<Range>, base: int)
    requires Usual(cfg, t, l) && s == Start(l) && e == End(l.words, l.stop) && s <= e <= |t| && After(t, s, AllWords(l))
    requires span == Bytes(t, s, e) && words == Offsets(t, s, AllWords(l)) && base == Bpos(t, e) - |span|
    requires mode != DEFAULT && GoodSpan(span, words)
    ensures Chained(t, l.words) && TermsFrom(mode, span, words, 0, p, base) == ModeRows(cfg, mode, t, p, l)
  {
    UsualFits(cfg, t, l);
    var n, r, m := |AllWords(l)|, TermsFrom(mode, span, words, 0, p, base), ModeRows(cfg, mode, t, p, l);
    if mode.onlyspans {
      WholeRow(mode, span, words, p, base);
      if r != [] {
        RowIsTerm(cfg, t, p, l, 0, n - 1, r[0], s, e, span, words, base);
      }
    } else {
      SingleRows(span, words, 0, p, base);
      forall k: nat | k < n ensures r[k] == m[k] {
        assert IsRow(span, words, 0 + k, 0 + k, p, base, r[k]);
        RowIsTerm(cfg, t, p, l, k, k, r[k], s, e, span, words, base);
      }
    }
  }

  function Hyphens(cfg: Config, t: seq<nat>, p: int, l: Layout): seq<Term>
    requires Chained(t, l.words)
  {
    if cfg.deHyphenate && !l.dot && |l.words| == 2 then
      ChainedAfter(t, l.words);
      var (a, b) := l.words[0];
      var (c, d) := l.words[1];
      if t[b] == '-' as nat then [Term(Bytes(t, a, b) + Bytes(t, c, d), p, Bpos(t, a), Bpos(t, d))] else []
    else []
  }

  /** The letters of an acronym and two words without their hyphen, which every mode gives. */
  function Others(cfg: Config, t: seq<nat>, p: int, l: Layout): seq<Term>
    requires Chained(t, l.words) && 0 <= Start(l) <= End(l.words, l.stop) <= |t|
  {
    var span := Bytes(t, Start(l), End(l.words, l.stop));
    (if IsInitials(span) then [Term(Letters(span), p, Bpos(t, Start(l)), Bpos(t, End(l.words, l.stop)))] else [])
    + Hyphens(cfg, t, p, l)
  }

  lemma {:induction false} OthersAre(cfg: Config, t: seq<nat>, p: int, l: Layout,
                                     s: nat, e: nat, span: seq<Octet>, words: seq<Range>, base: int)
    requires Usual(cfg, t, l) && s == Start(l) && e == End(l.words, l.stop) && s <= e <= |t| && After(t, s, AllWords(l))
    requires span == Bytes(t, s, e) && words == Offsets(t, s, AllWords(l)) && base == Bpos(t, e) - |span|
    requires GoodSpan(span, words)
    ensures Chained(t, l.words)
    ensures (if IsInitials(span) then [Term(Letters(span), p, base, Bpos(t, e))] else []) +
            Dehyphenated(cfg, span, words, p, base) == Others(cfg, t, p, l)
  {
    UsualFits(cfg, t, l);
    HyphensAre(cfg, t, p, l, s, e, span, words, base);
  }

  lemma {:induction false} HyphensAre(cfg: Config, t: seq<nat>, p: int, l: Layout,
                                      s: nat, e: nat, span: seq<Octet>, words: seq<Range>, base: int)
    requires Usual(cfg, t, l) && s == Start(l) && e == End(l.words, l.stop) && s <= e <= |t| && After(t, s, AllWords(l))
    requires span == Bytes(t, s, e) && words == Offsets(t, s, AllWords(l)) && base == Bpos(t, e) - |span|
    requires GoodSpan(span, words)
    ensures Chained(t, l.words) && Dehyphenated(cfg, span, words, p, base) == Hyphens(cfg, t, p, l)
  {
    UsualFits(cfg, t, l);
    var d, h := Dehyphenated(cfg, span, words, p, base), Hyphens(cfg, t, p, l);
    if d != [] {
      HyphenIff(cfg, span, words, p, base, d[0]);
      HyphenIffText(cfg, t, p, l, d[0], s, e, span, words, base);
    }
    if h != [] {
      HyphenIff(cfg, span, words, p, base, h[0]);
      HyphenIffText(cfg, t, p, l, h[0], s, e, span, words, base);
    }
  }

  /** The terms of one span that pass the length check. */
  function LayoutTerms(cfg: Config, mode: Mode, t: seq<nat>, p: int, l: Layout): seq<Term>
    requires Chained(t, l.words) && 0 <= Start(l) <= End(l.words, l.stop) <= |t| && mode != DEFAULT
  {
    Passing(cfg, Others(cfg, t, p, l) + ModeRows(cfg, mode, t, p, l))
  }

  /** The terms of the spans in such a mode, the first span being at position `p`. */
  function TextTerms(cfg: Config, mode: Mode, t: seq<nat>, p: int, ls: seq<Layout>): seq<Term>
    requires AllChained(t, ls) && mode != DEFAULT
    decreases |ls|
  {
    if ls == [] then []
    else LayoutTerms(cfg, mode, t, p, ls[0]) + TextTerms(cfg, mode, t, p + |ls[0].words|, ls[1..])
  }

  predicate AllChained(t: seq<nat>, ls: seq<Layout>) {
    forall l :: l in ls ==> Chained(t, l.words) && 0 <= Start(l) <= End(l.words, l.stop) <= |t|
  }

  lemma {:induction false} FirstGives(cfg: Config, mode: Mode, t: seq<nat>, p: int, l: Layout, rest: seq<Event>,
                                      terms: seq<Term>)
    requires Usual(cfg, t, l) && mode != DEFAULT
    requires 0 <= Start(l) <= End(l.words, l.stop) <= |t| && After(t, Start(l), AllWords(l))
    requires GoodSpan(WholeEvent(t, p, l).span, WholeEvent(t, p, l).words) && SpansGive(cfg, mode, t, rest, terms)
    ensures Chained(t, l.words)
    ensures SpansGive(cfg, mode, t, [WholeEvent(t, p, l)] + rest,
                      LayoutTerms(cfg, mode, t, p, l) + terms)
  {
    var e := WholeEvent(t, p, l);
    OthersAre(cfg, t, p, l, Start(l), End(l.words, l.stop), e.span, e.words, e.bp - |e.span|);
    ModeRowsAre(cfg, mode, t, p, l, Start(l), End(l.words, l.stop), e.span, e.words, e.bp - |e.span|);
    SpanGivesMore(cfg, mode, t, e, rest, Passing(cfg, Offered(cfg, mode, e.span, e.words, p, e.bp)), terms);
  }

  lemma {:induction false} TextTermsFirst(cfg: Config, mode: Mode, t: seq<nat>, p: int, ls: seq<Layout>, l: Layout,
                                          p': int)
    requires ls != [] && AllChained(t, ls) && mode != DEFAULT && l == ls[0] && p' == p + |l.words|
    requires AllChained(t, ls[1..]) && Chained(t, l.words) && 0 <= Start(l) <= End(l.words, l.stop) <= |t|
    ensures TextTerms(cfg, mode, t, p, ls) ==
            LayoutTerms(cfg, mode, t, p, l) + TextTerms(cfg, mode, t, p', ls[1..])
  {
    assert p + |ls[0].words| == p';
    var rest := TextTerms(cfg, mode, t, p', ls[1..]);
    assert TextTerms(cfg, mode, t, p, ls) == LayoutTerms(cfg, mode, t, p, l) + rest;
  }

  lemma ChainedRest(t: seq<nat>, ls: seq<Layout>, l: Layout)
    requires ls != [] && AllChained(t, ls) && l == ls[0]
    ensures AllChained(t, ls[1..]) && Chained(t, l.words) && 0 <= Start(l) <= End(l.words, l.stop) <= |t|
  {
    assert l in ls && forall x :: x in ls[1..] ==> x in ls;
  }

  lemma {:induction false} LayoutGives(cfg: Config, mode: Mode, t: seq<nat>, p: int, ls: seq<Layout>, l: Layout, p': int,
                                       events: seq<Event>, rest: seq<Event>)
    requires ls != [] && Usual(cfg, t, l) && mode != DEFAULT && AllChained(t, ls) && AllChained(t, ls[1..])
    requires l == ls[0] && p' == p + |l.words|
    requires 0 <= Start(l) <= End(l.words, l.stop) <= |t| && After(t, Start(l), AllWords(l))
    requires events == [WholeEvent(t, p, l)] + rest && AllGood(Spoken(events))
    requires SpansGive(cfg, mode, t, rest, TextTerms(cfg, mode, t, p', ls[1..]))
    ensures SpansGive(cfg, mode, t, events, TextTerms(cfg, mode, t, p, ls))
  {
    FirstGood(WholeEvent(t, p, l), rest);
    FirstGives(cfg, mode, t, p, l, rest, TextTerms(cfg, mode, t, p', ls[1..]));
    ChainedRest(t, ls, l);
    TextTermsFirst(cfg, mode, t, p, ls, l, p');
  }

  lemma {:induction false} LayoutsGive(cfg: Config, mode: Mode, t: seq<nat>, p: int, ls: seq<Layout>, events: seq<Event>)
    requires AllUsual(cfg, t, ls) && AllFit(t, ls) && mode != DEFAULT && AllChained(t, ls)
    requires events == LayoutSpans(cfg, t, p, ls) && AllGood(Spoken(events))
    ensures SpansGive(cfg, mode, t, events, TextTerms(cfg, mode, t, p, ls))
    decreases |ls|
  {
    if ls == [] {
      SpansGiveIs(cfg, mode, t, [], []);
    } else {
      var l, p' := ls[0], p + |ls[0].words|;
      FirstWhole(cfg, t, p, ls, l, p');
      ChainedRest(t, ls, l);
      var rest := LayoutSpans(cfg, t, p', ls[1..]);
      FirstGood(WholeEvent(t, p, l), rest);
      LayoutsGive(cfg, mode, t, p', ls[1..], rest);
      LayoutGives(cfg, mode, t, p, ls, l, p', events, rest);
    }
  }

  lemma {:induction false} FirstGood(e: Event, rest: seq<Event>)
    requires e.SpanEvent? && e.words != [] && AllGood(Spoken([e] + rest))
    ensures GoodSpan(e.span, e.words) && AllGood(Spoken(rest))
  {
    assert ([e] + rest)[1..] == rest && ([e] + rest)[0] == e;
    assert Spoken([e] + rest) == [e] + Spoken(rest);
    assert ([e] + Spoken(rest))[1..] == Spoken(rest);
  }

  /** The terms of a text in the other modes, said of the text alone, in order. */
  lemma TextModes(cfg: Config, mode: Mode, t: seq<nat>, ls: seq<Layout>)
    requires cfg.ngramLen > 0 && Simple(cfg, t) && Laid(cfg, t, 0, ls) && AllUsual(cfg, t, ls) && mode != DEFAULT
    ensures AllChained(t, ls) && Terms(cfg, mode, t) == TextTerms(cfg, mode, t, 0, ls)
  {
    forall l | l in ls ensures Chained(t, l.words) && 0 <= Start(l) <= End(l.words, l.stop) <= |t| {
      UsualFits(cfg, t, l);
    }
    LaidTerms(cfg, mode, t, ls);
    LayoutsGive(cfg, mode, t, 0, ls, LayoutSpans(cfg, t, 0, ls));
    SpansGiveIs(cfg, mode, t, LayoutSpans(cfg, t, 0, ls), TextTerms(cfg, mode, t, 0, ls));
  }
}
