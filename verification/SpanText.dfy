/** The terms of a text that is laid out in spans: those of its spans, in each output mode. */
module SpanText {
  import opened Closed
  import opened SplitText
  import opened NGrams
  import opened NGramRuns
  import opened SpanSpec
  import opened SpanInvariant
  import opened SpanTerms
  import opened Agreement
  import opened TermRows
  import opened SpanWords
  import opened SpanLayout

  // Spans without words give no terms.

  lemma NoWords(cfg: Config, mode: Mode, span: seq<Octet>, spanpos: int, bp: int)
    requires GoodSpan(span, [])
    ensures Offered(cfg, mode, span, [], spanpos, bp) == []
  {
    assert IsInitials(span) ==> StartsInitials(span);
  }

  lemma {:induction false} PassedSpoken(cfg: Config, mode: Mode, t: seq<nat>, events: seq<Event>)
    requires AllGood(events)
    ensures AllGood(Spoken(events)) && Passed(cfg, mode, t, events) == Passed(cfg, mode, t, Spoken(events))
    decreases |events|
  {
    if events != [] {
      PassedSpoken(cfg, mode, t, events[1..]);
      var e := events[0];
      if e.SpanEvent? && e.words == [] {
        NoWords(cfg, mode, e.span, e.spanpos, e.bp);
        assert Spoken(events) == Spoken(events[1..]);
      } else {
        assert Spoken(events)[0] == e && Spoken(events)[1..] == Spoken(events[1..]);
      }
    }
  }

  /** The terms of a text that is laid out in spans are those of its spans, in each output mode. */
  lemma LaidTerms(cfg: Config, mode: Mode, t: seq<nat>, ls: seq<Layout>)
    requires cfg.ngramLen > 0 && Simple(cfg, t) && Laid(cfg, t, 0, ls)
    ensures AllFit(t, ls) && AllGood(Spoken(LayoutSpans(cfg, t, 0, ls)))
    ensures Terms(cfg, mode, t) == Passed(cfg, mode, t, Spoken(LayoutSpans(cfg, t, 0, ls)))
  {
    LaidGives(cfg, t, ls);
    NoDuplicates(cfg, mode, t);
    PassedSpoken(cfg, mode, t, Run(cfg, t, START));
  }

  // Membership in the indexing mode.

  /** The term is given by this span: a row of its words, the letters of an acronym, or its two words without
      their hyphen. */
  ghost predicate FromSpan(cfg: Config, e: Event, term: Term) {
    && e.SpanEvent? && e.words != []
    && (|| AnyRow(e.span, e.words, e.spanpos, e.bp - |e.span|, term)
        || IsAcronymTerm(e.span, e.spanpos, e.bp, term)
        || IsHyphenTerm(cfg, e.span, e.words, e.spanpos, e.bp - |e.span|, term))
  }

  ghost predicate AllSpans(events: seq<Event>) {
    forall e :: e in events ==> e.SpanEvent?
  }

  lemma {:induction false} PassingOnly(cfg: Config, terms: seq<Term>, term: Term)
    ensures term in Passing(cfg, terms) <==> term in terms && Passes(cfg, term.word)
    decreases |terms|
  {
    if terms != [] {
      PassingOnly(cfg, terms[1..], term);
    }
  }

  ghost predicate FromSome(cfg: Config, events: seq<Event>, term: Term) {
    exists e :: e in events && FromSpan(cfg, e, term)
  }

  lemma FromRest(cfg: Config, events: seq<Event>, term: Term)
    requires events != []
    ensures FromSome(cfg, events, term) <==> FromSpan(cfg, events[0], term) || FromSome(cfg, events[1..], term)
  {
    if e :| e in events && FromSpan(cfg, e, term) {
      assert e == events[0] || e in events[1..];
    }
    if e :| e in events[1..] && FromSpan(cfg, e, term) {
      assert e in events;
    }
  }

  lemma {:induction false} PassedIff(cfg: Config, t: seq<nat>, events: seq<Event>, term: Term)
    requires AllSpans(events) && AllGood(Spoken(events))
    ensures term in Passed(cfg, DEFAULT, t, Spoken(events)) <==> Passes(cfg, term.word) && FromSome(cfg, events, term)
    decreases |events|
  {
    if events != [] {
      var e := events[0];
      assert e in events;
      FromRest(cfg, events, term);
      if e.words == [] {
        assert Spoken(events) == Spoken(events[1..]);
        PassedIff(cfg, t, events[1..], term);
      } else {
        assert Spoken(events)[0] == e && Spoken(events)[1..] == Spoken(events[1..]);
        PassedIff(cfg, t, events[1..], term);
        OfferedPasses(cfg, e, term);
      }
    }
  }

  lemma OfferedPasses(cfg: Config, e: Event, term: Term)
    requires e.SpanEvent? && GoodSpan(e.span, e.words) && e.words != []
    ensures term in Passing(cfg, Offered(cfg, DEFAULT, e.span, e.words, e.spanpos, e.bp)) <==>
            Passes(cfg, term.word) && FromSpan(cfg, e, term)
  {
    PassingOnly(cfg, Offered(cfg, DEFAULT, e.span, e.words, e.spanpos, e.bp), term);
    OfferedIff(cfg, e.span, e.words, e.spanpos, e.bp, term);
  }

  lemma {:induction false} SpansFromSpans(cfg: Config, t: seq<nat>, span: seq<Octet>, words: seq<Range>, p: int,
                                          ws: seq<(nat, nat)>, stop: bool)
    requires ws != [] && Fits(t, ws, stop)
    ensures AllSpans(SpansFrom(cfg, t, span, words, p, ws, stop))
    decreases |ws|
  {
    if |ws| > 1 {
      var (a, b) := ws[0];
      var s, r := span + Bytes(t, a, b), More(cfg, t, span, words, a, b);
      assert forall k :: 1 <= k < |ws| ==> ws[1..][k - 1] == ws[k];
      if |r| >= cfg.maxWordsInSpan {
        SpansFromSpans(cfg, t, Enc(t[b]), [], p + WordCount(r), ws[1..], stop);
      } else {
        SpansFromSpans(cfg, t, s + Enc(t[b]), r, p, ws[1..], stop);
      }
    }
  }

  lemma {:induction false} LayoutSpansSpans(cfg: Config, t: seq<nat>, p: int, ls: seq<Layout>)
    requires AllFit(t, ls)
    ensures AllSpans(LayoutSpans(cfg, t, p, ls))
    decreases |ls|
  {
    if ls != [] {
      SpansFromSpans(cfg, t, Head(ls[0]), HeadWords(ls[0]), p, ls[0].words, ls[0].stop);
      LayoutSpansSpans(cfg, t, p + Wanted(cfg, t, ls[0].words), ls[1..]);
    }
  }

  /** In the indexing mode a term is given exactly when it passes the length check and is, for one of the
      spans, a row of its words, the letters of an acronym, or two words without their hyphen. */
  lemma IndexedIff(cfg: Config, t: seq<nat>, ls: seq<Layout>, term: Term)
    requires cfg.ngramLen > 0 && Simple(cfg, t) && Laid(cfg, t, 0, ls)
    ensures AllFit(t, ls)
    ensures term in Terms(cfg, DEFAULT, t) <==> Passes(cfg, term.word) && FromSome(cfg, LayoutSpans(cfg, t, 0, ls), term)
  {
    LaidTerms(cfg, DEFAULT, t, ls);
    LayoutSpansSpans(cfg, t, 0, ls);
    PassedIff(cfg, t, LayoutSpans(cfg, t, 0, ls), term);
  }

  // The terms of a list of spans, one span at a time.

  /** Finished spans of which these terms reach the consumer. */
  ghost predicate SpansGive(cfg: Config, mode: Mode, t: seq<nat>, events: seq<Event>, terms: seq<Term>) {
    forall eye :: Look(eye) ==> AllGood(Spoken(events)) && Passed(cfg, mode, t, Spoken(events)) == terms
  }

  lemma SpansGiveIs(cfg: Config, mode: Mode, t: seq<nat>, events: seq<Event>, terms: seq<Term>)
    ensures SpansGive(cfg, mode, t, events, terms) <==>
            AllGood(Spoken(events)) && Passed(cfg, mode, t, Spoken(events)) == terms
  {
    if SpansGive(cfg, mode, t, events, terms) {
      assert Look(Eye);
    }
  }

  lemma {:induction false} SpanGivesMore(cfg: Config, mode: Mode, t: seq<nat>, e: Event, rest: seq<Event>, here: seq<Term>,
                                    terms: seq<Term>)
    requires e.SpanEvent? && e.words != [] && GoodSpan(e.span, e.words) && SpansGive(cfg, mode, t, rest, terms)
    requires here == Passing(cfg, Offered(cfg, mode, e.span, e.words, e.spanpos, e.bp))
    ensures SpansGive(cfg, mode, t, [e] + rest, here + terms)
  {
    SpansGiveIs(cfg, mode, t, rest, terms);
    SpansGiveIs(cfg, mode, t, [e] + rest, here + terms);
    assert ([e] + rest)[1..] == rest;
    assert Spoken([e] + rest) == [e] + Spoken(rest);
    assert ([e] + Spoken(rest))[1..] == Spoken(rest);
  }

  lemma {:induction false} SpanGivesNone(cfg: Config, mode: Mode, t: seq<nat>, e: Event, rest: seq<Event>, terms: seq<Term>)
    requires e.SpanEvent? && e.words == [] && SpansGive(cfg, mode, t, rest, terms)
    ensures SpansGive(cfg, mode, t, [e] + rest, terms)
  {
    SpansGiveIs(cfg, mode, t, rest, terms);
    SpansGiveIs(cfg, mode, t, [e] + rest, terms);
    assert ([e] + rest)[1..] == rest;
    assert Spoken([e] + rest) == Spoken(rest);
  }
}
