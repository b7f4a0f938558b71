/** Terms of a whole text, and the agreement of the output modes: whatever a query-time mode gives, the
    indexing mode gives too, at the same position and byte offsets. */
module Agreement {
  import Acronyms
  import opened SplitText
  import opened NGrams
  import opened NGramRuns
  import opened SpanSpec
  import opened SpanInvariant
  import opened SpanTerms

  ghost predicate AllGood(events: seq<Event>)
    decreases |events|
  {
    events == [] || ((events[0].SpanEvent? ==> GoodSpan(events[0].span, events[0].words)) && AllGood(events[1..]))
  }

  lemma {:induction false} RisingGood(events: seq<Event>, lo: int, hi: int)
    requires Rising(events, lo, hi)
    ensures AllGood(events)
    decreases |events|
  {
    if events != [] {
      match events[0]
      case SpanEvent(_, words, spanpos, _) => RisingGood(events[1..], spanpos + WordCount(words), hi);
      case SectionEvent(_, _) => RisingGood(events[1..], lo, hi);
      case PunctEvent(_) => RisingGood(events[1..], lo, hi);
    }
  }

  function SectionTerms(cfg: Config, mode: Mode, t: seq<nat>, start: nat, pos: int): seq<Term> {
    if start <= |t| && cfg.ngramLen > 0 then Section(cfg, mode, cfg.ngramLen, t, start, 0, false, pos).terms else []
  }

  /** The terms that reach the consumer. An n-gram section resets the duplicate check. */
  function Deliver(cfg: Config, mode: Mode, t: seq<nat>, events: seq<Event>, prev: Prev): seq<Term>
    requires AllGood(events)
    decreases |events|
  {
    if events == [] then []
    else match events[0]
      case SpanEvent(span, words, spanpos, bp) =>
        var e := EmitAll(cfg, Offered(cfg, mode, span, words, spanpos, bp), prev);
        e.terms + Deliver(cfg, mode, t, events[1..], e.prev)
      case SectionEvent(start, pos) =>
        SectionTerms(cfg, mode, t, start, pos) + Deliver(cfg, mode, t, events[1..], Prev(0, 0))
      case PunctEvent(term) => [term] + Deliver(cfg, mode, t, events[1..], prev)
  }

  /** The same without the duplicate check. */
  function Passed(cfg: Config, mode: Mode, t: seq<nat>, events: seq<Event>): seq<Term>
    requires AllGood(events)
    decreases |events|
  {
    if events == [] then []
    else match events[0]
      case SpanEvent(span, words, spanpos, bp) =>
        Passing(cfg, Offered(cfg, mode, span, words, spanpos, bp)) + Passed(cfg, mode, t, events[1..])
      case SectionEvent(start, pos) => SectionTerms(cfg, mode, t, start, pos) + Passed(cfg, mode, t, events[1..])
      case PunctEvent(term) => [term] + Passed(cfg, mode, t, events[1..])
  }

  lemma RisingSpan(events: seq<Event>, lo: int, hi: int) returns (next: int)
    requires Rising(events, lo, hi) && events != [] && events[0].SpanEvent?
    ensures lo <= events[0].spanpos && GoodSpan(events[0].span, events[0].words)
    ensures next == events[0].spanpos + WordCount(events[0].words) && Rising(events[1..], next, hi)
  {
    next := events[0].spanpos + WordCount(events[0].words);
  }

  lemma LaterSpelled(mode: Mode, events: seq<Event>)
    requires events != [] && (mode.onlyspans ==> Acronyms.AllSpelled(events))
    ensures mode.onlyspans ==> Acronyms.AllSpelled(events[1..])
    ensures mode.onlyspans && events[0].SpanEvent? ==> Acronyms.Spelled(events[0].span, events[0].words)
  {
  }

  /** The duplicate check drops nothing in a whole run. */
  lemma {:induction false} DropsNothing(cfg: Config, mode: Mode, t: seq<nat>, events: seq<Event>, prev: Prev, lo: int, hi: int)
    requires Rising(events, lo, hi) && (prev.len == 0 || prev.pos < lo)
    requires mode.onlyspans ==> Acronyms.AllSpelled(events)
    ensures AllGood(events) && Deliver(cfg, mode, t, events, prev) == Passed(cfg, mode, t, events)
    decreases |events|, 1
  {
    RisingGood(events, lo, hi);
    if events != [] {
      LaterSpelled(mode, events);
      match events[0]
      case SpanEvent(_, _, _, _) => SpanFirstDropsNothing(cfg, mode, t, events, prev, lo, hi);
      case SectionEvent(_, _) => DropsNothing(cfg, mode, t, events[1..], Prev(0, 0), lo, hi);
      case PunctEvent(_) => DropsNothing(cfg, mode, t, events[1..], prev, lo, hi);
    }
  }

  lemma {:induction false} SpanFirstDropsNothing(cfg: Config, mode: Mode, t: seq<nat>, events: seq<Event>, prev: Prev,
                                                 lo: int, hi: int)
    requires Rising(events, lo, hi) && events != [] && events[0].SpanEvent?
    requires (mode.onlyspans ==> Acronyms.AllSpelled(events)) && (prev.len == 0 || prev.pos < lo)
    ensures AllGood(events) && Deliver(cfg, mode, t, events, prev) == Passed(cfg, mode, t, events)
    decreases |events|, 0
  {
    RisingGood(events, lo, hi);
    var next := RisingSpan(events, lo, hi);
    var e := events[0];
    LaterSpelled(mode, events);
    SpanDropsNothing(cfg, mode, e.span, e.words, e.spanpos, e.bp, prev);
    var after := EmitAll(cfg, Offered(cfg, mode, e.span, e.words, e.spanpos, e.bp), prev).prev;
    DropsNothing(cfg, mode, t, events[1..], after, next, hi);
  }

  lemma {:induction false} EmittedPasses(cfg: Config, terms: seq<Term>, prev: Prev, term: Term)
    requires term in EmitAll(cfg, terms, prev).terms
    ensures term in terms && Passes(cfg, term.word)
    decreases |terms|
  {
    if terms != [] {
      var key := Prev(terms[0].pos, |terms[0].word|);
      if Passes(cfg, terms[0].word) && key != prev {
        if term != terms[0] {
          EmittedPasses(cfg, terms[1..], key, term);
        }
      } else {
        EmittedPasses(cfg, terms[1..], prev, term);
      }
    }
  }

  lemma {:induction false} PassingHas(cfg: Config, terms: seq<Term>, term: Term)
    requires term in terms && Passes(cfg, term.word)
    ensures term in Passing(cfg, terms)
    decreases |terms|
  {
    if term != terms[0] {
      assert term in terms[1..];
      PassingHas(cfg, terms[1..], term);
    }
  }

  lemma TermsAtAgree(mode: Mode, span: seq<Octet>, words: seq<Range>, i: nat, pos: int, base: int, term: Term)
    requires GoodSpan(span, words) && i < |words| && (mode.onlyspans ==> i == 0)
    requires term in TermsAt(mode, span, words, i, pos, base)
    ensures term in TermsAt(DEFAULT, span, words, i, pos, base)
  {
    var here := TermsAt(mode, span, words, i, pos, base);
    var from := if mode.onlyspans then |words| - 1 else i;
    var k :| 0 <= k < |here| && here[k] == term;
    assert term == WordTerm(span, words, i, from + k, pos, base);
    assert TermsAt(DEFAULT, span, words, i, pos, base)[from + k - i] == term;
  }

  lemma {:induction false} TermsFromAgree(mode: Mode, span: seq<Octet>, words: seq<Range>, i: nat, spanpos: int, base: int,
                                          term: Term)
    requires GoodSpan(span, words) && i <= |words|
    requires term in TermsFrom(mode, span, words, i, spanpos, base)
    ensures term in TermsFrom(DEFAULT, span, words, i, spanpos, base)
    decreases |words| - i
  {
    if term in TermsAt(mode, span, words, i, PosAt(words, i, spanpos), base) {
      TermsAtAgree(mode, span, words, i, PosAt(words, i, spanpos), base, term);
    } else {
      TermsFromAgree(mode, span, words, i + 1, spanpos, base, term);
    }
  }

  lemma OfferedAgree(cfg: Config, mode: Mode, span: seq<Octet>, words: seq<Range>, spanpos: int, bp: int, term: Term)
    requires GoodSpan(span, words) && term in Offered(cfg, mode, span, words, spanpos, bp)
    ensures term in Offered(cfg, DEFAULT, span, words, spanpos, bp)
  {
    if term in TermsFrom(mode, span, words, 0, spanpos, bp - |span|) {
      TermsFromAgree(mode, span, words, 0, spanpos, bp - |span|, term);
    }
  }

  lemma SectionTermsAgree(cfg: Config, mode: Mode, t: seq<nat>, start: nat, pos: int, term: Term)
    requires term in SectionTerms(cfg, mode, t, start, pos)
    ensures term in SectionTerms(cfg, DEFAULT, t, start, pos)
  {
    SectionAgrees(cfg, mode, cfg.ngramLen, t, start, 0, 0, false, pos);
  }

  /** Whatever any mode delivers passes in the default mode. */
  lemma {:induction false} DeliveredPasses(cfg: Config, mode: Mode, t: seq<nat>, events: seq<Event>, prev: Prev, term: Term)
    requires AllGood(events) && term in Deliver(cfg, mode, t, events, prev)
    ensures term in Passed(cfg, DEFAULT, t, events)
    decreases |events|
  {
    match events[0]
    case SpanEvent(span, words, spanpos, bp) =>
      var e := EmitAll(cfg, Offered(cfg, mode, span, words, spanpos, bp), prev);
      if term in e.terms {
        EmittedPasses(cfg, Offered(cfg, mode, span, words, spanpos, bp), prev, term);
        OfferedAgree(cfg, mode, span, words, spanpos, bp, term);
        PassingHas(cfg, Offered(cfg, DEFAULT, span, words, spanpos, bp), term);
      } else {
        DeliveredPasses(cfg, mode, t, events[1..], e.prev, term);
      }
    case SectionEvent(start, pos) =>
      if term in SectionTerms(cfg, mode, t, start, pos) {
        SectionTermsAgree(cfg, mode, t, start, pos, term);
      } else {
        DeliveredPasses(cfg, mode, t, events[1..], Prev(0, 0), term);
      }
    case PunctEvent(p) =>
      if term != p {
        DeliveredPasses(cfg, mode, t, events[1..], prev, term);
      }
  }

  /** The terms of a text. */
  function Terms(cfg: Config, mode: Mode, t: seq<nat>): seq<Term>
    requires cfg.ngramLen > 0
  {
    RunGood(cfg, t);
    Deliver(cfg, mode, t, Run(cfg, t, START), Prev(0, 0))
  }

  lemma RunGood(cfg: Config, t: seq<nat>)
    requires cfg.ngramLen > 0
    ensures AllGood(Run(cfg, t, START))
  {
    StartAt(cfg, t);
    var hi := RunRises(cfg, t, START);
    RisingGood(Run(cfg, t, START), 0, hi);
  }

  /** Index and query agree: every term of any mode is a term of the indexing mode, at the same position
      and byte offsets. */
  lemma ModesAgree(cfg: Config, mode: Mode, t: seq<nat>)
    requires cfg.ngramLen > 0
    ensures forall term :: term in Terms(cfg, mode, t) ==> term in Terms(cfg, DEFAULT, t)
  {
    RunGood(cfg, t);
    StartAt(cfg, t);
    var events := Run(cfg, t, START);
    var hi := RunRises(cfg, t, START);
    DropsNothing(cfg, DEFAULT, t, events, Prev(0, 0), 0, hi);
    forall term | term in Terms(cfg, mode, t) ensures term in Terms(cfg, DEFAULT, t) {
      DeliveredPasses(cfg, mode, t, events, Prev(0, 0), term);
    }
  }

  /** The duplicate check never drops a term of any text, whatever the mode. */
  lemma NoDuplicates(cfg: Config, mode: Mode, t: seq<nat>)
    requires cfg.ngramLen > 0
    ensures AllGood(Run(cfg, t, START)) && Terms(cfg, mode, t) == Passed(cfg, mode, t, Run(cfg, t, START))
  {
    RunGood(cfg, t);
    StartAt(cfg, t);
    var hi := RunRises(cfg, t, START);
    Acronyms.RunSpelled(cfg, t, START);
    DropsNothing(cfg, mode, t, Run(cfg, t, START), Prev(0, 0), 0, hi);
  }

  /** In the single-word mode a span gives its words in text order at consecutive positions. */
  lemma {:induction false} AtomicWords(span: seq<Octet>, words: seq<Range>, i: nat, spanpos: int, base: int)
    requires GoodSpan(span, words) && i <= |words|
    ensures var l := TermsFrom(Mode(false, true), span, words, i, spanpos, base);
            && |l| == |words| - i
            && forall k :: i <= k < |words| ==>
                 && words[k].first <= words[k].second <= |span|
                 && l[k - i] == Term(span[words[k].first..words[k].second],
                                     spanpos + k - (if LeadsEmpty(words) && k > 0 then 1 else 0),
                                     base + words[k].first, base + words[k].second)
    decreases |words| - i
  {
    if i < |words| {
      AtomicWords(span, words, i + 1, spanpos, base);
      var here := TermsAt(Mode(false, true), span, words, i, PosAt(words, i, spanpos), base);
      assert |here| == 1 && here[0] == WordTerm(span, words, i, i, PosAt(words, i, spanpos), base);
      WordBounds(span, words, i, i);
    }
  }
}
