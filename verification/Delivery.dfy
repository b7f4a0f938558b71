/** What the methods of the splitter say of the output: which terms, or the terms of which events, went
    from one state of the output and of the duplicate check to another. The relations here are closed:
    nothing is known of them but what their lemmas say. */
module Delivery {
  import opened Closed
  import opened SplitText
  import opened NGrams
  import opened NGramRuns
  import opened SpanSpec
  import opened SpanInvariant
  import opened SpanTerms
  import opened Agreement

  /** State of the duplicate check after some events. */
  function After(cfg: Config, mode: Mode, events: seq<Event>, prev: Prev): Prev
    requires AllGood(events)
    decreases |events|
  {
    if events == [] then prev
    else match events[0]
      case SpanEvent(span, words, spanpos, bp) =>
        After(cfg, mode, events[1..], EmitAll(cfg, Offered(cfg, mode, span, words, spanpos, bp), prev).prev)
      case SectionEvent(_, _) => After(cfg, mode, events[1..], Prev(0, 0))
      case PunctEvent(_) => After(cfg, mode, events[1..], prev)
  }

  lemma {:induction false} DeliverJoin(cfg: Config, mode: Mode, t: seq<nat>, a: seq<Event>, b: seq<Event>, prev: Prev)
    requires AllGood(a) && AllGood(b)
    ensures AllGood(a + b)
    ensures Deliver(cfg, mode, t, a + b, prev) ==
            Deliver(cfg, mode, t, a, prev) + Deliver(cfg, mode, t, b, After(cfg, mode, a, prev))
    ensures After(cfg, mode, a + b, prev) == After(cfg, mode, b, After(cfg, mode, a, prev))
    decreases |a|
  {
    if a == [] {
      assert a + b == b;
    } else {
      assert (a + b)[1..] == a[1..] + b;
      match a[0]
      case SpanEvent(span, words, spanpos, bp) =>
        DeliverJoin(cfg, mode, t, a[1..], b, EmitAll(cfg, Offered(cfg, mode, span, words, spanpos, bp), prev).prev);
      case SectionEvent(_, _) => DeliverJoin(cfg, mode, t, a[1..], b, Prev(0, 0));
      case PunctEvent(_) => DeliverJoin(cfg, mode, t, a[1..], b, prev);
    }
  }

  lemma {:induction false} EmitAllJoin(cfg: Config, a: seq<Term>, b: seq<Term>, prev: Prev)
    ensures var e := EmitAll(cfg, a, prev);
            var f := EmitAll(cfg, b, e.prev);
            EmitAll(cfg, a + b, prev) == Emitted(e.terms + f.terms, f.prev)
    decreases |a|
  {
    if a == [] {
      assert a + b == b;
    } else {
      assert (a + b)[1..] == a[1..] + b;
      var key := Prev(a[0].pos, |a[0].word|);
      EmitAllJoin(cfg, a[1..], b, if Passes(cfg, a[0].word) && key != prev then key else prev);
    }
  }

  /** From an output and duplicate check state to another, `terms` went through the final checks. */
  ghost predicate Took(cfg: Config, terms: seq<Term>, was: seq<Term>, prev: Prev, out: seq<Term>, last: Prev) {
    forall eye :: Look(eye) ==> var e := EmitAll(cfg, terms, prev); out == was + e.terms && last == e.prev
  }

  lemma TookIs(cfg: Config, terms: seq<Term>, was: seq<Term>, prev: Prev, out: seq<Term>, last: Prev)
    ensures Took(cfg, terms, was, prev, out, last) <==>
            var e := EmitAll(cfg, terms, prev); out == was + e.terms && last == e.prev
  {
    if Took(cfg, terms, was, prev, out, last) {
      assert Look(Eye);
    }
  }

  lemma TermsJoin(a: seq<Term>, b: seq<Term>, c: seq<Term>)
    ensures a + (b + c) == a + b + c
  {
  }

  lemma TookNone(cfg: Config, out: seq<Term>, prev: Prev)
    ensures Took(cfg, [], out, prev, out, prev)
  {
    TookIs(cfg, [], out, prev, out, prev);
    assert out + [] == out;
  }

  lemma TookMore(cfg: Config, a: seq<Term>, b: seq<Term>, was: seq<Term>, prev: Prev, mid: seq<Term>, p: Prev,
                 out: seq<Term>, last: Prev)
    requires Took(cfg, a, was, prev, mid, p) && Took(cfg, b, mid, p, out, last)
    ensures Took(cfg, a + b, was, prev, out, last)
  {
    TookIs(cfg, a, was, prev, mid, p);
    TookIs(cfg, b, mid, p, out, last);
    TookIs(cfg, a + b, was, prev, out, last);
    EmitAllJoin(cfg, a, b, prev);
  }

  lemma OneTerm(cfg: Config, term: Term, was: seq<Term>, prev: Prev)
    ensures var key := Prev(term.pos, |term.word|);
            if Passes(cfg, term.word) && key != prev then Took(cfg, [term], was, prev, was + [term], key)
            else Took(cfg, [term], was, prev, was, prev)
  {
    assert [term][1..] == [];
    assert was + [] == was;
    var key := Prev(term.pos, |term.word|);
    TookIs(cfg, [term], was, prev, was + [term], key);
    TookIs(cfg, [term], was, prev, was, prev);
  }

  /** A finished span whose words can be taken out of it. */
  ghost predicate Fit(span: seq<Octet>, words: seq<Range>) {
    forall eye :: Look(eye) ==> GoodSpan(span, words)
  }

  lemma FitIs(span: seq<Octet>, words: seq<Range>)
    ensures Fit(span, words) <==> GoodSpan(span, words)
  {
    if Fit(span, words) {
      assert Look(Eye);
    }
  }

  /** `terms` are those that begin at word `i`, in this order. */
  ghost predicate Begins(mode: Mode, span: seq<Octet>, words: seq<Range>, i: nat, pos: int, base: int, terms: seq<Term>)
    requires i < |words|
  {
    forall eye :: Look(eye) ==> GoodSpan(span, words) && terms == TermsAt(mode, span, words, i, pos, base)
  }

  lemma BeginsIs(mode: Mode, span: seq<Octet>, words: seq<Range>, i: nat, pos: int, base: int, terms: seq<Term>)
    requires i < |words|
    ensures Begins(mode, span, words, i, pos, base, terms) <==>
            GoodSpan(span, words) && terms == TermsAt(mode, span, words, i, pos, base)
  {
    if Begins(mode, span, words, i, pos, base, terms) {
      assert Look(Eye);
    }
  }

  /** The last words of the terms that begin at a word. */
  function FirstEnd(mode: Mode, words: seq<Range>, i: nat): int {
    if mode.onlyspans then |words| - 1 else i
  }

  function PastEnd(mode: Mode, words: seq<Range>, i: nat): int {
    if mode.nospans then i + 1 else |words|
  }

  lemma BeginsCount(mode: Mode, span: seq<Octet>, words: seq<Range>, i: nat, pos: int, base: int, terms: seq<Term>)
    requires i < |words| && Begins(mode, span, words, i, pos, base, terms)
    ensures var from, to := FirstEnd(mode, words, i), PastEnd(mode, words, i);
            i <= from && |terms| == if from >= to then 0 else to - from
  {
    BeginsIs(mode, span, words, i, pos, base, terms);
  }

  lemma BeginsAt(mode: Mode, span: seq<Octet>, words: seq<Range>, i: nat, pos: int, base: int, terms: seq<Term>, j: nat,
                 k: nat)
    requires i < |words| && Begins(mode, span, words, i, pos, base, terms)
    requires j == FirstEnd(mode, words, i) + k < PastEnd(mode, words, i)
    ensures i <= j < |words| && k < |terms|
    ensures words[i].first <= words[j].second <= |span|
    ensures terms[k] == Term(span[words[i].first..words[j].second], pos, base + words[i].first, base + words[j].second)
    ensures terms[..k + 1] == terms[..k] + [terms[k]]
  {
    BeginsIs(mode, span, words, i, pos, base, terms);
    WordBounds(span, words, i, j);
    assert terms[k] == WordTerm(span, words, i, FirstEnd(mode, words, i) + k, pos, base);
  }

  /** `terms` are those that begin at word `i` or later. */
  ghost predicate Follows(mode: Mode, span: seq<Octet>, words: seq<Range>, i: nat, spanpos: int, base: int,
                          terms: seq<Term>)
    requires i <= |words|
  {
    forall eye :: Look(eye) ==> GoodSpan(span, words) && terms == TermsFrom(mode, span, words, i, spanpos, base)
  }

  lemma FollowsIs(mode: Mode, span: seq<Octet>, words: seq<Range>, i: nat, spanpos: int, base: int, terms: seq<Term>)
    requires i <= |words|
    ensures Follows(mode, span, words, i, spanpos, base, terms) <==>
            GoodSpan(span, words) && terms == TermsFrom(mode, span, words, i, spanpos, base)
  {
    if Follows(mode, span, words, i, spanpos, base, terms) {
      assert Look(Eye);
    }
  }

  lemma FollowsStep(mode: Mode, span: seq<Octet>, words: seq<Range>, i: nat, spanpos: int, base: int, terms: seq<Term>)
    returns (here: seq<Term>, rest: seq<Term>)
    requires i < |words| && (mode.onlyspans ==> i == 0) && Follows(mode, span, words, i, spanpos, base, terms)
    ensures Begins(mode, span, words, i, PosAt(words, i, spanpos), base, here)
    ensures Follows(mode, span, words, i + 1, spanpos, base, rest) && terms == here + rest
    ensures PosAt(words, i + 1, spanpos) ==
            PosAt(words, i, spanpos) + (if words[i].second == words[i].first then 0 else 1)
  {
    FollowsIs(mode, span, words, i, spanpos, base, terms);
    here := TermsAt(mode, span, words, i, PosAt(words, i, spanpos), base);
    rest := TermsFrom(mode, span, words, i + 1, spanpos, base);
    BeginsIs(mode, span, words, i, PosAt(words, i, spanpos), base, here);
    FollowsIs(mode, span, words, i + 1, spanpos, base, rest);
  }

  lemma FollowsEnd(mode: Mode, span: seq<Octet>, words: seq<Range>, i: nat, spanpos: int, base: int, terms: seq<Term>)
    requires i <= |words| && Follows(mode, span, words, i, spanpos, base, terms)
    requires i >= (if mode.onlyspans then 1 else |words|) || i == |words|
    ensures terms == []
  {
    FollowsIs(mode, span, words, i, spanpos, base, terms);
  }

  lemma FollowsStart(mode: Mode, span: seq<Octet>, words: seq<Range>, spanpos: int, base: int) returns (terms: seq<Term>)
    requires Fit(span, words)
    ensures Follows(mode, span, words, 0, spanpos, base, terms)
  {
    FitIs(span, words);
    terms := TermsFrom(mode, span, words, 0, spanpos, base);
    FollowsIs(mode, span, words, 0, spanpos, base, terms);
  }

  /** `terms` is what a finished span offers. */
  ghost predicate Offers(cfg: Config, mode: Mode, span: seq<Octet>, words: seq<Range>, spanpos: int, bp: int,
                         terms: seq<Term>)
  {
    forall eye :: Look(eye) ==> GoodSpan(span, words) && terms == Offered(cfg, mode, span, words, spanpos, bp)
  }

  lemma OffersIs(cfg: Config, mode: Mode, span: seq<Octet>, words: seq<Range>, spanpos: int, bp: int, terms: seq<Term>)
    ensures Offers(cfg, mode, span, words, spanpos, bp, terms) <==>
            GoodSpan(span, words) && terms == Offered(cfg, mode, span, words, spanpos, bp)
  {
    if Offers(cfg, mode, span, words, spanpos, bp, terms) {
      assert Look(Eye);
    }
  }

  /** What a span offers is put together from the acronym, the dehyphenated word and the words. */
  lemma OffersParts(cfg: Config, mode: Mode, span: seq<Octet>, words: seq<Range>, spanpos: int, bp: int,
                    ini: seq<Term>, hyphen: seq<Term>, rest: seq<Term>)
    requires ini == if IsInitials(span) then [Term(Letters(span), spanpos, bp - |span|, bp)] else []
    requires Joined(cfg, span, words, spanpos, bp - |span|, hyphen)
    requires Follows(mode, span, words, 0, spanpos, bp - |span|, rest)
    ensures Offers(cfg, mode, span, words, spanpos, bp, ini + hyphen + rest)
  {
    JoinedIs(cfg, span, words, spanpos, bp - |span|, hyphen);
    FollowsIs(mode, span, words, 0, spanpos, bp - |span|, rest);
    OffersIs(cfg, mode, span, words, spanpos, bp, ini + hyphen + rest);
  }

  /** `terms` is the word around a hyphen, if it is wanted. */
  ghost predicate Joined(cfg: Config, span: seq<Octet>, words: seq<Range>, spanpos: int, base: int, terms: seq<Term>) {
    forall eye :: Look(eye) ==> GoodSpan(span, words) && terms == Dehyphenated(cfg, span, words, spanpos, base)
  }

  lemma JoinedIs(cfg: Config, span: seq<Octet>, words: seq<Range>, spanpos: int, base: int, terms: seq<Term>)
    ensures Joined(cfg, span, words, spanpos, base, terms) <==>
            GoodSpan(span, words) && terms == Dehyphenated(cfg, span, words, spanpos, base)
  {
    if Joined(cfg, span, words, spanpos, base, terms) {
      assert Look(Eye);
    }
  }

  lemma NoWords(cfg: Config, mode: Mode, span: seq<Octet>, words: seq<Range>, spanpos: int, base: int, terms: seq<Term>)
    requires words == [] && Fit(span, words) && Follows(mode, span, words, 0, spanpos, base, terms)
    ensures terms == [] && Joined(cfg, span, words, spanpos, base, [])
  {
    FollowsEnd(mode, span, words, 0, spanpos, base, terms);
    FitIs(span, words);
    JoinedIs(cfg, span, words, spanpos, base, []);
  }

  /** From an output and duplicate check state to another, `events` were delivered. */
  ghost predicate Sent(cfg: Config, mode: Mode, t: seq<nat>, events: seq<Event>, was: seq<Term>, prev: Prev,
                       out: seq<Term>, last: Prev)
  {
    forall eye :: Look(eye) ==>
      AllGood(events) && out == was + Deliver(cfg, mode, t, events, prev) && last == After(cfg, mode, events, prev)
  }

  lemma SentIs(cfg: Config, mode: Mode, t: seq<nat>, events: seq<Event>, was: seq<Term>, prev: Prev,
               out: seq<Term>, last: Prev)
    ensures Sent(cfg, mode, t, events, was, prev, out, last) <==>
            && AllGood(events)
            && out == was + Deliver(cfg, mode, t, events, prev) && last == After(cfg, mode, events, prev)
  {
    if Sent(cfg, mode, t, events, was, prev, out, last) {
      assert Look(Eye);
    }
  }

  lemma SentNone(cfg: Config, mode: Mode, t: seq<nat>, out: seq<Term>, prev: Prev)
    ensures Sent(cfg, mode, t, [], out, prev, out, prev)
  {
    SentIs(cfg, mode, t, [], out, prev, out, prev);
    assert out + [] == out;
  }

  lemma Regroup(a: seq<Term>, b: seq<Term>, c: seq<Term>)
    ensures a + b + c == a + (b + c)
  {
  }

  lemma SentMore(cfg: Config, mode: Mode, t: seq<nat>, a: seq<Event>, b: seq<Event>, was: seq<Term>, prev: Prev,
                 mid: seq<Term>, p: Prev, out: seq<Term>, last: Prev)
    requires Sent(cfg, mode, t, a, was, prev, mid, p) && Sent(cfg, mode, t, b, mid, p, out, last)
    ensures Sent(cfg, mode, t, a + b, was, prev, out, last)
  {
    SentIs(cfg, mode, t, a, was, prev, mid, p);
    SentIs(cfg, mode, t, b, mid, p, out, last);
    DeliverJoin(cfg, mode, t, a, b, prev);
    Regroup(was, Deliver(cfg, mode, t, a, prev), Deliver(cfg, mode, t, b, p));
    SentIs(cfg, mode, t, a + b, was, prev, out, last);
  }

  /** Delivering one event. */
  lemma DeliverOne(cfg: Config, mode: Mode, t: seq<nat>, e: Event, prev: Prev)
    requires e.SpanEvent? ==> GoodSpan(e.span, e.words)
    ensures AllGood([e])
    ensures e.SpanEvent? ==>
              var all := EmitAll(cfg, Offered(cfg, mode, e.span, e.words, e.spanpos, e.bp), prev);
              Deliver(cfg, mode, t, [e], prev) == all.terms && After(cfg, mode, [e], prev) == all.prev
    ensures e.SectionEvent? ==>
              && Deliver(cfg, mode, t, [e], prev) == SectionTerms(cfg, mode, t, e.start, e.wordpos)
              && After(cfg, mode, [e], prev) == Prev(0, 0)
    ensures e.PunctEvent? ==>
              Deliver(cfg, mode, t, [e], prev) == [e.term] && After(cfg, mode, [e], prev) == prev
  {
    assert [e][1..] == [];
    match e
    case SpanEvent(span, words, spanpos, bp) =>
      var all := EmitAll(cfg, Offered(cfg, mode, span, words, spanpos, bp), prev);
      assert all.terms + [] == all.terms;
    case SectionEvent(start, pos) =>
      var terms := SectionTerms(cfg, mode, t, start, pos);
      assert terms + [] == terms;
    case PunctEvent(term) =>
  }

  lemma SentSpan(cfg: Config, mode: Mode, t: seq<nat>, span: seq<Octet>, words: seq<Range>, spanpos: int, bp: int,
                 terms: seq<Term>, was: seq<Term>, prev: Prev, out: seq<Term>, last: Prev)
    requires Offers(cfg, mode, span, words, spanpos, bp, terms) && Took(cfg, terms, was, prev, out, last)
    ensures Sent(cfg, mode, t, [SpanEvent(span, words, spanpos, bp)], was, prev, out, last)
  {
    var e := SpanEvent(span, words, spanpos, bp);
    OffersIs(cfg, mode, span, words, spanpos, bp, terms);
    DeliverOne(cfg, mode, t, e, prev);
    TookIs(cfg, terms, was, prev, out, last);
    SentIs(cfg, mode, t, [e], was, prev, out, last);
  }

  lemma SentSign(cfg: Config, mode: Mode, t: seq<nat>, term: Term, was: seq<Term>, prev: Prev)
    ensures Sent(cfg, mode, t, [PunctEvent(term)], was, prev, was + [term], prev)
  {
    DeliverOne(cfg, mode, t, PunctEvent(term), prev);
    SentIs(cfg, mode, t, [PunctEvent(term)], was, prev, was + [term], prev);
  }

  lemma SentSection(cfg: Config, mode: Mode, t: seq<nat>, start: nat, pos: int, was: seq<Term>, prev: Prev)
    ensures Sent(cfg, mode, t, [SectionEvent(start, pos)], was, prev,
                 was + SectionTerms(cfg, mode, t, start, pos), Prev(0, 0))
  {
    DeliverOne(cfg, mode, t, SectionEvent(start, pos), prev);
    SentIs(cfg, mode, t, [SectionEvent(start, pos)], was, prev, was + SectionTerms(cfg, mode, t, start, pos), Prev(0, 0));
  }

  /** The word under construction can be ended, and the span with it. */
  ghost predicate Ripe(cfg: Config, core: Core) {
    forall eye :: Look(eye) ==> var c := EndWord(cfg, core); GoodSpan(c.span, c.words)
  }

  lemma RipeIs(cfg: Config, core: Core)
    ensures Ripe(cfg, core) <==> var c := EndWord(cfg, core); GoodSpan(c.span, c.words)
  {
    if Ripe(cfg, core) {
      assert Look(Eye);
    }
  }

  lemma RipeEnds(cfg: Config, core: Core)
    requires Ripe(cfg, core)
    ensures var c := EndWord(cfg, core); Fit(c.span, c.words)
  {
    RipeIs(cfg, core);
    var c := EndWord(cfg, core);
    FitIs(c.span, c.words);
  }

  /** The state before character `i` satisfies the invariant. */
  ghost predicate Stands(cfg: Config, t: seq<nat>, i: nat, core: Core) {
    forall eye :: Look(eye) ==> At(cfg, t, i, core)
  }

  lemma StandsIs(cfg: Config, t: seq<nat>, i: nat, core: Core)
    ensures Stands(cfg, t, i, core) <==> At(cfg, t, i, core)
  {
    if Stands(cfg, t, i, core) {
      assert Look(Eye);
    }
  }

  /** Whenever a turn begins the span can be ended, with a dot after it or not. */
  lemma StandsRipe(cfg: Config, t: seq<nat>, i: nat, core: Core)
    requires Stands(cfg, t, i, core)
    ensures Ripe(cfg, core) && Ripe(cfg, core.(span := core.span + Enc(DOT)))
  {
    StandsIs(cfg, t, i, core);
    LeadFromAhead(cfg, t, i, core);
    EndWordKeeps(cfg, core);
    RipeIs(cfg, core);
    assert Enc(DOT) == [Octet(DOT, 0)];
    var c := EndWord(cfg, core);
    GoodSpanDot(c.span, c.words, Octet(DOT, 0));
    RipeIs(cfg, core.(span := core.span + Enc(DOT)));
  }

  lemma StandsFlushed(cfg: Config, t: seq<nat>, i: nat, core: Core, bp: int)
    requires Stands(cfg, t, i, core)
    ensures Stands(cfg, t, i, Flush(cfg, core, bp).core)
  {
    StandsIs(cfg, t, i, core);
    FlushKept(cfg, t, i, core, bp, i);
    StandsIs(cfg, t, i, Flush(cfg, core, bp).core);
  }

  lemma StandsSection(cfg: Config, t: seq<nat>, s: Loop)
    requires s.i < |t| && cfg.ngramLen > 0 && Stands(cfg, t, s.i, s.core)
    ensures var r := EnterSection(cfg, t, s); Stands(cfg, t, r.loop.i, r.loop.core)
  {
    StandsIs(cfg, t, s.i, s.core);
    SectionKept(cfg, t, s);
    var r := EnterSection(cfg, t, s);
    StandsIs(cfg, t, r.loop.i, r.loop.core);
  }

  /** The two halves of a turn of the word splitter. Neither depends on the span class before. */
  lemma WordEvents(cfg: Config, t: seq<nat>, s: Loop, csc: int, core: Core, s': Loop)
    returns (events: (seq<Event>, seq<Event>))
    requires s.i < |t| && core == ScriptChange(cfg, t, s, csc).core
    requires s'.i == s.i && s'.soft == s.soft && s'.prevPlus == s.prevPlus
    ensures events == (ScriptChange(cfg, t, s, csc).events, CharTurn(cfg, t, s', csc, core).events)
    ensures WordTurn(cfg, t, s, csc) == Turn(CharTurn(cfg, t, s', csc, core).loop, events.0 + events.1)
  {
    events := (ScriptChange(cfg, t, s, csc).events, CharTurn(cfg, t, s', csc, core).events);
  }

  /** `done` and what the run still gives from `s` make up `all`. */
  ghost predicate Running(cfg: Config, t: seq<nat>, s: Loop, done: seq<Event>, all: seq<Event>) {
    forall eye :: Look(eye) ==> s.i <= |t| && cfg.ngramLen > 0 && all == done + Run(cfg, t, s)
  }

  lemma RunningIs(cfg: Config, t: seq<nat>, s: Loop, done: seq<Event>, all: seq<Event>)
    ensures Running(cfg, t, s, done, all) <==> s.i <= |t| && cfg.ngramLen > 0 && all == done + Run(cfg, t, s)
  {
    if Running(cfg, t, s, done, all) {
      assert Look(Eye);
    }
  }

  lemma RunningStep(cfg: Config, t: seq<nat>, s: Loop, done: seq<Event>, all: seq<Event>) returns (events: seq<Event>)
    requires s.i < |t| && cfg.ngramLen > 0 && Running(cfg, t, s, done, all) && Stands(cfg, t, s.i, s.core)
    ensures var r := TurnAt(cfg, t, s);
            && events == r.events && Running(cfg, t, r.loop, done + events, all)
            && Stands(cfg, t, r.loop.i, r.loop.core)
  {
    var r := TurnAt(cfg, t, s);
    RunningIs(cfg, t, s, done, all);
    events := r.events;
    assert done + (events + Run(cfg, t, r.loop)) == done + events + Run(cfg, t, r.loop);
    RunningIs(cfg, t, r.loop, done + events, all);
    StandsIs(cfg, t, s.i, s.core);
    TurnKept(cfg, t, s);
    StandsIs(cfg, t, r.loop.i, r.loop.core);
  }

  lemma RunningEnd(cfg: Config, t: seq<nat>, s: Loop, done: seq<Event>, all: seq<Event>) returns (events: seq<Event>)
    requires s.i == |t| && Running(cfg, t, s, done, all)
    ensures events == Flush(cfg, s.core, Bpos(t, |t|)).events && all == done + events
  {
    RunningIs(cfg, t, s, done, all);
    events := Flush(cfg, s.core, Bpos(t, |t|)).events;
  }

  lemma StandsAtStart(cfg: Config, t: seq<nat>)
    requires cfg.ngramLen > 0
    ensures Stands(cfg, t, 0, FRESH) && Running(cfg, t, START, [], RunOf(cfg, t))
  {
    StartAt(cfg, t);
    StandsIs(cfg, t, 0, FRESH);
    assert [] + RunOf(cfg, t) == RunOf(cfg, t);
    RunningIs(cfg, t, START, [], RunOf(cfg, t));
  }

  lemma SentAll(cfg: Config, mode: Mode, t: seq<nat>, was: seq<Term>, out: seq<Term>, last: Prev)
    requires cfg.ngramLen > 0 && Sent(cfg, mode, t, RunOf(cfg, t), was, Prev(0, 0), out, last)
    ensures out == was + Terms(cfg, mode, t)
  {
    SentIs(cfg, mode, t, RunOf(cfg, t), was, Prev(0, 0), out, last);
  }

  /** All events of a text. */
  function RunOf(cfg: Config, t: seq<nat>): seq<Event>
    requires cfg.ngramLen > 0
  {
    Run(cfg, t, START)
  }
}
