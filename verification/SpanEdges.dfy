/** What a layout does not cover: indexed punctuation, soft hyphens at the end of a line, and the passage from
    an n-gram section to a word. */
module SpanEdges {
  import opened Closed
  import opened SplitText
  import opened NGrams
  import opened NGramRuns
  import opened SpanSpec
  import opened SpanInvariant
  import opened SpanWords
  import opened SpanLayout

  /** A separator that is indexed as punctuation is a term, and takes a position. */
  lemma SignIndexed(cfg: Config, t: seq<nat>, s: Loop, i: nat, next: nat, p: int) returns (s': Loop)
    requires i < |t| && cfg.ngramLen > 0 && Resting(s, i, p) && White(cfg, t[i]) && !IsNgrammed(t[i])
    requires cfg.indexedPunctuation(t[i]) && next == i + 1
    ensures Leads(cfg, t, s, [PunctEvent(Term(Enc(t[i]), p, Bpos(t, i), Bpos(t, i) + Width(t[i])))], s')
    ensures Resting(s', next, p + 1)
  {
    var o := Outcome(Clean(p + 1), [PunctEvent(Term(Enc(t[i]), p, Bpos(t, i), Bpos(t, i) + Width(t[i])))]);
    assert [] + o.events == o.events;
    assert AtSpace(cfg, t, Clean(p), t[i], i) == o;
    WhiteIs(cfg, t[i]);
    DoesIs(cfg, t, s.core, i, s.prevPlus, o, false);
    s' := Loop(Clean(p + 1), next, false, t[i] == '+' as nat, CSC_OTHER);
    OneStep(cfg, t, s, o, s');
  }

  /** After a word it ends the span, and is a term after it. */
  lemma SignAfterWord(cfg: Config, t: seq<nat>, span: seq<Octet>, words: seq<Range>, p: int, a: nat, b: nat, next: nat,
                      r: seq<Range>, q: int)
    returns (s': Loop)
    requires a < b < |t| && cfg.ngramLen > 0 && White(cfg, t[b]) && !IsNgrammed(t[b]) && next == b + 1
    requires cfg.indexedPunctuation(t[b]) && r == More(cfg, t, span, words, a, b) && q == p + WordCount(r)
    ensures Leads(cfg, t, Inside(cfg, t, span, words, p, a, b),
                  [SpanEvent(span + Bytes(t, a, b), r, p, Bpos(t, b)),
                   PunctEvent(Term(Enc(t[b]), q, Bpos(t, b), Bpos(t, b) + Width(t[b])))], s')
    ensures Resting(s', next, q + 1)
  {
    var s := Inside(cfg, t, span, words, p, a, b);
    var here := SpanEvent(span + Bytes(t, a, b), r, p, Bpos(t, b));
    var sign := PunctEvent(Term(Enc(t[b]), q, Bpos(t, b), Bpos(t, b) + Width(t[b])));
    WordEnds(cfg, t, span, words, p, a, b);
    assert [here] + [sign] == [here, sign];
    assert AtSpace(cfg, t, s.core, t[b], b) == Outcome(Clean(q + 1), [here, sign]);
    WhiteIs(cfg, t[b]);
    DoesIs(cfg, t, s.core, b, s.prevPlus, Outcome(Clean(q + 1), [here, sign]), false);
    s' := Loop(Clean(q + 1), next, false, t[b] == '+' as nat, CSC_OTHER);
    OneStep(cfg, t, s, Outcome(Clean(q + 1), [here, sign]), s');
  }

  /** A soft hyphen and a line break after it are passed over: the word goes on with the next character. */
  lemma SoftHyphen(cfg: Config, t: seq<nat>, s: Loop, s': Loop)
    requires s.i + 1 < |t| && cfg.ngramLen > 0 && Settled(s)
    requires t[s.i] == 0xad && Skipped(cfg, t[s.i]) && (t[s.i + 1] == '\n' as nat || t[s.i + 1] == '\r' as nat)
    requires s' == Loop(s.core, s.i + 2, true, s.prevPlus, CSC_OTHER)
    ensures Leads(cfg, t, s, [], s')
  {
    var s1 := Loop(s.core, s.i + 1, true, s.prevPlus, CSC_OTHER);
    SkipStep(cfg, t, s, s1);
    BreakStep(cfg, t, s1, s');
    Then(cfg, t, s, [], s1, [], s');
    var none: seq<Event> := [];
    assert none + none == none;
  }

  /** A character that is left out changes nothing. */
  lemma SkipStep(cfg: Config, t: seq<nat>, s: Loop, s': Loop)
    requires s.i < |t| && cfg.ngramLen > 0 && Settled(s) && Skipped(cfg, t[s.i]) && !IsNgrammed(t[s.i])
    requires s' == Loop(s.core, s.i + 1, t[s.i] == 0xad, s.prevPlus, CSC_OTHER)
    ensures Leads(cfg, t, s, [], s')
  {
    SkippedIff(cfg, t[s.i]);
    NotScript(t[s.i]);
    assert ScriptChange(cfg, t, s, CSC_OTHER) == Outcome(s.core, []);
    assert CharTurn(cfg, t, s, CSC_OTHER, s.core) == Turn(s', []);
    assert TurnAt(cfg, t, s) == Turn(s', [] + []);
    LeadsIs(cfg, t, s, [], s');
  }

  lemma BreakStep(cfg: Config, t: seq<nat>, s: Loop, s': Loop)
    requires s.i < |t| && cfg.ngramLen > 0 && Settled(s) && s.soft && (t[s.i] == '\n' as nat || t[s.i] == '\r' as nat)
    requires s' == Loop(s.core, s.i + 1, true, s.prevPlus, CSC_OTHER)
    ensures Leads(cfg, t, s, [], s')
  {
    NotScript(t[s.i]);
    assert ScriptChange(cfg, t, s, CSC_OTHER) == Outcome(s.core, []);
    assert CharTurn(cfg, t, s, CSC_OTHER, s.core) == Turn(s', []);
    assert TurnAt(cfg, t, s) == Turn(s', [] + []);
    LeadsIs(cfg, t, s, [], s');
  }

  // From an n-gram section to a word.

  /** The state after the first character of a word that follows an n-gram section with nothing between. */
  function Entered(cfg: Config, t: seq<nat>, i: nat, j: nat, p: int): Loop
    requires i < j < |t|
  {
    Loop(WordCore(cfg, t, [], [], p, j, j + 1), j + 1, false, false, CharSpanClass(t[i]))
  }

  /** A letter or digit just after a section, the section coming after nothing or after a word. `flushed` is what
      the section found pending. */
  lemma {:induction false} EntersWord(cfg: Config, t: seq<nat>, s: Loop, i: nat, g: Grams, s': Loop, flushed: seq<Event>,
                                      p: int)
    requires i < |t| && cfg.ngramLen > 0 && s.i == i && cfg.processCjk && IsNgrammed(t[i]) && !s.soft
    requires g == Section(cfg, DEFAULT, cfg.ngramLen, t, i, 0, false, p) && i < g.next < |t| && Alnum(cfg, t[g.next])
    requires Flush(cfg, s.core, Bpos(t, i)).events == flushed && Flush(cfg, s.core, Bpos(t, i)).core.wordpos == p
    requires s' == Entered(cfg, t, i, g.next, g.wordpos)
    ensures Leads(cfg, t, s, flushed + [SectionEvent(i, p)], s')
  {
    var j := g.next;
    var e := EnterSection(cfg, t, s);
    assert e == Turn(Loop(Clean(g.wordpos), j, false, s.prevPlus, s.prevCsc), flushed + [SectionEvent(i, p)]);
    WordCoreStart(cfg, t, [], [], g.wordpos, j);
    NoSkip(cfg, t[j]);
    WordBegins(cfg, t, [], [], g.wordpos, j, s.prevPlus);
    DoesIs(cfg, t, Clean(g.wordpos), j, s.prevPlus, Outcome(s'.core, []), false);
    PlusOnly(cfg, t[j]);
    assert WordTurn(cfg, t, e.loop, CharSpanClass(t[i])) == Turn(s', [] + []);
    var all := flushed + [SectionEvent(i, p)];
    assert all + ([] + []) == all;
    assert TurnAt(cfg, t, s) == Turn(s', all);
    LeadsIs(cfg, t, s, all, s');
  }

  lemma {:induction false} SectionThenWord(cfg: Config, t: seq<nat>, s: Loop, i: nat, p: int, g: Grams, s': Loop)
    requires i < |t| && cfg.ngramLen > 0 && Resting(s, i, p) && cfg.processCjk && IsNgrammed(t[i])
    requires g == Section(cfg, DEFAULT, cfg.ngramLen, t, i, 0, false, p) && i < g.next < |t| && Alnum(cfg, t[g.next])
    requires s' == Entered(cfg, t, i, g.next, g.wordpos)
    ensures Leads(cfg, t, s, [SectionEvent(i, p)], s')
  {
    EntersWord(cfg, t, s, i, g, s', [], p);
    assert [] + [SectionEvent(i, p)] == [SectionEvent(i, p)];
  }

  /** A section just after a word ends the span, and begins at the position after its words. */
  lemma {:induction false} WordThenSection(cfg: Config, t: seq<nat>, span: seq<Octet>, words: seq<Range>, p: int, a: nat,
                                           b: nat, r: seq<Range>, q: int, g: Grams)
    requires a < b < |t| && cfg.ngramLen > 0 && cfg.processCjk && IsNgrammed(t[b])
    requires r == More(cfg, t, span, words, a, b) && q == p + WordCount(r)
    requires g == Section(cfg, DEFAULT, cfg.ngramLen, t, b, 0, false, q)
    ensures var events := [SpanEvent(span + Bytes(t, a, b), r, p, Bpos(t, b)), SectionEvent(b, q)];
            && b < g.next <= |t|
            && (g.next == |t| ==> Run(cfg, t, Inside(cfg, t, span, words, p, a, b)) == events)
            && (g.next < |t| && Alnum(cfg, t[g.next]) ==>
                  Leads(cfg, t, Inside(cfg, t, span, words, p, a, b), events, Entered(cfg, t, b, g.next, g.wordpos)))
  {
    var s := Inside(cfg, t, span, words, p, a, b);
    var flushed := [SpanEvent(span + Bytes(t, a, b), r, p, Bpos(t, b))];
    WordEnds(cfg, t, span, words, p, a, b);
    assert Flush(cfg, s.core, Bpos(t, b)) == Outcome(Clean(q).(inNumber := s.core.inNumber), flushed);
    SectionAdvances(cfg, DEFAULT, cfg.ngramLen, t, b, 0, false, q);
    assert flushed + [SectionEvent(b, q)] == [flushed[0], SectionEvent(b, q)];
    if g.next == |t| {
      RunsOut(cfg, t, s, b, g, flushed, q);
    } else if Alnum(cfg, t[g.next]) {
      EntersWord(cfg, t, s, b, g, Entered(cfg, t, b, g.next, g.wordpos), flushed, q);
    }
  }

  /** A section that goes on to the end of the text. */
  lemma {:induction false} RunsOut(cfg: Config, t: seq<nat>, s: Loop, i: nat, g: Grams, flushed: seq<Event>, p: int)
    requires i < |t| && cfg.ngramLen > 0 && s.i == i && cfg.processCjk && IsNgrammed(t[i])
    requires g == Section(cfg, DEFAULT, cfg.ngramLen, t, i, 0, false, p) && g.next == |t|
    requires Flush(cfg, s.core, Bpos(t, i)).events == flushed && Flush(cfg, s.core, Bpos(t, i)).core.wordpos == p
    ensures Run(cfg, t, s) == flushed + [SectionEvent(i, p)]
  {
    var s' := Loop(Clean(g.wordpos), |t|, s.soft, s.prevPlus, s.prevCsc);
    var all := flushed + [SectionEvent(i, p)];
    assert TurnAt(cfg, t, s) == Turn(s', all);
    RunOutAt(cfg, t, s');
    assert all + [] == all;
  }

  lemma {:induction false} RunOutAt(cfg: Config, t: seq<nat>, s: Loop)
    requires cfg.ngramLen > 0 && s.i == |t| && !Busy(s.core)
    ensures Run(cfg, t, s) == []
  {
  }

  /** A separator after a section: the next word is at the position the section reached. */
  lemma {:induction false} SectionThenGap(cfg: Config, t: seq<nat>, s: Loop, i: nat, p: int, g: Grams) returns (s': Loop)
    requires i < |t| && cfg.ngramLen > 0 && Resting(s, i, p) && cfg.processCjk && IsNgrammed(t[i])
    requires g == Section(cfg, DEFAULT, cfg.ngramLen, t, i, 0, false, p) && i < g.next < |t|
    requires t[g.next] != '.' as nat && Separates(cfg, t, g.next) && !cfg.indexedPunctuation(t[g.next])
    requires !Skipped(cfg, t[g.next])
    ensures Leads(cfg, t, s, [SectionEvent(i, p)], s') && Resting(s', g.next + 1, g.wordpos)
  {
    var j := g.next;
    var e := EnterSection(cfg, t, s);
    assert e == Turn(Loop(Clean(g.wordpos), j, false, s.prevPlus, s.prevCsc), [] + [SectionEvent(i, p)]);
    GapChar(cfg, t, j, g.wordpos, s.prevPlus);
    DoesIs(cfg, t, Clean(g.wordpos), j, s.prevPlus, Outcome(Clean(g.wordpos), []), false);
    SkippedIff(cfg, t[j]);
    s' := Loop(Clean(g.wordpos), j + 1, false, WhatCc(cfg, t[j]) == Own('+' as int), CharSpanClass(t[i]));
    assert WordTurn(cfg, t, e.loop, CharSpanClass(t[i])) == Turn(s', [] + []);
    assert TurnAt(cfg, t, s) == Turn(s', [SectionEvent(i, p)]);
    LeadsIs(cfg, t, s, [SectionEvent(i, p)], s');
  }

  lemma NoSkip(cfg: Config, c: nat)
    requires Alnum(cfg, c)
    ensures !Skipped(cfg, c) && c != '.' as nat && c != '+' as nat && c != '\n' as nat && c != '\r' as nat
    ensures IsAlnum(WhatCc(cfg, c))
  {
    AlnumIff(cfg, c);
  }

  /** After a CJK section a second letter or digit goes on with the word. */
  lemma {:induction false} WordGoesOn(cfg: Config, t: seq<nat>, i: nat, j: nat, k: nat, next: nat, p: int)
    requires i < j < k < |t| && k == j + 1 && next == k + 1 && cfg.ngramLen > 0
    requires IsNgrammed(t[i]) && !IsOtherNgram(t[i]) && Alnum(cfg, t[k]) && !IsNgrammed(t[k])
    ensures Leads(cfg, t, Entered(cfg, t, i, j, p), [], Inside(cfg, t, [], [], p, j, next))
  {
    var s, s' := Entered(cfg, t, i, j, p), Inside(cfg, t, [], [], p, j, next);
    GoesOnAlnum(cfg, t, [], [], p, j, k, false);
    DoesIs(cfg, t, s.core, k, false, Outcome(s'.core, []), false);
    NoSkip(cfg, t[k]);
    NotScript(t[k]);
    PlusOnly(cfg, t[k]);
    assert ScriptChange(cfg, t, s, CSC_OTHER) == Outcome(s.core, []);
    assert TurnAt(cfg, t, s) == Turn(s', [] + []);
    LeadsIs(cfg, t, s, [], s');
  }

  /** After a section of Tibetan, Thai, Lao or Burmese the second letter or digit ends the word: a letter that
      comes first is a span by itself. */
  lemma {:induction false} FirstSplitOff(cfg: Config, t: seq<nat>, i: nat, j: nat, k: nat, next: nat, p: int,
                                         r: seq<Range>, q: int)
    requires i < j < k < |t| && k == j + 1 && next == k + 1 && cfg.ngramLen > 0
    requires IsOtherNgram(t[i]) && Alnum(cfg, t[j]) && !IsDigit(t[j]) && Alnum(cfg, t[k]) && !IsNgrammed(t[k])
    requires r == More(cfg, t, [], [], j, k) && q == p + WordCount(r)
    ensures Leads(cfg, t, Entered(cfg, t, i, j, p), [SpanEvent(Bytes(t, j, k), r, p, Bpos(t, k))],
                  Inside(cfg, t, [], [], q, k, next))
  {
    var s, s' := Entered(cfg, t, i, j, p), Inside(cfg, t, [], [], q, k, next);
    var here := SpanEvent(Bytes(t, j, k), r, p, Bpos(t, k));
    NotScript(t[k]);
    SplitFlush(cfg, t, i, j, k, p, r, q);
    FirstTurn(cfg, t, s, k, next, q, s');
    assert [here] + [] == [here];
    assert TurnAt(cfg, t, s) == Turn(s', [here]);
    LeadsIs(cfg, t, s, [here], s');
  }

  lemma {:induction false} SplitFlush(cfg: Config, t: seq<nat>, i: nat, j: nat, k: nat, p: int, r: seq<Range>, q: int)
    requires i < j < k < |t| && k == j + 1
    requires IsOtherNgram(t[i]) && Alnum(cfg, t[j]) && !IsDigit(t[j])
    requires r == More(cfg, t, [], [], j, k) && q == p + WordCount(r)
    ensures ScriptChange(cfg, t, Entered(cfg, t, i, j, p), CSC_OTHER) ==
            Outcome(Clean(q), [SpanEvent(Bytes(t, j, k), r, p, Bpos(t, k))])
  {
    WordEnds(cfg, t, [], [], p, j, k);
    assert [] + Bytes(t, j, k) == Bytes(t, j, k);
    NumberStart(cfg, t, j);
    NoSkip(cfg, t[j]);
  }

  /** The first character of a word, nothing being pending. */
  lemma {:induction false} FirstTurn(cfg: Config, t: seq<nat>, s: Loop, k: nat, next: nat, q: int, s': Loop)
    requires k < |t| && next == k + 1 && Alnum(cfg, t[k]) && s.i == k && !s.prevPlus && !s.soft
    requires s' == Inside(cfg, t, [], [], q, k, next)
    ensures CharTurn(cfg, t, s, CSC_OTHER, Clean(q)) == Turn(s', [])
  {
    WordCoreStart(cfg, t, [], [], q, k);
    NoSkip(cfg, t[k]);
    WordBegins(cfg, t, [], [], q, k, false);
    DoesIs(cfg, t, Clean(q), k, false, Outcome(s'.core, []), false);
    PlusOnly(cfg, t[k]);
  }

  // Glue after glue.

  /** A second joining character, not before white space, is dropped: the span goes on as if it were not there. */
  lemma GlueDropped(cfg: Config, t: seq<nat>, span: seq<Octet>, words: seq<Range>, p: int, k: nat, next: nat, s: Loop)
    returns (s': Loop)
    requires k < |t| && cfg.ngramLen > 0 && Simple(cfg, t) && span != [] && Before(s, span, words, p, k) && next == k + 1
    requires (IsLink(cfg, t[k]) && !BlankNext(cfg, t, k)) || (t[k] == '.' as nat && AlnumNext(cfg, t, k))
    ensures Leads(cfg, t, s, [], s') && Before(s', span, words, p, next)
  {
    NextClass(cfg, t, k);
    if IsLink(cfg, t[k]) {
      LinkIs(cfg, t[k]);
    } else {
      SignIs(cfg, t[k]);
    }
    DoesIs(cfg, t, s.core, k, s.prevPlus, Outcome(s.core, []), false);
    s' := Loop(s.core, next, false, t[k] == '+' as nat, CSC_OTHER);
    OneStep(cfg, t, s, Outcome(s.core, []), s');
  }

  /** A separator after a joining character ends the span, the joining character being its last. */
  lemma GlueEnds(cfg: Config, t: seq<nat>, span: seq<Octet>, words: seq<Range>, p: int, k: nat, next: nat, s: Loop)
    returns (s': Loop)
    requires k < |t| && cfg.ngramLen > 0 && Simple(cfg, t) && span != [] && Before(s, span, words, p, k) && next == k + 1
    requires t[k] != '.' as nat && Separates(cfg, t, k) && (IsLink(cfg, t[k]) ==> BlankNext(cfg, t, k))
    ensures Leads(cfg, t, s, [SpanEvent(span, words, p, Bpos(t, k))], s') && Resting(s', next, p + WordCount(words))
  {
    var o := Outcome(Clean(p + WordCount(words)), [SpanEvent(span, words, p, Bpos(t, k))]);
    assert AtSpace(cfg, t, s.core, t[k], k) == o;
    NextClass(cfg, t, k);
    if White(cfg, t[k]) {
      WhiteIs(cfg, t[k]);
    } else if IsLink(cfg, t[k]) {
      LinkIs(cfg, t[k]);
    } else {
      SignIs(cfg, t[k]);
    }
    DoesIs(cfg, t, s.core, k, s.prevPlus, o, false);
    s' := Loop(o.core, next, false, t[k] == '+' as nat, CSC_OTHER);
    OneStep(cfg, t, s, o, s');
  }
}
