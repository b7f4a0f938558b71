/** A text that is laid out in words, glue and gaps gives exactly the spans of its layout. */
module SpanLayout {
  import opened Closed
  import opened SplitText
  import opened NGrams
  import opened SpanSpec
  import opened SpanInvariant
  import opened SpanWords

  // From one state of the machine to another.

  /** From state `s` on, the run gives these events and goes on from `s'`. */
  ghost predicate Leads(cfg: Config, t: seq<nat>, s: Loop, events: seq<Event>, s': Loop) {
    forall eye :: Look(eye) ==>
      s.i <= |t| && s'.i <= |t| && cfg.ngramLen > 0 && Run(cfg, t, s) == events + Run(cfg, t, s')
  }

  lemma LeadsIs(cfg: Config, t: seq<nat>, s: Loop, events: seq<Event>, s': Loop)
    ensures Leads(cfg, t, s, events, s') <==>
            s.i <= |t| && s'.i <= |t| && cfg.ngramLen > 0 && Run(cfg, t, s) == events + Run(cfg, t, s')
  {
    if Leads(cfg, t, s, events, s') {
      assert Look(Eye);
    }
  }

  lemma Then(cfg: Config, t: seq<nat>, s: Loop, e: seq<Event>, s1: Loop, e1: seq<Event>, s2: Loop)
    requires Leads(cfg, t, s, e, s1) && Leads(cfg, t, s1, e1, s2)
    ensures Leads(cfg, t, s, e + e1, s2)
  {
    LeadsIs(cfg, t, s, e, s1);
    LeadsIs(cfg, t, s1, e1, s2);
    LeadsIs(cfg, t, s, e + e1, s2);
    assert e + (e1 + Run(cfg, t, s2)) == e + e1 + Run(cfg, t, s2);
  }

  lemma Stays(cfg: Config, t: seq<nat>, s: Loop)
    requires s.i <= |t| && cfg.ngramLen > 0
    ensures Leads(cfg, t, s, [], s)
  {
    LeadsIs(cfg, t, s, [], s);
    assert [] + Run(cfg, t, s) == Run(cfg, t, s);
  }

  /** No script change is to come: the last character was of no special script, or nothing is pending. */
  predicate Settled(s: Loop) {
    s.prevCsc == CSC_OTHER || !Busy(s.core)
  }

  predicate Readable(cfg: Config, t: seq<nat>, s: Loop) {
    && s.i < |t| && cfg.ngramLen > 0 && !Skipped(cfg, t[s.i]) && !IsNgrammed(t[s.i]) && Settled(s)
    && (s.soft ==> t[s.i] != '\n' as nat && t[s.i] != '\r' as nat)
  }

  /** A turn on a character of no special script is what the character does. */
  lemma PlainTurn(cfg: Config, t: seq<nat>, s: Loop)
    requires Readable(cfg, t, s)
    ensures var (p, both) := OnChar(cfg, t, s.core, s.i, WhatCc(cfg, t[s.i]), s.prevPlus);
            Leads(cfg, t, s, p.events,
                  Loop(p.core, if both && s.i + 2 <= |t| then s.i + 2 else s.i + 1, false,
                       WhatCc(cfg, t[s.i]) == Own('+' as int), CSC_OTHER))
  {
    SkippedIff(cfg, t[s.i]);
    NotScript(t[s.i]);
    var (p, both) := OnChar(cfg, t, s.core, s.i, WhatCc(cfg, t[s.i]), s.prevPlus);
    var s' := Loop(p.core, if both && s.i + 2 <= |t| then s.i + 2 else s.i + 1, false,
                   WhatCc(cfg, t[s.i]) == Own('+' as int), CSC_OTHER);
    assert ScriptChange(cfg, t, s, CSC_OTHER) == Outcome(s.core, []);
    assert CharTurn(cfg, t, s, CSC_OTHER, s.core) == Turn(s', p.events);
    assert [] + p.events == p.events;
    assert TurnAt(cfg, t, s) == Turn(s', p.events);
    LeadsIs(cfg, t, s, p.events, s');
  }

  /** The character at `i` does this in this state. */
  ghost predicate Does(cfg: Config, t: seq<nat>, core: Core, i: nat, plus: bool, o: Outcome, both: bool) {
    forall eye :: Look(eye) ==> i < |t| && OnChar(cfg, t, core, i, WhatCc(cfg, t[i]), plus) == (o, both)
  }

  lemma DoesIs(cfg: Config, t: seq<nat>, core: Core, i: nat, plus: bool, o: Outcome, both: bool)
    ensures Does(cfg, t, core, i, plus, o, both) <==>
            i < |t| && OnChar(cfg, t, core, i, WhatCc(cfg, t[i]), plus) == (o, both)
  {
    if Does(cfg, t, core, i, plus, o, both) {
      assert Look(Eye);
    }
  }

  lemma NotScript(c: nat)
    requires !IsNgrammed(c)
    ensures CharSpanClass(c) == CSC_OTHER
  {
  }

  /** The same for a character that consumes no other. */
  lemma OneStep(cfg: Config, t: seq<nat>, s: Loop, o: Outcome, s': Loop)
    requires Readable(cfg, t, s) && Does(cfg, t, s.core, s.i, s.prevPlus, o, false)
    requires s' == Loop(o.core, s.i + 1, false, t[s.i] == '+' as nat, CSC_OTHER)
    ensures Leads(cfg, t, s, o.events, s')
  {
    PlusOnly(cfg, t[s.i]);
    DoesIs(cfg, t, s.core, s.i, s.prevPlus, o, false);
    PlainTurn(cfg, t, s);
  }

  /** The same for one that consumes the next. */
  lemma TwoStep(cfg: Config, t: seq<nat>, s: Loop, o: Outcome, s': Loop)
    requires Readable(cfg, t, s) && Does(cfg, t, s.core, s.i, s.prevPlus, o, true)
    requires s' == Loop(o.core, Min(s.i + 2, |t|), false, t[s.i] == '+' as nat, CSC_OTHER)
    ensures Leads(cfg, t, s, o.events, s')
  {
    PlusOnly(cfg, t[s.i]);
    DoesIs(cfg, t, s.core, s.i, s.prevPlus, o, true);
    PlainTurn(cfg, t, s);
  }

  lemma PlusOnly(cfg: Config, c: nat)
    ensures WhatCc(cfg, c) == Own('+' as int) <==> c == '+' as nat
  {
  }

  // Gaps.

  /** Nothing pending, the next word being at position `p`. */
  function Clean(p: int): Core {
    Core([], [], 0, 0, false, p, p)
  }

  lemma GapChar(cfg: Config, t: seq<nat>, i: nat, p: int, plus: bool)
    requires i < |t| && t[i] != '.' as nat && Separates(cfg, t, i) && !cfg.indexedPunctuation(t[i])
    ensures Does(cfg, t, Clean(p), i, plus,
                 Outcome(Clean(p), []), false)
  {
    DoesIs(cfg, t, Clean(p), i, plus,
           Outcome(Clean(p), []), false);
    NextClass(cfg, t, i);
    assert AtSpace(cfg, t, Clean(p), t[i], i) == Outcome(Clean(p), []);
    if White(cfg, t[i]) {
      WhiteIs(cfg, t[i]);
    } else if IsLink(cfg, t[i]) {
      LinkIs(cfg, t[i]);
    } else {
      SignIs(cfg, t[i]);
    }
  }

  /** A dot in a gap: a span without words. */
  lemma GapDot(cfg: Config, t: seq<nat>, i: nat, p: int, plus: bool)
    requires i < |t| && t[i] == '.' as nat && !AlnumNext(cfg, t, i) && !cfg.indexedPunctuation(t[i])
    ensures Does(cfg, t, Clean(p), i, plus,
                 Outcome(Clean(p), [SpanEvent(Enc(t[i]), [], p, Bpos(t, i + 1))]), true)
  {
    DoesIs(cfg, t, Clean(p), i, plus,
           Outcome(Clean(p), [SpanEvent(Enc(t[i]), [], p, Bpos(t, i + 1))]), true);
    NextClass(cfg, t, i);
    SignIs(cfg, t[i]);
    assert [] + Enc(t[i]) == Enc(t[i]);
    var core := Clean(p).(span := Enc(t[i]));
    assert Busy(core);
    assert AtSpace(cfg, t, core, t[i], i + 1) ==
           Outcome(Clean(p), [SpanEvent(Enc(t[i]), [], p, Bpos(t, i + 1))]);
  }

  /** The events but for spans without words. */
  function Spoken(events: seq<Event>): seq<Event> {
    if events == [] then []
    else (if events[0].SpanEvent? && events[0].words == [] then [] else [events[0]]) + Spoken(events[1..])
  }

  lemma {:induction false} SpokenJoin(a: seq<Event>, b: seq<Event>)
    ensures Spoken(a + b) == Spoken(a) + Spoken(b)
    decreases |a|
  {
    if a == [] {
      assert a + b == b;
    } else {
      SpokenJoin(a[1..], b);
      assert (a + b)[1..] == a[1..] + b && (a + b)[0] == a[0];
      var first := if a[0].SpanEvent? && a[0].words == [] then [] else [a[0]];
      assert Spoken(a + b) == first + Spoken(a[1..] + b);
      assert first + (Spoken(a[1..]) + Spoken(b)) == (first + Spoken(a[1..])) + Spoken(b);
    }
  }

  /** The state in a gap before character `i`. */
  predicate Resting(s: Loop, i: nat, p: int) {
    s.core == Clean(p) && s.i == i && !s.soft
  }

  /** One step in a gap. */
  lemma GapStep(cfg: Config, t: seq<nat>, s: Loop, i: nat, p: int) returns (events: seq<Event>, s': Loop)
    requires i < |t| && cfg.ngramLen > 0 && Simple(cfg, t) && Resting(s, i, p)
    requires if t[i] == '.' as nat then !AlnumNext(cfg, t, i) else Separates(cfg, t, i)
    ensures Leads(cfg, t, s, events, s') && Spoken(events) == []
    ensures Resting(s', if t[i] == '.' as nat then Min(i + 2, |t|) else i + 1, p)
  {
    if t[i] == '.' as nat {
      events := [SpanEvent(Enc(t[i]), [], p, Bpos(t, i + 1))];
      s' := Loop(Clean(p), Min(i + 2, |t|), false, false, CSC_OTHER);
      assert events[1..] == [];
      GapDot(cfg, t, i, p, s.prevPlus);
      TwoStep(cfg, t, s, Outcome(Clean(p), events), s');
    } else {
      events, s' := [], Loop(Clean(p), i + 1, false, t[i] == '+' as nat, CSC_OTHER);
      GapChar(cfg, t, i, p, s.prevPlus);
      OneStep(cfg, t, s, Outcome(Clean(p), []), s');
    }
  }

  /** A gap gives nothing. */
  lemma {:induction false} GapLeads(cfg: Config, t: seq<nat>, s: Loop, i: nat, j: nat, p: int)
    returns (events: seq<Event>, s': Loop)
    requires i <= j <= |t| && cfg.ngramLen > 0 && Simple(cfg, t) && Resting(s, i, p) && Gap(cfg, t, i, j)
    ensures Leads(cfg, t, s, events, s') && Spoken(events) == [] && Resting(s', j, p)
    decreases j - i
  {
    if i == j {
      Stays(cfg, t, s);
      events, s' := [], s;
    } else {
      var e, s1 := GapStep(cfg, t, s, i, p);
      var next := if t[i] == '.' as nat then Min(i + 2, |t|) else i + 1;
      GapInside(cfg, t, next, j);
      var e1, s2 := GapLeads(cfg, t, s1, next, j, p);
      Then(cfg, t, s, e, s1, e1, s2);
      SpokenJoin(e, e1);
      events, s' := e + e1, s2;
    }
  }

  lemma GapInside(cfg: Config, t: seq<nat>, i: nat, j: nat)
    requires j <= |t| && Gap(cfg, t, i, j)
    ensures i <= j
  {
  }

  // Words.

  /** Inside a word that began at `a`, before character `k`: `span` and `words` are what the span had
      before. */
  function WordCore(cfg: Config, t: seq<nat>, span: seq<Octet>, words: seq<Range>, p: int, a: nat, k: nat): Core
    requires a <= k <= |t|
  {
    Core(span + Bytes(t, a, k), words, |span|, |Bytes(t, a, k)|, Number(cfg, t, a, k), p + WordCount(words), p)
  }

  lemma WordCoreStart(cfg: Config, t: seq<nat>, span: seq<Octet>, words: seq<Range>, p: int, a: nat)
    requires a <= |t|
    ensures WordCore(cfg, t, span, words, p, a, a) == Core(span, words, |span|, 0, false, p + WordCount(words), p)
  {
    assert span + [] == span;
  }

  lemma {:induction false} BytesLong(t: seq<nat>, a: nat, k: nat)
    requires a < k <= |t|
    ensures |Bytes(t, a, k)| > 0
  {
  }

  /** One more character in the word. */
  lemma WordMore(cfg: Config, t: seq<nat>, span: seq<Octet>, words: seq<Range>, p: int, a: nat, k: nat, number: bool)
    requires a <= k < |t| && number == Number(cfg, t, a, k + 1)
    ensures Append(WordCore(cfg, t, span, words, p, a, k).(inNumber := number), t[k]) ==
            WordCore(cfg, t, span, words, p, a, k + 1)
  {
    assert span + Bytes(t, a, k) + Enc(t[k]) == span + (Bytes(t, a, k) + Enc(t[k]));
  }

  lemma NumberMore(cfg: Config, t: seq<nat>, a: nat, k: nat)
    requires a < k < |t|
    ensures Number(cfg, t, a, k + 1) <==>
            Number(cfg, t, a, k) && (Alnum(cfg, t[k]) ==> IsDigit(t[k]) || IsExponent(t[k]))
  {
  }

  lemma NumberStart(cfg: Config, t: seq<nat>, a: nat)
    requires a < |t|
    ensures Number(cfg, t, a, a + 1) <==> IsDigit(t[a]) || IsSign(t[a]) || t[a] == '.' as nat
    ensures !Number(cfg, t, a, a)
  {
  }

  /** The first character of a word. */
  lemma WordBegins(cfg: Config, t: seq<nat>, span: seq<Octet>, words: seq<Range>, p: int, a: nat, plus: bool)
    requires a < |t| && Begins(cfg, t, a, span == []) && !Skipped(cfg, t[a])
    ensures Does(cfg, t, WordCore(cfg, t, span, words, p, a, a), a, plus,
                 Outcome(WordCore(cfg, t, span, words, p, a, a + 1), []), false)
  {
    DoesIs(cfg, t, WordCore(cfg, t, span, words, p, a, a), a, plus,
           Outcome(WordCore(cfg, t, span, words, p, a, a + 1), []), false);
    var core := WordCore(cfg, t, span, words, p, a, a);
    WordCoreStart(cfg, t, span, words, p, a);
    NumberStart(cfg, t, a);
    WordMore(cfg, t, span, words, p, a, a, Number(cfg, t, a, a + 1));
    AlnumIff(cfg, t[a]);
    NextClass(cfg, t, a);
    assert core.(inNumber := false) == core;
    if !Alnum(cfg, t[a]) {
      SignIs(cfg, t[a]);
    }
  }

  /** The last byte of the span inside a word. */
  lemma LastByte(cfg: Config, t: seq<nat>, span: seq<Octet>, words: seq<Range>, p: int, a: nat, k: nat)
    requires a < k <= |t|
    ensures var s := WordCore(cfg, t, span, words, p, a, k).span;
            s != [] && (s[|s| - 1] in {Octet('e' as nat, 0), Octet('E' as nat, 0)} <==> IsExponent(t[k - 1]))
  {
    var s := WordCore(cfg, t, span, words, p, a, k).span;
    var e := Enc(t[k - 1]);
    assert s == (span + Bytes(t, a, k - 1)) + e;
    assert s[|s| - 1] == e[|e| - 1] == Octet(t[k - 1], |e| - 1);
  }

  lemma GoesOnAlnum(cfg: Config, t: seq<nat>, span: seq<Octet>, words: seq<Range>, p: int, a: nat, k: nat, plus: bool)
    requires a < k < |t| && Alnum(cfg, t[k])
    ensures Does(cfg, t, WordCore(cfg, t, span, words, p, a, k), k, plus,
                 Outcome(WordCore(cfg, t, span, words, p, a, k + 1), []), false)
  {
    DoesIs(cfg, t, WordCore(cfg, t, span, words, p, a, k), k, plus,
           Outcome(WordCore(cfg, t, span, words, p, a, k + 1), []), false);
    var core := WordCore(cfg, t, span, words, p, a, k);
    BytesLong(t, a, k);
    NumberMore(cfg, t, a, k);
    WordMore(cfg, t, span, words, p, a, k, Number(cfg, t, a, k + 1));
    AlnumIff(cfg, t[k]);
    assert core.(inNumber := core.inNumber) == core;
  }

  lemma GoesOnOther(cfg: Config, t: seq<nat>, span: seq<Octet>, words: seq<Range>, p: int, a: nat, k: nat, plus: bool)
    requires a < k < |t| && !Alnum(cfg, t[k]) && GoesOn(cfg, t, a, k) && plus == (t[k - 1] == '+' as nat)
    requires k + 1 < |t| ==> !Skipped(cfg, t[k + 1])
    ensures Does(cfg, t, WordCore(cfg, t, span, words, p, a, k), k, plus,
                 Outcome(WordCore(cfg, t, span, words, p, a, k + 1), []), false)
  {
    DoesIs(cfg, t, WordCore(cfg, t, span, words, p, a, k), k, plus,
           Outcome(WordCore(cfg, t, span, words, p, a, k + 1), []), false);
    var core := WordCore(cfg, t, span, words, p, a, k);
    BytesLong(t, a, k);
    NumberMore(cfg, t, a, k);
    WordMore(cfg, t, span, words, p, a, k, Number(cfg, t, a, k));
    assert core.(inNumber := core.inNumber) == core;
    NextClass(cfg, t, k);
    SeparatorClass(cfg, t, k);
    SignIs(cfg, t[k]);
    LastByte(cfg, t, span, words, p, a, k);
  }

  /** The state before character `k` of the word that began at `a`. */
  function Inside(cfg: Config, t: seq<nat>, span: seq<Octet>, words: seq<Range>, p: int, a: nat, k: nat): Loop
    requires a < k <= |t|
  {
    Loop(WordCore(cfg, t, span, words, p, a, k), k, false, t[k - 1] == '+' as nat, CSC_OTHER)
  }

  /** The state before the word. */
  predicate Before(s: Loop, span: seq<Octet>, words: seq<Range>, p: int, a: nat) {
    s.core == Core(span, words, |span|, 0, false, p + WordCount(words), p) && s.i == a && !s.soft && Settled(s)
  }

  lemma FirstStep(cfg: Config, t: seq<nat>, span: seq<Octet>, words: seq<Range>, p: int, a: nat, next: nat, s: Loop)
    requires a < |t| && next == a + 1 && cfg.ngramLen > 0 && Simple(cfg, t)
    requires Begins(cfg, t, a, span == []) && Before(s, span, words, p, a)
    ensures Leads(cfg, t, s, [], Inside(cfg, t, span, words, p, a, next))
  {
    WordCoreStart(cfg, t, span, words, p, a);
    WordBegins(cfg, t, span, words, p, a, s.prevPlus);
    OneStep(cfg, t, s, Outcome(WordCore(cfg, t, span, words, p, a, next), []), Inside(cfg, t, span, words, p, a, next));
  }

  lemma GoesOnChar(cfg: Config, t: seq<nat>, span: seq<Octet>, words: seq<Range>, p: int, a: nat, k: nat, next: nat,
                   plus: bool)
    requires a < k < |t| && next == k + 1 && Simple(cfg, t) && GoesOn(cfg, t, a, k) && plus == (t[k - 1] == '+' as nat)
    ensures Does(cfg, t, WordCore(cfg, t, span, words, p, a, k), k, plus,
                 Outcome(WordCore(cfg, t, span, words, p, a, next), []), false)
  {
    DoesIs(cfg, t, WordCore(cfg, t, span, words, p, a, k), k, plus,
           Outcome(WordCore(cfg, t, span, words, p, a, next), []), false);
    if Alnum(cfg, t[k]) {
      GoesOnAlnum(cfg, t, span, words, p, a, k, plus);
    } else {
      GoesOnOther(cfg, t, span, words, p, a, k, plus);
    }
  }

  lemma NextStep(cfg: Config, t: seq<nat>, span: seq<Octet>, words: seq<Range>, p: int, a: nat, k: nat, next: nat)
    requires a < k < |t| && next == k + 1 && cfg.ngramLen > 0 && Simple(cfg, t) && GoesOn(cfg, t, a, k)
    ensures Leads(cfg, t, Inside(cfg, t, span, words, p, a, k), [], Inside(cfg, t, span, words, p, a, next))
  {
    var s := Inside(cfg, t, span, words, p, a, k);
    GoesOnChar(cfg, t, span, words, p, a, k, next, s.prevPlus);
    OneStep(cfg, t, s, Outcome(WordCore(cfg, t, span, words, p, a, next), []), Inside(cfg, t, span, words, p, a, next));
  }

  /** The characters of a word give no event. */
  lemma {:induction false} WordLeads(cfg: Config, t: seq<nat>, span: seq<Octet>, words: seq<Range>, p: int, a: nat, b: nat,
                                     s: Loop)
    requires cfg.ngramLen > 0 && Simple(cfg, t) && WordTo(cfg, t, a, b, span == []) && Before(s, span, words, p, a)
    ensures Leads(cfg, t, s, [], Inside(cfg, t, span, words, p, a, b))
    decreases b
  {
    if b == a + 1 {
      FirstStep(cfg, t, span, words, p, a, b, s);
    } else {
      WordLeads(cfg, t, span, words, p, a, b - 1, s);
      NextStep(cfg, t, span, words, p, a, b - 1, b);
      var none: seq<Event> := [];
      assert none + none == none;
      Then(cfg, t, s, none, Inside(cfg, t, span, words, p, a, b - 1), none, Inside(cfg, t, span, words, p, a, b));
    }
  }

  // After a word.

  lemma CountMore(cfg: Config, t: seq<nat>, span: seq<Octet>, words: seq<Range>, a: nat, b: nat)
    requires a < b <= |t|
    ensures WordCount(More(cfg, t, span, words, a, b)) == WordCount(words) + if Unwanted(cfg, t, a, b) then 0 else 1
  {
    BytesLong(t, a, b);
    var more := words + [Range(|span|, |span| + |Bytes(t, a, b)|)];
    assert more[0] == if words == [] then Range(|span|, |span| + |Bytes(t, a, b)|) else words[0];
  }

  /** What the end of the word leaves: the words with this one, unless it is not wanted. */
  lemma WordEnds(cfg: Config, t: seq<nat>, span: seq<Octet>, words: seq<Range>, p: int, a: nat, b: nat)
    requires a < b <= |t|
    ensures var core, c := WordCore(cfg, t, span, words, p, a, b), EndWord(cfg, WordCore(cfg, t, span, words, p, a, b));
            && core.wordLen > 0 && core.span == span + Bytes(t, a, b) && core.inNumber == Number(cfg, t, a, b)
            && c == core.(words := More(cfg, t, span, words, a, b), wordLen := 0,
                          wordpos := p + WordCount(More(cfg, t, span, words, a, b)))
  {
    CountMore(cfg, t, span, words, a, b);
    BytesLong(t, a, b);
  }

  /** What a joining character leaves: the span goes on with it, or begins with it when the one before it is
      full. */
  function AfterJoin(cfg: Config, t: seq<nat>, span: seq<Octet>, words: seq<Range>, p: int, a: nat, b: nat): Outcome
    requires a <= b < |t|
  {
    var s, r := span + Bytes(t, a, b), More(cfg, t, span, words, a, b);
    if |r| >= cfg.maxWordsInSpan then
      Outcome(Core(Enc(t[b]), [], Width(t[b]), 0, false, p + WordCount(r), p + WordCount(r)),
              [SpanEvent(s, r, p, Bpos(t, b))])
    else Outcome(Core(s + Enc(t[b]), r, |s| + Width(t[b]), 0, false, p + WordCount(r), p), [])
  }

  lemma EmitOf(cfg: Config, core: Core, s: seq<Octet>, r: seq<Range>, w: int, bp: int, c: nat)
    requires core.wordLen > 0 && core.span == s
    requires EndWord(cfg, core) == core.(words := r, wordLen := 0, wordpos := w)
    ensures var o := DoEmit(cfg, core, false, bp);
            && o.core.inNumber == core.inNumber
            && Outcome(Glue(o.core.(inNumber := false), c), o.events) ==
               if |r| >= cfg.maxWordsInSpan
               then Outcome(Core(Enc(c), [], Width(c), 0, false, w, w), [SpanEvent(s, r, core.spanpos, bp)])
               else Outcome(Core(s + Enc(c), r, |s| + Width(c), 0, false, w, core.spanpos), [])
  {
    assert [] + Enc(c) == Enc(c);
  }

  lemma JoinEmits(cfg: Config, t: seq<nat>, span: seq<Octet>, words: seq<Range>, p: int, a: nat, b: nat)
    requires a < b < |t|
    ensures var core := WordCore(cfg, t, span, words, p, a, b);
            var o := DoEmit(cfg, core, false, Bpos(t, b));
            && Outcome(Glue(o.core.(inNumber := false), t[b]), o.events) == AfterJoin(cfg, t, span, words, p, a, b)
            && o.core.inNumber == core.inNumber == Number(cfg, t, a, b) && core.wordLen > 0 && core.span != []
  {
    var r := More(cfg, t, span, words, a, b);
    WordEnds(cfg, t, span, words, p, a, b);
    EmitOf(cfg, WordCore(cfg, t, span, words, p, a, b), span + Bytes(t, a, b), r, p + WordCount(r), Bpos(t, b), t[b]);
  }

  lemma JoinChar(cfg: Config, t: seq<nat>, span: seq<Octet>, words: seq<Range>, p: int, a: nat, b: nat, plus: bool)
    requires a < b < |t| && Joins(cfg, t, a, b) && !GoesOn(cfg, t, a, b)
    ensures Does(cfg, t, WordCore(cfg, t, span, words, p, a, b), b, plus, AfterJoin(cfg, t, span, words, p, a, b), false)
  {
    var core := WordCore(cfg, t, span, words, p, a, b);
    var o := DoEmit(cfg, core, false, Bpos(t, b));
    DoesIs(cfg, t, core, b, plus, AfterJoin(cfg, t, span, words, p, a, b), false);
    JoinEmits(cfg, t, span, words, p, a, b);
    NextClass(cfg, t, b);
    if IsLink(cfg, t[b]) {
      LinkIs(cfg, t[b]);
    } else {
      SignIs(cfg, t[b]);
      assert !core.inNumber ==> o.core.(inNumber := false) == o.core;
    }
  }

  /** White space at the end of a word or full stop: the span is finished. */
  lemma SpanFlushed(cfg: Config, t: seq<nat>, span: seq<Octet>, words: seq<Range>, p: int, a: nat, b: nat,
                    dot: seq<Octet>, c: nat, at: nat)
    requires a < b <= |t| && at <= |t| && !cfg.indexedPunctuation(c)
    ensures var r, core := More(cfg, t, span, words, a, b), WordCore(cfg, t, span, words, p, a, b);
            && AtSpace(cfg, t, core.(span := core.span + dot), c, at) ==
               Outcome(Clean(p + WordCount(r)), [SpanEvent(span + Bytes(t, a, b) + dot, r, p, Bpos(t, at))])
            && Flush(cfg, core, Bpos(t, at)).events == [SpanEvent(span + Bytes(t, a, b), r, p, Bpos(t, at))]
  {
    WordEnds(cfg, t, span, words, p, a, b);
  }

  lemma StopChar(cfg: Config, t: seq<nat>, span: seq<Octet>, words: seq<Range>, p: int, a: nat, b: nat, plus: bool)
    requires a < b < |t| && Simple(cfg, t) && plus == (t[b - 1] == '+' as nat)
    requires !GoesOn(cfg, t, a, b) && !Joins(cfg, t, a, b) && !FullStop(cfg, t, a, b)
    ensures var r := More(cfg, t, span, words, a, b);
            Does(cfg, t, WordCore(cfg, t, span, words, p, a, b), b, plus,
                 Outcome(Clean(p + WordCount(r)), [SpanEvent(span + Bytes(t, a, b), r, p, Bpos(t, b))]), false)
  {
    var r := More(cfg, t, span, words, a, b);
    DoesIs(cfg, t, WordCore(cfg, t, span, words, p, a, b), b, plus,
           Outcome(Clean(p + WordCount(r)), [SpanEvent(span + Bytes(t, a, b), r, p, Bpos(t, b))]), false);
    var core := WordCore(cfg, t, span, words, p, a, b);
    SpanFlushed(cfg, t, span, words, p, a, b, [], t[b], b);
    assert core.span + [] == core.span && span + Bytes(t, a, b) + [] == span + Bytes(t, a, b);
    assert core.(span := core.span) == core;
    BytesLong(t, a, b);
    LastByte(cfg, t, span, words, p, a, b);
    NextClass(cfg, t, b);
    SeparatorClass(cfg, t, b);
    Kinds(cfg, t[b]);
    if White(cfg, t[b]) {
      WhiteIs(cfg, t[b]);
    } else if IsLink(cfg, t[b]) {
      LinkIs(cfg, t[b]);
    } else {
      SignIs(cfg, t[b]);
    }
  }

  lemma FullStopChar(cfg: Config, t: seq<nat>, span: seq<Octet>, words: seq<Range>, p: int, a: nat, b: nat, plus: bool)
    requires a < b < |t| && Simple(cfg, t) && FullStop(cfg, t, a, b)
    ensures var r := More(cfg, t, span, words, a, b);
            Does(cfg, t, WordCore(cfg, t, span, words, p, a, b), b, plus,
                 Outcome(Clean(p + WordCount(r)), [SpanEvent(span + Bytes(t, a, b) + Enc(t[b]), r, p, Bpos(t, b + 1))]),
                 true)
  {
    var r := More(cfg, t, span, words, a, b);
    DoesIs(cfg, t, WordCore(cfg, t, span, words, p, a, b), b, plus,
           Outcome(Clean(p + WordCount(r)), [SpanEvent(span + Bytes(t, a, b) + Enc(t[b]), r, p, Bpos(t, b + 1))]),
                 true);
    SpanFlushed(cfg, t, span, words, p, a, b, Enc(t[b]), t[b], b + 1);
    NextClass(cfg, t, b);
    SignIs(cfg, t[b]);
  }

  /** The last word of a span: the span is finished, and reading goes on past what ended it. */
  lemma LastWord(cfg: Config, t: seq<nat>, span: seq<Octet>, words: seq<Range>, p: int, a: nat, b: nat, stop: bool,
                 next: nat, bp: nat)
    returns (s': Loop)
    requires a < b <= |t| && cfg.ngramLen > 0 && Simple(cfg, t)
    requires if stop then b < |t| && FullStop(cfg, t, a, b)
             else b < |t| ==> !GoesOn(cfg, t, a, b) && !Joins(cfg, t, a, b) && !FullStop(cfg, t, a, b)
    requires next == Min(|t|, b + (if stop then 2 else 1)) && bp == (if stop then Bpos(t, b + 1) else Bpos(t, b))
    ensures var r := More(cfg, t, span, words, a, b);
            && Leads(cfg, t, Inside(cfg, t, span, words, p, a, b),
                     [SpanEvent(span + Bytes(t, a, b) + (if stop then Enc(t[b]) else []), r, p, bp)], s')
            && Resting(s', next, p + WordCount(r))
  {
    var s, r := Inside(cfg, t, span, words, p, a, b), More(cfg, t, span, words, a, b);
    var all := span + Bytes(t, a, b);
    assert all + [] == all;
    if stop {
      FullStopChar(cfg, t, span, words, p, a, b, s.prevPlus);
      s' := Loop(Clean(p + WordCount(r)), next, false, false, CSC_OTHER);
      TwoStep(cfg, t, s, Outcome(Clean(p + WordCount(r)), [SpanEvent(all + Enc(t[b]), r, p, bp)]), s');
    } else if b < |t| {
      StopChar(cfg, t, span, words, p, a, b, s.prevPlus);
      s' := Loop(Clean(p + WordCount(r)), next, false, t[b] == '+' as nat, CSC_OTHER);
      OneStep(cfg, t, s, Outcome(Clean(p + WordCount(r)), [SpanEvent(all, r, p, bp)]), s');
    } else {
      s' := Loop(Clean(p + WordCount(r)), next, false, false, CSC_OTHER);
      TextEnds(cfg, t, span, words, p, a, b, s');
    }
  }

  /** The end of the text ends the span. */
  lemma TextEnds(cfg: Config, t: seq<nat>, span: seq<Octet>, words: seq<Range>, p: int, a: nat, b: nat, s': Loop)
    requires a < b == |t| && cfg.ngramLen > 0 && s'.i == |t| && s'.core.span == [] && s'.core.wordLen == 0
    ensures Leads(cfg, t, Inside(cfg, t, span, words, p, a, b),
                  [SpanEvent(span + Bytes(t, a, b), More(cfg, t, span, words, a, b), p, Bpos(t, b))], s')
  {
    var s, e := Inside(cfg, t, span, words, p, a, b),
                [SpanEvent(span + Bytes(t, a, b), More(cfg, t, span, words, a, b), p, Bpos(t, b))];
    WordEnds(cfg, t, span, words, p, a, b);
    assert Run(cfg, t, s) == Flush(cfg, s.core, Bpos(t, |t|)).events == e;
    assert Run(cfg, t, s') == [];
    assert e + [] == e;
    LeadsIs(cfg, t, s, e, s');
  }

  /** A word and what joins it to the next. */
  lemma JoinStep(cfg: Config, t: seq<nat>, span: seq<Octet>, words: seq<Range>, p: int, a: nat, b: nat, next: nat)
    returns (s': Loop)
    requires a < b < |t| && next == b + 1 && cfg.ngramLen > 0 && Simple(cfg, t)
    requires Joins(cfg, t, a, b) && !GoesOn(cfg, t, a, b)
    ensures var r := More(cfg, t, span, words, a, b);
            && Leads(cfg, t, Inside(cfg, t, span, words, p, a, b), AfterJoin(cfg, t, span, words, p, a, b).events, s')
            && (if |r| >= cfg.maxWordsInSpan then Before(s', Enc(t[b]), [], p + WordCount(r), next)
                else Before(s', span + Bytes(t, a, b) + Enc(t[b]), r, p, next))
  {
    var s, o := Inside(cfg, t, span, words, p, a, b), AfterJoin(cfg, t, span, words, p, a, b);
    JoinChar(cfg, t, span, words, p, a, b, s.prevPlus);
    s' := Loop(o.core, next, false, t[b] == '+' as nat, CSC_OTHER);
    OneStep(cfg, t, s, o, s');
  }

  /** Joined words lie in the text. */
  lemma {:induction false} JoinedFits(cfg: Config, t: seq<nat>, ws: seq<(nat, nat)>, stop: bool, first: bool)
    requires Joined(cfg, t, ws, stop, first)
    ensures Fits(t, ws, stop)
    ensures ws[0].0 < ws[0].1
    decreases |ws|
  {
    if |ws| > 1 {
      JoinedFits(cfg, t, ws[1..], stop, false);
      forall k | 0 <= k < |ws| && (k < |ws| - 1 || stop) ensures ws[k].1 < |t| {
        if k > 0 {
          assert ws[k] == ws[1..][k - 1];
        }
      }
      forall w | w in ws ensures w.0 <= w.1 <= |t| {
        assert w == ws[0] || w in ws[1..];
      }
    }
  }

  /** The spans of a list of one word. */
  lemma {:induction false} SpansOfLast(cfg: Config, t: seq<nat>, span: seq<Octet>, words: seq<Range>, p: int,
                                       ws: seq<(nat, nat)>, stop: bool, a: nat, b: nat)
    requires ws == [(a, b)] && a <= b <= |t| && (stop ==> b < |t|)
    ensures SpansFrom(cfg, t, span, words, p, ws, stop) ==
            [SpanEvent(span + Bytes(t, a, b) + (if stop then Enc(t[b]) else []), More(cfg, t, span, words, a, b), p,
                       if stop then Bpos(t, b + 1) else Bpos(t, b))]
  {
    var all := span + Bytes(t, a, b);
    assert all + [] == all;
  }

  /** The last word of the list. */
  lemma {:induction false} LastOfSpan(cfg: Config, t: seq<nat>, span: seq<Octet>, words: seq<Range>, p: int,
                                      a: nat, b: nat, stop: bool, s: Loop, next: nat, events: seq<Event>)
    returns (s': Loop)
    requires a < b <= |t| && cfg.ngramLen > 0 && Simple(cfg, t) && Word(cfg, t, a, b, span == [])
    requires Before(s, span, words, p, a)
    requires if stop then b < |t| && FullStop(cfg, t, a, b)
             else b < |t| ==> !Joins(cfg, t, a, b) && !FullStop(cfg, t, a, b)
    requires next == Min(|t|, b + (if stop then 2 else 1))
    requires events == [SpanEvent(span + Bytes(t, a, b) + (if stop then Enc(t[b]) else []),
                                  More(cfg, t, span, words, a, b), p, if stop then Bpos(t, b + 1) else Bpos(t, b))]
    ensures Leads(cfg, t, s, events, s') && Resting(s', next, p + WordCount(More(cfg, t, span, words, a, b)))
  {
    WordLeads(cfg, t, span, words, p, a, b, s);
    s' := LastWord(cfg, t, span, words, p, a, b, stop, next, if stop then Bpos(t, b + 1) else Bpos(t, b));
    assert [] + events == events;
    Then(cfg, t, s, [], Inside(cfg, t, span, words, p, a, b), events, s');
  }

  /** What the word from `a` to `b`, joined to the next, leaves of the span: a longer one, or a new one after
      the event of the old. */
  predicate Carries(cfg: Config, t: seq<nat>, span: seq<Octet>, words: seq<Range>, p: int, a: nat, b: nat,
                    e: seq<Event>, span': seq<Octet>, words': seq<Range>, p': int)
    requires a <= b < |t|
  {
    var s, r := span + Bytes(t, a, b), More(cfg, t, span, words, a, b);
    && p' + WordCount(words') == p + WordCount(r)
    && if |r| >= cfg.maxWordsInSpan
       then e == [SpanEvent(s, r, p, Bpos(t, b))] && span' == Enc(t[b]) && words' == [] && p' == p + WordCount(r)
       else e == [] && span' == s + Enc(t[b]) && words' == r && p' == p
  }

  /** Any other word of the list. */
  lemma {:induction false} OneOfSpan(cfg: Config, t: seq<nat>, span: seq<Octet>, words: seq<Range>, p: int,
                                     a: nat, b: nat, s: Loop)
    returns (e: seq<Event>, s': Loop, span': seq<Octet>, words': seq<Range>, p': int)
    requires cfg.ngramLen > 0 && Simple(cfg, t) && Word(cfg, t, a, b, span == []) && b < |t| && Joins(cfg, t, a, b)
    requires Before(s, span, words, p, a)
    ensures Leads(cfg, t, s, e, s') && Before(s', span', words', p', b + 1) && span' != []
    ensures Carries(cfg, t, span, words, p, a, b, e, span', words', p')
  {
    var r := More(cfg, t, span, words, a, b);
    WordLeads(cfg, t, span, words, p, a, b, s);
    var full := |r| >= cfg.maxWordsInSpan;
    s' := JoinStep(cfg, t, span, words, p, a, b, b + 1);
    e := if full then [SpanEvent(span + Bytes(t, a, b), r, p, Bpos(t, b))] else [];
    Then(cfg, t, s, [], Inside(cfg, t, span, words, p, a, b), e, s');
    assert [] + e == e;
    if full {
      span', words', p' := Enc(t[b]), [], p + WordCount(r);
    } else {
      span', words', p' := span + Bytes(t, a, b) + Enc(t[b]), r, p;
    }
  }

  /** The spans of the list are those of its first word and of the rest. */
  lemma {:induction false} SpansOfRest(cfg: Config, t: seq<nat>, span: seq<Octet>, words: seq<Range>, p: int,
                                       ws: seq<(nat, nat)>, stop: bool, a: nat, b: nat, e: seq<Event>,
                                       span': seq<Octet>, words': seq<Range>, p': int)
    requires |ws| > 1 && Fits(t, ws, stop) && Fits(t, ws[1..], stop) && ws[0] == (a, b)
    requires Carries(cfg, t, span, words, p, a, b, e, span', words', p')
    ensures SpansFrom(cfg, t, span, words, p, ws, stop) == e + SpansFrom(cfg, t, span', words', p', ws[1..], stop)
  {
    var rest := SpansFrom(cfg, t, span', words', p', ws[1..], stop);
    assert [] + rest == rest;
  }

  lemma {:induction false} PastRest(t: seq<nat>, ws: seq<(nat, nat)>, stop: bool)
    requires |ws| > 1
    ensures Past(t, ws, stop) == Past(t, ws[1..], stop)
  {
  }

  lemma {:induction false} JoinedRest(cfg: Config, t: seq<nat>, ws: seq<(nat, nat)>, stop: bool, first: bool)
    requires Joined(cfg, t, ws, stop, first)
    ensures |ws| > 1 ==> Joined(cfg, t, ws[1..], stop, false) && ws[1..] != [] && ws[1..][0] == ws[1]
    ensures |ws| > 1 ==> Fits(t, ws[1..], stop)
    ensures |ws| == 1 ==> ws == [(ws[0].0, ws[0].1)]
  {
    if |ws| > 1 {
      JoinedFits(cfg, t, ws[1..], stop, false);
    }
  }

  /** Joined words lead to the spans they give. */
  lemma {:induction false} SpanLeads(cfg: Config, t: seq<nat>, span: seq<Octet>, words: seq<Range>, p: int,
                                     ws: seq<(nat, nat)>, stop: bool, s: Loop, events: seq<Event>, next: nat, p': int)
    returns (s': Loop)
    requires cfg.ngramLen > 0 && Simple(cfg, t) && Joined(cfg, t, ws, stop, span == [])
    requires Before(s, span, words, p, ws[0].0)
    requires Fits(t, ws, stop)
    requires events == SpansFrom(cfg, t, span, words, p, ws, stop)
    requires next == Past(t, ws, stop) && p' == p + WordCount(words) + Wanted(cfg, t, ws)
    ensures Leads(cfg, t, s, events, s') && Resting(s', next, p')
    decreases |ws|
  {
    WantedFirst(cfg, t, span, words, ws);
    JoinedRest(cfg, t, ws, stop, span == []);
    if |ws| == 1 {
      SpansOfLast(cfg, t, span, words, p, ws, stop, ws[0].0, ws[0].1);
      s' := LastOfSpan(cfg, t, span, words, p, ws[0].0, ws[0].1, stop, s, next, events);
    } else {
      var e, s1, span1, words1, p1 := OneOfSpan(cfg, t, span, words, p, ws[0].0, ws[0].1, s);
      SpansOfRest(cfg, t, span, words, p, ws, stop, ws[0].0, ws[0].1, e, span1, words1, p1);
      PastRest(t, ws, stop);
      var rest := SpansFrom(cfg, t, span1, words1, p1, ws[1..], stop);
      s' := SpanLeads(cfg, t, span1, words1, p1, ws[1..], stop, s1, rest, next, p');
      Then(cfg, t, s, e, s1, rest, s');
    }
  }

  lemma {:induction false} WantedFirst(cfg: Config, t: seq<nat>, span: seq<Octet>, words: seq<Range>, ws: seq<(nat, nat)>)
    requires ws != [] && ws[0].0 < ws[0].1 && forall w :: w in ws ==> w.0 <= w.1 <= |t|
    ensures WordCount(words) + Wanted(cfg, t, ws) ==
            WordCount(More(cfg, t, span, words, ws[0].0, ws[0].1)) + Wanted(cfg, t, ws[1..])
    ensures Wanted(cfg, t, []) == 0
  {
    CountMore(cfg, t, span, words, ws[0].0, ws[0].1);
  }

  // The whole text.

  /** The state just before the first word of a span, after the dot it may begin with. */
  lemma SpanBegins(cfg: Config, t: seq<nat>, l: Layout, s: Loop, i: nat, p: int) returns (s': Loop)
    requires cfg.ngramLen > 0 && Simple(cfg, t) && l.words != [] && Resting(s, i, p)
    requires l.words[0].0 == i + (if l.dot then 1 else 0) && (l.dot ==> Leading(cfg, t, i))
    ensures i <= |t| ==> Leads(cfg, t, s, [], s') && Before(s', Head(l), HeadWords(l), p, l.words[0].0)
  {
    s' := s;
    if l.dot {
      var core := Core(Head(l), HeadWords(l), 1, 0, false, p, p);
      s' := Loop(core, i + 1, false, false, CSC_OTHER);
      NextClass(cfg, t, i);
      SignIs(cfg, t[i]);
      assert [] + Enc('.' as nat) == Head(l) && [] + [Range(0, 0)] == HeadWords(l);
      DoesIs(cfg, t, s.core, i, s.prevPlus, Outcome(core, []), false);
      OneStep(cfg, t, s, Outcome(core, []), s');
    } else if i <= |t| {
      Stays(cfg, t, s);
    }
  }

  lemma {:induction false} LaidFits(cfg: Config, t: seq<nat>, i: nat, ls: seq<Layout>)
    requires Laid(cfg, t, i, ls)
    ensures AllFit(t, ls) && i <= |t|
    decreases |ls|
  {
    if ls != [] {
      JoinedFits(cfg, t, ls[0].words, ls[0].stop, !ls[0].dot);
      LaidFits(cfg, t, Past(t, ls[0].words, ls[0].stop), ls[1..]);
      GapInside(cfg, t, i, Start(ls[0]));
    }
  }

  /** A gap and the span after it. */
  lemma {:induction false} OneLayout(cfg: Config, t: seq<nat>, s: Loop, i: nat, p: int, l: Layout, next: nat, p': int)
    returns (events: seq<Event>, s': Loop)
    requires cfg.ngramLen > 0 && Simple(cfg, t) && Resting(s, i, p)
    requires Joined(cfg, t, l.words, l.stop, !l.dot) && Fits(t, l.words, l.stop)
    requires i <= Start(l) <= |t| && Gap(cfg, t, i, Start(l)) && (l.dot ==> Leading(cfg, t, Start(l)))
    requires next == Past(t, l.words, l.stop) && p' == p + Wanted(cfg, t, l.words)
    ensures Leads(cfg, t, s, events, s') && Resting(s', next, p')
    ensures Spoken(events) == Spoken(SpansFrom(cfg, t, Head(l), HeadWords(l), p, l.words, l.stop))
  {
    var spans := SpansFrom(cfg, t, Head(l), HeadWords(l), p, l.words, l.stop);
    var e, s1 := GapLeads(cfg, t, s, i, Start(l), p);
    var s2 := SpanBegins(cfg, t, l, s1, Start(l), p);
    Then(cfg, t, s, e, s1, [], s2);
    s' := SpanLeads(cfg, t, Head(l), HeadWords(l), p, l.words, l.stop, s2, spans, next, p');
    Then(cfg, t, s, e + [], s2, spans, s');
    events := e + [] + spans;
    SpokenJoin(e + [], spans);
    assert e + [] == e;
  }

  lemma {:induction false} SpokenThen(cfg: Config, t: seq<nat>, s: Loop, e: seq<Event>, s': Loop, spans: seq<Event>,
                                      rest: seq<Event>)
    requires Leads(cfg, t, s, e, s') && Spoken(e) == Spoken(spans)
    requires s'.i <= |t| && cfg.ngramLen > 0 ==> Spoken(Run(cfg, t, s')) == Spoken(rest)
    ensures s.i <= |t| && cfg.ngramLen > 0 && Spoken(Run(cfg, t, s)) == Spoken(spans + rest)
  {
    LeadsIs(cfg, t, s, e, s');
    SpokenJoin(e, Run(cfg, t, s'));
    SpokenJoin(spans, rest);
  }

  /** At the end of the text nothing is left. */
  lemma {:induction false} RunOut(cfg: Config, t: seq<nat>, s: Loop, p: int)
    requires cfg.ngramLen > 0 && Resting(s, |t|, p)
    ensures Run(cfg, t, s) == []
  {
  }

  lemma {:induction false} SpansOfFirst(cfg: Config, t: seq<nat>, p: int, ls: seq<Layout>, p': int)
    requires AllFit(t, ls) && ls != [] && p' == p + Wanted(cfg, t, ls[0].words)
    ensures LayoutSpans(cfg, t, p, ls) == SpansFrom(cfg, t, Head(ls[0]), HeadWords(ls[0]), p, ls[0].words, ls[0].stop) +
                                      LayoutSpans(cfg, t, p', ls[1..])
  {
  }

  /** From a gap on, a text that is laid out gives the spans of its layout. */
  lemma {:induction false} RunLaid(cfg: Config, t: seq<nat>, s: Loop, i: nat, p: int, ls: seq<Layout>)
    requires cfg.ngramLen > 0 && Simple(cfg, t) && Resting(s, i, p) && i <= |t| && Laid(cfg, t, i, ls) && AllFit(t, ls)
    ensures Spoken(Run(cfg, t, s)) == Spoken(LayoutSpans(cfg, t, p, ls))
    decreases |ls|
  {
    if ls == [] {
      var e, s' := GapLeads(cfg, t, s, i, |t|, p);
      RunOut(cfg, t, s', p);
      SpokenThen(cfg, t, s, e, s', [], []);
    } else {
      var l := ls[0];
      var next, p' := Past(t, l.words, l.stop), p + Wanted(cfg, t, l.words);
      var spans := SpansFrom(cfg, t, Head(l), HeadWords(l), p, l.words, l.stop);
      var e, s' := OneLayout(cfg, t, s, i, p, l, next, p');
      RunLaid(cfg, t, s', next, p', ls[1..]);
      SpokenThen(cfg, t, s, e, s', spans, LayoutSpans(cfg, t, p', ls[1..]));
      SpansOfFirst(cfg, t, p, ls, p');
    }
  }

  /** A text that is laid out in spans and gaps gives these spans, in order and at consecutive positions, but
      for spans without words. */
  lemma LaidGives(cfg: Config, t: seq<nat>, ls: seq<Layout>)
    requires cfg.ngramLen > 0 && Simple(cfg, t) && Laid(cfg, t, 0, ls)
    ensures AllFit(t, ls) && Spoken(Run(cfg, t, START)) == Spoken(LayoutSpans(cfg, t, 0, ls))
  {
    LaidFits(cfg, t, 0, ls);
    RunLaid(cfg, t, START, 0, 0, ls);
  }
}
