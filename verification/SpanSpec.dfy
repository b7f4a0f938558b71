/** The span machine of the term splitter as a function: words are collected into spans, a finished
    span is an event, and events give terms according to the output mode. */
module SpanSpec {
  import opened SplitText
  import opened NGrams
  import opened NGramRuns

  /** A word of a span, as byte offsets in it. */
  datatype Range = Range(first: nat, second: nat)

  /** The part of the splitter's state that does not depend on the output mode. */
  datatype Core = Core(
    span: seq<Octet>, words: seq<Range>, wordStart: nat, wordLen: nat, inNumber: bool, wordpos: int, spanpos: int)

  /** What gives terms: a finished span and the byte offset just after it, an n-gram section, or an
      indexed punctuation sign. */
  datatype Event =
    | SpanEvent(span: seq<Octet>, words: seq<Range>, spanpos: int, bp: int)
    | SectionEvent(start: nat, wordpos: int)
    | PunctEvent(term: Term)

  /** State of the main loop: the core, the next character, and what is remembered of earlier ones. */
  datatype Loop = Loop(core: Core, i: nat, soft: bool, prevPlus: bool, prevCsc: int)

  datatype Outcome = Outcome(core: Core, events: seq<Event>)
  datatype Turn = Turn(loop: Loop, events: seq<Event>)

  const CSC_NONE: int := -1
  const CSC_OTHER: int := 0
  const CSC_CJK: int := 1
  const CSC_OTHERNGRAM: int := 2

  const FRESH: Core := Core([], [], 0, 0, false, 0, 0)

  function CharSpanClass(c: int): int {
    if IsOtherNgram(c) then CSC_OTHERNGRAM else if IsCjk(c) then CSC_CJK else CSC_OTHER
  }

  predicate IsAlnum(w: Class) {
    w == Lower || w == Upper || w == Digit || w == Letter
  }

  /** The character after `i`, -1 past the end. */
  function Peek(t: seq<nat>, i: nat): int {
    if i + 1 < |t| then t[i + 1] else -1
  }

  predicate AtWhite(cfg: Config, c: int) {
    c == -1 || cfg.visibleWhite(c)
  }

  predicate Busy(core: Core) {
    core.wordLen > 0 || core.span != []
  }

  /** One more character in the current word. */
  function Append(core: Core, c: nat): Core {
    core.(span := core.span + Enc(c), wordLen := core.wordLen + Width(c))
  }

  /** A glue character between words. */
  function Glue(core: Core, c: nat): Core {
    core.(span := core.span + Enc(c), wordStart := core.wordStart + Width(c))
  }

  function DiscardSpan(core: Core): Core {
    core.(span := [], words := [], spanpos := core.wordpos, wordStart := 0, wordLen := 0)
  }

  /** End of a word: remember it, unless it is a number and those are not wanted. */
  function EndWord(cfg: Config, core: Core): Core {
    if core.wordLen == 0 then core
    else if cfg.noNumbers && core.inNumber then core.(wordLen := 0)
    else core.(words := core.words + [Range(core.wordStart, core.wordStart + core.wordLen)],
               wordpos := core.wordpos + 1, wordLen := 0)
  }

  /** End of a word, and of the span when `erase` is set or the span has as many words as allowed. */
  function DoEmit(cfg: Config, core: Core, erase: bool, bp: int): Outcome {
    var c := EndWord(cfg, core);
    if erase || (core.wordLen > 0 && |c.words| >= cfg.maxWordsInSpan) then
      Outcome(DiscardSpan(c), [SpanEvent(c.span, c.words, c.spanpos, bp)])
    else Outcome(c.(wordStart := |c.span|), [])
  }

  function Flush(cfg: Config, core: Core, bp: int): Outcome {
    if Busy(core) then DoEmit(cfg, core, true, bp) else Outcome(core, [])
  }

  /** White space at character `at`; `c` is the character that made it white space. */
  function AtSpace(cfg: Config, t: seq<nat>, core: Core, c: nat, at: nat): Outcome
    requires at <= |t|
  {
    var o := Flush(cfg, core, Bpos(t, at));
    var core' := if Busy(core) then o.core.(inNumber := false) else o.core;
    if cfg.indexedPunctuation(c) then
      var sign := if at < |t| then Enc(t[at]) else [];
      var term := Term(sign, core'.wordpos, Bpos(t, at), Bpos(t, at) + |sign|);
      Outcome(core'.(spanpos := if core'.spanpos == core'.wordpos then core'.spanpos + 1 else core'.spanpos,
                     wordpos := core'.wordpos + 1),
              o.events + [PunctEvent(term)])
    else Outcome(core', o.events)
  }

  /** A glue character after a word. */
  function Join(cfg: Config, t: seq<nat>, core: Core, i: nat): Outcome
    requires i < |t|
  {
    var o := DoEmit(cfg, core, false, Bpos(t, i));
    o.(core := Glue(o.core, t[i]))
  }

  function PlusMinus(cfg: Config, t: seq<nat>, core: Core, i: nat, plus: bool, prevPlus: bool): Outcome
    requires i < |t|
  {
    var c := t[i];
    var next := Peek(t, i);
    var digit := WhatCc(cfg, next) == Digit;
    if core.wordLen == 0 then
      if digit then Outcome(Append(core.(inNumber := true), c), []) else AtSpace(cfg, t, core, c, i)
    else if !cfg.numberDashSpans && core.inNumber then
      if core.span != [] && core.span[|core.span| - 1] in {Octet('e' as nat, 0), Octet('E' as nat, 0)} && digit
      then Outcome(Append(core, c), []) else AtSpace(cfg, t, core, c, i)
    else if plus then
      if (next == '+' as int && !prevPlus) || (prevPlus && AtWhite(cfg, next))
      then Outcome(Append(core, c), []) else AtSpace(cfg, t, core, c, i)
    else if AtWhite(cfg, next) then AtSpace(cfg, t, core, c, i)
    else
      var o := DoEmit(cfg, core, false, Bpos(t, i));
      Outcome(Glue(o.core.(inNumber := false), c), o.events)
  }

  /** A dot: decimal point, end of a sentence or abbreviation, leading dot, or glue. The second result
      says whether the next character was consumed with it. */
  function Dot(cfg: Config, t: seq<nat>, core: Core, i: nat): (Outcome, bool)
    requires i < |t|
  {
    var c := t[i];
    var next := WhatCc(cfg, Peek(t, i));
    if core.inNumber then
      (if next == Digit then Outcome(Append(core, c), []) else AtSpace(cfg, t, core, c, i), false)
    else if !IsAlnum(next) then (AtSpace(cfg, t, core.(span := core.span + Enc(c)), c, i + 1), true)
    else if core.span == [] then
      if next == Digit then (Outcome(Append(core.(inNumber := true), c), []), false)
      else (Outcome(Glue(core.(words := core.words + [Range(core.wordStart, core.wordStart)]), c), []), false)
    else if core.wordLen > 0 then (Join(cfg, t, core, i), false)
    else (Outcome(core, []), false)
  }

  /** A quote, at-sign, underscore or hyphen: glue inside a span, else white space. */
  function Link(cfg: Config, t: seq<nat>, core: Core, i: nat): Outcome
    requires i < |t|
  {
    if AtWhite(cfg, Peek(t, i)) then AtSpace(cfg, t, core, t[i], i)
    else if core.wordLen > 0 then
      var o := DoEmit(cfg, core, false, Bpos(t, i));
      Outcome(Glue(o.core.(inNumber := false), t[i]), o.events)
    else Outcome(core, [])
  }

  /** A number sign: kept at the start of a word, and at its end before white space. */
  function Sharp(cfg: Config, t: seq<nat>, core: Core, i: nat): Outcome
    requires i < |t|
  {
    var w := WhatCc(cfg, Peek(t, i));
    if core.wordLen == 0 && IsAlnum(w) then Outcome(Append(core, t[i]), [])
    else if core.wordLen > 0 && (w == Space || w == Own('\n' as int) || w == Own('\r' as int))
    then Outcome(Append(core, t[i]), [])
    else AtSpace(cfg, t, core, t[i], i)
  }

  /** One character of class `cc`, not skipped. The second result says whether the next one was consumed
      with it. */
  function OnChar(cfg: Config, t: seq<nat>, core: Core, i: nat, cc: Class, prevPlus: bool): (Outcome, bool)
    requires i < |t|
  {
    var c := t[i];
    match cc
    case Digit => (Outcome(Append(if core.wordLen == 0 then core.(inNumber := true) else core, c), []), false)
    case Space => (AtSpace(cfg, t, core, c, i), false)
    case Wild => (AtSpace(cfg, t, core, c, i), false)
    case Own(o) =>
      if o == '-' as int || o == '+' as int then (PlusMinus(cfg, t, core, i, o == '+' as int, prevPlus), false)
      else if o == '.' as int then Dot(cfg, t, core, i)
      else if o == '#' as int then (Sharp(cfg, t, core, i), false)
      else if o in {'\n' as int, '\r' as int, '\U{c}' as int} then (AtSpace(cfg, t, core, c, i), false)
      else (Link(cfg, t, core, i), false)
    case _ =>
      (Outcome(Append(if c in {'e' as nat, 'E' as nat} then core else core.(inNumber := false), c), []), false)
  }

  /** The n-gram section at the current character, the state being reset after it. */
  function EnterSection(cfg: Config, t: seq<nat>, s: Loop): (r: Turn)
    requires s.i < |t| && cfg.ngramLen > 0
    ensures s.i <= r.loop.i <= |t| && (IsNgrammed(t[s.i]) ==> s.i < r.loop.i)
  {
    var o := Flush(cfg, s.core, Bpos(t, s.i));
    SectionAdvances(cfg, DEFAULT, cfg.ngramLen, t, s.i, 0, false, o.core.wordpos);
    var g := Section(cfg, DEFAULT, cfg.ngramLen, t, s.i, 0, false, o.core.wordpos);
    Turn(Loop(FRESH.(wordpos := g.wordpos, spanpos := g.wordpos), g.next, s.soft, s.prevPlus, s.prevCsc),
         o.events + [SectionEvent(s.i, o.core.wordpos)])
  }

  /** A change of script ends the span, except just after a CJK section. */
  function ScriptChange(cfg: Config, t: seq<nat>, s: Loop, csc: int): Outcome
    requires s.i < |t|
  {
    if s.prevCsc != CSC_CJK && csc != s.prevCsc then Flush(cfg, s.core, Bpos(t, s.i)) else Outcome(s.core, [])
  }

  /** The character at `i` by its class, the script being dealt with. */
  function CharTurn(cfg: Config, t: seq<nat>, s: Loop, csc: int, core: Core): (r: Turn)
    requires s.i < |t|
    ensures s.i < r.loop.i <= |t|
  {
    var i, cc := s.i, WhatCc(cfg, t[s.i]);
    if cc == Skip then Turn(Loop(core, i + 1, t[i] == 0xad, s.prevPlus, csc), [])
    else if s.soft && (cc == Own('\n' as int) || cc == Own('\r' as int)) then
      Turn(Loop(core, i + 1, true, s.prevPlus, csc), [])
    else
      var (p, both) := OnChar(cfg, t, core, i, cc, s.prevPlus);
      Turn(Loop(p.core, if both && i + 2 <= |t| then i + 2 else i + 1, false, cc == Own('+' as int), csc), p.events)
  }

  /** The character at `s.i` in the word splitter proper, `csc` being the span class that led there. */
  function WordTurn(cfg: Config, t: seq<nat>, s: Loop, csc: int): (r: Turn)
    requires s.i < |t|
    ensures s.i < r.loop.i <= |t|
  {
    var o := ScriptChange(cfg, t, s, csc);
    var r := CharTurn(cfg, t, s, csc, o.core);
    r.(events := o.events + r.events)
  }

  /** One turn of the main loop. */
  function TurnAt(cfg: Config, t: seq<nat>, s: Loop): (r: Turn)
    requires s.i < |t| && cfg.ngramLen > 0
    ensures s.i < r.loop.i <= |t|
  {
    var csc := CharSpanClass(t[s.i]);
    if cfg.processCjk && IsNgrammed(t[s.i]) then
      var e := EnterSection(cfg, t, s);
      if e.loop.i >= |t| then e
      else
        var w := WordTurn(cfg, t, e.loop, csc);
        w.(events := e.events + w.events)
    else WordTurn(cfg, t, s, csc)
  }

  const START: Loop := Loop(FRESH, 0, false, false, CSC_NONE)

  /** All events from a state on, the last span being ended by the end of the text. */
  function Run(cfg: Config, t: seq<nat>, s: Loop): seq<Event>
    requires s.i <= |t| && cfg.ngramLen > 0
    decreases |t| - s.i
  {
    if s.i == |t| then Flush(cfg, s.core, Bpos(t, |t|)).events
    else
      var r := TurnAt(cfg, t, s);
      r.events + Run(cfg, t, r.loop)
  }
}
