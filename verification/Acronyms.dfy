/** An acronym spelled with dots ends one byte after its last word, in every span of every text. So its
    letters alone are never as long as the whole span, which is what the duplicate check compares. */
module Acronyms {
  import opened Closed
  import opened SplitText
  import opened NGrams
  import opened SpanSpec
  import opened SpanInvariant

  /** Letters and dots in turn, a letter first. */
  predicate Alternates(span: seq<Octet>) {
    forall k :: 0 <= k < |span| ==> if k % 2 == 1 then IsDot(span[k]) else IsLetterByte(span[k])
  }

  /** What holds of a span under construction that may become an acronym: from the third byte on it is no
      number, and its last dot is a glue character. */
  ghost predicate Spelling(core: Core) {
    Alternates(core.span) ==>
      && (|core.span| >= 3 ==> !core.inNumber && (|core.span| % 2 == 1 ==> core.wordLen > 0))
      && (|core.span| >= 2 && |core.span| % 2 == 0 && (|core.span| > 2 || core.words != []) ==>
            !core.inNumber && core.wordLen == 0 && LastEnd(core.words) == |core.span| - 1)
  }

  /** If the finished span is an acronym, its last word ends before the last dot. */
  ghost predicate Spelled(span: seq<Octet>, words: seq<Range>) {
    IsInitials(span) ==> LastEnd(words) == |span| - 1
  }

  ghost predicate AllSpelled(events: seq<Event>) {
    forall k :: 0 <= k < |events| && events[k].SpanEvent? ==> Spelled(events[k].span, events[k].words)
  }

  ghost predicate Kept(o: Outcome) {
    Spelling(o.core) && AllSpelled(o.events)
  }

  lemma Extends(span: seq<Octet>, c: nat)
    requires Alternates(span + Enc(c))
    ensures Alternates(span) && Width(c) == 1 && (if |span| % 2 == 0 then IsAsciiLetter(c) else c == DOT)
  {
    var more := span + Enc(c);
    var n := |span|;
    assert more[..n] == span;
    assert forall k :: 0 <= k < n ==> span[k] == more[k];
    assert more[n] == Octet(c, 0);
  }

  lemma InitialsAlternate(span: seq<Octet>)
    requires IsInitials(span)
    ensures Alternates(span) && |span| >= 4 && |span| % 2 == 0
  {
  }

  lemma EndSpelled(cfg: Config, core: Core)
    requires Spelling(core)
    ensures var c := EndWord(cfg, core); Spelled(c.span, c.words)
  {
    if IsInitials(core.span) {
      InitialsAlternate(core.span);
    }
  }

  lemma EraseKept(cfg: Config, core: Core, bp: int)
    requires Spelling(core)
    ensures var o := DoEmit(cfg, core, true, bp); AllSpelled(o.events) && o.core.span == []
  {
    EndSpelled(cfg, core);
  }

  lemma FlushKept(cfg: Config, core: Core, bp: int)
    requires Spelling(core)
    ensures var o := Flush(cfg, core, bp); AllSpelled(o.events) && o.core.span == []
  {
    if Busy(core) {
      EraseKept(cfg, core, bp);
    }
  }

  lemma SpaceKept(cfg: Config, t: seq<nat>, core: Core, c: nat, at: nat)
    requires at <= |t| && Spelling(core)
    ensures Kept(AtSpace(cfg, t, core, c, at))
  {
    FlushKept(cfg, core, Bpos(t, at));
  }

  /** The dot after the last letter ends the span. */
  lemma DotSpelled(cfg: Config, core: Core)
    requires Inv(core) && Spelling(core) && !core.inNumber
    ensures var c := EndWord(cfg, core); Spelled(c.span + Enc(DOT), c.words)
  {
    var c := EndWord(cfg, core);
    if IsInitials(core.span + Enc(DOT)) {
      InitialsAlternate(core.span + Enc(DOT));
      Extends(core.span, DOT);
    }
  }

  lemma DotSpaceKept(cfg: Config, t: seq<nat>, core: Core, at: nat)
    requires at <= |t| && Inv(core) && Spelling(core) && !core.inNumber
    ensures Kept(AtSpace(cfg, t, core.(span := core.span + Enc(DOT)), DOT, at))
  {
    DotSpelled(cfg, core);
    var more := core.(span := core.span + Enc(DOT));
    var c := EndWord(cfg, core);
    assert EndWord(cfg, more) == c.(span := more.span);
    assert Busy(more);
  }

  lemma AppendKept(cfg: Config, t: seq<nat>, i: nat, core: Core, number: bool)
    requires i < |t| && At(cfg, t, i, core) && Spelling(core)
    requires IsAsciiLetter(t[i]) && number ==> core.inNumber
    requires t[i] == DOT ==> core.inNumber || core.span == []
    ensures Kept(Outcome(Append(core.(inNumber := number), t[i]), []))
  {
    var c := t[i];
    if Alternates(core.span + Enc(c)) {
      Extends(core.span, c);
      if |core.span| == 2 {
        assert Alternates(core.span) ==> IsLetterByte(core.span[0]) && IsDot(core.span[1]);
      }
    }
  }

  /** A glue character after a word. */
  lemma JoinKept(cfg: Config, t: seq<nat>, i: nat, core: Core, bp: int, number: bool)
    requires i < |t| && At(cfg, t, i, core) && Spelling(core) && core.wordLen > 0 && !IsAsciiLetter(t[i])
    requires t[i] == DOT ==> !core.inNumber && !number
    ensures var o := DoEmit(cfg, core, false, bp);
            Kept(Outcome(Glue(o.core.(inNumber := number), t[i]), o.events))
  {
    EndSpelled(cfg, core);
    var o := DoEmit(cfg, core, false, bp);
    if Alternates(o.core.span + Enc(t[i])) {
      Extends(o.core.span, t[i]);
    }
  }

  lemma PlusMinusKept(cfg: Config, t: seq<nat>, core: Core, i: nat, plus: bool, prevPlus: bool)
    requires i < |t| && At(cfg, t, i, core) && Spelling(core) && WhatCc(cfg, t[i]).Own? && t[i] != DOT
    ensures Kept(PlusMinus(cfg, t, core, i, plus, prevPlus))
  {
    ClassFacts(cfg, t[i]);
    SpaceKept(cfg, t, core, t[i], i);
    AppendKept(cfg, t, i, core, if core.wordLen == 0 then true else core.inNumber);
    assert core.(inNumber := core.inNumber) == core;
    if core.wordLen > 0 {
      JoinKept(cfg, t, i, core, Bpos(t, i), false);
    }
  }

  lemma LinkKept(cfg: Config, t: seq<nat>, core: Core, i: nat)
    requires i < |t| && At(cfg, t, i, core) && Spelling(core) && WhatCc(cfg, t[i]).Own? && t[i] != DOT
    ensures Kept(Link(cfg, t, core, i))
  {
    ClassFacts(cfg, t[i]);
    SpaceKept(cfg, t, core, t[i], i);
    if core.wordLen > 0 {
      JoinKept(cfg, t, i, core, Bpos(t, i), false);
    }
  }

  lemma SharpKept(cfg: Config, t: seq<nat>, core: Core, i: nat)
    requires i < |t| && At(cfg, t, i, core) && Spelling(core) && WhatCc(cfg, t[i]).Own? && t[i] != DOT
    ensures Kept(Sharp(cfg, t, core, i))
  {
    ClassFacts(cfg, t[i]);
    SpaceKept(cfg, t, core, t[i], i);
    assert core.(inNumber := core.inNumber) == core;
    AppendKept(cfg, t, i, core, core.inNumber);
  }

  lemma LeadingDot(cfg: Config, core: Core)
    requires core.span == []
    ensures Kept(Outcome(Glue(core.(words := core.words + [Range(core.wordStart, core.wordStart)]), DOT), []))
  {
    if Alternates([] + Enc(DOT)) {
      Extends([], DOT);
    }
  }

  lemma WordDotKept(cfg: Config, t: seq<nat>, core: Core, i: nat)
    requires i < |t| && At(cfg, t, i, core) && Spelling(core) && t[i] == DOT && !core.inNumber && core.wordLen > 0
    ensures Kept(Join(cfg, t, core, i))
  {
    var o := DoEmit(cfg, core, false, Bpos(t, i));
    JoinKept(cfg, t, i, core, Bpos(t, i), false);
    assert o.core.(inNumber := false) == o.core;
  }

  lemma DotKept(cfg: Config, t: seq<nat>, core: Core, i: nat)
    requires i < |t| && At(cfg, t, i, core) && Spelling(core) && t[i] == DOT
    ensures Kept(Dot(cfg, t, core, i).0)
  {
    assert core.(inNumber := core.inNumber) == core;
    if core.inNumber {
      SpaceKept(cfg, t, core, DOT, i);
      AppendKept(cfg, t, i, core, core.inNumber);
    } else if !IsAlnum(WhatCc(cfg, Peek(t, i))) {
      DotSpaceKept(cfg, t, core, i + 1);
    } else if core.span == [] {
      LeadingDot(cfg, core);
      AppendKept(cfg, t, i, core, true);
    } else if core.wordLen > 0 {
      WordDotKept(cfg, t, core, i);
    }
  }

  lemma OnCharKept(cfg: Config, t: seq<nat>, core: Core, i: nat, prevPlus: bool)
    requires i < |t| && At(cfg, t, i, core) && Spelling(core) && WhatCc(cfg, t[i]) != Skip
    ensures Kept(OnChar(cfg, t, core, i, WhatCc(cfg, t[i]), prevPlus).0)
  {
    var cc := WhatCc(cfg, t[i]);
    ClassFacts(cfg, t[i]);
    assert core.(inNumber := core.inNumber) == core;
    match cc
    case Digit => AppendKept(cfg, t, i, core, if core.wordLen == 0 then true else core.inNumber);
    case Space => SpaceKept(cfg, t, core, t[i], i);
    case Wild => SpaceKept(cfg, t, core, t[i], i);
    case Own(o) =>
      if o == '-' as int || o == '+' as int {
        PlusMinusKept(cfg, t, core, i, o == '+' as int, prevPlus);
      } else if o == '.' as int {
        DotKept(cfg, t, core, i);
      } else if o == '#' as int {
        SharpKept(cfg, t, core, i);
      } else if o in {'\n' as int, '\r' as int, '\U{c}' as int} {
        SpaceKept(cfg, t, core, t[i], i);
      } else {
        LinkKept(cfg, t, core, i);
      }
    case Skip =>
    case _ => AppendKept(cfg, t, i, core, if t[i] in {'e' as nat, 'E' as nat} then core.inNumber else false);
  }

  /** Kept, closed. */
  ghost predicate Stays(core: Core, events: seq<Event>) {
    forall eye :: Look(eye) ==> Kept(Outcome(core, events))
  }

  lemma StaysIs(core: Core, events: seq<Event>)
    ensures Stays(core, events) <==> Kept(Outcome(core, events))
  {
    if Stays(core, events) {
      assert Look(Eye);
    }
  }

  lemma OnCharStays(cfg: Config, t: seq<nat>, core: Core, i: nat, prevPlus: bool, o: Outcome)
    requires i < |t| && At(cfg, t, i, core) && Spelling(core) && WhatCc(cfg, t[i]) != Skip
    requires o == OnChar(cfg, t, core, i, WhatCc(cfg, t[i]), prevPlus).0
    ensures Stays(o.core, o.events)
  {
    OnCharKept(cfg, t, core, i, prevPlus);
    StaysIs(o.core, o.events);
  }

  lemma CharTurnStays(cfg: Config, t: seq<nat>, s: Loop, csc: int, core: Core, r: Turn)
    requires s.i < |t| && At(cfg, t, s.i, core) && Spelling(core) && r == CharTurn(cfg, t, s, csc, core)
    ensures Stays(r.loop.core, r.events)
  {
    var i, cc := s.i, WhatCc(cfg, t[s.i]);
    if cc == Skip || (s.soft && (cc == Own('\n' as int) || cc == Own('\r' as int))) {
      StaysIs(core, []);
    } else {
      OnCharStays(cfg, t, core, i, s.prevPlus, OnChar(cfg, t, core, i, cc, s.prevPlus).0);
    }
  }

  lemma WordTurnKept(cfg: Config, t: seq<nat>, s: Loop, csc: int)
    requires s.i < |t| && At(cfg, t, s.i, s.core) && Spelling(s.core)
    ensures var r := WordTurn(cfg, t, s, csc); Kept(Outcome(r.loop.core, r.events))
  {
    FlushKept(cfg, s.core, Bpos(t, s.i));
    SpanInvariant.FlushKept(cfg, t, s.i, s.core, Bpos(t, s.i), s.i);
    var o := ScriptChange(cfg, t, s, csc);
    var r := CharTurn(cfg, t, s, csc, o.core);
    CharTurnStays(cfg, t, s, csc, o.core, r);
    StaysIs(r.loop.core, r.events);
  }

  lemma TurnKept(cfg: Config, t: seq<nat>, s: Loop)
    requires s.i < |t| && cfg.ngramLen > 0 && At(cfg, t, s.i, s.core) && Spelling(s.core)
    ensures var r := TurnAt(cfg, t, s); Kept(Outcome(r.loop.core, r.events))
  {
    var csc := CharSpanClass(t[s.i]);
    if cfg.processCjk && IsNgrammed(t[s.i]) {
      FlushKept(cfg, s.core, Bpos(t, s.i));
      SectionKept(cfg, t, s);
      var e := EnterSection(cfg, t, s);
      if e.loop.i < |t| {
        WordTurnKept(cfg, t, e.loop, csc);
      }
    } else {
      WordTurnKept(cfg, t, s, csc);
    }
  }

  /** Every acronym among the spans of a text ends one byte after its last word. */
  lemma {:induction false} RunSpelled(cfg: Config, t: seq<nat>, s: Loop)
    requires s.i <= |t| && cfg.ngramLen > 0 && At(cfg, t, s.i, s.core) && Spelling(s.core)
    ensures AllSpelled(Run(cfg, t, s))
    decreases |t| - s.i
  {
    if s.i == |t| {
      FlushKept(cfg, s.core, Bpos(t, |t|));
    } else {
      TurnKept(cfg, t, s);
      SpanInvariant.TurnKept(cfg, t, s);
      RunSpelled(cfg, t, TurnAt(cfg, t, s).loop);
    }
  }
}
