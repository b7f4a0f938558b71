/** Terms are text: unless the splitter dropped a character inside a span, the span is the bytes of the
    text just before its end, and its words are the bytes between their offsets. */
module TextBytes {
  import opened Closed
  import opened SplitText
  import opened NGrams
  import opened SpanSpec
  import opened SpanInvariant
  import opened SpanTerms

  /** A character that can stand between two words of a span. */
  predicate IsGlue(cfg: Config, c: nat) {
    var cc := WhatCc(cfg, c);
    cc.Own? && c !in {'\n' as nat, '\r' as nat, '\U{c}' as nat, '#' as nat}
  }

  predicate IsLineBreak(cfg: Config, c: nat) {
    WhatCc(cfg, c) == Own('\n' as int) || WhatCc(cfg, c) == Own('\r' as int)
  }

  /** Do only line breaks stand between character `k` and a soft hyphen before it? */
  predicate AfterSoft(cfg: Config, t: seq<nat>, k: nat)
    requires k <= |t|
    decreases k
  {
    k > 0 &&
    (|| (t[k - 1] == 0xad && WhatCc(cfg, t[k - 1]) == Skip)
     || (IsLineBreak(cfg, t[k - 1]) && AfterSoft(cfg, t, k - 1)))
  }

  /** A sign before a digit, or a dot or number sign before a letter or digit. */
  predicate Starts(cfg: Config, t: seq<nat>, k: nat)
    requires k < |t|
  {
    var next := WhatCc(cfg, Peek(t, k));
    || (t[k] in {'+' as nat, '-' as nat} && next == Digit)
    || (t[k] in {'.' as nat, '#' as nat} && IsAlnum(next))
  }

  /** Can a span be under construction at character `k`? It begins with a letter, a digit or one of the
      signs before them, and white space ends it. */
  predicate Begun(cfg: Config, t: seq<nat>, k: nat)
    requires k <= |t|
    decreases k
  {
    k > 0 &&
    var c, cc := t[k - 1], WhatCc(cfg, t[k - 1]);
    || IsAlnum(cc) || Starts(cfg, t, k - 1)
    || ((cc == Skip || IsGlue(cfg, c) || c == '#' as nat || (IsLineBreak(cfg, c) && AfterSoft(cfg, t, k - 1)))
        && Begun(cfg, t, k - 1))
  }

  /** Can the character be left out of a span that goes on behind it? Skipped ones can, line breaks after a
      soft hyphen, and a glue character that is no sign, does not follow a letter or digit and does not end
      the span. */
  predicate MayDrop(cfg: Config, t: seq<nat>, k: nat)
    requires k < |t|
  {
    Begun(cfg, t, k) &&
    (|| WhatCc(cfg, t[k]) == Skip
     || (IsLineBreak(cfg, t[k]) && AfterSoft(cfg, t, k))
     || (IsGlue(cfg, t[k]) && t[k] !in {'+' as nat, '-' as nat} && !IsAlnum(WhatCc(cfg, t[k - 1]))
         && if t[k] == '.' as nat then IsAlnum(WhatCc(cfg, Peek(t, k))) else !AtWhite(cfg, Peek(t, k))))
  }

  /** At the start of the text and behind white space no span has begun, and nothing can be left out. */
  lemma NotBegun(cfg: Config, t: seq<nat>, k: nat)
    requires k < |t| && (k == 0 || WhatCc(cfg, t[k - 1]) in {Space, Wild})
    ensures !Begun(cfg, t, k) && !MayDrop(cfg, t, k)
  {
    if k > 0 {
      SignsOwn(cfg, t[k - 1]);
    }
  }

  lemma SignsOwn(cfg: Config, c: nat)
    ensures c in {'+' as nat, '-' as nat, '.' as nat, '#' as nat} ==> WhatCc(cfg, c) == Own(c)
  {
  }

  /** No such character reaches into the `n` bytes before character `i`. */
  ghost predicate Clear(cfg: Config, t: seq<nat>, i: nat, n: nat)
    requires i <= |t|
  {
    forall k :: 0 <= k < i && MayDrop(cfg, t, k) ==> Bpos(t, k + 1) + n <= Bpos(t, i)
  }

  predicate EndsWith(b: seq<Octet>, s: seq<Octet>) {
    |s| <= |b| && b[|b| - |s|..] == s
  }

  /** If nothing was dropped, the span is the text just before character `i`. */
  ghost predicate Placed(cfg: Config, t: seq<nat>, i: nat, span: seq<Octet>)
    requires i <= |t|
  {
    Clear(cfg, t, i, |span|) ==> EndsWith(Bytes(t, 0, i), span)
  }

  /** The invariant: the span under construction has begun and is in its place, and no letter or digit
      comes just before a place between words. */
  ghost predicate Located(cfg: Config, t: seq<nat>, i: nat, core: Core) {
    && i <= |t| && Placed(cfg, t, i, core.span)
    && (core.span != [] ==> Begun(cfg, t, i))
    && (core.wordLen > 0 ==> core.span != [])
    && (core.wordLen == 0 && core.span != [] ==> !IsAlnum(WhatCc(cfg, t[i - 1])))
  }

  /** A soft hyphen that the loop remembers stands just before, or no span has begun. */
  predicate SoftAt(cfg: Config, t: seq<nat>, s: Loop) {
    s.i <= |t| && (s.soft ==> AfterSoft(cfg, t, s.i) || s.core.span == [])
  }

  ghost predicate EventPlaced(cfg: Config, t: seq<nat>, e: Event) {
    e.SpanEvent? ==> exists at: nat :: at <= |t| && e.bp == Bpos(t, at) && Placed(cfg, t, at, e.span)
  }

  ghost predicate EventsPlaced(cfg: Config, t: seq<nat>, events: seq<Event>) {
    forall k :: 0 <= k < |events| ==> EventPlaced(cfg, t, events[k])
  }

  /** One more character. */
  lemma Longer(cfg: Config, t: seq<nat>, i: nat, span: seq<Octet>)
    requires i < |t| && Placed(cfg, t, i, span)
    ensures Placed(cfg, t, i + 1, span + Enc(t[i]))
  {
    var more := span + Enc(t[i]);
    if Clear(cfg, t, i + 1, |more|) {
      assert Clear(cfg, t, i, |span|) by {
        forall k | 0 <= k < i && MayDrop(cfg, t, k) ensures Bpos(t, k + 1) + |span| <= Bpos(t, i) {
          assert Bpos(t, k + 1) + |more| <= Bpos(t, i + 1);
        }
      }
      var b := Bytes(t, 0, i);
      assert (b + Enc(t[i]))[|b| - |span|..] == b[|b| - |span|..] + Enc(t[i]);
    }
  }

  /** A dropped character: either there is no span yet, or the next bytes are no longer clear. */
  lemma Dropped(cfg: Config, t: seq<nat>, i: nat, span: seq<Octet>)
    requires i < |t| && (span == [] || MayDrop(cfg, t, i))
    ensures Placed(cfg, t, i + 1, span)
  {
    if span != [] {
      assert MayDrop(cfg, t, i);
    }
  }

  lemma EmitPlaced(cfg: Config, t: seq<nat>, i: nat, core: Core, erase: bool)
    requires i <= |t| && Placed(cfg, t, i, core.span)
    ensures var o := DoEmit(cfg, core, erase, Bpos(t, i));
            && EventsPlaced(cfg, t, o.events) && Placed(cfg, t, i, o.core.span)
            && o.core.wordLen == 0 && (erase ==> o.core.span == [])
  {
  }

  lemma FlushPlaced(cfg: Config, t: seq<nat>, i: nat, core: Core)
    requires i <= |t| && Placed(cfg, t, i, core.span)
    ensures var o := Flush(cfg, core, Bpos(t, i)); EventsPlaced(cfg, t, o.events) && o.core.span == []
  {
    if Busy(core) {
      EmitPlaced(cfg, t, i, core, true);
    }
  }

  lemma SpacePlaced(cfg: Config, t: seq<nat>, core: Core, c: nat, at: nat)
    requires at <= |t| && Placed(cfg, t, at, core.span)
    ensures var o := AtSpace(cfg, t, core, c, at); EventsPlaced(cfg, t, o.events) && o.core.span == []
  {
    FlushPlaced(cfg, t, at, core);
  }

  /** What one character leaves behind. */
  ghost predicate Kept(cfg: Config, t: seq<nat>, o: Outcome, next: nat) {
    Located(cfg, t, next, o.core) && EventsPlaced(cfg, t, o.events)
  }

  lemma SpaceKept(cfg: Config, t: seq<nat>, core: Core, c: nat, i: nat)
    requires i < |t| && Located(cfg, t, i, core)
    ensures Kept(cfg, t, AtSpace(cfg, t, core, c, i), i + 1)
  {
    SpacePlaced(cfg, t, core, c, i);
  }

  lemma AppendKept(cfg: Config, t: seq<nat>, core: Core, number: bool, i: nat)
    requires i < |t| && Located(cfg, t, i, core) && Begun(cfg, t, i + 1)
    ensures Kept(cfg, t, Outcome(Append(core.(inNumber := number), t[i]), []), i + 1)
  {
    Longer(cfg, t, i, core.span);
  }

  lemma GlueKept(cfg: Config, t: seq<nat>, core: Core, events: seq<Event>, i: nat)
    requires i < |t| && Placed(cfg, t, i, core.span) && EventsPlaced(cfg, t, events)
    requires IsGlue(cfg, t[i]) && Begun(cfg, t, i + 1) && core.wordLen == 0
    ensures Kept(cfg, t, Outcome(Glue(core, t[i]), events), i + 1)
  {
    Longer(cfg, t, i, core.span);
  }

  /** A glue character behind a word. */
  lemma JoinKept(cfg: Config, t: seq<nat>, core: Core, i: nat, number: bool)
    requires i < |t| && Located(cfg, t, i, core) && IsGlue(cfg, t[i]) && core.wordLen > 0
    ensures var o := DoEmit(cfg, core, false, Bpos(t, i));
            Kept(cfg, t, Outcome(Glue(o.core.(inNumber := number), t[i]), o.events), i + 1)
  {
    EmitPlaced(cfg, t, i, core, false);
    var o := DoEmit(cfg, core, false, Bpos(t, i));
    GlueKept(cfg, t, o.core.(inNumber := number), o.events, i);
  }

  /** A character that is dropped. */
  lemma DropKept(cfg: Config, t: seq<nat>, core: Core, i: nat)
    requires i < |t| && Located(cfg, t, i, core) && !IsAlnum(WhatCc(cfg, t[i]))
    requires core.span == [] || MayDrop(cfg, t, i)
    ensures Kept(cfg, t, Outcome(core, []), i + 1)
  {
    Dropped(cfg, t, i, core.span);
  }

  lemma PlusMinusKept(cfg: Config, t: seq<nat>, core: Core, i: nat, plus: bool, prevPlus: bool)
    requires i < |t| && Located(cfg, t, i, core) && IsGlue(cfg, t[i]) && t[i] in {'+' as nat, '-' as nat}
    ensures Kept(cfg, t, PlusMinus(cfg, t, core, i, plus, prevPlus), i + 1)
  {
    SpaceKept(cfg, t, core, t[i], i);
    if core.wordLen > 0 {
      AppendKept(cfg, t, core, core.inNumber, i);
      JoinKept(cfg, t, core, i, false);
      assert core.(inNumber := core.inNumber) == core;
    } else if WhatCc(cfg, Peek(t, i)) == Digit {
      AppendKept(cfg, t, core, true, i);
    }
  }

  lemma DotKept(cfg: Config, t: seq<nat>, core: Core, i: nat)
    requires i < |t| && Located(cfg, t, i, core) && t[i] == DOT && IsGlue(cfg, t[i])
    ensures var (o, both) := Dot(cfg, t, core, i); Kept(cfg, t, o, if both && i + 2 <= |t| then i + 2 else i + 1)
  {
    var next := WhatCc(cfg, Peek(t, i));
    assert core.(inNumber := core.inNumber) == core;
    if core.inNumber {
      SpaceKept(cfg, t, core, t[i], i);
      if next == Digit {
        AppendKept(cfg, t, core, core.inNumber, i);
      }
    } else if !IsAlnum(next) {
      Longer(cfg, t, i, core.span);
      SpacePlaced(cfg, t, core.(span := core.span + Enc(t[i])), t[i], i + 1);
    } else if core.span == [] {
      AppendKept(cfg, t, core, true, i);
      GlueKept(cfg, t, core.(words := core.words + [Range(core.wordStart, core.wordStart)]), [], i);
    } else if core.wordLen > 0 {
      WordDotKept(cfg, t, core, i);
    } else {
      DropKept(cfg, t, core, i);
    }
  }

  lemma WordDotKept(cfg: Config, t: seq<nat>, core: Core, i: nat)
    requires i < |t| && Located(cfg, t, i, core) && IsGlue(cfg, t[i]) && core.wordLen > 0
    ensures Kept(cfg, t, Join(cfg, t, core, i), i + 1)
  {
    var o := DoEmit(cfg, core, false, Bpos(t, i));
    JoinKept(cfg, t, core, i, o.core.inNumber);
    assert o.core.(inNumber := o.core.inNumber) == o.core;
  }

  lemma LinkKept(cfg: Config, t: seq<nat>, core: Core, i: nat)
    requires i < |t| && Located(cfg, t, i, core) && IsGlue(cfg, t[i])
    requires t[i] !in {'+' as nat, '-' as nat, '.' as nat}
    ensures Kept(cfg, t, Link(cfg, t, core, i), i + 1)
  {
    if AtWhite(cfg, Peek(t, i)) {
      SpaceKept(cfg, t, core, t[i], i);
    } else if core.wordLen > 0 {
      JoinKept(cfg, t, core, i, false);
    } else {
      DropKept(cfg, t, core, i);
    }
  }

  lemma SharpKept(cfg: Config, t: seq<nat>, core: Core, i: nat)
    requires i < |t| && Located(cfg, t, i, core) && t[i] == '#' as nat
    ensures Kept(cfg, t, Sharp(cfg, t, core, i), i + 1)
  {
    assert core.(inNumber := core.inNumber) == core;
    SpaceKept(cfg, t, core, t[i], i);
    if core.wordLen > 0 || IsAlnum(WhatCc(cfg, Peek(t, i))) {
      AppendKept(cfg, t, core, core.inNumber, i);
    }
  }

  lemma OnCharKept(cfg: Config, t: seq<nat>, core: Core, i: nat, prevPlus: bool)
    requires i < |t| && Located(cfg, t, i, core) && WhatCc(cfg, t[i]) != Skip
    ensures var (o, both) := OnChar(cfg, t, core, i, WhatCc(cfg, t[i]), prevPlus);
            Kept(cfg, t, o, if both && i + 2 <= |t| then i + 2 else i + 1)
  {
    var cc := WhatCc(cfg, t[i]);
    ClassFacts(cfg, t[i]);
    assert core.(inNumber := core.inNumber) == core;
    match cc
    case Digit => AppendKept(cfg, t, core, if core.wordLen == 0 then true else core.inNumber, i);
    case Space => SpaceKept(cfg, t, core, t[i], i);
    case Wild => SpaceKept(cfg, t, core, t[i], i);
    case Own(o) =>
      if o == '-' as int || o == '+' as int {
        PlusMinusKept(cfg, t, core, i, o == '+' as int, prevPlus);
      } else if o == '.' as int {
        DotKept(cfg, t, core, i);
      } else if o == '#' as int {
        SharpKept(cfg, t, core, i);
      } else if o in {'\n' as int, '\r' as int, '\U{c}' as int} {
        SpaceKept(cfg, t, core, t[i], i);
      } else {
        LinkKept(cfg, t, core, i);
      }
    case Skip =>
    case _ => AppendKept(cfg, t, core, if t[i] in {'e' as nat, 'E' as nat} then core.inNumber else false, i);
  }

  /** Kept, closed. */
  ghost predicate Stays(cfg: Config, t: seq<nat>, core: Core, events: seq<Event>, next: nat) {
    forall eye :: Look(eye) ==> Kept(cfg, t, Outcome(core, events), next)
  }

  lemma StaysIs(cfg: Config, t: seq<nat>, core: Core, events: seq<Event>, next: nat)
    ensures Stays(cfg, t, core, events, next) <==> Kept(cfg, t, Outcome(core, events), next)
  {
    if Stays(cfg, t, core, events, next) {
      assert Look(Eye);
    }
  }

  lemma DropStays(cfg: Config, t: seq<nat>, core: Core, i: nat)
    requires i < |t| && Located(cfg, t, i, core) && !IsAlnum(WhatCc(cfg, t[i]))
    requires core.span == [] || MayDrop(cfg, t, i)
    ensures Stays(cfg, t, core, [], i + 1)
  {
    DropKept(cfg, t, core, i);
    StaysIs(cfg, t, core, [], i + 1);
  }

  lemma OnCharStays(cfg: Config, t: seq<nat>, core: Core, i: nat, prevPlus: bool, o: Outcome, both: bool, next: nat)
    requires i < |t| && Located(cfg, t, i, core) && WhatCc(cfg, t[i]) != Skip
    requires (o, both) == OnChar(cfg, t, core, i, WhatCc(cfg, t[i]), prevPlus)
    requires next == if both && i + 2 <= |t| then i + 2 else i + 1
    ensures Stays(cfg, t, o.core, o.events, next)
  {
    OnCharKept(cfg, t, core, i, prevPlus);
    StaysIs(cfg, t, o.core, o.events, next);
  }

  lemma CharTurnStays(cfg: Config, t: seq<nat>, s: Loop, csc: int, core: Core, r: Turn)
    requires s.i < |t| && Located(cfg, t, s.i, core) && r == CharTurn(cfg, t, s, csc, core)
    requires s.soft ==> AfterSoft(cfg, t, s.i) || core.span == []
    ensures Stays(cfg, t, r.loop.core, r.events, r.loop.i) && SoftAt(cfg, t, r.loop)
  {
    var i, cc := s.i, WhatCc(cfg, t[s.i]);
    if cc == Skip || (s.soft && (cc == Own('\n' as int) || cc == Own('\r' as int))) {
      DropStays(cfg, t, core, i);
    } else {
      var (o, both) := OnChar(cfg, t, core, i, cc, s.prevPlus);
      OnCharStays(cfg, t, core, i, s.prevPlus, o, both, r.loop.i);
    }
  }

  lemma WordTurnKept(cfg: Config, t: seq<nat>, s: Loop, csc: int)
    requires s.i < |t| && Located(cfg, t, s.i, s.core) && SoftAt(cfg, t, s)
    ensures var r := WordTurn(cfg, t, s, csc);
            Kept(cfg, t, Outcome(r.loop.core, r.events), r.loop.i) && SoftAt(cfg, t, r.loop)
  {
    FlushPlaced(cfg, t, s.i, s.core);
    var o := ScriptChange(cfg, t, s, csc);
    var r := CharTurn(cfg, t, s, csc, o.core);
    CharTurnStays(cfg, t, s, csc, o.core, r);
    StaysIs(cfg, t, r.loop.core, r.events, r.loop.i);
  }

  /** An n-gram section ends the span. */
  lemma SectionKept(cfg: Config, t: seq<nat>, s: Loop)
    requires s.i < |t| && cfg.ngramLen > 0 && Located(cfg, t, s.i, s.core)
    ensures var e := EnterSection(cfg, t, s);
            Kept(cfg, t, Outcome(e.loop.core, e.events), e.loop.i) && SoftAt(cfg, t, e.loop)
  {
    FlushPlaced(cfg, t, s.i, s.core);
  }

  lemma TurnKept(cfg: Config, t: seq<nat>, s: Loop)
    requires s.i < |t| && cfg.ngramLen > 0 && Located(cfg, t, s.i, s.core) && SoftAt(cfg, t, s)
    ensures var r := TurnAt(cfg, t, s);
            Kept(cfg, t, Outcome(r.loop.core, r.events), r.loop.i) && SoftAt(cfg, t, r.loop)
  {
    var csc := CharSpanClass(t[s.i]);
    if cfg.processCjk && IsNgrammed(t[s.i]) {
      SectionKept(cfg, t, s);
      var e := EnterSection(cfg, t, s);
      if e.loop.i < |t| {
        WordTurnKept(cfg, t, e.loop, csc);
      }
    } else {
      WordTurnKept(cfg, t, s, csc);
    }
  }

  /** Every span of a text is in its place. */
  lemma {:induction false} RunPlaced(cfg: Config, t: seq<nat>, s: Loop)
    requires s.i <= |t| && cfg.ngramLen > 0 && Located(cfg, t, s.i, s.core) && SoftAt(cfg, t, s)
    ensures EventsPlaced(cfg, t, Run(cfg, t, s))
    decreases |t| - s.i
  {
    if s.i == |t| {
      FlushPlaced(cfg, t, |t|, s.core);
    } else {
      TurnKept(cfg, t, s);
      RunPlaced(cfg, t, TurnAt(cfg, t, s).loop);
    }
  }

  /** The term is what the text has between its offsets. */
  predicate IsText(all: seq<Octet>, term: Term) {
    0 <= term.bts <= term.bte <= |all| && term.word == all[term.bts..term.bte]
  }

  /** The terms that a span gives, for single words or several: stretches of the span. */
  lemma {:induction false} TermInSpan(mode: Mode, span: seq<Octet>, words: seq<Range>, i: nat, spanpos: int, base: int,
                                       term: Term)
    requires GoodSpan(span, words) && i <= |words| && term in TermsFrom(mode, span, words, i, spanpos, base)
    ensures base <= term.bts <= term.bte <= base + |span| && term.word == span[term.bts - base..term.bte - base]
    decreases |words| - i
  {
    var here := TermsAt(mode, span, words, i, PosAt(words, i, spanpos), base);
    if term in here {
      var k :| 0 <= k < |here| && here[k] == term;
      var j := (if mode.onlyspans then |words| - 1 else i) + k;
      assert term == WordTerm(span, words, i, j, PosAt(words, i, spanpos), base);
      WordBounds(span, words, i, j);
    } else {
      TermInSpan(mode, span, words, i + 1, spanpos, base, term);
    }
  }

  lemma SliceOf(b: seq<Octet>, rest: seq<Octet>, span: seq<Octet>, term: Term)
    requires EndsWith(b, span)
    requires var base := |b| - |span|;
             base <= term.bts <= term.bte <= |b| && term.word == span[term.bts - base..term.bte - base]
    ensures IsText(b + rest, term)
  {
    var base := |b| - |span|;
    assert span[term.bts - base..term.bte - base] == b[base..][term.bts - base..term.bte - base];
    assert (b + rest)[term.bts..term.bte] == b[term.bts..term.bte];
  }

  lemma SpanPlaced(cfg: Config, t: seq<nat>, e: Event) returns (at: nat)
    requires cfg.ngramLen > 0 && e in Run(cfg, t, START) && e.SpanEvent?
    ensures at <= |t| && e.bp == Bpos(t, at) && Placed(cfg, t, at, e.span)
  {
    RunPlaced(cfg, t, START);
    assert EventPlaced(cfg, t, e);
    at :| 0 <= at <= |t| && e.bp == Bpos(t, at) && Placed(cfg, t, at, e.span);
  }

  /** The term is what the span has between its offsets, the span ending at byte `bp`. */
  predicate InSpan(span: seq<Octet>, bp: int, term: Term) {
    var base := bp - |span|;
    base <= term.bts <= term.bte <= bp && term.word == span[term.bts - base..term.bte - base]
  }

  /** The text cut at character `at`. */
  lemma TextCut(cfg: Config, t: seq<nat>, at: nat, span: seq<Octet>) returns (b: seq<Octet>, rest: seq<Octet>)
    requires at <= |t| && Placed(cfg, t, at, span)
    ensures b + rest == Bytes(t, 0, |t|) && |b| == Bpos(t, at)
    ensures Clear(cfg, t, at, |span|) ==> EndsWith(b, span)
  {
    b, rest := Bytes(t, 0, at), Bytes(t, at, |t|);
    BytesJoin(t, 0, at, |t|);
  }

  lemma InSpanText(b: seq<Octet>, rest: seq<Octet>, span: seq<Octet>, bp: int, term: Term)
    requires |b| == bp && InSpan(span, bp, term)
    ensures EndsWith(b, span) ==> IsText(b + rest, term)
  {
    if EndsWith(b, span) {
      SliceOf(b, rest, span, term);
    }
  }

  /** A word or row of words that a finished span gives in the mode. */
  ghost predicate Gives(mode: Mode, e: Event, term: Term) {
    && e.SpanEvent? && GoodSpan(e.span, e.words)
    && term in TermsFrom(mode, e.span, e.words, 0, e.spanpos, e.bp - |e.span|)
  }

  lemma GivenInSpan(mode: Mode, e: Event, term: Term)
    requires Gives(mode, e, term)
    ensures InSpan(e.span, e.bp, term)
  {
    TermInSpan(mode, e.span, e.words, 0, e.spanpos, e.bp - |e.span|, term);
  }

  /** In any mode, a word or row of words of a span in which nothing may have been dropped is the text's
      own bytes between the offsets given with it. */
  lemma TermsAreText(cfg: Config, mode: Mode, t: seq<nat>, e: Event, term: Term) returns (at: nat)
    requires cfg.ngramLen > 0 && e in Run(cfg, t, START) && Gives(mode, e, term)
    ensures at <= |t| && e.bp == Bpos(t, at)
    ensures Clear(cfg, t, at, |e.span|) ==> IsText(Bytes(t, 0, |t|), term)
  {
    at := SpanPlaced(cfg, t, e);
    var b, rest := TextCut(cfg, t, at, e.span);
    GivenInSpan(mode, e, term);
    InSpanText(b, rest, e.span, e.bp, term);
  }
}
