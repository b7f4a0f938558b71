/** What every turn of the span machine keeps: the current word ends the span, words are in order and
    apart, positions count words, and finished spans are well formed and at rising positions. */
module SpanInvariant {
  import opened Closed
  import opened SplitText
  import opened NGrams
  import opened NGramRuns
  import opened SpanSpec

  /** Words in order, apart, none empty except one at the very start. */
  ghost predicate Ordered(words: seq<Range>) {
    && (forall k :: 0 <= k < |words| ==> words[k].first <= words[k].second)
    && (forall k :: 0 <= k < |words| && words[k].first == words[k].second ==> k == 0 && words[k].first == 0)
    && (forall k :: 0 < k < |words| ==> words[k - 1].second < words[k].first)
  }

  function LastEnd(words: seq<Range>): int {
    if words == [] then -1 else words[|words| - 1].second
  }

  predicate LeadsEmpty(words: seq<Range>) {
    words != [] && words[0] == Range(0, 0)
  }

  /** Number of non-empty words. */
  function WordCount(words: seq<Range>): int {
    |words| - (if LeadsEmpty(words) then 1 else 0)
  }

  predicate IsDot(b: Octet) {
    b == Octet('.' as nat, 0)
  }

  predicate IsLetterByte(b: Octet) {
    b.k == 0 && IsAsciiLetter(b.c)
  }

  /** An acronym spelled like I.B.M. with its dots. */
  predicate IsInitials(span: seq<Octet>) {
    && |span| % 2 == 0 && 2 < |span| <= 20
    && (forall k :: 0 <= k < |span| && k % 2 == 1 ==> IsDot(span[k]))
    && (forall k :: 0 <= k < |span| && k % 2 == 0 ==> IsLetterByte(span[k]))
  }

  /** The span starts like an acronym: letter, dot, letter. */
  predicate StartsInitials(span: seq<Octet>) {
    |span| >= 3 && IsLetterByte(span[0]) && IsDot(span[1]) && IsLetterByte(span[2])
  }

  /** A finished span: words inside it, a leading empty word just before the next one, and the first
      letter of an acronym a word of its own. */
  ghost predicate GoodSpan(span: seq<Octet>, words: seq<Range>) {
    && Ordered(words) && LastEnd(words) <= |span|
    && (LeadsEmpty(words) && |words| > 1 ==> words[1].first == 1)
    && (StartsInitials(span) ==> words != [] && words[0] == Range(0, 1))
  }

  /** Finished spans are good and each one's positions begin after those of the one before. */
  ghost predicate Rising(events: seq<Event>, lo: int, hi: int)
    decreases |events|
  {
    if events == [] then lo <= hi
    else match events[0]
      case SpanEvent(span, words, spanpos, _) =>
        lo <= spanpos && GoodSpan(span, words) && Rising(events[1..], spanpos + WordCount(words), hi)
      case SectionEvent(_, _) => Rising(events[1..], lo, hi)
      case PunctEvent(_) => Rising(events[1..], lo, hi)
  }

  lemma {:induction false} RisingJoin(a: seq<Event>, b: seq<Event>, lo: int, mid: int, hi: int)
    requires Rising(a, lo, mid) && Rising(b, mid, hi)
    ensures Rising(a + b, lo, hi)
    decreases |a|
  {
    if a == [] {
      assert a + b == b;
      RisingFrom(b, lo, mid, hi);
    } else {
      assert (a + b)[1..] == a[1..] + b;
      match a[0]
      case SpanEvent(_, words, spanpos, _) => RisingJoin(a[1..], b, spanpos + WordCount(words), mid, hi);
      case SectionEvent(_, _) => RisingJoin(a[1..], b, lo, mid, hi);
      case PunctEvent(_) => RisingJoin(a[1..], b, lo, mid, hi);
    }
  }

  lemma {:induction false} RisingFrom(events: seq<Event>, lo: int, lo': int, hi: int)
    requires Rising(events, lo', hi) && lo <= lo'
    ensures Rising(events, lo, hi)
    decreases |events|
  {
    if events != [] && !events[0].SpanEvent? {
      RisingFrom(events[1..], lo, lo', hi);
    }
  }

  /** The invariant of the span under construction. `next` is the class of the next character when it is
      already known. */
  ghost predicate Inv(core: Core) {
    && core.wordStart + core.wordLen == |core.span|
    && Ordered(core.words) && LastEnd(core.words) < core.wordStart
    && core.wordpos == core.spanpos + WordCount(core.words)
    && (LeadsEmpty(core.words) && |core.words| > 1 ==> core.words[1].first == 1)
    && (|core.span| == 1 && IsLetterByte(core.span[0]) ==> core.words == [])
    && (StartsInitials(core.span) ==> core.words != [] && core.words[0] == Range(0, 1))
  }

  /** What the last turn promised about the character to come, from its lookahead. */
  ghost predicate Ahead(cfg: Config, t: seq<nat>, i: nat, core: Core) {
    var next := if i < |t| then WhatCc(cfg, t[i]) else Space;
    && (core.words == [Range(0, 0)] ==>
          core.wordStart == 1 && !core.inNumber && (core.wordLen == 0 ==> IsAlnum(next) && next != Digit))
    && (|core.span| == 2 && IsLetterByte(core.span[0]) && IsDot(core.span[1]) ==>
          core.words == [Range(0, 1)] || (core.words == [] && next == Digit))
  }

  /** A core with an empty span satisfies everything. */
  lemma EmptySpan(cfg: Config, t: seq<nat>, i: nat, core: Core)
    requires core.span == [] && core.words == [] && core.wordStart == core.wordLen == 0 && core.wordpos == core.spanpos
    ensures Inv(core) && Ahead(cfg, t, i, core)
  {
  }

  lemma PushWord(words: seq<Range>, a: nat, b: nat)
    requires Ordered(words) && LastEnd(words) < a < b
    ensures var more := words + [Range(a, b)];
            && Ordered(more) && LastEnd(more) == b
            && WordCount(more) == WordCount(words) + 1
            && LeadsEmpty(more) == LeadsEmpty(words)
            && more[0] == (if words == [] then Range(a, b) else words[0])
  {
    var more := words + [Range(a, b)];
    assert forall k :: 0 <= k < |words| ==> more[k] == words[k];
  }

  /** Remembering a word keeps the words in order. */
  lemma EndWordKeeps(cfg: Config, core: Core)
    requires Inv(core)
    requires core.words == [Range(0, 0)] && core.wordLen > 0 ==> core.wordStart == 1 && !core.inNumber
    ensures var c := EndWord(cfg, core);
            && c.span == core.span && c.spanpos == core.spanpos && c.wordLen == 0 && c.inNumber == core.inNumber
            && GoodSpan(c.span, c.words) && c.wordpos == c.spanpos + WordCount(c.words)
  {
    if core.wordLen > 0 {
      PushWord(core.words, core.wordStart, core.wordStart + core.wordLen);
    }
  }

  const DOT: nat := 46

  lemma ClassFacts(cfg: Config, c: nat)
    ensures WhatCc(cfg, c).Own? ==> WhatCc(cfg, c).c == c && !IsAsciiLetter(c)
    ensures WhatCc(cfg, c) == Digit ==> !IsAsciiLetter(c)
    ensures c == DOT <==> WhatCc(cfg, c) == Own('.' as int)
  {
  }

  /** What EndWord needs to know of a leading empty word. */
  ghost predicate LeadOk(core: Core) {
    core.words == [Range(0, 0)] && core.wordLen > 0 ==> core.wordStart == 1 && !core.inNumber
  }

  /** A dot at the end of a span changes nothing about its words. */
  lemma GoodSpanDot(span: seq<Octet>, words: seq<Range>, dot: Octet)
    requires GoodSpan(span, words) && IsDot(dot)
    ensures GoodSpan(span + [dot], words)
  {
    var more := span + [dot];
    if StartsInitials(more) {
      assert more[2] != dot;
      assert more[0] == span[0] && more[1] == span[1] && more[2] == span[2];
    }
  }

  lemma OneSpan(span: seq<Octet>, words: seq<Range>, spanpos: int, bp: int)
    requires GoodSpan(span, words)
    ensures Rising([SpanEvent(span, words, spanpos, bp)], spanpos, spanpos + WordCount(words))
  {
    var events := [SpanEvent(span, words, spanpos, bp)];
    assert events[1..] == [];
  }

  /** Ending a span. */
  lemma EraseKeeps(cfg: Config, t: seq<nat>, i: nat, core: Core, bp: int)
    requires Inv(core) && LeadOk(core)
    ensures var o := DoEmit(cfg, core, true, bp);
            && o.core.span == [] && Inv(o.core) && Ahead(cfg, t, i, o.core)
            && Rising(o.events, core.spanpos, o.core.spanpos)
  {
    EndWordKeeps(cfg, core);
    var c := EndWord(cfg, core);
    OneSpan(c.span, c.words, c.spanpos, bp);
    EmptySpan(cfg, t, i, DiscardSpan(c));
  }

  /** Ending a span that has a dot after its last word. */
  lemma EraseDotKeeps(cfg: Config, t: seq<nat>, i: nat, core: Core, dot: Octet, bp: int)
    requires Inv(core) && LeadOk(core) && IsDot(dot)
    ensures var o := DoEmit(cfg, core.(span := core.span + [dot]), true, bp);
            && o.core.span == [] && Inv(o.core) && Ahead(cfg, t, i, o.core)
            && Rising(o.events, core.spanpos, o.core.spanpos)
  {
    EraseKeeps(cfg, t, i, core, bp);
    EraseDot(cfg, core, dot, bp);
    EndWordKeeps(cfg, core);
    var c := EndWord(cfg, core);
    DotSpan(c.span, c.words, dot, c.spanpos, bp);
  }

  lemma EraseDot(cfg: Config, core: Core, dot: Octet, bp: int)
    ensures var c := EndWord(cfg, core);
            DoEmit(cfg, core.(span := core.span + [dot]), true, bp) ==
            Outcome(DoEmit(cfg, core, true, bp).core, [SpanEvent(c.span + [dot], c.words, c.spanpos, bp)])
  {
  }

  lemma DotSpan(span: seq<Octet>, words: seq<Range>, dot: Octet, spanpos: int, bp: int)
    requires GoodSpan(span, words) && IsDot(dot)
    ensures Rising([SpanEvent(span + [dot], words, spanpos, bp)], spanpos, spanpos + WordCount(words))
  {
    GoodSpanDot(span, words, dot);
    OneSpan(span + [dot], words, spanpos, bp);
  }

  lemma FlushKeeps(cfg: Config, t: seq<nat>, i: nat, core: Core, bp: int)
    requires Inv(core) && LeadOk(core)
    ensures var o := Flush(cfg, core, bp);
            && o.core.span == [] && Inv(o.core) && Ahead(cfg, t, i, o.core)
            && Rising(o.events, core.spanpos, o.core.spanpos)
  {
    if Busy(core) {
      EraseKeeps(cfg, t, i, core, bp);
    } else {
      assert core.words == [];
      EmptySpan(cfg, t, i, core);
    }
  }

  /** Whatever ended the span, white space then leaves an empty one. */
  lemma AfterFlush(cfg: Config, t: seq<nat>, core: Core, lo: int, c: nat, at: nat, next: nat)
    requires at <= |t|
    requires var f := Flush(cfg, core, Bpos(t, at));
             f.core.span == [] && Inv(f.core) && Rising(f.events, lo, f.core.spanpos)
    ensures var o := AtSpace(cfg, t, core, c, at);
            Inv(o.core) && Ahead(cfg, t, next, o.core) && Rising(o.events, lo, o.core.spanpos)
  {
    var f := Flush(cfg, core, Bpos(t, at));
    var o := AtSpace(cfg, t, core, c, at);
    EmptySpan(cfg, t, next, o.core);
    if cfg.indexedPunctuation(c) {
      var e := o.events[|f.events|..];
      assert o.events == f.events + e && |e| == 1 && e[0].PunctEvent? && e[1..] == [];
      RisingJoin(f.events, e, lo, f.core.spanpos, o.core.spanpos);
    }
  }

  /** White space ends the span whatever comes next. */
  lemma AtSpaceKeeps(cfg: Config, t: seq<nat>, core: Core, c: nat, at: nat, next: nat)
    requires at <= |t| && Inv(core) && LeadOk(core)
    ensures var o := AtSpace(cfg, t, core, c, at);
            Inv(o.core) && Ahead(cfg, t, next, o.core) && Rising(o.events, core.spanpos, o.core.spanpos)
  {
    FlushKeeps(cfg, t, next, core, Bpos(t, at));
    AfterFlush(cfg, t, core, core.spanpos, c, at, next);
  }

  lemma DotSpaceKeeps(cfg: Config, t: seq<nat>, core: Core, dot: Octet, c: nat, at: nat, next: nat)
    requires at <= |t| && Inv(core) && LeadOk(core) && IsDot(dot)
    ensures var o := AtSpace(cfg, t, core.(span := core.span + [dot]), c, at);
            Inv(o.core) && Ahead(cfg, t, next, o.core) && Rising(o.events, core.spanpos, o.core.spanpos)
  {
    EraseDotKeeps(cfg, t, next, core, dot, Bpos(t, at));
    AfterFlush(cfg, t, core.(span := core.span + [dot]), core.spanpos, c, at, next);
  }

  /** One more character in the word. A dot goes there only when a digit follows. */
  lemma AppendKeeps(cfg: Config, t: seq<nat>, i: nat, core: Core, number: bool)
    requires i < |t| && Inv(core) && Ahead(cfg, t, i, core)
    requires core.words == [Range(0, 0)] ==> !number
    requires t[i] == DOT ==> i + 1 < |t| && WhatCc(cfg, t[i + 1]) == Digit
    ensures var core' := Append(core.(inNumber := number), t[i]);
            Inv(core') && Ahead(cfg, t, i + 1, core') && core'.spanpos == core.spanpos
  {
    var c := t[i];
    ClassFacts(cfg, c);
    var core' := Append(core.(inNumber := number), c);
    var n := |core.span|;
    assert core'.span[..n] == core.span;
    assert forall k :: 0 <= k < Width(c) ==> core'.span[n + k] == Octet(c, k);
  }

  /** A glue character after a word: the word is remembered, or the span ended for having enough words. */
  lemma JoinKeeps(cfg: Config, t: seq<nat>, i: nat, core: Core, bp: int, number: bool)
    requires i < |t| && Inv(core) && LeadOk(core) && core.wordLen > 0 && WhatCc(cfg, t[i]).Own?
    requires t[i] == DOT ==> !core.inNumber
    ensures var o := DoEmit(cfg, core, false, bp);
            var core' := Glue(o.core.(inNumber := number), t[i]);
            Inv(core') && Ahead(cfg, t, i + 1, core') && Rising(o.events, core.spanpos, core'.spanpos)
  {
    ClassFacts(cfg, t[i]);
    EndWordKeeps(cfg, core);
    var c := EndWord(cfg, core);
    if |c.words| >= cfg.maxWordsInSpan {
      EraseKeeps(cfg, t, i, core, bp);
      GlueFirst(cfg, t, i, DoEmit(cfg, core, true, bp).core.(inNumber := number));
    } else {
      GlueAfter(cfg, t, i, core, number);
    }
  }

  lemma GlueFirst(cfg: Config, t: seq<nat>, i: nat, core: Core)
    requires i < |t| && Inv(core) && core.span == [] && !IsAsciiLetter(t[i])
    ensures Inv(Glue(core, t[i])) && Ahead(cfg, t, i + 1, Glue(core, t[i]))
  {
    assert core.words == [];
    assert ([] + Enc(t[i]))[0] == Octet(t[i], 0);
  }

  lemma GlueAfter(cfg: Config, t: seq<nat>, i: nat, core: Core, number: bool)
    requires i < |t| && Inv(core) && LeadOk(core) && core.wordLen > 0 && !IsAsciiLetter(t[i])
    requires t[i] == DOT ==> !core.inNumber
    ensures var c := EndWord(cfg, core).(wordStart := |core.span|, inNumber := number);
            Inv(Glue(c, t[i])) && Ahead(cfg, t, i + 1, Glue(c, t[i]))
  {
    EndWordKeeps(cfg, core);
    var c := EndWord(cfg, core).(wordStart := |core.span|, inNumber := number);
    var core' := Glue(c, t[i]);
    var n := |core.span|;
    assert core'.span[..n] == core.span;
    assert forall k :: 0 <= k < Width(t[i]) ==> core'.span[n + k] == Octet(t[i], k);
  }

  // One turn at a time.

  /** The state and its lookahead promise, at character `i`. */
  ghost predicate At(cfg: Config, t: seq<nat>, i: nat, core: Core) {
    Inv(core) && Ahead(cfg, t, i, core)
  }

  ghost predicate Kept(cfg: Config, t: seq<nat>, core: Core, o: Outcome, next: nat) {
    At(cfg, t, next, o.core) && Rising(o.events, core.spanpos, o.core.spanpos)
  }

  lemma SpaceKept(cfg: Config, t: seq<nat>, core: Core, c: nat, i: nat)
    requires i < |t| && At(cfg, t, i, core)
    ensures Kept(cfg, t, core, AtSpace(cfg, t, core, c, i), i + 1)
  {
    AtSpaceKeeps(cfg, t, core, c, i, i + 1);
  }

  lemma AppendKept(cfg: Config, t: seq<nat>, i: nat, core: Core, number: bool)
    requires i < |t| && At(cfg, t, i, core)
    requires core.words == [Range(0, 0)] ==> !number
    requires t[i] == DOT ==> WhatCc(cfg, Peek(t, i)) == Digit
    ensures Kept(cfg, t, core, Outcome(Append(core.(inNumber := number), t[i]), []), i + 1)
  {
    AppendKeeps(cfg, t, i, core, number);
  }

  /** A character that changes nothing. It cannot be one the lookahead promised. */
  lemma SkipKept(cfg: Config, t: seq<nat>, i: nat, core: Core)
    requires i < |t| && At(cfg, t, i, core)
    requires !IsAlnum(WhatCc(cfg, t[i]))
    ensures Kept(cfg, t, core, Outcome(core, []), i + 1)
  {
  }

  lemma PlusMinusKept(cfg: Config, t: seq<nat>, core: Core, i: nat, plus: bool, prevPlus: bool)
    requires i < |t| && At(cfg, t, i, core) && WhatCc(cfg, t[i]).Own? && t[i] != DOT
    ensures Kept(cfg, t, core, PlusMinus(cfg, t, core, i, plus, prevPlus), i + 1)
  {
    SpaceKept(cfg, t, core, t[i], i);
    if core.words == [Range(0, 0)] {
      assert core.wordLen > 0 && !core.inNumber;
    }
    AppendKept(cfg, t, i, core, if core.wordLen == 0 then true else core.inNumber);
    assert core.(inNumber := core.inNumber) == core;
    if core.wordLen > 0 {
      JoinKeeps(cfg, t, i, core, Bpos(t, i), false);
    }
  }

  lemma LinkKept(cfg: Config, t: seq<nat>, core: Core, i: nat)
    requires i < |t| && At(cfg, t, i, core) && WhatCc(cfg, t[i]).Own? && t[i] != DOT
    ensures Kept(cfg, t, core, Link(cfg, t, core, i), i + 1)
  {
    SpaceKept(cfg, t, core, t[i], i);
    SkipKept(cfg, t, i, core);
    if core.wordLen > 0 {
      JoinKeeps(cfg, t, i, core, Bpos(t, i), false);
    }
  }

  lemma SharpKept(cfg: Config, t: seq<nat>, core: Core, i: nat)
    requires i < |t| && At(cfg, t, i, core) && WhatCc(cfg, t[i]).Own? && t[i] != DOT
    ensures Kept(cfg, t, core, Sharp(cfg, t, core, i), i + 1)
  {
    SpaceKept(cfg, t, core, t[i], i);
    assert core.(inNumber := core.inNumber) == core;
    AppendKept(cfg, t, i, core, core.inNumber);
  }

  lemma LeadingDot(cfg: Config, t: seq<nat>, core: Core, i: nat)
    requires i < |t| && At(cfg, t, i, core) && t[i] == DOT && core.span == [] && !core.inNumber
    requires var next := WhatCc(cfg, Peek(t, i)); IsAlnum(next) && next != Digit
    ensures Kept(cfg, t, core,
                 Outcome(Glue(core.(words := core.words + [Range(core.wordStart, core.wordStart)]), t[i]), []), i + 1)
  {
    assert core.words == [] && core.wordStart == core.wordLen == 0;
    var core' := Glue(core.(words := core.words + [Range(core.wordStart, core.wordStart)]), t[i]);
    assert Enc(DOT) == [Octet(DOT, 0)];
    assert core' == core.(span := [Octet(DOT, 0)], words := [Range(0, 0)], wordStart := 1);
    DotOnly(cfg, t, i + 1, core');
  }

  lemma DotOnly(cfg: Config, t: seq<nat>, i: nat, core: Core)
    requires core.span == [Octet(DOT, 0)] && core.words == [Range(0, 0)] && core.wordStart == 1 && core.wordLen == 0
    requires core.wordpos == core.spanpos && !core.inNumber
    requires i < |t| && IsAlnum(WhatCc(cfg, t[i])) && WhatCc(cfg, t[i]) != Digit
    ensures At(cfg, t, i, core)
  {
  }

  lemma NumberDotKept(cfg: Config, t: seq<nat>, core: Core, i: nat)
    requires i < |t| && At(cfg, t, i, core) && t[i] == DOT && core.inNumber
    ensures Kept(cfg, t, core, Dot(cfg, t, core, i).0, i + 1) && !Dot(cfg, t, core, i).1
  {
    SpaceKept(cfg, t, core, DOT, i);
    if WhatCc(cfg, Peek(t, i)) == Digit {
      ClassFacts(cfg, DOT);
      assert core.(inNumber := true) == core;
      AppendKept(cfg, t, i, core, true);
    }
  }

  lemma LastDotKept(cfg: Config, t: seq<nat>, core: Core, i: nat)
    requires i < |t| && At(cfg, t, i, core) && t[i] == DOT && !core.inNumber && !IsAlnum(WhatCc(cfg, Peek(t, i)))
    ensures Dot(cfg, t, core, i).1
    ensures Kept(cfg, t, core, Dot(cfg, t, core, i).0, if i + 2 <= |t| then i + 2 else i + 1)
  {
    assert Enc(DOT) == [Octet(DOT, 0)];
    DotSpaceKeeps(cfg, t, core, Octet(DOT, 0), DOT, i + 1, if i + 2 <= |t| then i + 2 else i + 1);
  }

  lemma WordDotKept(cfg: Config, t: seq<nat>, core: Core, i: nat)
    requires i < |t| && At(cfg, t, i, core) && t[i] == DOT && !core.inNumber && IsAlnum(WhatCc(cfg, Peek(t, i)))
    ensures Kept(cfg, t, core, Dot(cfg, t, core, i).0, i + 1) && !Dot(cfg, t, core, i).1
  {
    ClassFacts(cfg, DOT);
    if core.span == [] {
      if WhatCc(cfg, Peek(t, i)) == Digit {
        AppendKept(cfg, t, i, core, true);
      } else {
        LeadingDot(cfg, t, core, i);
      }
    } else if core.wordLen > 0 {
      JoinKeeps(cfg, t, i, core, Bpos(t, i), core.inNumber);
    } else {
      SkipKept(cfg, t, i, core);
    }
  }

  lemma DotKept(cfg: Config, t: seq<nat>, core: Core, i: nat)
    requires i < |t| && At(cfg, t, i, core) && t[i] == DOT
    ensures var (o, both) := Dot(cfg, t, core, i); Kept(cfg, t, core, o, if both && i + 2 <= |t| then i + 2 else i + 1)
  {
    if core.inNumber {
      NumberDotKept(cfg, t, core, i);
    } else if !IsAlnum(WhatCc(cfg, Peek(t, i))) {
      LastDotKept(cfg, t, core, i);
    } else {
      WordDotKept(cfg, t, core, i);
    }
  }

  lemma LetterKept(cfg: Config, t: seq<nat>, core: Core, i: nat, number: bool)
    requires i < |t| && At(cfg, t, i, core) && t[i] != DOT && (number ==> core.inNumber)
    requires WhatCc(cfg, t[i]) in {Letter, Upper, Lower}
    ensures Kept(cfg, t, core, Outcome(Append(core.(inNumber := number), t[i]), []), i + 1)
  {
    AppendKept(cfg, t, i, core, number);
  }

  lemma OnCharKept(cfg: Config, t: seq<nat>, core: Core, i: nat, prevPlus: bool)
    requires i < |t| && At(cfg, t, i, core) && WhatCc(cfg, t[i]) != Skip
    ensures var (o, both) := OnChar(cfg, t, core, i, WhatCc(cfg, t[i]), prevPlus);
            Kept(cfg, t, core, o, if both && i + 2 <= |t| then i + 2 else i + 1)
  {
    var cc := WhatCc(cfg, t[i]);
    ClassFacts(cfg, t[i]);
    match cc
    case Digit =>
      assert core.(inNumber := core.inNumber) == core;
      AppendKept(cfg, t, i, core, if core.wordLen == 0 then true else core.inNumber);
    case Space => SpaceKept(cfg, t, core, t[i], i);
    case Wild => SpaceKept(cfg, t, core, t[i], i);
    case Own(o) =>
      if o == '-' as int || o == '+' as int {
        PlusMinusKept(cfg, t, core, i, o == '+' as int, prevPlus);
      } else if o == '.' as int {
        DotKept(cfg, t, core, i);
      } else if o == '#' as int {
        SharpKept(cfg, t, core, i);
      } else if o in {'\n' as int, '\r' as int, '\U{c}' as int} {
        SpaceKept(cfg, t, core, t[i], i);
      } else {
        LinkKept(cfg, t, core, i);
      }
    case Skip =>
    case _ =>
      var exponent := t[i] in {'e' as nat, 'E' as nat};
      assert core.(inNumber := core.inNumber) == core;
      LetterKept(cfg, t, core, i, exponent && core.inNumber);
  }

  lemma LeadFromAhead(cfg: Config, t: seq<nat>, i: nat, core: Core)
    requires At(cfg, t, i, core)
    ensures LeadOk(core)
  {
  }

  lemma FlushKept(cfg: Config, t: seq<nat>, i: nat, core: Core, bp: int, next: nat)
    requires At(cfg, t, i, core)
    ensures Kept(cfg, t, core, Flush(cfg, core, bp), next) && Flush(cfg, core, bp).core.span == []
  {
    LeadFromAhead(cfg, t, i, core);
    FlushKeeps(cfg, t, next, core, bp);
  }

  lemma SectionKept(cfg: Config, t: seq<nat>, s: Loop)
    requires s.i < |t| && cfg.ngramLen > 0 && At(cfg, t, s.i, s.core)
    ensures var r := EnterSection(cfg, t, s);
            At(cfg, t, r.loop.i, r.loop.core) && Rising(r.events, s.core.spanpos, r.loop.core.spanpos)
  {
    var o := Flush(cfg, s.core, Bpos(t, s.i));
    FlushKept(cfg, t, s.i, s.core, Bpos(t, s.i), s.i);
    SectionAdvances(cfg, DEFAULT, cfg.ngramLen, t, s.i, 0, false, o.core.wordpos);
    var r := EnterSection(cfg, t, s);
    EmptySpan(cfg, t, r.loop.i, r.loop.core);
    assert o.core.words == [];
    var e := [SectionEvent(s.i, o.core.wordpos)];
    assert e[1..] == [];
    assert Rising(e, o.core.spanpos, r.loop.core.spanpos);
    RisingJoin(o.events, e, s.core.spanpos, o.core.spanpos, r.loop.core.spanpos);
  }

  /** From one core to another with these events, as the invariant has it. */
  ghost predicate Steady(cfg: Config, t: seq<nat>, core: Core, core': Core, events: seq<Event>, next: nat) {
    forall eye :: Look(eye) ==> Kept(cfg, t, core, Outcome(core', events), next)
  }

  lemma SteadyIs(cfg: Config, t: seq<nat>, core: Core, core': Core, events: seq<Event>, next: nat)
    ensures Steady(cfg, t, core, core', events, next) <==> Kept(cfg, t, core, Outcome(core', events), next)
  {
    if Steady(cfg, t, core, core', events, next) {
      assert Look(Eye);
    }
  }

  lemma SkipSteady(cfg: Config, t: seq<nat>, i: nat, core: Core, r: Turn)
    requires i < |t| && At(cfg, t, i, core) && !IsAlnum(WhatCc(cfg, t[i]))
    requires r.loop.core == core && r.loop.i == i + 1 && r.events == []
    ensures Steady(cfg, t, core, r.loop.core, r.events, r.loop.i)
  {
    SkipKept(cfg, t, i, core);
    SteadyIs(cfg, t, core, r.loop.core, r.events, r.loop.i);
  }

  lemma OnCharSteady(cfg: Config, t: seq<nat>, core: Core, i: nat, prevPlus: bool, o: Outcome, both: bool, r: Turn)
    requires i < |t| && At(cfg, t, i, core) && WhatCc(cfg, t[i]) != Skip
    requires (o, both) == OnChar(cfg, t, core, i, WhatCc(cfg, t[i]), prevPlus)
    requires r.loop.core == o.core && r.events == o.events && r.loop.i == if both && i + 2 <= |t| then i + 2 else i + 1
    ensures Steady(cfg, t, core, r.loop.core, r.events, r.loop.i)
  {
    OnCharKept(cfg, t, core, i, prevPlus);
    SteadyIs(cfg, t, core, r.loop.core, r.events, r.loop.i);
  }

  lemma CharTurnKept(cfg: Config, t: seq<nat>, s: Loop, csc: int, core: Core, r: Turn)
    requires s.i < |t| && At(cfg, t, s.i, core) && r == CharTurn(cfg, t, s, csc, core)
    ensures Steady(cfg, t, core, r.loop.core, r.events, r.loop.i)
  {
    var i, cc := s.i, WhatCc(cfg, t[s.i]);
    if cc == Skip || (s.soft && (cc == Own('\n' as int) || cc == Own('\r' as int))) {
      SkipSteady(cfg, t, i, core, r);
    } else {
      var (p, both) := OnChar(cfg, t, core, i, cc, s.prevPlus);
      OnCharSteady(cfg, t, core, i, s.prevPlus, p, both, r);
    }
  }

  lemma WordTurnKept(cfg: Config, t: seq<nat>, s: Loop, csc: int)
    requires s.i < |t| && At(cfg, t, s.i, s.core)
    ensures var r := WordTurn(cfg, t, s, csc);
            At(cfg, t, r.loop.i, r.loop.core) && Rising(r.events, s.core.spanpos, r.loop.core.spanpos)
  {
    FlushKept(cfg, t, s.i, s.core, Bpos(t, s.i), s.i);
    var o := ScriptChange(cfg, t, s, csc);
    assert Kept(cfg, t, s.core, o, s.i);
    var r := CharTurn(cfg, t, s, csc, o.core);
    CharTurnKept(cfg, t, s, csc, o.core, r);
    SteadyIs(cfg, t, o.core, r.loop.core, r.events, r.loop.i);
    RisingJoin(o.events, r.events, s.core.spanpos, o.core.spanpos, r.loop.core.spanpos);
  }

  /** Every turn of the main loop keeps the invariant and gives good spans at rising positions. */
  lemma TurnKept(cfg: Config, t: seq<nat>, s: Loop)
    requires s.i < |t| && cfg.ngramLen > 0 && At(cfg, t, s.i, s.core)
    ensures var r := TurnAt(cfg, t, s);
            At(cfg, t, r.loop.i, r.loop.core) && Rising(r.events, s.core.spanpos, r.loop.core.spanpos)
  {
    var csc := CharSpanClass(t[s.i]);
    if cfg.processCjk && IsNgrammed(t[s.i]) {
      SectionKept(cfg, t, s);
      var e := EnterSection(cfg, t, s);
      if e.loop.i < |t| {
        WordTurnKept(cfg, t, e.loop, csc);
        var w := WordTurn(cfg, t, e.loop, csc);
        RisingJoin(e.events, w.events, s.core.spanpos, e.loop.core.spanpos, w.loop.core.spanpos);
      }
    } else {
      WordTurnKept(cfg, t, s, csc);
    }
  }

  /** So does a whole run: all its spans are good and at rising positions. */
  lemma {:induction false} RunRises(cfg: Config, t: seq<nat>, s: Loop) returns (hi: int)
    requires s.i <= |t| && cfg.ngramLen > 0 && At(cfg, t, s.i, s.core)
    ensures Rising(Run(cfg, t, s), s.core.spanpos, hi)
    decreases |t| - s.i
  {
    if s.i == |t| {
      FlushKept(cfg, t, s.i, s.core, Bpos(t, |t|), |t|);
      hi := Flush(cfg, s.core, Bpos(t, |t|)).core.spanpos;
    } else {
      TurnKept(cfg, t, s);
      var r := TurnAt(cfg, t, s);
      hi := RunRises(cfg, t, r.loop);
      RisingJoin(r.events, Run(cfg, t, r.loop), s.core.spanpos, r.loop.core.spanpos, hi);
    }
  }

  lemma StartAt(cfg: Config, t: seq<nat>)
    ensures At(cfg, t, 0, FRESH)
  {
    EmptySpan(cfg, t, 0, FRESH);
  }
}
