/** The term splitter as an object whose methods update the span under construction, proved to deliver
    the terms that Agreement describes. */
module TextSplitter {
  import opened SplitText
  import opened NGrams
  import opened NGramRuns
  import opened SpanSpec
  import opened SpanInvariant
  import opened SpanTerms
  import opened Agreement
  import opened Delivery

  class TextSplit {
    const cfg: Config
    const flags: Mode
    var span: seq<Octet>
    var words: seq<Range>
    var wordStart: nat
    var wordLen: nat
    var inNumber: bool
    var wordpos: int
    var spanpos: int
    var prevpos: int
    var prevlen: nat
    // The terms given to the consumer, which accepts them all.
    var out: seq<Term>

    ghost function State(): Core
      reads this
    {
      Core(span, words, wordStart, wordLen, inNumber, wordpos, spanpos)
    }

    ghost function Last(): Prev
      reads this
    {
      Prev(prevpos, prevlen)
    }

    /** The state is the one of `o` and its events were delivered, the output and the duplicate check
        having been `was` and `prev`. */
    ghost predicate Did(t: seq<nat>, o: Outcome, was: seq<Term>, prev: Prev)
      reads this
    {
      State() == o.core && Sent(cfg, flags, t, o.events, was, prev, out, Last())
    }

    constructor (cfg: Config, flags: Mode)
      ensures this.cfg == cfg && this.flags == flags && out == []
    {
      this.cfg := cfg;
      this.flags := flags;
      span, words, out := [], [], [];
      wordStart, wordLen, inNumber, wordpos, spanpos, prevpos, prevlen := 0, 0, false, 0, 0, -1, 0;
    }

    /** Final checks, then the term goes to the consumer. */
    method EmitTerm(term: Term)
      modifies this`prevpos, this`prevlen, this`out
      ensures Took(cfg, [term], old(out), old(Last()), out, Last())
    {
      var w := term.word;
      OneTerm(cfg, term, out, Last());
      if Discards(w) {
        return;
      }
      if term.pos != prevpos || |w| != prevlen {
        out := out + [term];
        prevpos := term.pos;
        prevlen := |w|;
      }
    }

    /** Too long, empty, or a single byte that is no letter or digit. */
    predicate Discards(w: seq<Octet>)
      ensures Discards(w) <==> !Passes(cfg, w)
    {
      || ((|w| == 0 || |w| >= cfg.maxWordLength) && (CharLen(w) == 0 || CharLen(w) > cfg.maxWordLength))
      || (|w| == 1 && !(w[0].k == 0 && w[0].c <= 127 && WhatCc(cfg, w[0].c) in {Upper, Lower, Digit}))
    }

    /** Is the finished span an acronym spelled like I.B.M.? */
    method SpanIsInitials() returns (found: bool, initials: seq<Octet>)
      requires wordLen == 0
      ensures found <==> IsInitials(span)
      ensures found ==> initials == Letters(span)
    {
      initials := [];
      if wordLen == |span| || |span| % 2 == 1 || |span| <= 2 || |span| > 20 {
        return false, initials;
      }
      var i := 1;
      while i < |span|
        invariant i % 2 == 1 && i <= |span| + 1
        invariant forall k :: 0 <= k < i && k < |span| && k % 2 == 1 ==> IsDot(span[k])
      {
        if !IsDot(span[i]) {
          return false, initials;
        }
        i := i + 2;
      }
      i := 0;
      while i < |span|
        invariant i % 2 == 0 && i <= |span|
        invariant forall k :: 0 <= k < i && k % 2 == 0 ==> IsLetterByte(span[k])
      {
        if !IsLetterByte(span[i]) {
          return false, initials;
        }
        i := i + 2;
      }
      i := 0;
      while i < |span|
        invariant i % 2 == 0 && i <= |span| && |initials| == i / 2
        invariant forall k :: 0 <= k < |initials| ==> initials[k] == span[2 * k]
      {
        initials := initials + [span[i]];
        i := i + 2;
      }
      found := true;
    }

    /** One word around a hyphen, when configured. */
    method EmitDehyphenated(bp: int) returns (ghost terms: seq<Term>)
      requires GoodSpan(span, words)
      modifies this`prevpos, this`prevlen, this`out
      ensures terms == Dehyphenated(cfg, span, words, spanpos, bp - |span|)
      ensures Took(cfg, terms, old(out), old(Last()), out, Last())
    {
      TookNone(cfg, out, Last());
      terms := [];
      if cfg.deHyphenate && |words| == 2 {
        WordBounds(span, words, 0, 1);
        WordBounds(span, words, 1, 1);
        if span[words[0].second] == Octet('-' as nat, 0) {
          var s0, e0, s1, e1 := words[0].first, words[0].second, words[1].first, words[1].second;
          if s0 < e0 && s1 < e1 {
            var term := Term(span[s0..e0] + span[s1..e1], spanpos, bp - |span|, bp - |span| + e1);
            EmitTerm(term);
            terms := [term];
          }
        }
      }
    }

    /** The same for a span known only to be good. */
    method EmitHyphen(bp: int) returns (ghost terms: seq<Term>)
      requires Fit(span, words)
      modifies this`prevpos, this`prevlen, this`out
      ensures Joined(cfg, span, words, spanpos, bp - |span|, terms)
      ensures Took(cfg, terms, old(out), old(Last()), out, Last())
    {
      FitIs(span, words);
      terms := EmitDehyphenated(bp);
      JoinedIs(cfg, span, words, spanpos, bp - |span|, terms);
    }

    /** The terms that begin at word `i`. */
    method EmitFromWord(i: nat, pos: int, bp: int, ghost terms: seq<Term>)
      requires i < |words| && Begins(flags, span, words, i, pos, bp - |span|, terms)
      modifies this`prevpos, this`prevlen, this`out
      ensures Took(cfg, terms, old(out), old(Last()), out, Last())
    {
      BeginsCount(flags, span, words, i, pos, bp - |span|, terms);
      TookNone(cfg, out, Last());
      var j := if flags.onlyspans then |words| - 1 else i;
      ghost var k: nat := 0;
      while j < (if flags.nospans then i + 1 else |words|)
        invariant k <= |terms| && j == FirstEnd(flags, words, i) + k
        invariant j < PastEnd(flags, words, i) || k == |terms|
        invariant Took(cfg, terms[..k], old(out), old(Last()), out, Last())
      {
        BeginsAt(flags, span, words, i, pos, bp - |span|, terms, j, k);
        var deb, fin := words[i].first, words[j].second;
        if fin - deb > |span| {
          break;
        }
        ghost var mid, p := out, Last();
        EmitTerm(Term(span[deb..fin], pos, bp - |span| + deb, bp - |span| + fin));
        TookMore(cfg, terms[..k], [terms[k]], old(out), old(Last()), mid, p, out, Last());
        j := j + 1;
        k := k + 1;
      }
      assert terms[..|terms|] == terms;
    }

    /** The terms that begin at word `i`, the first of those still to be given. */
    method EmitNextWord(i: nat, pos: int, bp: int, ghost rest: seq<Term>) returns (ghost here: seq<Term>, ghost more: seq<Term>)
      requires i < |words| && (flags.onlyspans ==> i == 0) && pos == PosAt(words, i, spanpos)
      requires Follows(flags, span, words, i, spanpos, bp - |span|, rest)
      modifies this`prevpos, this`prevlen, this`out
      ensures rest == here + more && Follows(flags, span, words, i + 1, spanpos, bp - |span|, more)
      ensures PosAt(words, i + 1, spanpos) == pos + (if words[i].second == words[i].first then 0 else 1)
      ensures Took(cfg, here, old(out), old(Last()), out, Last())
    {
      here, more := FollowsStep(flags, span, words, i, spanpos, bp - |span|, rest);
      EmitFromWord(i, pos, bp, here);
    }

    /** The terms of the finished span that come from its words. */
    method EmitWords(bp: int, ghost terms: seq<Term>)
      requires words != [] && Follows(flags, span, words, 0, spanpos, bp - |span|, terms)
      modifies this`prevpos, this`prevlen, this`out
      ensures Took(cfg, terms, old(out), old(Last()), out, Last())
    {
      ghost var done: seq<Term>, rest, was, prev := [], terms, out, Last();
      ghost var sp, ws, first, base := span, words, spanpos, bp - |span|;
      TookNone(cfg, out, Last());
      var pos := spanpos;
      var i := 0;
      while i < (if flags.onlyspans then 1 else |words|)
        invariant span == sp && words == ws && spanpos == first
        invariant i <= |ws| && pos == PosAt(ws, i, first) && terms == done + rest
        invariant Follows(flags, sp, ws, i, first, base, rest)
        invariant Took(cfg, done, was, prev, out, Last())
      {
        ghost var mid, p := out, Last();
        ghost var here, more := EmitNextWord(i, pos, bp, rest);
        TookMore(cfg, done, here, was, prev, mid, p, out, Last());
        TermsJoin(done, here, more);
        done, rest := done + here, more;
        var noposinc := words[i].second == words[i].first;
        if !noposinc {
          pos := pos + 1;
        }
        i := i + 1;
      }
      FollowsEnd(flags, sp, ws, i, first, base, rest);
      assert done + [] == done;
    }

    /** The terms of the finished span but for the acronym it may be. */
    method WordsFromSpan(bp: int) returns (ghost hyphen: seq<Term>, ghost terms: seq<Term>)
      requires Fit(span, words)
      modifies this`prevpos, this`prevlen, this`out
      ensures Joined(cfg, span, words, spanpos, bp - |span|, hyphen)
      ensures Follows(flags, span, words, 0, spanpos, bp - |span|, terms)
      ensures Took(cfg, hyphen + terms, old(out), old(Last()), out, Last())
    {
      terms := FollowsStart(flags, span, words, spanpos, bp - |span|);
      if |words| == 0 {
        TookNone(cfg, out, Last());
        NoWords(cfg, flags, span, words, spanpos, bp - |span|, terms);
        hyphen := [];
        return;
      }
      hyphen := EmitHyphen(bp);
      ghost var mid, p := out, Last();
      EmitWords(bp, terms);
      TookMore(cfg, hyphen, terms, old(out), old(Last()), mid, p, out, Last());
    }

    method DiscardSpan()
      modifies this`span, this`words, this`spanpos, this`wordStart, this`wordLen
      ensures State() == SpanSpec.DiscardSpan(old(State()))
    {
      span := [];
      words := [];
      spanpos := wordpos;
      wordStart := 0;
      wordLen := 0;
    }

    /** The acronym that the finished span may be. */
    method EmitInitials(bp: int) returns (ghost ini: seq<Term>)
      requires wordLen == 0
      modifies this`prevpos, this`prevlen, this`out
      ensures ini == if IsInitials(span) then [Term(Letters(span), spanpos, bp - |span|, bp)] else []
      ensures Took(cfg, ini, old(out), old(Last()), out, Last())
    {
      TookNone(cfg, out, Last());
      var found, initials := SpanIsInitials();
      ini := [];
      if found {
        ini := [Term(initials, spanpos, bp - |span|, bp)];
        EmitTerm(Term(initials, spanpos, bp - |span|, bp));
      }
    }

    /** The terms of the finished span. */
    method EmitSpan(bp: int) returns (ghost terms: seq<Term>)
      requires Fit(span, words) && wordLen == 0
      modifies this`prevpos, this`prevlen, this`out
      ensures Offers(cfg, flags, span, words, spanpos, bp, terms)
      ensures Took(cfg, terms, old(out), old(Last()), out, Last())
    {
      ghost var ini := EmitInitials(bp);
      ghost var mid, p := out, Last();
      ghost var hyphen, rest := WordsFromSpan(bp);
      TookMore(cfg, ini, hyphen + rest, old(out), old(Last()), mid, p, out, Last());
      assert ini + (hyphen + rest) == ini + hyphen + rest;
      terms := ini + hyphen + rest;
      OffersParts(cfg, flags, span, words, spanpos, bp, ini, hyphen, rest);
    }

    /** Remember the current word, if any. Says whether the span then has as many words as allowed. */
    method EndWord() returns (full: bool)
      modifies this`words, this`wordpos, this`wordLen
      ensures State() == SpanSpec.EndWord(cfg, old(State()))
      ensures full <==> old(wordLen) > 0 && |words| >= cfg.maxWordsInSpan
    {
      full := false;
      if wordLen > 0 {
        if !(cfg.noNumbers && inNumber) {
          words := words + [Range(wordStart, wordStart + wordLen)];
          wordpos := wordpos + 1;
        }
        if |words| >= cfg.maxWordsInSpan {
          full := true;
        }
        wordLen := 0;
      }
    }

    /** End of a word, and of the span when `erase` is set or it has as many words as allowed. */
    method DoEmit(erase: bool, bp: int, ghost t: seq<nat>)
      requires Ripe(cfg, State())
      modifies this
      ensures Did(t, SpanSpec.DoEmit(cfg, old(State()), erase, bp), old(out), old(Last()))
    {
      RipeEnds(cfg, State());
      var full := EndWord();
      if !erase && !full {
        wordStart := |span|;
        SentNone(cfg, flags, t, out, Last());
        return;
      }
      ghost var was, prev := out, Last();
      ghost var terms := EmitSpan(bp);
      SentSpan(cfg, flags, t, span, words, spanpos, bp, terms, was, prev, out, Last());
      DiscardSpan();
    }

    /** One more character in the current word. */
    method AppendChar(c: nat)
      modifies this`span, this`wordLen
      ensures State() == Append(old(State()), c)
    {
      span := span + Enc(c);
      wordLen := wordLen + Width(c);
    }

    /** A glue character. */
    method GlueChar(c: nat)
      modifies this`span, this`wordStart
      ensures State() == Glue(old(State()), c)
    {
      span := span + Enc(c);
      wordStart := wordStart + Width(c);
    }

    /** End of the span, if there is one under way. */
    method FlushSpan(bp: int, ghost t: seq<nat>)
      requires Ripe(cfg, State())
      modifies this
      ensures Did(t, Flush(cfg, old(State()), bp), old(out), old(Last()))
    {
      if wordLen > 0 || |span| > 0 {
        DoEmit(true, bp, t);
      } else {
        SentNone(cfg, flags, t, out, Last());
      }
    }

    /** An indexed punctuation sign goes to the consumer unchecked, and takes a position. */
    method TakeSign(t: seq<nat>, at: nat) returns (ghost term: Term)
      requires at <= |t|
      modifies this`out, this`spanpos, this`wordpos
      ensures var sign := if at < |t| then Enc(t[at]) else [];
              term == Term(sign, old(wordpos), Bpos(t, at), Bpos(t, at) + |sign|)
      ensures Sent(cfg, flags, t, [PunctEvent(term)], old(out), Last(), out, Last())
      ensures wordpos == old(wordpos) + 1
      ensures spanpos == if old(spanpos == wordpos) then old(spanpos) + 1 else old(spanpos)
    {
      var sign := if at < |t| then Enc(t[at]) else [];
      var sent := Term(sign, wordpos, Bpos(t, at), Bpos(t, at) + |sign|);
      SentSign(cfg, flags, t, sent, out, Last());
      out := out + [sent];
      term := sent;
      if spanpos == wordpos {
        spanpos := spanpos + 1;
      }
      wordpos := wordpos + 1;
    }

    /** End of the span before white space. */
    method EndSpan(bp: int, ghost t: seq<nat>) returns (ghost events: seq<Event>)
      requires Ripe(cfg, State())
      modifies this
      ensures var o := Flush(cfg, old(State()), bp);
              && events == o.events
              && State() == if Busy(old(State())) then o.core.(inNumber := false) else o.core
      ensures Sent(cfg, flags, t, events, old(out), old(Last()), out, Last())
    {
      events := Flush(cfg, State(), bp).events;
      if wordLen > 0 || |span| > 0 {
        DoEmit(true, bp, t);
        inNumber := false;
      } else {
        SentNone(cfg, flags, t, out, Last());
      }
    }

    /** White space. */
    method OnSpace(t: seq<nat>, c: nat, at: nat)
      requires at <= |t| && Ripe(cfg, State())
      modifies this
      ensures Did(t, AtSpace(cfg, t, old(State()), c, at), old(out), old(Last()))
    {
      ghost var was, prev := out, Last();
      ghost var events := EndSpan(Bpos(t, at), t);
      if cfg.indexedPunctuation(c) {
        ghost var mid, p := out, Last();
        ghost var term := TakeSign(t, at);
        SentMore(cfg, flags, t, events, [PunctEvent(term)], was, prev, mid, p, out, Last());
      }
    }

    /** A plus or minus sign. */
    method OnPlusMinus(t: seq<nat>, i: nat, plus: bool, prevPlus: bool)
      requires i < |t| && Ripe(cfg, State())
      modifies this
      ensures Did(t, PlusMinus(cfg, t, old(State()), i, plus, prevPlus), old(out), old(Last()))
    {
      SentNone(cfg, flags, t, out, Last());
      var next := Peek(t, i);
      if wordLen == 0 {
        if WhatCc(cfg, next) == Digit {
          inNumber := true;
          AppendChar(t[i]);
          return;
        }
      } else if !cfg.numberDashSpans && inNumber {
        if span != [] && span[|span| - 1] in {Octet('e' as nat, 0), Octet('E' as nat, 0)} {
          if WhatCc(cfg, next) == Digit {
            AppendChar(t[i]);
            return;
          }
        }
      } else if plus {
        if (next == '+' as int && !prevPlus) || (prevPlus && AtWhite(cfg, next)) {
          AppendChar(t[i]);
          return;
        }
      } else if !AtWhite(cfg, next) {
        DoEmit(false, Bpos(t, i), t);
        inNumber := false;
        GlueChar(t[i]);
        return;
      }
      OnSpace(t, t[i], i);
    }

    /** A dot. Says whether the next character was consumed with it. */
    method OnDot(t: seq<nat>, i: nat) returns (both: bool)
      requires i < |t| && t[i] == DOT
      requires Ripe(cfg, State()) && Ripe(cfg, State().(span := span + Enc(DOT)))
      modifies this
      ensures Did(t, Dot(cfg, t, old(State()), i).0, old(out), old(Last()))
      ensures both == Dot(cfg, t, old(State()), i).1
    {
      both := false;
      SentNone(cfg, flags, t, out, Last());
      var next := WhatCc(cfg, Peek(t, i));
      if inNumber {
        if next == Digit {
          AppendChar(t[i]);
        } else {
          OnSpace(t, t[i], i);
        }
      } else if !IsAlnum(next) {
        span := span + Enc(t[i]);
        both := true;
        OnSpace(t, t[i], i + 1);
      } else if |span| == 0 {
        if next == Digit {
          inNumber := true;
          AppendChar(t[i]);
        } else {
          words := words + [Range(wordStart, wordStart)];
          GlueChar(t[i]);
        }
      } else if wordLen > 0 {
        DoEmit(false, Bpos(t, i), t);
        GlueChar(t[i]);
      }
    }

    /** A quote, at-sign, underscore or hyphen. */
    method OnLink(t: seq<nat>, i: nat)
      requires i < |t| && Ripe(cfg, State())
      modifies this
      ensures Did(t, Link(cfg, t, old(State()), i), old(out), old(Last()))
    {
      SentNone(cfg, flags, t, out, Last());
      if AtWhite(cfg, Peek(t, i)) {
        OnSpace(t, t[i], i);
      } else if wordLen > 0 {
        DoEmit(false, Bpos(t, i), t);
        inNumber := false;
        GlueChar(t[i]);
      }
    }

    /** A number sign. */
    method OnSharp(t: seq<nat>, i: nat)
      requires i < |t| && Ripe(cfg, State())
      modifies this
      ensures Did(t, Sharp(cfg, t, old(State()), i), old(out), old(Last()))
    {
      SentNone(cfg, flags, t, out, Last());
      var w := WhatCc(cfg, Peek(t, i));
      if wordLen == 0 && IsAlnum(w) {
        AppendChar(t[i]);
        return;
      }
      if wordLen > 0 {
        if w == Space || w == Own('\n' as int) || w == Own('\r' as int) {
          AppendChar(t[i]);
          return;
        }
      }
      OnSpace(t, t[i], i);
    }

    /** One character of class `cc`. Says whether the next one was consumed with it. */
    method OnAny(t: seq<nat>, i: nat, cc: Class, prevPlus: bool) returns (both: bool)
      requires i < |t| && cc == WhatCc(cfg, t[i])
      requires Ripe(cfg, State()) && Ripe(cfg, State().(span := span + Enc(DOT)))
      modifies this
      ensures Did(t, OnChar(cfg, t, old(State()), i, cc, prevPlus).0, old(out), old(Last()))
      ensures both == OnChar(cfg, t, old(State()), i, cc, prevPlus).1
    {
      both := false;
      SentNone(cfg, flags, t, out, Last());
      ClassFacts(cfg, t[i]);
      match cc
      case Digit =>
        if wordLen == 0 {
          inNumber := true;
        }
        AppendChar(t[i]);
      case Space => OnSpace(t, t[i], i);
      case Wild => OnSpace(t, t[i], i);
      case Own(o) =>
        if o == '-' as int || o == '+' as int {
          OnPlusMinus(t, i, o == '+' as int, prevPlus);
        } else if o == '.' as int {
          both := OnDot(t, i);
        } else if o == '#' as int {
          OnSharp(t, i);
        } else if o in {'\n' as int, '\r' as int, '\U{c}' as int} {
          OnSpace(t, t[i], i);
        } else {
          OnLink(t, i);
        }
      case _ =>
        if inNumber && t[i] != 'e' as nat && t[i] != 'E' as nat {
          inNumber := false;
        }
        AppendChar(t[i]);
    }

    /** Everything about the splitting state starts afresh. */
    method ClearSplitState()
      modifies this
      ensures State() == FRESH && Last() == Prev(0, 0) && out == old(out)
    {
      span, words := [], [];
      wordStart, wordLen, inNumber := 0, 0, false;
      wordpos, spanpos := 0, 0;
      prevpos, prevlen := 0, 0;
    }

    /** An n-gram section. Gives the character after it. */
    method DoSection(t: seq<nat>, i: nat) returns (next: nat)
      requires i < |t| && 0 < cfg.ngramLen < MAX_NGRAM && Ripe(cfg, State())
      modifies this
      ensures var r := EnterSection(cfg, t, Loop(old(State()), i, false, false, CSC_NONE));
              && next == r.loop.i && State() == r.loop.core
              && Sent(cfg, flags, t, r.events, old(out), old(Last()), out, Last())
    {
      ghost var was, prev := out, Last();
      ghost var events := Flush(cfg, State(), Bpos(t, i)).events;
      FlushSpan(Bpos(t, i), t);
      ghost var mid, p := out, Last();
      ghost var pos0 := wordpos;
      next := SplitSection(t, i);
      SentMore(cfg, flags, t, events, [SectionEvent(i, pos0)], was, prev, mid, p, out, Last());
    }

    /** The n-gram splitter takes over, from position `wordpos` on; then the state is reset but for the
        position reached. */
    method SplitSection(t: seq<nat>, i: nat) returns (next: nat)
      requires i < |t| && 0 < cfg.ngramLen < MAX_NGRAM
      modifies this
      ensures var g := Section(cfg, DEFAULT, cfg.ngramLen, t, i, 0, false, old(wordpos));
              next == g.next && State() == FRESH.(wordpos := g.wordpos, spanpos := g.wordpos)
      ensures Sent(cfg, flags, t, [SectionEvent(i, old(wordpos))], old(out), old(Last()), out, Last())
    {
      ghost var pos0 := wordpos;
      SentSection(cfg, flags, t, i, wordpos, out, Last());
      SectionAgrees(cfg, flags, cfg.ngramLen, t, i, 0, 0, false, wordpos);
      var splitter := new CJKSplitter(cfg.ngramLen);
      var terms, at, pos := splitter.TextToWords(cfg, flags, t, i, wordpos);
      out := out + terms;
      ClearSplitState();
      spanpos, wordpos := pos, pos;
      next := at;
    }

    /** The character at `i`, by its class. Gives what the next turn must know. */
    method DoChar(t: seq<nat>, i: nat, soft: bool, prevPlus: bool, csc: int)
      returns (next: nat, soft': bool, prevPlus': bool)
      requires i < |t| && Stands(cfg, t, i, State())
      modifies this
      ensures var r := CharTurn(cfg, t, Loop(old(State()), i, soft, prevPlus, csc), csc, old(State()));
              && r.loop == Loop(State(), next, soft', prevPlus', csc)
              && Sent(cfg, flags, t, r.events, old(out), old(Last()), out, Last())
    {
      StandsRipe(cfg, t, i, State());
      SentNone(cfg, flags, t, out, Last());
      var cc := WhatCc(cfg, t[i]);
      if cc == Skip {
        return i + 1, t[i] == 0xad, prevPlus;
      }
      if soft && (cc == Own('\n' as int) || cc == Own('\r' as int)) {
        return i + 1, true, prevPlus;
      }
      var both := OnAny(t, i, cc, prevPlus);
      next := if both && i + 2 <= |t| then i + 2 else i + 1;
      soft' := false;
      prevPlus' := cc == Own('+' as int);
    }

    /** A change of script ends the span, except just after a CJK section. */
    method OnScriptChange(t: seq<nat>, i: nat, prevCsc: int, csc: int, ghost s: Loop)
      requires i < |t| && Stands(cfg, t, i, State()) && s.core == State() && s.i == i && s.prevCsc == prevCsc
      modifies this
      ensures Did(t, ScriptChange(cfg, t, s, csc), old(out), old(Last())) && Stands(cfg, t, i, State())
    {
      SentNone(cfg, flags, t, out, Last());
      if prevCsc != CSC_CJK && csc != prevCsc {
        StandsRipe(cfg, t, i, State());
        StandsFlushed(cfg, t, i, State(), Bpos(t, i));
        FlushSpan(Bpos(t, i), t);
      }
    }

    /** The character at `i` in the word splitter proper, reached with span class `csc`. */
    method DoWord(t: seq<nat>, i: nat, soft: bool, prevPlus: bool, prevCsc: int, csc: int)
      returns (next: nat, soft': bool, prevPlus': bool)
      requires i < |t| && Stands(cfg, t, i, State())
      modifies this
      ensures var r := WordTurn(cfg, t, Loop(old(State()), i, soft, prevPlus, prevCsc), csc);
              && r.loop == Loop(State(), next, soft', prevPlus', csc)
              && Sent(cfg, flags, t, r.events, old(out), old(Last()), out, Last())
    {
      ghost var was, prev, s := out, Last(), Loop(State(), i, soft, prevPlus, prevCsc);
      OnScriptChange(t, i, prevCsc, csc, s);
      ghost var mid, p, core := out, Last(), State();
      next, soft', prevPlus' := DoChar(t, i, soft, prevPlus, csc);
      ghost var events := WordEvents(cfg, t, s, csc, core, Loop(core, i, soft, prevPlus, csc));
      SentMore(cfg, flags, t, events.0, events.1, was, prev, mid, p, out, Last());
    }

    /** One turn of the main loop: an n-gram section if one begins here, then the character after it. */
    method DoTurn(t: seq<nat>, i: nat, soft: bool, prevPlus: bool, prevCsc: int)
      returns (next: nat, soft': bool, prevPlus': bool, prevCsc': int)
      requires i < |t| && 0 < cfg.ngramLen < MAX_NGRAM && Stands(cfg, t, i, State())
      modifies this
      ensures var r := TurnAt(cfg, t, Loop(old(State()), i, soft, prevPlus, prevCsc));
              && r.loop == Loop(State(), next, soft', prevPlus', prevCsc')
              && Sent(cfg, flags, t, r.events, old(out), old(Last()), out, Last())
    {
      ghost var was, prev := out, Last();
      var csc := CharSpanClass(t[i]);
      if cfg.processCjk && IsNgrammed(t[i]) {
        ghost var e := EnterSection(cfg, t, Loop(State(), i, soft, prevPlus, prevCsc));
        StandsRipe(cfg, t, i, State());
        StandsSection(cfg, t, Loop(State(), i, soft, prevPlus, prevCsc));
        next := DoSection(t, i);
        if next >= |t| {
          return next, soft, prevPlus, prevCsc;
        }
        ghost var mid, p := out, Last();
        ghost var w := WordTurn(cfg, t, e.loop, csc);
        next, soft', prevPlus' := DoWord(t, next, soft, prevPlus, prevCsc, csc);
        SentMore(cfg, flags, t, e.events, w.events, was, prev, mid, p, out, Last());
      } else {
        next, soft', prevPlus' := DoWord(t, i, soft, prevPlus, prevCsc, csc);
      }
      prevCsc' := csc;
    }

    /** Split a text: the terms described by Agreement go to the consumer, in that order. */
    method TextToWords(t: seq<nat>)
      requires 0 < cfg.ngramLen < MAX_NGRAM
      modifies this
      ensures out == old(out) + Terms(cfg, flags, t)
    {
      ClearSplitState();
      var i, soft, prevPlus, prevCsc := 0, false, false, CSC_NONE;
      ghost var was, done, all: seq<Event> := out, [], RunOf(cfg, t);
      SentNone(cfg, flags, t, out, Last());
      StandsAtStart(cfg, t);
      while i < |t|
        invariant i <= |t| && Stands(cfg, t, i, State())
        invariant Running(cfg, t, Loop(State(), i, soft, prevPlus, prevCsc), done, all)
        invariant Sent(cfg, flags, t, done, was, Prev(0, 0), out, Last())
      {
        ghost var s, mid, p := Loop(State(), i, soft, prevPlus, prevCsc), out, Last();
        ghost var events := RunningStep(cfg, t, s, done, all);
        i, soft, prevPlus, prevCsc := DoTurn(t, i, soft, prevPlus, prevCsc);
        SentMore(cfg, flags, t, done, events, was, Prev(0, 0), mid, p, out, Last());
        done := done + events;
      }
      ghost var mid, p := out, Last();
      ghost var events := RunningEnd(cfg, t, Loop(State(), i, soft, prevPlus, prevCsc), done, all);
      StandsRipe(cfg, t, i, State());
      FlushSpan(Bpos(t, |t|), t);
      SentMore(cfg, flags, t, done, events, was, Prev(0, 0), mid, p, out, Last());
      SentAll(cfg, flags, t, was, out, Last());
    }
  }

  /** Index time and query time: whatever a query-time splitter gives, the indexing one gives too. */
  method IndexAndQuery(cfg: Config, mode: Mode, t: seq<nat>) returns (indexed: seq<Term>, queried: seq<Term>)
    requires 0 < cfg.ngramLen < MAX_NGRAM
    ensures forall term :: term in queried ==> term in indexed
    ensures indexed == Terms(cfg, DEFAULT, t) && queried == Terms(cfg, mode, t)
  {
    var indexer := new TextSplit(cfg, DEFAULT);
    indexer.TextToWords(t);
    indexed := indexer.out;
    var querier := new TextSplit(cfg, mode);
    querier.TextToWords(t);
    queried := querier.out;
    assert [] + Terms(cfg, DEFAULT, t) == Terms(cfg, DEFAULT, t);
    assert [] + Terms(cfg, mode, t) == Terms(cfg, mode, t);
    ModesAgree(cfg, mode, t);
  }
}
