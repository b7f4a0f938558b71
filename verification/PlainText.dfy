/** Plain text, that is runs of letters and digits between separators: the terms are exactly these runs. */
module PlainText {
  import opened SplitText
  import opened NGrams
  import opened NGramRuns
  import opened SpanSpec
  import opened SpanInvariant
  import opened SpanTerms
  import opened Agreement
  import opened SpanWords
  import opened SpanLayout
  import opened SpanText

  ghost predicate Plain(cfg: Config, t: seq<nat>) {
    Simple(cfg, t) && forall k :: 0 <= k < |t| ==> Alnum(cfg, t[k]) || White(cfg, t[k])
  }

  /** A run of letters and digits that nothing extends. */
  ghost predicate IsRun(cfg: Config, t: seq<nat>, a: nat, b: nat) {
    && a < b <= |t| && (forall k :: a <= k < b ==> Alnum(cfg, t[k]))
    && (a > 0 ==> !Alnum(cfg, t[a - 1])) && (b < |t| ==> !Alnum(cfg, t[b]))
  }

  /** The end of the run that character `k` is in. */
  function RunEnd(cfg: Config, t: seq<nat>, k: nat): (b: nat)
    requires k <= |t|
    ensures k <= b <= |t| && (forall j :: k <= j < b ==> Alnum(cfg, t[j])) && (b < |t| ==> !Alnum(cfg, t[b]))
    decreases |t| - k
  {
    if k < |t| && Alnum(cfg, t[k]) then RunEnd(cfg, t, k + 1) else k
  }

  /** The runs from character `i` on. */
  function Runs(cfg: Config, t: seq<nat>, i: nat): seq<(nat, nat)>
    requires i <= |t|
    decreases |t| - i
  {
    if i == |t| then []
    else if Alnum(cfg, t[i]) then [(i, RunEnd(cfg, t, i + 1))] + Runs(cfg, t, RunEnd(cfg, t, i + 1))
    else Runs(cfg, t, i + 1)
  }

  /** No run is cut in two at `i`. */
  predicate Edge(cfg: Config, t: seq<nat>, i: nat)
    requires i <= |t|
  {
    0 < i < |t| ==> !Alnum(cfg, t[i - 1]) || !Alnum(cfg, t[i])
  }

  /** They are all the runs there are. */
  lemma {:induction false} RunsIff(cfg: Config, t: seq<nat>, i: nat, a: nat, b: nat)
    requires i <= |t| && Edge(cfg, t, i)
    ensures (a, b) in Runs(cfg, t, i) <==> i <= a && IsRun(cfg, t, a, b)
    decreases |t| - i
  {
    if i < |t| {
      if Alnum(cfg, t[i]) {
        var e := RunEnd(cfg, t, i + 1);
        RunsIff(cfg, t, e, a, b);
        assert (a, b) in Runs(cfg, t, i) <==> (a, b) == (i, e) || (a, b) in Runs(cfg, t, e);
        if i <= a && IsRun(cfg, t, a, b) {
          SameRun(cfg, t, i, e, a, b);
        }
      } else {
        RunsIff(cfg, t, i + 1, a, b);
      }
    }
  }

  lemma SameRun(cfg: Config, t: seq<nat>, i: nat, e: nat, a: nat, b: nat)
    requires IsRun(cfg, t, i, e) && IsRun(cfg, t, a, b) && i <= a
    ensures (a, b) == (i, e) || e <= a
  {
  }

  /** The run at `i` and those after it. */
  lemma {:induction false} RunsFirst(cfg: Config, t: seq<nat>, i: nat, e: nat, next: nat)
    requires i < |t| && Alnum(cfg, t[i]) && e == RunEnd(cfg, t, i + 1) && next == Min(|t|, e + 1)
    ensures i < e <= next && Runs(cfg, t, i) == [(i, e)] + Runs(cfg, t, next)
  {
    if e < |t| {
      assert Runs(cfg, t, e) == Runs(cfg, t, e + 1);
    }
  }

  /** In text order, from `i` on, with something between any two. */
  ghost predicate InOrder(t: seq<nat>, i: nat, ws: seq<(nat, nat)>) {
    && (forall k :: 0 <= k < |ws| ==> i <= ws[k].0 < ws[k].1 <= |t|)
    && forall j, k :: 0 <= j < k < |ws| ==> ws[j].1 < ws[k].0
  }

  lemma FirstInOrder(t: seq<nat>, i: nat, e: nat, next: nat, rest: seq<(nat, nat)>)
    requires i < e <= |t| && next == Min(|t|, e + 1) && InOrder(t, next, rest)
    ensures InOrder(t, i, [(i, e)] + rest)
  {
    var ws := [(i, e)] + rest;
    assert forall k :: 0 <= k < |ws| ==> ws[k] == if k == 0 then (i, e) else rest[k - 1];
  }

  /** They are in text order, with something between any two. */
  lemma {:induction false} RunsInOrder(cfg: Config, t: seq<nat>, i: nat)
    requires i <= |t|
    ensures InOrder(t, i, Runs(cfg, t, i))
    decreases |t| - i
  {
    if i < |t| {
      if Alnum(cfg, t[i]) {
        var e := RunEnd(cfg, t, i + 1);
        var next := Min(|t|, e + 1);
        RunsFirst(cfg, t, i, e, next);
        RunsInOrder(cfg, t, next);
        FirstInOrder(t, i, e, next, Runs(cfg, t, next));
      } else {
        RunsInOrder(cfg, t, i + 1);
        assert Runs(cfg, t, i) == Runs(cfg, t, i + 1);
      }
    }
  }

  predicate InText(t: seq<nat>, ws: seq<(nat, nat)>) {
    forall w :: w in ws ==> w.0 <= w.1 <= |t|
  }

  /** The terms of the runs: those that pass the length check, each at its byte offsets, the positions
      counting all but unwanted numbers. */
  function RunTerms(cfg: Config, t: seq<nat>, p: int, ws: seq<(nat, nat)>): seq<Term>
    requires InText(t, ws)
    decreases |ws|
  {
    if ws == [] then []
    else
      var (a, b) := ws[0];
      if Unwanted(cfg, t, a, b) then RunTerms(cfg, t, p, ws[1..])
      else (if Passes(cfg, Bytes(t, a, b)) then [Term(Bytes(t, a, b), p, Bpos(t, a), Bpos(t, b))] else [])
           + RunTerms(cfg, t, p + 1, ws[1..])
  }

  // Plain text is laid out in its runs.

  function LayoutsOf(ws: seq<(nat, nat)>): seq<Layout> {
    if ws == [] then [] else [Layout(false, [ws[0]], false)] + LayoutsOf(ws[1..])
  }

  lemma RunIsWord(cfg: Config, t: seq<nat>, a: nat, b: nat)
    requires Plain(cfg, t) && IsRun(cfg, t, a, b)
    ensures Joined(cfg, t, [(a, b)], false, true)
  {
    assert Begins(cfg, t, a, true);
    if b < |t| {
      assert White(cfg, t[b]);
    }
  }

  lemma {:induction false} LaidBefore(cfg: Config, t: seq<nat>, i: nat, ls: seq<Layout>)
    requires i < |t| && White(cfg, t[i]) && Laid(cfg, t, i + 1, ls)
    ensures Laid(cfg, t, i, ls)
  {
  }

  lemma {:induction false} LaidRun(cfg: Config, t: seq<nat>, a: nat, b: nat, next: nat, ls: seq<Layout>)
    requires Joined(cfg, t, [(a, b)], false, true) && next == Min(|t|, b + 1) && Laid(cfg, t, next, ls)
    ensures Laid(cfg, t, a, [Layout(false, [(a, b)], false)] + ls)
  {
    var all := [Layout(false, [(a, b)], false)] + ls;
    assert all[1..] == ls;
  }

  lemma {:induction false} FirstLayout(w: (nat, nat), rest: seq<(nat, nat)>)
    ensures LayoutsOf([w] + rest) == [Layout(false, [w], false)] + LayoutsOf(rest)
  {
    assert ([w] + rest)[1..] == rest && ([w] + rest)[0] == w;
  }

  lemma {:induction false} PlainLaid(cfg: Config, t: seq<nat>, i: nat)
    requires Plain(cfg, t) && i <= |t| && (0 < i < |t| ==> !Alnum(cfg, t[i - 1]))
    ensures Laid(cfg, t, i, LayoutsOf(Runs(cfg, t, i)))
    decreases |t| - i
  {
    if i < |t| {
      if Alnum(cfg, t[i]) {
        var e := RunEnd(cfg, t, i + 1);
        var next := Min(|t|, e + 1);
        RunIsWord(cfg, t, i, e);
        RunsFirst(cfg, t, i, e, next);
        PlainLaid(cfg, t, next);
        LaidRun(cfg, t, i, e, next, LayoutsOf(Runs(cfg, t, next)));
        FirstLayout((i, e), Runs(cfg, t, next));
      } else {
        PlainLaid(cfg, t, i + 1);
        LaidBefore(cfg, t, i, LayoutsOf(Runs(cfg, t, i + 1)));
      }
    }
  }

  // What one run gives.

  lemma {:induction false} NoDots(cfg: Config, t: seq<nat>, a: nat, b: nat)
    requires a <= b <= |t| && forall k :: a <= k < b ==> t[k] != '.' as nat
    ensures forall x :: x in Bytes(t, a, b) ==> x.c != '.' as nat
    decreases b
  {
    if a < b {
      NoDots(cfg, t, a, b - 1);
    }
  }

  /** A span of one word without dots gives the word in every mode. */
  lemma {:induction false} OneWord(cfg: Config, mode: Mode, span: seq<Octet>, p: int, bp: int)
    requires |span| > 0 && forall x :: x in span ==> x.c != '.' as nat
    ensures GoodSpan(span, [Range(0, |span|)])
    ensures Offered(cfg, mode, span, [Range(0, |span|)], p, bp) == [Term(span, p, bp - |span|, bp)]
  {
    var words := [Range(0, |span|)];
    assert forall k :: 0 <= k < |span| ==> span[k] in span;
    assert !StartsInitials(span) && !IsInitials(span);
    assert TermsFrom(mode, span, words, 1, p, bp - |span|) == [];
    assert span[0..|span|] == span;
    assert TermsAt(mode, span, words, 0, p, bp - |span|) == [WordTerm(span, words, 0, 0, p, bp - |span|)];
  }

  lemma BytesOfRun(cfg: Config, t: seq<nat>, a: nat, b: nat)
    requires Plain(cfg, t) && IsRun(cfg, t, a, b)
    ensures |Bytes(t, a, b)| == Bpos(t, b) - Bpos(t, a) > 0
    ensures forall x :: x in Bytes(t, a, b) ==> x.c != '.' as nat
  {
    BytesLong(t, a, b);
    NoDots(cfg, t, a, b);
  }

  /** The span of one run. */
  function RunEvent(cfg: Config, t: seq<nat>, p: int, a: nat, b: nat): Event
    requires a <= b <= |t|
  {
    SpanEvent(Bytes(t, a, b), if Unwanted(cfg, t, a, b) then [] else [Range(0, |Bytes(t, a, b)|)], p, Bpos(t, b))
  }

  /** What a run gives, an unwanted number nothing. */
  lemma {:induction false} RunGives(cfg: Config, mode: Mode, t: seq<nat>, p: int, a: nat, b: nat, rest: seq<Event>,
                                    terms: seq<Term>)
    requires Plain(cfg, t) && IsRun(cfg, t, a, b) && SpansGive(cfg, mode, t, rest, terms)
    ensures SpansGive(cfg, mode, t, [RunEvent(cfg, t, p, a, b)] + rest,
                  (if !Unwanted(cfg, t, a, b) && Passes(cfg, Bytes(t, a, b))
                   then [Term(Bytes(t, a, b), p, Bpos(t, a), Bpos(t, b))] else []) + terms)
  {
    var e := RunEvent(cfg, t, p, a, b);
    BytesOfRun(cfg, t, a, b);
    if Unwanted(cfg, t, a, b) {
      SpanGivesNone(cfg, mode, t, e, rest, terms);
      assert [] + terms == terms;
    } else {
      OneWord(cfg, mode, e.span, p, e.bp);
      PassingOne(cfg, Term(e.span, p, e.bp - |e.span|, e.bp));
      SpanGivesMore(cfg, mode, t, e, rest, Passing(cfg, [Term(e.span, p, e.bp - |e.span|, e.bp)]), terms);
    }
  }

  lemma {:induction false} PassingOne(cfg: Config, term: Term)
    ensures Passing(cfg, [term]) == if Passes(cfg, term.word) then [term] else []
  {
    assert [term][1..] == [];
  }

  lemma {:induction false} RunSpans(cfg: Config, t: seq<nat>, p: int, ws: seq<(nat, nat)>, a: nat, b: nat, p': int)
    requires ws != [] && AllFit(t, LayoutsOf(ws)) && ws[0] == (a, b) && a <= b <= |t|
    requires p' == if Unwanted(cfg, t, a, b) then p else p + 1
    ensures AllFit(t, LayoutsOf(ws[1..]))
    ensures LayoutSpans(cfg, t, p, LayoutsOf(ws)) ==
            [RunEvent(cfg, t, p, a, b)] + LayoutSpans(cfg, t, p', LayoutsOf(ws[1..]))
  {
    var ls := LayoutsOf(ws);
    assert ls[0] == Layout(false, [(a, b)], false) && ls[1..] == LayoutsOf(ws[1..]);
    assert forall x :: x in ls[1..] ==> x in ls;
    OneWanted(cfg, t, a, b);
    SpansOfFirst(cfg, t, p, ls, p');
    OneEvent(cfg, t, p, a, b);
  }

  lemma {:induction false} OneWanted(cfg: Config, t: seq<nat>, a: nat, b: nat)
    requires a <= b <= |t|
    ensures Wanted(cfg, t, [(a, b)]) == if Unwanted(cfg, t, a, b) then 0 else 1
  {
    assert [(a, b)][1..] == [];
  }

  lemma {:induction false} OneEvent(cfg: Config, t: seq<nat>, p: int, a: nat, b: nat)
    requires a <= b <= |t|
    ensures SpansFrom(cfg, t, [], [], p, [(a, b)], false) == [RunEvent(cfg, t, p, a, b)]
  {
    var here := Bytes(t, a, b);
    SpansOfLast(cfg, t, [], [], p, [(a, b)], false, a, b);
    assert [] + here + [] == here && [] + [Range(0, |here|)] == [Range(0, |here|)];
  }

  lemma {:induction false} RunTermsFirst(cfg: Config, t: seq<nat>, p: int, ws: seq<(nat, nat)>, a: nat, b: nat, p': int)
    requires ws != [] && InText(t, ws) && InText(t, ws[1..]) && ws[0] == (a, b) && a <= b <= |t|
    requires p' == if Unwanted(cfg, t, a, b) then p else p + 1
    ensures RunTerms(cfg, t, p, ws) ==
            (if !Unwanted(cfg, t, a, b) && Passes(cfg, Bytes(t, a, b))
             then [Term(Bytes(t, a, b), p, Bpos(t, a), Bpos(t, b))] else []) + RunTerms(cfg, t, p', ws[1..])
  {
    assert [] + RunTerms(cfg, t, p', ws[1..]) == RunTerms(cfg, t, p', ws[1..]);
  }

  lemma {:induction false} RunsGive(cfg: Config, mode: Mode, t: seq<nat>, p: int, ws: seq<(nat, nat)>)
    requires Plain(cfg, t) && AllFit(t, LayoutsOf(ws)) && InText(t, ws)
    requires forall w :: w in ws ==> IsRun(cfg, t, w.0, w.1)
    ensures SpansGive(cfg, mode, t, LayoutSpans(cfg, t, p, LayoutsOf(ws)), RunTerms(cfg, t, p, ws))
    decreases |ws|
  {
    if ws == [] {
      SpansGiveIs(cfg, mode, t, [], []);
    } else {
      var (a, b) := ws[0];
      assert ws[0] in ws && forall w :: w in ws[1..] ==> w in ws;
      var p' := if Unwanted(cfg, t, a, b) then p else p + 1;
      RunSpans(cfg, t, p, ws, a, b, p');
      RunsGive(cfg, mode, t, p', ws[1..]);
      RunGives(cfg, mode, t, p, a, b, LayoutSpans(cfg, t, p', LayoutsOf(ws[1..])), RunTerms(cfg, t, p', ws[1..]));
      RunTermsFirst(cfg, t, p, ws, a, b, p');
    }
  }

  /** The terms of plain text, in every mode, are exactly its runs that pass the length check, in order, at
      consecutive positions and at their byte offsets. */
  lemma {:induction false} PlainTerms(cfg: Config, mode: Mode, t: seq<nat>)
    requires cfg.ngramLen > 0 && Plain(cfg, t)
    ensures InText(t, Runs(cfg, t, 0)) && InOrder(t, 0, Runs(cfg, t, 0)) && forall w :: w in Runs(cfg, t, 0) <==> IsRun(cfg, t, w.0, w.1)
    ensures Terms(cfg, mode, t) == RunTerms(cfg, t, 0, Runs(cfg, t, 0))
  {
    var ws := Runs(cfg, t, 0);
    forall w: (nat, nat) ensures w in ws <==> IsRun(cfg, t, w.0, w.1) {
      RunsIff(cfg, t, 0, w.0, w.1);
    }
    RunsInOrder(cfg, t, 0);
    PlainLaid(cfg, t, 0);
    LaidTerms(cfg, mode, t, LayoutsOf(ws));
    RunsGive(cfg, mode, t, 0, ws);
    SpansGiveIs(cfg, mode, t, LayoutSpans(cfg, t, 0, LayoutsOf(ws)), RunTerms(cfg, t, 0, ws));
  }
}
