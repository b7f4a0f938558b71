/** What is one word and what joins words: runs of letters and digits around glue, signed and decimal numbers,
    exponents, number signs, plus signs and full stops. */
module NumberText {
  import opened SplitText
  import opened NGrams
  import opened SpanSpec
  import opened SpanInvariant
  import opened SpanTerms
  import opened Agreement
  import opened NGramRuns
  import opened TermRows
  import opened SpanWords
  import opened GluedText

  ghost predicate AllAlnum(cfg: Config, t: seq<nat>, a: nat, b: nat) {
    a < b <= |t| && forall k :: a <= k < b ==> Alnum(cfg, t[k])
  }

  ghost predicate AllDigits(t: seq<nat>, a: nat, b: nat) {
    a < b <= |t| && forall k :: a <= k < b ==> IsDigit(t[k])
  }

  /** The end of the text or a separator. */
  predicate Ends(cfg: Config, t: seq<nat>, b: nat) {
    b < |t| ==> White(cfg, t[b])
  }

  /** One of the characters that join words stands at `b`, and a letter or digit after it. A dot does not join a
      number to anything, and a hyphen only if the configuration says so. */
  predicate GlueAt(cfg: Config, t: seq<nat>, a: nat, b: nat)
    requires a <= b
  {
    && b + 1 < |t| && Alnum(cfg, t[b + 1]) && !cfg.visibleWhite(t[b + 1])
    && (|| IsLink(cfg, t[b])
        || (t[b] == '-' as nat && (Number(cfg, t, a, b) ==> cfg.numberDashSpans))
        || (t[b] == '.' as nat && !Number(cfg, t, a, b)))
  }

  /** Runs of letters and digits with glue between them. */
  ghost predicate GluedRuns(cfg: Config, t: seq<nat>, ws: seq<(nat, nat)>)
    decreases |ws|
  {
    && ws != [] && AllAlnum(cfg, t, ws[0].0, ws[0].1)
    && if |ws| == 1 then Ends(cfg, t, ws[0].1)
       else GlueAt(cfg, t, ws[0].0, ws[0].1) && ws[1].0 == ws[0].1 + 1 && GluedRuns(cfg, t, ws[1..])
  }

  lemma GlueJoins(cfg: Config, t: seq<nat>, a: nat, b: nat)
    requires a < b && GlueAt(cfg, t, a, b)
    ensures Joins(cfg, t, a, b) && !GoesOn(cfg, t, a, b)
  {
  }

  lemma WhiteStops(cfg: Config, t: seq<nat>, a: nat, b: nat)
    requires a < b <= |t| && Ends(cfg, t, b)
    ensures b < |t| ==> !GoesOn(cfg, t, a, b) && !Joins(cfg, t, a, b) && !FullStop(cfg, t, a, b)
  {
  }

  /** Runs of letters and digits around glue are the words of one span. */
  lemma {:induction false} GluedRunsJoined(cfg: Config, t: seq<nat>, ws: seq<(nat, nat)>, first: bool)
    requires GluedRuns(cfg, t, ws)
    ensures Joined(cfg, t, ws, false, first)
    decreases |ws|
  {
    var (a, b) := ws[0];
    if |ws| > 1 {
      GlueJoins(cfg, t, a, b);
      GluedRunsJoined(cfg, t, ws[1..], false);
    } else {
      WhiteStops(cfg, t, a, b);
    }
  }

  /** One word and nothing else, between separators. */
  ghost predicate Alone(cfg: Config, t: seq<nat>, a: nat, b: nat) {
    Joined(cfg, t, [(a, b)], false, true)
  }

  lemma StandsAlone(cfg: Config, t: seq<nat>, a: nat, b: nat)
    requires WordTo(cfg, t, a, b, true) && Ends(cfg, t, b)
    ensures Alone(cfg, t, a, b)
  {
    WhiteStops(cfg, t, a, b);
  }

  lemma DigitIsAlnum(cfg: Config, t: seq<nat>, a: nat, b: nat)
    requires AllDigits(t, a, b)
    ensures AllAlnum(cfg, t, a, b)
  {
  }

  /** A sign and digits are one word, the sign part of it, and a number. */
  lemma SignedNumber(cfg: Config, t: seq<nat>, a: nat, b: nat)
    requires a < |t| && IsSign(t[a]) && AllDigits(t, a + 1, b) && Ends(cfg, t, b)
    ensures Alone(cfg, t, a, b) && Number(cfg, t, a, b)
  {
    DigitIsAlnum(cfg, t, a + 1, b);
    assert IsDigit(t[a + 1]);
    StandsAlone(cfg, t, a, b);
  }

  /** Digits around a dot are one word and a number, also when nothing stands before the dot. */
  lemma DecimalPoint(cfg: Config, t: seq<nat>, a: nat, d: nat, b: nat)
    requires a <= d < |t| && (a < d ==> AllDigits(t, a, d)) && t[d] == '.' as nat && AllDigits(t, d + 1, b)
    requires Ends(cfg, t, b)
    ensures Alone(cfg, t, a, b) && Number(cfg, t, a, b)
  {
    assert IsDigit(t[d + 1]);
    StandsAlone(cfg, t, a, b);
  }

  /** Digits, an exponent with a sign, and digits are one word, unless hyphens join numbers. */
  lemma Exponent(cfg: Config, t: seq<nat>, a: nat, e: nat, b: nat)
    requires AllDigits(t, a, e) && e + 1 < |t| && IsExponent(t[e]) && IsSign(t[e + 1]) && AllDigits(t, e + 2, b)
    requires Ends(cfg, t, b) && !cfg.numberDashSpans
    ensures Alone(cfg, t, a, b) && Number(cfg, t, a, b)
  {
    assert IsDigit(t[e + 2]);
    StandsAlone(cfg, t, a, b);
  }

  /** A number sign before a run of letters and digits belongs to the word, and so does one after it before a
      separator. */
  lemma NumberSign(cfg: Config, t: seq<nat>, a: nat, b: nat)
    requires a < |t| && b <= |t| && Ends(cfg, t, b)
    requires || (t[a] == '#' as nat && AllAlnum(cfg, t, a + 1, b))
             || (b > 0 && t[b - 1] == '#' as nat && AllAlnum(cfg, t, a, b - 1) && SeparatorNext(cfg, t, b - 1))
    ensures Alone(cfg, t, a, b)
  {
    StandsAlone(cfg, t, a, b);
  }

  /** Two plus signs at the end of a word that is no number belong to it. */
  lemma TwoPlusSigns(cfg: Config, t: seq<nat>, a: nat, b: nat)
    requires b >= 2 && AllAlnum(cfg, t, a, b - 2) && b <= |t| && t[b - 2] == '+' as nat && t[b - 1] == '+' as nat
    requires !Number(cfg, t, a, b - 2) && Ends(cfg, t, b) && (b < |t| ==> cfg.visibleWhite(t[b]))
    ensures Alone(cfg, t, a, b)
  {
    StandsAlone(cfg, t, a, b);
  }

  /** A dot after a word that is no number ends the span and is its last character, unless a letter or digit
      follows. */
  lemma DotEnds(cfg: Config, t: seq<nat>, a: nat, b: nat)
    requires AllAlnum(cfg, t, a, b) && b < |t| && t[b] == '.' as nat && !Number(cfg, t, a, b) && !AlnumNext(cfg, t, b)
    ensures Joined(cfg, t, [(a, b)], true, true)
  {
  }

  // A text of one span between separators.

  ghost predicate AllWhite(cfg: Config, t: seq<nat>, i: nat, j: nat) {
    i <= j <= |t| && forall k :: i <= k < j ==> White(cfg, t[k])
  }

  lemma {:induction false} WhiteGap(cfg: Config, t: seq<nat>, i: nat, j: nat)
    requires AllWhite(cfg, t, i, j)
    ensures Gap(cfg, t, i, j)
    decreases j - i
  {
    if i < j {
      WhiteGap(cfg, t, i + 1, j);
    }
  }

  ghost predicate OneSpan(cfg: Config, t: seq<nat>, ws: seq<(nat, nat)>) {
    && Simple(cfg, t) && GluedRuns(cfg, t, ws) && ws[|ws| - 1].1 <= |t|
    && AllWhite(cfg, t, 0, ws[0].0) && AllWhite(cfg, t, ws[|ws| - 1].1, |t|)
    && AllWanted(cfg, t, ws) && |ws| <= cfg.maxWordsInSpan
  }

  lemma {:induction false} OneSpanLaid(cfg: Config, t: seq<nat>, ws: seq<(nat, nat)>, l: Layout)
    requires OneSpan(cfg, t, ws) && l == Layout(false, ws, false)
    ensures Laid(cfg, t, 0, [l])
  {
    GluedRunsJoined(cfg, t, ws, true);
    WhiteGap(cfg, t, 0, ws[0].0);
    WhiteGap(cfg, t, Past(t, ws, false), |t|);
    assert [l][1..] == [] && Laid(cfg, t, Past(t, ws, false), []);
  }

  lemma {:induction false} OneSpanUsual(cfg: Config, t: seq<nat>, ws: seq<(nat, nat)>, l: Layout)
    requires OneSpan(cfg, t, ws) && l == Layout(false, ws, false)
    ensures Usual(cfg, t, l) && AllUsual(cfg, t, [l]) && AllUsual(cfg, t, [])
    ensures Chained(t, ws) && Start(l) == ws[0].0 <= End(ws, false) == ws[|ws| - 1].1
  {
    GluedRunsJoined(cfg, t, ws, true);
    assert AllWords(l) == ws;
    UsualFits(cfg, t, l);
  }

  /** A text that is runs of letters and digits with glue between them, and separators around it: in the
      indexing mode its terms are, length check passed, the stretches of text from any run to any later one,
      the letters of an acronym, and two runs without the hyphen between them. */
  lemma {:induction false} GluedTerms(cfg: Config, t: seq<nat>, ws: seq<(nat, nat)>, l: Layout, term: Term)
    requires cfg.ngramLen > 0 && OneSpan(cfg, t, ws) && l == Layout(false, ws, false)
    ensures 0 <= Start(l) <= End(ws, false) <= |t|
    ensures term in Terms(cfg, DEFAULT, t) <==> Passes(cfg, term.word) && Given(cfg, t, 0, l, term)
  {
    OneSpanLaid(cfg, t, ws, l);
    OneSpanUsual(cfg, t, ws, l);
    TextIff(cfg, t, [l], term);
    assert [l][1..] == [];
    GivenByFirst(cfg, t, 0, [l], l, |ws|, term);
  }

  /** In the other modes they are these runs or the whole, those that pass, in order and after the letters of an
      acronym or two runs without their hyphen. */
  lemma {:induction false} GluedWords(cfg: Config, mode: Mode, t: seq<nat>, ws: seq<(nat, nat)>, l: Layout)
    requires cfg.ngramLen > 0 && OneSpan(cfg, t, ws) && l == Layout(false, ws, false) && mode != DEFAULT
    ensures Chained(t, ws) && 0 <= Start(l) <= End(ws, false) <= |t|
    ensures Terms(cfg, mode, t) == LayoutTerms(cfg, mode, t, 0, l)
  {
    OneSpanLaid(cfg, t, ws, l);
    OneSpanUsual(cfg, t, ws, l);
    TextModes(cfg, mode, t, [l]);
    assert [l][1..] == [];
    TextTermsFirst(cfg, mode, t, 0, [l], l, |ws|);
    NoMore(LayoutTerms(cfg, mode, t, 0, l));
  }

  lemma NoMore(terms: seq<Term>)
    ensures terms + [] == terms
  {
  }
}
