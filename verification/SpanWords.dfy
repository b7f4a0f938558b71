/** What the span machine finds in a text, said of the text itself: words, what joins them into a span, what
    separates spans. A text that is laid out that way gives exactly the spans of the layout. */
module SpanWords {
  import opened Closed
  import opened SplitText
  import opened NGrams
  import opened SpanSpec
  import opened SpanInvariant

  // Characters.

  predicate IsDigit(c: nat) {
    '0' as nat <= c <= '9' as nat
  }

  /** Hyphen and quotes beyond ASCII. */
  predicate IsTypographic(c: nat) {
    c == 0x2010 || c == 0x2019 || c == 0x275c || c == 0x02bc
  }

  /** A letter or digit, or what the configuration takes for one. */
  predicate Alnum(cfg: Config, c: nat) {
    if c <= 127 then
      || IsAsciiLetter(c) || IsDigit(c)
      || (c == '\\' as nat && cfg.backslashAsLetter) || (c == '_' as nat && cfg.underscoreAsLetter)
    else !IsTypographic(c) && cfg.table(c) == TableLetter
  }

  predicate IsSign(c: nat) {
    c == '+' as nat || c == '-' as nat
  }

  /** At-sign, underscore and the quotes. */
  predicate IsLink(cfg: Config, c: nat) {
    c == '@' as nat || c == '\'' as nat || (c == '_' as nat && !cfg.underscoreAsLetter) || IsTypographic(c)
  }

  /** All that separates: blanks, line ends, and the punctuation that means nothing more. */
  predicate White(cfg: Config, c: nat) {
    if c <= 127 then !Alnum(cfg, c) && !IsSign(c) && !IsLink(cfg, c) && c != '.' as nat && c != '#' as nat
    else !IsTypographic(c) && cfg.table(c) == TableSpace
  }

  /** A character that is left out wherever it stands. */
  predicate Skipped(cfg: Config, c: nat) {
    c > 127 && !IsTypographic(c) && cfg.table(c) == TableSkip
  }

  predicate AlnumNext(cfg: Config, t: seq<nat>, k: nat) {
    k + 1 < |t| && Alnum(cfg, t[k + 1])
  }

  predicate DigitNext(t: seq<nat>, k: nat) {
    k + 1 < |t| && IsDigit(t[k + 1])
  }

  predicate BlankNext(cfg: Config, t: seq<nat>, k: nat) {
    k + 1 >= |t| || cfg.visibleWhite(t[k + 1])
  }

  /** What a number sign may end a word before: a separator, but no wildcard or form feed. */
  predicate SeparatorNext(cfg: Config, t: seq<nat>, k: nat) {
    k + 1 >= |t| || (White(cfg, t[k + 1]) && t[k + 1] !in {'*' as nat, '?' as nat, '[' as nat, ']' as nat, 12})
  }

  // Words.

  predicate IsExponent(c: nat) {
    c == 'e' as nat || c == 'E' as nat
  }

  /** Do characters `a` to `k` look like the beginning of a number: a digit, sign or dot first, and no letter
      but an exponent after it? */
  predicate Number(cfg: Config, t: seq<nat>, a: nat, k: nat)
    requires k <= |t|
  {
    && a < k && (IsDigit(t[a]) || IsSign(t[a]) || t[a] == '.' as nat)
    && forall j :: a < j < k && Alnum(cfg, t[j]) ==> IsDigit(t[j]) || IsExponent(t[j])
  }

  /** Can a word begin with character `a`? A dot begins one only at the beginning of a span. */
  predicate Begins(cfg: Config, t: seq<nat>, a: nat, first: bool)
    requires a < |t|
  {
    || Alnum(cfg, t[a])
    || (IsSign(t[a]) && DigitNext(t, a))
    || (t[a] == '#' as nat && AlnumNext(cfg, t, a))
    || (first && t[a] == '.' as nat && DigitNext(t, a))
  }

  /** Does the word that began at `a` go on with character `k`? With a letter or digit; in a number also with
      a dot before a digit and with the sign of an exponent; with both of two plus signs at the end, and with
      a number sign at the end. */
  predicate GoesOn(cfg: Config, t: seq<nat>, a: nat, k: nat)
    requires a < k < |t|
  {
    var bare := Number(cfg, t, a, k) && !cfg.numberDashSpans;
    || Alnum(cfg, t[k])
    || (t[k] == '.' as nat && Number(cfg, t, a, k) && DigitNext(t, k))
    || (IsSign(t[k]) && bare && IsExponent(t[k - 1]) && DigitNext(t, k))
    || (t[k] == '+' as nat && !bare
        && if t[k - 1] == '+' as nat then BlankNext(cfg, t, k) else k + 1 < |t| && t[k + 1] == '+' as nat)
    || (t[k] == '#' as nat && SeparatorNext(cfg, t, k))
  }

  /** Characters `a` to `k` are the beginning of a word. */
  ghost predicate WordTo(cfg: Config, t: seq<nat>, a: nat, k: nat, first: bool) {
    a < k <= |t| && Begins(cfg, t, a, first) && forall j :: a < j < k ==> GoesOn(cfg, t, a, j)
  }

  /** They are a whole word. */
  ghost predicate Word(cfg: Config, t: seq<nat>, a: nat, b: nat, first: bool) {
    WordTo(cfg, t, a, b, first) && (b < |t| ==> !GoesOn(cfg, t, a, b))
  }

  /** The word is a number and numbers are not wanted. */
  predicate Unwanted(cfg: Config, t: seq<nat>, a: nat, b: nat)
    requires b <= |t|
  {
    cfg.noNumbers && Number(cfg, t, a, b)
  }

  /** Does the character after the word from `a` to `b` join it to the next one? */
  predicate Joins(cfg: Config, t: seq<nat>, a: nat, b: nat)
    requires b < |t|
  {
    || (IsLink(cfg, t[b]) && !BlankNext(cfg, t, b))
    || (t[b] == '-' as nat && !(Number(cfg, t, a, b) && !cfg.numberDashSpans) && !BlankNext(cfg, t, b))
    || (t[b] == '.' as nat && !Number(cfg, t, a, b) && AlnumNext(cfg, t, b))
  }

  /** Is it the dot at the end of a sentence or of an abbreviation? */
  predicate FullStop(cfg: Config, t: seq<nat>, a: nat, b: nat)
    requires b < |t|
  {
    t[b] == '.' as nat && !Number(cfg, t, a, b) && !AlnumNext(cfg, t, b)
  }

  /** A span: whether a dot comes before it, its words as characters, and whether a full stop follows. */
  datatype Layout = Layout(dot: bool, words: seq<(nat, nat)>, stop: bool)

  /** From the word that begins the list: each is a whole word, the next one begins just after what joins the
      two, and the last one is not joined to anything. */
  ghost predicate Joined(cfg: Config, t: seq<nat>, ws: seq<(nat, nat)>, stop: bool, first: bool)
    decreases |ws|
  {
    && ws != [] && Word(cfg, t, ws[0].0, ws[0].1, first)
    && var (a, b) := ws[0];
       if |ws| > 1 then b < |t| && Joins(cfg, t, a, b) && ws[1].0 == b + 1 && Joined(cfg, t, ws[1..], stop, false)
       else if stop then b < |t| && FullStop(cfg, t, a, b)
       else b < |t| ==> !Joins(cfg, t, a, b) && !FullStop(cfg, t, a, b)
  }

  /** A character that means nothing where no span has begun. */
  predicate Separates(cfg: Config, t: seq<nat>, k: nat)
    requires k < |t|
  {
    || White(cfg, t[k]) || IsLink(cfg, t[k]) || (IsSign(t[k]) && !DigitNext(t, k))
    || (t[k] == '#' as nat && !AlnumNext(cfg, t, k))
  }

  function Min(a: nat, b: nat): nat {
    if a <= b then a else b
  }

  /** There is no word between `i` and `j`. A dot there takes the next character with it. */
  predicate Gap(cfg: Config, t: seq<nat>, i: nat, j: nat)
    requires j <= |t|
    decreases j - i
  {
    i == j ||
    (i < j && if t[i] == '.' as nat then !AlnumNext(cfg, t, i) && Gap(cfg, t, Min(i + 2, |t|), j)
              else Separates(cfg, t, i) && Gap(cfg, t, i + 1, j))
  }

  /** Where reading goes on after the span. The full stop and what ends the span are taken with it. */
  function Past(t: seq<nat>, ws: seq<(nat, nat)>, stop: bool): nat
    requires ws != []
  {
    Min(|t|, ws[|ws| - 1].1 + (if stop then 2 else 1))
  }

  /** A dot that begins a span: a letter follows. A dot before a digit belongs to the number. */
  predicate Leading(cfg: Config, t: seq<nat>, i: nat) {
    i < |t| && t[i] == '.' as nat && AlnumNext(cfg, t, i) && !DigitNext(t, i)
  }

  function Start(l: Layout): int
    requires l.words != []
  {
    l.words[0].0 as int - (if l.dot then 1 else 0)
  }

  /** From `i` on the text is these spans with gaps before, between and after them. */
  ghost predicate Laid(cfg: Config, t: seq<nat>, i: nat, ls: seq<Layout>)
    decreases |ls|
  {
    if ls == [] then i <= |t| && Gap(cfg, t, i, |t|)
    else
      && Joined(cfg, t, ls[0].words, ls[0].stop, !ls[0].dot)
      && i <= Start(ls[0]) && Gap(cfg, t, i, Start(ls[0])) && (ls[0].dot ==> Leading(cfg, t, Start(ls[0])))
      && Laid(cfg, t, Past(t, ls[0].words, ls[0].stop), ls[1..])
  }

  /** No character is left out, belongs to the n-gram splitter, or is indexed as punctuation. */
  ghost predicate Simple(cfg: Config, t: seq<nat>) {
    forall k :: 0 <= k < |t| ==> !Skipped(cfg, t[k]) && !IsNgrammed(t[k]) && !cfg.indexedPunctuation(t[k])
  }

  // The spans of a layout.

  /** The words seen with one more. `span` is what comes before it in the span. */
  function More(cfg: Config, t: seq<nat>, span: seq<Octet>, words: seq<Range>, a: nat, b: nat): seq<Range>
    requires a <= b <= |t|
  {
    if Unwanted(cfg, t, a, b) then words else words + [Range(|span|, |span| + |Bytes(t, a, b)|)]
  }

  /** Words in the text, with a character after each but perhaps the last. */
  predicate Fits(t: seq<nat>, ws: seq<(nat, nat)>, stop: bool) {
    && (forall w :: w in ws ==> w.0 <= w.1 <= |t|)
    && (forall k :: 0 <= k < |ws| && (k < |ws| - 1 || stop) ==> ws[k].1 < |t|)
  }

  /** The spans that joined words give, `span` and `words` being what the span has already and `p` its
      position. A span that has as many words as allowed ends before what joins it to the next word. */
  function SpansFrom(cfg: Config, t: seq<nat>, span: seq<Octet>, words: seq<Range>, p: int, ws: seq<(nat, nat)>,
                     stop: bool): seq<Event>
    requires ws != [] && Fits(t, ws, stop)
    decreases |ws|
  {
    var (a, b) := ws[0];
    assert forall k :: 1 <= k < |ws| ==> ws[1..][k - 1] == ws[k];
    var s, r := span + Bytes(t, a, b), More(cfg, t, span, words, a, b);
    if |ws| == 1 then
      if stop then [SpanEvent(s + Enc(t[b]), r, p, Bpos(t, b + 1))] else [SpanEvent(s, r, p, Bpos(t, b))]
    else if |r| >= cfg.maxWordsInSpan then
      [SpanEvent(s, r, p, Bpos(t, b))] + SpansFrom(cfg, t, Enc(t[b]), [], p + WordCount(r), ws[1..], stop)
    else SpansFrom(cfg, t, s + Enc(t[b]), r, p, ws[1..], stop)
  }

  /** How many of the words count. */
  function Wanted(cfg: Config, t: seq<nat>, ws: seq<(nat, nat)>): nat
    requires forall w :: w in ws ==> w.0 <= w.1 <= |t|
  {
    if ws == [] then 0 else (if Unwanted(cfg, t, ws[0].0, ws[0].1) then 0 else 1) + Wanted(cfg, t, ws[1..])
  }

  /** What a span has before its first word. A leading dot counts as an empty word at the same position. */
  function Head(l: Layout): seq<Octet> {
    if l.dot then Enc('.' as nat) else []
  }

  function HeadWords(l: Layout): seq<Range> {
    if l.dot then [Range(0, 0)] else []
  }

  predicate AllFit(t: seq<nat>, ls: seq<Layout>) {
    forall l :: l in ls ==> l.words != [] && Fits(t, l.words, l.stop)
  }

  /** The spans of a layout, the first one at position `p`. */
  function LayoutSpans(cfg: Config, t: seq<nat>, p: int, ls: seq<Layout>): seq<Event>
    requires AllFit(t, ls)
    decreases |ls|
  {
    if ls == [] then []
    else SpansFrom(cfg, t, Head(ls[0]), HeadWords(ls[0]), p, ls[0].words, ls[0].stop) +
         LayoutSpans(cfg, t, p + Wanted(cfg, t, ls[0].words), ls[1..])
  }

  // From the machine to the text: classes.

  lemma AlnumIff(cfg: Config, c: nat)
    ensures IsAlnum(WhatCc(cfg, c)) <==> Alnum(cfg, c)
    ensures WhatCc(cfg, c) == Digit <==> IsDigit(c)
  {
  }

  lemma SkippedIff(cfg: Config, c: nat)
    ensures WhatCc(cfg, c) == Skip <==> Skipped(cfg, c)
  {
  }

  lemma WhiteIs(cfg: Config, c: nat)
    requires White(cfg, c)
    ensures WhatCc(cfg, c) in {Space, Wild, Own('\n' as int), Own('\r' as int), Own('\U{c}' as int)}
    ensures WhatCc(cfg, c) in {Space, Own('\n' as int), Own('\r' as int)} <==>
            c !in {'*' as nat, '?' as nat, '[' as nat, ']' as nat, 12}
  {
  }

  lemma SignIs(cfg: Config, c: nat)
    requires IsSign(c) || c == '.' as nat || c == '#' as nat
    ensures WhatCc(cfg, c) == Own(c)
  {
  }

  lemma LinkIs(cfg: Config, c: nat)
    requires IsLink(cfg, c)
    ensures WhatCc(cfg, c) == Own(c) && !IsSign(c) && c != '.' as nat && c != '#' as nat
    ensures c !in {'\n' as nat, '\r' as nat, '\U{c}' as nat}
  {
  }

  /** Every character is one of these. */
  lemma Kinds(cfg: Config, c: nat)
    ensures Alnum(cfg, c) || White(cfg, c) || IsSign(c) || IsLink(cfg, c) || c == '.' as nat || c == '#' as nat
            || Skipped(cfg, c)
  {
  }

  lemma NextClass(cfg: Config, t: seq<nat>, k: nat)
    requires k < |t|
    ensures IsAlnum(WhatCc(cfg, Peek(t, k))) <==> AlnumNext(cfg, t, k)
    ensures WhatCc(cfg, Peek(t, k)) == Digit <==> DigitNext(t, k)
    ensures AtWhite(cfg, Peek(t, k)) <==> BlankNext(cfg, t, k)
  {
    if k + 1 < |t| {
      AlnumIff(cfg, t[k + 1]);
    }
  }

  lemma SeparatorClass(cfg: Config, t: seq<nat>, k: nat)
    requires k < |t| && (k + 1 < |t| ==> !Skipped(cfg, t[k + 1]))
    ensures WhatCc(cfg, Peek(t, k)) in {Space, Own('\n' as int), Own('\r' as int)} <==> SeparatorNext(cfg, t, k)
  {
    if k + 1 < |t| {
      var c := t[k + 1];
      Kinds(cfg, c);
      AlnumIff(cfg, c);
      if White(cfg, c) {
        WhiteIs(cfg, c);
      } else if IsLink(cfg, c) {
        LinkIs(cfg, c);
      } else if !Alnum(cfg, c) {
        SignIs(cfg, c);
      }
    }
  }
}
