/** Text as the term splitter sees it: code points, the bytes they take, and their classes. */
module SplitText {

  /** A term given to the consumer: its bytes, its position, and its byte extent in the text. */
  datatype Term = Term(word: seq<Octet>, pos: int, bts: int, bte: int)

  /** Splitter output flags. */
  datatype Mode = Mode(onlyspans: bool, nospans: bool)

  /** What the Unicode tables say about a character above ASCII. */
  datatype Table = TableLetter | TableSpace | TableSkip

  /** Character classes; `Own` characters are handled one by one. */
  datatype Class = Letter | Space | Digit | Wild | Upper | Lower | Skip | Own(c: int)

  /** Splitter configuration and character tables. */
  datatype Config = Config(
    processCjk: bool, ngramLen: nat, noNumbers: bool, deHyphenate: bool, numberDashSpans: bool,
    maxWordLength: nat, maxWordsInSpan: nat, backslashAsLetter: bool, underscoreAsLetter: bool,
    table: int -> Table, visibleWhite: int -> bool, indexedPunctuation: int -> bool)

  /** One byte of UTF-8 text: byte number `k` of the encoding of code point `c`. The values of the
      bytes of longer encodings never matter to the splitter. */
  datatype Octet = Octet(c: nat, k: nat)

  /** How many bytes UTF-8 takes for a code point. */
  function Width(c: nat): (w: nat)
    ensures 1 <= w <= 4
  {
    if c < 0x80 then 1 else if c < 0x800 then 2 else if c < 0x10000 then 3 else 4
  }

  /** The bytes of a code point. */
  function Enc(c: nat): (r: seq<Octet>)
    ensures |r| == Width(c)
  {
    seq(Width(c), k requires 0 <= k < Width(c) => Octet(c, k))
  }

  /** Byte offset of character `i`. */
  function Bpos(t: seq<nat>, i: nat): nat
    requires i <= |t|
  {
    if i == 0 then 0 else Bpos(t, i - 1) + Width(t[i - 1])
  }

  /** The bytes of characters `i` to `j`. */
  function Bytes(t: seq<nat>, i: nat, j: nat): (r: seq<Octet>)
    requires i <= j <= |t|
    ensures |r| == Bpos(t, j) - Bpos(t, i)
    decreases j
  {
    if i == j then [] else Bytes(t, i, j - 1) + Enc(t[j - 1])
  }

  lemma {:induction false} BytesJoin(t: seq<nat>, i: nat, k: nat, j: nat)
    requires i <= k <= j <= |t|
    ensures Bytes(t, i, j) == Bytes(t, i, k) + Bytes(t, k, j)
    decreases j
  {
    if k < j {
      BytesJoin(t, i, k, j - 1);
    }
  }

  predicate IsAsciiLetter(c: int) {
    'a' as int <= c <= 'z' as int || 'A' as int <= c <= 'Z' as int
  }

  predicate IsCjk(c: int) {
    || 0x1100 <= c <= 0x11FF || 0x2E80 <= c <= 0x2EFF || 0x3000 <= c <= 0x9FFF || 0xA700 <= c <= 0xA71F
    || 0xAC00 <= c <= 0xD7AF || 0xF900 <= c <= 0xFAFF || 0xFE30 <= c <= 0xFE4F || 0xFF00 <= c <= 0xFFEF
    || 0x20000 <= c <= 0x2A6DF || 0x2F800 <= c <= 0x2FA1F
  }

  /** Tibetan, Thai, Lao and Burmese. */
  predicate IsOtherNgram(c: int) {
    0x0f00 < c <= 0x0fff || 0x0e00 < c <= 0x0eff || 0x1000 < c <= 0x109f
  }

  /** Characters split into n-grams; no external tagger is configured. */
  predicate IsNgrammed(c: int) {
    IsOtherNgram(c) || IsCjk(c)
  }

  /** Character class. The value read past the end of the text is white space. */
  function WhatCc(cfg: Config, c: int): Class {
    if c < 0 then Space
    else if c <= 127 then
      var ch := c as char;
      if '0' <= ch <= '9' then Digit
      else if 'A' <= ch <= 'Z' then Upper
      else if 'a' <= ch <= 'z' then Lower
      else if ch in "*?[]" then Wild
      else if ch == '\\' && cfg.backslashAsLetter then Lower
      else if ch == '_' && cfg.underscoreAsLetter then Lower
      else if ch in ".@+-#'_\n\r\U{c}" then Own(c)
      else Space
    else if c in {0x2010, 0x2019, 0x275c, 0x02bc} then Own(c)
    else match cfg.table(c)
      case TableLetter => Letter
      case TableSpace => Space
      case TableSkip => Skip
  }

  predicate IsSpace(cfg: Config, c: int) {
    WhatCc(cfg, c) == Space
  }
}
