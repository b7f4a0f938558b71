/** Lists of words in configuration values: a list that is written with blanks between the words, with
    quotes where they are needed, is read back as that list; and the lists made of three variables. */
module WordList {
  import opened Common
  import opened ConfTree

  /** A word of a list, the blanks before it, and whether it is written between quotes. */
  datatype Entry = Entry(blanks: string, word: string, quoted: bool)

  predicate Blank(s: string) {
    forall i :: 0 <= i < |s| ==> s[i] in " \t\n\r"
  }

  /** Between quotes, quotes and backslashes have a backslash before them. */
  function Escaped(w: string): string {
    if w == "" then ""
    else (if w[0] == '\"' || w[0] == '\\' then ['\\', w[0]] else [w[0]]) + Escaped(w[1..])
  }

  function WriteWord(e: Entry): string {
    e.blanks + (if e.quoted then "\"" + Escaped(e.word) + "\"" else e.word)
  }

  function WriteList(entries: seq<Entry>): string {
    if entries == [] then "" else WriteWord(entries[0]) + WriteList(entries[1..])
  }

  /** Without quotes a word is not empty, has no blanks, and does not begin with a quote. */
  predicate GoodEntry(e: Entry) {
    Blank(e.blanks) &&
    (!e.quoted ==> e.word != "" && e.word[0] != '\"' && forall i :: 0 <= i < |e.word| ==> e.word[i] !in " \t\n\r")
  }

  /** A word that follows one without quotes has a blank before it. */
  predicate GoodList(entries: seq<Entry>) {
    entries == []
    || (GoodEntry(entries[0]) && GoodList(entries[1..])
        && (|entries| > 1 && !entries[0].quoted ==> entries[1].blanks != ""))
  }

  function WordsOf(entries: seq<Entry>): seq<string> {
    if entries == [] then [] else [entries[0].word] + WordsOf(entries[1..])
  }

  // Reading, piece by piece.

  lemma {:induction false} BlanksSkipped(b: string, rest: string)
    requires Blank(b)
    ensures Words(b + rest, InSpace, "") == Words(rest, InSpace, "")
    decreases |b|
  {
    if b == "" {
      assert b + rest == rest;
    } else {
      assert (b + rest)[1..] == b[1..] + rest;
      BlanksSkipped(b[1..], rest);
    }
  }

  /** A quoted word, up to the closing quote. */
  lemma {:induction false} QuotedRead(w: string, rest: string, current: string)
    ensures Words(Escaped(w) + "\"" + rest, InQuote, current) == [current + w] + Words(rest, InSpace, "")
    decreases |w|
  {
    var s := Escaped(w) + "\"" + rest;
    if w == "" {
      assert s == "\"" + rest && current + w == current && s[1..] == rest;
    } else {
      var more := Escaped(w[1..]) + "\"" + rest;
      QuotedRead(w[1..], rest, current + [w[0]]);
      assert current + [w[0]] + w[1..] == current + w;
      if w[0] == '\"' || w[0] == '\\' {
        assert s == ['\\', w[0]] + more;
        assert s[1..] == [w[0]] + more && s[1..][1..] == more;
      } else {
        assert s == [w[0]] + more && s[1..] == more;
      }
    }
  }

  /** A word without quotes, once begun, up to a blank or the end. */
  lemma {:induction false} PlainRead(w: string, rest: string, current: string)
    requires forall i :: 0 <= i < |w| ==> w[i] !in " \t\n\r"
    requires rest == "" || rest[0] in " \t\n\r"
    ensures Words(w + rest, InToken, current) == [current + w] + Words(rest, InSpace, "")
    decreases |w|
  {
    var s := w + rest;
    if w == "" {
      assert s == rest && current + w == current;
      if rest != "" {
        BlankEnds(rest, current);
      }
    } else {
      assert s[1..] == w[1..] + rest;
      PlainRead(w[1..], rest, current + [w[0]]);
      assert current + [w[0]] + w[1..] == current + w;
    }
  }

  lemma BlankEnds(rest: string, current: string)
    requires rest != "" && rest[0] in " \t\n\r"
    ensures Words(rest, InToken, current) == [current] + Words(rest, InSpace, "")
  {
  }

  lemma PlainWord(w: string, rest: string)
    requires w != "" && w[0] != '\"' && forall i :: 0 <= i < |w| ==> w[i] !in " \t\n\r"
    requires rest == "" || rest[0] in " \t\n\r"
    ensures Words(w + rest, InSpace, "") == [w] + Words(rest, InSpace, "")
  {
    assert (w + rest)[1..] == w[1..] + rest && "" + [w[0]] == [w[0]];
    PlainRead(w[1..], rest, [w[0]]);
    assert [w[0]] + w[1..] == w;
  }

  lemma QuotedWord(w: string, rest: string)
    ensures Words("\"" + Escaped(w) + "\"" + rest, InSpace, "") == [w] + Words(rest, InSpace, "")
  {
    var s := "\"" + Escaped(w) + "\"" + rest;
    assert s[1..] == Escaped(w) + "\"" + rest;
    QuotedRead(w, rest, "");
    assert "" + w == w;
  }

  lemma EntryRead(e: Entry, rest: string)
    requires GoodEntry(e) && (!e.quoted ==> rest == "" || rest[0] in " \t\n\r")
    ensures Words(WriteWord(e) + rest, InSpace, "") == [e.word] + Words(rest, InSpace, "")
  {
    var text := if e.quoted then "\"" + Escaped(e.word) + "\"" else e.word;
    assert WriteWord(e) + rest == e.blanks + (text + rest);
    BlanksSkipped(e.blanks, text + rest);
    if e.quoted {
      QuotedWord(e.word, rest);
    } else {
      PlainWord(e.word, rest);
    }
  }

  lemma ListStarts(entries: seq<Entry>, tail: string)
    requires GoodList(entries) && Blank(tail) && (entries != [] ==> entries[0].blanks != "")
    ensures WriteList(entries) + tail == "" || (WriteList(entries) + tail)[0] in " \t\n\r"
  {
    if entries != [] {
      assert (WriteList(entries) + tail)[0] == entries[0].blanks[0];
    }
  }

  lemma NothingRead(tail: string)
    requires Blank(tail)
    ensures Words(tail, InSpace, "") == []
  {
    BlanksSkipped(tail, "");
    assert tail + "" == tail;
  }

  lemma FirstRead(entries: seq<Entry>, tail: string, rest: string)
    requires GoodList(entries) && Blank(tail) && entries != [] && rest == WriteList(entries[1..]) + tail
    ensures Words(WriteList(entries) + tail, InSpace, "") == [entries[0].word] + Words(rest, InSpace, "")
  {
    assert WriteList(entries) + tail == WriteWord(entries[0]) + rest;
    if !entries[0].quoted {
      ListStarts(entries[1..], tail);
    }
    EntryRead(entries[0], rest);
  }

  /** Any list of words that is written is read back, blanks after the last word not counting. */
  lemma {:induction false} ListReadBack(entries: seq<Entry>, tail: string)
    requires GoodList(entries) && Blank(tail)
    ensures StringToStrings(WriteList(entries) + tail) == WordsOf(entries)
    decreases |entries|
  {
    if entries == [] {
      NothingRead(tail);
      assert "" + tail == tail;
    } else {
      FirstRead(entries, tail, WriteList(entries[1..]) + tail);
      ListReadBack(entries[1..], tail);
    }
  }

  /** An unfinished quoted word is lost, and nothing else is. */
  lemma {:induction false} UnfinishedLost(w: string, current: string)
    requires forall i :: 0 <= i < |w| ==> w[i] != '\"' && w[i] != '\\'
    ensures Words(w, InQuote, current) == []
    decreases |w|
  {
    if w != "" {
      UnfinishedLost(w[1..], current + [w[0]]);
    }
  }

  /** A list that a value is, as written. */
  datatype Written = Written(entries: seq<Entry>, tail: string)

  predicate GoodWritten(w: Written) {
    GoodList(w.entries) && Blank(w.tail)
  }

  function Text(w: Written): string {
    WriteList(w.entries) + w.tail
  }

  // In lower case.

  function LowerEntry(e: Entry): Entry {
    e.(word := Lower(e.word))
  }

  function LowerEntries(entries: seq<Entry>): seq<Entry> {
    if entries == [] then [] else [LowerEntry(entries[0])] + LowerEntries(entries[1..])
  }

  lemma LowerJoin(a: string, b: string)
    ensures Lower(a + b) == Lower(a) + Lower(b)
  {
  }

  lemma LowerBlank(s: string)
    requires Blank(s)
    ensures Lower(s) == s
  {
  }

  lemma {:induction false} LowerEscaped(w: string)
    ensures Lower(Escaped(w)) == Escaped(Lower(w))
    decreases |w|
  {
    if w != "" {
      LowerEscaped(w[1..]);
      var head := if w[0] == '\"' || w[0] == '\\' then ['\\', w[0]] else [w[0]];
      LowerJoin(head, Escaped(w[1..]));
      assert Lower(w)[1..] == Lower(w[1..]);
    }
  }

  lemma LowerWord(e: Entry)
    requires GoodEntry(e)
    ensures GoodEntry(LowerEntry(e)) && Lower(WriteWord(e)) == WriteWord(LowerEntry(e))
  {
    LowerBlank(e.blanks);
    LowerJoin(e.blanks, if e.quoted then "\"" + Escaped(e.word) + "\"" else e.word);
    if e.quoted {
      LowerEscaped(e.word);
      assert Lower("\"") == "\"";
      LowerJoin("\"" + Escaped(e.word), "\"");
      LowerJoin("\"", Escaped(e.word));
    }
  }

  lemma {:induction false} LowerList(entries: seq<Entry>)
    requires GoodList(entries)
    ensures GoodList(LowerEntries(entries)) && |LowerEntries(entries)| == |entries|
    ensures Lower(WriteList(entries)) == WriteList(LowerEntries(entries))
    decreases |entries|
  {
    if entries != [] {
      LowerWord(entries[0]);
      LowerList(entries[1..]);
      LowerJoin(WriteWord(entries[0]), WriteList(entries[1..]));
      assert LowerEntries(entries)[1..] == LowerEntries(entries[1..]);
      assert |entries| > 1 ==> LowerEntries(entries)[1] == LowerEntry(entries[1]);
    }
  }

  /** The words of a list that is put in lower case are its words in lower case. */
  lemma LowerReadBack(w: Written)
    requires GoodWritten(w)
    ensures StringToStrings(Lower(Text(w))) == WordsOf(LowerEntries(w.entries))
  {
    LowerList(w.entries);
    LowerBlank(w.tail);
    LowerJoin(WriteList(w.entries), w.tail);
    ListReadBack(LowerEntries(w.entries), w.tail);
  }

  /** From three written lists: what is in the plus list, or in the base list and not in the minus list. */
  lemma InLists(base: Written, plus: Written, minus: Written, name: string)
    requires GoodWritten(base) && GoodWritten(plus) && GoodWritten(minus)
    ensures name in BasePlusMinus(Text(base), Text(plus), Text(minus)) <==>
            name in WordsOf(plus.entries) || (name in WordsOf(base.entries) && name !in WordsOf(minus.entries))
  {
    ListReadBack(base.entries, base.tail);
    ListReadBack(plus.entries, plus.tail);
    ListReadBack(minus.entries, minus.tail);
  }
}
