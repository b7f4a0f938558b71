/** The pass of the Chinese splitter over the words that the external tagger answers: longest words
    first at each place, the words that no other one contains being spans. */
module Intervals {
  import opened Closed
  import opened LongestFirst

  /** A word of the tagger, with its character offsets in the section. */
  type Word = Entry<string>

  /** A term given to the consumer. */
  datatype Term = Term(text: string, pos: int, bts: nat, bte: nat)

  predicate Contains(a: Word, b: Word) {
    a.start <= b.start && b.end <= a.end
  }

  predicate SamePlace(a: Word, b: Word) {
    a.start == b.start && a.end == b.end
  }

  /** A word that some word before it covers, in the order of the sort. */
  ghost predicate Covered(words: seq<Word>, k: nat)
    requires k < |words|
  {
    words[k].end == 0 || exists j :: 0 <= j < k && words[j].end >= words[k].end
  }

  /** The starts that count for positions. */
  function Starts(words: seq<Word>): set<nat> {
    set w | w in words && w.start > 0 :: w.start
  }

  /** The term of word `k`: its position counts the distinct non-zero starts up to it. */
  function TermAt(words: seq<Word>, k: nat, chartobyte: seq<nat>, wordpos0: int): Term
    requires k < |words| && (forall w :: w in words ==> w.start < |chartobyte| && w.end < |chartobyte|)
  {
    Term(words[k].what, wordpos0 + |Starts(words[..k + 1])|, chartobyte[words[k].start], chartobyte[words[k].end])
  }

  /** The terms for the first `n` words: all spans, and the other words unless only spans are wanted. */
  ghost function Terms(words: seq<Word>, n: nat, onlyspans: bool, chartobyte: seq<nat>, wordpos0: int): seq<Term>
    requires n <= |words| && (forall w :: w in words ==> w.start < |chartobyte| && w.end < |chartobyte|)
  {
    if n == 0 then []
    else Terms(words, n - 1, onlyspans, chartobyte, wordpos0)
         + (if onlyspans && Covered(words, n - 1) then [] else [TermAt(words, n - 1, chartobyte, wordpos0)])
  }

  /** The greatest start among the first `n` words, 0 if there is none. */
  ghost predicate LastStart(words: seq<Word>, n: nat, wstart: nat)
    requires n <= |words|
  {
    (forall j :: 0 <= j < n ==> words[j].start <= wstart) && (wstart > 0 ==> exists j :: 0 <= j < n && words[j].start == wstart)
  }

  /** The greatest end among the first `n` words, 0 if there is none. */
  ghost predicate LastEnd(words: seq<Word>, n: nat, spanend: nat)
    requires n <= |words|
  {
    (forall j :: 0 <= j < n ==> words[j].end <= spanend) && (spanend > 0 ==> exists j :: 0 <= j < n && words[j].end == spanend)
  }

  lemma StartStep(words: seq<Word>, n: nat, wstart: nat)
    requires n < |words| && InOrder(words) && LastStart(words, n, wstart)
    ensures words[n].start >= wstart && LastStart(words, n + 1, words[n].start)
  {
    if wstart > 0 {
      var j :| 0 <= j < n && words[j].start == wstart;
      assert !Before(words[n], words[j]);
    }
  }

  lemma StartCount(words: seq<Word>, n: nat, wstart: nat)
    requires n < |words| && LastStart(words, n, wstart) && words[n].start >= wstart
    ensures |Starts(words[..n + 1])| == |Starts(words[..n])| + (if words[n].start > wstart then 1 else 0)
  {
    assert words[..n + 1] == words[..n] + [words[n]];
    if words[n].start > wstart {
      assert Starts(words[..n + 1]) == Starts(words[..n]) + {words[n].start};
      assert words[n].start !in Starts(words[..n]);
    } else {
      if wstart > 0 {
        var j :| 0 <= j < n && words[j].start == wstart;
        assert words[..n][j] in words[..n];
      }
      assert Starts(words[..n + 1]) == Starts(words[..n]);
    }
  }

  lemma EndStep(words: seq<Word>, n: nat, spanend: nat)
    requires n < |words| && LastEnd(words, n, spanend)
    ensures Covered(words, n) <==> words[n].end <= spanend
    ensures LastEnd(words, n + 1, if words[n].end > spanend then words[n].end else spanend)
  {
  }

  /** The greatest start and the greatest end among the first `n` words, closed. */
  ghost predicate Reached(words: seq<Word>, n: nat, wstart: nat, spanend: nat) {
    forall eye :: Look(eye) ==> n <= |words| && LastStart(words, n, wstart) && LastEnd(words, n, spanend)
  }

  lemma ReachedNone(words: seq<Word>)
    ensures Reached(words, 0, 0, 0)
  {
  }

  lemma ReachedNext(words: seq<Word>, n: nat, wstart: nat, spanend: nat)
    requires n < |words| && InOrder(words) && Reached(words, n, wstart, spanend)
    ensures words[n].start >= wstart && (Covered(words, n) <==> words[n].end <= spanend)
    ensures |Starts(words[..n + 1])| == |Starts(words[..n])| + (if words[n].start > wstart then 1 else 0)
    ensures Reached(words, n + 1, words[n].start, if words[n].end > spanend then words[n].end else spanend)
  {
    assert Look(Eye);
    StartStep(words, n, wstart);
    StartCount(words, n, wstart);
    EndStep(words, n, spanend);
  }

  lemma TermsStep(words: seq<Word>, n: nat, onlyspans: bool, chartobyte: seq<nat>, wordpos0: int, terms: seq<Term>,
                  wordpos: int)
    requires n < |words| && (forall w :: w in words ==> w.start < |chartobyte| && w.end < |chartobyte|)
    requires terms == Terms(words, n, onlyspans, chartobyte, wordpos0) && wordpos == wordpos0 + |Starts(words[..n + 1])|
    ensures var w := words[n];
            && w.start < |chartobyte| && w.end < |chartobyte|
            && Terms(words, n + 1, onlyspans, chartobyte, wordpos0) ==
               if onlyspans && Covered(words, n) then terms
               else terms + [Term(w.what, wordpos, chartobyte[w.start], chartobyte[w.end])]
  {
  }

  /** The words and spans of one section. Nothing but the consumer's answer, always favourable here,
      could end it early. */
  method Process(words: seq<Word>, onlyspans: bool, chartobyte: seq<nat>, wordpos0: int)
    returns (terms: seq<Term>, wordpos: int)
    requires InOrder(words) && forall w :: w in words ==> w.start < |chartobyte| && w.end < |chartobyte|
    ensures terms == Terms(words, |words|, onlyspans, chartobyte, wordpos0)
    ensures wordpos == wordpos0 + |Starts(words)| + 1
  {
    var wstart: nat, spanend: nat := 0, 0;
    terms, wordpos := [], wordpos0;
    ReachedNone(words);
    for n := 0 to |words|
      invariant wordpos == wordpos0 + |Starts(words[..n])| && Reached(words, n, wstart, spanend)
      invariant terms == Terms(words, n, onlyspans, chartobyte, wordpos0)
    {
      var wc := words[n];
      ReachedNext(words, n, wstart, spanend);
      if wc.start > wstart {
        wstart := wc.start;
        wordpos := wordpos + 1;
      }
      TermsStep(words, n, onlyspans, chartobyte, wordpos0, terms, wordpos);
      if wc.end > spanend {
        spanend := wc.end;
        terms := terms + [Term(wc.what, wordpos, chartobyte[wc.start], chartobyte[wc.end])];
      } else {
        if !onlyspans {
          terms := terms + [Term(wc.what, wordpos, chartobyte[wc.start], chartobyte[wc.end])];
        }
      }
    }
    assert words[..|words|] == words;
    wordpos := wordpos + 1;
  }

  /** The whole pass. */
  method TextToWords(words: seq<Word>, onlyspans: bool, chartobyte: seq<nat>, wordpos0: int)
    returns (terms: seq<Term>, wordpos: int, ghost sorted: seq<Word>)
    requires forall w :: w in words ==> w.start < |chartobyte| && w.end < |chartobyte|
    ensures InOrder(sorted) && multiset(sorted) == multiset(words)
    ensures forall w :: w in sorted ==> w.start < |chartobyte| && w.end < |chartobyte|
    ensures terms == Terms(sorted, |sorted|, onlyspans, chartobyte, wordpos0)
    ensures wordpos == wordpos0 + |Starts(words)| + 1
  {
    var list := Sort(words);
    SameEntries(words, list);
    terms, wordpos := Process(list, onlyspans, chartobyte, wordpos0);
    assert Starts(list) == Starts(words);
    sorted := list;
  }

  /** A word is a span exactly when it is not empty and no other word contains it, a duplicate that
      comes later not counting as another. */
  lemma SpanIffMaximal(words: seq<Word>, k: nat)
    requires InOrder(words) && k < |words|
    ensures !Covered(words, k) <==>
            && words[k].end > 0
            && forall j :: 0 <= j < |words| && j != k && Contains(words[j], words[k]) ==>
                 j > k && SamePlace(words[j], words[k])
  {
    if !Covered(words, k) {
      forall j | 0 <= j < |words| && j != k && Contains(words[j], words[k])
        ensures j > k && SamePlace(words[j], words[k])
      {
        if j > k {
          assert !Before(words[j], words[k]);
        }
      }
    } else if words[k].end > 0 {
      var j :| 0 <= j < k && words[j].end >= words[k].end;
      assert !Before(words[k], words[j]);
      assert Contains(words[j], words[k]);
    }
  }

  /** The spans are the maximal intervals, each once, whatever the order the tagger gave the words in. */
  lemma {:induction false} EachMaximalOnce(words: seq<Word>, sorted: seq<Word>, w: Word)
    requires InOrder(sorted) && multiset(sorted) == multiset(words) && w in words && w.end > 0
    ensures (exists k :: 0 <= k < |sorted| && !Covered(sorted, k) && SamePlace(sorted[k], w)) <==>
            (forall v :: v in words && Contains(v, w) ==> SamePlace(v, w))
    ensures forall j, k :: 0 <= j < k < |sorted| && !Covered(sorted, j) && !Covered(sorted, k) ==>
              !SamePlace(sorted[j], sorted[k])
  {
    SameEntries(words, sorted);
    if exists k :: 0 <= k < |sorted| && !Covered(sorted, k) && SamePlace(sorted[k], w) {
      var k :| 0 <= k < |sorted| && !Covered(sorted, k) && SamePlace(sorted[k], w);
      SpanIffMaximal(sorted, k);
      forall v | v in words && Contains(v, w) ensures SamePlace(v, w) {
        var j :| 0 <= j < |sorted| && sorted[j] == v;
        assert Contains(sorted[j], sorted[k]);
      }
    }
    if forall v :: v in words && Contains(v, w) ==> SamePlace(v, w) {
      var k := FirstAt(sorted, w);
      if Covered(sorted, k) {
        var j :| 0 <= j < k && sorted[j].end >= sorted[k].end;
        assert !Before(sorted[k], sorted[j]);
        assert Contains(sorted[j], w);
        assert false;
      }
    }
    forall j, k | 0 <= j < k < |sorted| && !Covered(sorted, j) && !Covered(sorted, k)
      ensures !SamePlace(sorted[j], sorted[k])
    {
    }
  }

  lemma {:induction false} FirstAt(words: seq<Word>, w: Word) returns (k: nat)
    requires exists j :: 0 <= j < |words| && SamePlace(words[j], w)
    ensures k < |words| && SamePlace(words[k], w) && forall j :: 0 <= j < k ==> !SamePlace(words[j], w)
  {
    k := 0;
    while !SamePlace(words[k], w)
      invariant k < |words| && forall j :: 0 <= j < k ==> !SamePlace(words[j], w)
      invariant exists j :: k <= j < |words| && SamePlace(words[j], w)
      decreases |words| - k
    {
      k := k + 1;
    }
  }

  /** Every other word lies inside a span that was given before it. */
  lemma {:induction false} CoveredLiesInSpan(words: seq<Word>, k: nat) returns (j: nat)
    requires InOrder(words) && k < |words| && Covered(words, k) && words[k].end > 0
    ensures j < k && !Covered(words, j) && Contains(words[j], words[k])
    decreases k
  {
    j :| 0 <= j < k && words[j].end >= words[k].end;
    assert !Before(words[k], words[j]);
    if Covered(words, j) {
      j := CoveredLiesInSpan(words, j);
    }
  }

  /** The one kind of word for which the pass does not do this: it is no span, and may lie in none. */
  lemma EmptyWordAtStart()
    ensures var words := [Entry(0, 0, "w")]; InOrder(words) && Covered(words, 0) && Terms(words, 1, true, [0], 0) == []
  {
  }

  /** Restricting the output to spans takes words away and changes nothing about the rest. */
  lemma {:induction false} OnlySpansAgrees(words: seq<Word>, n: nat, onlyspans: bool, chartobyte: seq<nat>, wordpos0: int,
                                           term: Term)
    requires n <= |words| && (forall w :: w in words ==> w.start < |chartobyte| && w.end < |chartobyte|)
    ensures term in Terms(words, n, onlyspans, chartobyte, wordpos0) <==>
            exists k :: 0 <= k < n && !(onlyspans && Covered(words, k)) && term == TermAt(words, k, chartobyte, wordpos0)
    decreases n
  {
    if n > 0 {
      OnlySpansAgrees(words, n - 1, onlyspans, chartobyte, wordpos0, term);
    }
  }
}
