/** The order in which both the Chinese splitter and the highlighter take stretches of text: by start,
    the longest first. */
module LongestFirst {

  /** A stretch of text with something about it. */
  datatype Entry<T> = Entry(start: nat, end: nat, what: T)

  predicate Before<T>(a: Entry<T>, b: Entry<T>) {
    a.start < b.start || (a.start == b.start && a.end > b.end)
  }

  ghost predicate InOrder<T>(entries: seq<Entry<T>>) {
    forall j, k :: 0 <= j < k < |entries| ==> !Before(entries[k], entries[j])
  }

  /** The entries in their order; which of those at the same place comes first is not specified. */
  method Sort<T(==)>(entries: seq<Entry<T>>) returns (sorted: seq<Entry<T>>)
    ensures InOrder(sorted) && multiset(sorted) == multiset(entries)
  {
    sorted := [];
    for n := 0 to |entries|
      invariant InOrder(sorted) && multiset(sorted) == multiset(entries[..n])
    {
      var at := 0;
      while at < |sorted| && !Before(entries[n], sorted[at])
        invariant at <= |sorted|
        invariant forall j :: 0 <= j < at ==> !Before(entries[n], sorted[j])
      {
        at := at + 1;
      }
      InsertKeeps(sorted, at, entries[n]);
      sorted := sorted[..at] + [entries[n]] + sorted[at..];
      assert entries[..n + 1] == entries[..n] + [entries[n]];
    }
    assert entries[..|entries|] == entries;
  }

  lemma InsertKeeps<T>(sorted: seq<Entry<T>>, at: nat, e: Entry<T>)
    requires InOrder(sorted) && at <= |sorted| && (at < |sorted| ==> Before(e, sorted[at]))
    requires forall j :: 0 <= j < at ==> !Before(e, sorted[j])
    ensures InOrder(sorted[..at] + [e] + sorted[at..])
    ensures multiset(sorted[..at] + [e] + sorted[at..]) == multiset(sorted) + multiset{e}
  {
    var more := sorted[..at] + [e] + sorted[at..];
    forall j, k | 0 <= j < k < |more| ensures !Before(more[k], more[j]) {
      PairKept(sorted, at, e, j, k);
    }
    assert sorted == sorted[..at] + sorted[at..];
  }

  lemma PairKept<T>(sorted: seq<Entry<T>>, at: nat, e: Entry<T>, j: nat, k: nat)
    requires InOrder(sorted) && at <= |sorted| && (at < |sorted| ==> Before(e, sorted[at]))
    requires forall m :: 0 <= m < at ==> !Before(e, sorted[m])
    requires j < k <= |sorted|
    ensures var more := sorted[..at] + [e] + sorted[at..]; !Before(more[k], more[j])
  {
    if k < at {
      assert !Before(sorted[k], sorted[j]);
    } else if j < at < k {
      assert !Before(sorted[k - 1], sorted[j]);
    } else if at < j {
      assert !Before(sorted[k - 1], sorted[j - 1]);
    } else if j == at < k - 1 {
      assert !Before(sorted[k - 1], sorted[at]);
    }
  }

  lemma SameEntries<T>(a: seq<Entry<T>>, b: seq<Entry<T>>)
    requires multiset(a) == multiset(b)
    ensures forall e :: e in a <==> e in b
  {
    forall e ensures e in a <==> e in b {
      assert e in a <==> e in multiset(a);
      assert e in b <==> e in multiset(b);
    }
  }
}
