/** The ordered store of file name suffixes: names are compared from their ends, and two names of which
    one ends the other count as equal, so that looking up a name finds the suffix it has. */
module SuffixStore {
  import opened Closed
  import opened Common
  import opened ConfTree

  /** A search tree as std::multiset keeps one. */
  datatype Tree = Leaf | Node(left: Tree, key: string, right: Tree)

  predicate IsSuffix(a: string, b: string) {
    |a| <= |b| && b[|b| - |a|..] == a
  }

  function Last(s: string): char
    requires s != ""
  {
    s[|s| - 1]
  }

  function Init(s: string): string
    requires s != ""
  {
    s[..|s| - 1]
  }

  /** At the last place where they differ, counting from the ends, `a` has the smaller character. */
  predicate Less(a: string, b: string)
    decreases |a|
  {
    a != "" && b != "" && if Last(a) != Last(b) then Last(a) < Last(b) else Less(Init(a), Init(b))
  }

  /** The comparison of the store. */
  method SuffCmp(s1: string, s2: string) returns (r: bool)
    ensures r <==> Less(s1, s2)
  {
    var r1, r2 := |s1|, |s2|;
    assert s1[..r1] == s1 && s2[..r2] == s2;
    while r1 > 0 && r2 > 0
      invariant 0 <= r1 <= |s1| && 0 <= r2 <= |s2|
      invariant Less(s1, s2) <==> Less(s1[..r1], s2[..r2])
    {
      if s1[r1 - 1] != s2[r2 - 1] {
        return s1[r1 - 1] < s2[r2 - 1];
      }
      assert Init(s1[..r1]) == s1[..r1 - 1] && Init(s2[..r2]) == s2[..r2 - 1];
      r1 := r1 - 1;
      r2 := r2 - 1;
    }
    return false;
  }

  /** Do both end alike, as far as the shorter one goes? */
  method SameEnd(s1: string, s2: string) returns (r: bool)
    ensures r <==> IsSuffix(s1, s2) || IsSuffix(s2, s1)
  {
    var n := 0;
    while n < |s1| && n < |s2|
      invariant n <= |s1| && n <= |s2|
      invariant s1[|s1| - n..] == s2[|s2| - n..]
    {
      if s1[|s1| - n - 1] != s2[|s2| - n - 1] {
        DifferentEnds(s1, s2, n);
        return false;
      }
      n := n + 1;
    }
    return true;
  }

  lemma DifferentEnds(a: string, b: string, n: nat)
    requires n < |a| && n < |b| && a[|a| - n - 1] != b[|b| - n - 1]
    ensures !IsSuffix(a, b) && !IsSuffix(b, a)
  {
    assert |a| <= |b| ==> b[|b| - |a|..][|a| - n - 1] == b[|b| - n - 1];
    assert |b| <= |a| ==> a[|a| - |b|..][|b| - n - 1] == a[|a| - n - 1];
  }

  // The order.

  lemma {:induction false} Asymmetric(a: string, b: string)
    requires Less(a, b)
    ensures !Less(b, a)
    decreases |a|
  {
    if Last(a) == Last(b) {
      Asymmetric(Init(a), Init(b));
    }
  }

  lemma {:induction false} Transitive(a: string, b: string, c: string)
    requires Less(a, b) && Less(b, c)
    ensures Less(a, c)
    decreases |a|
  {
    if Last(a) == Last(b) == Last(c) {
      Transitive(Init(a), Init(b), Init(c));
    }
  }

  lemma SuffixStep(a: string, b: string)
    requires a != "" && b != ""
    ensures IsSuffix(a, b) <==> Last(a) == Last(b) && IsSuffix(Init(a), Init(b))
  {
    if IsSuffix(a, b) {
      var c := b[|b| - |a|..];
      assert Last(b) == c[|a| - 1];
      assert Init(b)[|b| - |a|..] == c[..|a| - 1];
    }
    if Last(a) == Last(b) && IsSuffix(Init(a), Init(b)) {
      assert b[|b| - |a|..] == Init(b)[|b| - |a|..] + [Last(b)];
      assert a == Init(a) + [Last(a)];
    }
  }

  lemma SuffixOfSuffix(a: string, b: string, c: string)
    requires IsSuffix(a, b) && IsSuffix(b, c)
    ensures IsSuffix(a, c)
  {
    assert c[|c| - |a|..] == c[|c| - |b|..][|b| - |a|..];
  }

  /** Neither comes first exactly when one ends the other. */
  lemma {:induction false} UnorderedIffSuffix(a: string, b: string)
    ensures !Less(a, b) && !Less(b, a) <==> IsSuffix(a, b) || IsSuffix(b, a)
    decreases |a|
  {
    if a == "" {
      assert b[|b|..] == "";
    } else if b == "" {
      assert a[|a|..] == "";
    } else {
      SuffixStep(a, b);
      SuffixStep(b, a);
      if Last(a) == Last(b) {
        UnorderedIffSuffix(Init(a), Init(b));
      }
    }
  }

  // The tree.

  function Keys(t: Tree): set<string> {
    match t
    case Leaf => {}
    case Node(l, k, r) => Keys(l) + {k} + Keys(r)
  }

  /** No key is where the comparison would not put it. */
  ghost predicate Ordered(t: Tree) {
    match t
    case Leaf => true
    case Node(l, k, r) =>
      && Ordered(l) && Ordered(r)
      && (forall e :: e in Keys(l) ==> !Less(k, e)) && (forall e :: e in Keys(r) ==> !Less(e, k))
  }

  /** No stored suffix ends another one. */
  ghost predicate Apart(keys: set<string>) {
    forall a, b :: a in keys && b in keys && IsSuffix(a, b) ==> a == b
  }

  /** Among suffixes that do not end each other the comparison is a strict total order. */
  lemma StrictOrder(keys: set<string>, a: string, b: string)
    requires Apart(keys) && a in keys && b in keys
    ensures a == b || Less(a, b) || Less(b, a)
    ensures !(Less(a, b) && Less(b, a)) && !Less(a, a)
  {
    UnorderedIffSuffix(a, b);
    if Less(a, b) {
      Asymmetric(a, b);
    }
    if Less(a, a) {
      Asymmetric(a, a);
    }
  }

  function Insert(t: Tree, s: string): Tree {
    match t
    case Leaf => Node(Leaf, s, Leaf)
    case Node(l, k, r) => if Less(s, k) then Node(Insert(l, s), k, r) else Node(l, k, Insert(r, s))
  }

  lemma {:induction false} InsertKeeps(t: Tree, s: string)
    requires Ordered(t)
    ensures Ordered(Insert(t, s)) && Keys(Insert(t, s)) == Keys(t) + {s}
    decreases t
  {
    match t
    case Leaf =>
    case Node(l, k, r) =>
      if Less(s, k) {
        InsertKeeps(l, s);
        Asymmetric(s, k);
      } else {
        InsertKeeps(r, s);
      }
  }

  /** The first key in tree order that does not come before `s`, or `best` if there is none. */
  function LowerBound(t: Tree, s: string, best: Option<string>): Option<string> {
    match t
    case Leaf => best
    case Node(l, k, r) => if Less(k, s) then LowerBound(r, s, best) else LowerBound(l, s, Some(k))
  }

  function Find(t: Tree, s: string): Option<string> {
    match LowerBound(t, s, None)
    case None => None
    case Some(k) => if Less(s, k) then None else Some(k)
  }

  /** `k` does not come before `s`, and of the others only those that do come before `k`. */
  ghost predicate Least(keys: set<string>, s: string, k: string) {
    k in keys && !Less(k, s) && forall e :: e in keys ==> Less(e, s) || !Less(e, k)
  }

  ghost predicate AllBefore(keys: set<string>, s: string) {
    forall e :: e in keys ==> Less(e, s)
  }

  lemma {:induction false} LowerBoundIs(t: Tree, s: string, best: Option<string>)
    requires Ordered(t) && Apart(Keys(t))
    ensures var r := LowerBound(t, s, best);
            (r == best && AllBefore(Keys(t), s)) || (r.Some? && Least(Keys(t), s, r.value))
    decreases t
  {
    match t
    case Leaf =>
    case Node(l, k, r) =>
      if Less(k, s) {
        LowerBoundIs(r, s, best);
        LeftBefore(t, s);
      } else {
        LowerBoundIs(l, s, Some(k));
        StrictOrder(Keys(t), k, k);
        var found := LowerBound(l, s, Some(k)).value;
        if found in Keys(l) {
          RightAfter(t, found);
        }
      }
  }

  lemma LeftBefore(t: Tree, s: string)
    requires t.Node? && Ordered(t) && Apart(Keys(t)) && Less(t.key, s)
    ensures AllBefore(Keys(t.left), s)
  {
    forall e | e in Keys(t.left) ensures Less(e, s) {
      StrictOrder(Keys(t), e, t.key);
      if e != t.key {
        Transitive(e, t.key, s);
      }
    }
  }

  lemma RightAfter(t: Tree, k: string)
    requires t.Node? && Ordered(t) && Apart(Keys(t)) && k in Keys(t.left)
    ensures forall e :: e in Keys(t.right) ==> !Less(e, k)
  {
    forall e | e in Keys(t.right) ensures !Less(e, k) {
      StrictOrder(Keys(t), e, t.key);
      StrictOrder(Keys(t), k, t.key);
      StrictOrder(Keys(t), e, k);
      if Less(e, k) && k != t.key {
        Transitive(e, k, t.key);
      }
    }
  }

  /** Whatever the shape of the tree, looking up a name succeeds exactly when a stored suffix ends it, or
      when the name itself ends a stored suffix. */
  lemma FindIff(t: Tree, s: string)
    requires Ordered(t) && Apart(Keys(t))
    ensures Find(t, s).Some? <==> exists k :: k in Keys(t) && (IsSuffix(k, s) || IsSuffix(s, k))
  {
    LowerBoundIs(t, s, None);
    forall k ensures !Less(k, s) && !Less(s, k) <==> IsSuffix(k, s) || IsSuffix(s, k) {
      UnorderedIffSuffix(k, s);
    }
    var r := LowerBound(t, s, None);
    if r.Some? && Less(s, r.value) {
      forall k | k in Keys(t) ensures Less(k, s) || Less(s, k) {
        StrictOrder(Keys(t), k, r.value);
        if !Less(k, s) && k != r.value {
          Transitive(s, r.value, k);
        }
      }
    }
  }

  // Why the suffixes must not end each other.

  /** Lookup answers every name as it should. */
  ghost predicate Right(t: Tree) {
    forall s :: Find(t, s).Some? <==> exists k :: k in Keys(t) && (IsSuffix(k, s) || IsSuffix(s, k))
  }

  /** Some search tree holds just these keys. */
  lemma {:induction false} TreeOver(keys: set<string>) returns (t: Tree)
    ensures Ordered(t) && Keys(t) == keys
    decreases |keys|
  {
    if keys == {} {
      t := Leaf;
    } else {
      var k :| k in keys;
      var rest := TreeOver(keys - {k});
      InsertKeeps(rest, k);
      t := Insert(rest, k);
    }
  }

  /** What a lookup goes down to is a key that does not come before the name. */
  lemma {:induction false} LowerBoundIn(t: Tree, s: string, best: Option<string>)
    ensures var r := LowerBound(t, s, best); r == best || (r.Some? && r.value in Keys(t) && !Less(r.value, s))
    decreases t
  {
    match t
    case Leaf =>
    case Node(l, k, r) =>
      if Less(k, s) {
        LowerBoundIn(r, s, best);
      } else {
        LowerBoundIn(l, s, Some(k));
      }
  }

  /** The order at the character of `b` before its end `a`. */
  lemma {:induction false} BeforeTheEnd(a: string, b: string, c: char)
    requires IsSuffix(a, b) && |a| < |b|
    ensures var d := b[|b| - |a| - 1];
            && (Less([c] + a, b) <==> c < d) && (Less(b, [c] + a) <==> d < c)
    decreases |a|
  {
    var s := [c] + a;
    if a == "" {
      assert s == [c];
    } else {
      SuffixStep(a, b);
      assert Init(s) == [c] + Init(a) && Last(s) == Last(a);
      BeforeTheEnd(Init(a), Init(b), c);
    }
  }

  /** One string ends another: the other has its characters, and it ends the rest if it is shorter. */
  lemma SuffixHas(a: string, b: string)
    ensures IsSuffix(a, b) ==> forall i :: 0 <= i < |a| ==> a[i] in b
    ensures IsSuffix(a, b) ==> a == b || IsSuffix(a, b[1..])
  {
    if IsSuffix(a, b) {
      assert forall i :: 0 <= i < |a| ==> a[i] == b[|b| - |a| + i];
      if a != b {
        assert b[0..] == b;
        assert |a| < |b|;
        assert b[1..][|b| - 1 - |a|..] == b[|b| - |a|..];
      }
    }
  }

  /** A key that is comparable to `b` is comparable to a name that is new but for its end, an end of `b`. */
  lemma Comparable(a: string, b: string, c: char, e: string)
    requires IsSuffix(a, b) && c !in e && (Less(e, b) || Less(b, e))
    ensures Less(e, [c] + a) || Less([c] + a, e)
  {
    var s := [c] + a;
    UnorderedIffSuffix(e, s);
    UnorderedIffSuffix(e, b);
    assert s[0] == c && s[1..] == a;
    SuffixHas(s, e);
    SuffixHas(e, s);
    if IsSuffix(e, a) {
      SuffixOfSuffix(e, a, b);
    }
  }

  /** Where one key ends another, some tree over the same keys hides it from a name that it ends. */
  lemma NestedHides(keys: set<string>, a: string, b: string, c: char) returns (t: Tree)
    requires a in keys && b in keys && IsSuffix(a, b) && a != b
    requires forall k :: k in keys ==> c !in k
    ensures Ordered(t) && Keys(t) == keys && IsSuffix(a, [c] + a) && Find(t, [c] + a) == None
  {
    assert ([c] + a)[1..] == a;
    BeforeTheEnd(a, b, c);
    assert b[|b| - |a| - 1] in b;
    if Less([c] + a, b) {
      t := HiddenBefore(keys, a, b, c);
    } else {
      t := HiddenAfter(keys, a, b, c);
    }
  }

  lemma HiddenBefore(keys: set<string>, a: string, b: string, c: char) returns (t: Tree)
    requires b in keys && IsSuffix(a, b) && Less([c] + a, b) && forall k :: k in keys ==> c !in k
    ensures Ordered(t) && Keys(t) == keys && Find(t, [c] + a) == None
  {
    var before := set e | e in keys && Less(e, b);
    var l := TreeOver(before);
    var r := TreeOver(keys - before - {b});
    t := Node(l, b, r);
    OneSide(b, before);
    JoinedAt(l, b, r);
    LowerBoundIn(l, [c] + a, Some(b));
    Asymmetric([c] + a, b);
    NotThere(t, l, [c] + a, a, b, c);
  }

  lemma HiddenAfter(keys: set<string>, a: string, b: string, c: char) returns (t: Tree)
    requires b in keys && IsSuffix(a, b) && Less(b, [c] + a) && forall k :: k in keys ==> c !in k
    ensures Ordered(t) && Keys(t) == keys && Find(t, [c] + a) == None
  {
    var after := set e | e in keys && Less(b, e);
    var r := TreeOver(after);
    var l := TreeOver(keys - after - {b});
    t := Node(l, b, r);
    OneSide(b, after);
    JoinedAt(l, b, r);
    LowerBoundIn(r, [c] + a, None);
    NotThere(t, r, [c] + a, a, b, c);
  }

  lemma OneSide(b: string, side: set<string>)
    requires forall e :: e in side ==> Less(e, b) || Less(b, e)
    ensures b !in side && forall e :: e in side ==> !(Less(e, b) && Less(b, e))
  {
    forall e | Less(e, b) ensures !Less(b, e) {
      Asymmetric(e, b);
    }
  }

  lemma JoinedAt(l: Tree, b: string, r: Tree)
    requires Ordered(l) && Ordered(r)
    requires forall e :: e in Keys(l) ==> !Less(b, e)
    requires forall e :: e in Keys(r) ==> !Less(e, b)
    ensures Ordered(Node(l, b, r))
  {
  }

  /** A lookup that stops at the root or below it, where all keys are comparable to the name. */
  lemma NotThere(t: Tree, below: Tree, s: string, a: string, b: string, c: char)
    requires IsSuffix(a, b) && s == [c] + a
    requires forall e :: e in Keys(below) ==> c !in e && (Less(e, b) || Less(b, e))
    requires var r := LowerBound(t, s, None);
             r == None || (r == Some(b) && Less(s, b)) || (r.value in Keys(below) && !Less(r.value, s))
    ensures Find(t, s) == None
  {
    var r := LowerBound(t, s, None);
    if r.Some? && r.value in Keys(below) {
      Comparable(a, b, c, r.value);
    }
  }

  /** With a character that no suffix has: every search tree over the suffixes answers every name as it
      should exactly when none of them ends another. */
  lemma ApartIffRight(keys: set<string>, c: char)
    requires forall k :: k in keys ==> c !in k
    ensures Apart(keys) <==> forall t :: Ordered(t) && Keys(t) == keys ==> Right(t)
  {
    if Apart(keys) {
      forall t | Ordered(t) && Keys(t) == keys ensures Right(t) {
        forall s ensures Find(t, s).Some? <==> exists k :: k in Keys(t) && (IsSuffix(k, s) || IsSuffix(s, k)) {
          FindIff(t, s);
        }
      }
    } else {
      var a, b :| a in keys && b in keys && IsSuffix(a, b) && a != b;
      var t := NestedHides(keys, a, b, c);
      assert !Right(t);
    }
  }

  // Names and suffixes.

  function LowerAll(entries: set<string>): set<string> {
    set e | e in entries :: Lower(e)
  }

  /** The store of some suffixes, and the length of the longest one. */
  method Build(entries: set<string>) returns (store: Tree, maxLength: nat)
    ensures StoreOf(store, maxLength, entries)
  {
    store, maxLength := Leaf, 0;
    var todo := entries;
    EmptyStore();
    assert entries - todo == {};
    while todo != {}
      invariant todo <= entries && StoreOf(store, maxLength, entries - todo)
      decreases |todo|
    {
      var entry :| entry in todo;
      StoreMore(store, maxLength, entries - todo, entry);
      assert entries - (todo - {entry}) == entries - todo + {entry};
      todo := todo - {entry};
      store := Insert(store, Lower(entry));
      if maxLength < |entry| {
        maxLength := |entry|;
      }
    }
    assert entries - {} == entries;
  }

  /** A search tree of the suffixes in lower case, none of which is longer than `n`. */
  ghost predicate StoreOf(t: Tree, n: nat, entries: set<string>) {
    forall eye :: Look(eye) ==> Ordered(t) && Keys(t) == LowerAll(entries) && forall e :: e in entries ==> |e| <= n
  }

  lemma StoreIs(t: Tree, n: nat, entries: set<string>)
    ensures StoreOf(t, n, entries) <==>
            Ordered(t) && Keys(t) == LowerAll(entries) && forall e :: e in entries ==> |e| <= n
  {
    if StoreOf(t, n, entries) {
      assert Look(Eye);
    }
  }

  lemma EmptyStore()
    ensures StoreOf(Leaf, 0, {})
  {
    StoreIs(Leaf, 0, {});
  }

  lemma StoreMore(t: Tree, n: nat, entries: set<string>, e: string)
    requires StoreOf(t, n, entries)
    ensures StoreOf(Insert(t, Lower(e)), if n < |e| then |e| else n, entries + {e})
  {
    StoreIs(t, n, entries);
    InsertKeeps(t, Lower(e));
    assert LowerAll(entries + {e}) == LowerAll(entries) + {Lower(e)};
    StoreIs(Insert(t, Lower(e)), if n < |e| then |e| else n, entries + {e});
  }

  /** As much of the end of a name as the longest suffix needs. */
  function Tail(name: string, n: nat): string {
    name[if |name| < n then 0 else |name| - n..]
  }

  lemma TailEnds(name: string, n: nat, k: string)
    requires |k| <= n
    ensures IsSuffix(k, Lower(Tail(name, n))) <==> IsSuffix(k, Lower(name))
    ensures IsSuffix(Lower(Tail(name, n)), k) && k != Lower(Tail(name, n)) <==> IsSuffix(Lower(name), k) && k != Lower(name)
  {
    var tail := Lower(Tail(name, n));
    var cut := |name| - |tail|;
    assert Lower(name)[cut..] == tail;
    if |k| <= |tail| {
      assert Lower(name)[|name| - |k|..] == tail[|tail| - |k|..];
    }
    if |name| > n && |k| == n && IsSuffix(tail, k) {
      assert k[0..] == k;
    }
  }

  /** Is the end of this name found in the store? */
  predicate InStore(t: Tree, n: nat, name: string) {
    Find(t, Lower(Tail(name, n))).Some?
  }

  /** Does one of the suffixes end the name, case not counting? */
  ghost predicate HasSuffix(entries: set<string>, name: string) {
    exists k :: k in LowerAll(entries) && IsSuffix(k, Lower(name))
  }

  /** Is the name a proper end of one of the suffixes? */
  ghost predicate EndsSuffix(entries: set<string>, name: string) {
    exists k :: k in LowerAll(entries) && IsSuffix(Lower(name), k) && k != Lower(name)
  }

  /** The test on a name says whether it has one of the suffixes, or is an end of one. */
  lemma InStoreIff(t: Tree, n: nat, entries: set<string>, name: string)
    requires StoreOf(t, n, entries) && Apart(LowerAll(entries))
    ensures InStore(t, n, name) <==> HasSuffix(entries, name) || EndsSuffix(entries, name)
  {
    var tail := Lower(Tail(name, n));
    StoreIs(t, n, entries);
    FindIff(t, tail);
    assert IsSuffix(tail, tail) by {
      assert tail[0..] == tail;
    }
    forall k | k in LowerAll(entries)
      ensures IsSuffix(k, tail) || IsSuffix(tail, k) <==>
              IsSuffix(k, Lower(name)) || (IsSuffix(Lower(name), k) && k != Lower(name))
    {
      TailEnds(name, n, k);
    }
  }

  /** The test is right exactly when the name is no proper end of a suffix. */
  lemma RightIffNoEnd(t: Tree, n: nat, entries: set<string>, name: string)
    requires StoreOf(t, n, entries) && Apart(LowerAll(entries))
    ensures (InStore(t, n, name) <==> HasSuffix(entries, name)) <==> !EndsSuffix(entries, name)
  {
    InStoreIff(t, n, entries, name);
    if HasSuffix(entries, name) && EndsSuffix(entries, name) {
      var a :| a in LowerAll(entries) && IsSuffix(a, Lower(name));
      var b :| b in LowerAll(entries) && IsSuffix(Lower(name), b) && b != Lower(name);
      SuffixOfSuffix(a, Lower(name), b);
    }
  }

  /** Two suffixes, the one stored second an end of the other: of the names that it ends, the test misses
      exactly those that come before the other one. */
  lemma MissedSuffix(a: string, b: string, name: string)
    requires IsSuffix(Lower(a), Lower(b)) && Lower(a) != Lower(b) && IsSuffix(Lower(a), Lower(name))
    ensures var t := Insert(Insert(Leaf, Lower(b)), Lower(a));
            && StoreOf(t, |b|, {b} + {a}) && HasSuffix({b} + {a}, name)
            && (InStore(t, |b|, name) <==> !Less(Lower(Tail(name, |b|)), Lower(b)))
  {
    EmptyStore();
    StoreMore(Leaf, 0, {}, b);
    assert {} + {b} == {b};
    StoreMore(Insert(Leaf, Lower(b)), |b|, {b}, a);
    assert a in {b} + {a} && Lower(a) in LowerAll({b} + {a});
    TailEnds(name, |b|, Lower(a));
    SecondHidden(Lower(a), Lower(b), Lower(Tail(name, |b|)));
  }

  /** Stored the other way round, the same two suffixes are looked up right for every name. */
  lemma NoneMissed(a: string, b: string, s: string)
    requires IsSuffix(a, b) && a != b
    ensures Find(Insert(Insert(Leaf, a), b), s).Some? <==>
            IsSuffix(a, s) || IsSuffix(s, a) || IsSuffix(b, s) || IsSuffix(s, b)
    ensures Right(Insert(Insert(Leaf, a), b))
  {
    SecondSeen(a, b, s);
    forall s' { SecondSeen(a, b, s'); }
    RightOfTwo(a, b);
  }

  lemma RightOfTwo(a: string, b: string)
    requires IsSuffix(a, b) && a != b
    requires forall s :: Find(Insert(Insert(Leaf, a), b), s).Some? <==>
                         IsSuffix(a, s) || IsSuffix(s, a) || IsSuffix(b, s) || IsSuffix(s, b)
    ensures Right(Insert(Insert(Leaf, a), b))
  {
    var t := Insert(Insert(Leaf, a), b);
    assert Keys(t) == {a, b} by {
      InsertKeeps(Leaf, a);
      InsertKeeps(Insert(Leaf, a), b);
    }
  }

  lemma SecondSeen(a: string, b: string, s: string)
    requires IsSuffix(a, b) && a != b
    ensures Find(Insert(Insert(Leaf, a), b), s).Some? <==>
            IsSuffix(a, s) || IsSuffix(s, a) || IsSuffix(b, s) || IsSuffix(s, b)
  {
    UnorderedIffSuffix(a, b);
    UnorderedIffSuffix(a, s);
    UnorderedIffSuffix(b, s);
    var t := Node(Leaf, a, Node(Leaf, b, Leaf));
    assert Insert(Insert(Leaf, a), b) == t;
    assert LowerBound(Leaf, s, Some(a)) == Some(a);
    assert LowerBound(t.right, s, None) == if Less(b, s) then None else Some(b);
    BeforeShared(a, b, s);
  }

  /** A name before a string comes before what it ends, and is not comparable to it only if that string is. */
  lemma BeforeShared(a: string, b: string, s: string)
    requires IsSuffix(a, b)
    ensures Less(s, a) ==> Less(s, b)
    ensures Less(a, s) ==> Less(b, s)
    decreases |a|
  {
    if a != "" && s != "" && b != "" {
      SuffixStep(a, b);
      BeforeShared(Init(a), Init(b), Init(s));
    }
  }

  lemma SecondHidden(a: string, b: string, s: string)
    requires IsSuffix(a, b) && a != b && IsSuffix(a, s)
    ensures Find(Insert(Insert(Leaf, b), a), s) == None <==> Less(s, b)
  {
    UnorderedIffSuffix(a, b);
    UnorderedIffSuffix(a, s);
    var t := Node(Leaf, b, Node(Leaf, a, Leaf));
    assert Insert(Insert(Leaf, b), a) == t;
    if Less(s, b) {
      Asymmetric(s, b);
      assert LowerBound(t, s, None) == LowerBound(Leaf, s, Some(b));
    } else {
      assert LowerBound(Leaf, s, Some(b)) == Some(b);
      assert LowerBound(t.right, s, None) == LowerBound(Leaf, s, Some(a)) == Some(a);
    }
  }
}
