/** Metadata fields with several values: stored as one string with commas between and around the
    values, so that a search for a value between commas tells whether it is there already. */
module Metadata {

  /** A value to store, or one to search for: commas added at both ends, if missing. */
  function MaybeCommas(out: string, val: string): (r: string)
    requires val != ""
    ensures r != "" && r[|r| - 1] == ','
    ensures out == "" ==> r[0] == ','
  {
    var a := if val[0] != ',' && (out == "" || out[|out| - 1] != ',') then out + "," else out;
    var b := a + val;
    if b[|b| - 1] != ',' then b + "," else b
  }

  predicate MatchAt(s: string, sub: string, p: int) {
    0 <= p <= |s| - |sub| && s[p..p + |sub|] == sub
  }

  predicate Occurs(s: string, sub: string) {
    exists p :: 0 <= p <= |s| - |sub| && MatchAt(s, sub, p)
  }

  /** The stored string after one more value. */
  function Added(pval: string, value: string): string {
    if value == "" then pval
    else if pval == "" then MaybeCommas(pval, value)
    else
      var nval := MaybeCommas("", value);
      if Occurs(pval, nval) then pval
      else if pval[|pval| - 1] != ',' then pval + nval
      else pval + nval[1..]
  }

  /** The value without one comma at each end. */
  function Trimmed(value: string): string {
    var a := if value != "" && value[|value| - 1] == ',' then value[..|value| - 1] else value;
    if a != "" && a[0] == ',' then a[1..] else a
  }

  /** The metadata of a document. */
  class Doc {
    var meta: map<string, string>

    constructor ()
      ensures meta == map[]
    {
      meta := map[];
    }

    /** Add a value to a field. */
    method AddMeta(nm: string, value: string)
      modifies this
      ensures meta == if value == "" then old(meta)
                      else old(meta)[nm := Added(if nm in old(meta) then old(meta)[nm] else "", value)]
    {
      if value == "" {
        return;
      }
      if nm !in meta {
        meta := meta[nm := ""];
      }
      var pval := meta[nm];
      if pval == "" {
        pval := MaybeCommas(pval, value);
      } else {
        var nval := MaybeCommas("", value);
        if !Occurs(pval, nval) {
          if pval[|pval| - 1] != ',' {
            pval := pval + nval;
          } else {
            pval := pval + nval[1..];
          }
        }
      }
      meta := meta[nm := pval];
    }

    /** Add values to a field, one after the other. All of them are there exactly when none is hidden. */
    method AddAll(nm: string, values: seq<string>)
      requires forall v :: v in values ==> Edged(v)
      requires nm !in meta
      modifies this
      ensures meta == if values == [] then old(meta) else old(meta)[nm := Stored(Visible(values))]
      ensures values != [] ==> (meta[nm] == Stored(FirstSeen(values)) <==> NoneHidden(values))
    {
      for n := 0 to |values|
        invariant meta == if n == 0 then old(meta) else old(meta)[nm := Stored(Visible(values[..n]))]
      {
        AddMeta(nm, values[n]);
        AddedNext(values, n);
      }
      assert values[..|values|] == values;
      KeptIffNoneHidden(values);
    }

    /** Take away the outer commas everywhere. */
    method TrimMeta()
      modifies this
      ensures meta.Keys == old(meta).Keys
      ensures forall nm :: nm in meta ==> meta[nm] == Trimmed(old(meta)[nm])
    {
      var todo := meta.Keys;
      while todo != {}
        invariant todo <= meta.Keys == old(meta).Keys
        invariant forall nm :: nm in meta ==> meta[nm] == if nm in todo then old(meta)[nm] else Trimmed(old(meta)[nm])
        decreases |todo|
      {
        var nm :| nm in todo;
        todo := todo - {nm};
        var value := meta[nm];
        if value != "" {
          if value[|value| - 1] == ',' {
            value := value[..|value| - 1];
          }
          if value != "" && value[0] == ',' {
            value := value[1..];
          }
          meta := meta[nm := value];
        }
      }
    }
  }

  /** A value that can be told from the others. */
  predicate Plain(v: string) {
    v != "" && ',' !in v
  }

  /** A value with no comma at either end. */
  predicate Edged(v: string) {
    v != "" && v[0] != ',' && v[|v| - 1] != ','
  }

  /** The values that come to be stored: all but those that occur between commas in what is stored when
      they are added. */
  function Visible(values: seq<string>): seq<string> {
    if values == [] then []
    else
      var before := Visible(values[..|values| - 1]);
      var v := values[|values| - 1];
      if Hidden(before, v) then before else before + [v]
  }

  /** Does the value seem to be there already? */
  predicate Hidden(vals: seq<string>, v: string) {
    Occurs(Stored(vals), "," + v + ",")
  }

  /** Each value that seems to be there when it is added has been added before. */
  predicate NoneHidden(values: seq<string>) {
    values == [] ||
    var before, v := values[..|values| - 1], values[|values| - 1];
    NoneHidden(before) && (Hidden(FirstSeen(before), v) ==> v in before)
  }

  /** The distinct values, in the order they were first seen. */
  function FirstSeen(values: seq<string>): seq<string> {
    if values == [] then []
    else
      var before := FirstSeen(values[..|values| - 1]);
      var v := values[|values| - 1];
      if v in before then before else before + [v]
  }

  /** FirstSeen keeps every value, once. */
  lemma {:induction false} FirstSeenIs(values: seq<string>)
    ensures forall v :: v in FirstSeen(values) <==> v in values
    ensures forall j, k :: 0 <= j < k < |FirstSeen(values)| ==> FirstSeen(values)[j] != FirstSeen(values)[k]
  {
    if values != [] {
      var init := values[..|values| - 1];
      FirstSeenIs(init);
      assert values == init + [values[|values| - 1]];
    }
  }

  /** Values with a comma after each. */
  function Tail(vals: seq<string>): string {
    if vals == [] then "" else vals[0] + "," + Tail(vals[1..])
  }

  /** What is stored for a list of values. */
  function Stored(vals: seq<string>): string {
    if vals == [] then "" else "," + Tail(vals)
  }

  lemma {:induction false} TailAppend(vals: seq<string>, v: string)
    ensures Tail(vals + [v]) == Tail(vals) + v + ","
  {
    if vals == [] {
      assert ([] + [v])[1..] == [];
    } else {
      TailAppend(vals[1..], v);
      assert (vals + [v])[1..] == vals[1..] + [v];
    }
  }

  lemma {:induction false} TailEnds(vals: seq<string>)
    requires vals != []
    ensures Tail(vals) != "" && Tail(vals)[|Tail(vals)| - 1] == ','
  {
    if |vals| > 1 {
      TailEnds(vals[1..]);
    }
  }

  /** The occurrence of a value between commas at `p`. */
  predicate OccursAt(s: string, v: string, p: nat) {
    p + |v| + 2 <= |s| && s[p] == ',' && s[p + 1..p + 1 + |v|] == v && s[p + 1 + |v|] == ','
  }

  lemma OccursAtIs(s: string, v: string)
    ensures Occurs(s, "," + v + ",") <==> exists p :: OccursAt(s, v, p)
  {
    var sub := "," + v + ",";
    if Occurs(s, sub) {
      var p :| 0 <= p <= |s| - |sub| && MatchAt(s, sub, p);
      MatchedAt(s, v, p);
    }
    if p: nat :| OccursAt(s, v, p) {
      assert s[p..p + |sub|] == [s[p]] + s[p + 1..p + 1 + |v|] + [s[p + 1 + |v|]];
      assert MatchAt(s, sub, p);
    }
  }

  lemma MatchedAt(s: string, v: string, p: nat)
    requires MatchAt(s, "," + v + ",", p)
    ensures OccursAt(s, v, p)
  {
    var sub := "," + v + ",";
    assert s[p] == s[p..p + |sub|][0] && s[p + 1 + |v|] == s[p..p + |sub|][1 + |v|];
    assert sub[1..1 + |v|] == v;
    SliceOfSlice(s, p, p + |sub|, 1, 1 + |v|);
  }

  lemma SliceOfSlice(s: string, a: nat, b: nat, i: nat, j: nat)
    requires a <= b <= |s| && i <= j <= b - a
    ensures s[a..b][i..j] == s[a + i..a + j]
  {
    forall k | 0 <= k < j - i ensures s[a..b][i..j][k] == s[a + i..a + j][k] {
      assert s[a..b][i + k] == s[a + i + k];
    }
  }

  /** A value occurs between commas in what is stored exactly when it is one of those stored. */
  lemma {:induction false} OccursIffStored(vals: seq<string>, v: string)
    requires Plain(v) && forall w :: w in vals ==> Plain(w)
    ensures Occurs("," + Tail(vals), "," + v + ",") <==> v in vals
  {
    var s := "," + Tail(vals);
    OccursAtIs(s, v);
    if vals == [] {
      assert |s| == 1;
    } else {
      OccursIffStored(vals[1..], v);
      OccursAtIs("," + Tail(vals[1..]), v);
      assert s == "," + vals[0] + "," + Tail(vals[1..]);
      assert v in vals <==> v == vals[0] || v in vals[1..];
      OccursFirstOrLater(vals[0], Tail(vals[1..]), v);
    }
  }

  lemma OccursFirstOrLater(first: string, tail: string, v: string)
    requires Plain(v) && Plain(first)
    ensures (exists p :: OccursAt("," + first + "," + tail, v, p)) <==> v == first || exists p :: OccursAt("," + tail, v, p)
  {
    var s := "," + first + "," + tail;
    if p: nat :| OccursAt(s, v, p) {
      FirstOrLater(first, tail, v, p);
    }
    if v == first {
      assert s[1..1 + |v|] == v;
      assert OccursAt(s, v, 0);
    }
    if p: nat :| OccursAt("," + tail, v, p) {
      Later(first, tail, v, p);
    }
  }

  lemma FirstOrLater(first: string, tail: string, v: string, p: nat)
    requires Plain(v) && Plain(first) && OccursAt("," + first + "," + tail, v, p)
    ensures if p == 0 then v == first else p >= 1 + |first| && OccursAt("," + tail, v, p - 1 - |first|)
  {
    var s := "," + first + "," + tail;
    assert s[1..1 + |first|] == first && s[1 + |first|] == ',';
    assert forall k :: 0 <= k < |first| ==> s[1 + k] == first[k] && first[k] != ',';
    assert forall k :: 0 <= k < |v| ==> s[p + 1 + k] == s[p + 1..p + 1 + |v|][k] == v[k] && v[k] != ',';
    if p > 0 {
      assert forall k :: 1 <= k < 1 + |first| ==> s[k] == first[k - 1] && first[k - 1] != ',';
      assert p >= 1 + |first|;
      assert s[1 + |first|..] == "," + tail;
      assert (s[1 + |first|..])[p - 1 - |first| + 1..p - 1 - |first| + 1 + |v|] == s[p + 1..p + 1 + |v|];
    } else {
      SameLength(s, first, v);
    }
  }

  /** Both are what stands between the first two commas. */
  lemma SameLength(s: string, a: string, b: string)
    requires Plain(a) && Plain(b) && OccursAt(s, a, 0) && OccursAt(s, b, 0)
    ensures a == b
  {
    assert forall k :: 0 <= k < |a| ==> s[1 + k] == a[k] && a[k] != ',';
    assert forall k :: 0 <= k < |b| ==> s[1 + k] == b[k] && b[k] != ',';
    assert s[1 + |a|] == ',' == s[1 + |b|];
  }

  lemma Later(first: string, tail: string, v: string, p: nat)
    requires OccursAt("," + tail, v, p)
    ensures OccursAt("," + first + "," + tail, v, p + 1 + |first|)
  {
    var s := "," + first + "," + tail;
    assert s[1 + |first|..] == "," + tail;
    assert (s[1 + |first|..])[p + 1..p + 1 + |v|] == s[p + 1 + |first| + 1..p + 1 + |first| + 1 + |v|];
  }

  // Adding.

  lemma EdgedCommas(v: string)
    requires Edged(v)
    ensures MaybeCommas("", v) == "," + v + ","
  {
  }

  lemma CommasKept(v: string, lead: string, trail: string)
    requires Edged(v) && (lead == "" || lead == ",") && (trail == "" || trail == ",")
    ensures lead + v + trail != "" && MaybeCommas("", lead + v + trail) == "," + v + ","
  {
    var x := lead + v + trail;
    assert x[0] == if lead == "" then v[0] else ',';
    assert x[|x| - 1] == if trail == "" then v[|v| - 1] else ',';
    var a := if lead == "" then "" + "," else "";
    assert a + x == "," + v + trail;
  }

  lemma AddedAlike(pval: string, x: string, y: string)
    requires x != "" && y != "" && MaybeCommas("", x) == MaybeCommas("", y)
    ensures Added(pval, x) == Added(pval, y)
  {
  }

  /** Commas at the ends of a value make no difference. */
  lemma OuterCommas(pval: string, v: string, lead: string, trail: string)
    requires Edged(v) && (lead == "" || lead == ",") && (trail == "" || trail == ",")
    ensures Added(pval, lead + v + trail) == Added(pval, v)
  {
    CommasKept(v, lead, trail);
    EdgedCommas(v);
    AddedAlike(pval, lead + v + trail, v);
  }

  lemma StoredAppend(vals: seq<string>, v: string)
    ensures Stored(vals + [v]) == (if vals == [] then "," else Stored(vals)) + v + ","
  {
    TailAppend(vals, v);
    if vals == [] {
      assert vals + [v] == [v];
    } else {
      assert "," + (Tail(vals) + v + ",") == "," + Tail(vals) + v + ",";
    }
  }

  lemma AddedTo(pval: string, v: string)
    requires Edged(v) && pval != "" && pval[|pval| - 1] == ','
    ensures Added(pval, v) == if Occurs(pval, "," + v + ",") then pval else pval + v + ","
  {
    EdgedCommas(v);
    assert ("," + v + ",")[1..] == v + ",";
    assert pval + (v + ",") == pval + v + ",";
  }

  /** What adding a value does, for any values stored and any value without commas at its ends: nothing
      if it occurs between commas, else it is stored behind the others. */
  lemma AddedUnlessHidden(vals: seq<string>, v: string)
    requires Edged(v)
    ensures Added(Stored(vals), v) == Stored(if Hidden(vals, v) then vals else vals + [v])
    ensures Added(Stored(vals), v) == Stored(vals + [v]) <==> !Hidden(vals, v)
  {
    StoredAppend(vals, v);
    if vals == [] {
      EdgedCommas(v);
    } else {
      TailEnds(vals);
      AddedTo(Stored(vals), v);
    }
  }

  lemma AddedNext(values: seq<string>, n: nat)
    requires n < |values| && Edged(values[n])
    ensures Added(Stored(Visible(values[..n])), values[n]) == Stored(Visible(values[..n + 1]))
    ensures n == 0 ==> Stored(Visible(values[..n])) == ""
  {
    assert values[..n + 1][..n] == values[..n];
    AddedUnlessHidden(Visible(values[..n]), values[n]);
  }

  /** Among comma-free values a value is hidden exactly when it is one of those stored, so that adding is
      set union. */
  lemma AddedIsUnion(vals: seq<string>, v: string)
    requires Plain(v) && forall w :: w in vals ==> Plain(w)
    ensures Hidden(vals, v) <==> v in vals
    ensures Added(Stored(vals), v) == Stored(if v in vals then vals else vals + [v])
  {
    assert v[0] in v && v[|v| - 1] in v;
    AddedUnlessHidden(vals, v);
    if vals != [] {
      OccursIffStored(vals, v);
    }
  }

  // When all values are stored.

  lemma OccursLonger(s: string, sub: string, more: string)
    requires Occurs(s, sub)
    ensures Occurs(s + more, sub)
  {
    var p :| 0 <= p <= |s| - |sub| && MatchAt(s, sub, p);
    assert (s + more)[p..p + |sub|] == s[p..p + |sub|];
    assert MatchAt(s + more, sub, p);
  }

  lemma HiddenLonger(vals: seq<string>, v: string, w: string)
    ensures Hidden(vals, v) || v == w ==> Hidden(vals + [w], v)
  {
    StoredAppend(vals, w);
    var s := Stored(vals);
    if Hidden(vals, v) {
      assert vals == [] ==> |s| == 0;
      OccursLonger(s, "," + v + ",", w + ",");
      assert s + (w + ",") == s + w + ",";
    }
    if v == w {
      var p := if vals == [] then 0 else |s| - 1;
      if vals != [] {
        TailEnds(vals);
      }
      assert Stored(vals + [w])[p..p + |v| + 2] == "," + v + ",";
      assert MatchAt(Stored(vals + [w]), "," + v + ",", p);
    }
  }

  /** A value once added stays hidden from later adding. */
  lemma {:induction false} SeenIsHidden(values: seq<string>, v: string)
    requires v in values
    ensures Hidden(Visible(values), v)
  {
    var init, w := values[..|values| - 1], values[|values| - 1];
    assert values == init + [w];
    if v in init {
      SeenIsHidden(init, v);
    }
    HiddenLonger(Visible(init), v, w);
  }

  /** No more is stored than the distinct values. */
  lemma {:induction false} VisibleShorter(values: seq<string>)
    ensures |Tail(Visible(values))| <= |Tail(FirstSeen(values))|
  {
    if values != [] {
      var init, v := values[..|values| - 1], values[|values| - 1];
      VisibleShorter(init);
      if v in FirstSeen(init) {
        FirstSeenIs(init);
        SeenIsHidden(init, v);
      } else {
        TailAppend(FirstSeen(init), v);
        TailAppend(Visible(init), v);
      }
    }
  }

  lemma SameStart(a: string, b: string, v: string)
    ensures a + v + "," == b + v + "," <==> a == b
  {
    if a + v + "," == b + v + "," {
      assert |a| == |b|;
      assert (a + v + ",")[..|a|] == a && (b + v + ",")[..|b|] == b;
    }
  }

  lemma SameStored(a: seq<string>, b: seq<string>)
    ensures Stored(a) == Stored(b) <==> Tail(a) == Tail(b)
  {
    assert a != [] ==> Stored(a)[1..] == Tail(a);
    assert b != [] ==> Stored(b)[1..] == Tail(b);
  }

  /** The distinct values are all stored exactly when none of them was hidden when it was added. */
  lemma {:induction false} KeptIffNoneHidden(values: seq<string>)
    ensures Stored(Visible(values)) == Stored(FirstSeen(values)) <==> NoneHidden(values)
  {
    if values != [] {
      var init, v := values[..|values| - 1], values[|values| - 1];
      KeptIffNoneHidden(init);
      FirstSeenIs(init);
      if v in init {
        SeenIsHidden(init, v);
      } else {
        VisibleShorter(init);
        NewKept(Visible(init), FirstSeen(init), v);
      }
    }
  }

  /** After a new value the stored strings are the same if they were and it was not hidden. */
  lemma NewKept(visible: seq<string>, all: seq<string>, v: string)
    requires |Tail(visible)| <= |Tail(all)|
    ensures Stored(visible + [v]) == Stored(all + [v]) <==> Stored(visible) == Stored(all)
    ensures Stored(visible) != Stored(all + [v])
  {
    TailAppend(visible, v);
    TailAppend(all, v);
    SameStart(Tail(visible), Tail(all), v);
    SameStored(visible, all);
    SameStored(visible + [v], all + [v]);
    SameStored(visible, all + [v]);
  }

  lemma {:induction false} PlainNotHidden(values: seq<string>)
    requires forall v :: v in values ==> Plain(v)
    ensures NoneHidden(values) && Visible(values) == FirstSeen(values)
  {
    if values != [] {
      var init, v := values[..|values| - 1], values[|values| - 1];
      PlainNotHidden(init);
      FirstSeenIs(init);
      AddedIsUnion(FirstSeen(init), v);
    }
  }

  lemma EndHidden(x: string, v: string)
    ensures Hidden([x + "," + v], v)
  {
    var w := x + "," + v;
    var s := Stored([w]);
    StoredAppend([], w);
    assert [] + [w] == [w];
    assert s == "," + w + ",";
    assert "," + w + "," == ("," + x) + ("," + v + ",");
    assert s[|x| + 1..|x| + 1 + |v| + 2] == "," + v + ",";
    assert MatchAt(s, "," + v + ",", |x| + 1);
  }

  /** A value hides what stands in it behind a comma. */
  lemma CommaHidesValue(x: string, v: string)
    ensures !NoneHidden([x + "," + v, v]) && Visible([x + "," + v, v]) == [x + "," + v]
  {
    var values := [x + "," + v, v];
    EndHidden(x, v);
    OneValue(x + "," + v);
    assert values[..1] == [x + "," + v];
    assert |x + "," + v| > |v|;
  }

  lemma OneValue(v: string)
    ensures Visible([v]) == FirstSeen([v]) == [v]
  {
    assert [v][..0] == [];
    assert Stored([]) == "";
  }

  /** The values with commas between them. */
  function Join(vals: seq<string>): string {
    if vals == [] then "" else if |vals| == 1 then vals[0] else vals[0] + "," + Join(vals[1..])
  }

  lemma {:induction false} TailIsJoin(vals: seq<string>)
    requires vals != []
    ensures Tail(vals) == Join(vals) + ","
  {
    if |vals| > 1 {
      TailIsJoin(vals[1..]);
      assert vals[0] + "," + (Join(vals[1..]) + ",") == vals[0] + "," + Join(vals[1..]) + ",";
    } else {
      assert Tail(vals[1..]) == "";
    }
  }

  /** Trimming takes away the outer commas and nothing else. */
  lemma TrimmedStored(vals: seq<string>)
    ensures Trimmed(Stored(vals)) == Join(vals)
  {
    if vals != [] {
      TailIsJoin(vals);
      assert Stored(vals) == "," + Join(vals) + ",";
      assert Stored(vals)[..|Stored(vals)| - 1] == "," + Join(vals);
      assert ("," + Join(vals))[1..] == Join(vals);
    }
  }

  /** The pieces between commas. */
  function Pieces(s: string): seq<string> {
    if ',' !in s then [s]
    else
      var n := FirstComma(s);
      [s[..n]] + Pieces(s[n + 1..])
  }

  function FirstComma(s: string): (n: nat)
    requires ',' in s
    ensures n < |s| && s[n] == ',' && ',' !in s[..n]
  {
    if s[0] == ',' then 0
    else
      assert s == [s[0]] + s[1..];
      var n := 1 + FirstComma(s[1..]);
      assert s[..n] == [s[0]] + s[1..][..n - 1];
      n
  }

  lemma PiecesFirst(v: string, rest: string)
    requires Plain(v)
    ensures Pieces(v + "," + rest) == [v] + Pieces(rest)
  {
    var s := v + "," + rest;
    assert s[|v|] == ',';
    var n := FirstComma(s);
    assert s[..|v|] == v;
    assert forall k :: 0 <= k < |v| ==> s[k] == v[k] && v[k] != ',';
    assert forall k :: 0 <= k < n ==> s[k] == s[..n][k] && s[..n][k] != ',';
    assert n == |v|;
    assert s[n + 1..] == rest;
  }

  /** From the trimmed field the values can be had back. */
  lemma {:induction false} ValuesReadBack(vals: seq<string>)
    requires vals != [] && forall v :: v in vals ==> Plain(v)
    ensures Pieces(Trimmed(Stored(vals))) == vals
    decreases |vals|
  {
    TrimmedStored(vals);
    if |vals| > 1 {
      ValuesReadBack(vals[1..]);
      TrimmedStored(vals[1..]);
      PiecesFirst(vals[0], Join(vals[1..]));
    } else {
      assert Plain(vals[0]) && vals == [vals[0]];
    }
  }

  // Adding to a field whose outer commas are gone.

  /** All values but the first and the last. */
  function Inner(vals: seq<string>): seq<string> {
    if |vals| < 2 then [] else vals[1..|vals| - 1]
  }

  lemma {:induction false} JoinSplits(vals: seq<string>)
    requires |vals| >= 2
    ensures Join(vals) == vals[0] + ("," + Tail(Inner(vals))) + vals[|vals| - 1]
    decreases |vals|
  {
    if |vals| > 2 {
      JoinSplits(vals[1..]);
      assert Inner(vals)[1..] == Inner(vals[1..]) && Inner(vals)[0] == vals[1];
      assert Tail(Inner(vals)) == vals[1] + "," + Tail(Inner(vals[1..]));
    } else {
      assert Inner(vals) == [];
      assert Join(vals[1..]) == vals[1];
    }
  }

  /** What stands between commas is not at the ends of the string. */
  lemma OccursInside(a: string, s: string, b: string, v: string)
    requires ',' !in a && ',' !in b
    ensures Occurs(a + s + b, "," + v + ",") <==> Occurs(s, "," + v + ",")
  {
    var all := a + s + b;
    OccursAtIs(all, v);
    OccursAtIs(s, v);
    forall p: nat | OccursAt(all, v, p) ensures |a| <= p && OccursAt(s, v, p - |a|) {
      InsideAt(a, s, b, v, p);
    }
    forall p: nat | OccursAt(s, v, p) ensures OccursAt(all, v, p + |a|) {
      assert all[p + |a| + 1..p + |a| + 1 + |v|] == s[p + 1..p + 1 + |v|];
    }
  }

  lemma InsideAt(a: string, s: string, b: string, v: string, p: nat)
    requires ',' !in a && ',' !in b && OccursAt(a + s + b, v, p)
    ensures |a| <= p && OccursAt(s, v, p - |a|)
  {
    var all := a + s + b;
    var e := p + 1 + |v|;
    assert forall k :: 0 <= k < |a| ==> all[k] == a[k] && a[k] in a;
    assert forall k :: |a| + |s| <= k < |all| ==> all[k] == b[k - |a| - |s|] && b[k - |a| - |s|] in b;
    assert |a| <= p && e < |a| + |s|;
    assert all[p + 1..e] == s[p - |a| + 1..e - |a|];
  }

  /** A stored string that does not end with a comma gets one before the new value. */
  lemma AddedBare(pval: string, v: string)
    requires pval != "" && pval[|pval| - 1] != ',' && Plain(v)
    ensures Added(pval, v) == if Occurs(pval, "," + v + ",") then pval else pval + "," + v + ","
  {
    assert v[0] in v && v[|v| - 1] in v;
    EdgedCommas(v);
    assert pval + ("," + v + ",") == pval + "," + v + ",";
  }

  lemma {:induction false} InnerOccurs(vals: seq<string>, v: string)
    requires vals != [] && Plain(v) && forall w :: w in vals ==> Plain(w)
    ensures Occurs(Join(vals), "," + v + ",") <==> v in Inner(vals)
  {
    assert vals[0] in vals && vals[|vals| - 1] in vals;
    if |vals| == 1 {
      OccursAtIs(Join(vals), v);
      assert Join(vals) == vals[0];
      assert forall k :: 0 <= k < |vals[0]| ==> vals[0][k] in vals[0];
    } else {
      JoinSplits(vals);
      OccursInside(vals[0], "," + Tail(Inner(vals)), vals[|vals| - 1], v);
      forall w | w in Inner(vals) ensures Plain(w) {
        assert w in vals;
      }
      OccursIffStored(Inner(vals), v);
    }
  }

  lemma {:induction false} JoinEnds(vals: seq<string>)
    requires vals != [] && forall w :: w in vals ==> Plain(w)
    ensures Join(vals) != "" && Join(vals)[|Join(vals)| - 1] != ','
  {
    var b := vals[|vals| - 1];
    assert b in vals && b[|b| - 1] in b;
    if |vals| > 1 {
      JoinSplits(vals);
    }
  }

  /** A value added to a trimmed field: it is taken for new unless it is one of the inner values. The first and
      the last are not between commas and are stored again. */
  lemma {:induction false} AddedAfterTrim(vals: seq<string>, v: string)
    requires vals != [] && Plain(v) && forall w :: w in vals ==> Plain(w)
    ensures Added(Join(vals), v) == if v in Inner(vals) then Join(vals) else Join(vals) + "," + v + ","
  {
    JoinEnds(vals);
    AddedBare(Join(vals), v);
    InnerOccurs(vals, v);
  }

  /** A field from its values: added one by one to a new document, then trimmed. */
  method FieldOf(nm: string, values: seq<string>) returns (field: string)
    requires values != [] && forall v :: v in values ==> Edged(v)
    ensures field == Join(Visible(values))
    ensures (forall v :: v in values ==> Plain(v)) ==>
              field == Join(FirstSeen(values)) && Pieces(field) == FirstSeen(values)
  {
    var doc := new Doc();
    doc.AddAll(nm, values);
    doc.TrimMeta();
    field := doc.meta[nm];
    TrimmedStored(Visible(values));
    if forall v :: v in values ==> Plain(v) {
      PlainNotHidden(values);
      FirstSeenIs(values);
      assert values[0] in FirstSeen(values);
      TrimmedStored(FirstSeen(values));
      ValuesReadBack(FirstSeen(values));
    }
  }
}
