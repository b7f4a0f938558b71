/** Boundary search with a circular queue, against plain search in the remaining text. */
module Matcher {
  import opened Common
  import opened InputSource

  /** An occurrence of `d` ends at `e` and begins at or after `p`. */
  predicate EndsAt(t: string, p: nat, d: string, e: nat) {
    p + |d| <= e <= |t| && t[e - |d|..e] == d
  }

  /** Where the first occurrence of `d` at or after `p` ends. */
  function FindEnd(t: string, p: nat, d: string): (r: Option<nat>)
    requires p <= |t|
    ensures r.Some? ==> p + |d| <= r.value <= |t|
    decreases |t| - p
  {
    if p + |d| > |t| then None
    else if t[p..p + |d|] == d then Some(p + |d|)
    else FindEnd(t, p + 1, d)
  }

  /** FindEnd returns the first end of an occurrence, and fails only when there is none. */
  lemma {:induction false} FindEndFirst(t: string, p: nat, d: string)
    requires p <= |t|
    ensures var r := FindEnd(t, p, d);
            && (r.Some? ==> EndsAt(t, p, d, r.value) && forall e :: p <= e < r.value ==> !EndsAt(t, p, d, e))
            && (r.None? ==> forall e :: p <= e <= |t| ==> !EndsAt(t, p, d, e))
    decreases |t| - p
  {
    if p + |d| <= |t| && t[p..p + |d|] != d {
      FindEndFirst(t, p + 1, d);
      assert forall e :: EndsAt(t, p, d, e) ==> e == p + |d| || EndsAt(t, p + 1, d, e);
    }
  }

  /** The `i`-th character of the queue counted round from `pos`. */
  function Slot(queue: seq<char>, pos: nat, i: nat): char
    requires pos < |queue| && i < |queue|
  {
    if pos + i < |queue| then queue[pos + i] else queue[pos + i - |queue|]
  }

  /** The queue, read from `pos` round to `pos`, spells `s`. */
  ghost predicate Spells(queue: seq<char>, pos: nat, s: string)
    requires |queue| == |s| && pos < |s|
  {
    forall i: nat :: i < |s| ==> s[i] == Slot(queue, pos, i)
  }

  method CompareStringToQueue(s: string, queue: array<char>, start: nat) returns (same: bool)
    requires queue.Length == |s| && start < |s|
    ensures same <==> Spells(queue[..], start, s)
  {
    var pos := start;
    for i := 0 to |s|
      invariant pos == if start + i < |s| then start + i else start + i - |s|
      invariant forall k: nat :: k < i ==> s[k] == Slot(queue[..], start, k)
    {
      if s[i] != queue[pos] {
        assert queue[pos] == Slot(queue[..], start, i);
        return false;
      }
      pos := pos + 1;
      if pos == |s| {
        pos := 0;
      }
    }
    same := true;
  }

  /** The character read `back` before `cur`, NUL for those before `p`. */
  function Past(t: string, p: nat, cur: nat, back: nat): char
    requires p <= cur <= |t| && back > 0
  {
    if back <= cur - p then t[cur - back] else '\0'
  }

  /** The queue, read from `pos`, holds the last |queue| characters read between `p` and `cur`. */
  ghost predicate Recent(queue: seq<char>, pos: nat, t: string, p: nat, cur: nat)
    requires p <= cur <= |t|
  {
    && pos < |queue|
    && forall i: nat :: i < |queue| ==> Slot(queue, pos, i) == Past(t, p, cur, |queue| - i)
  }

  lemma RecentPush(queue: seq<char>, pos: nat, t: string, p: nat, cur: nat)
    requires p <= cur < |t| && Recent(queue, pos, t, p, cur)
    ensures Recent(queue[pos := t[cur]], if pos + 1 == |queue| then 0 else pos + 1, t, p, cur + 1)
  {
    var n := |queue|;
    var pos' := if pos + 1 == n then 0 else pos + 1;
    var queue' := queue[pos := t[cur]];
    forall i: nat | i < n ensures Slot(queue', pos', i) == Past(t, p, cur + 1, n - i) {
      if i < n - 1 {
        assert Slot(queue', pos', i) == Slot(queue, pos, i + 1);
      }
    }
  }

  /** For a delimiter that does not start with NUL the queue test is the suffix test. */
  lemma RecentSpells(queue: seq<char>, pos: nat, t: string, p: nat, cur: nat, d: string)
    requires p <= cur <= |t| && |queue| == |d| && Recent(queue, pos, t, p, cur)
    requires d != "" && d[0] != '\0'
    ensures Spells(queue, pos, d) <==> EndsAt(t, p, d, cur)
  {
    var n := |d|;
    if Spells(queue, pos, d) {
      assert d[0] == Slot(queue, pos, 0) == Past(t, p, cur, n);
      forall i: nat | i < n ensures t[cur - n..cur][i] == d[i] {
        assert d[i] == Slot(queue, pos, i) == Past(t, p, cur, n - i);
      }
      assert t[cur - n..cur] == d;
    }
    if EndsAt(t, p, d, cur) {
      forall i: nat | i < n ensures d[i] == Slot(queue, pos, i) {
        assert d[i] == t[cur - n..cur][i];
      }
    }
  }

  /** One character into the queue, then the comparison with the delimiter. */
  method PushAndCompare(queue: array<char>, start: nat, c: char, d: string, ghost t: string, ghost p: nat, ghost cur: nat)
    returns (pos: nat, same: bool)
    requires queue.Length == |d| && d != "" && d[0] != '\0'
    requires p <= cur < |t| && c == t[cur] && Recent(queue[..], start, t, p, cur)
    modifies queue
    ensures Recent(queue[..], pos, t, p, cur + 1)
    ensures same <==> EndsAt(t, p, d, cur + 1)
  {
    RecentPush(queue[..], start, t, p, cur);
    ghost var before := queue[..];
    pos := start;
    queue[pos] := c;
    assert queue[..] == before[pos := c];
    pos := pos + 1;
    if pos == queue.Length {
      pos := 0;
    }
    RecentSpells(queue[..], pos, t, p, cur + 1, d);
    same := CompareStringToQueue(d, queue, pos);
  }

  /** A search that has found nothing up to `cur` but ends an occurrence there. */
  lemma FirstEnd(t: string, p: nat, d: string, cur: nat)
    requires p <= cur <= |t| && EndsAt(t, p, d, cur)
    requires forall e :: p <= e < cur ==> !EndsAt(t, p, d, e)
    ensures FindEnd(t, p, d) == Some(cur)
  {
    FindEndFirst(t, p, d);
  }

  /** Read on to just after the first occurrence of the delimiter, or to the end when there is none.
      An empty delimiter is never found. */
  method SkipUntilBoundary(ms: MimeInputSource, delimiter: string) returns (found: bool)
    requires ms.Ready() && (delimiter != "" ==> delimiter[0] != '\0')
    modifies ms, ms.data
    ensures ms.Ready()
    ensures delimiter == "" ==> !found && ms.offset == |ms.Text()|
    ensures delimiter != "" ==>
      var r := FindEnd(ms.Text(), old(ms.offset), delimiter);
      found == r.Some? && ms.offset == if r.Some? then r.value else |ms.Text()|
  {
    ghost var t, p := ms.Text(), ms.offset;
    var queue := new char[|delimiter|](_ => '\0');
    var pos := 0;
    while true
      invariant ms.Ready() && p <= ms.offset
      invariant delimiter != "" ==> Recent(queue[..], pos, t, p, ms.offset)
      invariant delimiter != "" ==> forall e :: p <= e <= ms.offset ==> !EndsAt(t, p, delimiter, e)
      decreases |t| - ms.offset
    {
      ghost var cur := ms.offset;
      var ok, c := ms.Next();
      if !ok {
        FindEndFirst(t, p, delimiter);
        return false;
      }
      if delimiter == "" {
        continue;
      }
      var same;
      pos, same := PushAndCompare(queue, pos, c, delimiter, t, p, cur);
      if same {
        FirstEnd(t, p, delimiter, ms.offset);
        return true;
      }
    }
  }
}
