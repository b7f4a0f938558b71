/** What n-gram sections mean: which substrings they give, that the modes agree, that the position
    advances alike. */
module NGramRuns {
  import opened Closed
  import opened SplitText
  import opened NGrams

  /** The mode used for indexing. */
  const DEFAULT: Mode := Mode(false, false)

  lemma InGramsEnding(t: seq<nat>, x: nat, to: nat, y: nat, pos: int, z: nat)
    requires x <= z < to <= y <= |t|
    ensures Gram(t, z, y, pos - (y - z - 1)) in GramsEnding(t, x, to, y, pos)
  {
    assert GramsEnding(t, x, to, y, pos)[z - x] == Gram(t, z, y, pos - (y - z - 1));
  }

  lemma FromGramsEnding(t: seq<nat>, x: nat, to: nat, y: nat, pos: int, term: Term) returns (z: nat)
    requires to <= y <= |t| && term in GramsEnding(t, x, to, y, pos)
    ensures x <= z < to && term == Gram(t, z, y, pos - (y - z - 1))
  {
    var k :| 0 <= k < to - x && GramsEnding(t, x, to, y, pos)[k] == term;
    z := x + k;
  }

  /** The gram that begins at `z` is one of those of character `i` in the default mode, at its position. */
  lemma InGramsAt(n: nat, t: seq<nat>, i: nat, c: nat, pos: int, z: nat, at: int)
    requires i < |t| && 0 < c <= i + 1 && i + 1 - c <= z <= i && at == pos - (i - z)
    ensures Gram(t, z, i + 1, at) in GramsAt(DEFAULT, n, t, i, c, pos)
  {
    InGramsEnding(t, i + 1 - c, i + 1, i + 1, pos, z);
  }

  lemma FromGramsAt(n: nat, t: seq<nat>, i: nat, c: nat, pos: int, term: Term) returns (z: nat)
    requires i < |t| && 0 < c <= i + 1 && term in GramsAt(DEFAULT, n, t, i, c, pos)
    ensures i + 1 - c <= z <= i && term == Gram(t, z, i + 1, pos - (i - z))
  {
    z := FromGramsEnding(t, i + 1 - c, i + 1, i + 1, pos, term);
  }

  /** The section ends here with this term still to be given. */
  predicate Pending(mode: Mode, n: nat, t: seq<nat>, i: nat, count: nat, space: bool, pos: int, term: Term)
    requires count <= i <= |t|
  {
    && mode.onlyspans && 0 < count != n && (i == |t| || Breaks(t[i], space))
    && term == Gram(t, i - count, i, pos - count)
  }

  /** What one character adds in any mode, it adds in the default mode too. */
  lemma GramsAtAgree(mode: Mode, n: nat, t: seq<nat>, i: nat, count: nat, full: nat, pos: int, term: Term)
    requires i < |t| && 0 < count <= full <= n && full <= i + 1
    requires mode.onlyspans || count == full
    requires term in GramsAt(mode, n, t, i, count, pos)
    ensures term in GramsAt(DEFAULT, n, t, i, full, pos)
  {
    var from := if mode.nospans then i else i + 1 - count;
    var to := if mode.onlyspans then i + 2 - count else i + 1;
    var z := FromGramsEnding(t, from, to, i + 1, pos, term);
    InGramsEnding(t, i + 1 - full, i + 1, i + 1, pos, z);
  }

  /** Every term of a section in any mode is a term of the same section in the default mode, with the
      same position and byte extent, except a final one that the default mode gave before. */
  lemma {:induction false} SectionAgrees(cfg: Config, mode: Mode, n: nat, t: seq<nat>, i: nat, count: nat, full: nat,
                                         space: bool, pos: int)
    requires count <= full <= n && n > 0 && full <= i <= |t|
    requires if mode.onlyspans then count < n else count == full
    ensures var a, b := Section(cfg, mode, n, t, i, count, space, pos), Section(cfg, DEFAULT, n, t, i, full, space, pos);
            && a.next == b.next && a.wordpos == b.wordpos
            && forall term :: term in a.terms ==> term in b.terms || Pending(mode, n, t, i, count, space, pos, term)
    decreases |t| - i
  {
    if i == |t| || Breaks(t[i], space) {
    } else if IsSpace(cfg, t[i]) {
      SectionAgrees(cfg, mode, n, t, i + 1, 0, 0, true, pos);
    } else {
      var c, f := Grow(count, n), Grow(full, n);
      var c' := if mode.onlyspans && c == n then 0 else c;
      SectionAgrees(cfg, mode, n, t, i + 1, c', f, false, pos + 1);
      var a, b := Section(cfg, mode, n, t, i, count, space, pos), Section(cfg, DEFAULT, n, t, i, full, space, pos);
      forall term | term in a.terms ensures term in b.terms {
        StepAgrees(cfg, mode, n, t, i, c, f, pos, term);
      }
    }
  }

  lemma StepAgrees(cfg: Config, mode: Mode, n: nat, t: seq<nat>, i: nat, c: nat, f: nat, pos: int, term: Term)
    requires 0 < c <= f <= n && f <= i + 1 && i < |t| && (mode.onlyspans || c == f)
    requires var c' := if mode.onlyspans && c == n then 0 else c;
             var a, b := Section(cfg, mode, n, t, i + 1, c', false, pos + 1), Section(cfg, DEFAULT, n, t, i + 1, f, false, pos + 1);
             && (term in GramsAt(mode, n, t, i, c, pos) || term in a.terms)
             && (term in a.terms ==> term in b.terms || Pending(mode, n, t, i + 1, c', false, pos + 1, term))
    ensures term in GramsAt(DEFAULT, n, t, i, f, pos) + Section(cfg, DEFAULT, n, t, i + 1, f, false, pos + 1).terms
  {
    if term in GramsAt(mode, n, t, i, c, pos) {
      GramsAtAgree(mode, n, t, i, c, f, pos, term);
    } else if term !in Section(cfg, DEFAULT, n, t, i + 1, f, false, pos + 1).terms {
      InGramsEnding(t, i + 1 - f, i + 1, i + 1, pos, i + 1 - c);
    }
  }

  /** The section goes on from `a` to `b` without white space, and does not go on so any further. `space`
      tells whether white space came just before `a`. */
  predicate IsRun(cfg: Config, t: seq<nat>, a: nat, b: nat, space: bool) {
    && a <= b <= |t|
    && (forall i :: a <= i < b ==> !Breaks(t[i], space && i == a) && !IsSpace(cfg, t[i]))
    && (b < |t| ==> Breaks(t[b], space && a == b) || IsSpace(cfg, t[b]))
  }

  /** The section ends at `b`. */
  predicate EndsAt(t: seq<nat>, b: nat, space: bool) {
    b >= |t| || Breaks(t[b], space)
  }

  /** What the section gives after a run that ends at `b`: nothing, or what comes after the white space. */
  function AfterRun(cfg: Config, mode: Mode, n: nat, t: seq<nat>, b: nat, space: bool, pos: int): Grams
    requires b <= |t| && n > 0
  {
    if EndsAt(t, b, space) then Grams([], b, pos) else Section(cfg, mode, n, t, b + 1, 0, true, pos)
  }

  /** Characters `x` to `y` of a run that begins at `a` at position `p`. */
  function RunGram(t: seq<nat>, a: nat, p: int, x: nat, y: nat): Term
    requires x <= y <= |t|
  {
    Gram(t, x, y, p + x - a)
  }

  /** The term is that of characters `x` to `y` of the run, closed. */
  ghost predicate IsRunGram(t: seq<nat>, a: nat, p: int, x: nat, y: nat, term: Term) {
    forall eye :: Look(eye) ==> x <= y <= |t| && term == RunGram(t, a, p, x, y)
  }

  lemma IsRunGramIs(t: seq<nat>, a: nat, p: int, x: nat, y: nat, term: Term)
    ensures IsRunGram(t, a, p, x, y, term) <==> x <= y <= |t| && term == RunGram(t, a, p, x, y)
  {
    if IsRunGram(t, a, p, x, y, term) {
      assert Look(Eye);
    }
  }

  /** A substring of the run of at most `n` characters, at the position of its first character, ending
      after `i`. */
  ghost predicate IsGramOf(t: seq<nat>, a: nat, b: nat, n: nat, p: int, i: nat, term: Term)
    requires a <= b <= |t|
  {
    exists x: nat, y: nat :: a <= x < y <= b && y - x <= n && i < y && IsRunGram(t, a, p, x, y, term)
  }

  /** In the default mode a run gives exactly its substrings of length 1 to n, each at the position of
      its first character with exact byte offsets, whatever follows it. */
  lemma {:induction false} RunGivesAllGrams(cfg: Config, n: nat, t: seq<nat>, a: nat, i: nat, b: nat, p: int, space: bool)
    requires n > 0 && a <= i <= b && IsRun(cfg, t, i, b, space)
    ensures var count := if i - a <= n then i - a else n;
            var r, rest := Section(cfg, DEFAULT, n, t, i, count, space, p + i - a),
                           AfterRun(cfg, DEFAULT, n, t, b, space && i == b, p + b - a);
            && r.next == rest.next && r.wordpos == rest.wordpos
            && forall term :: term in r.terms <==> IsGramOf(t, a, b, n, p, i, term) || term in rest.terms
    decreases b - i
  {
    var count := if i - a <= n then i - a else n;
    if i < b {
      RunGivesAllGrams(cfg, n, t, a, i + 1, b, p, false);
      var rest := AfterRun(cfg, DEFAULT, n, t, b, false, p + b - a);
      forall term ensures term in Section(cfg, DEFAULT, n, t, i, count, space, p + i - a).terms <==>
                          IsGramOf(t, a, b, n, p, i, term) || term in rest.terms
      {
        OneMoreChar(cfg, n, t, a, i, b, p, term);
      }
    }
  }

  lemma OneMoreChar(cfg: Config, n: nat, t: seq<nat>, a: nat, i: nat, b: nat, p: int, term: Term)
    requires n > 0 && a <= i < b <= |t|
    ensures var c := if i + 1 - a <= n then i + 1 - a else n;
            IsGramOf(t, a, b, n, p, i, term) <==>
            term in GramsAt(DEFAULT, n, t, i, c, p + i - a) || IsGramOf(t, a, b, n, p, i + 1, term)
  {
    var c := if i + 1 - a <= n then i + 1 - a else n;
    if term in GramsAt(DEFAULT, n, t, i, c, p + i - a) {
      GramOfHere(n, t, a, i, b, p, p + i - a, c, term);
    } else if IsGramOf(t, a, b, n, p, i, term) && !IsGramOf(t, a, b, n, p, i + 1, term) {
      HereInGrams(n, t, a, i, b, p, p + i - a, c, term);
    }
  }

  lemma GramOfHere(n: nat, t: seq<nat>, a: nat, i: nat, b: nat, p: int, pos: int, c: nat, term: Term)
    requires n > 0 && a <= i < b <= |t| && pos == p + i - a && c == if i + 1 - a <= n then i + 1 - a else n
    requires term in GramsAt(DEFAULT, n, t, i, c, pos)
    ensures IsGramOf(t, a, b, n, p, i, term)
  {
    var z := FromGramsAt(n, t, i, c, pos, term);
    IsRunGramIs(t, a, p, z, i + 1, term);
  }

  lemma HereInGrams(n: nat, t: seq<nat>, a: nat, i: nat, b: nat, p: int, pos: int, c: nat, term: Term)
    requires n > 0 && a <= i < b <= |t| && pos == p + i - a && c == if i + 1 - a <= n then i + 1 - a else n
    requires IsGramOf(t, a, b, n, p, i, term) && !IsGramOf(t, a, b, n, p, i + 1, term)
    ensures term in GramsAt(DEFAULT, n, t, i, c, pos)
  {
    var x := EndsHere(n, t, a, i, b, p, term);
    IsRunGramIs(t, a, p, x, i + 1, term);
    InGramsAt(n, t, i, c, pos, x, p + x - a);
  }

  lemma GramEnds(n: nat, t: seq<nat>, a: nat, i: nat, b: nat, p: int, term: Term, x: nat, y: nat)
    requires a <= x < y <= b <= |t| && y - x <= n && i < y && IsRunGram(t, a, p, x, y, term)
    requires !IsGramOf(t, a, b, n, p, i + 1, term)
    ensures y == i + 1 && IsRunGram(t, a, p, x, i + 1, term)
  {
  }

  lemma EndsHere(n: nat, t: seq<nat>, a: nat, i: nat, b: nat, p: int, term: Term) returns (x: nat)
    requires n > 0 && a <= i < b <= |t|
    requires IsGramOf(t, a, b, n, p, i, term) && !IsGramOf(t, a, b, n, p, i + 1, term)
    ensures a <= x <= i && i + 1 - x <= n && IsRunGram(t, a, p, x, i + 1, term)
  {
    var y: nat;
    x, y :| a <= x < y <= b && y - x <= n && i < y && IsRunGram(t, a, p, x, y, term);
    GramEnds(n, t, a, i, b, p, term, x, y);
  }

  /** Consecutive pieces of `n` characters, the last one shorter. */
  function Tiles(t: seq<nat>, x: nat, b: nat, n: nat, p: int): seq<Term>
    requires x <= b <= |t| && n > 0
    decreases b - x
  {
    if x == b then []
    else
      var y := if x + n <= b then x + n else b;
      [Gram(t, x, y, p)] + Tiles(t, y, b, n, p + y - x)
  }

  lemma OnlySpansStep(cfg: Config, n: nat, t: seq<nat>, i: nat, count: nat, p: int, space: bool)
    requires i < |t| && count <= i && count < n && !Breaks(t[i], space) && !IsSpace(cfg, t[i])
    ensures var full := count + 1 == n;
            var rest := Section(cfg, ONLYSPANS, n, t, i + 1, if full then 0 else count + 1, false, p + 1);
            Section(cfg, ONLYSPANS, n, t, i, count, space, p) ==
            rest.(terms := (if full then [Gram(t, i - count, i + 1, p - count)] else []) + rest.terms)
  {
    if count + 1 == n {
      WholeWindow(n, t, i, count, p);
    }
  }

  lemma WholeWindow(n: nat, t: seq<nat>, i: nat, count: nat, p: int)
    requires i < |t| && count <= i && count + 1 == n
    ensures GramsAt(ONLYSPANS, n, t, i, n, p) == [Gram(t, i - count, i + 1, p - count)]
  {
  }

  /** The pieces of `n` characters only. */
  function FullTiles(t: seq<nat>, x: nat, b: nat, n: nat, p: int): seq<Term>
    requires x <= b <= |t| && n > 0
    decreases b - x
  {
    if x + n > b then [] else [Gram(t, x, x + n, p)] + FullTiles(t, x + n, b, n, p + n)
  }

  /** The full pieces are all of them exactly when they fit. */
  lemma {:induction false} FullTilesAreAll(t: seq<nat>, x: nat, b: nat, n: nat, p: int)
    requires x <= b <= |t| && n > 0
    ensures FullTiles(t, x, b, n, p) == Tiles(t, x, b, n, p) <==> (b - x) % n == 0
    decreases b - x
  {
    if x + n <= b {
      FullTilesAreAll(t, x + n, b, n, p + n);
      ModStep(b - x, n);
      FirstTile(t, x, x + n, b, n, p, p + n);
    } else {
      LastTile(t, x, b, n, p);
    }
  }

  lemma FirstTile(t: seq<nat>, x: nat, y: nat, b: nat, n: nat, p: int, q: int)
    requires n > 0 && x + n == y <= b <= |t| && q == p + n
    ensures FullTiles(t, x, b, n, p) == Tiles(t, x, b, n, p) <==> FullTiles(t, y, b, n, q) == Tiles(t, y, b, n, q)
  {
    SameTail(Gram(t, x, y, p), FullTiles(t, y, b, n, q), Tiles(t, y, b, n, q));
  }

  lemma LastTile(t: seq<nat>, x: nat, b: nat, n: nat, p: int)
    requires x <= b <= |t| && b < x + n
    ensures FullTiles(t, x, b, n, p) == Tiles(t, x, b, n, p) <==> (b - x) % n == 0
  {
    assert x < b ==> |Tiles(t, x, b, n, p)| > 0;
    if x < b {
      SmallMod(b - x, n);
    }
  }

  lemma SameTail(a: Term, b: seq<Term>, c: seq<Term>)
    ensures [a] + b == [a] + c <==> b == c
  {
    assert ([a] + b)[1..] == b && ([a] + c)[1..] == c;
  }

  lemma ModStep(m: nat, n: nat)
    requires m >= n > 0
    ensures (m - n) % n == m % n
  {
    assert m == (m / n) * n + m % n;
    assert m - n == (m / n - 1) * n + m % n;
    ModUnique(m - n, n, m / n - 1, m % n);
  }

  lemma ModUnique(m: int, n: nat, q: int, r: nat)
    requires n > 0 && m == q * n + r && r < n
    ensures m % n == r
  {
    var d := m / n - q;
    assert d * n == r - m % n;
    assert (d >= 1 ==> d * n >= n) && (d <= -1 ==> d * n <= 0 - n);
  }

  lemma SmallMod(m: nat, n: nat)
    requires 0 < m < n
    ensures m % n == m
  {
  }

  /** What spans only mode gives for a run whose tile being filled began at `x` at position `q`: all its
      tiles if the section ends there, else the full ones and the rest, what comes after the white space. */
  function SpansOf(n: nat, t: seq<nat>, x: nat, b: nat, q: int, ends: bool, rest: Grams): Grams
    requires x <= b <= |t| && n > 0
  {
    rest.(terms := (if ends then Tiles(t, x, b, n, q) else FullTiles(t, x, b, n, q)) + rest.terms)
  }

  const ONLYSPANS: Mode := Mode(true, false)

  /** The section from `i` on, `count` characters being in the window, gives `r`. */
  ghost predicate Gives(cfg: Config, n: nat, t: seq<nat>, i: nat, count: nat, space: bool, pos: int, r: Grams) {
    forall eye :: Look(eye) ==>
      n > 0 && count <= i <= |t| && count <= n && Section(cfg, ONLYSPANS, n, t, i, count, space, pos) == r
  }

  lemma GivesIs(cfg: Config, n: nat, t: seq<nat>, i: nat, count: nat, space: bool, pos: int, r: Grams)
    ensures Gives(cfg, n, t, i, count, space, pos, r) <==>
            n > 0 && count <= i <= |t| && count <= n && Section(cfg, ONLYSPANS, n, t, i, count, space, pos) == r
  {
    if Gives(cfg, n, t, i, count, space, pos, r) {
      assert Look(Eye);
    }
  }

  lemma TileEnds(cfg: Config, n: nat, t: seq<nat>, x: nat, b: nat, q: int, space: bool, count: nat, pos: int,
                 ends: bool, rest: Grams)
    requires x <= b <= |t| && count == b - x < n && pos == q + count && IsRun(cfg, t, b, b, space)
    requires ends == EndsAt(t, b, space) && rest == AfterRun(cfg, ONLYSPANS, n, t, b, space, pos)
    ensures Gives(cfg, n, t, b, count, space, pos, SpansOf(n, t, x, b, q, ends, rest))
  {
    if ends {
      LastTileEnds(cfg, n, t, x, b, q, space, count, pos, Grams(Tiles(t, x, b, n, q), b, pos));
      AllTiles(n, t, x, b, q, pos);
    } else {
      LostTileEnds(cfg, n, t, x, b, q, space, count, pos, rest);
    }
  }

  lemma LastTileEnds(cfg: Config, n: nat, t: seq<nat>, x: nat, b: nat, q: int, space: bool, count: nat, pos: int, r: Grams)
    requires x <= b <= |t| && count == b - x < n && pos == q + count && EndsAt(t, b, space)
    requires r == Grams(Tiles(t, x, b, n, q), b, pos)
    ensures Gives(cfg, n, t, b, count, space, pos, r)
  {
    OneTile(t, x, b, n, q);
    LastFlush(cfg, n, t, x, b, q, space, count, pos);
    GivesIs(cfg, n, t, b, count, space, pos, r);
  }

  lemma AllTiles(n: nat, t: seq<nat>, x: nat, b: nat, q: int, pos: int)
    requires x <= b <= |t| && n > 0
    ensures SpansOf(n, t, x, b, q, true, Grams([], b, pos)) == Grams(Tiles(t, x, b, n, q), b, pos)
  {
    assert Tiles(t, x, b, n, q) + [] == Tiles(t, x, b, n, q);
  }

  lemma LostTileEnds(cfg: Config, n: nat, t: seq<nat>, x: nat, b: nat, q: int, space: bool, count: nat, pos: int,
                     rest: Grams)
    requires x <= b < |t| && count == b - x < n && !Breaks(t[b], space) && IsSpace(cfg, t[b])
    requires rest == Section(cfg, ONLYSPANS, n, t, b + 1, 0, true, pos)
    ensures Gives(cfg, n, t, b, count, space, pos, SpansOf(n, t, x, b, q, false, rest))
  {
    assert [] + rest.terms == rest.terms;
    SpaceFlush(cfg, n, t, b, space, count, pos);
    GivesIs(cfg, n, t, b, count, space, pos, rest);
  }

  lemma OneTile(t: seq<nat>, x: nat, b: nat, n: nat, q: int)
    requires x <= b <= |t| && b - x < n
    ensures Tiles(t, x, b, n, q) == if x == b then [] else [Gram(t, x, b, q)]
  {
    if x < b {
      assert Tiles(t, b, b, n, q + b - x) == [];
    }
  }

  lemma LastFlush(cfg: Config, n: nat, t: seq<nat>, x: nat, b: nat, q: int, space: bool, count: nat, pos: int)
    requires x <= b <= |t| && count == b - x < n && pos == q + count && EndsAt(t, b, space)
    ensures Section(cfg, ONLYSPANS, n, t, b, count, space, pos) ==
            Grams(if x == b then [] else [Gram(t, x, b, q)], b, pos)
  {
  }

  lemma SpaceFlush(cfg: Config, n: nat, t: seq<nat>, b: nat, space: bool, count: nat, pos: int)
    requires count <= b < |t| && count < n && !Breaks(t[b], space) && IsSpace(cfg, t[b])
    ensures Section(cfg, ONLYSPANS, n, t, b, count, space, pos) == Section(cfg, ONLYSPANS, n, t, b + 1, 0, true, pos)
  {
  }

  /** Character `i` completes the tile that began at `x`; the next one begins at `y`. */
  lemma TileCompletes(cfg: Config, n: nat, t: seq<nat>, x: nat, i: nat, y: nat, q: int, q': int, space: bool, count: nat,
                      pos: int, r: Grams)
    requires n > 0 && x + n == y == i + 1 <= |t| && q' == q + n && count == i - x && pos == q + count
    requires !Breaks(t[i], space) && !IsSpace(cfg, t[i]) && Gives(cfg, n, t, y, 0, false, q', r)
    ensures Gives(cfg, n, t, i, count, space, pos, r.(terms := [Gram(t, x, y, q)] + r.terms))
  {
    GivesIs(cfg, n, t, y, 0, false, q', r);
    OnlySpansStep(cfg, n, t, i, count, pos, space);
    GivesIs(cfg, n, t, i, count, space, pos, r.(terms := [Gram(t, x, y, q)] + r.terms));
  }

  lemma OneMoreTile(n: nat, t: seq<nat>, x: nat, y: nat, b: nat, q: int, q': int, ends: bool, rest: Grams)
    requires n > 0 && x + n == y <= b <= |t| && q' == q + n
    ensures var r := SpansOf(n, t, y, b, q', ends, rest);
            SpansOf(n, t, x, b, q, ends, rest) == r.(terms := [Gram(t, x, y, q)] + r.terms)
  {
    if ends {
      JoinTerms(Gram(t, x, y, q), Tiles(t, y, b, n, q'), rest.terms);
    } else {
      JoinTerms(Gram(t, x, y, q), FullTiles(t, y, b, n, q'), rest.terms);
    }
  }

  lemma JoinTerms(a: Term, b: seq<Term>, c: seq<Term>)
    ensures [a] + (b + c) == [a] + b + c
  {
  }

  lemma TileGrows(cfg: Config, n: nat, t: seq<nat>, i: nat, next: nat, space: bool, count: nat, more: nat, pos: int,
                  after: int, r: Grams)
    requires count <= i < |t| && next == i + 1 && more == count + 1 < n && after == pos + 1
    requires !Breaks(t[i], space) && !IsSpace(cfg, t[i]) && Gives(cfg, n, t, next, more, false, after, r)
    ensures Gives(cfg, n, t, i, count, space, pos, r)
  {
    GivesIs(cfg, n, t, next, more, false, after, r);
    OnlySpansStep(cfg, n, t, i, count, pos, space);
    assert [] + r.terms == r.terms;
    GivesIs(cfg, n, t, i, count, space, pos, r);
  }

  /** How a run ends at `b`, and what comes after it, closed. */
  ghost predicate Ending(cfg: Config, n: nat, t: seq<nat>, b: nat, space: bool, pos: int, ends: bool, rest: Grams) {
    forall eye :: Look(eye) ==>
      n > 0 && b <= |t| && ends == EndsAt(t, b, space) && rest == AfterRun(cfg, ONLYSPANS, n, t, b, space, pos)
  }

  lemma EndingIs(cfg: Config, n: nat, t: seq<nat>, b: nat, space: bool, pos: int, ends: bool, rest: Grams)
    ensures Ending(cfg, n, t, b, space, pos, ends, rest) <==>
            n > 0 && b <= |t| && ends == EndsAt(t, b, space) && rest == AfterRun(cfg, ONLYSPANS, n, t, b, space, pos)
  {
    if Ending(cfg, n, t, b, space, pos, ends, rest) {
      assert Look(Eye);
    }
  }

  /** A run that goes on from `i` to `b` while a tile is being filled since `x`, and all it gives. */
  ghost predicate Filling(cfg: Config, n: nat, t: seq<nat>, x: nat, i: nat, b: nat, q: int, space: bool, end: int,
                          ends: bool, rest: Grams, r: Grams)
  {
    && x <= i && i - x < n && IsRun(cfg, t, i, b, space) && end == q + b - x
    && Ending(cfg, n, t, b, space && i == b, end, ends, rest) && r == SpansOf(n, t, x, b, q, ends, rest)
  }

  /** Filling, closed. */
  ghost predicate Fills(cfg: Config, n: nat, t: seq<nat>, x: nat, i: nat, b: nat, q: int, space: bool, end: int,
                        ends: bool, rest: Grams, r: Grams)
  {
    forall eye :: Look(eye) ==> Filling(cfg, n, t, x, i, b, q, space, end, ends, rest, r)
  }

  lemma FillsIs(cfg: Config, n: nat, t: seq<nat>, x: nat, i: nat, b: nat, q: int, space: bool, end: int, ends: bool,
                rest: Grams, r: Grams)
    ensures Fills(cfg, n, t, x, i, b, q, space, end, ends, rest, r) <==>
            Filling(cfg, n, t, x, i, b, q, space, end, ends, rest, r)
  {
    if Fills(cfg, n, t, x, i, b, q, space, end, ends, rest, r) {
      assert Look(Eye);
    }
  }

  lemma FillsToEnd(cfg: Config, n: nat, t: seq<nat>, x: nat, b: nat, q: int, space: bool, count: nat, pos: int, ends: bool,
                   rest: Grams, r: Grams)
    requires x <= b && count == b - x && pos == q + count
    requires Fills(cfg, n, t, x, b, b, q, space, pos, ends, rest, r)
    ensures Gives(cfg, n, t, b, count, space, pos, r)
  {
    FillsIs(cfg, n, t, x, b, b, q, space, pos, ends, rest, r);
    EndingIs(cfg, n, t, b, space, pos, ends, rest);
    TileEnds(cfg, n, t, x, b, q, space, count, pos, ends, rest);
  }

  /** One more character that leaves the tile to be filled. */
  lemma FillsOn(cfg: Config, n: nat, t: seq<nat>, x: nat, i: nat, next: nat, b: nat, q: int, space: bool, end: int,
                ends: bool, rest: Grams, r: Grams)
    requires x <= i && next == i + 1 && i < b && next - x < n
    requires Fills(cfg, n, t, x, i, b, q, space, end, ends, rest, r)
    ensures i < |t| && !Breaks(t[i], space) && !IsSpace(cfg, t[i])
    ensures Fills(cfg, n, t, x, next, b, q, false, end, ends, rest, r)
  {
    FillsIs(cfg, n, t, x, i, b, q, space, end, ends, rest, r);
    FillsIs(cfg, n, t, x, next, b, q, false, end, ends, rest, r);
  }

  /** The character that completes the tile. */
  lemma FillsNew(cfg: Config, n: nat, t: seq<nat>, x: nat, i: nat, next: nat, b: nat, q: int, q': int, space: bool,
                 end: int, ends: bool, rest: Grams, r: Grams)
    returns (r': Grams)
    requires x <= i && next == i + 1 == x + n && i < b && q' == q + n
    requires Fills(cfg, n, t, x, i, b, q, space, end, ends, rest, r)
    ensures i < |t| && !Breaks(t[i], space) && !IsSpace(cfg, t[i])
    ensures Fills(cfg, n, t, next, next, b, q', false, end, ends, rest, r')
    ensures r == r'.(terms := [Gram(t, x, next, q)] + r'.terms)
  {
    FillsIs(cfg, n, t, x, i, b, q, space, end, ends, rest, r);
    r' := SpansOf(n, t, next, b, q', ends, rest);
    OneMoreTile(n, t, x, next, b, q, q', ends, rest);
    FillsIs(cfg, n, t, next, next, b, q', false, end, ends, rest, r');
  }

  lemma {:induction false} RunIsTiled(cfg: Config, n: nat, t: seq<nat>, x: nat, i: nat, b: nat, q: int, space: bool,
                                      count: nat, pos: int, end: int, ends: bool, rest: Grams, r: Grams)
    requires x <= i <= b && count == i - x < n && pos == q + count && end == q + b - x
    requires Fills(cfg, n, t, x, i, b, q, space, end, ends, rest, r)
    ensures Gives(cfg, n, t, i, count, space, pos, r)
    decreases b - i
  {
    if i == b {
      assert end == pos;
      FillsToEnd(cfg, n, t, x, b, q, space, count, pos, ends, rest, r);
    } else if count + 1 == n {
      var next, q' := i + 1, q + n;
      assert next == x + n && q' == pos + 1 && end == q' + b - next;
      var r' := FillsNew(cfg, n, t, x, i, next, b, q, q', space, end, ends, rest, r);
      RunIsTiled(cfg, n, t, next, next, b, q', false, 0, q', end, ends, rest, r');
      TileCompletes(cfg, n, t, x, i, next, q, q', space, count, pos, r');
    } else {
      FillsOn(cfg, n, t, x, i, i + 1, b, q, space, end, ends, rest, r);
      RunIsTiled(cfg, n, t, x, i + 1, b, q, false, count + 1, pos + 1, end, ends, rest, r);
      TileGrows(cfg, n, t, i, i + 1, space, count, count + 1, pos, pos + 1, r);
    }
  }

  /** When only spans are wanted, a run that ends the section is tiled, without gap or overlap; of a run
      before white space only the full tiles are given, which leaves nothing out exactly when they fit. */
  lemma OnlySpansTileTheRun(cfg: Config, n: nat, t: seq<nat>, a: nat, b: nat, p: int, space: bool)
    requires n > 0 && IsRun(cfg, t, a, b, space)
    ensures var ends := EndsAt(t, b, space && a == b);
            var r, rest := Section(cfg, ONLYSPANS, n, t, a, 0, space, p),
                           AfterRun(cfg, ONLYSPANS, n, t, b, space && a == b, p + b - a);
            && r == rest.(terms := (if ends then Tiles(t, a, b, n, p) else FullTiles(t, a, b, n, p)) + rest.terms)
            && (r.terms == Tiles(t, a, b, n, p) + rest.terms <==> ends || (b - a) % n == 0)
  {
    var ends := EndsAt(t, b, space && a == b);
    var rest := AfterRun(cfg, ONLYSPANS, n, t, b, space && a == b, p + b - a);
    var all := SpansOf(n, t, a, b, p, ends, rest);
    EndingIs(cfg, n, t, b, space && a == b, p + b - a, ends, rest);
    FillsIs(cfg, n, t, a, a, b, p, space, p + b - a, ends, rest, all);
    RunIsTiled(cfg, n, t, a, a, b, p, space, 0, p, p + b - a, ends, rest, all);
    GivesIs(cfg, n, t, a, 0, space, p, all);
    FullTilesAreAll(t, a, b, n, p);
    SameFront(Tiles(t, a, b, n, p), FullTiles(t, a, b, n, p), rest.terms);
  }

  lemma SameFront(a: seq<Term>, b: seq<Term>, c: seq<Term>)
    ensures a + c == b + c <==> a == b
  {
    if a + c == b + c {
      assert (a + c)[..|a|] == a && (b + c)[..|b|] == b;
    }
  }

  /** A character before white space that no span holds. */
  lemma LostBeforeSpace(cfg: Config)
    requires cfg.table(0x4e00) == TableLetter
    ensures var t := [0x4e00, ' ' as nat];
            && Section(cfg, ONLYSPANS, 2, t, 0, 0, false, 0).terms == []
            && Section(cfg, DEFAULT, 2, t, 0, 0, false, 0).terms == [Gram(t, 0, 1, 0)]
  {
    var t := [0x4e00, ' ' as nat];
    assert Section(cfg, ONLYSPANS, 2, t, 2, 0, true, 1).terms == [];
    assert Section(cfg, DEFAULT, 2, t, 2, 0, true, 1).terms == [];
    assert GramsAt(DEFAULT, 2, t, 0, 1, 0) == [Gram(t, 0, 1, 0)];
  }

  /** Tiles follow one another without a gap, from one end of the run to the other. */
  lemma {:induction false} TilesCover(t: seq<nat>, x: nat, b: nat, n: nat, p: int)
    requires x < b <= |t| && n > 0
    ensures var s := Tiles(t, x, b, n, p);
            && s != [] && s[0].bts == Bpos(t, x) && s[|s| - 1].bte == Bpos(t, b)
            && forall k :: 0 <= k < |s| - 1 ==> s[k].bte == s[k + 1].bts
    decreases b - x
  {
    var y := if x + n <= b then x + n else b;
    if y < b {
      TilesCover(t, y, b, n, p + y - x);
    }
  }

  // Whole sections.

  /** How many characters of `s` to `x` are no white space. */
  function Solids(cfg: Config, t: seq<nat>, s: nat, x: nat): nat
    requires s <= x <= |t|
    decreases x
  {
    if s == x then 0 else Solids(cfg, t, s, x - 1) + (if IsSpace(cfg, t[x - 1]) then 0 else 1)
  }

  predicate Solid(cfg: Config, t: seq<nat>, x: nat, y: nat)
    requires x <= y <= |t|
  {
    forall k :: x <= k < y ==> !IsSpace(cfg, t[k])
  }

  lemma {:induction false} SolidsOfSolid(cfg: Config, t: seq<nat>, s: nat, x: nat, y: nat)
    requires s <= x <= y <= |t| && Solid(cfg, t, x, y)
    ensures Solids(cfg, t, s, y) == Solids(cfg, t, s, x) + y - x
    decreases y
  {
    if x < y {
      SolidsOfSolid(cfg, t, s, x, y - 1);
    }
  }

  /** Characters `x` to `y` of the section that began at `s` at position `p`. */
  function SectionGram(cfg: Config, t: seq<nat>, s: nat, p: int, x: nat, y: nat): Term
    requires s <= x <= y <= |t|
  {
    Gram(t, x, y, p + Solids(cfg, t, s, x))
  }

  /** The term is that of characters `x` to `y`, none of them white space, closed. */
  ghost predicate IsStretch(cfg: Config, t: seq<nat>, s: nat, p: int, x: nat, y: nat, term: Term) {
    forall eye :: Look(eye) ==> s <= x <= y <= |t| && Solid(cfg, t, x, y) && term == SectionGram(cfg, t, s, p, x, y)
  }

  lemma IsStretchIs(cfg: Config, t: seq<nat>, s: nat, p: int, x: nat, y: nat, term: Term)
    ensures IsStretch(cfg, t, s, p, x, y, term) <==>
            s <= x <= y <= |t| && Solid(cfg, t, x, y) && term == SectionGram(cfg, t, s, p, x, y)
  {
    if IsStretch(cfg, t, s, p, x, y, term) {
      assert Look(Eye);
    }
  }

  /** A stretch of at most `n` characters without white space, ending after `i` and by `e`. */
  ghost predicate IsSectionGram(cfg: Config, n: nat, t: seq<nat>, s: nat, i: nat, e: nat, p: int, term: Term)
    requires s <= e <= |t|
  {
    exists x: nat, y: nat :: s <= x < y <= e && y - x <= n && i < y && IsStretch(cfg, t, s, p, x, y, term)
  }

  /** The current run began at `a`. */
  predicate RunBegan(cfg: Config, t: seq<nat>, s: nat, a: nat, i: nat)
    requires i <= |t|
  {
    s <= a <= i && (a > s ==> IsSpace(cfg, t[a - 1])) && Solid(cfg, t, a, i)
  }

  lemma SpaceAddsNoGram(cfg: Config, n: nat, t: seq<nat>, s: nat, i: nat, e: nat, p: int, term: Term)
    requires s <= i < e <= |t| && IsSpace(cfg, t[i])
    ensures IsSectionGram(cfg, n, t, s, i, e, p, term) <==> IsSectionGram(cfg, n, t, s, i + 1, e, p, term)
  {
    if IsSectionGram(cfg, n, t, s, i, e, p, term) {
      var x: nat, y: nat :| s <= x < y <= e && y - x <= n && i < y && IsStretch(cfg, t, s, p, x, y, term);
      IsStretchIs(cfg, t, s, p, x, y, term);
      assert i + 1 < y;
    }
  }

  /** A gram of character `i` is a stretch that ends with it. */
  lemma GramIsStretch(cfg: Config, n: nat, t: seq<nat>, s: nat, a: nat, i: nat, e: nat, p: int, c: nat, pos: int, term: Term)
    requires n > 0 && i < e <= |t| && RunBegan(cfg, t, s, a, i) && !IsSpace(cfg, t[i])
    requires c == (if i + 1 - a <= n then i + 1 - a else n) && pos == p + Solids(cfg, t, s, i)
    requires term in GramsAt(DEFAULT, n, t, i, c, pos)
    ensures IsSectionGram(cfg, n, t, s, i, e, p, term)
  {
    var z := FromGramsAt(n, t, i, c, pos, term);
    SolidsOfSolid(cfg, t, s, z, i);
    IsStretchIs(cfg, t, s, p, z, i + 1, term);
  }

  /** A stretch that ends with character `i` is one of its grams. */
  lemma StretchIsGram(cfg: Config, n: nat, t: seq<nat>, s: nat, a: nat, i: nat, p: int, c: nat, pos: int, x: nat)
    requires n > 0 && i < |t| && RunBegan(cfg, t, s, a, i) && a <= x <= i && i + 1 - x <= n
    requires c == (if i + 1 - a <= n then i + 1 - a else n) && pos == p + Solids(cfg, t, s, i)
    ensures SectionGram(cfg, t, s, p, x, i + 1) in GramsAt(DEFAULT, n, t, i, c, pos)
  {
    var at := p + Solids(cfg, t, s, x);
    assert Solid(cfg, t, x, i);
    SolidsOfSolid(cfg, t, s, x, i);
    assert pos == at + i - x;
    InGramsAt(n, t, i, c, pos, x, at);
  }

  lemma LastStretchIsGram(cfg: Config, n: nat, t: seq<nat>, s: nat, a: nat, i: nat, e: nat, p: int, c: nat, pos: int,
                          term: Term)
    requires n > 0 && i < e <= |t| && RunBegan(cfg, t, s, a, i) && !IsSpace(cfg, t[i])
    requires c == (if i + 1 - a <= n then i + 1 - a else n) && pos == p + Solids(cfg, t, s, i)
    requires IsSectionGram(cfg, n, t, s, i, e, p, term) && !IsSectionGram(cfg, n, t, s, i + 1, e, p, term)
    ensures term in GramsAt(DEFAULT, n, t, i, c, pos)
  {
    var x := SectionGramEnds(cfg, n, t, s, a, i, e, p, term);
    IsStretchIs(cfg, t, s, p, x, i + 1, term);
    StretchIsGram(cfg, n, t, s, a, i, p, c, pos, x);
  }

  lemma CharAddsGrams(cfg: Config, n: nat, t: seq<nat>, s: nat, a: nat, i: nat, e: nat, p: int, c: nat, pos: int,
                      term: Term)
    requires n > 0 && i < e <= |t| && RunBegan(cfg, t, s, a, i) && !IsSpace(cfg, t[i])
    requires c == (if i + 1 - a <= n then i + 1 - a else n) && pos == p + Solids(cfg, t, s, i)
    ensures IsSectionGram(cfg, n, t, s, i, e, p, term) <==>
            term in GramsAt(DEFAULT, n, t, i, c, pos) || IsSectionGram(cfg, n, t, s, i + 1, e, p, term)
  {
    if term in GramsAt(DEFAULT, n, t, i, c, pos) {
      GramIsStretch(cfg, n, t, s, a, i, e, p, c, pos, term);
    } else if IsSectionGram(cfg, n, t, s, i, e, p, term) && !IsSectionGram(cfg, n, t, s, i + 1, e, p, term) {
      LastStretchIsGram(cfg, n, t, s, a, i, e, p, c, pos, term);
    }
  }

  lemma StretchEnds(cfg: Config, n: nat, t: seq<nat>, s: nat, a: nat, i: nat, e: nat, p: int, term: Term, x: nat, y: nat)
    requires s <= x < y <= e <= |t| && y - x <= n && i < y && RunBegan(cfg, t, s, a, i)
    requires IsStretch(cfg, t, s, p, x, y, term) && !IsSectionGram(cfg, n, t, s, i + 1, e, p, term)
    ensures a <= x && y == i + 1 && IsStretch(cfg, t, s, p, x, i + 1, term)
  {
    IsStretchIs(cfg, t, s, p, x, y, term);
    assert a > s ==> IsSpace(cfg, t[a - 1]);
  }

  lemma SectionGramEnds(cfg: Config, n: nat, t: seq<nat>, s: nat, a: nat, i: nat, e: nat, p: int, term: Term)
    returns (x: nat)
    requires i < e <= |t| && RunBegan(cfg, t, s, a, i) && !IsSpace(cfg, t[i])
    requires IsSectionGram(cfg, n, t, s, i, e, p, term) && !IsSectionGram(cfg, n, t, s, i + 1, e, p, term)
    ensures a <= x <= i && i + 1 - x <= n && IsStretch(cfg, t, s, p, x, i + 1, term)
  {
    var y: nat;
    x, y :| s <= x < y <= e && y - x <= n && i < y && IsStretch(cfg, t, s, p, x, y, term);
    StretchEnds(cfg, n, t, s, a, i, e, p, term, x, y);
  }

  /** From character `i` on the section gives exactly these stretches. */
  ghost predicate AllGrams(cfg: Config, n: nat, t: seq<nat>, s: nat, i: nat, p: int, r: Grams) {
    forall eye :: Look(eye) ==>
      && s <= i <= r.next <= |t| && r.wordpos == p + Solids(cfg, t, s, r.next)
      && forall term :: term in r.terms <==> IsSectionGram(cfg, n, t, s, i, r.next, p, term)
  }

  lemma AllGramsIs(cfg: Config, n: nat, t: seq<nat>, s: nat, i: nat, p: int, r: Grams)
    ensures AllGrams(cfg, n, t, s, i, p, r) <==>
            && s <= i <= r.next <= |t| && r.wordpos == p + Solids(cfg, t, s, r.next)
            && forall term :: term in r.terms <==> IsSectionGram(cfg, n, t, s, i, r.next, p, term)
  {
    if AllGrams(cfg, n, t, s, i, p, r) {
      assert Look(Eye);
    }
  }

  lemma AllGramsEnd(cfg: Config, n: nat, t: seq<nat>, s: nat, i: nat, p: int, pos: int)
    requires s <= i <= |t| && pos == p + Solids(cfg, t, s, i)
    ensures AllGrams(cfg, n, t, s, i, p, Grams([], i, pos))
  {
    AllGramsIs(cfg, n, t, s, i, p, Grams([], i, pos));
  }

  lemma AllGramsSpace(cfg: Config, n: nat, t: seq<nat>, s: nat, i: nat, next: nat, p: int, r: Grams)
    requires s <= i < |t| && next == i + 1 && IsSpace(cfg, t[i]) && AllGrams(cfg, n, t, s, next, p, r)
    ensures AllGrams(cfg, n, t, s, i, p, r)
  {
    AllGramsIs(cfg, n, t, s, next, p, r);
    forall term ensures IsSectionGram(cfg, n, t, s, i, r.next, p, term) <==> IsSectionGram(cfg, n, t, s, next, r.next, p, term) {
      SpaceAddsNoGram(cfg, n, t, s, i, r.next, p, term);
    }
    AllGramsIs(cfg, n, t, s, i, p, r);
  }

  lemma AllGramsChar(cfg: Config, n: nat, t: seq<nat>, s: nat, a: nat, i: nat, next: nat, p: int, c: nat, pos: int,
                     r: Grams, here: seq<Term>)
    requires n > 0 && s <= i < |t| && next == i + 1 && RunBegan(cfg, t, s, a, i) && !IsSpace(cfg, t[i])
    requires c == (if next - a <= n then next - a else n) && pos == p + Solids(cfg, t, s, i)
    requires here == GramsAt(DEFAULT, n, t, i, c, pos) && AllGrams(cfg, n, t, s, next, p, r)
    ensures AllGrams(cfg, n, t, s, i, p, r.(terms := here + r.terms))
  {
    AllGramsIs(cfg, n, t, s, next, p, r);
    forall term ensures IsSectionGram(cfg, n, t, s, i, r.next, p, term) <==>
                        term in here || IsSectionGram(cfg, n, t, s, next, r.next, p, term)
    {
      CharAddsGrams(cfg, n, t, s, a, i, r.next, p, c, pos, term);
    }
    AllGramsIs(cfg, n, t, s, i, p, r.(terms := here + r.terms));
  }

  lemma {:induction false} SectionGrams(cfg: Config, n: nat, t: seq<nat>, s: nat, a: nat, i: nat, p: int, space: bool,
                                        count: nat, pos: int)
    requires n > 0 && s <= i <= |t| && RunBegan(cfg, t, s, a, i)
    requires count == (if i - a <= n then i - a else n) && pos == p + Solids(cfg, t, s, i)
    ensures AllGrams(cfg, n, t, s, i, p, Section(cfg, DEFAULT, n, t, i, count, space, pos))
    decreases |t| - i
  {
    var next := i + 1;
    if i == |t| || Breaks(t[i], space) {
      AllGramsEnd(cfg, n, t, s, i, p, pos);
    } else if IsSpace(cfg, t[i]) {
      SectionGrams(cfg, n, t, s, next, next, p, true, 0, pos);
      AllGramsSpace(cfg, n, t, s, i, next, p, Section(cfg, DEFAULT, n, t, next, 0, true, pos));
    } else {
      var c := Grow(count, n);
      SectionGrams(cfg, n, t, s, a, next, p, false, c, pos + 1);
      AllGramsChar(cfg, n, t, s, a, i, next, p, c, pos, Section(cfg, DEFAULT, n, t, next, c, false, pos + 1),
                   GramsAt(DEFAULT, n, t, i, c, pos));
    }
  }

  /** In the default mode a section gives exactly its stretches of 1 to n characters without white space,
      each at the start position plus the number of such characters before it; the position advances by
      the number of characters that are no white space. */
  lemma SectionGivesAllGrams(cfg: Config, n: nat, t: seq<nat>, s: nat, p: int, space: bool)
    requires n > 0 && s <= |t|
    ensures var r := Section(cfg, DEFAULT, n, t, s, 0, space, p);
            && s <= r.next <= |t| && r.wordpos == p + Solids(cfg, t, s, r.next)
            && forall term :: term in r.terms <==> IsSectionGram(cfg, n, t, s, s, r.next, p, term)
  {
    SectionGrams(cfg, n, t, s, s, s, p, space, 0, p);
    AllGramsIs(cfg, n, t, s, s, p, Section(cfg, DEFAULT, n, t, s, 0, space, p));
  }

  // Single words only.

  const NOSPANS: Mode := Mode(false, true)

  /** A term for each character from `s` to `e` that is no white space, at consecutive positions from `p` on. */
  function Characters(cfg: Config, t: seq<nat>, s: nat, e: nat, p: int): seq<Term>
    requires s <= e <= |t|
    decreases e - s
  {
    if s == e then []
    else if IsSpace(cfg, t[s]) then Characters(cfg, t, s + 1, e, p)
    else [Gram(t, s, s + 1, p)] + Characters(cfg, t, s + 1, e, p + 1)
  }

  /** When single words are wanted a section gives its characters, one by one. */
  lemma {:induction false} SectionGivesCharacters(cfg: Config, n: nat, t: seq<nat>, s: nat, count: nat, p: int, space: bool)
    requires n > 0 && count <= s <= |t| && count <= n
    ensures var r := Section(cfg, NOSPANS, n, t, s, count, space, p);
            s <= r.next <= |t| && r.terms == Characters(cfg, t, s, r.next, p)
    decreases |t| - s
  {
    if s < |t| && !Breaks(t[s], space) {
      if IsSpace(cfg, t[s]) {
        SectionGivesCharacters(cfg, n, t, s + 1, 0, p, true);
      } else {
        var c := Grow(count, n);
        SectionGivesCharacters(cfg, n, t, s + 1, c, p + 1, false);
        assert GramsAt(NOSPANS, n, t, s, c, p) == [Gram(t, s, s + 1, p)];
      }
    }
  }

  lemma {:induction false} NoBlanks(t: seq<nat>, x: nat, y: nat)
    requires x <= y <= |t| && forall k :: x <= k < y ==> t[k] !in {13, 10, 12, 32, 9}
    ensures forall b :: b in Bytes(t, x, y) ==> !IsBlank(b)
    decreases y
  {
    if x < y {
      NoBlanks(t, x, y - 1);
    }
  }

  /** The word of a gram without blanks is the text. */
  lemma {:induction false} GramIsText(t: seq<nat>, x: nat, y: nat, pos: int)
    requires x <= y <= |t| && forall k :: x <= k < y ==> t[k] !in {13, 10, 12, 32, 9}
    ensures Gram(t, x, y, pos) == Term(Bytes(t, x, y), pos, Bpos(t, x), Bpos(t, y))
  {
    NoBlanks(t, x, y);
  }
}
