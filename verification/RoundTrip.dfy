/** Messages written in the multipart syntax of RFC 2046 section 5.1.1, nested to any depth, and the
    proof that the parser finds in the rendered text exactly the parts it was rendered from. */
module RoundTrip {
  import opened Closed
  import opened LineEnds
  import opened InputSource
  import opened Common
  import opened Matcher
  import opened HeaderText
  import opened MimeSpec
  import opened Extents

  datatype Tree =
    | Leaf(header: seq<Item>, body: string)
    | Multi(header: seq<Item>, boundary: string, preamble: string, kids: seq<Tree>, epilogue: string)
    | Message(header: seq<Item>, inner: Tree)

  function RenderLine(item: Item): string {
    item.name + ": " + item.value + CRLF
  }

  /** Header lines and the empty line that ends them. */
  function RenderHeader(items: seq<Item>): string {
    if items == [] then CRLF else RenderLine(items[0]) + RenderHeader(items[1..])
  }

  function Render(tree: Tree): string
    decreases tree, 1
  {
    match tree
    case Leaf(header, body) => RenderHeader(header) + body
    case Multi(header, boundary, preamble, kids, epilogue) =>
      RenderHeader(header) + (preamble + "--" + boundary) + CRLF + RenderKids(kids, boundary) + epilogue
    case Message(header, inner) => RenderHeader(header) + Render(inner)
  }

  /** Parts separated by delimiter lines, and the closing delimiter. */
  function RenderKids(kids: seq<Tree>, boundary: string): string
    decreases kids, 0
  {
    if kids == [] then ""
    else if |kids| == 1 then Render(kids[0]) + Delimiter(boundary) + "--"
    else Render(kids[0]) + Delimiter(boundary) + CRLF + RenderKids(kids[1..], boundary)
  }

  function Delimiter(boundary: string): string {
    "\r\n--" + boundary
  }

  /** Does a line of the value end at `j` without a continuation? */
  predicate Unfolded(value: string, j: nat)
    requires j < |value|
  {
    value[j] == '\n' && (j + 1 == |value| || (value[j + 1] != ' ' && value[j + 1] != '\t'))
  }

  /** A header field with a trimmed value, which may go over several lines if each after the first begins with a
      blank. */
  predicate GoodItem(item: Item) {
    && ':' !in item.name && '\r' !in item.name
    && (item.name != "" ==> item.name[0] != ' ' && item.name[0] != '\t')
    && (forall j :: 0 <= j < |item.value| ==> !Unfolded(item.value, j))
    && (item.value != "" ==> item.value[0] !in BLANKS && item.value[|item.value| - 1] !in BLANKS)
  }

  predicate GoodHeader(items: seq<Item>) {
    items != [] && forall i :: 0 <= i < |items| ==> GoodItem(items[i])
  }

  predicate Lacks(s: string, d: string) {
    FindEnd(s, 0, d) == None
  }

  /** What the node itself must satisfy inside a multipart with boundary `outer`, "" for a whole
      document. */
  predicate GoodNode(tree: Tree, outer: string) {
    && GoodHeader(tree.header)
    && var kind := Analyze(tree.header);
       match tree
       case Leaf(_, body) => !kind.multipart && !kind.rfc822 && (outer != "" ==> Lacks(body, Delimiter(outer)))
       case Multi(_, boundary, preamble, kids, epilogue) =>
         && kind.multipart && kind.boundary == boundary
         && FindEnd(preamble + "--" + boundary, 0, "--" + boundary) == Some(|preamble| + 2 + |boundary|)
         && (outer != "" ==> Lacks(epilogue, Delimiter(outer)))
       case Message(_, inner) => kind.rfc822
  }

  /** GoodNode, closed to the proofs that only pass it on. */
  ghost predicate Good(tree: Tree, outer: string) {
    forall eye :: Look(eye) ==> GoodNode(tree, outer)
  }

  lemma GoodIs(tree: Tree, outer: string)
    ensures Good(tree, outer) <==> GoodNode(tree, outer)
  {
    if Good(tree, outer) {
      assert Look(Eye);
    }
  }

  /** What a part may look like inside a multipart with boundary `outer`, "" for a whole document. */
  ghost predicate WellFormed(tree: Tree, outer: string)
    decreases tree, 1
  {
    && Good(tree, outer)
    && match tree
       case Leaf(_, _) => true
       case Multi(_, boundary, _, kids, _) =>
         boundary != "" && '\r' !in boundary && kids != [] && WellFormedKids(kids, boundary)
       case Message(_, inner) => WellFormed(inner, outer)
  }

  ghost predicate WellFormedKids(kids: seq<Tree>, boundary: string)
    decreases kids, 0
  {
    kids == [] || (WellFormed(kids[0], boundary) && !("--" <= Render(kids[0])) && WellFormedKids(kids[1..], boundary))
  }

  // What becomes of the last body of a document that ends inside what may belong to its closing delimiter.

  /** Enough text follows the closing delimiter of a document. */
  predicate ClosedWell(epilogue: string) {
    |epilogue| >= 2 && (epilogue[..2] == CRLF ==> |epilogue| >= 4)
  }

  /** By how much the end of the last body is off when this text follows the closing delimiter. */
  function ClosingSlip(epilogue: string): (s: int)
    ensures -2 <= s <= 3 && (s == 0 <==> ClosedWell(epilogue))
  {
    if ClosedWell(epilogue) then 0
    else match |epilogue|
      case 0 => -2
      case 1 => -1
      case n => n
  }

  /** A body whose end is off by `s`, followed by a delimiter. */
  function SlippedBody(body: string, s: int): string
    requires s <= 3
  {
    if s >= 0 then body + "\r\n--"[..s] else body[..if |body| + s >= 0 then |body| + s else 0]
  }

  /** The part with its body off, if it is one that its delimiter ends directly. */
  function Slipped(tree: Tree, s: int): Tree
    requires s <= 3
  {
    match tree
    case Leaf(header, body) => Leaf(header, SlippedBody(body, s))
    case Multi(_, _, _, _, _) => tree
    case Message(header, inner) => Message(header, Slipped(inner, s))
  }

  function SlippedLast(kids: seq<Tree>, s: int): seq<Tree>
    requires s <= 3 && kids != []
  {
    kids[..|kids| - 1] + [Slipped(kids[|kids| - 1], s)]
  }

  /** The document that comes back. */
  function Returned(tree: Tree): Tree {
    match tree
    case Leaf(_, _) => tree
    case Multi(_, _, _, kids, epilogue) =>
      if kids == [] then tree else tree.(kids := SlippedLast(kids, ClosingSlip(epilogue)))
    case Message(header, inner) => Message(header, Returned(inner))
  }

  /** The part is a leaf, with enclosed messages around it, whose body being off by `s` would show. */
  predicate Exposed(tree: Tree, s: int) {
    match tree
    case Leaf(_, body) => s > 0 || (s < 0 && body != "")
    case Multi(_, _, _, _, _) => false
    case Message(_, inner) => Exposed(inner, s)
  }

  /** The document ends well, or its last part does not depend on it. */
  predicate Intact(tree: Tree) {
    match tree
    case Leaf(_, _) => true
    case Multi(_, _, _, kids, epilogue) => kids == [] || !Exposed(kids[|kids| - 1], ClosingSlip(epilogue))
    case Message(_, inner) => Intact(inner)
  }

  lemma {:induction false} SlippedSame(tree: Tree, s: int)
    requires s <= 3
    ensures Slipped(tree, s) == tree <==> !Exposed(tree, s)
    decreases tree
  {
    match tree
    case Leaf(_, body) => assert body[..|body|] == body;
    case Multi(_, _, _, _, _) =>
    case Message(_, inner) => SlippedSame(inner, s);
  }

  lemma SlippedLastSame(kids: seq<Tree>, s: int)
    requires s <= 3 && kids != []
    ensures SlippedLast(kids, s) == kids <==> !Exposed(kids[|kids| - 1], s)
  {
    SlippedSame(kids[|kids| - 1], s);
    assert kids == kids[..|kids| - 1] + [kids[|kids| - 1]];
    assert SlippedLast(kids, s)[|kids| - 1] == Slipped(kids[|kids| - 1], s);
  }

  /** A document comes back as it is exactly when it is intact. */
  lemma {:induction false} ReturnedSame(tree: Tree)
    ensures Returned(tree) == tree <==> Intact(tree)
    decreases tree
  {
    match tree
    case Leaf(_, _) =>
    case Multi(_, _, _, kids, epilogue) =>
      if kids != [] {
        SlippedLastSame(kids, ClosingSlip(epilogue));
      }
    case Message(_, inner) => ReturnedSame(inner);
  }

  /** A message that ends with its closing delimiter and one line end: the last body gets a line end more. */
  lemma UsualEnding(tree: Tree)
    requires tree.Multi? && tree.kids != [] && tree.kids[|tree.kids| - 1].Leaf? && tree.epilogue == CRLF
    ensures var last := |tree.kids| - 1;
            && Returned(tree).kids[..last] == tree.kids[..last]
            && Returned(tree).kids[last] == tree.kids[last].(body := tree.kids[last].body + CRLF)
    ensures !Intact(tree)
  {
    assert "\r\n--"[..2] == CRLF;
  }

  lemma NotExposed(tree: Tree)
    ensures !Exposed(tree, 0)
    decreases tree
  {
    if tree.Message? {
      NotExposed(tree.inner);
    }
  }

  lemma SlippedZero(kids: seq<Tree>)
    requires kids != []
    ensures SlippedLast(kids, 0) == kids && Slipped(kids[|kids| - 1], 0) == kids[|kids| - 1]
  {
    NotExposed(kids[|kids| - 1]);
    SlippedLastSame(kids, 0);
    SlippedSame(kids[|kids| - 1], 0);
  }

  /** The parsed part records the tree: header fields, leaf bodies, and the parts in order. */
  ghost predicate Shows(t: string, part: Part, tree: Tree)
    decreases tree, 1
  {
    && part.header == tree.header
    && match tree
       case Leaf(_, body) =>
         part.members == [] && part.bodyStart + part.bodyLength <= |t|
         && t[part.bodyStart..part.bodyStart + part.bodyLength] == body
       case Multi(_, boundary, _, kids, _) =>
         part.kind.multipart && part.kind.boundary == boundary && ShowsAll(t, part.members, kids)
       case Message(_, inner) =>
         part.kind.rfc822 && |part.members| == 1 && Shows(t, part.members[0], inner)
  }

  ghost predicate ShowsAll(t: string, parts: seq<Part>, kids: seq<Tree>)
    decreases kids, 0
  {
    |parts| == |kids| && (kids != [] ==> Shows(t, parts[0], kids[0]) && ShowsAll(t, parts[1..], kids[1..]))
  }

  /** `s` stands in the text at `p`. */
  predicate At(t: string, p: nat, s: string) {
    p + |s| <= |t| && t[p..p + |s|] == s
  }

  lemma AtSplit(t: string, p: nat, a: string, b: string)
    requires At(t, p, a + b)
    ensures At(t, p, a) && At(t, p + |a|, b)
  {
    var s := t[p..p + |a + b|];
    assert s[..|a|] == a && s[|a|..] == b;
    assert t[p..p + |a|] == s[..|a|];
    assert t[p + |a|..p + |a| + |b|] == s[|a|..];
  }

  lemma AtChar(t: string, p: nat, s: string, i: nat)
    requires At(t, p, s) && i < |s|
    ensures t[p + i] == s[i]
  {
    assert t[p..p + |s|][i] == s[i];
  }

  // Searching in rendered text.

  lemma SliceAt(t: string, p: nat, s: string, i: nat, j: nat)
    requires At(t, p, s) && i <= j <= |s|
    ensures t[p + i..p + j] == s[i..j]
  {
    forall k | 0 <= k < j - i ensures t[p + i..p + j][k] == s[i..j][k] {
      AtChar(t, p, s, i + k);
    }
  }

  /** A first occurrence at the end of `s` is the first occurrence in any text that has `s` there. */
  lemma {:induction false} FindEndAt(t: string, p: nat, s: string, d: string, from: nat)
    requires At(t, p, s) && from <= |s| && FindEnd(s, from, d) == Some(|s|)
    ensures FindEnd(t, p + from, d) == Some(p + |s|)
    decreases |s| - from
  {
    SliceAt(t, p, s, from, from + |d|);
    if s[from..from + |d|] != d {
      FindEndAt(t, p, s, d, from + 1);
    }
  }

  /** A delimiter has its only CR at the front, so it cannot begin inside what comes before it. */
  lemma NoOverlap(s: string, boundary: string, from: nat)
    requires '\r' !in boundary && |s| < from + |boundary| + 4 && from < |s|
    ensures (s + Delimiter(boundary))[from..from + |boundary| + 4] != Delimiter(boundary)
  {
    var d := Delimiter(boundary);
    var k := |s| - from;
    assert (s + d)[from..from + |d|][k] == (s + d)[|s|] == '\r';
    assert d[k] == if k < 4 then "\r\n--"[k] else boundary[k - 4];
  }

  /** Text without the delimiter, followed by it, has its first occurrence at the end. */
  lemma {:induction false} DelimiterAfter(s: string, boundary: string, from: nat)
    requires '\r' !in boundary && from <= |s| && FindEnd(s, from, Delimiter(boundary)) == None
    ensures FindEnd(s + Delimiter(boundary), from, Delimiter(boundary)) == Some(|s| + |boundary| + 4)
    decreases |s| - from
  {
    var d := Delimiter(boundary);
    if from == |s| {
      assert (s + d)[from..from + |d|] == d;
    } else {
      if from + |d| <= |s| {
        assert (s + d)[from..from + |d|] == s[from..from + |d|];
      } else {
        NoOverlap(s, boundary, from);
      }
      DelimiterAfter(s, boundary, from + 1);
    }
  }

  // Headers.

  lemma {:induction false} NameEndIs(t: string, p: nat, k: nat)
    requires p <= k < |t| && t[k] == ':'
    requires forall i :: p <= i < k ==> t[i] != ':' && t[i] != '\r'
    ensures NameEnd(t, p) == k
  {
    var n := NameEnd(t, p);
  }

  lemma ValueEndIs(t: string, i: nat, k: nat)
    requires i <= k < |t| && ValueEndsAt(t, k)
    requires forall j :: i <= j < k ==> !ValueEndsAt(t, j)
    ensures ValueEnd(t, i) == k
  {
    var n := ValueEnd(t, i);
  }

  /** A trimmed value survives the blank written before it and the line end written after it. */
  lemma TrimValue(value: string)
    requires value != "" ==> value[0] !in BLANKS && value[|value| - 1] !in BLANKS
    ensures Trim(DropEol(" " + value + CRLF), BLANKS) == value
  {
    assert DropEol(" " + value + CRLF) == " " + value;
    assert (" " + value)[1..] == value;
    assert ' ' in BLANKS;
    assert TrimStart(" " + value, BLANKS) == TrimStart(value, BLANKS) == value;
  }

  /** A rendered line is read as its item; the line after it says whether the header goes on. */
  lemma HeaderLineParsed(t: string, p: nat, item: Item)
    requires GoodItem(item) && At(t, p, RenderLine(item))
    requires var next := p + |RenderLine(item)|; next < |t| && t[next] != ' ' && t[next] != '\t'
    ensures var next := p + |RenderLine(item)|;
            HeaderLine(t, p) == if t[next] == '\r' then Line([item], if next + 2 <= |t| then next + 2 else |t|, false)
                                else Line([item], next, true)
  {
    NameIs(t, p, item);
    ValueIs(t, p, item);
    LineSlices(t, p, item);
    TrimValue(item.value);
    HeaderLineOf(t, p, p + |item.name|, p + |RenderLine(item)|, item, " " + item.value + CRLF);
  }

  /** A line with the name before `k` and the value before `next`. */
  lemma HeaderLineOf(t: string, p: nat, k: nat, next: nat, item: Item, raw: string)
    requires p <= k && k + 2 <= next < |t| && NameEnd(t, p) == k && ValueEnd(t, k + 2) == next
    requires t[k] == ':' && t[p..k] == item.name && t[k + 1..next] == raw && Trim(DropEol(raw), BLANKS) == item.value
    ensures HeaderLine(t, p) == if t[next] == '\r' then Line([item], if next + 2 <= |t| then next + 2 else |t|, false)
                                else Line([item], next, true)
  {
  }

  lemma LineSlices(t: string, p: nat, item: Item)
    requires At(t, p, RenderLine(item))
    ensures var k := p + |item.name|;
            && t[k] == ':' && t[p..k] == item.name
            && t[k + 1..p + |RenderLine(item)|] == " " + item.value + CRLF
  {
    var s := RenderLine(item);
    AtChar(t, p, s, |item.name|);
    SliceAt(t, p, s, 0, |item.name|);
    assert s[..|item.name|] == item.name;
    SliceAt(t, p, s, |item.name| + 1, |s|);
    assert s[|item.name| + 1..] == " " + item.value + CRLF;
  }

  lemma NameIs(t: string, p: nat, item: Item)
    requires GoodItem(item) && At(t, p, RenderLine(item))
    ensures NameEnd(t, p) == p + |item.name|
  {
    var s := RenderLine(item);
    forall i | p <= i < p + |item.name| ensures t[i] != ':' && t[i] != '\r' {
      AtChar(t, p, s, i - p);
      assert s[i - p] == item.name[i - p];
    }
    AtChar(t, p, s, |item.name|);
    NameEndIs(t, p, p + |item.name|);
  }

  lemma ValueIs(t: string, p: nat, item: Item)
    requires GoodItem(item) && At(t, p, RenderLine(item))
    requires var next := p + |RenderLine(item)|; next < |t| && t[next] != ' ' && t[next] != '\t'
    ensures ValueEnd(t, p + |item.name| + 2) == p + |RenderLine(item)|
  {
    var s := RenderLine(item);
    var k := p + |item.name|;
    var next := p + |s|;
    forall j | k + 2 <= j < next ensures !ValueEndsAt(t, j) {
      NotEnded(t, p, item, j);
    }
    AtChar(t, p, s, |s| - 1);
    ValueEndIs(t, k + 2, next);
  }

  /** The value goes on at `j`. */
  lemma NotEnded(t: string, p: nat, item: Item, j: nat)
    requires GoodItem(item) && At(t, p, RenderLine(item)) && p + |item.name| + 2 <= j < p + |RenderLine(item)| < |t|
    ensures !ValueEndsAt(t, j)
  {
    var s := RenderLine(item);
    var i := j - 1 - p - |item.name|;
    AtChar(t, p, s, j - 1 - p);
    AtChar(t, p, s, j - p);
    assert s[j - 1 - p] == (": " + item.value + CRLF)[i] && s[j - p] == (": " + item.value + CRLF)[i + 1];
    if 2 <= i < |item.value| + 2 {
      assert !Unfolded(item.value, i - 2);
      assert s[j - 1 - p] == item.value[i - 2];
      assert i - 1 < |item.value| ==> s[j - p] == item.value[i - 1];
    }
  }

  // Headers that do not end as they should.

  /** A line without a colon ends the header and is left to be read again as the body. */
  lemma NoColonLine(t: string, p: nat, k: nat)
    requires p <= k < |t| && t[k] == '\r' && forall i :: p <= i < k ==> t[i] != ':' && t[i] != '\r'
    ensures HeaderLine(t, p) == Line([], p, false)
  {
    var n := NameEnd(t, p);
  }

  /** A text that ends inside a name gives a field with that name and no value, if there is a name. */
  lemma NameCutOff(t: string, p: nat)
    requires p <= |t| && forall i :: p <= i < |t| ==> t[i] != ':' && t[i] != '\r'
    ensures HeaderLine(t, p) == Line(if p == |t| then [] else [Item(t[p..], "")], |t|, false)
  {
    var n := NameEnd(t, p);
    assert t[p..|t|] == t[p..];
  }

  /** A text that ends inside a value gives what there is of it but for its last two characters, if these are not
      all, and takes off no blanks. Without a name nothing is kept. */
  lemma ValueCutOff(t: string, p: nat, k: nat)
    requires p <= k < |t| && t[k] == ':' && forall i :: p <= i < k ==> t[i] != ':' && t[i] != '\r'
    requires forall j :: k + 2 <= j < |t| ==> !ValueEndsAt(t, j)
    ensures HeaderLine(t, p) ==
            Line(if p == k then [] else [Item(t[p..k], if |t| - k > 3 then t[k + 1..|t| - 2] else t[k + 1..])], |t|, false)
  {
    NameEndIs(t, p, k);
    if k + 2 <= |t| {
      var n := ValueEnd(t, k + 2);
      assert n == |t|;
      ToEnd(t, k + 1);
    }
  }

  lemma ToEnd(t: string, a: nat)
    requires a <= |t|
    ensures t[a..|t|] == t[a..] && DropEol(t[a..]) == if |t| - a > 2 then t[a..|t| - 2] else t[a..]
  {
    if |t| - a > 2 {
      assert t[a..][..|t| - 2 - a] == t[a..|t| - 2];
    }
  }

  ghost predicate Heads(t: string, p: nat, items: seq<Item>, q: nat)
    requires p <= |t|
  {
    forall eye :: Look(eye) ==> Header(t, p) == Fields(items, q) && HeaderFits(t, p)
  }

  lemma HeadsIs(t: string, p: nat, items: seq<Item>, q: nat)
    requires p <= |t|
    ensures Heads(t, p, items, q) <==> Header(t, p) == Fields(items, q) && HeaderFits(t, p)
  {
    if Heads(t, p, items, q) { assert Look(Eye); }
  }

  lemma HeadsOne(t: string, p: nat, item: Item, q: nat)
    requires p <= |t| && HeaderLine(t, p) == Line([item], q, false)
    ensures Heads(t, p, [item], q)
  {
    HeadsIs(t, p, [item], q);
  }

  lemma HeadsMore(t: string, p: nat, item: Item, next: nat, rest: seq<Item>, q: nat)
    requires p <= |t| && next <= |t| && HeaderLine(t, p) == Line([item], next, true) && Heads(t, next, rest, q)
    ensures Heads(t, p, [item] + rest, q)
  {
    HeadsIs(t, next, rest, q);
    HeadsIs(t, p, [item] + rest, q);
  }

  lemma HeaderMore(t: string, p: nat, items: seq<Item>, next: nat, q: nat)
    requires GoodHeader(items) && |items| > 1 && At(t, p, RenderLine(items[0])) && next == p + |RenderLine(items[0])|
    requires next < |t| && t[next] !in " \t\r" && Heads(t, next, items[1..], q)
    ensures Heads(t, p, items, q)
  {
    HeaderLineParsed(t, p, items[0]);
    HeadsMore(t, p, items[0], next, items[1..], q);
    assert items == [items[0]] + items[1..];
  }

  /** A rendered header is read back field by field, the empty line included. */
  lemma {:induction false} HeaderParsed(t: string, p: nat, items: seq<Item>, q: nat)
    requires GoodHeader(items) && At(t, p, RenderHeader(items)) && q == p + |RenderHeader(items)|
    ensures Heads(t, p, items, q)
    decreases |items|
  {
    var s := RenderLine(items[0]);
    var rest := RenderHeader(items[1..]);
    var next := p + |s|;
    AtSplit(t, p, s, rest);
    AtChar(t, next, rest, 0);
    if |items| == 1 {
      assert rest == CRLF && items == [items[0]];
      HeaderLineParsed(t, p, items[0]);
      HeadsOne(t, p, items[0], q);
    } else {
      RestStarts(items);
      HeaderParsed(t, next, items[1..], q);
      HeaderMore(t, p, items, next, q);
    }
  }

  /** The second line of a header does not look like a continuation, nor like the end. */
  lemma RestStarts(items: seq<Item>)
    requires GoodHeader(items) && |items| > 1
    ensures GoodHeader(items[1..]) && RenderHeader(items[1..]) != ""
    ensures RenderHeader(items[1..])[0] !in " \t\r"
  {
    assert GoodItem(items[1]) && items[1..][0] == items[1];
    assert RenderHeader(items[1..]) == RenderLine(items[1]) + RenderHeader(items[1..][1..]);
    assert RenderHeader(items[1..])[0] == if items[1].name == "" then ':' else items[1].name[0];
  }

  // Delimiters.

  lemma RenderLong(tree: Tree)
    ensures |Render(tree)| >= 2
  {
    assert |RenderHeader(tree.header)| >= 2;
  }

  /** A delimiter line before a part: the line end is the delimiter's, and parsing goes on after it. */
  lemma DelimiterLine(t: string, e: nat, tree: Tree, size: nat)
    requires At(t, e, CRLF + Render(tree)) && !("--" <= Render(tree))
    ensures !CutShort(t, e) && AfterBoundary(t, Mark(e, false, size, false)) == Mark(e + 2, false, size + 2, false)
  {
    RenderLong(tree);
    AtSplit(t, e, CRLF, Render(tree));
    SliceAt(t, e + 2, Render(tree), 0, 2);
    assert t[e..][..2] == t[e..e + 2] == CRLF;
    assert Render(tree)[..2] != "--";
  }

  /** A closing delimiter reports the end of the multipart. */
  lemma ClosingDelimiter(t: string, e: nat, size: nat)
    requires At(t, e, "--") && !CutShort(t, e)
    ensures AfterBoundary(t, Mark(e, false, size, false)).last
  {
  }

  lemma AfterClosing(t: string, e: nat, size: nat, s: string)
    requires At(t, e, "--" + s) && |s| >= 5
    ensures !CutShort(t, e)
    ensures AfterBoundary(t, Mark(e, false, size, false)).pos ==
            if s[..2] == CRLF && s[2..4] != "--" then e + 4 else e + 2
  {
    AtSplit(t, e, "--", s);
    assert t[e..][..2] == t[e..e + 2] == "--";
    SliceAt(t, e + 2, s, 0, 2);
    SliceAt(t, e + 2, s, 2, 4);
  }

  lemma SearchEpilogue(t: string, q: nat, epilogue: string, outer: string, skip: nat)
    requires '\r' !in outer && Lacks(epilogue, Delimiter(outer)) && skip <= |epilogue|
    requires At(t, q, epilogue + Delimiter(outer))
    ensures FindEnd(t, q + skip, Delimiter(outer)) == Some(q + |epilogue| + |outer| + 4)
  {
    LacksFrom(epilogue, Delimiter(outer), 0, skip);
    DelimiterAfter(epilogue, outer, skip);
    FindEndAt(t, q, epilogue + Delimiter(outer), Delimiter(outer), skip);
  }

  /** The outer delimiter is found after the epilogue, whether or not the closing delimiter took the
      line end that follows it. */
  lemma OuterFound(t: string, e: nat, size: nat, epilogue: string, outer: string)
    requires '\r' !in outer && outer != "" && Lacks(epilogue, Delimiter(outer))
    requires At(t, e, "--" + (epilogue + Delimiter(outer)))
    ensures !CutShort(t, e)
    ensures FindEnd(t, AfterBoundary(t, Mark(e, false, size, false)).pos, Delimiter(outer)) ==
            Some(e + 2 + |epilogue| + |outer| + 4)
  {
    var s := epilogue + Delimiter(outer);
    AfterClosing(t, e, size, s);
    AtSplit(t, e, "--", s);
    var skip := 0;
    if s[..2] == CRLF && s[2..4] != "--" {
      TakenLineEnd(epilogue, outer);
      skip := 2;
    }
    SearchEpilogue(t, e + 2, epilogue, outer, skip);
  }

  /** A line end taken by the closing delimiter is not the outer delimiter's own. */
  lemma TakenLineEnd(epilogue: string, outer: string)
    requires var s := epilogue + Delimiter(outer); s[..2] == CRLF && s[2..4] != "--"
    ensures |epilogue| >= 2
  {
    var s := epilogue + Delimiter(outer);
    assert s[1] == s[..2][1] == '\n';
    assert s[|epilogue|] == '\r' && s[|epilogue| + 2..|epilogue| + 4] == "--";
  }

  lemma {:induction false} LacksFrom(s: string, d: string, i: nat, j: nat)
    requires i <= j <= |s| && FindEnd(s, i, d) == None
    ensures FindEnd(s, j, d) == None
    decreases j - i
  {
    if i < j {
      if i + |d| <= |s| {
        LacksFrom(s, d, i + 1, j);
      }
    }
  }

  // What the parser does at a point of the text, as relations that keep their definitions closed, so
  // that the induction over the tree only sees how they compose.

  /** Past a delimiter that ends at `e`, the end of the body before it being off by `s`. */
  ghost predicate Passes(t: string, e: nat, size: nat, m: Mark, s: int)
    requires e <= |t|
  {
    forall eye :: Look(eye) ==> AfterBoundary(t, Mark(e, false, size, false)) == m && Slip(t, e) == s && s <= 3
  }

  lemma PassesIs(t: string, e: nat, size: nat, m: Mark, s: int)
    requires e <= |t|
    ensures Passes(t, e, size, m, s) <==>
            AfterBoundary(t, Mark(e, false, size, false)) == m && Slip(t, e) == s && s <= 3
  {
    if Passes(t, e, size, m, s) { assert Look(Eye); }
  }

  ghost predicate Finds(t: string, p: nat, d: string, e: nat)
    requires p <= |t|
  {
    forall eye :: Look(eye) ==> FindEnd(t, p, d) == Some(e)
  }

  lemma FindsIs(t: string, p: nat, d: string, e: nat)
    requires p <= |t|
    ensures Finds(t, p, d, e) <==> FindEnd(t, p, d) == Some(e)
  {
    if Finds(t, p, d, e) { assert Look(Eye); }
  }

  ghost predicate ParsesTo(t: string, p: nat, outer: string, size: nat, r: Parsed)
    requires p <= |t|
  {
    forall eye :: Look(eye) ==> Parse(t, p, outer, size) == r && ParseFits(t, p, size)
  }

  lemma ParsesToIs(t: string, p: nat, outer: string, size: nat, r: Parsed)
    requires p <= |t|
    ensures ParsesTo(t, p, outer, size, r) <==> Parse(t, p, outer, size) == r && ParseFits(t, p, size)
  {
    if ParsesTo(t, p, outer, size, r) { assert Look(Eye); }
  }

  ghost predicate MembersTo(t: string, c: nat, boundary: string, ms: Members)
    requires c <= |t|
  {
    forall eye :: Look(eye) ==> ParseMembers(t, c, boundary) == ms && MembersFit(t, c, boundary)
  }

  lemma MembersToIs(t: string, c: nat, boundary: string, ms: Members)
    requires c <= |t|
    ensures MembersTo(t, c, boundary, ms) <==> ParseMembers(t, c, boundary) == ms && MembersFit(t, c, boundary)
  {
    if MembersTo(t, c, boundary, ms) { assert Look(Eye); }
  }

  /** Where the pieces of a rendered multipart stand, `suffix` being what follows it. */
  lemma {:induction false} FourPieces(t: string, p: nat, a: string, b: string, c: string, d: string, e: string)
    requires At(t, p, a + (b + (c + (d + e))))
    ensures At(t, p, a) && At(t, p + |a|, b) && At(t, p + |a| + |b|, c)
    ensures At(t, p + |a| + |b| + |c|, d) && At(t, p + |a| + |b| + |c| + |d|, e)
  {
    AtSplit(t, p, a, b + (c + (d + e)));
    AtSplit(t, p + |a|, b, c + (d + e));
    AtSplit(t, p + |a| + |b|, c, d + e);
    AtSplit(t, p + |a| + |b| + |c|, d, e);
  }

  lemma FourTogether(a: string, b: string, c: string, d: string, e: string, suffix: string)
    ensures a + b + c + d + e + suffix == a + (b + (c + (d + (e + suffix))))
  {
  }

  lemma {:induction false} MultiPieces(t: string, p: nat, tree: Tree, suffix: string)
    requires tree.Multi? && tree.kids != [] && At(t, p, Render(tree) + suffix)
    ensures var q := p + |RenderHeader(tree.header)|;
            var c := q + |tree.preamble| + |tree.boundary| + 4;
            var k := c + |RenderKids(tree.kids, tree.boundary)|;
            && At(t, p, RenderHeader(tree.header)) && At(t, q, tree.preamble + "--" + tree.boundary)
            && At(t, c - 2, CRLF) && At(t, c, RenderKids(tree.kids, tree.boundary))
            && At(t, k, tree.epilogue + suffix)
            && k + |tree.epilogue| == p + |Render(tree)|
  {
    var head, s1 := RenderHeader(tree.header), tree.preamble + "--" + tree.boundary;
    var kids, tail := RenderKids(tree.kids, tree.boundary), tree.epilogue + suffix;
    FourTogether(head, s1, CRLF, kids, tree.epilogue, suffix);
    FourPieces(t, p, head, s1, CRLF, kids, tail);
  }

  /** Reading goes on after the first occurrence of the delimiter. */
  lemma SkipTo(t: string, q: nat, e: nat, d: string, size: nat)
    requires q <= |t| && d != "" && FindEnd(t, q, d) == Some(e)
    ensures ToBoundary(t, q, d, size) == AfterBoundary(t, Mark(e, false, size, false))
  {
  }

  lemma KidLine(t: string, e: nat, kids: seq<Tree>, boundary: string, size: nat)
    requires kids != [] && !("--" <= Render(kids[0]))
    requires At(t, e, CRLF) && At(t, e + 2, RenderKids(kids, boundary))
    ensures !CutShort(t, e) && AfterBoundary(t, Mark(e, false, size, false)) == Mark(e + 2, false, size + 2, false)
  {
    KidStands(t, e + 2, kids, boundary);
    AtJoin(t, e, CRLF, Render(kids[0]));
    DelimiterLine(t, e, kids[0], size);
  }

  /** The first part, the delimiter, and what comes after it. */
  lemma {:induction false} RenderFirst(kids: seq<Tree>, boundary: string, rest: string)
    requires kids != [] && rest == if |kids| == 1 then "--" else CRLF + RenderKids(kids[1..], boundary)
    ensures RenderKids(kids, boundary) == Render(kids[0]) + Delimiter(boundary) + rest
  {
    if |kids| > 1 {
      Regroup(Render(kids[0]) + Delimiter(boundary), CRLF, RenderKids(kids[1..], boundary));
    }
  }

  lemma Regroup(a: string, b: string, c: string)
    ensures a + b + c == a + (b + c)
  {
  }

  lemma KidPieces(t: string, c: nat, whole: string, a: string, d: string, rest: string)
    requires At(t, c, whole) && whole == a + d + rest && |rest| >= 2
    ensures At(t, c, a + d) && At(t, c, a) && At(t, c + |a| + |d|, rest) && |whole| >= 2
  {
    Stands(t, c, a, d, rest);
  }

  lemma {:induction false} KidStands(t: string, c: nat, kids: seq<Tree>, boundary: string)
    requires kids != [] && At(t, c, RenderKids(kids, boundary))
    ensures At(t, c, Render(kids[0]) + Delimiter(boundary))
    ensures var e := c + |Render(kids[0])| + |boundary| + 4;
            if |kids| == 1 then At(t, e, "--") else At(t, e, CRLF) && At(t, e + 2, RenderKids(kids[1..], boundary))
    ensures At(t, c, Render(kids[0])) && |RenderKids(kids, boundary)| >= 2
  {
    var tail := if |kids| == 1 then "--" else CRLF + RenderKids(kids[1..], boundary);
    KidAndTail(t, c, kids, boundary, tail);
    if |kids| > 1 {
      AfterLineEnd(t, c + |Render(kids[0])| + |boundary| + 4, RenderKids(kids[1..], boundary), tail);
    }
  }

  lemma AfterLineEnd(t: string, e: nat, rest: string, tail: string)
    requires At(t, e, tail) && tail == CRLF + rest
    ensures At(t, e, CRLF) && At(t, e + 2, rest)
  {
    AtSplit(t, e, CRLF, rest);
  }

  lemma {:induction false} KidAndTail(t: string, c: nat, kids: seq<Tree>, boundary: string, tail: string)
    requires kids != [] && At(t, c, RenderKids(kids, boundary))
    requires tail == if |kids| == 1 then "--" else CRLF + RenderKids(kids[1..], boundary)
    ensures At(t, c, Render(kids[0]) + Delimiter(boundary)) && At(t, c, Render(kids[0]))
    ensures At(t, c + |Render(kids[0])| + |boundary| + 4, tail) && |RenderKids(kids, boundary)| >= 2
  {
    RenderFirst(kids, boundary, tail);
    KidPieces(t, c, RenderKids(kids, boundary), Render(kids[0]), Delimiter(boundary), tail);
  }

  lemma Stands(t: string, c: nat, a: string, d: string, tail: string)
    requires At(t, c, a + d + tail)
    ensures At(t, c, a + d) && At(t, c, a) && At(t, c + |a| + |d|, tail)
  {
    AtSplit(t, c, a + d, tail);
    AtSplit(t, c, a, d);
  }

  lemma AtJoin(t: string, p: nat, a: string, b: string)
    requires At(t, p, a) && At(t, p + |a|, b)
    ensures At(t, p, a + b)
  {
    assert t[p..p + |a + b|] == t[p..p + |a|] + t[p + |a|..p + |a| + |b|];
  }

  lemma {:induction false} KidsClose(t: string, c: nat, kids: seq<Tree>, boundary: string)
    requires kids != [] && At(t, c, RenderKids(kids, boundary))
    ensures |RenderKids(kids, boundary)| >= 2 && At(t, c + |RenderKids(kids, boundary)| - 2, "--")
    decreases |kids|
  {
    KidStands(t, c, kids, boundary);
    if |kids| > 1 {
      KidsClose(t, c + |Render(kids[0])| + |boundary| + 6, kids[1..], boundary);
    }
  }

  /** A line end and a part after a delimiter: parsing goes on at the part. */
  lemma KidPasses(t: string, e: nat, kids: seq<Tree>, boundary: string, size: nat)
    requires kids != [] && !("--" <= Render(kids[0]))
    requires At(t, e, CRLF) && At(t, e + 2, RenderKids(kids, boundary))
    ensures Passes(t, e, size, Mark(e + 2, false, size + 2, false), 0)
  {
    KidLine(t, e, kids, boundary, size);
    PassesIs(t, e, size, Mark(e + 2, false, size + 2, false), 0);
  }

  /** Dashes after a delimiter: the multipart is over. */
  lemma ClosingPasses(t: string, e: nat, size: nat, m: Mark, s: int)
    requires At(t, e, "--") && Passes(t, e, size, m, s)
    ensures m.last || m.eof
  {
    PassesIs(t, e, size, m, s);
    DelimiterStart(t, e, size);
    if !CutShort(t, e) {
      ClosingDelimiter(t, e, size);
    }
  }

  lemma HeadAt(t: string, p: nat, items: seq<Item>)
    requires GoodHeader(items) && At(t, p, RenderHeader(items))
    ensures Heads(t, p, items, p + |RenderHeader(items)|)
  {
    HeaderParsed(t, p, items, p + |RenderHeader(items)|);
  }

  lemma FindsAt(t: string, q: nat, s: string, d: string, e: nat)
    requires At(t, q, s) && FindEnd(s, 0, d) == Some(|s|) && e == q + |s|
    ensures Finds(t, q, d, e)
  {
    FindEndAt(t, q, s, d, 0);
    FindsIs(t, q, d, e);
  }

  /** A leaf followed by its delimiter. */
  lemma LeafParses(t: string, p: nat, items: seq<Item>, q: nat, body: string, outer: string, size: nat, e: nat, m: Mark,
                   s: int)
    returns (r: Parsed)
    requires p <= q <= |t| && Heads(t, p, items, q) && !Analyze(items).multipart && !Analyze(items).rfc822
    requires outer != "" && '\r' !in outer && Lacks(body, Delimiter(outer))
    requires At(t, q, body + Delimiter(outer)) && e == q + |body| + |outer| + 4
    requires Passes(t, e, |outer| + 4, m, s)
    ensures ParsesTo(t, p, outer, size, r)
    ensures r.pos == m.pos && r.done == (m.eof || m.last)
    ensures r.part.header == items && r.part.members == []
    ensures r.part.bodyStart == q && r.part.bodyLength == (if |body| + s >= 0 then |body| + s else 0)
  {
    r := Parse(t, p, outer, size);
    ParsesToIs(t, p, outer, size, r);
    HeadsIs(t, p, items, q);
    PassesIs(t, e, |outer| + 4, m, s);
    BodyAt(t, q, body, outer, e);
  }

  lemma BodyAt(t: string, q: nat, body: string, outer: string, e: nat)
    requires outer != "" && '\r' !in outer && Lacks(body, Delimiter(outer))
    requires At(t, q, body + Delimiter(outer)) && e == q + |body| + |outer| + 4
    ensures var b := SinglePart(t, q, outer);
            && b.length == (if |body| + Slip(t, e) >= 0 then |body| + Slip(t, e) else 0) && b.members == []
            && b.mark == AfterBoundary(t, Mark(e, false, |outer| + 4, false))
  {
    DelimiterAfter(body, outer, 0);
    FindEndAt(t, q, body + Delimiter(outer), Delimiter(outer), 0);
    SinglePartExact(t, q, outer, e);
    assert |Delimiter(outer)| == |outer| + 4;
  }

  /** An enclosed message around a part. */
  lemma MessageParses(t: string, p: nat, items: seq<Item>, q: nat, outer: string, size: nat, inner: Parsed)
    returns (r: Parsed)
    requires p <= q <= |t| && Heads(t, p, items, q) && Analyze(items).rfc822
    requires ParsesTo(t, q, outer, 0, inner)
    ensures ParsesTo(t, p, outer, size, r)
    ensures r.pos == inner.pos && r.done == inner.done
    ensures r.part.header == items && r.part.kind == Analyze(items) && r.part.members == [inner.part]
  {
    r := Parse(t, p, outer, size);
    ParsesToIs(t, p, outer, size, r);
    ParsesToIs(t, q, outer, 0, inner);
    HeadsIs(t, p, items, q);
  }

  /** A multipart from its first delimiter, its parts and the outer delimiter. */
  lemma MultiParses(t: string, p: nat, items: seq<Item>, q: nat, f: nat, c: Mark, ms: Members, outer: string, size: nat,
                    e: nat, m: Mark, s: int) returns (r: Parsed)
    requires p <= q <= |t| && f <= |t| && c.pos <= |t| && ms.pos <= |t| && e <= |t|
    requires Heads(t, p, items, q) && Analyze(items).multipart
    requires Finds(t, q, "--" + Analyze(items).boundary, f) && Passes(t, f, size, c, 0) && !c.last && !c.eof
    requires MembersTo(t, c.pos, Analyze(items).boundary, ms)
    requires Finds(t, ms.pos, Delimiter(outer), e) && Passes(t, e, |outer| + 4, m, s)
    ensures ParsesTo(t, p, outer, size, r)
    ensures r.pos == m.pos && r.done == (m.eof || m.last)
    ensures r.part.header == items && r.part.kind == Analyze(items) && r.part.members == ms.parts
  {
    r := Parse(t, p, outer, size);
    ParsesToIs(t, p, outer, size, r);
    HeadsIs(t, p, items, q);
    FindsIs(t, q, "--" + Analyze(items).boundary, f);
    PassesIs(t, f, size, c, 0);
    MembersToIs(t, c.pos, Analyze(items).boundary, ms);
    SkipTo(t, q, f, "--" + Analyze(items).boundary, size);
    OuterDelimiter(t, ms.pos, outer, e, m, s);
  }

  lemma OuterDelimiter(t: string, p: nat, outer: string, e: nat, m: Mark, s: int)
    requires p <= |t| && e <= |t| && Finds(t, p, Delimiter(outer), e) && Passes(t, e, |outer| + 4, m, s)
    ensures FindEnd(t, p, Delimiter(outer)).Some?
    ensures ToBoundary(t, p, Delimiter(outer), |Delimiter(outer)|) == m
  {
    FindsIs(t, p, Delimiter(outer), e);
    PassesIs(t, e, |outer| + 4, m, s);
    assert |Delimiter(outer)| == |outer| + 4;
    SkipTo(t, p, e, Delimiter(outer), |outer| + 4);
  }

  /** The part loop, one part at a time. */
  lemma LastMember(t: string, c: nat, boundary: string, r: Parsed) returns (ms: Members)
    requires c <= |t| && ParsesTo(t, c, boundary, 0, r) && r.done
    ensures MembersTo(t, c, boundary, ms) && ms.parts == [r.part] && ms.pos == r.pos
  {
    ms := ParseMembers(t, c, boundary);
    ParsesToIs(t, c, boundary, 0, r);
    MembersToIs(t, c, boundary, ms);
  }

  lemma NextMember(t: string, c: nat, boundary: string, r: Parsed, rest: Members) returns (ms: Members)
    requires c <= |t| && ParsesTo(t, c, boundary, 0, r) && !r.done && r.pos <= |t|
    requires MembersTo(t, r.pos, boundary, rest)
    ensures MembersTo(t, c, boundary, ms) && ms.parts == [r.part] + rest.parts && ms.pos == rest.pos
  {
    ms := ParseMembers(t, c, boundary);
    ParsesToIs(t, c, boundary, 0, r);
    MembersToIs(t, r.pos, boundary, rest);
    MembersToIs(t, c, boundary, ms);
  }

  /** The pieces of a rendered multipart: header, first delimiter, closing delimiter. */
  lemma {:induction false} MultiFrame(t: string, p: nat, tree: Tree, suffix: string, size: nat)
    returns (q: nat, f: nat, c: nat, k: nat)
    requires tree.Multi? && GoodHeader(tree.header) && At(t, p, Render(tree) + suffix)
    requires FindEnd(tree.preamble + "--" + tree.boundary, 0, "--" + tree.boundary) ==
             Some(|tree.preamble| + 2 + |tree.boundary|)
    requires tree.kids != [] && !("--" <= Render(tree.kids[0]))
    ensures p <= q <= f <= f + 2 == c <= k <= |t| && k + 2 + |tree.epilogue| == p + |Render(tree)|
    ensures Heads(t, p, tree.header, q) && Finds(t, q, "--" + tree.boundary, f)
    ensures Passes(t, f, size, Mark(c, false, size + 2, false), 0)
    ensures At(t, c, RenderKids(tree.kids, tree.boundary)) && k + 2 == c + |RenderKids(tree.kids, tree.boundary)|
    ensures At(t, k, "--" + (tree.epilogue + suffix))
  {
    q := p + |RenderHeader(tree.header)|;
    f := q + |tree.preamble| + |tree.boundary| + 2;
    c := f + 2;
    k := c + |RenderKids(tree.kids, tree.boundary)| - 2;
    MultiPieces(t, p, tree, suffix);
    MultiStart(t, p, tree, q, f, c, size);
    MultiClose(t, c, tree, k, tree.epilogue + suffix);
  }

  lemma {:induction false} MultiStart(t: string, p: nat, tree: Tree, q: nat, e: nat, c: nat, size: nat)
    requires tree.Multi? && GoodHeader(tree.header) && At(t, p, RenderHeader(tree.header))
    requires q == p + |RenderHeader(tree.header)| && e == q + |tree.preamble| + 2 + |tree.boundary| && c == e + 2
    requires FindEnd(tree.preamble + "--" + tree.boundary, 0, "--" + tree.boundary) ==
             Some(|tree.preamble| + 2 + |tree.boundary|)
    requires tree.kids != [] && !("--" <= Render(tree.kids[0]))
    requires At(t, q, tree.preamble + "--" + tree.boundary) && At(t, e, CRLF)
    requires At(t, c, RenderKids(tree.kids, tree.boundary))
    ensures Heads(t, p, tree.header, q) && Finds(t, q, "--" + tree.boundary, e)
    ensures Passes(t, e, size, Mark(c, false, size + 2, false), 0)
  {
    HeadAt(t, p, tree.header);
    FindsAt(t, q, tree.preamble + "--" + tree.boundary, "--" + tree.boundary, e);
    KidPasses(t, e, tree.kids, tree.boundary, size);
  }

  lemma MultiClose(t: string, c: nat, tree: Tree, k: nat, tail: string)
    requires tree.Multi? && tree.kids != [] && At(t, c, RenderKids(tree.kids, tree.boundary))
    requires k + 2 == c + |RenderKids(tree.kids, tree.boundary)| && At(t, k + 2, tail)
    ensures c <= k && At(t, k, "--" + tail)
  {
    KidsClose(t, c, tree.kids, tree.boundary);
    AtJoin(t, k, "--", tail);
  }

  /** After the closing delimiter the outer one is found at the end of the epilogue. */
  lemma EpilogueFinds(t: string, k: nat, size: nat, epilogue: string, outer: string, e: nat) returns (m: Mark)
    requires '\r' !in outer && outer != "" && Lacks(epilogue, Delimiter(outer))
    requires At(t, k, "--" + (epilogue + Delimiter(outer))) && e == k + 2 + |epilogue| + |outer| + 4
    ensures m.pos <= |t| && Passes(t, k, size, m, 0) && Finds(t, m.pos, Delimiter(outer), e)
  {
    OuterFound(t, k, size, epilogue, outer);
    m := AfterBoundary(t, Mark(k, false, size, false));
    PassesIs(t, k, size, m, 0);
    FindsIs(t, m.pos, Delimiter(outer), e);
  }

  lemma GoodMulti(tree: Tree, outer: string)
    requires tree.Multi? && Good(tree, outer)
    ensures GoodHeader(tree.header)
    ensures FindEnd(tree.preamble + "--" + tree.boundary, 0, "--" + tree.boundary) ==
            Some(|tree.preamble| + 2 + |tree.boundary|)
    ensures outer != "" ==> Lacks(tree.epilogue, Delimiter(outer))
  {
    GoodIs(tree, outer);
  }

  lemma GoodKind(tree: Tree, outer: string)
    requires tree.Multi? && Good(tree, outer)
    ensures Analyze(tree.header).multipart && Analyze(tree.header).boundary == tree.boundary
  {
    GoodIs(tree, outer);
  }

  /** The same, down to the part that records the tree. */
  lemma MultiJoin(t: string, p: nat, tree: Tree, q: nat, f: nat, c: nat, ms: Members, outer: string, size: nat,
                  e: nat, m: Mark, s: int) returns (r: Parsed)
    requires tree.Multi? && Good(tree, outer) && p <= q <= f <= f + 2 == c <= |t| && ms.pos <= |t| && e <= |t|
    requires Heads(t, p, tree.header, q) && Finds(t, q, "--" + tree.boundary, f)
    requires Passes(t, f, size, Mark(c, false, size + 2, false), 0)
    requires MembersTo(t, c, tree.boundary, ms) && ShowsAll(t, ms.parts, tree.kids)
    requires Finds(t, ms.pos, Delimiter(outer), e) && Passes(t, e, |outer| + 4, m, s)
    ensures ParsesTo(t, p, outer, size, r) && Shows(t, r.part, tree)
    ensures r.pos == m.pos && r.done == (m.eof || m.last)
  {
    GoodKind(tree, outer);
    r := MultiParses(t, p, tree.header, q, f, Mark(c, false, size + 2, false), ms, outer, size, e, m, s);
  }

  // The round trip.

  /** A rendered part followed by its delimiter, which ends at `e`, parses into what it was rendered
      from, its end being off by `s`, and leaves the parser just past the delimiter. */
  lemma {:induction false} ParseShows(t: string, p: nat, tree: Tree, outer: string, size: nat, e: nat, m: Mark, s: int)
    returns (r: Parsed)
    requires outer != "" && '\r' !in outer && WellFormed(tree, outer)
    requires At(t, p, Render(tree) + Delimiter(outer)) && e == p + |Render(tree)| + |outer| + 4
    requires s <= 3 && Passes(t, e, |outer| + 4, m, s)
    ensures ParsesTo(t, p, outer, size, r) && Shows(t, r.part, Slipped(tree, s))
    ensures r.pos == m.pos && r.done == (m.eof || m.last)
    decreases tree, 1
  {
    match tree
    case Leaf(_, _) =>
      r := LeafShows(t, p, tree, outer, size, e, m, s);
    case Message(_, inner) =>
      var q := MessageFrame(t, p, tree, outer, Delimiter(outer));
      var parsed := ParseShows(t, q, inner, outer, 0, e, m, s);
      SameHeader(tree, Slipped(tree, s), outer);
      r := MessageJoin(t, p, Slipped(tree, s), q, outer, size, parsed);
    case Multi(_, _, _, _, _) =>
      r := MultiShows(t, p, tree, outer, size, e, m, s);
  }

  lemma SameHeader(tree: Tree, other: Tree, outer: string)
    requires tree.Message? && other.Message? && tree.header == other.header && Good(tree, outer)
    ensures Good(other, outer)
  {
    GoodIs(tree, outer);
    GoodIs(other, outer);
  }

  lemma LeafShows(t: string, p: nat, tree: Tree, outer: string, size: nat, e: nat, m: Mark, s: int) returns (r: Parsed)
    requires tree.Leaf? && outer != "" && '\r' !in outer && Good(tree, outer)
    requires At(t, p, Render(tree) + Delimiter(outer)) && e == p + |Render(tree)| + |outer| + 4
    requires s <= 3 && Passes(t, e, |outer| + 4, m, s)
    ensures ParsesTo(t, p, outer, size, r) && Shows(t, r.part, Slipped(tree, s))
    ensures r.pos == m.pos && r.done == (m.eof || m.last)
  {
    var head, body := RenderHeader(tree.header), tree.body;
    GoodIs(tree, outer);
    assert Render(tree) + Delimiter(outer) == head + (body + Delimiter(outer));
    AtSplit(t, p, head, body + Delimiter(outer));
    HeadAt(t, p, tree.header);
    r := LeafParses(t, p, tree.header, p + |head|, body, outer, size, e, m, s);
    BodySlips(t, p + |head|, body, outer, s);
  }

  /** The text from the start of the body to where it is taken to end. */
  lemma BodySlips(t: string, q: nat, body: string, outer: string, s: int)
    requires s <= 3 && At(t, q, body + Delimiter(outer))
    ensures var length := if |body| + s >= 0 then |body| + s else 0;
            q + length <= |t| && t[q..q + length] == SlippedBody(body, s)
  {
    var whole := body + Delimiter(outer);
    var length := if |body| + s >= 0 then |body| + s else 0;
    SliceAt(t, q, whole, 0, length);
    if s >= 0 {
      assert whole[..|body| + s] == body + Delimiter(outer)[..s];
      assert Delimiter(outer)[..s] == "\r\n--"[..s];
    } else {
      assert whole[..length] == body[..length];
    }
  }

  lemma FrontPiece(t: string, p: nat, whole: string, a: string, b: string, suffix: string)
    requires whole == a + b && At(t, p, whole + suffix)
    ensures At(t, p, a) && At(t, p + |a|, b + suffix)
  {
    assert whole + suffix == a + (b + suffix);
    AtSplit(t, p, a, b + suffix);
  }

  lemma MessageFrame(t: string, p: nat, tree: Tree, outer: string, suffix: string) returns (q: nat)
    requires tree.Message? && Good(tree, outer) && At(t, p, Render(tree) + suffix)
    ensures p <= q <= |t| && Heads(t, p, tree.header, q)
    ensures At(t, q, Render(tree.inner) + suffix) && q + |Render(tree.inner)| == p + |Render(tree)|
  {
    var head := RenderHeader(tree.header);
    q := p + |head|;
    GoodIs(tree, outer);
    FrontPiece(t, p, Render(tree), head, Render(tree.inner), suffix);
    HeadAt(t, p, tree.header);
  }

  lemma MessageJoin(t: string, p: nat, tree: Tree, q: nat, outer: string, size: nat, inner: Parsed)
    returns (r: Parsed)
    requires tree.Message? && Good(tree, outer) && p <= q <= |t| && Heads(t, p, tree.header, q)
    requires ParsesTo(t, q, outer, 0, inner) && Shows(t, inner.part, tree.inner)
    ensures ParsesTo(t, p, outer, size, r) && Shows(t, r.part, tree)
    ensures r.pos == inner.pos && r.done == inner.done
  {
    GoodIs(tree, outer);
    r := MessageParses(t, p, tree.header, q, outer, size, inner);
  }

  lemma MultiPlaces(t: string, p: nat, tree: Tree, outer: string, size: nat, e: nat)
    returns (q: nat, f: nat, c: nat, k: nat, m: Mark)
    requires tree.Multi? && Good(tree, outer) && '\r' !in outer && outer != ""
    requires At(t, p, Render(tree) + Delimiter(outer)) && e == p + |Render(tree)| + |outer| + 4
    requires tree.kids != [] && !("--" <= Render(tree.kids[0]))
    ensures p <= q <= f <= f + 2 == c <= k <= |t| && k + 2 == c + |RenderKids(tree.kids, tree.boundary)|
    ensures Heads(t, p, tree.header, q) && Finds(t, q, "--" + tree.boundary, f)
    ensures Passes(t, f, size, Mark(c, false, size + 2, false), 0)
    ensures At(t, c, RenderKids(tree.kids, tree.boundary))
    ensures m.pos <= |t| && Passes(t, k, |tree.boundary| + 4, m, 0) && Finds(t, m.pos, Delimiter(outer), e)
  {
    GoodMulti(tree, outer);
    q, f, c, k := MultiFrame(t, p, tree, Delimiter(outer), size);
    m := EpilogueFinds(t, k, |tree.boundary| + 4, tree.epilogue, outer, e);
  }

  lemma {:induction false} MultiShows(t: string, p: nat, tree: Tree, outer: string, size: nat, e: nat, m: Mark, s: int)
    returns (r: Parsed)
    requires tree.Multi? && outer != "" && '\r' !in outer && WellFormed(tree, outer)
    requires At(t, p, Render(tree) + Delimiter(outer)) && e == p + |Render(tree)| + |outer| + 4
    requires Passes(t, e, |outer| + 4, m, s)
    ensures ParsesTo(t, p, outer, size, r) && Shows(t, r.part, tree)
    ensures r.pos == m.pos && r.done == (m.eof || m.last)
    decreases tree, 0
  {
    var q, f, c, k, m1 := MultiPlaces(t, p, tree, outer, size, e);
    var ms := KidsShow(t, c, tree.kids, tree.boundary, k, m1, 0);
    SlippedZero(tree.kids);
    r := MultiJoin(t, p, tree, q, f, c, ms, outer, size, e, m, s);
  }

  /** Rendered parts up to the closing delimiter, which ends before the dashes at `k`, parse into the
      trees they came from, in order, the end of the last one being off by `s`. */
  lemma {:induction false} KidsShow(t: string, c: nat, kids: seq<Tree>, boundary: string, k: nat, m: Mark, s: int)
    returns (ms: Members)
    requires kids != [] && boundary != "" && '\r' !in boundary && WellFormedKids(kids, boundary)
    requires At(t, c, RenderKids(kids, boundary)) && k + 2 == c + |RenderKids(kids, boundary)| <= |t| + 2
    requires s <= 3 && Passes(t, k, |boundary| + 4, m, s)
    ensures MembersTo(t, c, boundary, ms) && ShowsAll(t, ms.parts, SlippedLast(kids, s)) && ms.pos == m.pos
    decreases kids, 0
  {
    KidStands(t, c, kids, boundary);
    if |kids| == 1 {
      var r := ParseShows(t, c, kids[0], boundary, 0, k, m, s);
      ms := LastKid(t, c, Slipped(kids[0], s), boundary, k, m, s, r);
      assert SlippedLast(kids, s) == [Slipped(kids[0], s)];
    } else {
      var e, c', next := NextKid(t, c, kids, boundary);
      var r := ParseShows(t, c, kids[0], boundary, 0, e, next, 0);
      SlippedZero([kids[0]]);
      var rest := KidsShow(t, c', kids[1..], boundary, k, m, s);
      LaterSlipped(kids, s);
      ms := MoreKids(t, c, SlippedLast(kids, s), boundary, r, rest);
    }
  }

  lemma LaterSlipped(kids: seq<Tree>, s: int)
    requires |kids| > 1 && s <= 3
    ensures |SlippedLast(kids, s)| > 1 && SlippedLast(kids, s)[0] == kids[0]
    ensures SlippedLast(kids, s)[1..] == SlippedLast(kids[1..], s)
  {
  }

  lemma LastKid(t: string, c: nat, kid: Tree, boundary: string, k: nat, m: Mark, s: int, r: Parsed) returns (ms: Members)
    requires c <= |t| && ParsesTo(t, c, boundary, 0, r) && Shows(t, r.part, kid)
    requires At(t, k, "--") && Passes(t, k, |boundary| + 4, m, s) && r.pos == m.pos && r.done == (m.eof || m.last)
    ensures MembersTo(t, c, boundary, ms) && ShowsAll(t, ms.parts, [kid]) && ms.pos == m.pos
  {
    ClosingPasses(t, k, |boundary| + 4, m, s);
    ms := LastMember(t, c, boundary, r);
  }

  lemma {:induction false} RestLength(kids: seq<Tree>, boundary: string, first: nat, rest: nat)
    requires |kids| > 1 && first == |Render(kids[0])| && rest == |RenderKids(kids[1..], boundary)|
    ensures |RenderKids(kids, boundary)| == first + |boundary| + 6 + rest
  {
    RenderFirst(kids, boundary, CRLF + RenderKids(kids[1..], boundary));
  }

  lemma {:induction false} NextKid(t: string, c: nat, kids: seq<Tree>, boundary: string) returns (e: nat, c': nat, next: Mark)
    requires |kids| > 1 && WellFormedKids(kids, boundary) && At(t, c, RenderKids(kids, boundary))
    ensures e == c + |Render(kids[0])| + |boundary| + 4 && e + 2 == c' <= |t|
    ensures next == Mark(c', false, |boundary| + 6, false) && Passes(t, e, |boundary| + 4, next, 0)
    ensures WellFormedKids(kids[1..], boundary) && At(t, c', RenderKids(kids[1..], boundary))
    ensures c' + |RenderKids(kids[1..], boundary)| == c + |RenderKids(kids, boundary)|
  {
    KidStands(t, c, kids, boundary);
    e := c + |Render(kids[0])| + |boundary| + 4;
    c' := e + 2;
    next := Mark(c', false, |boundary| + 6, false);
    RestLength(kids, boundary, |Render(kids[0])|, |RenderKids(kids[1..], boundary)|);
    KidPasses(t, e, kids[1..], boundary, |boundary| + 4);
  }

  lemma MoreKids(t: string, c: nat, kids: seq<Tree>, boundary: string, r: Parsed, rest: Members) returns (ms: Members)
    requires |kids| > 1 && c <= |t| && r.pos <= |t|
    requires ParsesTo(t, c, boundary, 0, r) && !r.done && Shows(t, r.part, kids[0])
    requires MembersTo(t, r.pos, boundary, rest) && ShowsAll(t, rest.parts, kids[1..])
    ensures MembersTo(t, c, boundary, ms) && ShowsAll(t, ms.parts, kids) && ms.pos == rest.pos
  {
    ms := NextMember(t, c, boundary, r, rest);
    assert ms.parts[1..] == rest.parts;
  }

  // Whole documents.

  lemma LeafDocument(t: string, p: nat, items: seq<Item>, q: nat, size: nat) returns (r: Parsed)
    requires p <= q <= |t| && Heads(t, p, items, q) && !Analyze(items).multipart && !Analyze(items).rfc822
    ensures ParsesTo(t, p, "", size, r) && r.part.header == items && r.part.members == []
    ensures r.part.bodyStart == q && r.part.bodyLength == |t| - q
  {
    r := Parse(t, p, "", size);
    ParsesToIs(t, p, "", size, r);
    HeadsIs(t, p, items, q);
  }

  /** `body` is what a multipart with no outer boundary gives. */
  ghost predicate BodyIs(t: string, q: nat, b: string, size: nat, body: Body)
    requires q <= |t|
  {
    forall eye :: Look(eye) ==> body == Multipart(t, q, b, "", size) && MultipartFits(t, q, b, size)
  }

  lemma BodyIsIs(t: string, q: nat, b: string, size: nat, body: Body)
    requires q <= |t|
    ensures BodyIs(t, q, b, size, body) <==> body == Multipart(t, q, b, "", size) && MultipartFits(t, q, b, size)
  {
    if BodyIs(t, q, b, size, body) { assert Look(Eye); }
  }

  lemma MultiDocument(t: string, p: nat, items: seq<Item>, q: nat, b: string, e: nat, c: nat, ms: Members, size: nat)
    returns (r: Parsed)
    requires p <= q <= e <= e + 2 == c <= |t| && Heads(t, p, items, q)
    requires Analyze(items).multipart && Analyze(items).boundary == b
    requires Finds(t, q, "--" + b, e) && Passes(t, e, size, Mark(c, false, size + 2, false), 0)
    requires MembersTo(t, c, b, ms)
    ensures ParsesTo(t, p, "", size, r)
    ensures r.part.header == items && r.part.kind == Analyze(items) && r.part.members == ms.parts
  {
    var body := MultiBody(t, q, b, e, c, ms, size);
    r := DocumentWith(t, p, items, q, b, size, body);
  }

  lemma MultiBody(t: string, q: nat, b: string, e: nat, c: nat, ms: Members, size: nat) returns (body: Body)
    requires q <= e <= c <= |t| && MembersTo(t, c, b, ms)
    requires Finds(t, q, "--" + b, e) && Passes(t, e, size, Mark(c, false, size + 2, false), 0)
    ensures BodyIs(t, q, b, size, body) && body.members == ms.parts
  {
    FindsIs(t, q, "--" + b, e);
    PassesIs(t, e, size, Mark(c, false, size + 2, false), 0);
    SkipTo(t, q, e, "--" + b, size);
    MembersToIs(t, c, b, ms);
    body := Multipart(t, q, b, "", size);
    BodyIsIs(t, q, b, size, body);
  }

  lemma DocumentWith(t: string, p: nat, items: seq<Item>, q: nat, b: string, size: nat, body: Body) returns (r: Parsed)
    requires p <= q <= |t| && Heads(t, p, items, q) && Analyze(items).multipart && Analyze(items).boundary == b
    requires BodyIs(t, q, b, size, body)
    ensures ParsesTo(t, p, "", size, r)
    ensures r.part.header == items && r.part.kind == Analyze(items) && r.part.members == body.members
  {
    HeadsIs(t, p, items, q);
    BodyIsIs(t, q, b, size, body);
    r := Parse(t, p, "", size);
    ParsesToIs(t, p, "", size, r);
  }

  /** After the closing delimiter of a document. */
  lemma EpiloguePasses(t: string, k: nat, size: nat, epilogue: string) returns (m: Mark)
    requires At(t, k, "--" + epilogue) && k + 2 + |epilogue| == |t|
    ensures Passes(t, k, size, m, ClosingSlip(epilogue))
  {
    ClosingSlips(t, k, epilogue);
    m := AfterBoundary(t, Mark(k, false, size, false));
    PassesIs(t, k, size, m, ClosingSlip(epilogue));
  }

  lemma ClosingSlips(t: string, k: nat, epilogue: string)
    requires At(t, k, "--" + epilogue) && k + 2 + |epilogue| == |t|
    ensures Slip(t, k) == ClosingSlip(epilogue)
  {
    AtSplit(t, k, "--", epilogue);
    assert t[k..] == "--" + epilogue;
    if |epilogue| >= 2 {
      assert t[k..][2..4] == epilogue[..2];
    }
  }

  lemma MultiDocumentShows(t: string, p: nat, tree: Tree, size: nat) returns (r: Parsed)
    requires tree.Multi? && WellFormed(tree, "") && At(t, p, Render(tree) + "") && p + |Render(tree)| == |t|
    ensures ParsesTo(t, p, "", size, r) && Shows(t, r.part, Returned(tree))
  {
    GoodMulti(tree, "");
    var q, f, c, k := MultiFrame(t, p, tree, "", size);
    assert tree.epilogue + "" == tree.epilogue;
    var s := ClosingSlip(tree.epilogue);
    var m := EpiloguePasses(t, k, |tree.boundary| + 4, tree.epilogue);
    var ms := KidsShow(t, c, tree.kids, tree.boundary, k, m, s);
    r := MultiDocumentJoin(t, p, tree, SlippedLast(tree.kids, s), q, f, c, ms, size);
  }

  lemma MultiDocumentJoin(t: string, p: nat, tree: Tree, kids: seq<Tree>, q: nat, f: nat, c: nat, ms: Members, size: nat)
    returns (r: Parsed)
    requires tree.Multi? && Good(tree, "") && p <= q <= f <= f + 2 == c <= |t|
    requires Heads(t, p, tree.header, q) && Finds(t, q, "--" + tree.boundary, f)
    requires Passes(t, f, size, Mark(c, false, size + 2, false), 0)
    requires MembersTo(t, c, tree.boundary, ms) && ShowsAll(t, ms.parts, kids)
    ensures ParsesTo(t, p, "", size, r) && Shows(t, r.part, tree.(kids := kids))
  {
    GoodKind(tree, "");
    r := MultiDocument(t, p, tree.header, q, tree.boundary, f, c, ms, size);
  }

  lemma LeafDocumentShows(t: string, p: nat, tree: Tree, size: nat) returns (r: Parsed)
    requires tree.Leaf? && Good(tree, "") && At(t, p, Render(tree)) && p + |Render(tree)| == |t|
    ensures ParsesTo(t, p, "", size, r) && Shows(t, r.part, tree)
  {
    GoodIs(tree, "");
    AtSplit(t, p, RenderHeader(tree.header), tree.body);
    HeadAt(t, p, tree.header);
    r := LeafDocument(t, p, tree.header, p + |RenderHeader(tree.header)|, size);
  }

  /** A rendered document at the end of the text parses into what it was rendered from, the end of its
      last part being off if the text ends too soon. */
  lemma {:induction false} DocumentShows(t: string, p: nat, tree: Tree, size: nat) returns (r: Parsed)
    requires WellFormed(tree, "") && At(t, p, Render(tree)) && p + |Render(tree)| == |t|
    ensures ParsesTo(t, p, "", size, r) && Shows(t, r.part, Returned(tree))
    decreases tree
  {
    assert Render(tree) + "" == Render(tree);
    match tree
    case Leaf(_, _) =>
      r := LeafDocumentShows(t, p, tree, size);
    case Message(_, inner) =>
      var q := MessageFrame(t, p, tree, "", "");
      assert Render(inner) + "" == Render(inner);
      var s := DocumentShows(t, q, inner, 0);
      SameHeader(tree, Returned(tree), "");
      r := MessageJoin(t, p, Returned(tree), q, "", size, s);
    case Multi(_, _, _, _, _) =>
      r := MultiDocumentShows(t, p, tree, size);
  }

  // A part records only one body for each leaf.

  lemma {:induction false} SlippedShown(t: string, part: Part, tree: Tree, s: int)
    requires s <= 3 && Shows(t, part, tree) && Shows(t, part, Slipped(tree, s))
    ensures Slipped(tree, s) == tree
    decreases tree
  {
    if tree.Message? {
      SlippedShown(t, part.members[0], tree.inner, s);
    }
  }

  lemma {:induction false} SlippedAllShown(t: string, parts: seq<Part>, kids: seq<Tree>, s: int)
    requires s <= 3 && kids != [] && ShowsAll(t, parts, kids) && ShowsAll(t, parts, SlippedLast(kids, s))
    ensures SlippedLast(kids, s) == kids
    decreases |kids|
  {
    if |kids| == 1 {
      SlippedShown(t, parts[0], kids[0], s);
    } else {
      LaterSlipped(kids, s);
      SlippedAllShown(t, parts[1..], kids[1..], s);
      assert kids == [kids[0]] + kids[1..];
    }
  }

  lemma {:induction false} ReturnedShown(t: string, part: Part, tree: Tree)
    requires Shows(t, part, tree) && Shows(t, part, Returned(tree))
    ensures Returned(tree) == tree
    decreases tree
  {
    match tree
    case Leaf(_, _) =>
    case Multi(_, _, _, kids, epilogue) =>
      if kids != [] {
        SlippedAllShown(t, part.members, kids, ClosingSlip(epilogue));
      }
    case Message(_, inner) => ReturnedShown(t, part.members[0], inner);
  }

  /** The parts, header fields and bodies of a rendered document come back, in order, at every depth,
      whatever line ends the raw input used: exactly as they were if and only if the document is intact,
      else with the end of the last body off. */
  lemma RoundTrip(tree: Tree, raw: string)
    requires WellFormed(tree, "") && Norm(raw) == Render(tree)
    ensures ParseFits(Norm(raw), 0, 0)
    ensures var part := Parse(Norm(raw), 0, "", 0).part;
            Shows(Norm(raw), part, Returned(tree)) && (Shows(Norm(raw), part, tree) <==> Intact(tree))
  {
    var t := Render(tree);
    assert t[0..|t|] == t;
    var r := DocumentShows(t, 0, tree, 0);
    ParsesToIs(t, 0, "", 0, r);
    ReturnedSame(tree);
    if Shows(t, r.part, tree) {
      ReturnedShown(t, r.part, tree);
    }
  }
}
