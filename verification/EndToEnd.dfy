/** From raw bytes in arbitrary reads to the bodies of all parts: parsing, then reading each body back. */
module EndToEnd {
  import opened LineEnds
  import opened InputSource
  import opened MimeSpec
  import opened MimeParser
  import G = GetBody
  import opened RoundTrip

  /** The bodies of the leaves, in order. */
  function Leaves(tree: Tree): seq<string>
    decreases tree, 1
  {
    match tree
    case Leaf(_, body) => [body]
    case Multi(_, _, _, kids, _) => LeavesOf(kids)
    case Message(_, inner) => Leaves(inner)
  }

  function LeavesOf(kids: seq<Tree>): seq<string>
    decreases kids, 0
  {
    if kids == [] then [] else Leaves(kids[0]) + LeavesOf(kids[1..])
  }

  /** Every multipart of the tree has parts. */
  ghost predicate Proper(tree: Tree)
    decreases tree, 1
  {
    match tree
    case Leaf(_, _) => true
    case Multi(_, _, _, kids, _) => kids != [] && AllProper(kids)
    case Message(_, inner) => Proper(inner)
  }

  ghost predicate AllProper(kids: seq<Tree>)
    decreases kids, 0
  {
    kids == [] || (Proper(kids[0]) && AllProper(kids[1..]))
  }

  lemma {:induction false} WellFormedProper(tree: Tree, outer: string)
    requires WellFormed(tree, outer)
    ensures Proper(tree)
    decreases tree, 1
  {
    match tree
    case Leaf(_, _) =>
    case Multi(_, boundary, _, kids, _) => WellFormedAllProper(kids, boundary);
    case Message(_, inner) => WellFormedProper(inner, outer);
  }

  lemma {:induction false} WellFormedAllProper(kids: seq<Tree>, boundary: string)
    requires WellFormedKids(kids, boundary)
    ensures AllProper(kids)
    decreases kids, 0
  {
    if kids != [] {
      WellFormedProper(kids[0], boundary);
      WellFormedAllProper(kids[1..], boundary);
    }
  }

  lemma {:induction false} SlippedProper(tree: Tree, s: int)
    requires s <= 3 && Proper(tree)
    ensures Proper(Slipped(tree, s))
    decreases tree
  {
    if tree.Message? {
      SlippedProper(tree.inner, s);
    }
  }

  lemma {:induction false} SlippedAllProper(kids: seq<Tree>, s: int)
    requires s <= 3 && kids != [] && AllProper(kids)
    ensures AllProper(SlippedLast(kids, s))
    decreases |kids|
  {
    if |kids| == 1 {
      SlippedProper(kids[0], s);
      assert SlippedLast(kids, s) == [Slipped(kids[0], s)];
    } else {
      LaterSlipped(kids, s);
      SlippedAllProper(kids[1..], s);
    }
  }

  lemma {:induction false} ReturnedProper(tree: Tree)
    requires Proper(tree)
    ensures Proper(Returned(tree))
    decreases tree
  {
    match tree
    case Leaf(_, _) =>
    case Multi(_, _, _, kids, epilogue) => SlippedAllProper(kids, ClosingSlip(epilogue));
    case Message(_, inner) => ReturnedProper(inner);
  }

  /** Read the bodies of a parsed part back, from any state of the source. */
  method Bodies(ms: MimeInputSource, part: Part, ghost tree: Tree) returns (bodies: seq<string>)
    requires ms.Built() && NoStall('\0', ms.chunks) && |ms.Text()| < G.U32
    requires Proper(tree) && Shows(ms.Text(), part, tree)
    modifies ms, ms.data
    ensures bodies == Leaves(tree)
    decreases part, 1
  {
    if |part.members| == 0 {
      LeafOnly(ms.Text(), part, tree);
      var body := G.GetBody(ms, part, "", 0, part.bodyLength);
      assert "" + tree.body == tree.body;
      return [body];
    }
    ghost var kids := PartsOf(ms.Text(), part, tree);
    bodies := BodiesOf(ms, part.members, kids);
  }

  /** The trees of the members of a part. */
  lemma PartsOf(t: string, part: Part, tree: Tree) returns (kids: seq<Tree>)
    requires Proper(tree) && Shows(t, part, tree) && part.members != []
    ensures AllProper(kids) && ShowsAll(t, part.members, kids) && LeavesOf(kids) == Leaves(tree)
  {
    match tree
    case Leaf(_, _) =>
    case Multi(_, _, _, _, _) =>
      kids := tree.kids;
    case Message(_, inner) =>
      kids := [inner];
      MessageMembers(t, part, tree);
      assert LeavesOf([inner]) == Leaves(inner) + LeavesOf([inner][1..]);
      assert [inner][1..] == [] && Leaves(inner) + [] == Leaves(inner);
  }

  lemma LeafOnly(t: string, part: Part, tree: Tree)
    requires Proper(tree) && Shows(t, part, tree) && part.members == [] && |t| < G.U32
    ensures tree.Leaf? && part.bodyLength < G.U32 && G.BodyRead(t, part, 0, part.bodyLength) == tree.body
  {
    G.BodyReadExact(t, part, 0, part.bodyLength);
  }

  lemma MessageMembers(t: string, part: Part, tree: Tree)
    requires tree.Message? && Proper(tree) && Shows(t, part, tree)
    ensures AllProper([tree.inner]) && ShowsAll(t, part.members, [tree.inner])
  {
    assert [tree.inner][1..] == [];
    assert part.members[1..] == [];
  }

  method BodiesOf(ms: MimeInputSource, parts: seq<Part>, ghost kids: seq<Tree>)
    returns (bodies: seq<string>)
    requires ms.Built() && NoStall('\0', ms.chunks) && |ms.Text()| < G.U32
    requires AllProper(kids) && ShowsAll(ms.Text(), parts, kids)
    modifies ms, ms.data
    ensures bodies == LeavesOf(kids)
    decreases parts, 0
  {
    if |parts| == 0 {
      return [];
    }
    var first := Bodies(ms, parts[0], kids[0]);
    var rest := BodiesOf(ms, parts[1..], kids[1..]);
    bodies := first + rest;
  }

  /** Whatever reads the raw input comes in, parsing it and reading the bodies back gives the bodies of the
      tree that the input is a rendering of, the end of the last one being off if the text ends too soon. */
  method ReadDocument(chunks: seq<string>, ghost tree: Tree) returns (document: Part, bodies: seq<string>)
    requires ValidChunks(chunks) && NoStall('\0', chunks) && Norm(Flatten(chunks)) == Render(tree)
    requires WellFormed(tree, "") && |Render(tree)| < G.U32
    ensures Shows(Render(tree), document, Returned(tree)) && bodies == Leaves(Returned(tree))
    ensures Intact(tree) ==> Returned(tree) == tree
  {
    var ms := new MimeInputSource(chunks);
    var size;
    RoundTrip.RoundTrip(tree, Flatten(chunks));
    ReturnedSame(tree);
    WellFormedProper(tree, "");
    ReturnedProper(tree);
    document, size := ParseFull(ms);
    bodies := Bodies(ms, document, Returned(tree));
  }
}
