/** `remarkObsidianImages`: every text node (below some parent) whose value
    holds an Obsidian embed `![[name]]` is replaced, at its own index, by the
    pieces of its value: an image node per embed, a text node per literal
    piece that is not blank. The visitor then resumes after the inserted
    nodes (`[SKIP, index + newNodes.length]`), so they are never visited. */
module ObsidianImages {
  import opened Util
  import opened Mdast
  import opened EmbedSyntax
  import opened ImagePaths

  /** The nodes one piece of the split becomes: an image for an embed, a text
      node for literal text unless it trims to nothing. */
  function PieceNodes(part: string, basePath: string, encode: string -> string): seq<Node>
  {
    match MatchName(part)
    case Some(name) => [Image(ResolveImagePath(name, basePath, encode), name)]
    case None => if IsBlank(part) then [] else [Text(part)]
  }

  function PiecesNodes(parts: seq<string>, basePath: string, encode: string -> string): seq<Node>
  {
    if parts == [] then []
    else PiecesNodes(parts[..|parts| - 1], basePath, encode) + PieceNodes(parts[|parts| - 1], basePath, encode)
  }

  /** The loop that builds `newNodes` from the split of a text node's value. */
  method NewNodes(value: string, basePath: string, encode: string -> string) returns (newNodes: seq<Node>)
    ensures newNodes == PiecesNodes(Split(value), basePath, encode)
  {
    var parts := Split(value);
    newNodes := [];
    for k := 0 to |parts|
      invariant newNodes == PiecesNodes(parts[..k], basePath, encode)
    {
      assert parts[..k + 1][..k] == parts[..k];
      var part := parts[k];
      var match_ := MatchName(part);
      if match_.Some? {
        var imagePath := match_.value;
        newNodes := newNodes + [Image(ResolveImagePath(imagePath, basePath, encode), imagePath)];
      } else if !IsBlank(part) {
        newNodes := newNodes + [Text(part)];
      }
    }
    assert parts[..|parts|] == parts;
  }

  // ---------------------------------------------------------------------
  // The pass over the whole tree

  /** What the visitor does to the value of a text child: `None` when the
      embed pattern does not match it, else the nodes that replace it. */
  function EmbedRewrite(basePath: string, encode: string -> string): string -> Option<seq<Node>>
  {
    v => if HasEmbed(v) then Some(PiecesNodes(Split(v), basePath, encode)) else None
  }

  /** A text child is replaced exactly when some index of its value starts
      an embed, and then by nodes that spell the value out again, blank
      literal pieces aside. */
  lemma EmbedRewriteOf(v: string, basePath: string, encode: string -> string)
    ensures EmbedRewrite(basePath, encode)(v).Some? <==> exists p: nat :: p < |v| && EmbedAt(v, p).Some?
    ensures EmbedRewrite(basePath, encode)(v).Some? ==>
              Sources(EmbedRewrite(basePath, encode)(v).value) == Concat(KeptPieces(Split(v)))
  {
    FindEmbedLeftmost(v, 0);
    if HasEmbed(v) {
      assert EmbedAt(v, FindEmbed(v, 0).value.start).Some?;
      NewNodesSpellValue(v, basePath, encode);
    }
  }

  /** What a visit that replaces a text child by `rewrite` of its value (and
      then skips the new nodes) makes of one child of a parent node. */
  function RewriteChild(c: Node, rewrite: string -> Option<seq<Node>>): seq<Node>
    decreases c, 1
  {
    if c.Text? && rewrite(c.value).Some? then rewrite(c.value).value
    else [RewriteTree(c, rewrite)]
  }

  /** A text node with no parent (the tree itself) is left alone. */
  function RewriteTree(n: Node, rewrite: string -> Option<seq<Node>>): Node
    decreases n, 0
  {
    if n.IsContainer() then n.WithChildren(RewriteForest(n.children, rewrite)) else n
  }

  /** The children of a parent after the visit: what each child becomes, in
      order. */
  function RewriteForest(cs: seq<Node>, rewrite: string -> Option<seq<Node>>): seq<Node>
    decreases cs, 2
  {
    if cs == [] then [] else RewriteChild(cs[0], rewrite) + RewriteForest(cs[1..], rewrite)
  }

  /** The visitor, called on the text child at `index` of a parent: when the
      value holds an embed, the child is spliced out for the new nodes and the
      visit resumes after them; otherwise the visit goes on to the next
      sibling. */
  method VisitText(children: seq<Node>, index: nat, basePath: string, encode: string -> string)
    returns (r: seq<Node>, next: nat)
    requires index < |children| && children[index].Text?
    ensures var ns := RewriteChild(children[index], EmbedRewrite(basePath, encode));
            r == children[..index] + ns + children[index + 1..] && next == index + |ns|
  {
    var node := children[index];
    if !HasEmbed(node.value) {
      assert children == children[..index] + [node] + children[index + 1..];
      return children, index + 1;
    }
    var newNodes := NewNodes(node.value, basePath, encode);
    r := children[..index] + newNodes + children[index + 1..];
    next := index + |newNodes|;
  }

  /** One step of the visit at child `index` of a parent: a text child goes
      to the visitor, which says where to resume; any other child is
      descended into and the visit moves on to the next sibling. */
  method VisitChild(children: seq<Node>, index: nat, basePath: string, encode: string -> string)
    returns (r: seq<Node>, next: nat)
    requires index < |children|
    ensures var ns := RewriteChild(children[index], EmbedRewrite(basePath, encode));
            r == children[..index] + ns + children[index + 1..] && next == index + |ns|
    decreases children[index], 0
  {
    var node := children[index];
    if node.Text? {
      r, next := VisitText(children, index, basePath, encode);
      return;
    }
    assert children == children[..index] + [node] + children[index + 1..];
    r, next := children, index + 1;
    if node.IsContainer() {
      var cs := EmbedImages(node.children, basePath, encode);
      r := children[index := node.WithChildren(cs)];
    }
  }

  /** The visit of one parent's children, left to right. */
  method EmbedImages(children: seq<Node>, basePath: string, encode: string -> string) returns (r: seq<Node>)
    ensures r == RewriteForest(children, EmbedRewrite(basePath, encode))
    decreases children, 1
  {
    ghost var rewrite := EmbedRewrite(basePath, encode);
    r := children;
    var index := 0;
    ghost var k := 0;  // how many original children the visit has passed
    while index < |r|
      invariant k <= |children|
      invariant r == RewriteForest(children[..k], rewrite) + children[k..]
      invariant index == |RewriteForest(children[..k], rewrite)|
      decreases |children| - k
    {
      ForestStep(children, k, r, index, rewrite);
      SpliceStep(children, k, r, index, rewrite, RewriteChild(r[index], rewrite));
      r, index := VisitChild(r, index, basePath, encode);
      k := k + 1;
    }
    assert children[..k] == children;
  }

  /** The plugin: the visit starts at the tree's root. */
  method RemarkObsidianImages(tree: Node, basePath: string, encode: string -> string) returns (r: Node)
    ensures r == RewriteTree(tree, EmbedRewrite(basePath, encode))
  {
    r := tree;
    if tree.IsContainer() {
      var cs := EmbedImages(tree.children, basePath, encode);
      r := tree.WithChildren(cs);
    }
  }

  // ---------------------------------------------------------------------
  // Order: the replacement happens in place

  lemma {:induction false} ForestAppend(a: seq<Node>, b: seq<Node>, rewrite: string -> Option<seq<Node>>)
    ensures RewriteForest(a + b, rewrite) == RewriteForest(a, rewrite) + RewriteForest(b, rewrite)
  {
    if a == [] {
      assert a + b == b;
    } else {
      assert (a + b)[0] == a[0];
      assert (a + b)[1..] == a[1..] + b;
      ForestAppend(a[1..], b, rewrite);
    }
  }

  /** One more child passed: its rewrite is appended. */
  lemma ForestStep(cs: seq<Node>, k: nat, r: seq<Node>, index: nat, rewrite: string -> Option<seq<Node>>)
    requires k <= |cs| && r == RewriteForest(cs[..k], rewrite) + cs[k..] && index == |RewriteForest(cs[..k], rewrite)|
    requires index < |r|
    ensures k < |cs| && r[index] == cs[k]
    ensures RewriteForest(cs[..k + 1], rewrite) == RewriteForest(cs[..k], rewrite) + RewriteChild(cs[k], rewrite)
  {
    assert cs[..k + 1] == cs[..k] + [cs[k]];
    ForestAppend(cs[..k], [cs[k]], rewrite);
    ForestSingle(cs[k], rewrite);
  }

  /** The visitor's splice keeps the loop's invariant... */
  lemma SpliceStep(cs: seq<Node>, k: nat, r: seq<Node>, index: nat, rewrite: string -> Option<seq<Node>>, ns: seq<Node>)
    requires k < |cs| && r == RewriteForest(cs[..k], rewrite) + cs[k..] && index == |RewriteForest(cs[..k], rewrite)|
    requires RewriteForest(cs[..k + 1], rewrite) == RewriteForest(cs[..k], rewrite) + RewriteChild(cs[k], rewrite)
    requires RewriteChild(cs[k], rewrite) == ns
    ensures index < |r|
    ensures r[..index] + ns + r[index + 1..] == RewriteForest(cs[..k + 1], rewrite) + cs[k + 1..]
    ensures index + |ns| == |RewriteForest(cs[..k + 1], rewrite)|
  {
    assert cs[k..] == [cs[k]] + cs[k + 1..];
    SpliceAt(r, index, RewriteForest(cs[..k], rewrite), cs[k], cs[k + 1..], ns, cs[k]);
  }

  /** ... and so does overwriting a child with what the visit makes of it. */
  lemma UpdateStep(cs: seq<Node>, k: nat, r: seq<Node>, index: nat, rewrite: string -> Option<seq<Node>>, y: Node)
    requires k < |cs| && r == RewriteForest(cs[..k], rewrite) + cs[k..] && index == |RewriteForest(cs[..k], rewrite)|
    requires RewriteForest(cs[..k + 1], rewrite) == RewriteForest(cs[..k], rewrite) + RewriteChild(cs[k], rewrite)
    requires RewriteChild(cs[k], rewrite) == [y]
    ensures index < |r|
    ensures r[index := y] == RewriteForest(cs[..k + 1], rewrite) + cs[k + 1..]
    ensures index + 1 == |RewriteForest(cs[..k + 1], rewrite)|
  {
    assert cs[k..] == [cs[k]] + cs[k + 1..];
    SpliceAt(r, index, RewriteForest(cs[..k], rewrite), cs[k], cs[k + 1..], [], y);
  }

  lemma ForestSingle(c: Node, rewrite: string -> Option<seq<Node>>)
    ensures RewriteForest([c], rewrite) == RewriteChild(c, rewrite)
  {
    assert [c][1..] == [];
  }

  // ---------------------------------------------------------------------
  // After the visit no text child is rewritable; the visit is then a no-op

  /** No text child of any node of `n` is one `rewrite` would replace. */
  predicate Settled(n: Node, rewrite: string -> Option<seq<Node>>)
    decreases n, 0
  {
    n.IsContainer() ==> forall c :: c in n.children ==> ChildSettled(c, rewrite)
  }

  predicate ChildSettled(c: Node, rewrite: string -> Option<seq<Node>>)
    decreases c, 1
  {
    (c.Text? ==> rewrite(c.value).None?) && Settled(c, rewrite)
  }

  /** `rewrite` only ever produces nodes it would leave alone. */
  ghost predicate Closed(rewrite: string -> Option<seq<Node>>)
  {
    forall v, d :: rewrite(v).Some? && d in rewrite(v).value ==> ChildSettled(d, rewrite)
  }

  lemma {:induction false} TreeSettles(n: Node, rewrite: string -> Option<seq<Node>>)
    requires Closed(rewrite)
    ensures Settled(RewriteTree(n, rewrite), rewrite)
    decreases n, 0
  {
    if n.IsContainer() {
      ForestSettles(n.children, rewrite);
    }
  }

  lemma {:induction false} ForestSettles(cs: seq<Node>, rewrite: string -> Option<seq<Node>>)
    requires Closed(rewrite)
    ensures forall d :: d in RewriteForest(cs, rewrite) ==> ChildSettled(d, rewrite)
    decreases cs, 2
  {
    if cs != [] {
      ChildSettles(cs[0], rewrite);
      ForestSettles(cs[1..], rewrite);
    }
  }

  lemma {:induction false} ChildSettles(c: Node, rewrite: string -> Option<seq<Node>>)
    requires Closed(rewrite)
    ensures forall d :: d in RewriteChild(c, rewrite) ==> ChildSettled(d, rewrite)
    decreases c, 1
  {
    if !(c.Text? && rewrite(c.value).Some?) {
      TreeSettles(c, rewrite);
    }
  }

  lemma {:induction false} SettledUnchanged(n: Node, rewrite: string -> Option<seq<Node>>)
    requires Settled(n, rewrite)
    ensures RewriteTree(n, rewrite) == n
    decreases n, 0
  {
    if n.IsContainer() {
      ForestUnchanged(n.children, rewrite);
    }
  }

  lemma {:induction false} ForestUnchanged(cs: seq<Node>, rewrite: string -> Option<seq<Node>>)
    requires forall c :: c in cs ==> ChildSettled(c, rewrite)
    ensures RewriteForest(cs, rewrite) == cs
    decreases cs, 1
  {
    if cs != [] {
      assert cs[0] in cs;
      SettledUnchanged(cs[0], rewrite);
      assert forall c :: c in cs[1..] ==> c in cs;
      ForestUnchanged(cs[1..], rewrite);
      assert cs == [cs[0]] + cs[1..];
    }
  }

  /** Running the visit twice is the same as running it once. */
  lemma RewriteIdempotent(n: Node, rewrite: string -> Option<seq<Node>>)
    requires Closed(rewrite)
    ensures RewriteTree(RewriteTree(n, rewrite), rewrite) == RewriteTree(n, rewrite)
  {
    TreeSettles(n, rewrite);
    SettledUnchanged(RewriteTree(n, rewrite), rewrite);
  }

  // ---------------------------------------------------------------------
  // What the new nodes are

  /** The pieces of a split, each in the shape the regex gives it. */
  predicate Shaped(parts: seq<string>)
  {
    forall i :: 0 <= i < |parts| ==> PieceShape(parts[i], i % 2 == 1)
  }

  /** A node the pass creates: an image whose URL is the resolved name it
      shows as alt text, the name being what the lazy group captures, or a
      text node that is not blank and holds no embed. */
  predicate Created(n: Node, basePath: string, encode: string -> string)
  {
    || (n.Image? && n.url == ResolveImagePath(n.alt, basePath, encode) && EmbedName(n.alt))
    || (n.Text? && !IsBlank(n.value) && !HasEmbed(n.value))
  }

  lemma {:induction false} PiecesNodesCreated(parts: seq<string>, basePath: string, encode: string -> string)
    requires Shaped(parts)
    ensures forall n :: n in PiecesNodes(parts, basePath, encode) ==> Created(n, basePath, encode)
  {
    if parts != [] {
      var init, last := parts[..|parts| - 1], parts[|parts| - 1];
      PiecesNodesCreated(init, basePath, encode);
      assert PieceShape(last, (|parts| - 1) % 2 == 1);
      MatchNameIffHasEmbed(last);
    }
  }

  /** Every node that replaces a text node is a created node. */
  lemma NewNodesCreated(value: string, basePath: string, encode: string -> string)
    ensures forall n :: n in PiecesNodes(Split(value), basePath, encode) ==> Created(n, basePath, encode)
  {
    forall i | 0 <= i < |Split(value)| ensures PieceShape(Split(value)[i], i % 2 == 1) {
      SplitPieces(value, i);
    }
    PiecesNodesCreated(Split(value), basePath, encode);
  }

  // ---------------------------------------------------------------------
  // Nothing is lost: the new nodes spell out the old value

  /** The Markdown a text or image node stands for. */
  function Source(n: Node): string
  {
    match n
    case Text(v) => v
    case Image(_, alt) => "![[" + alt + "]]"
    case _ => ""
  }

  function Sources(ns: seq<Node>): string
  {
    Concat(seq(|ns|, i requires 0 <= i < |ns| => Source(ns[i])))
  }

  /** A piece as it survives the pass: literal text that trims to nothing is
      dropped, everything else is kept. */
  function Kept(part: string): string
  {
    if MatchName(part).None? && IsBlank(part) then "" else part
  }

  function KeptPieces(parts: seq<string>): (r: seq<string>)
    ensures |r| == |parts|
  {
    seq(|parts|, i requires 0 <= i < |parts| => Kept(parts[i]))
  }

  lemma SourcesAppend(a: seq<Node>, b: seq<Node>)
    ensures Sources(a + b) == Sources(a) + Sources(b)
  {
    var ma := seq(|a|, i requires 0 <= i < |a| => Source(a[i]));
    var mb := seq(|b|, i requires 0 <= i < |b| => Source(b[i]));
    assert seq(|a + b|, i requires 0 <= i < |a + b| => Source((a + b)[i])) == ma + mb;
    ConcatAppend(ma, mb);
  }

  lemma SourcesSingle(n: Node)
    ensures Sources([n]) == Source(n)
  {
    var m := seq(1, i requires 0 <= i < 1 => Source([n][i]));
    assert m[0] == Source(n) && m[1..] == [];
    assert Concat(m) == m[0] + Concat(m[1..]);
  }

  /** An embed piece spells itself out again as an image node. */
  predicate Respelled(part: string)
  {
    MatchName(part).Some? ==> part == "![[" + MatchName(part).value + "]]"
  }

  lemma PieceSource(part: string, basePath: string, encode: string -> string)
    requires Respelled(part)
    ensures Sources(PieceNodes(part, basePath, encode)) == Kept(part)
  {
    var pn := PieceNodes(part, basePath, encode);
    if pn == [] {
      assert Sources(pn) == Concat([]);
    } else {
      SourcesSingle(pn[0]);
    }
  }

  lemma KeptPiecesStep(parts: seq<string>)
    requires parts != []
    ensures KeptPieces(parts) == KeptPieces(parts[..|parts| - 1]) + [Kept(parts[|parts| - 1])]
  {
    var init := parts[..|parts| - 1];
    forall i | 0 <= i < |init| ensures KeptPieces(parts)[i] == KeptPieces(init)[i] {
      assert parts[i] == init[i];
    }
  }

  lemma {:induction false} SourcesPieces(parts: seq<string>, basePath: string, encode: string -> string)
    requires forall i :: 0 <= i < |parts| ==> Respelled(parts[i])
    ensures Sources(PiecesNodes(parts, basePath, encode)) == Concat(KeptPieces(parts))
  {
    if parts == [] {
      assert Sources([]) == Concat([]);
    } else {
      var init, last := parts[..|parts| - 1], parts[|parts| - 1];
      var kept := KeptPieces(init);
      SourcesPieces(init, basePath, encode);
      SourcesAppend(PiecesNodes(init, basePath, encode), PieceNodes(last, basePath, encode));
      PieceSource(last, basePath, encode);
      KeptPiecesStep(parts);
      ConcatAppend(kept, [Kept(last)]);
      assert Concat([Kept(last)]) == Kept(last) + Concat([]);
    }
  }

  /** Reading the new nodes back as Markdown gives the old value with its
      blank literal pieces left out; when no literal piece is blank but
      non-empty, it gives the old value exactly. */
  lemma NewNodesSpellValue(value: string, basePath: string, encode: string -> string)
    ensures Sources(PiecesNodes(Split(value), basePath, encode)) == Concat(KeptPieces(Split(value)))
    ensures (forall i :: 0 <= i < |Split(value)| ==> Kept(Split(value)[i]) == Split(value)[i]) ==>
              Sources(PiecesNodes(Split(value), basePath, encode)) == value
  {
    var parts := Split(value);
    forall i | 0 <= i < |parts| ensures Respelled(parts[i]) {
      SplitPieces(value, i);
    }
    SourcesPieces(parts, basePath, encode);
    if forall i :: 0 <= i < |parts| ==> Kept(parts[i]) == parts[i] {
      assert KeptPieces(parts) == parts;
      SplitRoundTrip(value);
    }
  }

  // ---------------------------------------------------------------------
  // The image pass in particular

  /** The nodes that replace a text node are images and non-blank text
      without an embed, none of which the pass would touch again. */
  lemma EmbedRewriteClosed(basePath: string, encode: string -> string)
    ensures Closed(EmbedRewrite(basePath, encode))
  {
    var rewrite := EmbedRewrite(basePath, encode);
    forall v, d | rewrite(v).Some? && d in rewrite(v).value ensures ChildSettled(d, rewrite) {
      EmbedRewriteOf(v, basePath, encode);
      NewNodesCreated(v, basePath, encode);
      if d.Text? {
        EmbedRewriteOf(d.value, basePath, encode);
      }
    }
  }

  /** After the pass no text node below the root holds an embed, and running
      the pass again changes nothing. */
  lemma ImagesIdempotent(n: Node, basePath: string, encode: string -> string)
    ensures Settled(RewriteTree(n, EmbedRewrite(basePath, encode)), EmbedRewrite(basePath, encode))
    ensures var once := RewriteTree(n, EmbedRewrite(basePath, encode));
            RewriteTree(once, EmbedRewrite(basePath, encode)) == once
  {
    EmbedRewriteClosed(basePath, encode);
    RewriteIdempotent(n, EmbedRewrite(basePath, encode));
    TreeSettles(n, EmbedRewrite(basePath, encode));
  }

  /** Skipping the new nodes loses nothing: visiting them would not change
      them. */
  lemma NewNodesNeedNoVisit(value: string, basePath: string, encode: string -> string)
    ensures RewriteForest(PiecesNodes(Split(value), basePath, encode), EmbedRewrite(basePath, encode))
            == PiecesNodes(Split(value), basePath, encode)
  {
    var rewrite := EmbedRewrite(basePath, encode);
    var ns := PiecesNodes(Split(value), basePath, encode);
    NewNodesCreated(value, basePath, encode);
    forall c | c in ns ensures ChildSettled(c, rewrite) {
    }
    ForestUnchanged(ns, rewrite);
  }

  /** A text child without an embed is left as it was. */
  lemma TextWithoutEmbedUnchanged(v: string, basePath: string, encode: string -> string)
    requires !HasEmbed(v)
    ensures RewriteChild(Text(v), EmbedRewrite(basePath, encode)) == [Text(v)]
  {
  }
}
