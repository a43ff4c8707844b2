/** `remarkFixOrderedLists`: in a list item flagged `ordered`, whose first child
    is a paragraph, the break nodes at the start of that paragraph are removed.
    The flag read is the list item's own `ordered` property (the enclosing
    list's flag is not consulted), and the loop's `i--` makes it remove every
    leading break, not only the first. */
module OrderedLists {
  import opened Mdast

  /** The length of the run of breaks that `cs` starts with. */
  function LeadingBreaks(cs: seq<Node>): (k: nat)
    ensures k <= |cs|
    ensures forall j :: 0 <= j < k ==> cs[j].Break?
    ensures k == |cs| || !cs[k].Break?
  {
    if cs != [] && cs[0].Break? then 1 + LeadingBreaks(cs[1..]) else 0
  }

  /** `cs` without its leading run of breaks. */
  function WithoutLeadingBreaks(cs: seq<Node>): seq<Node>
  {
    cs[LeadingBreaks(cs)..]
  }

  /** The visitor's loop over the first paragraph's children: a break at
      index 0 is spliced out and `i--` makes the loop look at index 0 again;
      at any later index nothing is removed. */
  method StripLeadingBreaks(children: seq<Node>) returns (r: seq<Node>)
    ensures r == WithoutLeadingBreaks(children)
  {
    r := children;
    var i: int := 0;
    while i < |r|
      invariant 0 <= i <= |r| <= |children|
      invariant r == children[|children| - |r|..]
      invariant forall j :: 0 <= j < |children| - |r| ==> children[j].Break?
      invariant i > 0 ==> !r[0].Break?
      decreases 2 * |r| - i
    {
      if r[i].Break? && i == 0 {
        r := r[..i] + r[i + 1..];
        i := i - 1;
      }
      i := i + 1;
    }
  }

  /** What the visitor does to the children of one list item. */
  function FixItem(ordered: bool, cs: seq<Node>): seq<Node>
  {
    if cs == [] then cs
    else if ordered && cs[0].Paragraph? then [Paragraph(WithoutLeadingBreaks(cs[0].children))] + cs[1..]
    else cs
  }

  /** The visitor removes breaks only at the start of the first child, and only
      when that child is a paragraph of a list item flagged `ordered`;
      everything else, later breaks included, stays where it was. */
  lemma FixItemEffect(ordered: bool, cs: seq<Node>)
    ensures |FixItem(ordered, cs)| == |cs|
    ensures forall j :: 1 <= j < |cs| ==> FixItem(ordered, cs)[j] == cs[j]
    ensures !ordered || cs == [] || !cs[0].Paragraph? ==> FixItem(ordered, cs) == cs
    ensures ordered && cs != [] && cs[0].Paragraph? ==>
              var p := FixItem(ordered, cs)[0];
              && p.Paragraph?
              && (p.children == [] || !p.children[0].Break?)
              && p.children == cs[0].children[|cs[0].children| - |p.children|..]
  {
  }

  // ---------------------------------------------------------------------
  // The pass over the whole tree (`visit(tree, "listItem", ...)`)

  function FixOrderedListsTree(n: Node): Node
    decreases n
  {
    if !n.IsContainer() then n
    else
      var cs := FixOrderedListsForest(n.children);
      if n.ListItem? then ListItem(n.ordered, FixItem(n.ordered, cs)) else n.WithChildren(cs)
  }

  function FixOrderedListsForest(cs: seq<Node>): (r: seq<Node>)
    ensures |r| == |cs|
    decreases cs
  {
    seq(|cs|, i requires 0 <= i < |cs| => FixOrderedListsTree(cs[i]))
  }

  /** The tree step maps breaks to breaks and every other node to a node
      that is not a break, so it keeps the length of the leading run. */
  lemma StripCommutes(cs: seq<Node>)
    ensures FixOrderedListsForest(WithoutLeadingBreaks(cs)) == WithoutLeadingBreaks(FixOrderedListsForest(cs))
  {
    var fs := FixOrderedListsForest(cs);
    forall j | 0 <= j < |cs| ensures fs[j].Break? <==> cs[j].Break? {
      KeepsKind(cs[j]);
    }
    assert LeadingBreaks(fs) == LeadingBreaks(cs);
  }

  lemma KeepsKind(n: Node)
    ensures FixOrderedListsTree(n).Break? <==> n.Break?
    ensures FixOrderedListsTree(n).Paragraph? <==> n.Paragraph?
    ensures n.Paragraph? ==> FixOrderedListsTree(n) == Paragraph(FixOrderedListsForest(n.children))
  {
  }

  /** `visit` calls the visitor on a list item before it descends into the
      item's (already rewritten) children. One step of that order: fixing the
      item's first paragraph and then rewriting inside its children gives
      what rewriting inside first and then fixing gives. A full top-down walk
      is not defined separately. */
  lemma VisitOrderIrrelevant(ordered: bool, cs: seq<Node>)
    ensures FixOrderedListsForest(FixItem(ordered, cs)) == FixItem(ordered, FixOrderedListsForest(cs))
  {
    if cs != [] {
      KeepsKind(cs[0]);
      var fs := FixOrderedListsForest(cs);
      if ordered && cs[0].Paragraph? {
        var p := Paragraph(WithoutLeadingBreaks(cs[0].children));
        KeepsKind(p);
        StripCommutes(cs[0].children);
        ForestCons(p, cs[1..]);
        ForestCons(cs[0], cs[1..]);
        assert cs == [cs[0]] + cs[1..];
        assert fs[1..] == FixOrderedListsForest(cs[1..]);
      }
    }
  }

  lemma ForestCons(n: Node, rest: seq<Node>)
    ensures FixOrderedListsForest([n] + rest) == [FixOrderedListsTree(n)] + FixOrderedListsForest(rest)
  {
  }

  /** The pass's postcondition: no list item flagged `ordered` whose first
      child is a paragraph has a break at the start of that paragraph. */
  predicate OrderedItemsFixed(n: Node)
    decreases n
  {
    && (n.ListItem? && n.ordered && n.children != [] && n.children[0].Paragraph? ==>
          n.children[0].children == [] || !n.children[0].children[0].Break?)
    && (n.IsContainer() ==> forall c :: c in n.children ==> OrderedItemsFixed(c))
  }

  lemma {:induction false} FixOrderedListsEstablishes(n: Node)
    ensures OrderedItemsFixed(FixOrderedListsTree(n))
    decreases n
  {
    if n.IsContainer() {
      var cs := FixOrderedListsForest(n.children);
      forall c | c in cs ensures OrderedItemsFixed(c) {
        var i :| 0 <= i < |cs| && cs[i] == c;
        FixOrderedListsEstablishes(n.children[i]);
      }
      if n.ListItem? && n.ordered && cs != [] && cs[0].Paragraph? {
        var p := cs[0];
        var stripped := Paragraph(WithoutLeadingBreaks(p.children));
        assert OrderedItemsFixed(p);
        forall c | c in stripped.children ensures OrderedItemsFixed(c) {
          assert c in p.children;
        }
        assert OrderedItemsFixed(stripped);
        var r := FixItem(n.ordered, cs);
        forall c | c in r ensures OrderedItemsFixed(c) {
          var i :| 0 <= i < |r| && r[i] == c;
          if i > 0 { assert c == cs[i]; }
        }
      }
    }
  }

  /** A tree that already satisfies the postcondition is left unchanged: the
      pass does nothing when there is nothing to fix, and running it twice is
      the same as running it once. */
  lemma {:induction false} FixOrderedListsNoOp(n: Node)
    requires OrderedItemsFixed(n)
    ensures FixOrderedListsTree(n) == n
    decreases n
  {
    if n.IsContainer() {
      var cs := FixOrderedListsForest(n.children);
      forall i | 0 <= i < |n.children| ensures cs[i] == n.children[i] {
        FixOrderedListsNoOp(n.children[i]);
      }
      assert cs == n.children;
    }
  }

  lemma FixOrderedListsIdempotent(n: Node)
    ensures FixOrderedListsTree(FixOrderedListsTree(n)) == FixOrderedListsTree(n)
  {
    FixOrderedListsEstablishes(n);
    FixOrderedListsNoOp(FixOrderedListsTree(n));
  }

  // ---------------------------------------------------------------------
  // The flag is read from the wrong node

  /** No list item carries an `ordered` flag of its own: the shape of every
      tree the Markdown parser produces, since mdast records `ordered` on
      the list only. */
  predicate ItemsUnflagged(n: Node)
    decreases n
  {
    && (n.ListItem? ==> !n.ordered)
    && (n.IsContainer() ==> forall c :: c in n.children ==> ItemsUnflagged(c))
  }

  /** As written, the pass changes nothing in such a tree. */
  lemma {:induction false} UnflaggedUnchanged(n: Node)
    requires ItemsUnflagged(n)
    ensures FixOrderedListsTree(n) == n
    decreases n
  {
    if n.IsContainer() {
      var cs := FixOrderedListsForest(n.children);
      forall i | 0 <= i < |n.children| ensures cs[i] == n.children[i] {
        assert n.children[i] in n.children;
        UnflaggedUnchanged(n.children[i]);
      }
      assert cs == n.children;
    }
  }

  /** The pass as evidently intended: the break stripping applies to the
      items of a list whose own `ordered` flag is set. */
  function FixByListTree(n: Node): Node
    decreases n
  {
    if !n.IsContainer() then n
    else
      var cs := FixByListForest(n.children);
      if n.List? && n.ordered then List(true, FixItems(cs)) else n.WithChildren(cs)
  }

  function FixByListForest(cs: seq<Node>): (r: seq<Node>)
    ensures |r| == |cs|
    decreases cs
  {
    seq(|cs|, i requires 0 <= i < |cs| => FixByListTree(cs[i]))
  }

  /** The items of an ordered list, each with its leading breaks removed. */
  function FixItems(cs: seq<Node>): (r: seq<Node>)
    ensures |r| == |cs|
  {
    seq(|cs|, i requires 0 <= i < |cs| =>
      if cs[i].ListItem? then ListItem(cs[i].ordered, FixItem(true, cs[i].children)) else cs[i])
  }

  /** No item of an ordered list starts with a paragraph that starts with a
      break. */
  predicate ListsFixed(n: Node)
    decreases n
  {
    && (n.List? && n.ordered ==>
          forall c :: c in n.children && c.ListItem? && c.children != [] && c.children[0].Paragraph? ==>
            c.children[0].children == [] || !c.children[0].children[0].Break?)
    && (n.IsContainer() ==> forall c :: c in n.children ==> ListsFixed(c))
  }

  /** Removing an item's leading breaks keeps the item fixed below it. */
  lemma FixItemKeepsFixed(cs: seq<Node>)
    requires forall c :: c in cs ==> ListsFixed(c)
    ensures forall c :: c in FixItem(true, cs) ==> ListsFixed(c)
  {
    var r := FixItem(true, cs);
    forall c | c in r ensures ListsFixed(c) {
      var i :| 0 <= i < |r| && r[i] == c;
      if i == 0 && cs[0].Paragraph? {
        var p := cs[0];
        assert ListsFixed(p);
        forall d | d in c.children ensures ListsFixed(d) {
          assert d in p.children;
        }
      } else {
        assert c == cs[i];
      }
    }
  }

  lemma {:induction false} FixByListEstablishes(n: Node)
    ensures ListsFixed(FixByListTree(n))
    decreases n
  {
    if n.IsContainer() {
      var cs := FixByListForest(n.children);
      forall c | c in cs ensures ListsFixed(c) {
        var i :| 0 <= i < |cs| && cs[i] == c;
        FixByListEstablishes(n.children[i]);
      }
      if n.List? && n.ordered {
        var items := FixItems(cs);
        forall c | c in items ensures ListsFixed(c) {
          var i :| 0 <= i < |items| && items[i] == c;
          assert cs[i] in cs;
          if cs[i].ListItem? {
            FixItemKeepsFixed(cs[i].children);
          }
        }
      }
    }
  }

  /** A one-item ordered list as the parser produces it (the flag on the
      list, none on the item) whose paragraph starts with a break: the pass
      as written leaves the break, the corrected pass removes it. */
  lemma OrderedFlagIgnored()
    ensures var t := List(true, [ListItem(false, [Paragraph([Break, Text("one")])])]);
            && ItemsUnflagged(t)
            && FixOrderedListsTree(t) == t
            && !ListsFixed(t)
            && FixByListTree(t) == List(true, [ListItem(false, [Paragraph([Text("one")])])])
  {
    var t := List(true, [ListItem(false, [Paragraph([Break, Text("one")])])]);
    var item := t.children[0];
    assert item in t.children;
    assert ItemsUnflagged(Text("one")) && ItemsUnflagged(Break);
    assert ItemsUnflagged(item.children[0]) by {
      assert forall c :: c in item.children[0].children ==> c == Break || c == Text("one");
    }
    assert ItemsUnflagged(item);
    UnflaggedUnchanged(t);
    var para := [Break, Text("one")];
    assert FixByListForest(para) == para;
    assert FixByListTree(Paragraph(para)) == Paragraph(para);
    assert FixByListForest([Paragraph(para)]) == [Paragraph(para)];
    assert FixByListTree(item) == item;
    assert FixByListForest(t.children) == [item];
    assert LeadingBreaks(para) == 1;
    assert WithoutLeadingBreaks(para) == [Text("one")];
    assert FixItem(true, item.children) == [Paragraph([Text("one")])];
    assert FixItems([item]) == [ListItem(false, [Paragraph([Text("one")])])];
  }
}
