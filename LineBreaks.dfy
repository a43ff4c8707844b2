/** `remarkPreserveLineBreaks`: inside every paragraph, a text child (other than
    the last child) whose value ends in a newline loses that newline and is
    followed by an explicit `break` node. */
module LineBreaks {
  import opened Mdast

  predicate EndsWithNewline(s: string)
  {
    |s| > 0 && s[|s| - 1] == '\n'
  }

  /** A child the visitor splits: a text node whose value ends in "\n". */
  predicate Splits(c: Node)
  {
    c.Text? && EndsWithNewline(c.value)
  }

  /** What a candidate child (any child but the last) turns into. */
  function Candidate(c: Node): seq<Node>
  {
    if Splits(c) then [Text(c.value[..|c.value| - 1]), Break] else [c]
  }

  /** The candidates `cs`, each replaced by what it turns into. */
  function Candidates(cs: seq<Node>): seq<Node>
  {
    if cs == [] then [] else Candidates(cs[..|cs| - 1]) + Candidate(cs[|cs| - 1])
  }

  /** A paragraph's children after the visitor has run on it: the last child
      is never a candidate, because the loop stops at `length - 1` and the
      inserted breaks always land before the original last child. */
  function WithBreaks(cs: seq<Node>): seq<Node>
  {
    if cs == [] then [] else Candidates(cs[..|cs| - 1]) + [cs[|cs| - 1]]
  }

  /** The visitor's loop: it splices a break after each splitting text child,
      strips that child's newline, and steps over the inserted break. */
  method PreserveLineBreaks(children: seq<Node>) returns (r: seq<Node>)
    ensures r == WithBreaks(children)
  {
    r := children;
    var i := 0;
    ghost var k := 0;  // how many original children the loop has passed
    while i < |r| - 1
      invariant k <= |children|
      invariant r == Candidates(children[..k]) + children[k..]
      invariant i == |Candidates(children[..k])|
      invariant |children| > 0 ==> k < |children|
    {
      LoopStep(children, k, r, i);
      var child := r[i];
      if child.Text? && EndsWithNewline(child.value) {
        r := r[..i + 1] + [Break] + r[i + 1..];
        r := r[i := Text(child.value[..|child.value| - 1])];
        i := i + 1;
      }
      i := i + 1;
      k := k + 1;
    }
    if children != [] {
      assert children[..|children| - 1] == children[..k];
      assert children[k..] == [children[k]];
    }
  }

  /** One step of the loop: at index `i` stands original child `k`;
      splicing a break after it and stripping its newline when it splits,
      and leaving it otherwise, yields what `Candidate` makes of it. */
  lemma LoopStep(cs: seq<Node>, k: nat, r: seq<Node>, i: nat)
    requires k < |cs| && r == Candidates(cs[..k]) + cs[k..] && i == |Candidates(cs[..k])|
    ensures i < |r| && r[i] == cs[k]
    ensures Candidates(cs[..k + 1]) == Candidates(cs[..k]) + Candidate(cs[k])
    ensures Splits(cs[k]) ==>
              (r[..i + 1] + [Break] + r[i + 1..])[i := Text(cs[k].value[..|cs[k].value| - 1])]
              == Candidates(cs[..k + 1]) + cs[k + 1..]
    ensures !Splits(cs[k]) ==> r == Candidates(cs[..k + 1]) + cs[k + 1..]
  {
    var done, c := Candidates(cs[..k]), cs[k];
    assert cs[k..] == [c] + cs[k + 1..];
    assert cs[..k + 1][..k] == cs[..k];
    assert r == done + [c] + cs[k + 1..];
    if Splits(c) {
      assert r[..i + 1] == done + [c];
      assert r[i + 1..] == cs[k + 1..];
    }
  }

  // ---------------------------------------------------------------------
  // What the pass does to one paragraph

  lemma {:induction false} CandidatesAppend(a: seq<Node>, b: seq<Node>)
    ensures Candidates(a + b) == Candidates(a) + Candidates(b)
    decreases |b|
  {
    if b == [] {
      assert a + b == a;
    } else {
      assert (a + b)[..|a + b| - 1] == a + b[..|b| - 1];
      CandidatesAppend(a, b[..|b| - 1]);
    }
  }

  /** Where original child `k` lands in the new children. */
  function Position(cs: seq<Node>, k: nat): nat
    requires k <= |cs|
  {
    |Candidates(cs[..k])|
  }

  lemma CandidatesSingle(c: Node)
    ensures Candidates([c]) == Candidate(c)
  {
    assert [c][..0] == [];
  }

  /** The new children, cut around the place of original child `k`. */
  lemma {:induction false} WithBreaksAround(cs: seq<Node>, k: nat)
    requires k + 1 < |cs|
    ensures WithBreaks(cs) == Candidates(cs[..k]) + Candidate(cs[k]) + Candidates(cs[k + 1..|cs| - 1]) + [cs[|cs| - 1]]
    ensures Position(cs, k + 1) == Position(cs, k) + |Candidate(cs[k])|
  {
    var n := |cs| - 1;
    var front, back := cs[..k + 1], cs[k + 1..n];
    assert cs[..n] == front + back by {
      assert |cs[..n]| == |front + back|;
      forall i | 0 <= i < n ensures cs[..n][i] == (front + back)[i] {}
    }
    assert Candidates(front) == Candidates(cs[..k]) + Candidate(cs[k]) by {
      assert front == cs[..k] + [cs[k]];
      CandidatesAppend(cs[..k], [cs[k]]);
      CandidatesSingle(cs[k]);
    }
    assert Candidates(cs[..n]) == Candidates(front) + Candidates(back) by {
      CandidatesAppend(front, back);
    }
  }

  /** Every child but the last is replaced, in place and in order, by what
      `Candidate` makes of it; the last child ends the new list unchanged. */
  lemma {:induction false} WithBreaksSegments(cs: seq<Node>, k: nat)
    requires k + 1 < |cs|
    ensures Position(cs, k) < Position(cs, k + 1) <= |WithBreaks(cs)| - 1
    ensures WithBreaks(cs)[Position(cs, k)..Position(cs, k + 1)] == Candidate(cs[k])
    ensures WithBreaks(cs)[|WithBreaks(cs)| - 1] == cs[|cs| - 1]
  {
    WithBreaksAround(cs, k);
    var a, b := Candidates(cs[..k]), Candidate(cs[k]);
    var rest := Candidates(cs[k + 1..|cs| - 1]) + [cs[|cs| - 1]];
    assert WithBreaks(cs) == a + b + rest;
    assert (a + b + rest)[|a|..|a| + |b|] == b;
  }

  /** A splitting child loses exactly one trailing newline and is followed
      immediately by a new break; any other candidate is kept as it was. */
  lemma CandidateShape(c: Node)
    ensures Splits(c) ==> Candidate(c) == [Text(c.value[..|c.value| - 1]), Break]
                          && c.value == c.value[..|c.value| - 1] + "\n"
    ensures !Splits(c) ==> Candidate(c) == [c]
  {
  }

  /** Number of candidates that split. */
  function SplitCount(cs: seq<Node>): nat
  {
    if cs == [] then 0 else SplitCount(cs[..|cs| - 1]) + (if Splits(cs[|cs| - 1]) then 1 else 0)
  }

  /** The pass adds one break per splitting candidate and removes nothing. */
  lemma {:induction false} WithBreaksLength(cs: seq<Node>)
    ensures cs != [] ==> |WithBreaks(cs)| == |cs| + SplitCount(cs[..|cs| - 1])
    ensures cs == [] ==> WithBreaks(cs) == []
  {
    if cs != [] {
      CandidatesLength(cs[..|cs| - 1]);
    }
  }

  lemma {:induction false} CandidatesLength(cs: seq<Node>)
    ensures |Candidates(cs)| == |cs| + SplitCount(cs)
  {
    if cs != [] {
      CandidatesLength(cs[..|cs| - 1]);
    }
  }

  /** A paragraph is left unchanged exactly when no candidate splits. */
  lemma {:induction false} WithBreaksUnchanged(cs: seq<Node>)
    ensures WithBreaks(cs) == cs <==> (cs == [] || SplitCount(cs[..|cs| - 1]) == 0)
  {
    if cs != [] {
      WithBreaksLength(cs);
      if SplitCount(cs[..|cs| - 1]) == 0 {
        CandidatesIdentity(cs[..|cs| - 1]);
        assert cs[..|cs| - 1] + [cs[|cs| - 1]] == cs;
      }
    }
  }

  lemma {:induction false} CandidatesIdentity(cs: seq<Node>)
    requires SplitCount(cs) == 0
    ensures Candidates(cs) == cs
  {
    if cs != [] {
      CandidatesIdentity(cs[..|cs| - 1]);
      assert cs[..|cs| - 1] + [cs[|cs| - 1]] == cs;
    }
  }

  // ---------------------------------------------------------------------
  // The pass over the whole tree (`visit(tree, "paragraph", ...)`)

  function PreserveLineBreaksTree(n: Node): Node
    decreases n
  {
    if !n.IsContainer() then n
    else
      var cs := PreserveLineBreaksForest(n.children);
      if n.Paragraph? then Paragraph(WithBreaks(cs)) else n.WithChildren(cs)
  }

  function PreserveLineBreaksForest(cs: seq<Node>): (r: seq<Node>)
    ensures |r| == |cs|
    decreases cs
  {
    seq(|cs|, i requires 0 <= i < |cs| => PreserveLineBreaksTree(cs[i]))
  }

  lemma ForestAppend(a: seq<Node>, b: seq<Node>)
    ensures PreserveLineBreaksForest(a + b) == PreserveLineBreaksForest(a) + PreserveLineBreaksForest(b)
  {
  }

  /** The tree step leaves text and break nodes alone, so it commutes with
      what the paragraph visitor does to one candidate. */
  lemma CandidateCommutes(c: Node)
    ensures PreserveLineBreaksForest(Candidate(c)) == Candidate(PreserveLineBreaksTree(c))
  {
  }

  lemma {:induction false} CandidatesCommute(cs: seq<Node>)
    ensures PreserveLineBreaksForest(Candidates(cs)) == Candidates(PreserveLineBreaksForest(cs))
  {
    if cs != [] {
      var init, last := cs[..|cs| - 1], cs[|cs| - 1];
      ForestAppend(Candidates(init), Candidate(last));
      CandidatesCommute(init);
      CandidateCommutes(last);
      assert PreserveLineBreaksForest(cs)[..|cs| - 1] == PreserveLineBreaksForest(init);
    }
  }

  /** `visit` calls the visitor on a paragraph before it descends into the
      paragraph's (already rewritten) children. One step of that order:
      adding the breaks to a list of children and then rewriting inside them
      gives what rewriting inside first and then adding the breaks gives. A
      full top-down walk is not defined separately. */
  lemma {:induction false} VisitOrderIrrelevant(cs: seq<Node>)
    ensures PreserveLineBreaksForest(WithBreaks(cs)) == WithBreaks(PreserveLineBreaksForest(cs))
  {
    if cs != [] {
      var init, last := cs[..|cs| - 1], cs[|cs| - 1];
      ForestAppend(Candidates(init), [last]);
      CandidatesCommute(init);
      assert PreserveLineBreaksForest(cs)[..|cs| - 1] == PreserveLineBreaksForest(init);
    }
  }

  /** Every node keeps its kind; only paragraphs change their own children. */
  lemma PreservesKind(n: Node)
    ensures PreserveLineBreaksTree(n).SameShape(n)
    ensures !n.IsContainer() ==> PreserveLineBreaksTree(n) == n
  {
  }
}
