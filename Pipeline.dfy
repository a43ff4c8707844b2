/** `parseObsidianMarkdown`: parse, the three rewrite passes, conversion to
    sanitised HTML, then one textual patch of the HTML; any failure becomes an
    error fragment instead of an exception. The parser and the HTML
    converter (remark-parse, remark-gfm, remark-rehype, rehype-sanitize,
    rehype-stringify) are parameters that either succeed or fail with a
    message. */
module Pipeline {
  import opened Util
  import opened Mdast
  import LineBreaks
  import OrderedLists
  import ObsidianImages

  // ---------------------------------------------------------------------
  // `html.replace(/<li><p>(\d+\.\s*)<br>/g, "<li><p>$1")`

  const ItemStart: string := "<li><p>"
  const BreakTag: string := "<br>"

  /** The first index at or after `i` that does not hold an ASCII digit. */
  function DigitsEnd(h: string, i: nat): (e: nat)
    ensures i <= e && (i <= |h| ==> e <= |h|)
    ensures forall x :: i <= x < e ==> x < |h| && IsAsciiDigit(h[x])
    ensures e < |h| ==> !IsAsciiDigit(h[e])
    decreases |h| - i
  {
    if i < |h| && IsAsciiDigit(h[i]) then DigitsEnd(h, i + 1) else i
  }

  /** The first index at or after `i` that does not hold white space. */
  function SpacesEnd(h: string, i: nat): (e: nat)
    ensures i <= e && (i <= |h| ==> e <= |h|)
    ensures forall x :: i <= x < e ==> x < |h| && IsJsWhitespace(h[x])
    ensures e < |h| ==> !IsJsWhitespace(h[e])
    decreases |h| - i
  {
    if i < |h| && IsJsWhitespace(h[i]) then SpacesEnd(h, i + 1) else i
  }

  /** The pattern matches at `j` with its `<br>` starting at `w`: "<li><p>",
      one or more ASCII digits, a '.', any white space, then "<br>". */
  ghost predicate MatchesAt(h: string, j: nat, w: nat)
  {
    && OccursAt(h, ItemStart, j)
    && OccursAt(h, BreakTag, w)
    && exists d :: j + |ItemStart| < d < w && h[d] == '.'
         && (forall x :: j + |ItemStart| <= x < d ==> IsAsciiDigit(h[x]))
         && (forall x :: d < x < w ==> IsJsWhitespace(h[x]))
  }

  /** Where the `<br>` of a match of the pattern starting at `i` begins, if
      the pattern matches there. `\d+` and `\s*` are greedy, and backing off
      cannot help: a digit is not a '.', and white space is not a '<'. */
  function MarkerEnd(h: string, i: nat): (r: Option<nat>)
    ensures r.Some? ==> i + |ItemStart| + 2 <= r.value && OccursAt(h, BreakTag, r.value)
  {
    if !OccursAt(h, ItemStart, i) then None
    else
      var d := DigitsEnd(h, i + |ItemStart|);
      if d == i + |ItemStart| || d >= |h| || h[d] != '.' then None
      else
        var w := SpacesEnd(h, d + 1);
        if OccursAt(h, BreakTag, w) then Some(w) else None
  }

  lemma OccursChar(s: string, t: string, i: nat, x: nat)
    requires OccursAt(s, t, i) && x < |t|
    ensures s[i + x] == t[x]
  {
    assert s[i..i + |t|][x] == t[x];
  }

  lemma ItemStartChars(h: string, k: nat)
    ensures OccursAt(h, ItemStart, k) ==> k + 1 < |h| && h[k] == '<' && h[k + 1] == 'l'
  {
    if OccursAt(h, ItemStart, k) {
      OccursChar(h, ItemStart, k, 0);
      OccursChar(h, ItemStart, k, 1);
    }
  }

  lemma DigitsEndAt(h: string, i: nat, e: nat)
    requires i <= e < |h| && !IsAsciiDigit(h[e])
    requires forall x :: i <= x < e ==> IsAsciiDigit(h[x])
    ensures DigitsEnd(h, i) == e
  {
  }

  lemma SpacesEndAt(h: string, i: nat, e: nat)
    requires i <= e < |h| && !IsJsWhitespace(h[e])
    requires forall x :: i <= x < e ==> IsJsWhitespace(h[x])
    ensures SpacesEnd(h, i) == e
  {
  }

  /** Every match of the pattern is found by `MarkerEnd`, with its `<br>`... */
  lemma MatchFound(h: string, j: nat, w: nat)
    requires MatchesAt(h, j, w)
    ensures MarkerEnd(h, j) == Some(w)
  {
    var d :| j + |ItemStart| < d < w && h[d] == '.'
              && (forall x :: j + |ItemStart| <= x < d ==> IsAsciiDigit(h[x]))
              && (forall x :: d < x < w ==> IsJsWhitespace(h[x]));
    DigitsEndAt(h, j + |ItemStart|, d);
    OccursChar(h, BreakTag, w, 0);
    SpacesEndAt(h, d + 1, w);
  }

  /** ... and everything `MarkerEnd` finds is a match. */
  lemma FoundMatch(h: string, j: nat)
    requires MarkerEnd(h, j).Some?
    ensures MatchesAt(h, j, MarkerEnd(h, j).value)
  {
    var d := DigitsEnd(h, j + |ItemStart|);
    assert j + |ItemStart| < d < MarkerEnd(h, j).value && h[d] == '.';
  }

  /** `MarkerEnd` finds a match exactly where the pattern matches, and the
      `<br>` it reports is the one of that match. */
  lemma MarkerEndMatches(h: string, j: nat, w: nat)
    ensures MarkerEnd(h, j) == Some(w) <==> MatchesAt(h, j, w)
  {
    if MatchesAt(h, j, w) {
      MatchFound(h, j, w);
    }
    if MarkerEnd(h, j) == Some(w) {
      FoundMatch(h, j);
    }
  }

  /** No match of the pattern starts inside another one, that is after its
      first character and before the end of its `<br>`. */
  lemma MatchesApart(h: string, j: nat, w: nat, k: nat)
    requires MatchesAt(h, j, w) && j < k < w + |BreakTag|
    ensures !OccursAt(h, ItemStart, k)
  {
    var d :| j + |ItemStart| < d < w && h[d] == '.'
              && (forall x :: j + |ItemStart| <= x < d ==> IsAsciiDigit(h[x]))
              && (forall x :: d < x < w ==> IsJsWhitespace(h[x]));
    if k < j + |ItemStart| {
      OccursChar(h, ItemStart, j, k - j);
      if k - j == 4 {
        OccursChar(h, ItemStart, j, 5);
      }
    } else if k >= w {
      OccursChar(h, BreakTag, w, k - w);
      if k == w {
        OccursChar(h, BreakTag, w, 1);
      }
    }
    ItemStartChars(h, k);
  }

  /** `marker` finds, for each index `j`, where the `<br>` of a match
      starting at `j` begins, if there is such a match. */
  ghost predicate MarkerSearch(h: string, marker: nat -> Option<nat>)
  {
    forall j: nat :: marker(j).Some? ==> j < marker(j).value && OccursAt(h, BreakTag, marker(j).value)
  }

  /** The matches of the pattern in `h`. */
  function Markers(h: string): (marker: nat -> Option<nat>)
    ensures MarkerSearch(h, marker)
  {
    j => MarkerEnd(h, j)
  }

  /** The global replacement from index `i` on: at each index the pattern is
      tried; after a match the search resumes where the match ended. */
  function PatchBy(h: string, i: nat, marker: nat -> Option<nat>): (r: string)
    requires i <= |h| && MarkerSearch(h, marker)
    ensures |r| <= |h| - i
    decreases |h| - i
  {
    if i >= |h| then []
    else match marker(i)
      case Some(w) => h[i..w] + PatchBy(h, w + |BreakTag|, marker)
      case None => [h[i]] + PatchBy(h, i + 1, marker)
  }

  function PatchListBreaks(html: string): string
  {
    PatchBy(html, 0, Markers(html))
  }

  // The patch, specified: the characters of the `<br>` of every match are
  // deleted and all others are kept in order.

  /** `h[i..]` without the characters at the indices where `gone` holds. */
  ghost function Without(h: string, i: nat, gone: nat -> bool): string
    decreases |h| - i
  {
    if i >= |h| then [] else (if gone(i) then [] else [h[i]]) + Without(h, i + 1, gone)
  }

  /** Index `p` lies in the `<br>` of a match of the pattern. */
  ghost predicate InMatchedBreak(h: string, p: nat)
  {
    exists j: nat, w: nat :: MatchesAt(h, j, w) && w <= p < w + |BreakTag|
  }

  ghost function MatchedBreaks(h: string): nat -> bool
  {
    (p: nat) => InMatchedBreak(h, p)
  }

  /** Index `p` lies in the `<br>` of a match found by `marker`. */
  ghost predicate Covered(marker: nat -> Option<nat>, p: nat)
  {
    exists j: nat :: marker(j).Some? && marker(j).value <= p < marker(j).value + |BreakTag|
  }

  /** No match found by `marker` starts inside another one. */
  ghost predicate Apart(marker: nat -> Option<nat>)
  {
    forall j: nat, k: nat :: marker(j).Some? && j < k < marker(j).value + |BreakTag| ==> marker(k).None?
  }

  /** Every match found before index `i` ends by `i`. */
  ghost predicate SettledBefore(marker: nat -> Option<nat>, i: nat)
  {
    forall j: nat :: j < i && marker(j).Some? ==> marker(j).value + |BreakTag| <= i
  }

  lemma {:induction false} WithoutKeeps(h: string, i: nat, k: nat, gone: nat -> bool)
    requires i <= k <= |h| && forall p :: i <= p < k ==> !gone(p)
    ensures Without(h, i, gone) == h[i..k] + Without(h, k, gone)
    decreases k - i
  {
    if i < k {
      WithoutKeeps(h, i + 1, k, gone);
      assert !gone(i);
      calc {
        Without(h, i, gone);
        [h[i]] + Without(h, i + 1, gone);
        [h[i]] + (h[i + 1..k] + Without(h, k, gone));
        { assert h[i..k] == [h[i]] + h[i + 1..k]; }
        h[i..k] + Without(h, k, gone);
      }
    }
  }

  lemma {:induction false} WithoutDrops(h: string, i: nat, k: nat, gone: nat -> bool)
    requires i <= k <= |h| && forall p :: i <= p < k ==> gone(p)
    ensures Without(h, i, gone) == Without(h, k, gone)
    decreases k - i
  {
    if i < k {
      WithoutDrops(h, i + 1, k, gone);
    }
  }

  /** Where no match is found and none found earlier reaches, nothing is
      covered, and the next index is not straddled either. */
  lemma UnmatchedStep(h: string, i: nat, marker: nat -> Option<nat>)
    requires MarkerSearch(h, marker) && SettledBefore(marker, i) && marker(i).None?
    ensures !Covered(marker, i) && SettledBefore(marker, i + 1)
  {
  }

  /** Before the `<br>` of a match found at `i`, nothing is covered. */
  lemma UncoveredBeforeBreak(h: string, i: nat, marker: nat -> Option<nat>, p: nat)
    requires MarkerSearch(h, marker) && Apart(marker) && SettledBefore(marker, i)
    requires marker(i).Some? && i <= p < marker(i).value
    ensures !Covered(marker, p)
  {
    forall j: nat
      ensures !(marker(j).Some? && marker(j).value <= p < marker(j).value + |BreakTag|)
    {
    }
  }

  /** No match found before the end of a match at `i` reaches past it. */
  lemma SettledAfterMatch(h: string, i: nat, marker: nat -> Option<nat>)
    requires MarkerSearch(h, marker) && Apart(marker) && SettledBefore(marker, i) && marker(i).Some?
    ensures SettledBefore(marker, marker(i).value + |BreakTag|)
  {
  }

  /** From a point that no match straddles, the replacement deletes exactly
      the indices covered by the `<br>` of a match, provided matches do not
      overlap. */
  lemma {:induction false} PatchByWithout(h: string, i: nat, marker: nat -> Option<nat>, gone: nat -> bool)
    requires i <= |h| && MarkerSearch(h, marker) && Apart(marker) && SettledBefore(marker, i)
    requires forall p :: i <= p < |h| ==> (gone(p) <==> Covered(marker, p))
    ensures PatchBy(h, i, marker) == Without(h, i, gone)
    decreases |h| - i
  {
    if i < |h| {
      match marker(i)
      case None =>
        UnmatchedStep(h, i, marker);
        PatchByWithout(h, i + 1, marker, gone);
      case Some(w) =>
        var e := w + |BreakTag|;
        assert e <= |h|;
        forall p | i <= p < w
          ensures !gone(p)
        {
          UncoveredBeforeBreak(h, i, marker, p);
        }
        forall p | w <= p < e
          ensures gone(p)
        {
          assert marker(i).Some? && marker(i).value <= p < marker(i).value + |BreakTag|;
        }
        SettledAfterMatch(h, i, marker);
        WithoutKeeps(h, i, w, gone);
        WithoutDrops(h, w, e, gone);
        PatchByWithout(h, e, marker, gone);
    }
  }

  /** The patch deletes the `<br>` of every match of
      `/<li><p>(\d+\.\s*)<br>/g` and keeps every other character of the HTML
      in order. */
  lemma PatchListBreaksExact(h: string)
    ensures PatchListBreaks(h) == Without(h, 0, MatchedBreaks(h))
  {
    var marker := Markers(h);
    forall j: nat, k: nat | marker(j).Some? && j < k < marker(j).value + |BreakTag|
      ensures marker(k).None?
    {
      MarkerEndMatches(h, j, marker(j).value);
      if marker(k).Some? {
        MatchesApart(h, j, marker(j).value, k);
      }
    }
    forall p: nat | p < |h|
      ensures MatchedBreaks(h)(p) <==> Covered(marker, p)
    {
      if InMatchedBreak(h, p) {
        var j: nat, w: nat :| MatchesAt(h, j, w) && w <= p < w + |BreakTag|;
        MarkerEndMatches(h, j, w);
        assert marker(j) == Some(w);
      }
      if Covered(marker, p) {
        var j: nat :| marker(j).Some? && marker(j).value <= p < marker(j).value + |BreakTag|;
        MarkerEndMatches(h, j, marker(j).value);
      }
    }
    PatchByWithout(h, 0, marker, MatchedBreaks(h));
  }

  /** The patch never lengthens the HTML (the contract of `PatchBy`); it
      leaves it unchanged when nothing matches... */
  lemma {:induction false} PatchNoMatch(h: string, i: nat, marker: nat -> Option<nat>)
    requires i <= |h| && MarkerSearch(h, marker)
    requires forall j :: i <= j < |h| ==> marker(j).None?
    ensures PatchBy(h, i, marker) == h[i..]
    decreases |h| - i
  {
    if i < |h| {
      PatchNoMatch(h, i + 1, marker);
      assert h[i..] == [h[i]] + h[i + 1..];
    }
  }

  /** ... and shortens it when something does. */
  lemma {:induction false} PatchShrinks(h: string, i: nat, j: nat, marker: nat -> Option<nat>)
    requires i <= j < |h| && MarkerSearch(h, marker) && marker(j).Some?
    ensures |PatchBy(h, i, marker)| < |h| - i
    decreases |h| - i
  {
    if marker(i).None? {
      PatchShrinks(h, i + 1, j, marker);
    }
  }

  /** Without a match the HTML comes back unchanged; with one it comes back
      shorter. */
  lemma PatchIdentityIffNoMatch(h: string, i: nat, marker: nat -> Option<nat>)
    requires i <= |h| && MarkerSearch(h, marker)
    ensures (forall j :: i <= j < |h| ==> marker(j).None?) <==> PatchBy(h, i, marker) == h[i..]
  {
    if forall j :: i <= j < |h| ==> marker(j).None? {
      PatchNoMatch(h, i, marker);
    } else {
      var j :| i <= j < |h| && marker(j).Some?;
      PatchShrinks(h, i, j, marker);
    }
  }

  /** Only the first `<br>` after a marker goes: the patch is not idempotent,
      since its output can hold a new match. */
  lemma PatchOnlyFirstBreak()
    ensures PatchListBreaks("<li><p>1.<br><br>") == "<li><p>1.<br>"
  {
    var a := "<li><p>1.<br><br>";
    PatchAtListItem(a);
    NoMatchFrom(a, 13);
    PatchNoMatch(a, 13, Markers(a));
    assert a[..9] + a[13..] == "<li><p>1.<br>";
  }

  lemma PatchOneItem()
    ensures PatchListBreaks("<li><p>1.<br>") == "<li><p>1."
  {
    var b := "<li><p>1.<br>";
    PatchAtListItem(b);
  }

  /** A marker outside a list item is left alone... */
  lemma PatchNeedsListItem()
    ensures PatchListBreaks("<p>1.<br>") == "<p>1.<br>"
  {
    var c := "<p>1.<br>";
    NoMatchFrom(c, 0);
    PatchNoMatch(c, 0, Markers(c));
  }

  /** ... and so is one without the dot. */
  lemma PatchNeedsDot()
    ensures PatchListBreaks("<li><p>1<br>") == "<li><p>1<br>"
  {
    var d := "<li><p>1<br>";
    assert DigitsEnd(d, 8) == 8;
    assert DigitsEnd(d, 7) == 8;
    assert MarkerEnd(d, 0) == None;
    NoMatchFrom(d, 1);
    PatchNoMatch(d, 0, Markers(d));
  }

  lemma ListItemPrefix(h: string)
    requires |h| >= 13 && h[..13] == "<li><p>1.<br>"
    ensures OccursAt(h, ItemStart, 0) && OccursAt(h, BreakTag, 9)
    ensures h[7] == '1' && h[8] == '.' && h[9] == '<'
  {
    assert h[..7] == h[..13][..7];
    assert h[9..13] == h[..13][9..13];
  }

  /** `<li><p>1.<br>` at the start of the HTML is a match... */
  lemma MarkerAtListItem(h: string)
    requires |h| >= 13 && h[..13] == "<li><p>1.<br>"
    ensures MarkerEnd(h, 0) == Some(9)
  {
    ListItemPrefix(h);
    assert DigitsEnd(h, 8) == 8;
    assert DigitsEnd(h, 7) == 8;
    assert SpacesEnd(h, 9) == 9;
  }

  /** ... whose `<br>` the patch drops. */
  lemma PatchAtListItem(h: string)
    requires |h| >= 13 && h[..13] == "<li><p>1.<br>"
    ensures PatchListBreaks(h) == h[..9] + PatchBy(h, 13, Markers(h))
  {
    MarkerAtListItem(h);
    assert Markers(h)(0) == Some(9);
    assert h[0..9] == h[..9];
  }

  /** A match needs "<li><p>" and then at least five more characters, so
      none starts in the last eleven characters of the HTML. */
  lemma NoMatchFrom(h: string, i: nat)
    requires |h| < i + |ItemStart| + 6 || forall j :: i <= j < |h| ==> !OccursAt(h, ItemStart, j)
    ensures forall j :: i <= j < |h| ==> MarkerEnd(h, j).None?
  {
  }

  // ---------------------------------------------------------------------
  // The whole conversion

  /** The fragment returned instead of throwing; the message is inserted as
      it is, without escaping. */
  function ErrorFragment(message: string): string
  {
    "<div class=\"error\">Error parsing markdown: " + message + "</div>"
  }

  /** The three passes in plugin order. */
  function RewriteTree(tree: Node, basePath: string, encode: string -> string): Node
  {
    var lines := LineBreaks.PreserveLineBreaksTree(tree);
    var lists := OrderedLists.FixOrderedListsTree(lines);
    ObsidianImages.RewriteTree(lists, ObsidianImages.EmbedRewrite(basePath, encode))
  }

  function ParseObsidianMarkdown(content: string, basePath: string, encode: string -> string,
                                 parse: string -> Result<Node>, toHtml: Node -> Result<string>): (html: string)
  {
    match parse(content)
    case Failure(e) => ErrorFragment(e)
    case Success(tree) =>
      match toHtml(RewriteTree(tree, basePath, encode))
      case Failure(e) => ErrorFragment(e)
      case Success(h) => PatchListBreaks(h)
  }

  /** The conversion never fails: a failure of the parser or the converter
      becomes the error fragment with its message, and a success is the
      patched HTML of the rewritten tree. */
  lemma ParseOutcome(content: string, basePath: string, encode: string -> string,
                     parse: string -> Result<Node>, toHtml: Node -> Result<string>)
    ensures parse(content).Failure? ==>
              ParseObsidianMarkdown(content, basePath, encode, parse, toHtml) == ErrorFragment(parse(content).error)
    ensures parse(content).Success? ==>
              var rendered := toHtml(RewriteTree(parse(content).value, basePath, encode));
              && (rendered.Failure? ==>
                    ParseObsidianMarkdown(content, basePath, encode, parse, toHtml) == ErrorFragment(rendered.error))
              && (rendered.Success? ==>
                    var html := ParseObsidianMarkdown(content, basePath, encode, parse, toHtml);
                    html == PatchListBreaks(rendered.value) && html == Without(rendered.value, 0, MatchedBreaks(rendered.value)))
  {
    if parse(content).Success? {
      var rendered := toHtml(RewriteTree(parse(content).value, basePath, encode));
      if rendered.Success? {
        PatchListBreaksExact(rendered.value);
      }
    }
  }
}
