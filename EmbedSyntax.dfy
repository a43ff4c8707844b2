/** The Obsidian embed syntax as `remarkObsidianImages` recognises it, with
    the regular expression `!\[\[(.*?)\]\]` spelled out: the search is
    leftmost, the lazy group stops at the first `]]`, and JavaScript's `.`
    does not match a line terminator. Then `String.prototype.split` with the
    capturing pattern `(!\[\[.*?\]\])`, and `part.match` on each piece. */
module EmbedSyntax {
  import opened Util

  /** The characters JavaScript's `.` does not match. */
  predicate IsLineTerminator(c: char)
  {
    c == '\n' || c == '\r' || c == '\U{2028}' || c == '\U{2029}'
  }

  predicate IsCloseAt(s: string, j: int)
  {
    0 <= j && j + 1 < |s| && s[j] == ']' && s[j + 1] == ']'
  }

  /** The lazy group `(.*?)` can take the character at `x` and go on: it is
      not a line terminator and no `]]` starts there. */
  predicate Capturable(s: string, x: int)
  {
    0 <= x < |s| && !IsLineTerminator(s[x]) && !IsCloseAt(s, x)
  }

  /** With the lazy group starting at `j`, the index of the `]]` that ends the
      embed: the first one, provided no line terminator comes before it. */
  function CloseFrom(s: string, j: nat): (r: Option<nat>)
    ensures r.Some? ==> j <= r.value && IsCloseAt(s, r.value)
    decreases |s| - j
  {
    if IsCloseAt(s, j) then Some(j)
    else if j < |s| && !IsLineTerminator(s[j]) then CloseFrom(s, j + 1)
    else None
  }

  /** `![[` starts at index `p`. */
  predicate OpensAt(s: string, p: int)
  {
    0 <= p && p + 3 <= |s| && s[p] == '!' && s[p + 1] == '[' && s[p + 2] == '['
  }

  /** The `]]` index of an embed that starts exactly at index `p`. */
  function EmbedAt(s: string, p: nat): (r: Option<nat>)
    ensures r.Some? ==> p + 3 <= r.value && r.value + 2 <= |s| && OpensAt(s, p)
  {
    if OpensAt(s, p) then CloseFrom(s, p + 3) else None
  }

  datatype Hit = Hit(start: nat, close: nat)

  /** The leftmost embed that starts at or after `p`. */
  function FindEmbed(s: string, p: nat): (r: Option<Hit>)
    ensures r.Some? ==> p <= r.value.start && EmbedAt(s, r.value.start) == Some(r.value.close)
    decreases |s| - p
  {
    if p >= |s| then None
    else match EmbedAt(s, p)
      case Some(j) => Some(Hit(p, j))
      case None => FindEmbed(s, p + 1)
  }

  /** The group stops at the first `]]` and never crosses a line terminator. */
  lemma {:induction false} CloseFromSpans(s: string, j: nat)
    ensures CloseFrom(s, j).Some? ==> forall x :: j <= x < CloseFrom(s, j).value ==> Capturable(s, x)
    decreases |s| - j
  {
    if !IsCloseAt(s, j) && j < |s| && !IsLineTerminator(s[j]) {
      CloseFromSpans(s, j + 1);
    }
  }

  /** The search is leftmost: no embed starts before the one it finds, and
      none at all when it finds nothing. */
  lemma {:induction false} FindEmbedLeftmost(s: string, p: nat)
    ensures FindEmbed(s, p).Some? ==> forall x :: p <= x < FindEmbed(s, p).value.start ==> EmbedAt(s, x).None?
    ensures FindEmbed(s, p).None? ==> forall x :: p <= x ==> EmbedAt(s, x).None?
    decreases |s| - p
  {
    if p < |s| && EmbedAt(s, p).None? {
      FindEmbedLeftmost(s, p + 1);
    }
  }

  /** `/!\[\[.*?\]\]/.test(s)`. */
  predicate HasEmbed(s: string)
  {
    FindEmbed(s, 0).Some?
  }

  /** A leftmost search over a string of length `n`: from position `x` it
      gives the next match, which starts at or after `x` and whose closing
      `]]` ends within the string. */
  ghost predicate Searches(find: nat -> Option<Hit>, n: nat)
  {
    forall x: nat :: find(x).Some? ==> x <= find(x).value.start <= find(x).value.close && find(x).value.close + 2 <= n
  }

  /** The boundaries of the pieces that `split` with a capturing pattern cuts
      a string of length `n` into, from position `p` on: `p`, then the start
      and the end of each match in turn, then `n`. */
  function CutsBy(find: nat -> Option<Hit>, n: nat, p: nat): (c: seq<nat>)
    requires p <= n && Searches(find, n)
    ensures 2 <= |c| && |c| % 2 == 0 && c[0] == p && c[|c| - 1] == n
    decreases n - p
  {
    match find(p)
    case None => [p, n]
    case Some(Hit(q, j)) => [p, q] + CutsBy(find, n, j + 2)
  }

  /** Boundaries in ascending order, within a string of length `n`. */
  predicate Ascending(n: nat, c: seq<nat>)
  {
    forall k, l :: 0 <= k <= l < |c| ==> c[k] <= c[l] <= n
  }

  lemma {:induction false} CutsAscending(find: nat -> Option<Hit>, n: nat, p: nat)
    requires p <= n && Searches(find, n)
    ensures Ascending(n, CutsBy(find, n, p))
    ensures forall k :: 0 <= k < |CutsBy(find, n, p)| ==> p <= CutsBy(find, n, p)[k]
    decreases n - p
  {
    var c := CutsBy(find, n, p);
    if find(p).Some? {
      var q, j := find(p).value.start, find(p).value.close;
      var rest := CutsBy(find, n, j + 2);
      assert c == [p, q] + rest;
      CutsAscending(find, n, j + 2);
      assert p <= q <= j + 2;
      forall k | 2 <= k < |c| ensures c[k] == rest[k - 2] && j + 2 <= c[k] <= n {
      }
      forall k, l | 0 <= k <= l < |c| ensures c[k] <= c[l] {
        if k >= 2 {
          assert rest[k - 2] <= rest[l - 2];
        }
      }
    }
  }

  /** Between boundaries `2m` and `2m + 1` lies a stretch in which the search
      finds no match... */
  lemma {:induction false} CutsGap(find: nat -> Option<Hit>, n: nat, p: nat, m: nat)
    requires p <= n && Searches(find, n) && 2 * m + 1 < |CutsBy(find, n, p)|
    ensures var c := CutsBy(find, n, p);
            find(c[2 * m]).None? || c[2 * m + 1] <= find(c[2 * m]).value.start
    decreases n - p
  {
    if find(p).Some? && m > 0 {
      var q, j := find(p).value.start, find(p).value.close;
      var c, rest := CutsBy(find, n, p), CutsBy(find, n, j + 2);
      assert c == [p, q] + rest;
      assert c[2 * m] == rest[2 * (m - 1)] && c[2 * m + 1] == rest[2 * (m - 1) + 1];
      CutsGap(find, n, j + 2, m - 1);
    }
  }

  /** ... and between boundaries `2m + 1` and `2m + 2` the match it finds. */
  lemma {:induction false} CutsMatch(find: nat -> Option<Hit>, n: nat, p: nat, m: nat)
    requires p <= n && Searches(find, n) && 2 * m + 2 < |CutsBy(find, n, p)|
    ensures var c := CutsBy(find, n, p);
            2 <= c[2 * m + 2] && find(c[2 * m]) == Some(Hit(c[2 * m + 1], c[2 * m + 2] - 2))
    decreases n - p
  {
    var q, j := find(p).value.start, find(p).value.close;
    var c, rest := CutsBy(find, n, p), CutsBy(find, n, j + 2);
    assert c == [p, q] + rest;
    if m > 0 {
      assert c[2 * m] == rest[2 * (m - 1)] && c[2 * m + 1] == rest[2 * (m - 1) + 1];
      assert c[2 * m + 2] == rest[2 * (m - 1) + 2];
      CutsMatch(find, n, j + 2, m - 1);
    }
  }

  /** The stretches of `s` between consecutive boundaries. */
  function Pieces(s: string, c: seq<nat>): (parts: seq<string>)
    requires 1 <= |c| && Ascending(|s|, c)
    ensures |parts| == |c| - 1
  {
    seq(|c| - 1, k requires 0 <= k < |c| - 1 => s[c[k]..c[k + 1]])
  }

  /** The search for embeds in `s`, as `split` runs it. */
  function EmbedSearch(s: string): (find: nat -> Option<Hit>)
    ensures Searches(find, |s|)
  {
    (x: nat) => FindEmbed(s, x)
  }

  function Cuts(s: string): (c: seq<nat>)
    ensures Ascending(|s|, c) && 2 <= |c| && c[0] == 0 && c[|c| - 1] == |s|
  {
    CutsAscending(EmbedSearch(s), |s|, 0);
    CutsBy(EmbedSearch(s), |s|, 0)
  }

  /** `s.split(/(!\[\[.*?\]\])/)`: literal text and whole embeds, alternating,
      starting and ending with (possibly empty) literal text. */
  function Split(s: string): (parts: seq<string>)
    ensures |parts| % 2 == 1
  {
    Pieces(s, Cuts(s))
  }

  /** `part.match(/!\[\[(.*?)\]\]/)`: the captured name of the first embed. */
  function MatchName(part: string): Option<string>
  {
    match FindEmbed(part, 0)
    case None => None
    case Some(Hit(q, j)) => Some(part[q + 3..j])
  }

  // ---------------------------------------------------------------------
  // Splitting loses nothing

  lemma {:induction false} PiecesRoundTrip(s: string, c: seq<nat>)
    requires 1 <= |c| && Ascending(|s|, c)
    ensures Concat(Pieces(s, c)) == s[c[0]..c[|c| - 1]]
    decreases |c|
  {
    if |c| == 1 {
      assert Pieces(s, c) == [];
    } else {
      var tail := c[1..];
      PiecesRoundTrip(s, tail);
      assert Pieces(s, c)[1..] == Pieces(s, tail);
      assert s[c[0]..c[|c| - 1]] == s[c[0]..c[1]] + s[c[1]..c[|c| - 1]];
    }
  }

  /** Joining the pieces of the split gives back the text node's value. */
  lemma SplitRoundTrip(s: string)
    ensures Concat(Split(s)) == s
  {
    var c := Cuts(s);
    PiecesRoundTrip(s, c);
    assert s[c[0]..c[|c| - 1]] == s;
  }

  // ---------------------------------------------------------------------
  // The regex sees the same thing in a slice as in the whole string

  lemma {:induction false} CloseFromSlice(s: string, a: nat, b: nat, j: nat)
    requires a <= b <= |s|
    ensures CloseFrom(s[a..b], j).Some? ==> CloseFrom(s, a + j) == Some(a + CloseFrom(s[a..b], j).value)
    ensures CloseFrom(s, a + j).Some? && CloseFrom(s, a + j).value + 2 <= b ==>
              CloseFrom(s[a..b], j) == Some(CloseFrom(s, a + j).value - a)
    decreases b - a - j
  {
    var t := s[a..b];
    if j + 1 < |t| {
      assert t[j] == s[a + j] && t[j + 1] == s[a + j + 1];
      if !IsCloseAt(t, j) && !IsLineTerminator(t[j]) {
        CloseFromSlice(s, a, b, j + 1);
      }
    } else if j < |t| {
      if !IsLineTerminator(t[j]) {
        assert CloseFrom(t, j + 1) == None;
      }
    }
  }

  /** An embed found in a slice is an embed of the whole string. */
  lemma EmbedInSlice(s: string, p: nat, q: nat)
    requires p <= q <= |s| && FindEmbed(s[p..q], 0).Some?
    ensures var h := FindEmbed(s[p..q], 0).value;
            p + h.start < q && EmbedAt(s, p + h.start) == Some(p + h.close)
  {
    var t := s[p..q];
    var x, k := FindEmbed(t, 0).value.start, FindEmbed(t, 0).value.close;
    assert OpensAt(t, x) && CloseFrom(t, x + 3) == Some(k);
    CloseFromSlice(s, p, q, x + 3);
    assert t[x] == s[p + x] && t[x + 1] == s[p + x + 1] && t[x + 2] == s[p + x + 2];
  }

  /** A literal piece of the split holds no embed. */
  lemma NoEmbedInGap(s: string, p: nat, q: nat)
    requires p <= q <= |s|
    requires forall x :: p <= x < q ==> EmbedAt(s, x).None?
    ensures MatchName(s[p..q]) == None
  {
    if FindEmbed(s[p..q], 0).Some? {
      EmbedInSlice(s, p, q);
      assert false;
    }
  }

  /** An embed piece of the split is `![[name]]`, and matching it again
      captures the same name. */
  lemma EmbedPiece(s: string, q: nat, j: nat)
    requires EmbedAt(s, q) == Some(j)
    ensures MatchName(s[q..j + 2]) == Some(s[q + 3..j])
    ensures s[q..j + 2] == "![[" + s[q + 3..j] + "]]"
  {
    var m, name := s[q..j + 2], s[q + 3..j];
    assert OpensAt(s, q) && IsCloseAt(s, j);
    CloseFromSlice(s, q, j + 2, 3);
    assert m[0] == s[q] && m[1] == s[q + 1] && m[2] == s[q + 2];
    assert EmbedAt(m, 0) == Some(j - q);
    forall i | 0 <= i < |name| ensures m[3..j - q][i] == name[i] {
      assert m[3 + i] == s[q + 3 + i];
    }
    assert m[3..j - q] == name;
    var w := "![[" + name + "]]";
    assert |w| == |m|;
    forall i | 0 <= i < |m| ensures m[i] == w[i] {
      if i < 3 {
      } else if i < j - q {
        assert w[i] == name[i - 3];
      } else {
        assert m[i] == s[q + i];
      }
    }
  }

  /** What the loop of `remarkObsidianImages` finds in piece `i` of a split:
      at an even index, literal text without any embed; at an odd index, a
      single embed whose captured name holds no line terminator and no `]]`. */
  predicate PieceShape(part: string, embed: bool)
  {
    if !embed then MatchName(part) == None
    else MatchName(part).Some? && part == "![[" + MatchName(part).value + "]]" && EmbedName(MatchName(part).value)
  }

  /** A stretch before the next embed holds no embed of its own. */
  lemma NoEmbedBefore(s: string, a: nat, b: nat)
    requires a <= b <= |s|
    requires FindEmbed(s, a).None? || b <= FindEmbed(s, a).value.start
    ensures MatchName(s[a..b]) == None
  {
    FindEmbedLeftmost(s, a);
    NoEmbedInGap(s, a, b);
  }

  lemma EmbedPieceShape(s: string, q: nat, j: nat)
    requires EmbedAt(s, q) == Some(j)
    ensures PieceShape(s[q..j + 2], true)
  {
    EmbedPiece(s, q, j);
    EmbedPieceName(s, q, j);
  }

  /** What the lazy group can capture. */
  predicate EmbedName(name: string)
  {
    forall x :: 0 <= x < |name| ==> Capturable(name, x)
  }

  lemma EmbedPieceName(s: string, q: nat, j: nat)
    requires EmbedAt(s, q) == Some(j)
    ensures EmbedName(s[q + 3..j])
  {
    var name := s[q + 3..j];
    CloseFromSpans(s, q + 3);
    forall x | 0 <= x < |name| ensures Capturable(name, x) {
      assert Capturable(s, q + 3 + x);
      assert name[x] == s[q + 3 + x];
      if x + 1 < |name| {
        assert name[x + 1] == s[q + 3 + x + 1];
      }
    }
  }

  lemma SplitPieces(s: string, i: nat)
    requires i < |Split(s)|
    ensures PieceShape(Split(s)[i], i % 2 == 1)
  {
    if i % 2 == 0 {
      GapPiece(s, i / 2);
    } else {
      EmbedPieceOf(s, i / 2);
    }
  }

  lemma GapPiece(s: string, m: nat)
    requires 2 * m < |Split(s)|
    ensures PieceShape(Split(s)[2 * m], false)
  {
    var c := Cuts(s);
    CutsGap(EmbedSearch(s), |s|, 0, m);
    assert Split(s)[2 * m] == s[c[2 * m]..c[2 * m + 1]];
    NoEmbedBefore(s, c[2 * m], c[2 * m + 1]);
  }

  lemma EmbedPieceOf(s: string, m: nat)
    requires 2 * m + 1 < |Split(s)|
    ensures PieceShape(Split(s)[2 * m + 1], true)
  {
    var c := Cuts(s);
    CutsMatch(EmbedSearch(s), |s|, 0, m);
    assert Split(s)[2 * m + 1] == s[c[2 * m + 1]..c[2 * m + 2]];
    EmbedPieceShape(s, c[2 * m + 1], c[2 * m + 2] - 2);
  }

  /** A value with an embed splits into at least three pieces, so the
      `parts.length === 1` guard after the `test` never fires; a value
      without one is a single piece. */
  lemma SplitCount(s: string)
    ensures HasEmbed(s) ==> |Split(s)| >= 3
    ensures !HasEmbed(s) ==> Split(s) == [s]
  {
    var find := EmbedSearch(s);
    assert |Split(s)| == |Cuts(s)| - 1;
    if !HasEmbed(s) {
      assert Cuts(s) == [0, |s|];
      assert |Split(s)| == 1 && Split(s)[0] == s[0..|s|];
      assert s[0..|s|] == s;
    } else {
      var j := FindEmbed(s, 0).value.close;
      assert |Cuts(s)| == 2 + |CutsBy(find, |s|, j + 2)|;
    }
  }

  /** `MatchName` on a whole value finds an embed exactly when `test` does. */
  lemma MatchNameIffHasEmbed(s: string)
    ensures MatchName(s).Some? <==> HasEmbed(s)
  {
  }
}
