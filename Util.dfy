/** Small helpers shared by the modules of this model: optional values,
    results with an error message, and the JavaScript string predicates the
    source relies on (`trim`, `includes`, `\s` and `\d` in regular expressions). */
module Util {

  datatype Option<+T> = None | Some(value: T)

  datatype Result<+T> = Success(value: T) | Failure(error: string)

  /** The characters JavaScript's `String.prototype.trim` removes and its
      regular expressions match with `\s`: white space and line terminators. */
  predicate IsJsWhitespace(c: char)
  {
    c == '\t' || c == '\n' || c == '\U{000B}' || c == '\U{000C}' || c == '\r' || c == ' '
    || c == '\U{00A0}' || c == '\U{1680}' || ('\U{2000}' <= c <= '\U{200A}')
    || c == '\U{2028}' || c == '\U{2029}' || c == '\U{202F}' || c == '\U{205F}'
    || c == '\U{3000}' || c == '\U{FEFF}'
  }

  /** `s.trim()` is the empty string, i.e. `s.trim()` is falsy. */
  predicate IsBlank(s: string)
  {
    forall i :: 0 <= i < |s| ==> IsJsWhitespace(s[i])
  }

  /** What `\d` matches in a JavaScript regular expression. */
  predicate IsAsciiDigit(c: char)
  {
    '0' <= c <= '9'
  }

  /** `t` occurs in `s` starting at index `i`. */
  predicate OccursAt(s: string, t: string, i: int)
  {
    0 <= i && i + |t| <= |s| && s[i..i + |t|] == t
  }

  /** `s.includes(t)`. */
  predicate Contains(s: string, t: string)
  {
    exists i :: 0 <= i <= |s| - |t| && OccursAt(s, t, i)
  }

  /** `toLowerCase` restricted to the ASCII letters. */
  function LowerChar(c: char): char
  {
    if 'A' <= c <= 'Z' then (c as int + 32) as char else c
  }

  function LowerAscii(s: string): (r: string)
    ensures |r| == |s|
    ensures forall i :: 0 <= i < |s| ==> r[i] == LowerChar(s[i])
  {
    seq(|s|, i requires 0 <= i < |s| => LowerChar(s[i]))
  }

  /** A string without upper-case ASCII letters is its own lower case. */
  lemma LowerAsciiIdentity(s: string)
    requires forall i :: 0 <= i < |s| ==> !('A' <= s[i] <= 'Z')
    ensures LowerAscii(s) == s
  {
  }

  /** The strings of `parts` joined end to end. */
  function Concat<T>(parts: seq<seq<T>>): seq<T>
  {
    if parts == [] then [] else parts[0] + Concat(parts[1..])
  }

  lemma {:induction false} ConcatAppend<T>(a: seq<seq<T>>, b: seq<seq<T>>)
    ensures Concat(a + b) == Concat(a) + Concat(b)
  {
    if a == [] {
      assert a + b == b;
    } else {
      assert (a + b)[0] == a[0];
      assert (a + b)[1..] == a[1..] + b;
      ConcatAppend(a[1..], b);
    }
  }

  /** Every element of a concatenation comes from one of its parts. */
  lemma {:induction false} ConcatMember<T>(parts: seq<seq<T>>, x: T)
    requires x in Concat(parts)
    ensures exists i :: 0 <= i < |parts| && x in parts[i]
  {
    if x !in parts[0] {
      ConcatMember(parts[1..], x);
      var i :| 0 <= i < |parts[1..]| && x in parts[1..][i];
      assert x in parts[i + 1];
    }
  }

  /** Concatenating one-element parts gives back their elements. */
  lemma {:induction false} ConcatSingletons<T>(xs: seq<T>, parts: seq<seq<T>>)
    requires |parts| == |xs| && forall i :: 0 <= i < |xs| ==> parts[i] == [xs[i]]
    ensures Concat(parts) == xs
  {
    if xs != [] {
      ConcatSingletons(xs[1..], parts[1..]);
    }
  }

  /** Splicing `ys` in for the element at index `|a|` of `a + [x] + b`, and
      overwriting that element with `y`. */
  lemma SpliceAt<T>(r: seq<T>, i: nat, a: seq<T>, x: T, b: seq<T>, ys: seq<T>, y: T)
    requires r == a + [x] + b && i == |a|
    ensures i < |r| && r[i] == x
    ensures r[..i] + ys + r[i + 1..] == a + ys + b
    ensures r[i := y] == a + [y] + b
  {
    assert r[..i] == a && r[i + 1..] == b;
  }
}
