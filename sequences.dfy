/**
 * Facts about sequences that the proofs of the other modules call on:
 * how prefixes, slices and concatenations of short sequences line up.
 * Each is one step the solver takes more cheaply as a lemma call than by
 * unfolding the sequences it is about.
 */
module Sequences {

  // ---------------------------------------------------------------------------
  // Prefixes and slices

  lemma TakeOneMore<X>(s: seq<X>, k: nat)
    requires k < |s|
    ensures s[..k + 1] == s[..k] + [s[k]]
  {
  }

  lemma TakeAll<X>(s: seq<X>)
    ensures s[..|s|] == s
  {
  }

  lemma LastSplit<X>(s: seq<X>)
    requires s != []
    ensures s == s[..|s| - 1] + [s[|s| - 1]]
  {
    TakeOneMore(s, |s| - 1);
    TakeAll(s);
  }

  lemma TakeAppended<X>(s: seq<X>, x: X)
    ensures (s + [x])[..|s|] == s
  {
  }

  /** Moving a cursor one step along a sequence. */
  lemma TakeNext<X>(s: seq<X>, j: nat)
    requires j < |s|
    ensures s[..j + 1] == s[..j] + [s[j]]
    ensures j + 1 < |s| ==> s[j + 1..][1..] == s[j + 2..] && s[j + 1..][0] == s[j + 1]
  {
  }

  /** A suffix is its first element followed by the rest. */
  lemma ConsDrop<X>(s: seq<X>, j: nat)
    requires j < |s|
    ensures [s[j]] + s[j + 1..] == s[j..]
    ensures s[0..] == s
  {
  }

  lemma SliceSplit<X>(s: seq<X>, i: nat, j: nat)
    requires i <= j <= |s|
    ensures s[i..] == s[i..j] + s[j..]
  {
  }

  lemma SliceCons<X>(s: seq<X>, i: nat)
    requires i < |s|
    ensures s[i..] == [s[i]] + s[i + 1..]
  {
  }

  // ---------------------------------------------------------------------------
  // Slices of known elements

  lemma SixElements<X>(s: seq<X>)
    requires |s| == 6
    ensures s == [s[0], s[1], s[2], s[3], s[4], s[5]]
  {
  }

  /** A slice of three known elements. */
  lemma SliceOfThree<X>(s: seq<X>, i: nat, a: X, b: X, c: X)
    requires i + 3 <= |s| && s[i] == a && s[i + 1] == b && s[i + 2] == c
    ensures s[i..i + 3] == [a, b, c]
  {
  }

  /** A slice of four known elements. */
  lemma SliceOfFour<X>(s: seq<X>, i: nat, a: X, b: X, c: X, d: X)
    requires i + 4 <= |s| && s[i] == a && s[i + 1] == b && s[i + 2] == c && s[i + 3] == d
    ensures s[i..i + 4] == [a, b, c, d]
  {
  }

  /** A slice of six known elements. */
  lemma SliceOfSix<X>(s: seq<X>, i: nat, a: X, b: X, c: X, d: X, e: X, f: X)
    requires i + 6 <= |s| && s[i] == a && s[i + 1] == b && s[i + 2] == c
    requires s[i + 3] == d && s[i + 4] == e && s[i + 5] == f
    ensures s[i..i + 6] == [a, b, c, d, e, f]
  {
  }

  // ---------------------------------------------------------------------------
  // Concatenation

  lemma AppendSnoc<X>(s: seq<X>, t: seq<X>, x: X)
    ensures s + (t + [x]) == (s + t) + [x]
  {
  }

  lemma AppendPair<X>(s: seq<X>, p: X, q: X)
    ensures s + [p] + [q] == s + [p, q]
  {
  }

  lemma AppendToEmpty<X>(a: X)
    ensures [] + [a] == [a]
  {
  }

  lemma PairToEmpty<X>(a: X, b: X)
    ensures [] + [a, b] == [a, b]
  {
  }

  lemma AppendToOne<X>(a: X, b: X)
    ensures [a] + [b] == [a, b]
  {
  }

  lemma AppendToTwo<X>(a: X, b: X, c: X)
    ensures [a, b] + [c] == [a, b, c]
  {
  }

  lemma Concat1And4<X>(a: X, b: X, c: X, d: X, e: X)
    ensures [a] + [b, c, d, e] == [a, b, c, d, e]
  {
  }

  lemma Concat3And2<X>(a: X, b: X, c: X, d: X, e: X)
    ensures [a, b, c] + [d, e] == [a, b, c, d, e]
  {
  }

  lemma Concat3And3<X>(a: X, b: X, c: X, d: X, e: X, f: X)
    ensures [a, b, c] + [d, e, f] == [a, b, c, d, e, f]
  {
  }

  lemma Concat4And2<X>(a: X, b: X, c: X, d: X, e: X, f: X)
    ensures [a, b, c, d] + [e, f] == [a, b, c, d, e, f]
  {
  }

  lemma Concat5And1<X>(a: X, b: X, c: X, d: X, e: X, f: X)
    ensures [a, b, c, d, e] + [f] == [a, b, c, d, e, f]
  {
  }

  lemma Concat6And6<X>(a: X, b: X, c: X, d: X, e: X, f: X, g: X, h: X, i: X, j: X, k: X, l: X)
    ensures [a, b, c, d, e, f] + [g, h, i, j, k, l] == [a, b, c, d, e, f, g, h, i, j, k, l]
  {
  }

  lemma Concat3And3Then<X>(a: X, b: X, c: X, d: X, e: X, f: X, t: seq<X>)
    ensures [a, b, c] + ([d, e, f] + t) == [a, b, c, d, e, f] + t
  {
  }

  lemma ConsThree<X>(a: X, b: X, c: X, t: seq<X>)
    ensures [a] + ([b] + ([c] + t)) == [a, b, c] + t
  {
  }

  lemma ConsFour<X>(a: X, b: X, c: X, d: X, t: seq<X>)
    ensures [a] + ([b] + ([c] + ([d] + t))) == [a, b, c, d] + t
  {
  }

  lemma ConsTwoEnd<X>(a: X, b: X)
    ensures [a] + ([b] + []) == [a, b]
  {
  }

  lemma ConsThreeEnd<X>(a: X, b: X, c: X)
    ensures [a] + ([b] + ([c] + [])) == [a, b, c]
  {
  }

  lemma ConsFourEnd<X>(a: X, b: X, c: X, d: X)
    ensures [a] + ([b] + ([c] + ([d] + []))) == [a, b, c, d]
  {
  }
}
