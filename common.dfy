/**
 * Small value-level helpers shared by the note-quiz model: the clef names,
 * an optional value (Python's `None`), duplicate-free sequences, ordered
 * subsequences and the effect of Python's `list.index` and `list.remove`.
 */
module Common {

  /** The two clefs of the quiz, as both components spell them. */
  const GClef: string := "g_clef"
  const FClef: string := "f_clef"

  /** A value that may be absent, as Python's `None`. */
  datatype Option<+T> = None | Some(value: T)

  /** No element occurs twice. */
  ghost predicate Distinct<T>(s: seq<T>) {
    forall i, j :: 0 <= i < j < |s| ==> s[i] != s[j]
  }

  /** A duplicate-free sequence holds each element at most once. */
  lemma {:induction false} DistinctMultiplicity<T>(s: seq<T>, x: T)
    requires Distinct(s)
    ensures multiset(s)[x] <= 1
  {
    if s != [] {
      assert s == [s[0]] + s[1..];
      assert Distinct(s[1..]);
      DistinctMultiplicity(s[1..], x);
      assert s[0] !in s[1..];
    }
  }

  /** A reordering of a duplicate-free sequence is duplicate-free. */
  lemma DistinctPermutation<T>(a: seq<T>, b: seq<T>)
    requires multiset(a) == multiset(b) && Distinct(b)
    ensures Distinct(a)
  {
    forall p, q | 0 <= p < q < |a| ensures a[p] != a[q] {
      DistinctMultiplicity(b, a[p]);
      assert a == a[..q] + [a[q]] + a[q + 1..];
      assert a[p] in a[..q];
    }
  }

  /** Sequences with the same multiset have the same length and members. */
  lemma SameMultisetMembers<T>(a: seq<T>, b: seq<T>)
    requires multiset(a) == multiset(b)
    ensures |a| == |b|
    ensures forall x :: x in a <==> x in b
  {
    assert |a| == |multiset(a)| && |b| == |multiset(b)|;
    forall x ensures x in a <==> x in b {
      assert x in a <==> x in multiset(a);
      assert x in b <==> x in multiset(b);
    }
  }

  /** `a` is obtained from `b` by deleting elements, keeping the order of the rest. */
  ghost predicate Embeds<T>(a: seq<T>, b: seq<T>)
    decreases |b|
  {
    if a == [] then true
    else if b == [] then false
    else (a[0] == b[0] && Embeds(a[1..], b[1..])) || Embeds(a, b[1..])
  }

  /** Every element of an ordered subsequence occurs in the larger sequence. */
  lemma {:induction false} EmbedsMembers<T>(a: seq<T>, b: seq<T>)
    requires Embeds(a, b)
    ensures forall x :: x in a ==> x in b
    decreases |b|
  {
    if a != [] {
      if a[0] == b[0] && Embeds(a[1..], b[1..]) {
        EmbedsMembers(a[1..], b[1..]);
        forall x | x in a ensures x in b {
          if x != a[0] {
            assert x in a[1..];
          }
        }
      } else {
        EmbedsMembers(a, b[1..]);
      }
    }
  }

  /** An ordered subsequence is never longer than the sequence it is taken from. */
  lemma {:induction false} EmbedsLength<T>(a: seq<T>, b: seq<T>)
    requires Embeds(a, b)
    ensures |a| <= |b|
    decreases |b|
  {
    if a != [] {
      if a[0] == b[0] && Embeds(a[1..], b[1..]) {
        EmbedsLength(a[1..], b[1..]);
      } else {
        EmbedsLength(a, b[1..]);
      }
    }
  }

  /** A sequence holding three different elements has at least three positions. */
  lemma ThreeMembers<T>(s: seq<T>, x: T, y: T, z: T)
    requires x in s && y in s && z in s
    requires x != y && x != z && y != z
    ensures |s| >= 3
  {
    var i, j, k := IndexOf(s, x), IndexOf(s, y), IndexOf(s, z);
    assert i != j && i != k && j != k;
  }

  /** Position of the first occurrence of `x` in `s`. */
  function IndexOf<T(==)>(s: seq<T>, x: T): (i: nat)
    requires x in s
    ensures i < |s| && s[i] == x && x !in s[..i]
  {
    if s[0] == x then 0
    else
      var j := IndexOf(s[1..], x);
      assert s[..j + 1] == [s[0]] + s[1..][..j];
      j + 1
  }

  /** A position holding `x` with no `x` before it is the position `list.index` finds. */
  lemma IndexOfFirst<T>(s: seq<T>, x: T, i: nat)
    requires i < |s| && s[i] == x
    requires forall j :: 0 <= j < i ==> s[j] != x
    ensures x in s && IndexOf(s, x) == i
  {
    var p := IndexOf(s, x);
    assert p <= i;
  }

  /**
   * Python's `list.remove(x)`: the first occurrence of `x` is taken out and
   * everything else keeps its order; a list without `x` is returned as it is
   * (the caller decides what an absent element means).
   */
  function RemoveFirst<T(==)>(s: seq<T>, x: T): (r: seq<T>)
    ensures x !in s ==> r == s
    ensures x in s ==> |r| == |s| - 1 && r == s[..IndexOf(s, x)] + s[IndexOf(s, x) + 1..]
    ensures multiset(r) == multiset(s) - multiset{x}
  {
    if x in s then
      var i := IndexOf(s, x);
      assert s == s[..i] + [s[i]] + s[i + 1..];
      s[..i] + s[i + 1..]
    else
      s
  }
}
