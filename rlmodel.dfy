/**
 * The value model of the note quiz (zad5/zgaduj_zgadula/rlmodel.py).
 *
 * Every note of the configured clefs carries a value estimate; an "active
 * range" of staff distances decides which notes may be asked; a question is a
 * target note plus three distractors of the same clef. Notes are objects whose
 * value is updated in place, and the active list holds the very same objects
 * as the full list, so an update is seen through both.
 *
 * Randomness: `choice`, `sample` and `shuffle` are nondeterministic choices
 * (`:|`) constrained by postconditions; the outcome of `epsilon < random()` is
 * the parameter `exploit` of SelectNotes.
 */
module Rl {
  import opened Common

  /** Signed distance of each treble-clef note name from the middle staff line. */
  const GClefDist: map<string, int> := map[
    "a" := -6, "h" := -5,
    "c1" := -4, "d1" := -3, "e1" := -2, "f1" := -1, "g1" := 0, "a1" := 1, "h1" := 2,
    "c2" := 3, "d2" := 4, "e2" := 5, "f2" := 6, "g2" := 7, "a2" := 8, "h2" := 9,
    "c3" := 10]

  /** Signed distance of each bass-clef note name from the middle staff line. */
  const FClefDist: map<string, int> := map[
    "C_grand" := 10, "D_grand" := -9, "E_grand" := -8,
    "F_grand" := -7, "G_grand" := -6, "A_grand" := -5, "H_grand" := -4,
    "c" := -3, "d" := -2, "e" := -1, "f" := 0, "g" := 1, "a" := 2, "h" := 3,
    "c1" := 4, "d1" := 5, "e1" := 6]

  /** Exploration probability; only documented, since the draw is a parameter. */
  const Epsilon: real := 0.15
  /** Learning rate of the moving-average update. */
  const Alfa: real := 0.1
  /** Value every note starts with. */
  const InitVal: real := 7.0

  /** Looks the name up in the treble table for "g_clef" and in the bass table for every other clef. */
  function GetDistFromMiddle(noteName: string, clef: string): (r: Option<int>)
    ensures clef == GClef ==> (r.Some? <==> noteName in GClefDist)
    ensures clef == GClef && r.Some? ==> r.value == GClefDist[noteName]
    ensures clef != GClef ==> (r.Some? <==> noteName in FClefDist)
    ensures clef != GClef && r.Some? ==> r.value == FClefDist[noteName]
  {
    var table := if clef == GClef then GClefDist else FClefDist;
    if noteName in table then Some(table[noteName]) else None
  }

  /** A note: fixed identity and staff position, mutable value estimate. */
  class Note {
    const name: string
    const clef: string
    const dist: Option<int>
    var val: real

    constructor (name: string, val: real, clef: string, dist: Option<int>)
      ensures this.name == name && this.val == val && this.clef == clef && this.dist == dist
    {
      this.name := name;
      this.val := val;
      this.clef := clef;
      this.dist := dist;
    }
  }

  /** The note names to quiz, per clef, in the iteration order of the dictionary. */
  type NotesSpec = seq<(string, seq<string>)>

  /** The (clef, name) pairs of one clef's entry. */
  function Row(clef: string, names: seq<string>): (r: seq<(string, string)>)
    ensures |r| == |names|
    ensures forall k :: 0 <= k < |names| ==> r[k] == (clef, names[k])
  {
    seq(|names|, k requires 0 <= k < |names| => (clef, names[k]))
  }

  /** All (clef, name) pairs of a dictionary, clef by clef and name by name. */
  function Flatten(spec: NotesSpec): seq<(string, string)>
    decreases |spec|
  {
    if spec == [] then []
    else Flatten(spec[..|spec| - 1]) + Row(spec[|spec| - 1].0, spec[|spec| - 1].1)
  }

  /** Number of names listed in the first `c` entries. */
  function Offset(spec: NotesSpec, c: nat): nat
    requires c <= |spec|
  {
    if c == 0 then 0 else Offset(spec, c - 1) + |spec[c - 1].1|
  }

  /**
   * The flattening holds exactly one pair per listed (clef, name), in input
   * order: name `k` of entry `c` sits at position Offset(spec, c) + k.
   */
  lemma {:induction false} FlattenAt(spec: NotesSpec, c: nat, k: nat)
    requires c < |spec| && k < |spec[c].1|
    ensures |Flatten(spec)| == Offset(spec, |spec|)
    ensures Offset(spec, c) + k < |Flatten(spec)|
    ensures Flatten(spec)[Offset(spec, c) + k] == (spec[c].0, spec[c].1[k])
    decreases |spec|
  {
    var init := spec[..|spec| - 1];
    FlattenLength(spec);
    FlattenLength(init);
    OffsetOfPrefix(spec, init, |init|);
    OffsetOfPrefix(spec, init, c);
    if c < |spec| - 1 {
      FlattenAt(init, c, k);
      assert init[c] == spec[c];
    }
  }

  /** The position in the flattening of name `k` of entry `c`, when that name is `x`. */
  lemma EntryAt(spec: NotesSpec, c: nat, k: nat, x: string) returns (p: nat)
    requires c < |spec| && k < |spec[c].1| && spec[c].1[k] == x
    ensures p < |Flatten(spec)| && Flatten(spec)[p] == (spec[c].0, x)
  {
    FlattenAt(spec, c, k);
    p := Offset(spec, c) + k;
  }

  /** Conversely, every pair of the flattening is a (clef, name) listed by some entry. */
  lemma {:induction false} FlattenOrigin(spec: NotesSpec, q: nat)
    requires q < |Flatten(spec)|
    ensures exists c, k :: 0 <= c < |spec| && 0 <= k < |spec[c].1| && Flatten(spec)[q] == (spec[c].0, spec[c].1[k])
    decreases |spec|
  {
    var init := spec[..|spec| - 1];
    var last := |spec| - 1;
    if q < |Flatten(init)| {
      FlattenOrigin(init, q);
      var c, k :| 0 <= c < |init| && 0 <= k < |init[c].1| && Flatten(init)[q] == (init[c].0, init[c].1[k]);
      assert init[c] == spec[c];
    } else {
      var k := q - |Flatten(init)|;
      assert Flatten(spec)[q] == Row(spec[last].0, spec[last].1)[k];
      assert Flatten(spec)[q] == (spec[last].0, spec[last].1[k]);
    }
  }

  /**
   * A dictionary whose clefs differ and whose name lists repeat no name
   * flattens to pairs that are all different.
   */
  lemma {:induction false} FlattenDistinct(spec: NotesSpec)
    requires forall i, j :: 0 <= i < j < |spec| ==> spec[i].0 != spec[j].0
    requires forall i :: 0 <= i < |spec| ==> Distinct(spec[i].1)
    ensures Distinct(Flatten(spec))
    decreases |spec|
  {
    if spec != [] {
      var init, last := spec[..|spec| - 1], |spec| - 1;
      assert forall i :: 0 <= i < |init| ==> init[i] == spec[i];
      FlattenDistinct(init);
      var a, b := Flatten(init), Row(spec[last].0, spec[last].1);
      assert Flatten(spec) == a + b;
      forall i, j | 0 <= i < j < |a + b| ensures (a + b)[i] != (a + b)[j] {
        if j < |a| {
          assert (a + b)[i] == a[i] && (a + b)[j] == a[j];
        } else if i >= |a| {
          assert (a + b)[i] == b[i - |a|] && (a + b)[j] == b[j - |a|];
        } else {
          FlattenOrigin(init, i);
          var c, k :| 0 <= c < |init| && 0 <= k < |init[c].1| && a[i] == (init[c].0, init[c].1[k]);
          assert (a + b)[i] == a[i] && (a + b)[j] == b[j - |a|];
        }
      }
    }
  }

  /** The flattening has one pair per listed name. */
  lemma {:induction false} FlattenLength(spec: NotesSpec)
    ensures |Flatten(spec)| == Offset(spec, |spec|)
    decreases |spec|
  {
    if spec != [] {
      var init := spec[..|spec| - 1];
      FlattenLength(init);
      OffsetOfPrefix(spec, init, |init|);
    }
  }

  /** Offsets only look at the entries before them. */
  lemma {:induction false} OffsetOfPrefix(spec: NotesSpec, pre: NotesSpec, c: nat)
    requires c <= |pre| <= |spec| && pre == spec[..|pre|]
    ensures Offset(pre, c) == Offset(spec, c)
  {
    if c > 0 {
      OffsetOfPrefix(spec, pre, c - 1);
      assert pre[c - 1] == spec[c - 1];
    }
  }

  /** Note `n` is the one built for the pair `e`: its name, its clef and the looked-up distance. */
  ghost predicate IsPrepared(n: Note, e: (string, string)) {
    n.clef == e.0 && n.name == e.1 && n.dist == GetDistFromMiddle(e.1, e.0)
  }

  /** `ns` holds one note per (clef, name) pair of the dictionary, in its order. */
  ghost predicate PreparedFrom(ns: seq<Note>, spec: NotesSpec) {
    |ns| == |Flatten(spec)| && forall k :: 0 <= k < |ns| ==> IsPrepared(ns[k], Flatten(spec)[k])
  }

  /** One fresh Note per (clef, name) pair of the dictionary, in its order. */
  method PrepareNotes(spec: NotesSpec) returns (notes: seq<Note>)
    ensures PreparedFrom(notes, spec)
    ensures forall k :: 0 <= k < |notes| ==> fresh(notes[k]) && notes[k].val == InitVal
    ensures Distinct(notes)
  {
    notes := [];
    var i := 0;
    while i < |spec|
      invariant 0 <= i <= |spec|
      invariant |notes| == |Flatten(spec[..i])|
      invariant forall k :: 0 <= k < |notes| ==> fresh(notes[k]) && notes[k].val == InitVal
      invariant forall k :: 0 <= k < |notes| ==> IsPrepared(notes[k], Flatten(spec[..i])[k])
      invariant Distinct(notes)
    {
      var clef, names := spec[i].0, spec[i].1;
      ghost var done := Flatten(spec[..i]);
      var j := 0;
      while j < |names|
        invariant 0 <= j <= |names|
        invariant |notes| == |done| + j
        invariant forall k :: 0 <= k < |notes| ==> fresh(notes[k]) && notes[k].val == InitVal
        invariant forall k :: 0 <= k < |notes| ==> IsPrepared(notes[k], (done + Row(clef, names))[k])
        invariant Distinct(notes)
      {
        var n := new Note(names[j], InitVal, clef, GetDistFromMiddle(names[j], clef));
        notes := notes + [n];
        j := j + 1;
      }
      assert spec[..i + 1][..i] == spec[..i];
      i := i + 1;
    }
    assert spec[..|spec|] == spec;
  }

  /** Reward of an answer: -1 for a correct one, +1 for a wrong one. */
  function Reward(wasCorrect: bool): real {
    if wasCorrect then -1.0 else 1.0
  }

  /**
   * The moving-average update of a note's value: its distance to the reward
   * is the old distance shrunk by the factor 1 - Alfa.
   */
  function ComputeNewVal(oldVal: real, wasCorrect: bool): (r: real)
    ensures r - Reward(wasCorrect) == (1.0 - Alfa) * (oldVal - Reward(wasCorrect))
  {
    oldVal + Alfa * (Reward(wasCorrect) - oldVal)
  }

  /** The updated value lies between the old value and the reward, strictly unless they coincide. */
  lemma NewValBetween(oldVal: real, wasCorrect: bool)
    ensures oldVal < Reward(wasCorrect) ==> oldVal < ComputeNewVal(oldVal, wasCorrect) < Reward(wasCorrect)
    ensures Reward(wasCorrect) < oldVal ==> Reward(wasCorrect) < ComputeNewVal(oldVal, wasCorrect) < oldVal
    ensures oldVal == Reward(wasCorrect) ==> ComputeNewVal(oldVal, wasCorrect) == oldVal
  {
  }

  /** Power with a natural exponent. */
  function Pow(x: real, k: nat): real {
    if k == 0 then 1.0 else x * Pow(x, k - 1)
  }

  /** The value after `k` updates with the same outcome. */
  function Repeated(v: real, wasCorrect: bool, k: nat): real {
    if k == 0 then v else ComputeNewVal(Repeated(v, wasCorrect, k - 1), wasCorrect)
  }

  /** After k equal outcomes the value is the reward plus (1 - Alfa)^k times the initial gap. */
  lemma {:induction false} RepeatedUpdates(v: real, wasCorrect: bool, k: nat)
    ensures Repeated(v, wasCorrect, k) - Reward(wasCorrect) == Pow(1.0 - Alfa, k) * (v - Reward(wasCorrect))
  {
    if k > 0 {
      RepeatedUpdates(v, wasCorrect, k - 1);
      GapStep(Repeated(v, wasCorrect, k), Repeated(v, wasCorrect, k - 1),
        Pow(1.0 - Alfa, k), Pow(1.0 - Alfa, k - 1), v - Reward(wasCorrect), wasCorrect);
    }
  }

  /** One update turns a gap of `p1` times the initial one into a gap of (1 - Alfa) * `p1` times it. */
  lemma GapStep(r: real, r1: real, p: real, p1: real, gap: real, wasCorrect: bool)
    requires r == ComputeNewVal(r1, wasCorrect) && p == (1.0 - Alfa) * p1
    requires r1 - Reward(wasCorrect) == p1 * gap
    ensures r - Reward(wasCorrect) == p * gap
  {
  }

  /** The pair (min, max) is a range of staff distances containing the note's distance. */
  predicate InRange(n: Note, range: (int, int)) {
    n.dist.Some? && range.0 <= n.dist.value <= range.1
  }

  /**
   * The active list for a range: exactly the notes of the range, in the order
   * of the full list, each once if the full list holds each once.
   */
  function ChooseActiveNotes(notes: seq<Note>, range: (int, int)): (r: seq<Note>)
    ensures forall n :: n in r ==> n in notes && InRange(n, range)
    ensures forall n :: n in notes && InRange(n, range) ==> n in r
    ensures Embeds(r, notes)
    ensures Distinct(notes) ==> Distinct(r)
  {
    if notes == [] then []
    else
      var rest := ChooseActiveNotes(notes[1..], range);
      if InRange(notes[0], range) then
        assert notes[0] !in notes[1..] ==> notes[0] !in rest;
        assert ([notes[0]] + rest)[1..] == rest;
        [notes[0]] + rest
      else
        rest
  }

  /** Widening the range keeps every active note, in the same order. */
  lemma {:induction false} ChooseActiveWidens(notes: seq<Note>, r1: (int, int), r2: (int, int))
    requires r2.0 <= r1.0 && r1.1 <= r2.1
    ensures Embeds(ChooseActiveNotes(notes, r1), ChooseActiveNotes(notes, r2))
  {
    if notes != [] {
      var a, b := ChooseActiveNotes(notes[1..], r1), ChooseActiveNotes(notes[1..], r2);
      ChooseActiveWidens(notes[1..], r1, r2);
      if InRange(notes[0], r1) {
        assert ([notes[0]] + a)[1..] == a && ([notes[0]] + b)[1..] == b;
      } else if InRange(notes[0], r2) {
        assert ([notes[0]] + b)[1..] == b;
      }
    }
  }

  /** The largest value among the notes. */
  function MaxVal(s: seq<Note>): (m: real)
    requires |s| > 0
    reads s
    ensures forall n :: n in s ==> n.val <= m
    ensures exists n :: n in s && n.val == m
  {
    if |s| == 1 then s[0].val
    else
      var t := MaxVal(s[1..]);
      assert forall n :: n in s ==> n == s[0] || n in s[1..];
      if s[0].val >= t then s[0].val else t
  }

  /** The notes whose value is `v`, in order. */
  function NotesWithVal(s: seq<Note>, v: real): (r: seq<Note>)
    reads s
    ensures forall n :: n in r ==> n in s && n.val == v
    ensures forall n :: n in s && n.val == v ==> n in r
  {
    if s == [] then []
    else if s[0].val == v then [s[0]] + NotesWithVal(s[1..], v)
    else NotesWithVal(s[1..], v)
  }

  /** The candidates for distractors: notes of the clef whose name differs from the target's. */
  function PossibleNotes(active: seq<Note>, alreadyChosen: string, clef: string): (r: seq<Note>)
    ensures forall n :: n in r ==> n in active && n.name != alreadyChosen && n.clef == clef
    ensures forall n :: n in active && n.name != alreadyChosen && n.clef == clef ==> n in r
    ensures Distinct(active) ==> Distinct(r)
  {
    if active == [] then []
    else
      var rest := PossibleNotes(active[1..], alreadyChosen, clef);
      if active[0].name != alreadyChosen && active[0].clef == clef then
        assert active[0] !in active[1..] ==> active[0] !in rest;
        [active[0]] + rest
      else
        rest
  }

  /** Filtering keeps an ordered subsequence an ordered subsequence of the filtered whole. */
  lemma {:induction false} PossibleWidens(a: seq<Note>, b: seq<Note>, alreadyChosen: string, clef: string)
    requires Embeds(a, b)
    ensures Embeds(PossibleNotes(a, alreadyChosen, clef), PossibleNotes(b, alreadyChosen, clef))
    decreases |b|
  {
    if a != [] {
      var pb := PossibleNotes(b[1..], alreadyChosen, clef);
      var keep := b[0].name != alreadyChosen && b[0].clef == clef;
      if a[0] == b[0] && Embeds(a[1..], b[1..]) {
        PossibleWidens(a[1..], b[1..], alreadyChosen, clef);
        var pa := PossibleNotes(a[1..], alreadyChosen, clef);
        if keep {
          assert ([a[0]] + pa)[1..] == pa && ([b[0]] + pb)[1..] == pb;
        }
      } else {
        PossibleWidens(a, b[1..], alreadyChosen, clef);
        if keep {
          assert ([b[0]] + pb)[1..] == pb;
        }
      }
    }
  }

  /** With no active note of the clef under another name there is no candidate. */
  lemma {:induction false} NoCandidates(active: seq<Note>, alreadyChosen: string, clef: string)
    requires forall n :: n in active ==> n.name == alreadyChosen || n.clef != clef
    ensures PossibleNotes(active, alreadyChosen, clef) == []
  {
    if active != [] {
      assert active[0] in active;
      NoCandidates(active[1..], alreadyChosen, clef);
    }
  }

  /**
   * Four active notes of one clef with pairwise different names leave, for
   * any target name, at least three candidates of that clef.
   */
  lemma EnoughFromFour(active: seq<Note>, alreadyChosen: string, clef: string, a: Note, b: Note, c: Note, d: Note)
    requires a in active && b in active && c in active && d in active
    requires a.clef == clef && b.clef == clef && c.clef == clef && d.clef == clef
    requires a.name != b.name && a.name != c.name && a.name != d.name
    requires b.name != c.name && b.name != d.name && c.name != d.name
    ensures |PossibleNotes(active, alreadyChosen, clef)| >= 3
  {
    var r := PossibleNotes(active, alreadyChosen, clef);
    if a.name == alreadyChosen {
      ThreeMembers(r, b, c, d);
    } else if b.name == alreadyChosen {
      ThreeMembers(r, a, c, d);
    } else if c.name == alreadyChosen {
      ThreeMembers(r, a, b, d);
    } else {
      ThreeMembers(r, a, b, c);
    }
  }

  /** Two different notes of the same clef never share a name. */
  ghost predicate ClefNamesUnique(s: seq<Note>) {
    forall a, b :: a in s && b in s && a != b && a.clef == b.clef ==> a.name != b.name
  }

  /** `k` is the position of the first note called `name`. */
  ghost predicate IsFirstWithName(notes: seq<Note>, name: string, k: int) {
    0 <= k < |notes| && notes[k].name == name && forall j :: 0 <= j < k ==> notes[j].name != name
  }

  /** Three distinct positions below `n`. */
  predicate DistinctPositions(i: int, j: int, k: int, n: int) {
    0 <= i < n && 0 <= j < n && 0 <= k < n && i != j && i != k && j != k
  }

  /**
   * `names` is a shuffle of the names of three notes drawn without
   * replacement (at distinct positions) from `p`, together with `already`.
   */
  ghost predicate IsDraw(names: seq<string>, p: seq<Note>, already: string) {
    exists i, j, k :: DistinctPositions(i, j, k, |p|) &&
      multiset(names) == multiset([p[i].name, p[j].name, p[k].name, already])
  }

  /** What a draw looks like: four names, `already` among them, the others taken from `p`. */
  lemma DrawShape(names: seq<string>, p: seq<Note>, already: string)
    requires IsDraw(names, p, already)
    ensures |names| == 4 && already in names
    ensures forall x :: x in names && x != already ==> exists n :: n in p && n.name == x
  {
    var i, j, k :| DistinctPositions(i, j, k, |p|) &&
      multiset(names) == multiset([p[i].name, p[j].name, p[k].name, already]);
    var sampled := [p[i].name, p[j].name, p[k].name, already];
    SameMultisetMembers(names, sampled);
    assert sampled[3] == already;
    forall x | x in names && x != already ensures exists n :: n in p && n.name == x {
      SampledMember(p, i, j, k, already, x);
    }
  }

  /** A name other than `already` in a draw is the name of one of the three drawn notes. */
  lemma SampledMember(p: seq<Note>, i: int, j: int, k: int, already: string, x: string)
    requires DistinctPositions(i, j, k, |p|)
    requires x in [p[i].name, p[j].name, p[k].name, already] && x != already
    ensures exists n :: n in p && n.name == x
  {
    var a, b, c := p[i], p[j], p[k];
    assert a in p && b in p && c in p;
  }

  /** Drawing from distinct, distinctly named candidates other than `already` gives four distinct names. */
  lemma DrawDistinct(names: seq<string>, p: seq<Note>, already: string, clef: string)
    requires IsDraw(names, p, already)
    requires Distinct(p) && ClefNamesUnique(p)
    requires forall n :: n in p ==> n.clef == clef && n.name != already
    ensures Distinct(names)
  {
    var i, j, k :| DistinctPositions(i, j, k, |p|) &&
      multiset(names) == multiset([p[i].name, p[j].name, p[k].name, already]);
    SampledDistinct(p, i, j, k, already, clef);
    DistinctPermutation(names, [p[i].name, p[j].name, p[k].name, already]);
  }

  lemma SampledDistinct(p: seq<Note>, i: int, j: int, k: int, already: string, clef: string)
    requires DistinctPositions(i, j, k, |p|)
    requires Distinct(p) && ClefNamesUnique(p)
    requires forall n :: n in p ==> n.clef == clef && n.name != already
    ensures Distinct([p[i].name, p[j].name, p[k].name, already])
  {
    var a, b, c := p[i], p[j], p[k];
    assert a in p && b in p && c in p;
    assert a != b && a != c && b != c;
  }

  /** `[note.name for note in notes]`. */
  function Names(ns: seq<Note>): (r: seq<string>)
    reads ns
    ensures |r| == |ns| && forall k :: 0 <= k < |ns| ==> r[k] == ns[k].name
  {
    seq(|ns|, k requires 0 <= k < |ns| reads ns => ns[k].name)
  }

  /** The notes are distinct objects, each with a staff distance. */
  ghost predicate KnownNotes(ns: seq<Note>) {
    (forall k :: 0 <= k < |ns| ==> ns[k].dist.Some?) && Distinct(ns)
  }

  /** `sample(range(n), 3)`: three distinct positions below `n`, any of them. */
  method SamplePositions(n: nat) returns (i: nat, j: nat, k: nat)
    requires n >= 3
    ensures DistinctPositions(i, j, k, n)
  {
    ghost var w := (0, 1, 2);
    assert 0 <= w.0 < n && 0 <= w.1 < n && 0 <= w.2 < n && w.0 != w.1 && w.0 != w.2 && w.1 != w.2;
    var t: (nat, nat, nat) :| t.0 < n && t.1 < n && t.2 < n && t.0 != t.1 && t.0 != t.2 && t.1 != t.2;
    i, j, k := t.0, t.1, t.2;
  }

  /** `shuffle`: any reordering of the names. */
  method Shuffle(s: seq<string>) returns (r: seq<string>)
    ensures multiset(r) == multiset(s)
  {
    assert multiset(s) == multiset(s);
    r :| multiset(r) == multiset(s);
  }

  /** What `select_notes` returns: the target's name, the four shuffled names and the clef. */
  datatype Question = Question(correctNoteName: string, allNotesNames: seq<string>, clef: string)

  class RlModel {
    /** Every note of the configured clefs. */
    var notes: seq<Note>
    /** The active range (min, max) of staff distances. */
    var activeNotesRange: (int, int)
    /** The notes of the active range, recomputed from `notes` on every change of the range. */
    var activeNotes: seq<Note>
    /** How many times the range has been widened. */
    ghost var expansions: nat

    ghost predicate Valid()
      reads this, notes
    {
      && KnownNotes(notes)
      && activeNotesRange == (-2 - 2 * expansions, 2 + 2 * expansions)
      && activeNotes == ChooseActiveNotes(notes, activeNotesRange)
      && (forall k :: 0 <= k < |notes| ==> -1.0 <= notes[k].val <= InitVal)
    }

    /** Every dictionary name is known to the distance table of its clef. */
    static ghost predicate AllNamesKnown(spec: NotesSpec) {
      forall e :: e in Flatten(spec) ==> GetDistFromMiddle(e.1, e.0).Some?
    }

    /**
     * Builds the notes of the dictionary and activates the range (-2, 2).
     * A name missing from its clef's table gives a note without a distance,
     * on which the range comparison raises; such a dictionary is excluded.
     */
    constructor (spec: NotesSpec)
      requires AllNamesKnown(spec)
      ensures Valid()
      ensures PreparedFrom(notes, spec)
      ensures forall k :: 0 <= k < |notes| ==> fresh(notes[k]) && notes[k].val == InitVal
      ensures activeNotesRange == (-2, 2) && expansions == 0
    {
      var ns := PrepareNotes(spec);
      PreparedNotesKnown(spec, ns);
      notes := ns;
      activeNotesRange := (-2, 2);
      activeNotes := ChooseActiveNotes(ns, (-2, 2));
      expansions := 0;
    }

    /** Distinct notes prepared from a dictionary of known names all have a distance. */
    static lemma PreparedNotesKnown(spec: NotesSpec, ns: seq<Note>)
      requires AllNamesKnown(spec)
      requires PreparedFrom(ns, spec) && Distinct(ns)
      ensures KnownNotes(ns)
    {
      forall k | 0 <= k < |ns| ensures ns[k].dist.Some? {
        var e := Flatten(spec)[k];
        assert e in Flatten(spec) && IsPrepared(ns[k], e);
      }
    }

    /** Every active note has enough other-named active notes of its clef to draw three distractors. */
    ghost predicate EnoughDistractors()
      reads this
    {
      forall n :: n in activeNotes ==> |PossibleNotes(activeNotes, n.name, n.clef)| >= 3
    }

    /** An active note of maximal value; ties go to any of them. The active list must not be empty. */
    method GetMaxNote() returns (n: Note)
      requires Valid() && |activeNotes| > 0
      ensures n in activeNotes
      ensures forall m :: m in activeNotes ==> m.val <= n.val
    {
      var maxVal := MaxVal(activeNotes);
      var maxNotes := NotesWithVal(activeNotes, maxVal);
      n :| n in maxNotes;
    }

    /**
     * Three candidates of the clef at distinct positions whose names differ
     * from `alreadyChosen`, plus `alreadyChosen` itself, in shuffled order.
     * With fewer than three candidates `sample` raises: None.
     */
    method GetRandomNoteNames(alreadyChosen: string, clef: string) returns (names: Option<seq<string>>)
      ensures names.None? <==> |PossibleNotes(activeNotes, alreadyChosen, clef)| < 3
      ensures names.Some? ==> IsDraw(names.value, PossibleNotes(activeNotes, alreadyChosen, clef), alreadyChosen)
    {
      var possible := PossibleNotes(activeNotes, alreadyChosen, clef);
      if |possible| < 3 {
        return None;
      }
      var i, j, k := SamplePositions(|possible|);
      var shuffled := Shuffle([possible[i].name, possible[j].name, possible[k].name, alreadyChosen]);
      return Some(shuffled);
    }

    /**
     * Picks the target: an active note of maximal value when `exploit` (the
     * draw exceeded Epsilon), any active note otherwise; then draws its three
     * distractors of the target's clef. Where the source raises (`max` or
     * `choice` of an empty active list, `sample` of fewer than three
     * candidates) the result is None.
     */
    method SelectNotes(exploit: bool) returns (q: Option<Question>)
      requires Valid()
      ensures |activeNotes| == 0 ==> q.None?
      ensures q.Some? ==> exists n :: (n in activeNotes && n.name == q.value.correctNoteName && n.clef == q.value.clef &&
                           (exploit ==> forall m :: m in activeNotes ==> m.val <= n.val))
      ensures q.Some? ==> IsDraw(q.value.allNotesNames, PossibleNotes(activeNotes, q.value.correctNoteName, q.value.clef), q.value.correctNoteName)
      ensures q.Some? ==> |q.value.allNotesNames| == 4 && q.value.correctNoteName in q.value.allNotesNames
      ensures q.Some? ==> forall x :: x in q.value.allNotesNames && x != q.value.correctNoteName ==>
        exists n :: n in activeNotes && n.clef == q.value.clef && n.name == x
      ensures q.Some? && ClefNamesUnique(notes) ==> Distinct(q.value.allNotesNames)
      ensures q.None? && |activeNotes| > 0 ==> exists n :: (n in activeNotes &&
        (exploit ==> forall m :: m in activeNotes ==> m.val <= n.val) &&
        |PossibleNotes(activeNotes, n.name, n.clef)| < 3)
      ensures |activeNotes| > 0 && EnoughDistractors() ==> q.Some?
    {
      if |activeNotes| == 0 {
        return None;
      }
      var chosen: Note;
      if exploit {
        chosen := GetMaxNote();
      } else {
        assert activeNotes[0] in activeNotes;
        chosen :| chosen in activeNotes;
      }
      var clef := chosen.clef;
      var correctNoteName := chosen.name;
      assert chosen in activeNotes && chosen.name == correctNoteName && chosen.clef == clef;
      var drawn := GetRandomNoteNames(correctNoteName, clef);
      if drawn.None? {
        return None;
      }
      var allNotesNames := drawn.value;
      var possible := PossibleNotes(activeNotes, correctNoteName, clef);
      DrawShape(allNotesNames, possible, correctNoteName);
      forall x | x in allNotesNames && x != correctNoteName ensures exists n :: n in activeNotes && n.clef == clef && n.name == x {
        var n :| n in possible && n.name == x;
        assert n in activeNotes && n.clef == clef;
      }
      if ClefNamesUnique(notes) {
        assert ClefNamesUnique(possible);
        DrawDistinct(allNotesNames, possible, correctNoteName, clef);
      }
      q := Some(Question(correctNoteName, allNotesNames, clef));
    }

    /** Position of the first note called `noteName`, or None where `list.index` raises. */
    method FindNoteByName(noteName: string) returns (index: Option<nat>)
      ensures index.Some? ==> IsFirstWithName(notes, noteName, index.value)
      ensures index.None? <==> forall j :: 0 <= j < |notes| ==> notes[j].name != noteName
      ensures noteName in Names(notes) ==> index == Some(IndexOf(Names(notes), noteName))
      ensures noteName !in Names(notes) ==> index == None
    {
      var i := 0;
      while i < |notes|
        invariant 0 <= i <= |notes|
        invariant forall j :: 0 <= j < i ==> notes[j].name != noteName
      {
        if notes[i].name == noteName {
          IndexOfFirst(Names(notes), noteName, i);
          return Some(i);
        }
        i := i + 1;
      }
      return None;
    }

    /**
     * Applies the moving-average update to the first note called `noteName`
     * and to nothing else. An absent name raises before anything changes:
     * `found` is false and the state is untouched.
     */
    method UpdateVal(noteName: string, wasCorrect: bool) returns (found: bool)
      requires Valid()
      modifies notes
      ensures Valid()
      ensures notes == old(notes) && activeNotesRange == old(activeNotesRange) && activeNotes == old(activeNotes)
      ensures found <==> exists k :: 0 <= k < |notes| && notes[k].name == noteName
      ensures forall k :: 0 <= k < |notes| ==>
        notes[k].val == if IsFirstWithName(notes, noteName, k) then ComputeNewVal(old(notes[k].val), wasCorrect) else old(notes[k].val)
    {
      var index := FindNoteByName(noteName);
      if index.None? {
        return false;
      }
      var i := index.value;
      NewValBetween(notes[i].val, wasCorrect);
      SetVal(i, ComputeNewVal(notes[i].val, wasCorrect));
      found := true;
      forall k | 0 <= k < |notes| && k != i ensures !IsFirstWithName(notes, noteName, k) {
      }
    }

    /** Stores a value in range in one note; every other note and field keeps its state. */
    method SetVal(i: nat, v: real)
      requires Valid() && i < |notes| && -1.0 <= v <= InitVal
      modifies notes[i]
      ensures Valid()
      ensures notes == old(notes) && activeNotesRange == old(activeNotesRange) && activeNotes == old(activeNotes)
      ensures notes[i].val == v
      ensures forall k :: 0 <= k < |notes| && k != i ==> notes[k].val == old(notes[k].val)
    {
      notes[i].val := v;
    }

    /**
     * Widens the range by 2 on each side and recomputes the active list; the
     * old active notes stay active, in the same order, and no value changes.
     */
    method AddActiveNotes()
      requires Valid()
      modifies this
      ensures Valid()
      ensures activeNotesRange == (old(activeNotesRange).0 - 2, old(activeNotesRange).1 + 2)
      ensures expansions == old(expansions) + 1
      ensures notes == old(notes) && activeNotes == ChooseActiveNotes(notes, activeNotesRange)
      ensures Embeds(old(activeNotes), activeNotes)
      ensures forall n :: n in old(activeNotes) ==> n in activeNotes
      ensures forall x, c :: |PossibleNotes(old(activeNotes), x, c)| <= |PossibleNotes(activeNotes, x, c)|
      ensures forall k :: 0 <= k < |notes| ==> notes[k].val == old(notes[k].val)
    {
      var (oldMin, oldMax) := activeNotesRange;
      activeNotesRange := (oldMin - 2, oldMax + 2);
      activeNotes := ChooseActiveNotes(notes, activeNotesRange);
      expansions := expansions + 1;
      ChooseActiveWidens(notes, old(activeNotesRange), activeNotesRange);
      EmbedsMembers(old(activeNotes), activeNotes);
      forall x, c ensures |PossibleNotes(old(activeNotes), x, c)| <= |PossibleNotes(activeNotes, x, c)| {
        PossibleWidens(old(activeNotes), activeNotes, x, c);
        EmbedsLength(PossibleNotes(old(activeNotes), x, c), PossibleNotes(activeNotes, x, c));
      }
    }
  }
}
