/**
 * Facts that tie the note lists of the round state (game_model.py) to the
 * distance tables of the value model (rlmodel.py): both describe the same
 * catalog of notes. A value model built from the lists of the clefs a
 * learner can choose can always ask a question, however often its range
 * was widened.
 */
module Catalog {
  import Common
  import Rl
  import Game

  /** Each clef's note list names exactly the notes of that clef's distance table. */
  lemma NoteListsMatchTables()
    ensures forall x :: x in Game.GClefNotes ==> x in Rl.GClefDist
    ensures forall x :: x in Rl.GClefDist ==> x in Game.GClefNotes
    ensures forall x :: x in Game.FClefNotes ==> x in Rl.FClefDist
    ensures forall x :: x in Rl.FClefDist ==> x in Game.FClefNotes
  {
  }

  /** Neither list repeats a name, so `sample(list, 4)` yields four different names. */
  lemma NoteListsDistinct()
    ensures Common.Distinct(Game.GClefNotes) && Common.Distinct(Game.FClefNotes)
  {
    TrebleListDistinct();
    BassListDistinct();
  }

  lemma TrebleListDistinct()
    ensures Common.Distinct(Game.GClefNotes)
  {
  }

  lemma BassListDistinct()
    ensures Common.Distinct(Game.FClefNotes)
  {
  }

  /** Along the treble list the staff distance rises by one per note, from -6 to 10. */
  lemma GClefListAscends(i: nat)
    requires i < |Game.GClefNotes|
    ensures Rl.GetDistFromMiddle(Game.GClefNotes[i], Common.GClef) == Common.Some(i - 6)
  {
  }

  /**
   * Along the bass list the staff distance rises by one per note from -9
   * ("D_grand") to 6; the first name, "C_grand", is stored at +10, not at -10.
   */
  lemma FClefListAscends(i: nat)
    requires i < |Game.FClefNotes|
    ensures Rl.GetDistFromMiddle(Game.FClefNotes[i], Common.FClef) == Common.Some(if i == 0 then 10 else i - 10)
  {
  }

  /** A fact about the treble table, recorded for readers: five names lie in the initial range (-2, 2). */
  lemma InitialRangeTrebleNames()
    ensures forall x :: x in Rl.GClefDist && -2 <= Rl.GClefDist[x] <= 2 <==> x in ["e1", "f1", "g1", "a1", "h1"]
  {
  }

  /** A fact about the bass table, recorded for readers: five names lie in the initial range (-2, 2). */
  lemma InitialRangeBassNames()
    ensures forall x :: x in Rl.FClefDist && -2 <= Rl.FClefDist[x] <= 2 <==> x in ["d", "e", "f", "g", "a"]
  {
  }

  /**
   * A fact about the two tables, recorded for readers: five names occur in
   * both clefs, so a lookup by name alone cannot tell the clefs apart.
   */
  lemma SharedNames()
    ensures forall x :: x in Rl.GClefDist && x in Rl.FClefDist <==> x in ["a", "h", "c1", "d1", "e1"]
  {
  }

  /** Each entry is one of the two clefs. */
  ghost predicate KnownClefs(clefs: seq<string>) {
    forall i :: 0 <= i < |clefs| ==> clefs[i] == Common.GClef || clefs[i] == Common.FClef
  }

  /** The clef choices the options screen offers: treble, bass, or both. */
  const ClefSelections: seq<seq<string>> := [[Common.GClef], [Common.FClef], [Common.GClef, Common.FClef]]

  /** The value model's dictionary for some clefs: each clef with its full note list. */
  function CatalogSpec(clefs: seq<string>): (spec: Rl.NotesSpec)
    requires KnownClefs(clefs)
    ensures |spec| == |clefs|
    ensures forall i :: 0 <= i < |clefs| ==> spec[i] == (clefs[i], Game.ClefNotes(clefs[i]))
  {
    seq(|clefs|, i requires 0 <= i < |clefs| => (clefs[i], Game.ClefNotes(clefs[i])))
  }

  /** Every name of the catalog dictionary is in the distance table of its clef. */
  lemma CatalogNamesKnown(clefs: seq<string>)
    requires KnownClefs(clefs)
    ensures Rl.RlModel.AllNamesKnown(CatalogSpec(clefs))
  {
    var spec := CatalogSpec(clefs);
    forall e | e in Rl.Flatten(spec) ensures Rl.GetDistFromMiddle(e.1, e.0).Some? {
      var q :| 0 <= q < |Rl.Flatten(spec)| && Rl.Flatten(spec)[q] == e;
      Rl.FlattenOrigin(spec, q);
      var c, k :| 0 <= c < |spec| && 0 <= k < |spec[c].1| && e == (spec[c].0, spec[c].1[k]);
      NoteListsMatchTables();
      assert e.1 in Game.ClefNotes(clefs[c]);
    }
  }

  /** The catalog dictionary of a clef choice flattens to pairs that are all different. */
  lemma CatalogFlatDistinct(clefs: seq<string>)
    requires clefs in ClefSelections
    ensures Common.Distinct(Rl.Flatten(CatalogSpec(clefs)))
  {
    NoteListsDistinct();
    var spec := CatalogSpec(clefs);
    assert forall i :: 0 <= i < |spec| ==> Common.Distinct(spec[i].1);
    Rl.FlattenDistinct(spec);
  }

  /**
   * In a model built from the catalog dictionary of a clef choice, two
   * different notes of one clef never share a name.
   */
  lemma CatalogUnique(clefs: seq<string>, ns: seq<Rl.Note>)
    requires clefs in ClefSelections
    requires Rl.PreparedFrom(ns, CatalogSpec(clefs))
    ensures Rl.ClefNamesUnique(ns)
  {
    var f := Rl.Flatten(CatalogSpec(clefs));
    CatalogFlatDistinct(clefs);
    forall a, b | a in ns && b in ns && a != b && a.clef == b.clef ensures a.name != b.name {
      var p :| 0 <= p < |ns| && ns[p] == a;
      var q :| 0 <= q < |ns| && ns[q] == b;
      assert Rl.IsPrepared(ns[p], f[p]) && Rl.IsPrepared(ns[q], f[q]);
      assert p < q ==> f[p] != f[q];
      assert q < p ==> f[q] != f[p];
    }
  }

  /** Where four consecutive names of a clef's list lie in (-2, 2): e1 to a1, or d to g. */
  function Window(clef: string): nat {
    if clef == Common.GClef then 4 else 8
  }

  /** Name `i` of the window. */
  function WindowName(clef: string, i: nat): string
    requires i < 4
  {
    if clef == Common.GClef then ["e1", "f1", "g1", "a1"][i] else ["d", "e", "f", "g"][i]
  }

  /** The four names of a window differ. */
  lemma WindowNamesDiffer(clef: string)
    ensures forall i, j :: 0 <= i < j < 4 ==> WindowName(clef, i) != WindowName(clef, j)
  {
  }

  /** Name `i` of the window sits at position Window + i of the clef's list, at distance i - 2. */
  lemma WindowNameAt(clef: string, i: nat)
    requires clef == Common.GClef || clef == Common.FClef
    requires i < 4
    ensures Window(clef) + i < |Game.ClefNotes(clef)|
    ensures Game.ClefNotes(clef)[Window(clef) + i] == WindowName(clef, i)
    ensures Rl.GetDistFromMiddle(WindowName(clef, i), clef) == Common.Some(i - 2)
  {
    if clef == Common.GClef {
      GClefListAscends(Window(clef) + i);
    } else {
      FClefListAscends(Window(clef) + i);
    }
  }

  /** The catalog dictionary lists name `i` of the window of clef `clefs[c]` at position `p`. */
  lemma CatalogEntry(clefs: seq<string>, c: nat, i: nat) returns (p: nat)
    requires KnownClefs(clefs) && c < |clefs| && i < 4
    ensures p < |Rl.Flatten(CatalogSpec(clefs))|
    ensures Rl.Flatten(CatalogSpec(clefs))[p] == (clefs[c], WindowName(clefs[c], i))
    ensures Rl.GetDistFromMiddle(WindowName(clefs[c], i), clefs[c]) == Common.Some(i - 2)
  {
    var spec, clef := CatalogSpec(clefs), clefs[c];
    WindowNameAt(clef, i);
    p := Rl.EntryAt(spec, c, Window(clef) + i, WindowName(clef, i));
  }

  /**
   * Name `i` of the window of clef `clefs[c]` is active among notes prepared
   * from the catalog dictionary, for any range covering (-2, 1).
   */
  lemma BlockNote(notes: seq<Rl.Note>, active: seq<Rl.Note>, range: (int, int), clefs: seq<string>, c: nat, i: nat)
    returns (n: Rl.Note)
    requires KnownClefs(clefs) && c < |clefs| && i < 4
    requires Rl.PreparedFrom(notes, CatalogSpec(clefs))
    requires active == Rl.ChooseActiveNotes(notes, range) && range.0 <= -2 && 1 <= range.1
    ensures n in active && n.clef == clefs[c] && n.name == WindowName(clefs[c], i)
  {
    var p := CatalogEntry(clefs, c, i);
    n := notes[p];
    assert Rl.IsPrepared(n, Rl.Flatten(CatalogSpec(clefs))[p]);
    assert n in notes && Rl.InRange(n, range);
  }

  /** Four differently named active notes of clef `clefs[c]`. */
  lemma ClefBlock(notes: seq<Rl.Note>, active: seq<Rl.Note>, range: (int, int), clefs: seq<string>, c: nat)
    returns (n0: Rl.Note, n1: Rl.Note, n2: Rl.Note, n3: Rl.Note)
    requires KnownClefs(clefs) && c < |clefs|
    requires Rl.PreparedFrom(notes, CatalogSpec(clefs))
    requires active == Rl.ChooseActiveNotes(notes, range) && range.0 <= -2 && 1 <= range.1
    ensures n0 in active && n1 in active && n2 in active && n3 in active
    ensures n0.clef == clefs[c] && n1.clef == clefs[c] && n2.clef == clefs[c] && n3.clef == clefs[c]
    ensures n0.name != n1.name && n0.name != n2.name && n0.name != n3.name
    ensures n1.name != n2.name && n1.name != n3.name && n2.name != n3.name
  {
    n0 := BlockNote(notes, active, range, clefs, c, 0);
    n1 := BlockNote(notes, active, range, clefs, c, 1);
    n2 := BlockNote(notes, active, range, clefs, c, 2);
    n3 := BlockNote(notes, active, range, clefs, c, 3);
    WindowNamesDiffer(clefs[c]);
  }

  /**
   * A model built from the catalog dictionary of known clefs has active
   * notes, and every active note leaves at least three distractor
   * candidates, whatever the values and the number of widenings.
   */
  lemma CatalogModelReady(m: Rl.RlModel, clefs: seq<string>)
    requires KnownClefs(clefs) && |clefs| > 0
    requires m.Valid() && Rl.PreparedFrom(m.notes, CatalogSpec(clefs))
    ensures |m.activeNotes| > 0 && m.EnoughDistractors()
  {
    var spec := CatalogSpec(clefs);
    var ns, active, range := m.notes, m.activeNotes, m.activeNotesRange;
    var a0, _, _, _ := ClefBlock(ns, active, range, clefs, 0);
    forall n | n in m.activeNotes ensures |Rl.PossibleNotes(m.activeNotes, n.name, n.clef)| >= 3 {
      assert n in m.notes;
      var q :| 0 <= q < |m.notes| && m.notes[q] == n;
      Rl.FlattenOrigin(spec, q);
      var c, k :| 0 <= c < |spec| && 0 <= k < |spec[c].1| && Rl.Flatten(spec)[q] == (spec[c].0, spec[c].1[k]);
      assert Rl.IsPrepared(m.notes[q], Rl.Flatten(spec)[q]);
      var a, b, d, e := ClefBlock(ns, active, range, clefs, c);
      Rl.EnoughFromFour(active, n.name, n.clef, a, b, d, e);
    }
  }

  /**
   * For each clef choice of the options screen, a value model built from the
   * catalog asks a question of four names containing the target, and still
   * does after `widenings` widenings of its range.
   */
  method SelectionsAlwaysAsk(clefs: seq<string>, widenings: nat, exploit: bool) returns (q: Common.Option<Rl.Question>)
    requires clefs in ClefSelections
    ensures q.Some? && |q.value.allNotesNames| == 4 && q.value.correctNoteName in q.value.allNotesNames
    ensures q.Some? && Common.Distinct(q.value.allNotesNames)
  {
    CatalogNamesKnown(clefs);
    var m := new Rl.RlModel(CatalogSpec(clefs));
    var i := 0;
    while i < widenings
      invariant fresh(m) && m.Valid() && Rl.PreparedFrom(m.notes, CatalogSpec(clefs))
    {
      m.AddActiveNotes();
      i := i + 1;
    }
    CatalogModelReady(m, clefs);
    CatalogUnique(clefs, m.notes);
    q := m.SelectNotes(exploit);
  }

  /** Four treble notes near the middle line and the bass name "c1", at +4. */
  const StrandSpec: Rl.NotesSpec := [(Common.GClef, ["e1", "f1", "g1", "a1"]), (Common.FClef, ["c1"])]

  lemma StrandFlat()
    ensures Rl.Flatten(StrandSpec) == [(Common.GClef, "e1"), (Common.GClef, "f1"), (Common.GClef, "g1"), (Common.GClef, "a1"), (Common.FClef, "c1")]
  {
    var spec := StrandSpec;
    var g, f := Rl.Row(Common.GClef, spec[0].1), Rl.Row(Common.FClef, spec[1].1);
    assert spec[..1][..0] == [] && spec[..|spec| - 1] == spec[..1];
    assert Rl.Flatten(spec[..1]) == g;
    assert g == [(Common.GClef, "e1"), (Common.GClef, "f1"), (Common.GClef, "g1"), (Common.GClef, "a1")];
  }

  /** The five notes prepared from StrandSpec: name, clef and distance of each. */
  lemma StrandNotes(ns: seq<Rl.Note>)
    requires Rl.PreparedFrom(ns, StrandSpec)
    ensures |ns| == 5
    ensures ns[0].name == "e1" && ns[1].name == "f1" && ns[2].name == "g1" && ns[3].name == "a1" && ns[4].name == "c1"
    ensures forall i :: 0 <= i < 4 ==> ns[i].clef == Common.GClef && ns[i].dist == Common.Some(i - 2)
    ensures ns[4].clef == Common.FClef && ns[4].dist == Common.Some(4)
  {
    StrandFlat();
    var f := Rl.Flatten(StrandSpec);
    assert Rl.IsPrepared(ns[0], f[0]) && Rl.IsPrepared(ns[1], f[1]) && Rl.IsPrepared(ns[2], f[2]);
    assert Rl.IsPrepared(ns[3], f[3]) && Rl.IsPrepared(ns[4], f[4]);
  }

  /** In the range (-2, 2) the four treble notes are active, each with the three others as candidates. */
  lemma StrandBefore(ns: seq<Rl.Note>, active: seq<Rl.Note>)
    requires Rl.PreparedFrom(ns, StrandSpec) && active == Rl.ChooseActiveNotes(ns, (-2, 2))
    ensures forall n :: n in active ==> |Rl.PossibleNotes(active, n.name, n.clef)| >= 3
  {
    StrandNotes(ns);
    assert ns[0] in ns && ns[1] in ns && ns[2] in ns && ns[3] in ns;
    assert Rl.InRange(ns[0], (-2, 2)) && Rl.InRange(ns[1], (-2, 2)) && Rl.InRange(ns[2], (-2, 2)) && Rl.InRange(ns[3], (-2, 2));
    forall n | n in active ensures |Rl.PossibleNotes(active, n.name, n.clef)| >= 3 {
      var q :| 0 <= q < |ns| && ns[q] == n;
      assert q != 4;
      Rl.EnoughFromFour(active, n.name, Common.GClef, ns[0], ns[1], ns[2], ns[3]);
    }
  }

  /** In the range (-4, 4) "c1" is active and no other active note is a bass note. */
  lemma StrandAfter(ns: seq<Rl.Note>, active: seq<Rl.Note>)
    requires Rl.PreparedFrom(ns, StrandSpec) && active == Rl.ChooseActiveNotes(ns, (-4, 4))
    ensures |ns| == 5 && ns[4] in active && ns[4].name == "c1" && ns[4].clef == Common.FClef
    ensures Rl.PossibleNotes(active, "c1", Common.FClef) == []
  {
    StrandNotes(ns);
    assert ns[4] in ns && Rl.InRange(ns[4], (-4, 4));
    forall n | n in ns ensures n.name == "c1" || n.clef == Common.GClef {
      var q :| 0 <= q < |ns| && ns[q] == n;
    }
    Rl.NoCandidates(active, "c1", Common.FClef);
  }

  /**
   * Widening does not keep `EnoughDistractors` for every dictionary: for
   * StrandSpec it holds until the first widening makes "c1" active with no
   * candidate, so a question about "c1" makes `sample` raise.
   */
  method WideningCanStrandANote()
  {
    StrandFlat();
    var m := new Rl.RlModel(StrandSpec);
    StrandBefore(m.notes, m.activeNotes);
    assert m.EnoughDistractors();
    m.AddActiveNotes();
    StrandAfter(m.notes, m.activeNotes);
    assert !m.EnoughDistractors();
  }
}
