/**
 * The round and score state of the note quiz (zad5/zgaduj_zgadula/game_model.py).
 *
 * A GameModel keeps the score and its history, the clefs the learner chose,
 * the current round (clef, four candidate names, the target, the last choice)
 * and an ordered list of observers. Every assignment of the score appends to
 * the history and notifies every observer.
 *
 * Randomness: `choice` and `sample` are nondeterministic choices (`:|`)
 * constrained by postconditions. An observer callback is modelled only by
 * its order: `notified` records, in order, every observer that was called.
 */
module Game {
  import opened Common

  /** The treble-clef note names a round can ask, from lowest to highest. */
  const GClefNotes: seq<string> := [
    "a", "h",
    "c1", "d1", "e1", "f1", "g1", "a1", "h1",
    "c2", "d2", "e2", "f2", "g2", "a2", "h2", "c3"]

  /** The bass-clef note names a round can ask, from lowest to highest. */
  const FClefNotes: seq<string> := [
    "C_grand", "D_grand", "E_grand", "F_grand", "G_grand", "A_grand", "H_grand",
    "c", "d", "e", "f", "g", "a", "h",
    "c1", "d1", "e1"]

  /** The note list of a clef that rounds can ask about. */
  function ClefNotes(clef: string): seq<string>
    requires clef == GClef || clef == FClef
  {
    if clef == GClef then GClefNotes else FClefNotes
  }

  /** `s` is what `sample(pool, 4)` can return from a pool without duplicates. */
  ghost predicate IsSampleOfFour(s: seq<string>, pool: seq<string>) {
    |s| == 4 && Distinct(s) && forall x :: x in s ==> x in pool
  }

  /** The record handed to the serializer. */
  datatype GameState = GameState(scoreHistory: seq<int>, questionPickMethod: string, clefs: seq<string>)

  /** The score before entry `i` of a history: the previous entry, or 0 before the first. */
  function Previous(h: seq<int>, i: nat): int
    requires i < |h|
  {
    if i == 0 then 0 else h[i - 1]
  }

  /** Every entry of a score history differs by exactly one from the score before it. */
  ghost predicate UnitSteps(h: seq<int>) {
    forall i :: 0 <= i < |h| ==> h[i] == Previous(h, i) + 1 || h[i] == Previous(h, i) - 1
  }

  /**
   * Along a history of unit steps from 0, the score after `i + 1` answers is
   * at most `i + 1` away from 0 and has the parity of `i + 1`.
   */
  lemma {:induction false} UnitStepsBound(h: seq<int>, i: nat)
    requires UnitSteps(h) && i < |h|
    ensures -(i + 1) <= h[i] <= i + 1
    ensures (h[i] + i + 1) % 2 == 0
  {
    if i > 0 {
      UnitStepsBound(h, i - 1);
    }
  }

  /** A unit step from the last entry (or from 0 on an empty history) keeps the history in unit steps. */
  lemma UnitStepsExtend(h: seq<int>, x: int)
    requires UnitSteps(h)
    requires x == Previous(h + [x], |h|) + 1 || x == Previous(h + [x], |h|) - 1
    ensures UnitSteps(h + [x])
  {
    var h' := h + [x];
    forall i | 0 <= i < |h'| ensures h'[i] == Previous(h', i) + 1 || h'[i] == Previous(h', i) - 1 {
      if i < |h| {
        assert h'[i] == h[i] && Previous(h', i) == Previous(h, i);
      }
    }
  }

  class GameModel {
    var score: int
    var scoreHistory: seq<int>
    var correctAnswer: string
    var allAnswers: seq<string>
    var lastChosen: Option<string>
    var currentClef: string
    var possibleClefs: seq<string>
    var questionPickMethod: string
    var observers: seq<object>
    /** Every observer callback made so far, in order. */
    ghost var notified: seq<object>

    /** The history ends with the current score; before any scoring it is empty and the score is 0. */
    ghost predicate Valid()
      reads this
    {
      && (scoreHistory == [] ==> score == 0)
      && (scoreHistory != [] ==> scoreHistory[|scoreHistory| - 1] == score)
      && questionPickMethod in {"random", "rl"}
    }

    /** A fresh game: score 0, empty history, no answer chosen, both clefs, random picking. */
    constructor ()
      ensures Valid()
      ensures score == 0 && scoreHistory == []
      ensures correctAnswer == "" && allAnswers == [] && lastChosen == None
      ensures currentClef == GClef && possibleClefs == [GClef, FClef] && questionPickMethod == "random"
      ensures observers == [] && notified == []
    {
      score := 0;
      scoreHistory := [];
      correctAnswer := "";
      allAnswers := [];
      lastChosen := None;
      currentClef := GClef;
      possibleClefs := [GClef, FClef];
      questionPickMethod := "random";
      observers := [];
      notified := [];
    }

    /** Calls every observer once, in the order they were added. */
    method NotifyObservers()
      modifies this`notified
      ensures notified == old(notified) + observers
    {
      var i := 0;
      while i < |observers|
        invariant 0 <= i <= |observers|
        invariant notified == old(notified) + observers[..i]
      {
        notified := notified + [observers[i]];
        i := i + 1;
      }
    }

    method AddObserver(observer: object)
      modifies this`observers
      ensures observers == old(observers) + [observer]
    {
      observers := observers + [observer];
    }

    /**
     * Removes the first occurrence of `observer`; an absent observer makes
     * `list.remove` raise before anything changes (`removed` is false).
     */
    method RemoveObserver(observer: object) returns (removed: bool)
      modifies this`observers
      ensures removed <==> observer in old(observers)
      ensures observers == RemoveFirst(old(observers), observer)
      ensures multiset(observers) == multiset(old(observers)) - multiset{observer}
    {
      removed := observer in observers;
      observers := RemoveFirst(observers, observer);
    }

    /** The score setter: stores the value, appends it to the history, notifies. */
    method SetScore(value: int)
      requires Valid()
      modifies this
      ensures Valid()
      ensures score == value && scoreHistory == old(scoreHistory) + [value]
      ensures notified == old(notified) + observers
      ensures correctAnswer == old(correctAnswer) && allAnswers == old(allAnswers) && lastChosen == old(lastChosen)
      ensures currentClef == old(currentClef) && possibleClefs == old(possibleClefs)
      ensures questionPickMethod == old(questionPickMethod) && observers == old(observers)
    {
      score := value;
      scoreHistory := scoreHistory + [value];
      NotifyObservers();
    }

    /** The last-choice setter: stores the choice and notifies. */
    method SetLastChosen(value: Option<string>)
      requires Valid()
      modifies this
      ensures Valid()
      ensures lastChosen == value
      ensures notified == old(notified) + observers
      ensures score == old(score) && scoreHistory == old(scoreHistory)
      ensures correctAnswer == old(correctAnswer) && allAnswers == old(allAnswers)
      ensures currentClef == old(currentClef) && possibleClefs == old(possibleClefs)
      ensures questionPickMethod == old(questionPickMethod) && observers == old(observers)
    {
      lastChosen := value;
      NotifyObservers();
    }

    /** The correct-answer setter: stores the target, without notifying. */
    method SetCorrectAnswer(value: string)
      modifies this`correctAnswer
      ensures correctAnswer == value
    {
      correctAnswer := value;
    }

    /** Chooses the clefs and the pick method; score, history and round are untouched. */
    method SetGameConfig(clefs: seq<string>, isRlPicked: bool)
      requires Valid()
      modifies this
      ensures Valid()
      ensures possibleClefs == clefs
      ensures questionPickMethod == if isRlPicked then "rl" else "random"
      ensures score == old(score) && scoreHistory == old(scoreHistory)
      ensures correctAnswer == old(correctAnswer) && allAnswers == old(allAnswers) && lastChosen == old(lastChosen)
      ensures currentClef == old(currentClef) && observers == old(observers) && notified == old(notified)
    {
      possibleClefs := clefs;
      questionPickMethod := if isRlPicked then "rl" else "random";
    }

    /** Adds one point through the score setter; a history of unit steps stays one. */
    method IncrementScore()
      requires Valid()
      modifies this
      ensures Valid()
      ensures score == old(score) + 1 && scoreHistory == old(scoreHistory) + [score]
      ensures UnitSteps(old(scoreHistory)) ==> UnitSteps(scoreHistory)
      ensures notified == old(notified) + observers
      ensures correctAnswer == old(correctAnswer) && allAnswers == old(allAnswers) && lastChosen == old(lastChosen)
      ensures currentClef == old(currentClef) && possibleClefs == old(possibleClefs)
      ensures questionPickMethod == old(questionPickMethod) && observers == old(observers)
    {
      if UnitSteps(scoreHistory) {
        UnitStepsExtend(scoreHistory, score + 1);
      }
      SetScore(score + 1);
    }

    /** Takes one point through the score setter; a history of unit steps stays one. */
    method DecrementScore()
      requires Valid()
      modifies this
      ensures Valid()
      ensures score == old(score) - 1 && scoreHistory == old(scoreHistory) + [score]
      ensures UnitSteps(old(scoreHistory)) ==> UnitSteps(scoreHistory)
      ensures notified == old(notified) + observers
      ensures correctAnswer == old(correctAnswer) && allAnswers == old(allAnswers) && lastChosen == old(lastChosen)
      ensures currentClef == old(currentClef) && possibleClefs == old(possibleClefs)
      ensures questionPickMethod == old(questionPickMethod) && observers == old(observers)
    {
      if UnitSteps(scoreHistory) {
        UnitStepsExtend(scoreHistory, score - 1);
      }
      SetScore(score - 1);
    }

    /**
     * Four distinct names of the current clef's full list (the active range
     * plays no part); None for a clef other than the two known ones, where
     * the source returns None.
     */
    method GetRandomNotes() returns (r: Option<seq<string>>)
      ensures currentClef == GClef ==> r.Some? && IsSampleOfFour(r.value, GClefNotes)
      ensures currentClef == FClef ==> r.Some? && IsSampleOfFour(r.value, FClefNotes)
      ensures currentClef != GClef && currentClef != FClef ==> r == None
    {
      if currentClef == GClef {
        assert IsSampleOfFour(GClefNotes[..4], GClefNotes);
        var s :| |s| == 4 && (forall p, q :: 0 <= p < q < |s| ==> s[p] != s[q]) && forall x :: x in s ==> x in GClefNotes;
        return Some(s);
      } else if currentClef == FClef {
        assert IsSampleOfFour(FClefNotes[..4], FClefNotes);
        var s :| |s| == 4 && (forall p, q :: 0 <= p < q < |s| ==> s[p] != s[q]) && forall x :: x in s ==> x in FClefNotes;
        return Some(s);
      }
      return None;
    }

    /** The last choice is the target (an absent choice never is). */
    function IsLastAnswerCorrect(): (b: bool)
      reads this
      ensures lastChosen.None? ==> !b
      ensures lastChosen.Some? ==> (b <==> lastChosen.value == correctAnswer)
    {
      lastChosen == Some(correctAnswer)
    }

    /**
     * Starts a round: a clef among the chosen ones, four distinct names of
     * that clef, a target among them, no choice yet; then notifies. The
     * clefs must be a non-empty list of known clefs (otherwise `choice` or
     * the sampling raises).
     */
    method InitializeRound()
      requires Valid()
      requires |possibleClefs| > 0 && forall c :: c in possibleClefs ==> c == GClef || c == FClef
      modifies this
      ensures Valid()
      ensures possibleClefs == old(possibleClefs) && questionPickMethod == old(questionPickMethod)
      ensures currentClef in possibleClefs
      ensures IsSampleOfFour(allAnswers, ClefNotes(currentClef))
      ensures correctAnswer in allAnswers
      ensures lastChosen == None
      ensures score == old(score) && scoreHistory == old(scoreHistory)
      ensures observers == old(observers) && notified == old(notified) + observers
    {
      DrawRound();
      NotifyObservers();
    }

    /** The drawing part of a round: clef, four names, target, cleared choice; no notification. */
    method DrawRound()
      requires |possibleClefs| > 0 && forall c :: c in possibleClefs ==> c == GClef || c == FClef
      modifies this`currentClef, this`allAnswers, this`correctAnswer, this`lastChosen
      ensures currentClef in possibleClefs
      ensures IsSampleOfFour(allAnswers, ClefNotes(currentClef))
      ensures correctAnswer in allAnswers
      ensures lastChosen == None
    {
      assert possibleClefs[0] in possibleClefs;
      var clef :| clef in possibleClefs;
      currentClef := clef;
      var answers := GetRandomNotes();
      assert answers.Some? && IsSampleOfFour(answers.value, ClefNotes(clef));
      allAnswers := answers.value;
      assert allAnswers[0] in allAnswers;
      var target :| target in allAnswers;
      correctAnswer := target;
      lastChosen := None;
    }

    /**
     * Records the choice (notifying), then adds a point if it is the target
     * and takes one otherwise (notifying again). An absent choice scores as
     * wrong. The round itself is left as it was.
     */
    method CheckAnswer(note: Option<string>)
      requires Valid()
      modifies this
      ensures Valid()
      ensures lastChosen == note
      ensures IsLastAnswerCorrect() <==> note == Some(correctAnswer)
      ensures score == old(score) + (if note == Some(old(correctAnswer)) then 1 else -1)
      ensures scoreHistory == old(scoreHistory) + [score]
      ensures UnitSteps(old(scoreHistory)) ==> UnitSteps(scoreHistory)
      ensures correctAnswer == old(correctAnswer) && allAnswers == old(allAnswers) && currentClef == old(currentClef)
      ensures possibleClefs == old(possibleClefs) && questionPickMethod == old(questionPickMethod)
      ensures observers == old(observers) && notified == old(notified) + observers + observers
    {
      SetLastChosen(note);
      if IsLastAnswerCorrect() {
        IncrementScore();
      } else {
        DecrementScore();
      }
    }

    /** The record written out at the end: history, pick method, clefs. */
    function DumpGameState(): (r: GameState)
      requires Valid()
      reads this
      ensures r.scoreHistory == [] ==> score == 0
      ensures r.scoreHistory != [] ==> r.scoreHistory[|r.scoreHistory| - 1] == score
      ensures r.questionPickMethod in {"random", "rl"}
      ensures r.scoreHistory == scoreHistory && r.questionPickMethod == questionPickMethod
      ensures r.clefs == possibleClefs
    {
      GameState(scoreHistory, questionPickMethod, possibleClefs)
    }
  }

  /**
   * A fresh game with one observer: an absent answer scores as wrong, the
   * right answer then brings the score back, and the history is [-1, 0]
   * (it does not start with the initial 0). Every step called the observer.
   */
  method ScenarioWrongThenRight(observer: object)
  {
    var g := new GameModel();
    g.AddObserver(observer);
    g.InitializeRound();
    g.CheckAnswer(None);
    assert g.score == -1 && g.scoreHistory == [-1] && !g.IsLastAnswerCorrect();
    g.CheckAnswer(Some(g.correctAnswer));
    assert g.score == 0 && g.scoreHistory == [-1, 0] && g.IsLastAnswerCorrect();
    assert g.notified == [observer, observer, observer, observer, observer];
  }
}
