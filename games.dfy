/**
 * Games (src/game.rs): a game holds its dictionary and the attempts made so
 * far, appended one by one. The merged verdict the attempts give each test of
 * a suite is the fold, over the attempts, of answer merging from Unknown.
 */
module Games {
  import opened Types
  import Dicts
  import Attempts
  import Answers
  import Tests

  /** The file's own copy of the feedback states, spelled in upper case. */
  datatype GameState = YES | MEH | NO

  /** The file's own error type, with the only error its `from_answer` raises. */
  datatype GameError = InvalidSize(expected: nat, found: nat, word: string)

  /** The file's own copy of an attempt. */
  datatype GameAttempt = GameAttempt(word: string, states: seq<GameState>)

  function ToGameState(s: State): GameState
  {
    match s
    case Yes => YES
    case Meh => MEH
    case No => NO
  }

  function FromGameState(s: GameState): State
  {
    match s
    case YES => State.Yes
    case MEH => State.Meh
    case NO => State.No
  }

  /** The two state types are the same three values under two spellings. */
  lemma GameStateRenaming(s: State, g: GameState)
    ensures FromGameState(ToGameState(s)) == s
    ensures ToGameState(FromGameState(g)) == g
  {
  }

  function ToGameStates(states: seq<State>): (r: seq<GameState>)
    ensures |r| == |states|
    ensures forall i :: 0 <= i < |states| ==> FromGameState(r[i]) == states[i]
  {
    seq(|states|, i requires 0 <= i < |states| => ToGameState(states[i]))
  }

  /**
   * The duplicate feedback derivation of game.rs. Its steps are those of
   * `Attempts.FromAnswer`, so it is written as that method with its error and
   * states renamed.
   */
  method FromAnswer(attempt: string, answer: string) returns (r: Result<GameAttempt, GameError>)
    ensures r.Err? <==> |attempt| != |answer|
    ensures r.Err? ==> r.error == GameError.InvalidSize(|answer|, |attempt|, attempt)
    ensures r.Ok? ==> r.value.word == attempt && |r.value.states| == |answer|
    ensures r.Ok? ==> forall i :: 0 <= i < |answer| ==>
      (r.value.states[i] == YES <==> attempt[i] == answer[i])
    ensures r.Ok? ==> forall i :: 0 <= i < |answer| ==>
      (r.value.states[i] == MEH <==>
        attempt[i] != answer[i] &&
        exists j :: 0 <= j < |answer| && attempt[j] != answer[j] && answer[j] == attempt[i])
    ensures r.Ok? ==> r.value.states == ToGameStates(Attempts.Feedback(attempt, answer))
  {
    var a := Attempts.FromAnswer(attempt, answer);
    match a
    case Err(e) =>
      r := Err(GameError.InvalidSize(e.expected, e.found, e.word));
    case Ok(v) =>
      r := Ok(GameAttempt(v.word, ToGameStates(v.states)));
  }

  predicate AllWellFormed(attempts: seq<Attempts.Attempt>)
  {
    forall i :: 0 <= i < |attempts| ==> Attempts.WellFormed(attempts[i])
  }

  /** The verdict of each attempt on `t`, in attempt order. */
  function Verdicts(attempts: seq<Attempts.Attempt>, t: Test): (vs: seq<Result<Answer, Error>>)
    requires AllWellFormed(attempts)
    ensures |vs| == |attempts|
    ensures forall i :: 0 <= i < |attempts| ==> vs[i] == Attempts.Answers(attempts[i], t)
  {
    seq(|attempts|, i requires 0 <= i < |attempts| => Attempts.Answers(attempts[i], t))
  }

  /**
   * Folds verdicts with answer merging, starting from Unknown; the first
   * error, a failed verdict or a conflict, stops the fold.
   */
  function Merge(vs: seq<Result<Answer, Error>>): Result<Answer, Error>
  {
    if vs == [] then Ok(Unknown)
    else
      var n := |vs| - 1;
      var acc :- Merge(vs[..n]);
      var v :- vs[n];
      Answers.Add(acc, v)
  }

  /**
   * Merged verdict of the attempts on test `t`: each attempt's verdict, in
   * attempt order, is merged into the running answer.
   */
  function KnownAnswer(attempts: seq<Attempts.Attempt>, t: Test): Result<Answer, Error>
    requires AllWellFormed(attempts)
  {
    Merge(Verdicts(attempts, t))
  }

  /** Every verdict is an answer rather than an error. */
  predicate AllOk(vs: seq<Result<Answer, Error>>)
  {
    forall i :: 0 <= i < |vs| ==> vs[i].Ok?
  }

  /** Some verdict is `v`. */
  predicate SomeVerdict(vs: seq<Result<Answer, Error>>, v: Answer)
  {
    exists i :: 0 <= i < |vs| && vs[i] == Ok(v)
  }

  /**
   * Merging is consensus, whatever the order of the verdicts: it fails exactly
   * when some verdict is an error or two verdicts contradict each other, and
   * otherwise it is the one decided verdict given, or Unknown when none is.
   */
  lemma {:induction false} MergeConsensus(vs: seq<Result<Answer, Error>>)
    ensures var r, yes, no := Merge(vs), SomeVerdict(vs, Answer.Yes), SomeVerdict(vs, Answer.No);
      (r.Ok? <==> AllOk(vs) && !(yes && no)) &&
      (r == Ok(Answer.Yes) <==> AllOk(vs) && yes && !no) &&
      (r == Ok(Answer.No) <==> AllOk(vs) && no && !yes) &&
      (r == Ok(Unknown) <==> AllOk(vs) && !yes && !no)
  {
    if vs != [] {
      var n := |vs| - 1;
      MergeConsensus(vs[..n]);
      assert vs == vs[..n] + [vs[n]];
      SnocVerdicts(vs[..n], vs[n]);
    }
  }

  /** Appending one verdict. */
  lemma SnocVerdicts(vs: seq<Result<Answer, Error>>, x: Result<Answer, Error>)
    ensures AllOk(vs + [x]) <==> AllOk(vs) && x.Ok?
    ensures forall v :: SomeVerdict(vs + [x], v) <==> SomeVerdict(vs, v) || x == Ok(v)
  {
    assert forall i :: 0 <= i < |vs| ==> (vs + [x])[i] == vs[i];
    assert (vs + [x])[|vs|] == x;
  }

  /**
   * The merged verdict of a game on a test, in terms of its attempts: it fails
   * exactly when some attempt cannot answer the test or two attempts give
   * opposite verdicts, and a decided merged verdict is some attempt's own.
   */
  lemma KnownAnswerConsensus(attempts: seq<Attempts.Attempt>, t: Test)
    requires AllWellFormed(attempts)
    ensures var yes, no :=
        (exists i :: 0 <= i < |attempts| && Attempts.Answers(attempts[i], t) == Ok(Answer.Yes)),
        (exists i :: 0 <= i < |attempts| && Attempts.Answers(attempts[i], t) == Ok(Answer.No));
      KnownAnswer(attempts, t).Ok? <==>
        (forall i :: 0 <= i < |attempts| ==> Attempts.Answers(attempts[i], t).Ok?) && !(yes && no)
    ensures KnownAnswer(attempts, t) == Ok(Unknown) <==>
      forall i :: 0 <= i < |attempts| ==> Attempts.Answers(attempts[i], t) == Ok(Unknown)
    ensures KnownAnswer(attempts, t).Ok? && KnownAnswer(attempts, t) != Ok(Unknown) ==>
      exists i :: 0 <= i < |attempts| && Attempts.Answers(attempts[i], t) == KnownAnswer(attempts, t)
  {
    var vs := Verdicts(attempts, t);
    MergeConsensus(vs);
  }

  /**
   * Attempts made against one hidden answer never contradict each other on a
   * position, at-most or affix test the answer's length admits, and their
   * merged verdict, once decided, is the test's truth on the answer. On an
   * at-least test only a merged No is sure to be true.
   */
  lemma KnownAnswerSound(attempts: seq<Attempts.Attempt>, answer: string, t: Test)
    requires forall i :: 0 <= i < |attempts| ==>
      |attempts[i].word| == |answer| && attempts[i].states == Attempts.Feedback(attempts[i].word, answer)
    ensures AllWellFormed(attempts)
    ensures !t.HasAtLeast? && !Attempts.OutOfRange(t, |answer|) ==> KnownAnswer(attempts, t).Ok?
    ensures !t.HasAtLeast? && KnownAnswer(attempts, t) == Ok(Answer.Yes) ==> Tests.Run(t, answer)
    ensures KnownAnswer(attempts, t) == Ok(Answer.No) ==> !Tests.Run(t, answer)
  {
    MergeConsensus(Verdicts(attempts, t));
    forall i, v | 0 <= i < |attempts| && Verdicts(attempts, t)[i] == Ok(v)
      ensures !t.HasAtLeast? && v == Answer.Yes ==> Tests.Run(t, answer)
      ensures v == Answer.No ==> !Tests.Run(t, answer)
    {
      assert attempts[i] == Attempts.Attempt(attempts[i].word, Attempts.Feedback(attempts[i].word, answer));
      Attempts.AnswersSound(attempts[i].word, answer, t);
    }
  }

  /**
   * With counted feedback, attempts against one hidden answer never contradict
   * each other on any test the answer's length admits, count tests included,
   * and every decided merged verdict is the test's truth on the answer.
   */
  lemma KnownAnswerCountedSound(attempts: seq<Attempts.Attempt>, answer: string, t: Test)
    requires forall i :: 0 <= i < |attempts| ==>
      |attempts[i].word| == |answer| &&
      attempts[i].states == Attempts.CountedFeedback(attempts[i].word, answer)
    ensures AllWellFormed(attempts)
    ensures !Attempts.OutOfRange(t, |answer|) ==> KnownAnswer(attempts, t).Ok?
    ensures KnownAnswer(attempts, t) == Ok(Answer.Yes) ==> Tests.Run(t, answer)
    ensures KnownAnswer(attempts, t) == Ok(Answer.No) ==> !Tests.Run(t, answer)
  {
    MergeConsensus(Verdicts(attempts, t));
    forall i, v | 0 <= i < |attempts| && Verdicts(attempts, t)[i] == Ok(v)
      ensures v == Answer.Yes ==> Tests.Run(t, answer)
      ensures v == Answer.No ==> !Tests.Run(t, answer)
    {
      assert attempts[i] == Attempts.Attempt(attempts[i].word, Attempts.CountedFeedback(attempts[i].word, answer));
      Attempts.CountedSound(attempts[i].word, answer, t);
    }
  }

  /** All the answers of `rs` in order, or the first error among them. */
  function Collect(rs: seq<Result<Answer, Error>>): (r: Result<seq<Answer>, Error>)
    ensures r.Ok? <==> AllOk(rs)
    ensures r.Ok? ==> |r.value| == |rs| && forall j :: 0 <= j < |rs| ==> rs[j] == Ok(r.value[j])
    ensures r.Err? ==> exists j :: 0 <= j < |rs| && rs[j] == Err(r.error) && AllOk(rs[..j])
  {
    if rs == [] then Ok([])
    else
      var n := |rs| - 1;
      SnocVerdicts(rs[..n], rs[n]);
      assert rs == rs[..n] + [rs[n]];
      var init :- Collect(rs[..n]);
      var last :- rs[n];
      Ok(init + [last])
  }

  /**
   * The merged verdicts of a whole suite, in suite order; the first test
   * whose fold fails gives the error.
   */
  function KnownAnswers(attempts: seq<Attempts.Attempt>, suite: seq<Test>): (r: Result<seq<Answer>, Error>)
    requires AllWellFormed(attempts)
    ensures r.Ok? <==> forall j :: 0 <= j < |suite| ==> KnownAnswer(attempts, suite[j]).Ok?
    ensures r.Ok? ==> |r.value| == |suite|
    ensures r.Ok? ==> forall j :: 0 <= j < |suite| ==> Ok(r.value[j]) == KnownAnswer(attempts, suite[j])
  {
    var rs := seq(|suite|, j requires 0 <= j < |suite| => KnownAnswer(attempts, suite[j]));
    assert forall j :: 0 <= j < |suite| ==> rs[j] == KnownAnswer(attempts, suite[j]);
    Collect(rs)
  }

  /** A game without attempts knows nothing. */
  lemma KnownAnswersNoAttempts(suite: seq<Test>)
    ensures KnownAnswers([], suite) == Ok(seq(|suite|, _ => Unknown))
  {
    var r := KnownAnswers([], suite);
    assert r.Ok?;
    assert r.value == seq(|suite|, _ => Unknown);
  }

  /** The test suite of the repository's game tests. */
  function FixtureSuite(): seq<Test>
  {
    [At('B', 1), HasPrefix("AB"), HasSuffix("TI"), At('D', 4), HasAtLeast('L', 1)]
  }

  /** Feedback of the three guesses of the game tests against ABONDE. */
  lemma FixtureFeedback()
    ensures Attempts.Feedback("ABOUTI", "ABONDE") ==
      [State.Yes, State.Yes, State.Yes, State.No, State.No, State.No]
    ensures Attempts.Feedback("ABSOLU", "ABONDE") ==
      [State.Yes, State.Yes, State.No, State.Meh, State.No, State.No]
    ensures Attempts.Feedback("ABONDE", "ABONDE") ==
      [State.Yes, State.Yes, State.Yes, State.Yes, State.Yes, State.Yes]
  {
    var a := "ABONDE";
    assert forall j :: 0 <= j < 6 ==> a[j] != 'U' && a[j] != 'T' && a[j] != 'I' && a[j] != 'S' && a[j] != 'L';
    assert 'O' in Attempts.UnmatchedLetters("ABSOLU", a) by {
      assert "ABSOLU"[2] != a[2] && a[2] == 'O';
    }
    Attempts.FeedbackSelf(a);
  }

  /**
   * Adding an attempt merges its verdict into the verdict the earlier
   * attempts had reached, so the game's knowledge grows attempt by attempt.
   */
  lemma KnownAnswerAppend(attempts: seq<Attempts.Attempt>, a: Attempts.Attempt, t: Test)
    requires AllWellFormed(attempts) && Attempts.WellFormed(a)
    ensures AllWellFormed(attempts + [a])
    ensures var prev, v := KnownAnswer(attempts, t), Attempts.Answers(a, t);
      KnownAnswer(attempts + [a], t) ==
        if prev.Err? then prev
        else if v.Err? then Err(v.error)
        else Answers.Add(prev.value, v.value)
  {
    var all := attempts + [a];
    assert forall i :: 0 <= i < |attempts| ==> all[i] == attempts[i];
    var vs := Verdicts(all, t);
    assert vs[..|attempts|] == Verdicts(attempts, t);
  }

  /** A verdict row: the verdict attempt `a` gives each test of `suite`. */
  function Row(a: Attempts.Attempt, suite: seq<Test>): seq<Result<Answer, Error>>
    requires Attempts.WellFormed(a)
  {
    seq(|suite|, j requires 0 <= j < |suite| => Attempts.Answers(a, suite[j]))
  }

  function Oks(answers: seq<Answer>): seq<Result<Answer, Error>>
  {
    seq(|answers|, j requires 0 <= j < |answers| => Ok(answers[j]))
  }

  /** The three attempts of the game tests, with their feedback against ABONDE written out. */
  function Abouti(): Attempts.Attempt
  {
    Attempts.Attempt("ABOUTI", [State.Yes, State.Yes, State.Yes, State.No, State.No, State.No])
  }

  function Absolu(): Attempts.Attempt
  {
    Attempts.Attempt("ABSOLU", [State.Yes, State.Yes, State.No, State.Meh, State.No, State.No])
  }

  function Abonde(): Attempts.Attempt
  {
    Attempts.Attempt("ABONDE", [State.Yes, State.Yes, State.Yes, State.Yes, State.Yes, State.Yes])
  }

  /** A row of five verdicts, each known to be an answer. */
  lemma RowOfFive(a: Attempts.Attempt, suite: seq<Test>, x0: Answer, x1: Answer, x2: Answer, x3: Answer, x4: Answer)
    requires Attempts.WellFormed(a) && |suite| == 5
    requires Attempts.Answers(a, suite[0]) == Ok(x0) && Attempts.Answers(a, suite[1]) == Ok(x1)
    requires Attempts.Answers(a, suite[2]) == Ok(x2) && Attempts.Answers(a, suite[3]) == Ok(x3)
    requires Attempts.Answers(a, suite[4]) == Ok(x4)
    ensures Row(a, suite) == Oks([x0, x1, x2, x3, x4])
  {
  }

  /** Verdicts of ABOUTI, placed on its first three letters only. */
  lemma AboutiAffixes()
    ensures Attempts.Answers(Abouti(), HasPrefix("AB")) == Ok(Answer.Yes)
    ensures Attempts.Answers(Abouti(), HasSuffix("TI")) == Ok(Answer.No)
  {
    var nn := [State.No, State.No];
    assert "ABOUTI"[..2] == "AB" && "ABOUTI"[4..] == "TI";
    assert Attempts.AffixAnswer("TI", "TI", nn) == Answer.No by {
      assert "TI"[0] == "TI"[0] && nn[0] != State.Yes;
    }
  }

  lemma AboutiLetters()
    ensures Attempts.Answers(Abouti(), At('B', 1)) == Ok(Answer.Yes)
    ensures Attempts.Answers(Abouti(), At('D', 4)) == Ok(Unknown)
    ensures Attempts.Answers(Abouti(), HasAtLeast('L', 1)) == Ok(Unknown)
  {
    assert Tests.Occurrences("ABOUTI", 'L') == 0;
  }

  lemma RowAbouti()
    ensures Row(Abouti(), FixtureSuite()) == Oks([Answer.Yes, Answer.Yes, Answer.No, Unknown, Unknown])
  {
    AboutiAffixes();
    AboutiLetters();
    RowOfFive(Abouti(), FixtureSuite(), Answer.Yes, Answer.Yes, Answer.No, Unknown, Unknown);
  }

  /** Verdicts of ABSOLU, whose L is ruled out. */
  lemma AbsoluAffixes()
    ensures Attempts.Answers(Absolu(), HasPrefix("AB")) == Ok(Answer.Yes)
    ensures Attempts.Answers(Absolu(), HasSuffix("TI")) == Ok(Unknown)
  {
    var nn := [State.No, State.No];
    assert "ABSOLU"[..2] == "AB" && "ABSOLU"[4..] == "LU";
    assert Attempts.AffixAnswer("TI", "LU", nn) == Unknown by {
      assert "TI"[0] != "LU"[0] && "TI"[1] != "LU"[1];
    }
  }

  lemma AbsoluLetters()
    ensures Attempts.Answers(Absolu(), At('B', 1)) == Ok(Answer.Yes)
    ensures Attempts.Answers(Absolu(), At('D', 4)) == Ok(Unknown)
    ensures Attempts.Answers(Absolu(), HasAtLeast('L', 1)) == Ok(Answer.No)
  {
    assert Tests.Occurrences("ABSOLU", 'L') == 1;
  }

  lemma RowAbsolu()
    ensures Row(Absolu(), FixtureSuite()) == Oks([Answer.Yes, Answer.Yes, Unknown, Unknown, Answer.No])
  {
    AbsoluAffixes();
    AbsoluLetters();
    RowOfFive(Absolu(), FixtureSuite(), Answer.Yes, Answer.Yes, Unknown, Unknown, Answer.No);
  }

  /** Verdicts of the answer itself. */
  lemma AbondeAffixes()
    ensures Attempts.Answers(Abonde(), HasPrefix("AB")) == Ok(Answer.Yes)
    ensures Attempts.Answers(Abonde(), HasSuffix("TI")) == Ok(Answer.No)
  {
    var yy := [State.Yes, State.Yes];
    assert "ABONDE"[..2] == "AB" && "ABONDE"[4..] == "DE";
    assert Attempts.AffixAnswer("TI", "DE", yy) == Answer.No by {
      assert "TI"[0] != "DE"[0] && yy[0] == State.Yes;
    }
  }

  lemma AbondeLetters()
    ensures Attempts.Answers(Abonde(), At('B', 1)) == Ok(Answer.Yes)
    ensures Attempts.Answers(Abonde(), At('D', 4)) == Ok(Answer.Yes)
    ensures Attempts.Answers(Abonde(), HasAtLeast('L', 1)) == Ok(Unknown)
  {
    assert Tests.Occurrences("ABONDE", 'L') == 0;
  }

  lemma RowAbonde()
    ensures Row(Abonde(), FixtureSuite()) == Oks([Answer.Yes, Answer.Yes, Answer.No, Answer.Yes, Unknown])
  {
    AbondeAffixes();
    AbondeLetters();
    RowOfFive(Abonde(), FixtureSuite(), Answer.Yes, Answer.Yes, Answer.No, Answer.Yes, Unknown);
  }

  /** The attempts of the game tests, in playing order, against the hidden answer ABONDE. */
  function FixtureAttempts(): seq<Attempts.Attempt>
  {
    [Attempts.Attempt("ABOUTI", Attempts.Feedback("ABOUTI", "ABONDE")),
     Attempts.Attempt("ABSOLU", Attempts.Feedback("ABSOLU", "ABONDE")),
     Attempts.Attempt("ABONDE", Attempts.Feedback("ABONDE", "ABONDE"))]
  }

  /** One more attempt's row merged into a game whose merged verdicts were `prev`. */
  lemma KnownAnswersStep(attempts: seq<Attempts.Attempt>, a: Attempts.Attempt, suite: seq<Test>,
                         prev: seq<Answer>, row: seq<Answer>, next: seq<Answer>)
    requires AllWellFormed(attempts) && Attempts.WellFormed(a)
    requires KnownAnswers(attempts, suite) == Ok(prev)
    requires |next| == |suite| == |row|
    requires Row(a, suite) == Oks(row)
    requires forall j :: 0 <= j < |suite| ==> Answers.Add(prev[j], row[j]) == Ok(next[j])
    ensures AllWellFormed(attempts + [a])
    ensures KnownAnswers(attempts + [a], suite) == Ok(next)
  {
    forall j | 0 <= j < |suite| ensures KnownAnswer(attempts + [a], suite[j]) == Ok(next[j]) {
      assert Row(a, suite)[j] == Attempts.Answers(a, suite[j]) && Oks(row)[j] == Ok(row[j]);
      KnownAnswerAppend(attempts, a, suite[j]);
    }
    assert KnownAnswers(attempts + [a], suite).value == next;
  }

  // The stages below take the suite as a parameter equal to the fixture, and the last
  // one is split off into AbondeStep, so that each proof obligation stays small.

  /** After ABOUTI: the attempt decides the B, the AB prefix and the TI suffix. */
  lemma KnownAnswersAfterAbouti(suite: seq<Test>)
    requires suite == FixtureSuite()
    ensures KnownAnswers([Abouti()], suite) == Ok([Answer.Yes, Answer.Yes, Answer.No, Unknown, Unknown])
  {
    RowAbouti();
    var e0 := [Unknown, Unknown, Unknown, Unknown, Unknown];
    KnownAnswersNoAttempts(suite);
    assert seq(|suite|, _ => Unknown) == e0;
    var r := [Answer.Yes, Answer.Yes, Answer.No, Unknown, Unknown];
    assert [] + [Abouti()] == [Abouti()];
    KnownAnswersStep([], Abouti(), suite, e0, r, r);
  }

  /** After ABSOLU as well: its ruled-out L decides that the answer has no L. */
  lemma KnownAnswersAfterAbsolu(suite: seq<Test>)
    requires suite == FixtureSuite()
    ensures KnownAnswers([Abouti(), Absolu()], suite) == Ok([Answer.Yes, Answer.Yes, Answer.No, Unknown, Answer.No])
  {
    var r := [Answer.Yes, Answer.Yes, Unknown, Unknown, Answer.No];
    RowAbsolu();
    KnownAnswersAfterAbouti(suite);
    assert [Abouti()] + [Absolu()] == [Abouti(), Absolu()];
    KnownAnswersStep([Abouti()], Absolu(), suite,
      [Answer.Yes, Answer.Yes, Answer.No, Unknown, Unknown], r,
      [Answer.Yes, Answer.Yes, Answer.No, Unknown, Answer.No]);
  }

  /** After ABONDE as well: the answer itself decides the D. */
  lemma KnownAnswersAfterAbonde(suite: seq<Test>)
    requires suite == FixtureSuite()
    ensures KnownAnswers([Abouti(), Absolu(), Abonde()], suite) ==
      Ok([Answer.Yes, Answer.Yes, Answer.No, Answer.Yes, Answer.No])
  {
    RowAbonde();
    KnownAnswersAfterAbsolu(suite);
    AbondeStep(suite);
  }

  lemma AbondeStep(suite: seq<Test>)
    requires Row(Abonde(), suite) == Oks([Answer.Yes, Answer.Yes, Answer.No, Answer.Yes, Unknown])
    requires KnownAnswers([Abouti(), Absolu()], suite) == Ok([Answer.Yes, Answer.Yes, Answer.No, Unknown, Answer.No])
    requires |suite| == 5
    ensures KnownAnswers([Abouti(), Absolu(), Abonde()], suite) ==
      Ok([Answer.Yes, Answer.Yes, Answer.No, Answer.Yes, Answer.No])
  {
    assert [Abouti(), Absolu()] + [Abonde()] == [Abouti(), Absolu(), Abonde()];
    KnownAnswersStep([Abouti(), Absolu()], Abonde(), suite,
      [Answer.Yes, Answer.Yes, Answer.No, Unknown, Answer.No],
      [Answer.Yes, Answer.Yes, Answer.No, Answer.Yes, Unknown],
      [Answer.Yes, Answer.Yes, Answer.No, Answer.Yes, Answer.No]);
  }

  /**
   * The worked example of the game tests: the game's attempts are the
   * feedback of ABOUTI, ABSOLU and ABONDE against ABONDE.
   */
  lemma FixtureAttemptsFeedback()
    ensures FixtureAttempts() == [Abouti(), Absolu(), Abonde()]
  {
    FixtureFeedback();
  }

  /** The game's attempts each carry one state per letter. */
  lemma FixtureWellFormed()
    ensures AllWellFormed(FixtureAttempts())
  {
    FixtureAttemptsFeedback();
  }

  /** The whole worked example: the three attempts together decide four of the five tests. */
  lemma FixtureKnownAnswers()
    ensures AllWellFormed(FixtureAttempts())
    ensures KnownAnswers(FixtureAttempts(), FixtureSuite()) ==
      Ok([Answer.Yes, Answer.Yes, Answer.No, Answer.Yes, Answer.No])
  {
    FixtureWellFormed();
    FixtureAttemptsFeedback();
    KnownAnswersAfterAbonde(FixtureSuite());
  }

  /** A game over a dictionary: the attempts grow by appending only. */
  class Game {
    const dict: Dicts.Dict
    var attempts: seq<Attempts.Attempt>

    constructor (dict: Dicts.Dict)
      ensures this.dict == dict && attempts == []
    {
      this.dict := dict;
      attempts := [];
    }

    method Add(attempt: Attempts.Attempt)
      modifies this
      ensures attempts == old(attempts) + [attempt]
    {
      attempts := attempts + [attempt];
    }

    method GetDict() returns (d: Dicts.Dict)
      ensures d == dict
    {
      d := dict;
    }

    method GetAttempts() returns (a: seq<Attempts.Attempt>)
      ensures a == attempts
    {
      a := attempts;
    }

    /** The merged verdicts of the attempts so far on `suite`. */
    method KnownAnswersOf(suite: seq<Test>) returns (r: Result<seq<Answer>, Error>)
      requires AllWellFormed(attempts)
      ensures r == KnownAnswers(attempts, suite)
    {
      r := KnownAnswers(attempts, suite);
    }
  }

  /** Derives the feedback of `guess` against `answer`, known beforehand to be `expected`. */
  method DeriveAttempt(guess: string, answer: string, expected: Attempts.Attempt) returns (a: Attempts.Attempt)
    requires |guess| == |answer|
    requires expected == Attempts.Attempt(guess, Attempts.Feedback(guess, answer))
    ensures a == expected
  {
    var r := Attempts.FromAnswer(guess, answer);
    a := r.value;
  }

  /**
   * The known-answers scenario of the game tests: attempts derived against
   * ABONDE are added one by one, and the merged verdicts are read after each.
   */
  method KnownAnswersScenario(dict: Dicts.Dict)
    returns (r0: Result<seq<Answer>, Error>, r1: Result<seq<Answer>, Error>,
             r2: Result<seq<Answer>, Error>, r3: Result<seq<Answer>, Error>)
    ensures r0 == Ok([Unknown, Unknown, Unknown, Unknown, Unknown])
    ensures r1 == Ok([Answer.Yes, Answer.Yes, Answer.No, Unknown, Unknown])
    ensures r2 == Ok([Answer.Yes, Answer.Yes, Answer.No, Unknown, Answer.No])
    ensures r3 == Ok([Answer.Yes, Answer.Yes, Answer.No, Answer.Yes, Answer.No])
  {
    var suite := FixtureSuite();
    FixtureFeedback();
    var game := new Game(dict);
    KnownAnswersNoAttempts(suite);
    assert seq(|suite|, _ => Unknown) == [Unknown, Unknown, Unknown, Unknown, Unknown];
    r0 := game.KnownAnswersOf(suite);
    var a1 := DeriveAttempt("ABOUTI", "ABONDE", Abouti());
    game.Add(a1);
    assert game.attempts == [Abouti()];
    KnownAnswersAfterAbouti(suite);
    r1 := game.KnownAnswersOf(suite);
    var a2 := DeriveAttempt("ABSOLU", "ABONDE", Absolu());
    game.Add(a2);
    assert game.attempts == [Abouti(), Absolu()];
    KnownAnswersAfterAbsolu(suite);
    r2 := game.KnownAnswersOf(suite);
    var a3 := DeriveAttempt("ABONDE", "ABONDE", Abonde());
    game.Add(a3);
    assert game.attempts == [Abouti(), Absolu(), Abonde()];
    KnownAnswersAfterAbonde(suite);
    r3 := game.KnownAnswersOf(suite);
  }
}
