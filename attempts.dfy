/**
 * Attempts (src/attempt.rs): the feedback a guess receives against the
 * hidden answer, and the verdict one attempt gives each kind of test using
 * only the guess and its feedback.
 */
module Attempts {
  import opened Types
  import Tests

  /** A guessed word and the feedback state of each of its characters. */
  datatype Attempt = Attempt(word: string, states: seq<State>)

  /** One state per character, as every attempt built by `FromAnswer` has. */
  predicate WellFormed(a: Attempt)
  {
    |a.states| == |a.word|
  }

  /** Letters of the answer at the positions the guess does not match. */
  function UnmatchedLetters(guess: string, answer: string): set<char>
    requires |guess| == |answer|
  {
    set j | 0 <= j < |answer| && guess[j] != answer[j] :: answer[j]
  }

  /**
   * The feedback `FromAnswer` computes: Yes where the letters agree, Meh where
   * the guessed letter is among the answer's unmatched letters, No elsewhere.
   * The source never checks that the decremented counter is still positive,
   * so a repeated letter is marked Meh as often as it is guessed.
   */
  function Feedback(guess: string, answer: string): seq<State>
    requires |guess| == |answer|
  {
    seq(|answer|, i requires 0 <= i < |answer| =>
      if guess[i] == answer[i] then State.Yes
      else if guess[i] in UnmatchedLetters(guess, answer) then State.Meh
      else State.No)
  }

  /**
   * Feedback derivation in two passes: mark the matching positions, count the
   * answer's unmatched letters, then mark Meh every other position whose letter
   * has an entry in the count map, decrementing that entry.
   */
  method FromAnswer(attempt: string, answer: string) returns (r: Result<Attempt, Error>)
    ensures r.Err? <==> |attempt| != |answer|
    ensures r.Err? ==> r.error == InvalidSize(|answer|, |attempt|, attempt)
    ensures r.Ok? ==> r.value.word == attempt && r.value.states == Feedback(attempt, answer)
    ensures r.Ok? ==> |r.value.states| == |answer|
    ensures r.Ok? ==> forall i :: 0 <= i < |answer| ==>
      (r.value.states[i] == State.Yes <==> attempt[i] == answer[i])
    ensures r.Ok? ==> forall i :: 0 <= i < |answer| ==>
      (r.value.states[i] == State.Meh <==>
        attempt[i] != answer[i] &&
        exists j :: 0 <= j < |answer| && attempt[j] != answer[j] && answer[j] == attempt[i])
  {
    var size := |answer|;
    if |attempt| != size {
      return Err(InvalidSize(size, |attempt|, attempt));
    }
    var states := new State[size](_ => State.No);

    for i := 0 to size
      invariant forall k :: 0 <= k < size ==>
        states[k] == if k < i && answer[k] == attempt[k] then State.Yes else State.No
    {
      if answer[i] == attempt[i] {
        states[i] := State.Yes;
      }
    }

    // Count not-identified characters
    var acc: map<char, int> := map[];
    for i := 0 to size
      invariant acc.Keys == set j | 0 <= j < i && attempt[j] != answer[j] :: answer[j]
    {
      if states[i] != State.Yes {
        var c := answer[i];
        acc := acc[c := (if c in acc then acc[c] else 0) + 1];
      }
    }

    // Mark Meh the incorrect characters that have a counter
    ghost var expected := Feedback(attempt, answer);
    for i := 0 to size
      invariant acc.Keys == UnmatchedLetters(attempt, answer)
      invariant forall k :: 0 <= k < i ==> states[k] == expected[k]
      invariant forall k :: i <= k < size ==>
        states[k] == if answer[k] == attempt[k] then State.Yes else State.No
    {
      if states[i] != State.Yes {
        var c := attempt[i];
        if c in acc {
          states[i] := State.Meh;
          acc := acc[c := acc[c] - 1];
        }
      }
    }
    r := Ok(Attempt(attempt, states[..]));
  }

  /** Number of positions holding `l` whose state is not No. */
  function ValidOccurrences(word: string, states: seq<State>, l: char): nat
    requires |states| == |word|
  {
    ValidFrom(word, states, l, 0)
  }

  /** Number of positions from `i` on holding `l` whose state is not No. */
  function ValidFrom(word: string, states: seq<State>, l: char, i: nat): nat
    requires |states| == |word| && i <= |word|
    decreases |word| - i
  {
    if i == |word| then 0
    else (if word[i] == l && states[i] != State.No then 1 else 0) + ValidFrom(word, states, l, i + 1)
  }

  /** Number of positions from `i` on holding `l` whose state is No. */
  function RuledOutFrom(word: string, states: seq<State>, l: char, i: nat): nat
    requires |states| == |word| && i <= |word|
    decreases |word| - i
  {
    if i == |word| then 0
    else (if word[i] == l && states[i] == State.No then 1 else 0) + RuledOutFrom(word, states, l, i + 1)
  }

  /** Every occurrence of `l` from `i` on is either ruled out or not. */
  lemma {:induction false} SplitFrom(word: string, states: seq<State>, l: char, i: nat)
    requires |states| == |word| && i <= |word|
    ensures Tests.Occurrences(word[i..], l) == ValidFrom(word, states, l, i) + RuledOutFrom(word, states, l, i)
    ensures RuledOutFrom(word, states, l, i) == 0 <==>
      forall k :: i <= k < |word| && word[k] == l ==> states[k] != State.No
    decreases |word| - i
  {
    if i < |word| {
      SplitFrom(word, states, l, i + 1);
      assert word[i..] == [word[i]] + word[i + 1..];
      assert multiset(word[i..]) == multiset{word[i]} + multiset(word[i + 1..]);
    }
  }

  /** Every occurrence of `l` is either ruled out or not. */
  lemma OccurrencesSplit(word: string, states: seq<State>, l: char)
    requires |states| == |word|
    ensures Tests.Occurrences(word, l) == ValidOccurrences(word, states, l) + RuledOutFrom(word, states, l, 0)
    ensures RuledOutFrom(word, states, l, 0) == 0 <==>
      forall i :: 0 <= i < |word| && word[i] == l ==> states[i] != State.No
  {
    SplitFrom(word, states, l, 0);
    assert word[0..] == word;
  }

  /** Whether test `t` reaches beyond a word of length `n`. */
  predicate OutOfRange(t: Test, n: nat)
  {
    match t
    case At(_, p) => p >= n
    case HasAtLeast(_, _) => false
    case HasAtMost(_, _) => false
    case HasPrefix(p) => |p| > n
    case HasSuffix(s) => |s| > n
  }

  /**
   * Verdict of an affix test over the aligned letters and states: Yes when
   * every letter matches and is placed, No when some placed letter differs or
   * some matching letter is not placed, Unknown otherwise.
   */
  function AffixAnswer(affix: string, letters: string, states: seq<State>): (r: Answer)
    requires |letters| == |affix| && |states| == |affix|
    ensures r == Answer.Yes <==> letters == affix && forall i :: 0 <= i < |affix| ==> states[i] == State.Yes
    ensures r == Answer.No <==>
      (r != Answer.Yes && exists i :: 0 <= i < |affix| && (states[i] == State.Yes) != (letters[i] == affix[i]))
  {
    if forall i :: 0 <= i < |affix| ==> affix[i] == letters[i] && states[i] == State.Yes then
      Answer.Yes
    else if exists i :: (0 <= i < |affix| &&
        ((affix[i] != letters[i] && states[i] == State.Yes) || (affix[i] == letters[i] && states[i] != State.Yes))) then
      Answer.No
    else
      Unknown
  }

  /** The verdict attempt `a` gives test `t`. */
  function Answers(a: Attempt, t: Test): (r: Result<Answer, Error>)
    requires WellFormed(a)
    ensures r.Err? <==> OutOfRange(t, |a.word|)
    ensures r.Err? ==> r.error == UnexpectedTest(t, a.word)
    ensures t.HasAtMost? ==>
      (r == Ok(Unknown) <==> forall i :: 0 <= i < |a.word| && a.word[i] == t.letter ==> a.states[i] != State.No)
  {
    var word, states := a.word, a.states;
    match t
    case At(tl, tp) =>
      if tp >= |word| then Err(UnexpectedTest(t, word))
      else if states[tp] == State.Yes then
        if tl == word[tp] then Ok(Answer.Yes) else Ok(Answer.No)
      else
        if tl == word[tp] then Ok(Answer.No) else Ok(Unknown)
    case HasAtMost(tl, tc) =>
      var occurrences := Tests.Occurrences(word, tl);
      var valid := ValidOccurrences(word, states, tl);
      OccurrencesSplit(word, states, tl);
      if occurrences == valid then Ok(Unknown)
      else if valid <= tc as int then Ok(Answer.Yes)
      else Ok(Answer.No)
    case HasAtLeast(tl, tc) =>
      if Tests.Occurrences(word, tl) < tc as int then Ok(Unknown)
      else if ValidOccurrences(word, states, tl) >= tc as int then Ok(Answer.Yes)
      else Ok(Answer.No)
    case HasPrefix(prefix) =>
      if |prefix| > |word| then Err(UnexpectedTest(t, word))
      else Ok(AffixAnswer(prefix, word[..|prefix|], states[..|prefix|]))
    case HasSuffix(suffix) =>
      if |suffix| > |word| then Err(UnexpectedTest(t, word))
      else
        var start := |word| - |suffix|;
        Ok(AffixAnswer(suffix, word[start..], states[start..]))
  }

  /**
   * What a decided or undecided verdict says about the attempt itself: a
   * position is confirmed only by a placed letter and left open only by an
   * unplaced different letter, an at-least test is open exactly when the guess
   * lacks the copies, and an affix is confirmed only by placed letters
   * spelling it.
   */
  lemma AnswersMeaning(a: Attempt, t: Test)
    requires WellFormed(a)
    ensures var r := Answers(a, t);
      t.At? && r == Ok(Answer.Yes) ==> a.states[t.position] == State.Yes && a.word[t.position] == t.letter
    ensures var r := Answers(a, t);
      t.At? && t.position < |a.word| ==>
        (r == Ok(Unknown) <==> a.states[t.position] != State.Yes && a.word[t.position] != t.letter)
    ensures var r := Answers(a, t);
      t.HasAtLeast? ==> (r == Ok(Unknown) <==> Tests.Occurrences(a.word, t.letter) < t.count as int)
    ensures var r := Answers(a, t);
      t.HasPrefix? && r == Ok(Answer.Yes) ==>
        a.word[..|t.prefix|] == t.prefix && forall i :: 0 <= i < |t.prefix| ==> a.states[i] == State.Yes
    ensures var r := Answers(a, t);
      t.HasSuffix? && r == Ok(Answer.Yes) ==>
        a.word[|a.word| - |t.suffix|..] == t.suffix &&
        forall i :: |a.word| - |t.suffix| <= i < |a.word| ==> a.states[i] == State.Yes
  {
    match t
    case HasSuffix(sfx) =>
      if Answers(a, t) == Ok(Answer.Yes) {
        var start := |a.word| - |sfx|;
        assert forall i :: start <= i < |a.word| ==> a.states[i] == a.states[start..][i - start];
      }
    case _ =>
  }

  /** Guessing the answer itself yields Yes at every position. */
  lemma FeedbackSelf(w: string)
    ensures Feedback(w, w) == seq(|w|, _ => State.Yes)
  {
  }

  /**
   * An attempt that guessed the answer decides every position and affix
   * test in range: Yes exactly when the test holds of the answer.
   */
  lemma {:induction false} AnswersSelf(w: string, t: Test)
    requires t.At? || t.HasPrefix? || t.HasSuffix?
    requires !OutOfRange(t, |w|)
    ensures Answers(Attempt(w, Feedback(w, w)), t) == Ok(if Tests.Run(t, w) then Answer.Yes else Answer.No)
  {
    FeedbackSelf(w);
    var states := Feedback(w, w);
    match t
    case At(_, _) =>
    case HasPrefix(p) =>
      if Tests.Run(t, w) {
        assert forall i :: 0 <= i < |p| ==> p[i] == w[..|p|][i] && states[..|p|][i] == State.Yes;
      } else {
        var i :| 0 <= i < |p| && w[i] != p[i];
        assert p[i] != w[..|p|][i] && states[..|p|][i] == State.Yes;
      }
    case HasSuffix(s) =>
      var start := |w| - |s|;
      if Tests.Run(t, w) {
        assert forall i :: 0 <= i < |s| ==> s[i] == w[start..][i] && states[start..][i] == State.Yes;
      } else {
        var i :| 0 <= i < |s| && w[start + i] != s[i];
        assert s[i] != w[start..][i] && states[start..][i] == State.Yes;
      }
  }

  /** Round trip: an attempt derived from the answer itself says Yes to each of its own letters at its own position. */
  lemma AnswersSelfAt(w: string, i: nat)
    requires i < |w|
    ensures Answers(Attempt(w, Feedback(w, w)), At(w[i], i)) == Ok(Answer.Yes)
  {
    AnswersSelf(w, At(w[i], i));
  }

  /**
   * Verdicts of an attempt derived from a hidden answer: every No is true of
   * the answer, and every Yes is too except on an at-least test, where the
   * unbounded Meh marking can claim copies the answer lacks.
   */
  lemma AnswersSound(guess: string, answer: string, t: Test)
    requires |guess| == |answer|
    ensures var r := Answers(Attempt(guess, Feedback(guess, answer)), t);
      r == Ok(Answer.No) ==> !Tests.Run(t, answer)
    ensures var r := Answers(Attempt(guess, Feedback(guess, answer)), t);
      !t.HasAtLeast? && r == Ok(Answer.Yes) ==> Tests.Run(t, answer)
  {
    var states := Feedback(guess, answer);
    match t
    case At(_, _) =>
    case HasAtMost(_, _) =>
      CountsAsWritten(guess, answer, t);
    case HasAtLeast(_, _) =>
      CountsAsWritten(guess, answer, t);
    case HasPrefix(p) =>
      if |p| <= |guess| {
        AffixSound(p, guess[..|p|], answer[..|p|], states[..|p|]);
      }
    case HasSuffix(s) =>
      if |s| <= |guess| {
        var start := |guess| - |s|;
        AffixSound(s, guess[start..], answer[start..], states[start..]);
      }
  }

  /**
   * Count verdicts of as-written feedback: an at-most verdict, once decided,
   * is the truth, and an at-least verdict of No is the truth.
   */
  lemma CountsAsWritten(guess: string, answer: string, t: Test)
    requires |guess| == |answer|
    requires t.HasAtMost? || t.HasAtLeast?
    ensures var r := Answers(Attempt(guess, Feedback(guess, answer)), t);
      (t.HasAtMost? && r == Ok(Answer.Yes) ==> Tests.Run(t, answer)) && (r == Ok(Answer.No) ==> !Tests.Run(t, answer))
  {
    var l, states := t.letter, Feedback(guess, answer);
    if l in UnmatchedLetters(guess, answer) {
      assert forall k :: 0 <= k < |guess| && guess[k] == l ==> states[k] != State.No;
      OccurrencesSplit(guess, states, l);
    } else {
      ValidFromFeedback(guess, answer, l, 0);
      assert answer[0..] == answer;
    }
  }

  /**
   * When the answer holds `l` at no unmatched position, as-written feedback
   * leaves exactly the answer's copies of `l` (from `i` on) not marked No.
   */
  lemma {:induction false} ValidFromFeedback(guess: string, answer: string, l: char, i: nat)
    requires |guess| == |answer| && i <= |answer|
    requires l !in UnmatchedLetters(guess, answer)
    ensures ValidFrom(guess, Feedback(guess, answer), l, i) == Tests.Occurrences(answer[i..], l)
    decreases |answer| - i
  {
    if i < |answer| {
      ValidFromFeedback(guess, answer, l, i + 1);
      assert answer[i..] == [answer[i]] + answer[i + 1..];
      assert guess[i] != answer[i] ==> answer[i] in UnmatchedLetters(guess, answer);
    }
  }

  /**
   * Over aligned slices of guess, answer and feedback (Yes exactly where guess
   * and answer agree), an affix verdict of Yes means the answer's slice is the
   * affix and a verdict of No that it is not.
   */
  lemma AffixSound(affix: string, letters: string, truth: string, states: seq<State>)
    requires |letters| == |affix| && |truth| == |affix| && |states| == |affix|
    requires forall i :: 0 <= i < |affix| ==> (states[i] == State.Yes <==> letters[i] == truth[i])
    ensures AffixAnswer(affix, letters, states) == Answer.Yes ==> truth == affix
    ensures AffixAnswer(affix, letters, states) == Answer.No ==> truth != affix
  {
    if AffixAnswer(affix, letters, states) == Answer.No {
      var i :| 0 <= i < |affix| &&
        ((affix[i] != letters[i] && states[i] == State.Yes) || (affix[i] == letters[i] && states[i] != State.Yes));
      assert truth[i] != affix[i];
    }
  }

  /** Feedback of a guess whose misses are absent from the answer. */
  lemma FeedbackOnlyYes()
    ensures Feedback("AZCZ", "ABCD") == [State.Yes, State.No, State.Yes, State.No]
  {
    assert 'Z' !in UnmatchedLetters("AZCZ", "ABCD") by {
      assert forall j :: 0 <= j < 4 ==> "ABCD"[j] != 'Z';
    }
  }

  /** Feedback mixing placed and misplaced letters. */
  lemma FeedbackMixed()
    ensures Feedback("RIVIERES", "REVOLVER") ==
      [State.Yes, State.No, State.Yes, State.No, State.Meh, State.Meh, State.Yes, State.No]
  {
    var g, a := "RIVIERES", "REVOLVER";
    assert 'E' in UnmatchedLetters(g, a) by {
      assert g[1] != a[1] && a[1] == 'E';
    }
    assert 'R' in UnmatchedLetters(g, a) by {
      assert g[7] != a[7] && a[7] == 'R';
    }
    assert 'I' !in UnmatchedLetters(g, a) && 'S' !in UnmatchedLetters(g, a) by {
      assert forall j :: 0 <= j < 8 ==> a[j] != 'I' && a[j] != 'S';
    }
  }

  /** Position verdicts of the hand-built attempt ABCD / [Yes, Meh, No, Meh]. */
  lemma AtExamples()
    ensures var a := Attempt("ABCD", [State.Yes, State.Meh, State.No, State.Meh]);
      Answers(a, At('A', 0)) == Ok(Answer.Yes) &&
      Answers(a, At('B', 1)) == Ok(Answer.No) &&
      Answers(a, At('Z', 2)) == Ok(Unknown) &&
      Answers(a, At('D', 10)).Err?
  {
  }

  /** At-least verdicts of the hand-built attempt ABBCCC / [Yes, Yes, Meh, No, Yes, Meh]. */
  lemma AtLeastExamples()
    ensures var a := Attempt("ABBCCC", [State.Yes, State.Yes, State.Meh, State.No, State.Yes, State.Meh]);
      Answers(a, HasAtLeast('A', 1)) == Ok(Answer.Yes) &&
      Answers(a, HasAtLeast('A', 2)) == Ok(Unknown) &&
      Answers(a, HasAtLeast('B', 2)) == Ok(Answer.Yes) &&
      Answers(a, HasAtLeast('C', 1)) == Ok(Answer.Yes) &&
      Answers(a, HasAtLeast('C', 2)) == Ok(Answer.Yes) &&
      Answers(a, HasAtLeast('C', 3)) == Ok(Answer.No) &&
      Answers(a, HasAtLeast('C', 4)) == Ok(Unknown)
  {
  }

  /** At-most verdicts of the hand-built attempt ABBCCCD / [Yes, Yes, No, No, Yes, Meh, No]. */
  lemma AtMostExamples()
    ensures var a := Attempt("ABBCCCD", [State.Yes, State.Yes, State.No, State.No, State.Yes, State.Meh, State.No]);
      Answers(a, HasAtMost('A', 1)) == Ok(Unknown) &&
      Answers(a, HasAtMost('B', 1)) == Ok(Answer.Yes) &&
      Answers(a, HasAtMost('C', 1)) == Ok(Answer.No) &&
      Answers(a, HasAtMost('C', 2)) == Ok(Answer.Yes) &&
      Answers(a, HasAtMost('D', 1)) == Ok(Answer.Yes) &&
      Answers(a, HasAtMost('Z', 2)) == Ok(Unknown)
  {
    var w := "ABBCCCD";
    var st := [State.Yes, State.Yes, State.No, State.No, State.Yes, State.Meh, State.No];
    assert Tests.Occurrences(w, 'A') == 1 && ValidOccurrences(w, st, 'A') == 1;
    assert Tests.Occurrences(w, 'B') == 2 && ValidOccurrences(w, st, 'B') == 1;
    assert Tests.Occurrences(w, 'C') == 3 && ValidOccurrences(w, st, 'C') == 2;
    assert Tests.Occurrences(w, 'D') == 1 && ValidOccurrences(w, st, 'D') == 0;
    assert Tests.Occurrences(w, 'Z') == 0 && ValidOccurrences(w, st, 'Z') == 0;
  }

  /** The looser at-most bounds of the same attempt all hold. */
  lemma AtMostExamplesLoose()
    ensures var a := Attempt("ABBCCCD", [State.Yes, State.Yes, State.No, State.No, State.Yes, State.Meh, State.No]);
      Answers(a, HasAtMost('B', 2)) == Ok(Answer.Yes) &&
      Answers(a, HasAtMost('C', 3)) == Ok(Answer.Yes) &&
      Answers(a, HasAtMost('C', 4)) == Ok(Answer.Yes)
  {
    var w := "ABBCCCD";
    var st := [State.Yes, State.Yes, State.No, State.No, State.Yes, State.Meh, State.No];
    assert Tests.Occurrences(w, 'B') == 2 && ValidOccurrences(w, st, 'B') == 1;
    assert Tests.Occurrences(w, 'C') == 3 && ValidOccurrences(w, st, 'C') == 2;
  }

  /** Prefix verdicts of a fully placed attempt. */
  lemma PrefixExamplesPlaced()
    ensures var a := Attempt("ABCDE", [State.Yes, State.Yes, State.Yes, State.Yes, State.Yes]);
      Answers(a, HasPrefix("ABC")) == Ok(Answer.Yes) &&
      Answers(a, HasPrefix("AZC")) == Ok(Answer.No)
  {
    var yes := [State.Yes, State.Yes, State.Yes];
    assert "ABCDE"[..3] == "ABC";
    assert AffixAnswer("AZC", "ABC", yes) == Answer.No by {
      assert "AZC"[1] != "ABC"[1];
    }
  }

  /** Prefix verdicts with a misplaced second letter, and an over-long prefix. */
  lemma PrefixExamplesMisplaced()
    ensures var a := Attempt("ABCDE", [State.Yes, State.Meh, State.Yes, State.Yes, State.Yes]);
      Answers(a, HasPrefix("AZC")) == Ok(Unknown) &&
      Answers(a, HasPrefix("ABC")) == Ok(Answer.No) &&
      Answers(a, HasPrefix("ABCDEFS")).Err?
  {
    var meh := [State.Yes, State.Meh, State.Yes];
    assert "ABCDE"[..3] == "ABC";
    assert AffixAnswer("ABC", "ABC", meh) == Answer.No by {
      assert "ABC"[1] == "ABC"[1] && meh[1] != State.Yes;
    }
    assert AffixAnswer("AZC", "ABC", meh) == Unknown by {
      assert !("AZC"[1] == "ABC"[1]);
    }
  }

  /** Suffix verdicts of a fully placed attempt: the suffix it spells, and one differing at the start. */
  lemma SuffixExamplesPlaced()
    ensures var a := Attempt("ABCDE", [State.Yes, State.Yes, State.Yes, State.Yes, State.Yes]);
      Answers(a, HasSuffix("CDE")) == Ok(Answer.Yes) &&
      Answers(a, HasSuffix("ZDE")) == Ok(Answer.No)
  {
    var yes := [State.Yes, State.Yes, State.Yes];
    assert "ABCDE"[2..] == "CDE";
    assert AffixAnswer("ZDE", "CDE", yes) == Answer.No by {
      assert "ZDE"[0] != "CDE"[0];
    }
  }

  /** Suffix verdicts of a fully placed attempt: suffixes differing in the middle and at the end. */
  lemma SuffixExamplesPlacedInner()
    ensures var a := Attempt("ABCDE", [State.Yes, State.Yes, State.Yes, State.Yes, State.Yes]);
      Answers(a, HasSuffix("CZE")) == Ok(Answer.No) &&
      Answers(a, HasSuffix("CDZ")) == Ok(Answer.No)
  {
    var yes := [State.Yes, State.Yes, State.Yes];
    assert "ABCDE"[2..] == "CDE";
    assert AffixAnswer("CZE", "CDE", yes) == Answer.No by {
      assert "CZE"[1] != "CDE"[1];
    }
    assert AffixAnswer("CDZ", "CDE", yes) == Answer.No by {
      assert "CDZ"[2] != "CDE"[2];
    }
  }

  /** Suffix verdicts with a misplaced fourth letter, and an over-long suffix. */
  lemma SuffixExamplesMisplaced()
    ensures var a := Attempt("ABCDE", [State.Yes, State.Yes, State.Yes, State.Meh, State.Yes]);
      Answers(a, HasSuffix("CZE")) == Ok(Unknown) &&
      Answers(a, HasSuffix("CDE")) == Ok(Answer.No) &&
      Answers(a, HasSuffix("ABCDEFS")).Err?
  {
    var meh := [State.Yes, State.Meh, State.Yes];
    assert "ABCDE"[2..] == "CDE";
    assert AffixAnswer("CDE", "CDE", meh) == Answer.No by {
      assert "CDE"[1] == "CDE"[1] && meh[1] != State.Yes;
    }
    assert AffixAnswer("CZE", "CDE", meh) == Unknown by {
      assert !("CZE"[1] == "CDE"[1]);
    }
  }

  /**
   * Why count verdicts of as-written feedback are not sound: the guess XBBB
   * against the answer BACD marks all three B's Meh although the answer holds
   * one B, so the attempt claims at least three B's.
   */
  lemma MehOverMarking()
    ensures Feedback("XBBB", "BACD") == [State.No, State.Meh, State.Meh, State.Meh]
    ensures Answers(Attempt("XBBB", Feedback("XBBB", "BACD")), HasAtLeast('B', 3)) == Ok(Answer.Yes)
    ensures !Tests.Run(HasAtLeast('B', 3), "BACD")
  {
    var g, a := "XBBB", "BACD";
    assert 'B' in UnmatchedLetters(g, a) by {
      assert a[0] == 'B' && g[0] != a[0];
    }
    assert 'X' !in UnmatchedLetters(g, a) by {
      assert forall j :: 0 <= j < 4 ==> a[j] != 'X';
    }
  }

  // Counted feedback: the rule the comment of `from_answer` describes, where a
  // misplaced letter is marked Meh only while its answer counter is positive.

  function Min(x: int, y: int): int
  {
    if x <= y then x else y
  }

  /** Positions before `n` where guess and answer both hold `l`. */
  function Matches(guess: string, answer: string, l: char, n: nat): nat
    requires |guess| == |answer| && n <= |answer|
  {
    if n == 0 then 0
    else Matches(guess, answer, l, n - 1) + (if guess[n - 1] == l && answer[n - 1] == l then 1 else 0)
  }

  /** Positions before `n` where the guess holds `l` and the answer differs. */
  function GuessMisses(guess: string, answer: string, l: char, n: nat): nat
    requires |guess| == |answer| && n <= |answer|
  {
    if n == 0 then 0
    else GuessMisses(guess, answer, l, n - 1) + (if guess[n - 1] == l && answer[n - 1] != l then 1 else 0)
  }

  /** Positions before `n` where the answer holds `l` and the guess differs. */
  function AnswerMisses(guess: string, answer: string, l: char, n: nat): nat
    requires |guess| == |answer| && n <= |answer|
  {
    if n == 0 then 0
    else AnswerMisses(guess, answer, l, n - 1) + (if answer[n - 1] == l && guess[n - 1] != l then 1 else 0)
  }

  /**
   * Yes where the letters agree; otherwise Meh while fewer earlier misses of
   * the same letter have been met than the answer has unmatched copies of it.
   */
  function CountedFeedback(guess: string, answer: string): seq<State>
    requires |guess| == |answer|
  {
    seq(|answer|, i requires 0 <= i < |answer| =>
      if guess[i] == answer[i] then State.Yes
      else if GuessMisses(guess, answer, guess[i], i) < AnswerMisses(guess, answer, guess[i], |answer|) then State.Meh
      else State.No)
  }

  /** Counts, per letter, the copies of the answer at positions the guess does not match. */
  method CountUnmatched(guess: string, answer: string) returns (acc: map<char, int>)
    requires |guess| == |answer|
    ensures forall c :: c in acc ==> acc[c] == AnswerMisses(guess, answer, c, |answer|)
    ensures forall c :: c !in acc ==> AnswerMisses(guess, answer, c, |answer|) == 0
  {
    acc := map[];
    for i := 0 to |answer|
      invariant forall c :: c in acc ==> acc[c] == AnswerMisses(guess, answer, c, i)
      invariant forall c :: c !in acc ==> AnswerMisses(guess, answer, c, i) == 0
    {
      if answer[i] != guess[i] {
        var c := answer[i];
        acc := acc[c := (if c in acc then acc[c] else 0) + 1];
      }
    }
  }

  /** `FromAnswer` with the counter checked before a letter is marked Meh. */
  method FromAnswerCounted(attempt: string, answer: string) returns (r: Result<Attempt, Error>)
    ensures r.Err? <==> |attempt| != |answer|
    ensures r.Err? ==> r.error == InvalidSize(|answer|, |attempt|, attempt)
    ensures r.Ok? ==> r.value == Attempt(attempt, CountedFeedback(attempt, answer))
  {
    var size := |answer|;
    if |attempt| != size {
      return Err(InvalidSize(size, |attempt|, attempt));
    }
    var states := new State[size](_ => State.No);

    for i := 0 to size
      invariant forall k :: 0 <= k < size ==>
        states[k] == if k < i && answer[k] == attempt[k] then State.Yes else State.No
    {
      if answer[i] == attempt[i] {
        states[i] := State.Yes;
      }
    }

    var acc := CountUnmatched(attempt, answer);
    assert CountersLeft(acc, attempt, answer, 0);
    MarkCounted(states, attempt, answer, acc);
    r := Ok(Attempt(attempt, states[..]));
  }

  /** How many unmatched copies of `c` in the answer the misses of the first `i` guess letters leave unclaimed. */
  function Remaining(guess: string, answer: string, c: char, i: nat): int
    requires |guess| == |answer| && i <= |answer|
  {
    var u := AnswerMisses(guess, answer, c, |answer|);
    u - Min(GuessMisses(guess, answer, c, i), u)
  }

  /**
   * The counters left after the first `i` letters of the guess: every letter
   * with unmatched copies in the answer has an entry holding its remaining count.
   */
  ghost predicate CountersLeft(acc: map<char, int>, guess: string, answer: string, i: nat)
    requires |guess| == |answer| && i <= |answer|
  {
    forall c ::
      (c in acc ==> acc[c] == Remaining(guess, answer, c, i)) &&
      (c !in acc ==> AnswerMisses(guess, answer, c, |answer|) == 0)
  }

  /**
   * One letter of the guess: marking it Meh exactly while its counter is
   * positive gives its counted feedback and keeps the counters right.
   */
  lemma CountersStep(acc: map<char, int>, guess: string, answer: string, i: nat)
    requires |guess| == |answer| && i < |answer|
    requires CountersLeft(acc, guess, answer, i)
    ensures guess[i] == answer[i] ==>
      CountedFeedback(guess, answer)[i] == State.Yes && CountersLeft(acc, guess, answer, i + 1)
    ensures guess[i] != answer[i] && guess[i] in acc && acc[guess[i]] > 0 ==>
      CountedFeedback(guess, answer)[i] == State.Meh &&
      CountersLeft(acc[guess[i] := acc[guess[i]] - 1], guess, answer, i + 1)
    ensures guess[i] != answer[i] && !(guess[i] in acc && acc[guess[i]] > 0) ==>
      CountedFeedback(guess, answer)[i] == State.No && CountersLeft(acc, guess, answer, i + 1)
  {
    var c := guess[i];
    assert forall d :: d != c ==> GuessMisses(guess, answer, d, i + 1) == GuessMisses(guess, answer, d, i);
  }

  /**
   * The third pass of `FromAnswerCounted`: marks Meh each missed letter whose
   * counter is still positive, decrementing it.
   */
  method MarkCounted(states: array<State>, attempt: string, answer: string, acc0: map<char, int>)
    requires |attempt| == |answer| == states.Length
    requires forall k :: 0 <= k < states.Length ==>
      states[k] == if answer[k] == attempt[k] then State.Yes else State.No
    requires CountersLeft(acc0, attempt, answer, 0)
    modifies states
    ensures states[..] == CountedFeedback(attempt, answer)
  {
    var acc := acc0;
    var size := |answer|;
    ghost var expected := CountedFeedback(attempt, answer);
    for i := 0 to size
      invariant CountersLeft(acc, attempt, answer, i)
      invariant forall k :: 0 <= k < i ==> states[k] == expected[k]
      invariant forall k :: i <= k < size ==>
        states[k] == if answer[k] == attempt[k] then State.Yes else State.No
    {
      CountersStep(acc, attempt, answer, i);
      if states[i] != State.Yes {
        var c := attempt[i];
        if c in acc && acc[c] > 0 {
          states[i] := State.Meh;
          acc := acc[c := acc[c] - 1];
        }
      }
      assert states[i] == expected[i];
    }
    assert states[..] == expected;
  }

  /** Each copy of `l` in the first `n` letters of the guess is a match or a miss, and so in the answer. */
  lemma {:induction false} OccurrencesByKind(guess: string, answer: string, l: char, n: nat)
    requires |guess| == |answer| && n <= |answer|
    ensures Tests.Occurrences(guess[..n], l) == Matches(guess, answer, l, n) + GuessMisses(guess, answer, l, n)
    ensures Tests.Occurrences(answer[..n], l) == Matches(guess, answer, l, n) + AnswerMisses(guess, answer, l, n)
  {
    if n > 0 {
      OccurrencesByKind(guess, answer, l, n - 1);
      assert guess[..n] == guess[..n - 1] + [guess[n - 1]];
      assert answer[..n] == answer[..n - 1] + [answer[n - 1]];
    }
  }

  /**
   * From position `i` on, counted feedback keeps as many copies of `l` as
   * there are matches plus the misses still covered by the answer's count.
   */
  lemma {:induction false} CountedValidFrom(guess: string, answer: string, l: char, i: nat)
    requires |guess| == |answer| && i <= |answer|
    ensures var n, u := |answer|, AnswerMisses(guess, answer, l, |answer|);
      ValidFrom(guess, CountedFeedback(guess, answer), l, i) + Matches(guess, answer, l, i) +
        Min(GuessMisses(guess, answer, l, i), u) ==
      Matches(guess, answer, l, n) + Min(GuessMisses(guess, answer, l, n), u)
    decreases |answer| - i
  {
    if i < |answer| {
      CountedValidFrom(guess, answer, l, i + 1);
    }
  }

  /**
   * With counted feedback, the copies of a letter an attempt does not rule
   * out are exactly as many as guess and answer have in common.
   */
  lemma CountedValidOccurrences(guess: string, answer: string, l: char)
    requires |guess| == |answer|
    ensures ValidOccurrences(guess, CountedFeedback(guess, answer), l) ==
      Min(Tests.Occurrences(guess, l), Tests.Occurrences(answer, l))
  {
    CountedValidFrom(guess, answer, l, 0);
    OccurrencesByKind(guess, answer, l, |answer|);
    assert guess[..|guess|] == guess && answer[..|answer|] == answer;
  }

  /** Count verdicts of an attempt with counted feedback are sound for the hidden answer. */
  lemma CountedCountsSound(guess: string, answer: string, t: Test)
    requires |guess| == |answer|
    requires t.HasAtLeast? || t.HasAtMost?
    ensures var r := Answers(Attempt(guess, CountedFeedback(guess, answer)), t);
      (r == Ok(Answer.Yes) ==> Tests.Run(t, answer)) && (r == Ok(Answer.No) ==> !Tests.Run(t, answer))
  {
    CountedValidOccurrences(guess, answer, t.letter);
  }

  /** Every verdict of an attempt with counted feedback is sound for the hidden answer. */
  lemma CountedSound(guess: string, answer: string, t: Test)
    requires |guess| == |answer|
    ensures var r := Answers(Attempt(guess, CountedFeedback(guess, answer)), t);
      (r == Ok(Answer.Yes) ==> Tests.Run(t, answer)) && (r == Ok(Answer.No) ==> !Tests.Run(t, answer))
  {
    var states := CountedFeedback(guess, answer);
    if t.HasAtLeast? || t.HasAtMost? {
      CountedCountsSound(guess, answer, t);
    } else if t.HasPrefix? {
      var p := t.prefix;
      if |p| <= |guess| {
        AffixSound(p, guess[..|p|], answer[..|p|], states[..|p|]);
      }
    } else if t.HasSuffix? {
      var sfx := t.suffix;
      if |sfx| <= |guess| {
        var start := |guess| - |sfx|;
        AffixSound(sfx, guess[start..], answer[start..], states[start..]);
      }
    }
  }

  /** On the over-marking example, counted feedback marks one B Meh and decides at-least-three No. */
  lemma CountedExample()
    ensures CountedFeedback("XBBB", "BACD") == [State.No, State.Meh, State.No, State.No]
    ensures Answers(Attempt("XBBB", CountedFeedback("XBBB", "BACD")), HasAtLeast('B', 3)) == Ok(Answer.No)
  {
    var g, a := "XBBB", "BACD";
    assert AnswerMisses(g, a, 'B', 4) == 1 && AnswerMisses(g, a, 'X', 4) == 0;
    assert GuessMisses(g, a, 'B', 1) == 0 && GuessMisses(g, a, 'B', 2) == 1 && GuessMisses(g, a, 'B', 3) == 2;
  }
}
