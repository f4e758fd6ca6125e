/**
 * The tri-valued answer algebra (src/answers.rs): merging two verdicts about
 * one test, the verdicts a plain word gives a test suite, and the element-wise
 * merge of two verdict vectors.
 */
module Answers {
  import opened Types
  import Tests
  import Dicts

  /**
   * Merge of two verdicts: Unknown gives way to the other side, equal verdicts
   * stay, and Yes against No is an error carrying both operands in order.
   */
  function Add(lhs: Answer, rhs: Answer): (r: Result<Answer, Error>)
    ensures r.Err? <==> (lhs == Answer.Yes && rhs == Answer.No) || (lhs == Answer.No && rhs == Answer.Yes)
    ensures r.Err? ==> r.error == IncompatibleAnswers(lhs, rhs)
    ensures r.Ok? ==> r.value == (if lhs == Unknown then rhs else lhs)
  {
    match lhs
    case Unknown => Ok(rhs)
    case Yes =>
      (match rhs
       case Unknown => Ok(lhs)
       case Yes => Ok(lhs)
       case No => Err(IncompatibleAnswers(lhs, rhs)))
    case No =>
      (match rhs
       case Unknown => Ok(lhs)
       case Yes => Err(IncompatibleAnswers(lhs, rhs))
       case No => Ok(lhs))
  }

  lemma AddUnknownIdentity(x: Answer)
    ensures Add(Unknown, x) == Ok(x) && Add(x, Unknown) == Ok(x)
  {
  }

  lemma AddIdempotent(x: Answer)
    ensures Add(x, x) == Ok(x)
  {
  }

  /** One order fails exactly when the other does, and they agree on success. */
  lemma AddCommutative(x: Answer, y: Answer)
    ensures Add(x, y).Ok? <==> Add(y, x).Ok?
    ensures Add(x, y).Ok? ==> Add(x, y).value == Add(y, x).value
  {
  }

  /** Both groupings of three verdicts fail together, and agree on success. */
  lemma AddAssociative(x: Answer, y: Answer, z: Answer)
    ensures (Add(x, y).Ok? && Add(Add(x, y).value, z).Ok?) <==> (Add(y, z).Ok? && Add(x, Add(y, z).value).Ok?)
    ensures Add(x, y).Ok? && Add(Add(x, y).value, z).Ok? ==>
      Add(Add(x, y).value, z).value == Add(x, Add(y, z).value).value
  {
  }

  /** A plain word answers every test conclusively. */
  function FromBool(b: bool): Answer
  {
    if b then Answer.Yes else Answer.No
  }

  /** The verdicts word `w` gives each test of a suite. */
  function OfWord(w: string, tests: seq<Test>): (r: seq<Answer>)
    ensures |r| == |tests|
    ensures forall i :: 0 <= i < |tests| ==> r[i] != Unknown && (r[i] == Answer.Yes <==> Tests.Run(tests[i], w))
  {
    if tests == [] then []
    else [FromBool(Tests.Run(tests[0], w))] + OfWord(w, tests[1..])
  }

  /** The verdict vectors of every dictionary word, answers first, then allowed. */
  function OfDict(d: Dicts.Dict, tests: seq<Test>): (r: seq<seq<Answer>>)
    ensures |r| == Dicts.Len(d)
    ensures forall i :: 0 <= i < |r| ==> r[i] == OfWord(Dicts.Words(d)[i], tests)
  {
    OfWords(Dicts.Words(d), tests)
  }

  function OfWords(words: seq<string>, tests: seq<Test>): (r: seq<seq<Answer>>)
    ensures |r| == |words|
    ensures forall i :: 0 <= i < |r| ==> r[i] == OfWord(words[i], tests)
  {
    if words == [] then []
    else [OfWord(words[0], tests)] + OfWords(words[1..], tests)
  }

  /**
   * Element-wise merge over the positions both vectors have (the shorter one
   * decides the length); the first conflicting position gives the error.
   */
  function AddAll(lhs: seq<Answer>, rhs: seq<Answer>): (r: Result<seq<Answer>, Error>)
    ensures r.Ok? <==> forall i :: 0 <= i < |lhs| && i < |rhs| ==> Add(lhs[i], rhs[i]).Ok?
    ensures r.Ok? ==> |r.value| == Min(|lhs|, |rhs|)
    ensures r.Ok? ==> forall i :: 0 <= i < |r.value| ==> Add(lhs[i], rhs[i]) == Ok(r.value[i])
    ensures r.Err? ==> FirstConflict(lhs, rhs, r.error)
  {
    if lhs == [] || rhs == [] then Ok([])
    else
      var head := Add(lhs[0], rhs[0]);
      if head.Err? then Err(head.error)
      else
        var tail := AddAll(lhs[1..], rhs[1..]);
        if tail.Err? then
          ghost var k :| 0 <= k < |lhs| - 1 && k < |rhs| - 1 && Add(lhs[1..][k], rhs[1..][k]) == Err(tail.error) &&
            forall i :: 0 <= i < k ==> Add(lhs[1..][i], rhs[1..][i]).Ok?;
          assert Add(lhs[k + 1], rhs[k + 1]) == Err(tail.error);
          assert forall i :: 1 <= i < k + 1 ==> Add(lhs[i], rhs[i]) == Add(lhs[1..][i - 1], rhs[1..][i - 1]);
          Err(tail.error)
        else
          assert forall i :: 1 <= i < |lhs| && i < |rhs| ==> Add(lhs[i], rhs[i]) == Add(lhs[1..][i - 1], rhs[1..][i - 1]);
          Ok([head.value] + tail.value)
  }

  /** Position `k` is the leftmost one where merging fails, failing with `e`. */
  ghost predicate FirstConflict(lhs: seq<Answer>, rhs: seq<Answer>, e: Error)
  {
    exists k :: 0 <= k < |lhs| && k < |rhs| && Add(lhs[k], rhs[k]) == Err(e) &&
      forall i :: 0 <= i < k ==> Add(lhs[i], rhs[i]).Ok?
  }

  function Min(a: nat, b: nat): nat
  {
    if a <= b then a else b
  }
}
