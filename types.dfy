/**
 * The plain data types of the solver core: a failure-compatible Result and
 * Option, the per-character feedback State, the tri-valued Answer, the Test
 * vocabulary, the two error enums and the generation options.
 *
 * They share one module because Error mentions Answer and Test while the
 * operations on Answer and Test return Error.
 */
module Types {

  datatype Option<+T> = None | Some(value: T)

  datatype Result<+T, +E> = Ok(value: T) | Err(error: E) {
    predicate IsFailure() { Err? }

    function PropagateFailure<U>(): Result<U, E>
      requires Err?
    {
      Err(error)
    }

    function Extract(): T
      requires Ok?
    {
      value
    }
  }

  /** An unsigned 8-bit integer, the type of the counts carried by tests. */
  newtype u8 = x: int | 0 <= x < 256

  /** Feedback for one character of an attempt (src/state.rs). */
  datatype State =
    | Yes   // letter is correctly placed
    | Meh   // letter is incorrectly placed
    | No    // letter is not in the answer

  /** Tri-valued verdict of a test given the evidence seen so far. */
  datatype Answer = Unknown | Yes | No

  /** The closed vocabulary of tests a word can satisfy. */
  datatype Test =
    | At(letter: char, position: nat)
    | HasAtLeast(letter: char, count: u8)
    | HasAtMost(letter: char, count: u8)
    | HasPrefix(prefix: string)
    | HasSuffix(suffix: string)

  /** Errors raised by the solver core (src/errors.rs). */
  datatype Error =
    | IncompatibleAnswers(lhs: Answer, rhs: Answer)
    | InvalidSize(expected: nat, found: nat, word: string)
    | UnexpectedTest(test: Test, word: string)

  /** Errors raised while validating a dictionary (src/errors.rs). */
  datatype DictError =
    | InconsistentSize(expected: nat, found: nat, word: string)
    | DuplicateWord(count: nat, word: string)
    | MissingAnswers
    | UnauthorizedCharacter(character: char, word: string)

  /**
   * Test generation options: the longest prefix/suffix to generate and the
   * fraction of the dictionary a test must exceed on both sides to be kept.
   */
  datatype Options = Options(testsXfixLengths: nat, testsKeepRatio: real)

  /** Affixes up to four letters; tests matched by more than 1% of the words. */
  function DefaultOptions(): (o: Options)
    ensures o.testsXfixLengths == 4
    ensures 0.0 < o.testsKeepRatio < 1.0 && o.testsKeepRatio * 100.0 == 1.0
  {
    Options(4, 0.01)
  }
}
