/**
 * The dictionary of a game: a list of possible answers and a list of words
 * that may be submitted but are never the answer, all of one size, with no
 * word repeated and only the letters 'A'..'Z' (src/dict.rs).
 */
module Dicts {
  import opened Types

  /** `size` is private in the source and set by `New` from the first answer. */
  datatype Dict = Dict(answers: seq<string>, allowed: seq<string>, size: nat)

  /** The words in the order the source iterates them: answers, then allowed. */
  function Words(d: Dict): seq<string>
  {
    d.answers + d.allowed
  }

  function Len(d: Dict): (n: nat)
    ensures n == |Words(d)|
  {
    |d.answers| + |d.allowed|
  }

  function IsEmpty(d: Dict): (b: bool)
    ensures b <==> d.answers == [] && d.allowed == []
  {
    Len(d) == 0
  }

  function WordSize(d: Dict): (n: nat)
    ensures SizesConsistent(d) ==> forall w :: w in Words(d) ==> |w| == n
  {
    d.size
  }

  predicate IsAsciiUppercase(c: char)
  {
    'A' <= c <= 'Z'
  }

  predicate SizesConsistent(d: Dict)
  {
    forall w :: w in Words(d) ==> |w| == d.size
  }

  /** No word occurs more than once across both lists together. */
  predicate NoDuplicate(d: Dict)
  {
    forall w :: w in Words(d) ==> multiset(Words(d))[w] <= 1
  }

  predicate AllUppercase(d: Dict)
  {
    forall w, k :: w in Words(d) && 0 <= k < |w| ==> IsAsciiUppercase(w[k])
  }

  predicate WellFormed(d: Dict)
  {
    SizesConsistent(d) && NoDuplicate(d) && AllUppercase(d)
  }

  /** `c` is the first character of `w` outside 'A'..'Z'. */
  predicate FirstUnauthorized(w: string, c: char)
  {
    exists k :: 0 <= k < |w| && w[k] == c && !IsAsciiUppercase(c) &&
      forall j :: 0 <= j < k ==> IsAsciiUppercase(w[j])
  }

  /** What each error reported about `d` says of it. */
  predicate Explains(d: Dict, e: DictError)
  {
    match e
    case InconsistentSize(expected, found, w) =>
      w in Words(d) && expected == d.size && found == |w| && found != d.size
    case DuplicateWord(count, w) =>
      count == multiset(Words(d))[w] && count >= 2
    case MissingAnswers => d.answers == []
    case UnauthorizedCharacter(c, w) =>
      w in Words(d) && FirstUnauthorized(w, c)
  }

  /** The first character of `w` outside 'A'..'Z', if any. */
  function FindUnauthorized(w: string): (r: Option<char>)
    ensures r.None? <==> forall k :: 0 <= k < |w| ==> IsAsciiUppercase(w[k])
    ensures r.Some? ==> FirstUnauthorized(w, r.value)
  {
    if w == [] then None
    else if !IsAsciiUppercase(w[0]) then Some(w[0])
    else
      var r := FindUnauthorized(w[1..]);
      if r.Some? then
        assert forall k :: 0 <= k < |w| - 1 ==> w[1..][k] == w[k + 1];
        ghost var k :| 0 <= k < |w| - 1 && w[1..][k] == r.value && !IsAsciiUppercase(r.value) &&
          forall j :: 0 <= j < k ==> IsAsciiUppercase(w[1..][j]);
        assert w[k + 1] == r.value;
        r
      else
        assert forall k :: 1 <= k < |w| ==> w[k] == w[1..][k - 1];
        r
  }

  /**
   * Some word whose length differs from the dictionary's size, if any. The
   * source searches in parallel and reports whichever word it finds first.
   */
  method CheckSize(d: Dict) returns (e: Option<DictError>)
    ensures e.None? <==> SizesConsistent(d)
    ensures e.Some? ==> e.value.InconsistentSize? && Explains(d, e.value)
  {
    var words := Words(d);
    if exists w :: w in words && |w| != d.size {
      var w :| w in words && |w| != d.size;
      e := Some(InconsistentSize(d.size, |w|, w));
    } else {
      e := None;
    }
  }

  /**
   * Some word occurring more than once, with its number of occurrences. The
   * source counts occurrences in a map and picks any entry whose count is not 1.
   */
  method CheckDuplicate(d: Dict) returns (e: Option<DictError>)
    ensures e.None? <==> NoDuplicate(d)
    ensures e.Some? ==> e.value.DuplicateWord? && Explains(d, e.value)
  {
    var words := Words(d);
    var counts: map<string, nat> := map[];
    for i := 0 to |words|
      invariant forall w :: w in counts <==> w in multiset(words[..i])
      invariant forall w :: w in counts ==> counts[w] == multiset(words[..i])[w]
    {
      var w := words[i];
      counts := counts[w := if w in counts then counts[w] + 1 else 1];
      assert words[..i + 1] == words[..i] + [w];
    }
    assert words[..|words|] == words;
    if exists w :: w in counts && counts[w] != 1 {
      var w :| w in counts && counts[w] != 1;
      e := Some(DuplicateWord(counts[w], w));
    } else {
      e := None;
      forall w | w in words ensures multiset(words)[w] <= 1 {
        if w in counts { assert counts[w] == 1; }
      }
    }
  }

  /**
   * Some word holding a character outside 'A'..'Z', with the first such
   * character of that word.
   */
  method CheckCharacters(d: Dict) returns (e: Option<DictError>)
    ensures e.None? <==> AllUppercase(d)
    ensures e.Some? ==> e.value.UnauthorizedCharacter? && Explains(d, e.value)
  {
    var words := Words(d);
    if exists w :: w in words && FindUnauthorized(w).Some? {
      var w :| w in words && FindUnauthorized(w).Some?;
      e := Some(UnauthorizedCharacter(FindUnauthorized(w).value, w));
    } else {
      e := None;
    }
  }

  /** The size check comes first, then the duplicate check, then the characters. */
  method Check(d: Dict) returns (e: Option<DictError>)
    ensures e.None? <==> WellFormed(d)
    ensures e.Some? ==> Explains(d, e.value)
    ensures !SizesConsistent(d) ==> e.Some? && e.value.InconsistentSize?
    ensures SizesConsistent(d) && !NoDuplicate(d) ==> e.Some? && e.value.DuplicateWord?
    ensures SizesConsistent(d) && NoDuplicate(d) && !AllUppercase(d) ==>
      e.Some? && e.value.UnauthorizedCharacter?
  {
    e := CheckSize(d);
    if e.None? {
      e := CheckDuplicate(d);
      if e.None? {
        e := CheckCharacters(d);
      }
    }
  }

  /** Builds a dictionary whose size is that of the first answer, then validates it. */
  method New(answers: seq<string>, allowed: seq<string>) returns (r: Result<Dict, DictError>)
    ensures answers == [] ==> r == Err(MissingAnswers)
    ensures answers != [] ==>
      (r.Ok? <==> WellFormed(Dict(answers, allowed, |answers[0]|)))
    ensures r.Ok? ==> r.value == Dict(answers, allowed, |answers[0]|)
    ensures r.Err? ==> Explains(Dict(answers, allowed, if answers == [] then 0 else |answers[0]|), r.error)
  {
    if answers == [] {
      return Err(MissingAnswers);
    }
    var d := Dict(answers, allowed, |answers[0]|);
    var e := Check(d);
    if e.None? {
      r := Ok(d);
    } else {
      r := Err(e.value);
    }
  }

  /**
   * A well-formed dictionary has all its words of its size, made of 'A'..'Z',
   * and no two positions of answers-then-allowed hold the same word.
   */
  lemma WellFormedWords(d: Dict)
    requires WellFormed(d)
    ensures forall i :: 0 <= i < Len(d) ==> |Words(d)[i]| == WordSize(d)
    ensures forall i, k :: 0 <= i < Len(d) && 0 <= k < |Words(d)[i]| ==> IsAsciiUppercase(Words(d)[i][k])
    ensures forall i, j :: 0 <= i < j < Len(d) ==> Words(d)[i] != Words(d)[j]
  {
    var ws := Words(d);
    forall i, j | 0 <= i < j < |ws| ensures ws[i] != ws[j] {
      if ws[i] == ws[j] {
        TwiceInMultiset(ws, i, j);
      }
    }
  }

  /** A value at two distinct positions of a sequence occurs at least twice in it. */
  lemma TwiceInMultiset<T>(s: seq<T>, i: nat, j: nat)
    requires i < j < |s| && s[i] == s[j]
    ensures multiset(s)[s[i]] >= 2
  {
    assert s == s[..j] + [s[j]] + s[j + 1..];
    assert s[i] in multiset(s[..j]);
  }
}
