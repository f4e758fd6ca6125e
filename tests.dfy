/**
 * The test vocabulary over words (src/tests.rs): what a test means for a
 * plain word, the tests generated from one word, and the tests kept from a
 * whole dictionary because they split it well enough.
 */
module Tests {
  import opened Types
  import Dicts

  /** Number of occurrences of `l` in `w`. */
  function Occurrences(w: string, l: char): nat
  {
    multiset(w)[l]
  }

  /** Whether word `w` satisfies test `t`. */
  function Run(t: Test, w: string): (b: bool)
    ensures t.At? && t.position >= |w| ==> !b
    ensures t.HasPrefix? ==>
      (b <==> |t.prefix| <= |w| && forall i :: 0 <= i < |t.prefix| ==> w[i] == t.prefix[i])
    ensures t.HasSuffix? ==>
      (b <==> |t.suffix| <= |w| &&
              forall i :: 0 <= i < |t.suffix| ==> w[|w| - |t.suffix| + i] == t.suffix[i])
  {
    match t
    case At(letter, position) => position < |w| && w[position] == letter
    case HasAtLeast(letter, count) => Occurrences(w, letter) >= count as int
    case HasAtMost(letter, count) => Occurrences(w, letter) <= count as int
    case HasPrefix(prefix) => prefix <= w
    case HasSuffix(suffix) => |suffix| <= |w| && w[|w| - |suffix|..] == suffix
  }

  /** A lower bound of zero occurrences holds of every word. */
  lemma HasAtLeastZero(l: char, w: string)
    ensures Run(HasAtLeast(l, 0), w)
  {
  }

  /** No test occurs twice in `ts`. */
  predicate NoDuplicates(ts: seq<Test>)
  {
    forall i, j :: 0 <= i < j < |ts| ==> ts[i] != ts[j]
  }

  lemma NoDuplicatesPush(ts: seq<Test>, t: Test)
    requires NoDuplicates(ts) && t !in ts
    ensures NoDuplicates(ts + [t])
  {
  }

  /** Number of `HasAtLeast` tests in `ts`. */
  function AtLeastTests(ts: seq<Test>): nat
  {
    if ts == [] then 0
    else AtLeastTests(ts[..|ts| - 1]) + (if ts[|ts| - 1].HasAtLeast? then 1 else 0)
  }

  /**
   * What the source demands of a word for `ForWord` not to overflow or
   * slice out of bounds: letter counts fit a u8 with room for `count + 1`,
   * and every affix length up to the option's bound fits in the word.
   */
  predicate ForWordRequires(w: string, xfix: nat)
  {
    (forall l :: l in multiset(w) ==> multiset(w)[l] < 255) &&
    (xfix <= 1 || xfix <= |w|)
  }

  /**
   * The tests `ForWord(w)` generates: one `At` per position, one `HasAtMost`
   * per distinct letter with its exact count, one `HasAtLeast` per letter and
   * count from 1 to its number of occurrences, and the prefixes and suffixes
   * of lengths 2 to `xfix`.
   */
  predicate Generates(w: string, xfix: nat, t: Test)
  {
    match t
    case At(l, p) => p < |w| && w[p] == l
    case HasAtMost(l, c) => l in w && c as int == Occurrences(w, l)
    case HasAtLeast(l, c) => 1 <= c as int <= Occurrences(w, l)
    case HasPrefix(p) => 2 <= |p| <= xfix && |p| <= |w| && p == w[..|p|]
    case HasSuffix(s) => 2 <= |s| <= xfix && |s| <= |w| && s == w[|w| - |s|..]
  }

  /** Every generated test holds of the word it was generated from. */
  lemma GeneratedHolds(w: string, xfix: nat, t: Test)
    requires Generates(w, xfix, t)
    ensures Run(t, w)
  {
  }

  /** Letter-count tests whose letter is in `letters`. */
  predicate CountTestOf(w: string, letters: set<char>, t: Test)
  {
    (t.HasAtMost? || t.HasAtLeast?) && t.letter in letters && Generates(w, 0, t)
  }

  /** Number of occurrences of each letter of `w`, as the source's u8 counters. */
  method CountLetters(w: string) returns (letterCount: map<char, u8>)
    requires forall l :: l in multiset(w) ==> multiset(w)[l] < 255
    ensures forall l :: l in letterCount <==> l in w
    ensures forall l :: l in letterCount ==> letterCount[l] as int == Occurrences(w, l)
  {
    letterCount := map[];
    for i := 0 to |w|
      invariant forall l :: l in letterCount <==> l in multiset(w[..i])
      invariant forall l :: l in letterCount ==> letterCount[l] as int == multiset(w[..i])[l]
    {
      var l := w[i];
      assert w == w[..i] + [l] + w[i + 1..];
      assert multiset(w)[l] == multiset(w[..i])[l] + 1 + multiset(w[i + 1..])[l];
      assert w[..i + 1] == w[..i] + [l];
      letterCount := letterCount[l := if l in letterCount then letterCount[l] + 1 else 1];
    }
    assert w[..|w|] == w;
  }

  /** The tests pushed for one letter occurring `count` times. */
  function LetterGroup(l: char, count: u8): seq<Test>
  {
    [HasAtMost(l, count)] + seq(count as int, k requires 0 <= k < count as int => HasAtLeast(l, (k + 1) as u8))
  }

  method PushLetterGroup(tests: seq<Test>, l: char, count: u8) returns (r: seq<Test>)
    requires count < 255
    ensures r == tests + LetterGroup(l, count)
  {
    r := tests + [HasAtMost(l, count)];
    for c := 1 to count as int + 1
      invariant r == tests + [HasAtMost(l, count)] +
                     seq(c - 1, k requires 0 <= k < c - 1 => HasAtLeast(l, (k + 1) as u8))
    {
      r := r + [HasAtLeast(l, c as u8)];
    }
  }

  lemma LetterGroupFacts(l: char, count: u8)
    requires count < 255
    ensures forall t :: t in LetterGroup(l, count) <==>
      t == HasAtMost(l, count) || (t.HasAtLeast? && t.letter == l && 1 <= t.count as int <= count as int)
    ensures NoDuplicates(LetterGroup(l, count))
    ensures AtLeastTests(LetterGroup(l, count)) == count as int
  {
    var g := LetterGroup(l, count);
    forall t: Test | t.HasAtLeast? && t.letter == l && 1 <= t.count as int <= count as int
      ensures t in g
    {
      assert g[t.count as int] == t;
    }
    var s := g[1..];
    assert g == [g[0]] + s;
    AllAtLeast(s);
    AtLeastConcat([g[0]], s);
  }

  lemma LetterGroupIsCountTests(w: string, l: char, count: u8)
    requires l in w && count as int == Occurrences(w, l) < 255
    ensures forall t :: t in LetterGroup(l, count) <==> CountTestOf(w, {l}, t)
    ensures NoDuplicates(LetterGroup(l, count))
    ensures AtLeastTests(LetterGroup(l, count)) == Occurrences(w, l)
  {
    LetterGroupFacts(l, count);
  }

  lemma CountTestOfUnion(w: string, done: set<char>, l: char)
    ensures forall t :: CountTestOf(w, done + {l}, t) <==> CountTestOf(w, done, t) || CountTestOf(w, {l}, t)
  {
  }

  /** The prefix and suffix tests of lengths 2 to `n`, in the order pushed. */
  function AffixTests(w: string, n: nat): seq<Test>
    requires n <= 1 || n <= |w|
  {
    if n < 2 then [] else AffixTests(w, n - 1) + [HasPrefix(w[..n]), HasSuffix(w[|w| - n..])]
  }

  lemma {:induction false} AffixTestsFacts(w: string, n: nat)
    requires n <= 1 || n <= |w|
    ensures forall t :: t in AffixTests(w, n) <==> (t.HasPrefix? || t.HasSuffix?) && Generates(w, n, t)
    ensures NoDuplicates(AffixTests(w, n))
    ensures AtLeastTests(AffixTests(w, n)) == 0
  {
    if n >= 2 {
      AffixTestsFacts(w, n - 1);
      var a := AffixTests(w, n - 1);
      var pair := [HasPrefix(w[..n]), HasSuffix(w[|w| - n..])];
      assert AffixTests(w, n) == a + pair;
      AtLeastConcat(a, pair);
      NoAtLeast(pair);
      forall t: Test | (t.HasPrefix? || t.HasSuffix?) && Generates(w, n, t)
        ensures t in a + pair
      {
        if t.HasPrefix? && |t.prefix| == n { assert t == pair[0]; }
        else if t.HasSuffix? && |t.suffix| == n { assert t == pair[1]; }
        else { assert Generates(w, n - 1, t); }
      }
      NoDuplicatesConcat(a, pair);
    }
  }

  lemma NoDuplicatesConcat(a: seq<Test>, b: seq<Test>)
    requires NoDuplicates(a) && NoDuplicates(b)
    requires forall t :: t in b ==> t !in a
    ensures NoDuplicates(a + b)
  {
    forall i, j | 0 <= i < j < |a + b| ensures (a + b)[i] != (a + b)[j] {
      if i < |a| && j >= |a| {
        assert (a + b)[j] == b[j - |a|];
        assert (a + b)[j] in b;
      }
    }
  }

  lemma {:induction false} AtLeastConcat(a: seq<Test>, b: seq<Test>)
    ensures AtLeastTests(a + b) == AtLeastTests(a) + AtLeastTests(b)
  {
    if b == [] {
      assert a + b == a;
    } else {
      var b' := b[..|b| - 1];
      assert (a + b)[..|a + b| - 1] == a + b';
      AtLeastConcat(a, b');
    }
  }

  lemma {:induction false} AllAtLeast(s: seq<Test>)
    requires forall i :: 0 <= i < |s| ==> s[i].HasAtLeast?
    ensures AtLeastTests(s) == |s|
  {
    if s != [] {
      AllAtLeast(s[..|s| - 1]);
    }
  }

  lemma {:induction false} NoAtLeast(s: seq<Test>)
    requires forall i :: 0 <= i < |s| ==> !s[i].HasAtLeast?
    ensures AtLeastTests(s) == 0
  {
    if s != [] {
      NoAtLeast(s[..|s| - 1]);
    }
  }

  /** The `At` tests of `w`, one per position, in index order. */
  function AtTests(w: string): seq<Test>
  {
    seq(|w|, i requires 0 <= i < |w| => At(w[i], i))
  }

  /**
   * All tests suited for a word. The letter groups come in the order the
   * source's hash map yields its letters, which is unspecified.
   */
  method ForWord(w: string, options: Options) returns (tests: seq<Test>)
    requires ForWordRequires(w, options.testsXfixLengths)
    ensures forall t :: t in tests <==> Generates(w, options.testsXfixLengths, t)
    ensures NoDuplicates(tests)
    ensures |w| <= |tests| && tests[..|w|] == AtTests(w)
    ensures AtLeastTests(tests) == |w|
  {
    var xfix := options.testsXfixLengths;
    tests := [];

    // "At" tests
    for i := 0 to |w|
      invariant tests == seq(i, k requires 0 <= k < i => At(w[k], k))
    {
      tests := tests + [At(w[i], i)];
    }
    forall t: Test | t.At? && Generates(w, xfix, t) ensures t in tests {
      assert tests[t.position] == t;
    }
    NoAtLeast(tests);
    ghost var ats := tests;

    // "HasAtMost"/"HasAtLeast" tests
    var letterCount := CountLetters(w);
    tests := PushCountTests(tests, w, letterCount);
    ghost var counted := tests;

    // "HasPrefix"/"HasSuffix" tests
    AffixTestsFacts(w, xfix);
    NoDuplicatesConcat(tests, AffixTests(w, xfix));
    AtLeastConcat(tests, AffixTests(w, xfix));
    tests := PushAffixes(tests, w, xfix);
    assert tests[..|w|] == counted[..|w|] == ats;
    forall t ensures t in tests <==> Generates(w, xfix, t) {
      if t.HasPrefix? || t.HasSuffix? {
        assert t in tests <==> t in AffixTests(w, xfix);
      } else if t.At? {
        assert t in tests <==> t in ats;
      } else {
        assert t in tests <==> CountTestOf(w, letterCount.Keys, t);
      }
    }
  }

  /**
   * Pushes, for each letter counted in `letterCount` in an unspecified order,
   * its `HasAtMost` test and its `HasAtLeast` tests.
   */
  method PushCountTests(tests: seq<Test>, ghost w: string, letterCount: map<char, u8>) returns (r: seq<Test>)
    requires forall l :: l in letterCount <==> l in w
    requires forall l :: l in letterCount ==> letterCount[l] as int == Occurrences(w, l) < 255
    requires NoDuplicates(tests)
    requires forall t :: t in tests ==> !(t.HasAtMost? || t.HasAtLeast?)
    ensures forall t :: t in r <==> t in tests || CountTestOf(w, letterCount.Keys, t)
    ensures NoDuplicates(r)
    ensures |tests| <= |r| && r[..|tests|] == tests
    ensures AtLeastTests(r) == AtLeastTests(tests) + |w|
  {
    r := tests;
    ghost var remaining := multiset(w);
    var rest := letterCount.Keys;
    while rest != {}
      invariant rest <= letterCount.Keys
      invariant forall t :: t in r <==> t in tests || CountTestOf(w, letterCount.Keys - rest, t)
      invariant NoDuplicates(r)
      invariant |tests| <= |r| && r[..|tests|] == tests
      invariant forall l :: l in rest ==> remaining[l] == multiset(w)[l]
      invariant forall l :: l !in rest ==> remaining[l] == 0
      invariant AtLeastTests(r) + |remaining| == AtLeastTests(tests) + |w|
      decreases rest
    {
      var letter :| letter in rest;
      var count := letterCount[letter];
      ghost var done := letterCount.Keys - rest;
      ghost var before := r;
      LetterGroupIsCountTests(w, letter, count);
      assert forall t :: t in LetterGroup(letter, count) ==> t !in before;
      NoDuplicatesConcat(before, LetterGroup(letter, count));
      AtLeastConcat(before, LetterGroup(letter, count));
      r := PushLetterGroup(r, letter, count);
      assert r[..|tests|] == before[..|tests|];
      remaining := remaining[letter := 0];
      rest := rest - {letter};
      assert letterCount.Keys - rest == done + {letter};
      CountTestOfUnion(w, done, letter);
    }
    assert remaining == multiset{};
  }

  method PushAffixes(tests: seq<Test>, w: string, xfix: nat) returns (r: seq<Test>)
    requires xfix <= 1 || xfix <= |w|
    ensures r == tests + AffixTests(w, xfix)
  {
    r := tests;
    var len := |w|;
    var p := 2;
    while p <= xfix
      invariant 2 <= p <= xfix + 1 || p == 2
      invariant r == tests + AffixTests(w, p - 1)
    {
      r := r + [HasPrefix(w[..p]), HasSuffix(w[len - p..])];
      p := p + 1;
    }
  }

  /**
   * The least number of words a kept test must exceed on both sides:
   * max(floor(wordCount * ratio), 2), where the cast of a negative product
   * saturates at 0.
   */
  function MinCount(wordCount: nat, ratio: real): (m: nat)
    ensures m >= 2
  {
    var scaled := wordCount as real * ratio;
    var truncated := if scaled < 0.0 then 0 else scaled.Floor;
    if truncated < 2 then 2 else truncated
  }

  /** Number of words of `words` whose generated tests include `t`. */
  function WordsWith(words: seq<string>, xfix: nat, t: Test): nat
  {
    if words == [] then 0
    else WordsWith(words[..|words| - 1], xfix, t) + (if Generates(words[|words| - 1], xfix, t) then 1 else 0)
  }

  lemma {:induction false} WordsWithBound(words: seq<string>, xfix: nat, t: Test)
    ensures WordsWith(words, xfix, t) <= |words|
  {
    if words != [] {
      WordsWithBound(words[..|words| - 1], xfix, t);
    }
  }

  /**
   * What the source demands for `ForDict`: every word meets `ForWord`'s
   * demands, and the lower bound does not exceed the number of words (the
   * upper bound `wordCount - minCount` is an unsigned subtraction).
   */
  predicate ForDictRequires(d: Dicts.Dict, options: Options)
  {
    (forall w :: w in Dicts.Words(d) ==> ForWordRequires(w, options.testsXfixLengths)) &&
    MinCount(Dicts.Len(d), options.testsKeepRatio) <= Dicts.Len(d)
  }

  /** Whether `t` is generated by strictly more than the lower bound and strictly fewer than the upper bound of words. */
  predicate Kept(d: Dicts.Dict, options: Options, t: Test)
  {
    var minCount := MinCount(Dicts.Len(d), options.testsKeepRatio);
    minCount < WordsWith(Dicts.Words(d), options.testsXfixLengths, t) < Dicts.Len(d) - minCount
  }

  /** A test is kept only from a dictionary of at least 2 * minCount + 2 >= 6 words. */
  lemma KeptNeedsLargeDict(d: Dicts.Dict, options: Options, t: Test)
    requires Kept(d, options, t)
    ensures Dicts.Len(d) >= 2 * MinCount(Dicts.Len(d), options.testsKeepRatio) + 2
  {
  }

  /** A kept test holds of more than minCount words of the dictionary. */
  lemma {:induction false} KeptSplits(d: Dicts.Dict, options: Options, t: Test)
    requires Kept(d, options, t)
    ensures Holding(Dicts.Words(d), t) > MinCount(Dicts.Len(d), options.testsKeepRatio)
  {
    GeneratedSatisfied(Dicts.Words(d), options.testsXfixLengths, t);
  }

  /** Number of words of `words` on which `t` holds. */
  function Holding(words: seq<string>, t: Test): nat
  {
    if words == [] then 0
    else Holding(words[..|words| - 1], t) + (if Run(t, words[|words| - 1]) then 1 else 0)
  }

  lemma {:induction false} GeneratedSatisfied(words: seq<string>, xfix: nat, t: Test)
    ensures WordsWith(words, xfix, t) <= Holding(words, t)
  {
    if words != [] {
      GeneratedSatisfied(words[..|words| - 1], xfix, t);
      if Generates(words[|words| - 1], xfix, t) {
        GeneratedHolds(words[|words| - 1], xfix, t);
      }
    }
  }

  /** Number of entries of a count map for `t`, zero when absent. */
  function CountIn(counts: map<Test, nat>, t: Test): nat
  {
    if t in counts then counts[t] else 0
  }

  /** Adds one to the count of every test of `ts`, which holds no test twice. */
  method Tally(counts: map<Test, nat>, ts: seq<Test>) returns (r: map<Test, nat>)
    requires NoDuplicates(ts)
    ensures forall t :: CountIn(r, t) == CountIn(counts, t) + (if t in ts then 1 else 0)
  {
    r := counts;
    for j := 0 to |ts|
      invariant forall t :: CountIn(r, t) == CountIn(counts, t) + (if t in ts[..j] then 1 else 0)
    {
      var t := ts[j];
      assert t !in ts[..j];
      assert ts[..j + 1] == ts[..j] + [t];
      r := r[t := CountIn(r, t) + 1];
    }
    assert ts[..|ts|] == ts;
  }

  /**
   * The tests of all dictionary words that split the dictionary well enough:
   * generated by more than `minCount` words and fewer than
   * `wordCount - minCount`. Their order is that of the source's hash map,
   * unspecified.
   */
  method ForDict(d: Dicts.Dict, options: Options) returns (tests: seq<Test>)
    requires ForDictRequires(d, options)
    ensures forall t :: t in tests <==> Kept(d, options, t)
    ensures NoDuplicates(tests)
  {
    var words := Dicts.Words(d);
    var xfix := options.testsXfixLengths;
    var testCounts: map<Test, nat> := map[];
    for i := 0 to |words|
      invariant forall t :: CountIn(testCounts, t) == WordsWith(words[..i], xfix, t)
    {
      var ts := ForWord(words[i], options);
      testCounts := Tally(testCounts, ts);
      assert words[..i + 1][..i] == words[..i];
    }
    assert words[..|words|] == words;

    var wordCount := Dicts.Len(d);
    var minCount := MinCount(wordCount, options.testsKeepRatio);
    var maxCount := wordCount - minCount;

    tests := [];
    var rest := testCounts.Keys;
    while rest != {}
      invariant rest <= testCounts.Keys
      invariant forall t :: t in tests <==> t in testCounts && t !in rest && minCount < testCounts[t] < maxCount
      invariant NoDuplicates(tests)
      decreases rest
    {
      var t :| t in rest;
      if minCount < testCounts[t] && testCounts[t] < maxCount {
        NoDuplicatesPush(tests, t);
        tests := tests + [t];
      }
      rest := rest - {t};
    }
    forall t ensures t in tests <==> Kept(d, options, t) {
      assert CountIn(testCounts, t) == WordsWith(words, xfix, t);
    }
  }
}
