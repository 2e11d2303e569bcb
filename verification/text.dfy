/** Strings as the generator handles them: compared character by character
    (std::string::operator<, and java.lang.String.compareTo in the generated
    code), searched with find / find_first_of / find_first_not_of, split at a
    separator and joined again. */
module Text {
  import opened Wrappers

  // ---------------------------------------------------------------------
  // Lexicographic order
  // ---------------------------------------------------------------------

  /** Lexicographic "less than" on character codes, comparing from position i on. */
  predicate LessFrom(a: string, b: string, i: nat)
    decreases |a| - i
  {
    if i >= |a| then i < |b|
    else if i >= |b| then false
    else if a[i] != b[i] then a[i] < b[i]
    else LessFrom(a, b, i + 1)
  }

  /** The order of std::string and, on ASCII text, of java.lang.String. */
  predicate Less(a: string, b: string)
  {
    LessFrom(a, b, 0)
  }

  lemma {:induction false} LessFromIrreflexive(a: string, i: nat)
    ensures !LessFrom(a, a, i)
    decreases |a| - i
  {
    if i < |a| {
      LessFromIrreflexive(a, i + 1);
    }
  }

  lemma {:induction false} LessFromTransitive(a: string, b: string, c: string, i: nat)
    requires LessFrom(a, b, i) && LessFrom(b, c, i)
    ensures LessFrom(a, c, i)
    decreases |a| - i
  {
    if i < |a| && i < |b| && i < |c| && a[i] == b[i] && b[i] == c[i] {
      LessFromTransitive(a, b, c, i + 1);
    }
  }

  lemma {:induction false} LessFromTotal(a: string, b: string, i: nat)
    requires i <= |a| && i <= |b|
    ensures a[i..] == b[i..] || LessFrom(a, b, i) || LessFrom(b, a, i)
    decreases |a| - i
  {
    if i < |a| && i < |b| && a[i] == b[i] {
      LessFromTotal(a, b, i + 1);
      assert a[i..] == [a[i]] + a[i + 1..];
      assert b[i..] == [b[i]] + b[i + 1..];
    }
  }

  lemma LessIrreflexive(a: string)
    ensures !Less(a, a)
  {
    LessFromIrreflexive(a, 0);
  }

  lemma LessTransitive(a: string, b: string, c: string)
    requires Less(a, b) && Less(b, c)
    ensures Less(a, c)
  {
    LessFromTransitive(a, b, c, 0);
  }

  lemma LessTotal(a: string, b: string)
    ensures a == b || Less(a, b) || Less(b, a)
  {
    LessFromTotal(a, b, 0);
    assert a[0..] == a && b[0..] == b;
  }

  lemma LessAsymmetric(a: string, b: string)
    requires Less(a, b)
    ensures !Less(b, a)
  {
    if Less(b, a) {
      LessTransitive(a, b, a);
      LessIrreflexive(a);
    }
  }

  /** A string that is greater than a non-empty one is itself non-empty and
      does not start with a smaller character. */
  lemma {:induction false} LessFirstChar(a: string, b: string)
    requires |a| > 0 && Less(a, b)
    ensures |b| > 0 && a[0] <= b[0]
  {
  }

  /** Every element is below every later one: sorted, without duplicates. */
  ghost predicate StrictlySorted(s: seq<string>)
  {
    forall i, j | 0 <= i < j < |s| :: Less(s[i], s[j])
  }

  /** Every element is at most every later one (std::list::merge's demand). */
  ghost predicate Sorted(s: seq<string>)
  {
    forall i, j | 0 <= i < j < |s| :: s[i] == s[j] || Less(s[i], s[j])
  }

  /** Adjacent elements increase strictly; with transitivity this is StrictlySorted. */
  ghost predicate AdjacentIncreasing(s: seq<string>)
  {
    forall i | 0 <= i < |s| - 1 :: Less(s[i], s[i + 1])
  }

  lemma {:induction false} AdjacentIncreasingIsStrictlySorted(s: seq<string>)
    requires AdjacentIncreasing(s)
    ensures StrictlySorted(s)
    decreases |s|
  {
    if |s| > 1 {
      var t := s[1..];
      assert AdjacentIncreasing(t) by {
        forall i | 0 <= i < |t| - 1 ensures Less(t[i], t[i + 1]) {
          assert t[i] == s[i + 1] && t[i + 1] == s[i + 2];
        }
      }
      AdjacentIncreasingIsStrictlySorted(t);
      forall i, j | 0 <= i < j < |s| ensures Less(s[i], s[j]) {
        if i == 0 && j > 1 {
          assert s[1] == t[0] && s[j] == t[j - 1];
          LessTransitive(s[0], s[1], s[j]);
        } else if i > 0 {
          assert s[i] == t[i - 1] && s[j] == t[j - 1];
        }
      }
    }
  }

  /** Two increasing runs joined where the first ends below where the second starts. */
  lemma AdjacentIncreasingAppend(a: seq<string>, b: seq<string>)
    requires AdjacentIncreasing(a) && AdjacentIncreasing(b)
    requires |a| > 0 && |b| > 0 ==> Less(a[|a| - 1], b[0])
    ensures AdjacentIncreasing(a + b)
  {
    var s := a + b;
    forall i | 0 <= i < |s| - 1 ensures Less(s[i], s[i + 1]) {
      if i < |a| - 1 {
        assert s[i] == a[i] && s[i + 1] == a[i + 1];
      } else if i == |a| - 1 {
        assert s[i] == a[|a| - 1] && s[i + 1] == b[0];
      } else {
        assert s[i] == b[i - |a|] && s[i + 1] == b[i - |a| + 1];
      }
    }
  }

  // ---------------------------------------------------------------------
  // Searching
  // ---------------------------------------------------------------------

  /** std::string::find_first_of(chars, from): the first position at or after
      from whose character is in chars. */
  function FindFirstOf(s: string, chars: set<char>, from: nat): (r: Option<nat>)
    ensures r.Some? ==> from <= r.value < |s| && s[r.value] in chars
    ensures r.Some? ==> forall k | from <= k < r.value :: s[k] !in chars
    ensures r.None? ==> forall k | from <= k < |s| :: s[k] !in chars
    decreases |s| - from
  {
    if from >= |s| then None
    else if s[from] in chars then Some(from)
    else FindFirstOf(s, chars, from + 1)
  }

  /** std::string::find_first_not_of(chars, from). */
  function FindFirstNotOf(s: string, chars: set<char>, from: nat): (r: Option<nat>)
    ensures r.Some? ==> from <= r.value < |s| && s[r.value] !in chars
    ensures r.Some? ==> forall k | from <= k < r.value :: s[k] in chars
    ensures r.None? ==> forall k | from <= k < |s| :: s[k] in chars
    decreases |s| - from
  {
    if from >= |s| then None
    else if s[from] !in chars then Some(from)
    else FindFirstNotOf(s, chars, from + 1)
  }

  /** find_first_of answers with the position at when that is the first
      position from from on whose character is in chars. */
  lemma {:induction false} FindFirstOfAt(s: string, chars: set<char>, from: nat, at: nat)
    requires from <= at < |s| && s[at] in chars
    requires forall k | from <= k < at :: s[k] !in chars
    ensures FindFirstOf(s, chars, from) == Some(at)
    decreases at - from
  {
    if from < at {
      FindFirstOfAt(s, chars, from + 1, at);
    }
  }

  /** find_first_of finds nothing when no character from from on is in chars. */
  lemma {:induction false} FindFirstOfNone(s: string, chars: set<char>, from: nat)
    requires forall k | from <= k < |s| :: s[k] !in chars
    ensures FindFirstOf(s, chars, from) == None
    decreases |s| - from
  {
    if from < |s| {
      FindFirstOfNone(s, chars, from + 1);
    }
  }

  /** s.find(p) == 0: s starts with p. */
  predicate StartsWith(s: string, p: string)
  {
    |p| <= |s| && s[..|p|] == p
  }

  // ---------------------------------------------------------------------
  // Splitting and joining
  // ---------------------------------------------------------------------

  /** The character c does not occur in s. */
  predicate Lacks(s: string, c: char)
  {
    forall k | 0 <= k < |s| :: s[k] != c
  }

  /** The pieces of s from position from on between occurrences of the
      separator c, found by searching s for each next separator. */
  function Split(s: string, c: char, from: nat): (parts: seq<string>)
    requires from <= |s|
    ensures |parts| >= 1
    decreases |s| - from
  {
    match FindFirstOf(s, {c}, from)
    case None => [s[from..]]
    case Some(k) => [s[from..k]] + Split(s, c, k + 1)
  }

  /** With a separator at k, the piece before it comes first. */
  lemma SplitNext(s: string, c: char, from: nat, k: nat)
    requires from <= |s| && FindFirstOf(s, {c}, from) == Some(k)
    ensures Split(s, c, from) == [s[from..k]] + Split(s, c, k + 1)
  {
  }

  /** No piece holds the separator. */
  lemma {:induction false} SplitLacks(s: string, c: char, from: nat)
    requires from <= |s|
    ensures forall k | 0 <= k < |Split(s, c, from)| :: Lacks(Split(s, c, from)[k], c)
    decreases |s| - from
  {
    match FindFirstOf(s, {c}, from)
    case None =>
    case Some(i) =>
      SplitLacks(s, c, i + 1);
      assert Lacks(s[from..i], c) by {
        forall k | 0 <= k < i - from
          ensures s[from..i][k] != c
        {
          assert s[from..i][k] == s[from + k];
        }
      }
  }

  /** The parts, with sep between each two neighbours. */
  function Join(parts: seq<string>, sep: string): string
  {
    if |parts| == 0 then ""
    else if |parts| == 1 then parts[0]
    else parts[0] + sep + Join(parts[1..], sep)
  }

  /** Joining the pieces with the separator gives the text back. */
  lemma {:induction false} JoinSplit(s: string, c: char, from: nat)
    requires from <= |s|
    ensures Join(Split(s, c, from), [c]) == s[from..]
    decreases |s| - from
  {
    match FindFirstOf(s, {c}, from)
    case None =>
    case Some(k) =>
      var rest := Split(s, c, k + 1);
      JoinSplit(s, c, k + 1);
      assert Split(s, c, from) == [s[from..k]] + rest;
      assert s[from..] == s[from..k] + [c] + s[k + 1..];
  }

  /** Join distributes over appending one more part. */
  lemma {:induction false} JoinSnoc(parts: seq<string>, x: string, sep: string)
    requires |parts| >= 1
    ensures Join(parts + [x], sep) == Join(parts, sep) + sep + x
    decreases |parts|
  {
    if |parts| > 1 {
      assert (parts + [x])[1..] == parts[1..] + [x];
      JoinSnoc(parts[1..], x, sep);
    }
  }
}
