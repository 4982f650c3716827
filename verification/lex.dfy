/** Ordinal lexicographic order on strings (character code by character
    code) and the sortedness notions the solver's output is stated in. */
module Lex {

  /** `a` sorts strictly before `b`: at the first position where the two
      differ `a` has the smaller character, or `a` is a proper prefix of `b`. */
  predicate LexLess(a: string, b: string)
    decreases |a|
  {
    if |a| == 0 then |b| > 0
    else |b| > 0 && (a[0] < b[0] || (a[0] == b[0] && LexLess(a[1..], b[1..])))
  }

  /** Every letter is strictly smaller than every letter after it. */
  predicate StrictlyAscending(letters: seq<char>)
  {
    forall i, j :: 0 <= i < j < |letters| ==> letters[i] < letters[j]
  }

  /** Every word sorts strictly before every word after it. */
  predicate StrictlySorted(words: seq<string>)
  {
    forall i, j :: 0 <= i < j < |words| ==> LexLess(words[i], words[j])
  }

  lemma {:induction false} LexLessIrreflexive(a: string)
    ensures !LexLess(a, a)
    decreases |a|
  {
    if |a| > 0 {
      LexLessIrreflexive(a[1..]);
    }
  }

  lemma {:induction false} LexLessAsymmetric(a: string, b: string)
    ensures LexLess(a, b) ==> !LexLess(b, a)
    decreases |a|
  {
    if |a| > 0 && |b| > 0 && a[0] == b[0] {
      LexLessAsymmetric(a[1..], b[1..]);
    }
  }

  /** Two strings that agree before index `k` and differ at `k` are ordered
      by their characters at `k`. */
  lemma {:induction false} LexLessAtFirstDifference(a: string, b: string, k: nat)
    requires k < |a| && k < |b|
    requires a[..k] == b[..k] && a[k] < b[k]
    ensures LexLess(a, b)
    decreases k
  {
    if k > 0 {
      assert a[0] == a[..k][0];
      assert b[0] == b[..k][0];
      assert a[1..][..k - 1] == a[..k][1..];
      assert b[1..][..k - 1] == b[..k][1..];
      LexLessAtFirstDifference(a[1..], b[1..], k - 1);
    }
  }

  /** Joining two sorted lists keeps them sorted when everything in the first
      sorts before everything in the second. */
  lemma SortedConcat(a: seq<string>, b: seq<string>)
    requires StrictlySorted(a) && StrictlySorted(b)
    requires forall x, y :: x in a && y in b ==> LexLess(x, y)
    ensures StrictlySorted(a + b)
  {
    var ab := a + b;
    forall i, j | 0 <= i < j < |ab|
      ensures LexLess(ab[i], ab[j])
    {
      if j < |a| {
        assert ab[i] == a[i] && ab[j] == a[j];
      } else if i >= |a| {
        assert ab[i] == b[i - |a|] && ab[j] == b[j - |a|];
      } else {
        assert ab[i] in a && ab[j] in b;
      }
    }
  }

  /** A strictly sorted list holds each word once. */
  lemma StrictlySortedDistinct(words: seq<string>)
    requires StrictlySorted(words)
    ensures forall i, j :: 0 <= i < j < |words| ==> words[i] != words[j]
  {
    forall i, j | 0 <= i < j < |words|
      ensures words[i] != words[j]
    {
      LexLessIrreflexive(words[i]);
    }
  }

  /** The first word of a strictly sorted list sorts before every other
      word of the list. */
  lemma HeadIsLeast(words: seq<string>, w: string)
    requires StrictlySorted(words)
    requires w in words && w != words[0]
    ensures LexLess(words[0], w)
  {
    var i :| 0 <= i < |words| && words[i] == w;
    assert i > 0;
  }

  /** A strictly sorted list is determined by the words it holds. */
  lemma {:induction false} SortedUnique(a: seq<string>, b: seq<string>)
    requires StrictlySorted(a) && StrictlySorted(b)
    requires forall w :: w in a <==> w in b
    ensures a == b
    decreases |a|
  {
    if |a| > 0 {
      assert a[0] in a;
    }
    if |b| > 0 {
      assert b[0] in b;
    }
    if |a| > 0 && |b| > 0 {
      assert a[0] == b[0] by {
        if a[0] != b[0] {
          HeadIsLeast(b, a[0]);
          HeadIsLeast(a, b[0]);
          LexLessAsymmetric(a[0], b[0]);
        }
      }
      LexLessIrreflexive(a[0]);
      forall w
        ensures w in a[1..] <==> w in b[1..]
      {
        if w in a[1..] {
          var i :| 1 <= i < |a| && a[i] == w;
          assert LexLess(a[0], w);
          assert w in b;
          var j :| 0 <= j < |b| && b[j] == w;
          assert j > 0 && b[1..][j - 1] == w;
        }
        if w in b[1..] {
          var j :| 1 <= j < |b| && b[j] == w;
          assert LexLess(b[0], w);
          assert w in a;
          var i :| 0 <= i < |a| && a[i] == w;
          assert i > 0 && a[1..][i - 1] == w;
        }
      }
      SortedUnique(a[1..], b[1..]);
      assert a == [a[0]] + a[1..];
      assert b == [b[0]] + b[1..];
    }
  }
}
