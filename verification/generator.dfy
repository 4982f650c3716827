/** The candidate generator: a depth-first extension of a prefix, one
    character at a time from the left, that keeps the full-length strings
    found in the dictionary. */
module Generator {
  import opened Lex

  function Max(a: int, b: int): int
  {
    if a < b then b else a
  }

  /** Position `p` of `w` obeys the constraints: a known position holds its
      known letter (whether or not that letter is valid), any other position
      holds a valid letter. */
  predicate FitsAt(w: string, p: int, valid: seq<char>, known: map<int, char>)
  {
    0 <= p < |w| && (if p in known then w[p] == known[p] else w[p] in valid)
  }

  /** Every position of `w` from `from` up to (not including) `n` obeys the
      constraints. */
  predicate Fits(w: string, from: int, n: int, valid: seq<char>, known: map<int, char>)
  {
    forall p :: from <= p < n ==> FitsAt(w, p, valid, known)
  }

  /** The words of `dict` that extend `cur` to length `n`, in the order the
      depth-first search meets them. A prefix already `n` long (or longer) is
      returned alone when it is a dictionary word. */
  function Generate(cur: string, n: int, valid: seq<char>, known: map<int, char>,
                    dict: set<string>): (r: seq<string>)
    ensures forall w :: w in r ==>
      && w in dict
      && |w| == Max(|cur|, n)
      && cur <= w
      && Fits(w, |cur|, n, valid, known)
    decreases n - |cur|, 1, 0
  {
    if |cur| < n then
      if |cur| in known then
        Generate(cur + [known[|cur|]], n, valid, known, dict)
      else
        Branch(cur, n, valid, valid, known, dict)
    else if cur in dict then
      [cur]
    else
      []
  }

  /** The words found by extending `cur` with each of `letters` in turn, the
      results concatenated in the order of `letters`. */
  function Branch(cur: string, n: int, letters: seq<char>, valid: seq<char>,
                  known: map<int, char>, dict: set<string>): (r: seq<string>)
    requires |cur| < n
    ensures forall w :: w in r ==>
      && w in dict
      && |w| == n
      && cur <= w
      && w[|cur|] in letters
      && Fits(w, |cur| + 1, n, valid, known)
    decreases n - |cur|, 0, |letters|
  {
    if |letters| == 0 then
      []
    else
      Generate(cur + [letters[0]], n, valid, known, dict)
      + Branch(cur, n, letters[1..], valid, known, dict)
  }

  /** Every dictionary word that extends `cur` to the target length and obeys
      the constraints at the positions still to be filled is found. */
  lemma {:induction false} GenerateComplete(cur: string, n: int, valid: seq<char>,
                                            known: map<int, char>, dict: set<string>, w: string)
    requires w in dict && |w| == Max(|cur|, n) && cur <= w
    requires Fits(w, |cur|, n, valid, known)
    ensures w in Generate(cur, n, valid, known, dict)
    decreases n - |cur|, 1, 0
  {
    if |cur| < n {
      var next := cur + [w[|cur|]];
      assert next <= w by {
        assert w[..|cur|] == cur;
        assert w[..|next|] == w[..|cur|] + [w[|cur|]];
      }
      assert FitsAt(w, |cur|, valid, known);
      if |cur| in known {
        GenerateComplete(next, n, valid, known, dict, w);
      } else {
        BranchComplete(cur, n, valid, valid, known, dict, w);
      }
    } else {
      assert w == cur;
    }
  }

  lemma {:induction false} BranchComplete(cur: string, n: int, letters: seq<char>, valid: seq<char>,
                                          known: map<int, char>, dict: set<string>, w: string)
    requires |cur| < n
    requires w in dict && |w| == n && cur <= w && w[|cur|] in letters
    requires Fits(w, |cur| + 1, n, valid, known)
    ensures w in Branch(cur, n, letters, valid, known, dict)
    decreases n - |cur|, 0, |letters|
  {
    if letters[0] == w[|cur|] {
      var next := cur + [letters[0]];
      assert next <= w by {
        assert w[..|cur|] == cur;
        assert w[..|next|] == w[..|cur|] + [w[|cur|]];
      }
      GenerateComplete(next, n, valid, known, dict, w);
    } else {
      BranchComplete(cur, n, letters[1..], valid, known, dict, w);
    }
  }

  /** The generator finds exactly the dictionary words that extend `cur` to the
      target length and obey the constraints at every position still to be
      filled; in particular, called with the empty prefix, exactly the
      dictionary words of length `n` that obey the constraints everywhere. */
  lemma GenerateFindsExactly(cur: string, n: int, valid: seq<char>,
                             known: map<int, char>, dict: set<string>)
    ensures forall w :: w in Generate(cur, n, valid, known, dict) <==>
      && w in dict
      && |w| == Max(|cur|, n)
      && cur <= w
      && Fits(w, |cur|, n, valid, known)
  {
    forall w | w in dict && |w| == Max(|cur|, n) && cur <= w && Fits(w, |cur|, n, valid, known)
      ensures w in Generate(cur, n, valid, known, dict)
    {
      GenerateComplete(cur, n, valid, known, dict, w);
    }
  }

  /** With the valid letters in strictly ascending order the generator's
      output is strictly sorted, hence free of duplicates. */
  lemma {:induction false} GenerateSorted(cur: string, n: int, valid: seq<char>,
                                          known: map<int, char>, dict: set<string>)
    requires StrictlyAscending(valid)
    ensures StrictlySorted(Generate(cur, n, valid, known, dict))
    decreases n - |cur|, 1, 0
  {
    if |cur| < n {
      if |cur| in known {
        GenerateSorted(cur + [known[|cur|]], n, valid, known, dict);
      } else {
        BranchSorted(cur, n, valid, valid, known, dict);
      }
    }
  }

  lemma {:induction false} BranchSorted(cur: string, n: int, letters: seq<char>, valid: seq<char>,
                                        known: map<int, char>, dict: set<string>)
    requires |cur| < n
    requires StrictlyAscending(valid) && StrictlyAscending(letters)
    ensures StrictlySorted(Branch(cur, n, letters, valid, known, dict))
    decreases n - |cur|, 0, |letters|
  {
    if |letters| > 0 {
      var next := cur + [letters[0]];
      var first := Generate(next, n, valid, known, dict);
      var rest := Branch(cur, n, letters[1..], valid, known, dict);
      GenerateSorted(next, n, valid, known, dict);
      BranchSorted(cur, n, letters[1..], valid, known, dict);
      forall x, y | x in first && y in rest
        ensures LexLess(x, y)
      {
        assert x[..|cur|] == next[..|cur|] == cur;
        assert x[|cur|] == letters[0];
        assert y[..|cur|] == cur;
        var j :| 0 <= j < |letters[1..]| && letters[1..][j] == y[|cur|];
        assert letters[0] < letters[j + 1];
        LexLessAtFirstDifference(x, y, |cur|);
      }
      SortedConcat(first, rest);
    }
  }

  /** `k1` and `k2` record the same known letters at positions `from` up to
      (not including) `n`. */
  predicate AgreeOn(k1: map<int, char>, k2: map<int, char>, from: int, n: int)
  {
    forall p :: from <= p < n ==> (p in k1 <==> p in k2) && (p in k1 ==> k1[p] == k2[p])
  }

  /** Known positions outside the positions still to be filled (negative,
      already filled, or at or beyond the target length) are never
      consulted. */
  lemma {:induction false} GenerateIgnoresOtherKeys(cur: string, n: int, valid: seq<char>,
                                                    k1: map<int, char>, k2: map<int, char>,
                                                    dict: set<string>)
    requires AgreeOn(k1, k2, |cur|, n)
    ensures Generate(cur, n, valid, k1, dict) == Generate(cur, n, valid, k2, dict)
    decreases n - |cur|, 1, 0
  {
    if |cur| < n {
      if |cur| in k1 {
        GenerateIgnoresOtherKeys(cur + [k1[|cur|]], n, valid, k1, k2, dict);
      } else {
        BranchIgnoresOtherKeys(cur, n, valid, valid, k1, k2, dict);
      }
    }
  }

  lemma {:induction false} BranchIgnoresOtherKeys(cur: string, n: int, letters: seq<char>,
                                                  valid: seq<char>, k1: map<int, char>,
                                                  k2: map<int, char>, dict: set<string>)
    requires |cur| < n
    requires AgreeOn(k1, k2, |cur| + 1, n)
    ensures Branch(cur, n, letters, valid, k1, dict) == Branch(cur, n, letters, valid, k2, dict)
    decreases n - |cur|, 0, |letters|
  {
    if |letters| > 0 {
      GenerateIgnoresOtherKeys(cur + [letters[0]], n, valid, k1, k2, dict);
      BranchIgnoresOtherKeys(cur, n, letters[1..], valid, k1, k2, dict);
    }
  }
}
