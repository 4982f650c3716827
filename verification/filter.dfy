/** The required-letter filter applied to the generator's output: a word
    survives when it contains every required letter somewhere. */
module RequiredFilter {
  import opened Lex

  /** Every letter of `required` occurs somewhere in `word`. */
  predicate ContainsAll(word: string, required: set<char>)
  {
    forall c :: c in required ==> c in word
  }

  /** `a` is `b` with some elements removed: each element of `b` is either
      skipped or matched, in order. */
  predicate IsSubsequence(a: seq<string>, b: seq<string>)
    decreases |b|
  {
    if |b| == 0 then |a| == 0
    else IsSubsequence(a, b[1..]) || (|a| > 0 && a[0] == b[0] && IsSubsequence(a[1..], b[1..]))
  }

  /** The words of `words` that contain every letter of `required`, in order. */
  function KeepContainingAll(words: seq<string>, required: set<char>): (r: seq<string>)
    ensures |r| <= |words|
    ensures forall i :: 0 <= i < |r| ==> ContainsAll(r[i], required)
    decreases |words|
  {
    if |words| == 0 then
      []
    else
      (if ContainsAll(words[0], required) then [words[0]] else [])
      + KeepContainingAll(words[1..], required)
  }

  /** The filter as the solver applies it: skipped when no letter is
      required. */
  function FilterRequired(words: seq<string>, required: set<char>): (r: seq<string>)
    ensures forall w :: w in r <==> w in words && ContainsAll(w, required)
    ensures forall w :: multiset(r)[w] == if ContainsAll(w, required) then multiset(words)[w] else 0
    ensures IsSubsequence(r, words)
    ensures StrictlySorted(words) ==> StrictlySorted(r)
  {
    KeepMembers(words, required);
    KeepCounts(words, required);
    KeepIsSubsequence(words, required);
    KeepSorted(words, required);
    KeepWithNothingRequired(words);
    if required != {} then KeepContainingAll(words, required) else words
  }

  lemma {:induction false} KeepMembers(words: seq<string>, required: set<char>)
    ensures forall w :: w in KeepContainingAll(words, required) <==> w in words && ContainsAll(w, required)
    decreases |words|
  {
    if |words| > 0 {
      KeepMembers(words[1..], required);
      assert words == [words[0]] + words[1..];
    }
  }

  lemma {:induction false} KeepCounts(words: seq<string>, required: set<char>)
    ensures forall w :: multiset(KeepContainingAll(words, required))[w]
                        == if ContainsAll(w, required) then multiset(words)[w] else 0
    decreases |words|
  {
    if |words| > 0 {
      KeepCounts(words[1..], required);
      assert words == [words[0]] + words[1..];
      assert multiset(words) == multiset([words[0]]) + multiset(words[1..]);
    }
  }

  lemma {:induction false} KeepIsSubsequence(words: seq<string>, required: set<char>)
    ensures IsSubsequence(KeepContainingAll(words, required), words)
    decreases |words|
  {
    if |words| > 0 {
      var kept := KeepContainingAll(words, required);
      KeepIsSubsequence(words[1..], required);
      if ContainsAll(words[0], required) {
        assert kept[0] == words[0] && kept[1..] == KeepContainingAll(words[1..], required);
        assert IsSubsequence(kept[1..], words[1..]);
      } else {
        assert kept == KeepContainingAll(words[1..], required);
      }
    }
  }

  lemma {:induction false} KeepSorted(words: seq<string>, required: set<char>)
    ensures StrictlySorted(words) ==> StrictlySorted(KeepContainingAll(words, required))
    decreases |words|
  {
    if |words| > 0 && StrictlySorted(words) {
      var rest := KeepContainingAll(words[1..], required);
      assert StrictlySorted(words[1..]);
      KeepSorted(words[1..], required);
      if ContainsAll(words[0], required) {
        KeepMembers(words[1..], required);
        forall x, y | x in [words[0]] && y in rest
          ensures LexLess(x, y)
        {
          var j :| 1 <= j < |words| && words[j] == y;
        }
        SortedConcat([words[0]], rest);
      }
    }
  }

  /** The filter keeps every word when no letter is required, so the
      solver's skipping it for an empty required list changes nothing. */
  lemma {:induction false} KeepWithNothingRequired(words: seq<string>)
    ensures KeepContainingAll(words, {}) == words
    decreases |words|
  {
    if |words| > 0 {
      KeepWithNothingRequired(words[1..]);
      assert words == [words[0]] + words[1..];
    }
  }

  lemma {:induction false} KeepAppend(words: seq<string>, w: string, required: set<char>)
    ensures KeepContainingAll(words + [w], required)
            == KeepContainingAll(words, required) + (if ContainsAll(w, required) then [w] else [])
    decreases |words|
  {
    if |words| > 0 {
      assert (words + [w])[1..] == words[1..] + [w];
      KeepAppend(words[1..], w, required);
    } else {
      assert [w][1..] == [];
    }
  }

  /** The source's loop: for each word, test the required letters one by one
      (in whatever order the set hands them out) and stop at the first one
      missing; keep the word when none is missing. */
  method FilterByLoop(words: seq<string>, requiredLetters: seq<char>) returns (kept: seq<string>)
    ensures kept == FilterRequired(words, set c | c in requiredLetters)
  {
    ghost var required := set c | c in requiredLetters;
    if |requiredLetters| == 0 {
      return words;
    }
    assert requiredLetters[0] in required;
    kept := [];
    var i := 0;
    while i < |words|
      invariant 0 <= i <= |words|
      invariant kept == KeepContainingAll(words[..i], required)
    {
      var word := words[i];
      var wordIsValid := true;
      var j := 0;
      while j < |requiredLetters|
        invariant 0 <= j <= |requiredLetters|
        invariant wordIsValid
        invariant forall k :: 0 <= k < j ==> requiredLetters[k] in word
      {
        wordIsValid := wordIsValid && requiredLetters[j] in word;
        if !wordIsValid {
          break;
        }
        j := j + 1;
      }
      assert wordIsValid <==> ContainsAll(word, required);
      KeepAppend(words[..i], word, required);
      assert words[..i + 1] == words[..i] + [word];
      if wordIsValid {
        kept := kept + [word];
      }
      i := i + 1;
    }
    assert words[..i] == words;
  }
}
