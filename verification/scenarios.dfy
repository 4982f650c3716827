/** Concrete runs of the solver, each proved from the general contracts:
    the option values are parsed first, the members of the output are then
    worked out word by word, and the order follows from the output being
    strictly sorted (`RunDetermined`). */
module Scenarios {
  import opened Outcome
  import opened Lex
  import opened Parsing
  import opened Solver

  const Words: set<string> := {"crane", "crate", "grate", "plate"}

  /** An option value without commas or capitals is a single token. */
  lemma SingleToken(s: string)
    requires forall i :: 0 <= i < |s| ==> s[i] != ',' && !IsAsciiUpper(s[i])
    ensures Tokens(s) == [s]
  {
    assert AsciiLower(s) == s;
    SplitNoComma(s);
  }

  /** A lone digit-letter token records its letter at the digit minus one
      and nothing else. */
  lemma SingleKnownParsed(t: string, length: int)
    requires |t| == 2 && IsKnownToken(t) && length >= 1
    ensures ParseKnown(t, length) == Success(map[t[0] as int - '1' as int := t[1]])
  {
    SingleToken(t);
    SingleKnownInserted(t);
  }

  lemma SingleKnownInserted(t: string)
    requires IsKnownToken(t)
    ensures InsertKnown([t], map[]) == Success(map[TokenPosition(t) := t[1]])
  {
    assert [t][1..] == [];
  }

  /** The token `3e` pins 'e' at index 2. */
  lemma ThirdLetterParsed()
    ensures ParseKnown("3e", 5) == Success(map[2 := 'e'])
  {
    SingleKnownParsed("3e", 5);
  }

  /** The token `1c` pins 'c' at index 0. */
  lemma FirstLetterCParsed()
    ensures ParseKnown("1c", 5) == Success(map[0 := 'c'])
  {
    SingleKnownParsed("1c", 5);
  }

  /** The token `1a` pins 'a' at index 0. */
  lemma FirstLetterAParsed()
    ensures ParseKnown("1a", 5) == Success(map[0 := 'a'])
  {
    SingleKnownParsed("1a", 5);
  }

  /** A capital in the exclude option excludes its small letter. */
  lemma CapitalExcluded()
    ensures ExcludedLetters("A") == {'a'}
  {
    assert AsciiLower("A") == "a";
    SingleToken("a");
    assert forall c :: c in ExcludedLetters("A") <==> c == 'a';
  }

  lemma NoKnownPositions(length: int)
    ensures ParseKnown("", length) == Success(map[])
  {
  }

  lemma CraneCrateSorted()
    ensures StrictlySorted(["crane", "crate"])
  {
    LexLessAtFirstDifference("crane", "crate", 3);
  }

  lemma WordsWithTSorted()
    ensures StrictlySorted(["crate", "grate", "plate"])
  {
    LexLessAtFirstDifference("crate", "grate", 0);
    LexLessAtFirstDifference("crate", "plate", 0);
    LexLessAtFirstDifference("grate", "plate", 0);
  }

  lemma KnownFirstLetterMembers()
    ensures forall w :: w in ["crane", "crate"] <==> w in Words && IsSolution(w, 5, "", "", map[0 := 'c'])
  {
    SingleToken("");
    forall w
      ensures w in ["crane", "crate"] <==> w in Words && IsSolution(w, 5, "", "", map[0 := 'c'])
    {
      if w == "grate" || w == "plate" {
        assert w[0] != 'c';
      }
    }
  }

  /** Known first letter 'c': only the two dictionary words starting with
      'c' remain, in order. */
  lemma KnownFirstLetter()
    ensures Run(5, "", "", "1c", Words) == Success(["crane", "crate"])
  {
    FirstLetterCParsed();
    CraneCrateSorted();
    KnownFirstLetterMembers();
    RunDetermined(5, "", "", "1c", Words, map[0 := 'c'], ["crane", "crate"]);
  }

  lemma RequiredLetterMembers()
    ensures forall w :: w in ["crate", "grate", "plate"] <==> w in Words && IsSolution(w, 5, "", "t", map[])
  {
    SingleToken("");
    SingleToken("t");
    forall w
      ensures w in ["crate", "grate", "plate"] <==> w in Words && IsSolution(w, 5, "", "t", map[])
    {
      if w == "crane" {
        assert 't' !in w;
        assert IsAsciiLower('t') && ['t'] in Tokens("t") && ['t'] !in Tokens("");
      }
    }
  }

  /** Required letter 't': the three dictionary words holding a 't' remain,
      in order. */
  lemma RequiredLetter()
    ensures Run(5, "", "t", "", Words) == Success(["crate", "grate", "plate"])
  {
    NoKnownPositions(5);
    WordsWithTSorted();
    RequiredLetterMembers();
    RunDetermined(5, "", "t", "", Words, map[], ["crate", "grate", "plate"]);
  }

  lemma ExcludedLetterRejects()
    ensures !IsSolution("abcde", 5, "a", "", map[])
  {
    SingleToken("a");
    assert ["abcde"[0]] in Tokens("a");
  }

  lemma ExcludedLetterMembers()
    ensures forall w :: w in [] <==> w in {"abcde"} && IsSolution(w, 5, "a", "", map[])
  {
    ExcludedLetterRejects();
  }

  /** Excluded 'a': the only dictionary word has 'a' at a free position, so
      nothing is found. */
  lemma ExcludedLetter()
    ensures Run(5, "a", "", "", {"abcde"}) == Success([])
  {
    NoKnownPositions(5);
    ExcludedLetterMembers();
    RunDetermined(5, "a", "", "", {"abcde"}, map[], []);
  }

  lemma KnownExcludedLetterAccepts()
    ensures IsSolution("abcde", 5, "a", "", map[0 := 'a'])
  {
    SingleToken("a");
    SingleToken("");
  }

  lemma KnownLetterBeatsExclusionMembers()
    ensures forall w :: w in ["abcde"] <==> w in {"abcde"} && IsSolution(w, 5, "a", "", map[0 := 'a'])
  {
    KnownExcludedLetterAccepts();
  }

  /** A known letter is placed even when it is excluded: exclusion only
      restricts the free positions. */
  lemma KnownLetterBeatsExclusion()
    ensures Run(5, "a", "", "1a", {"abcde"}) == Success(["abcde"])
  {
    FirstLetterAParsed();
    KnownLetterBeatsExclusionMembers();
    RunDetermined(5, "a", "", "1a", {"abcde"}, map[0 := 'a'], ["abcde"]);
  }

  lemma ExclusionBeatsInclusionMembers()
    ensures forall w :: w in ["crane"] <==> w in Words && IsSolution(w, 5, "t", "t", map[])
  {
    SingleToken("t");
    forall w
      ensures w in ["crane"] <==> w in Words && IsSolution(w, 5, "t", "t", map[])
    {
      if w != "crane" && w in Words {
        assert w[3] == 't' && ['t'] in Tokens("t");
      }
    }
  }

  /** A letter both excluded and included is not required: only the free
      positions feel the exclusion. */
  lemma ExclusionBeatsInclusion()
    ensures Run(5, "t", "t", "", Words) == Success(["crane"])
  {
    NoKnownPositions(5);
    ExclusionBeatsInclusionMembers();
    RunDetermined(5, "t", "t", "", Words, map[], ["crane"]);
  }

  lemma RepeatedTokensSplit()
    ensures Tokens("1a,1a") == ["1a", "1a"]
  {
    RepeatedTokensLower();
    RepeatedTokensPieces();
  }

  lemma RepeatedTokensPieces()
    ensures Split("1a,1a") == ["1a", "1a"]
  {
    RepeatedTokensJoined();
    SplitPiece("1a", "1a");
    SplitNoComma("1a");
  }

  lemma RepeatedTokensLower()
    ensures AsciiLower("1a,1a") == "1a,1a"
  {
  }

  lemma RepeatedTokensJoined()
    ensures "1a,1a" == "1a" + [','] + "1a"
  {
  }

  lemma RepeatedTokensInserted()
    ensures InsertKnown(["1a", "1a"], map[]) == Failure(DuplicatePosition(0))
  {
    assert ["1a", "1a"][1..] == ["1a"];
    assert InsertKnown(["1a", "1a"], map[]) == InsertKnown(["1a"], map[0 := 'a']);
  }

  lemma RepeatedPositionParsed()
    ensures ParseKnown("1a,1a", 5) == Failure(DuplicatePosition(0))
  {
    RepeatedTokensSplit();
    RepeatedTokensInserted();
  }

  /** Naming a position twice fails, even with the same letter, and before
      the dictionary is looked at. */
  lemma RepeatedPosition()
    ensures Run(5, "", "", "1a,1a", {}) == Failure(DuplicatePosition(0))
  {
    RepeatedPositionParsed();
  }

  /** A known list with more tokens than the word length is ignored
      entirely, well-formed tokens included. */
  lemma TooManyKnownTokens()
    ensures ParseKnown("1a,2b,3c", 2) == Success(map[])
  {
    assert |Tokens("1a,2b,3c")| == 3 by {
      assert AsciiLower("1a,2b,3c") == "1a,2b,3c";
      assert multiset("1a,2b,3c")[','] == 2;
    }
  }

  /** An empty dictionary is reported as such. */
  lemma EmptyDictionaryReported()
    ensures Run(5, "", "", "", {}) == Failure(EmptyDictionary)
  {
    NoKnownPositions(5);
  }

  lemma EmptyWordAccepted()
    ensures IsSolution("", 0, "", "", map[])
  {
    SingleToken("");
  }

  lemma ZeroLengthMembers()
    ensures forall w :: w in [""] <==> w in {"", "a"} && IsSolution(w, 0, "", "", map[])
  {
    EmptyWordAccepted();
  }

  /** Word length 0 yields the empty word alone, when it is in the
      dictionary. */
  lemma ZeroLength()
    ensures Run(0, "", "", "", {"", "a"}) == Success([""])
  {
    NoKnownPositions(0);
    ZeroLengthMembers();
    RunDetermined(0, "", "", "", {"", "a"}, map[], [""]);
  }
}
