/** The solver pipeline: parse the options into constraints, reject an empty
    dictionary, generate the candidates, then apply the required-letter
    filter. */
module Solver {
  import opened Outcome
  import opened Lex
  import opened Generator
  import opened RequiredFilter
  import opened Parsing

  /** The parsed constraints handed to the solver. `known` maps zero-based
      positions to letters and may hold positions outside the word. */
  datatype Constraints = Constraints(
    length: int,
    valid: seq<char>,
    known: map<int, char>,
    required: set<char>)

  /** The word meets every constraint: it has the target length (no
      characters when the length is not positive), its known positions hold
      their letters, its other positions hold valid letters, and it contains
      every required letter. */
  predicate Satisfies(w: string, c: Constraints)
  {
    && |w| == Max(0, c.length)
    && Fits(w, 0, c.length, c.valid, c.known)
    && ContainsAll(w, c.required)
  }

  /** Parsing of the exclude, include and known options. Excluded letters
      leave the valid letters and cannot be required; a position named twice
      is the only failure. */
  function ParseConstraints(length: int, excludeOption: string, includeOption: string, knownOption: string)
    : (r: Result<Constraints>)
    ensures r.Success? <==> ParseKnown(knownOption, length).Success?
    ensures r.Failure? ==> r == Failure(ParseKnown(knownOption, length).error)
    ensures r.Success? ==>
      && r.value.length == length
      && StrictlyAscending(r.value.valid)
      && (forall c :: c in r.value.valid <==> IsAsciiLower(c) && [c] !in Tokens(excludeOption))
      && (forall c :: c in r.value.required <==>
            IsAsciiLower(c) && [c] in Tokens(includeOption) && [c] !in Tokens(excludeOption))
      && (forall c :: c in r.value.required ==> c in r.value.valid)
      && r.value.known == ParseKnown(knownOption, length).value
  {
    var excluded := ExcludedLetters(excludeOption);
    var valid := ValidLetters(excluded);
    var required := RequiredLetters(includeOption, excluded);
    match ParseKnown(knownOption, length)
    case Failure(e) => Failure(e)
    case Success(positions) => Success(Constraints(length, valid, positions, required))
  }

  /** The solver proper. An empty dictionary is an error; otherwise the
      result is exactly the dictionary words that meet every constraint,
      strictly sorted when the valid letters are ascending. */
  function SolveWordle(dict: set<string>, c: Constraints): (r: Result<seq<string>>)
    ensures r.Failure? <==> dict == {}
    ensures r.Failure? ==> r.error == EmptyDictionary
    ensures r.Success? ==> forall w :: w in r.value <==> w in dict && Satisfies(w, c)
    ensures r.Success? && StrictlyAscending(c.valid) ==> StrictlySorted(r.value)
  {
    if |dict| == 0 then
      Failure(EmptyDictionary)
    else
      var candidates := Generate("", c.length, c.valid, c.known, dict);
      GenerateFindsExactly("", c.length, c.valid, c.known, dict);
      CandidatesSorted(dict, c);
      Success(FilterRequired(candidates, c.required))
  }

  lemma CandidatesSorted(dict: set<string>, c: Constraints)
    ensures StrictlyAscending(c.valid) ==> StrictlySorted(Generate("", c.length, c.valid, c.known, dict))
  {
    if StrictlyAscending(c.valid) {
      GenerateSorted("", c.length, c.valid, c.known, dict);
    }
  }

  /** The word answers the puzzle as the options state it: it has the target
      length, each recorded known position holds its letter, each other
      position holds an ASCII small letter that the exclude option does not
      list, and every letter the include option lists, and the exclude option
      does not, occurs in it. */
  predicate IsSolution(w: string, length: int, excludeOption: string, includeOption: string,
                       positions: map<int, char>)
  {
    SolvesFor(w, length, Tokens(excludeOption), Tokens(includeOption), positions)
  }

  /** `IsSolution` over the already split exclude and include tokens. */
  predicate SolvesFor(w: string, length: int, excludeTokens: seq<string>, includeTokens: seq<string>,
                      positions: map<int, char>)
  {
    && |w| == Max(0, length)
    && (forall p :: 0 <= p < |w| ==>
          if p in positions then w[p] == positions[p]
          else IsAsciiLower(w[p]) && [w[p]] !in excludeTokens)
    && (forall c :: IsAsciiLower(c) && [c] in includeTokens && [c] !in excludeTokens ==> c in w)
  }

  lemma SatisfiesSolvesFor(w: string, c: Constraints, excludeTokens: seq<string>,
                           includeTokens: seq<string>)
    requires forall ch :: ch in c.valid <==> IsAsciiLower(ch) && [ch] !in excludeTokens
    requires forall ch :: ch in c.required <==>
      IsAsciiLower(ch) && [ch] in includeTokens && [ch] !in excludeTokens
    ensures Satisfies(w, c) <==> SolvesFor(w, c.length, excludeTokens, includeTokens, c.known)
  {
    if |w| == Max(0, c.length) {
      assert Fits(w, 0, c.length, c.valid, c.known) <==>
        forall p :: 0 <= p < |w| ==> FitsAt(w, p, c.valid, c.known);
      forall p | 0 <= p < |w|
        ensures FitsAt(w, p, c.valid, c.known) <==>
          if p in c.known then w[p] == c.known[p]
          else IsAsciiLower(w[p]) && [w[p]] !in excludeTokens
      {
      }
    }
    assert ContainsAll(w, c.required) <==>
      forall ch :: IsAsciiLower(ch) && [ch] in includeTokens && [ch] !in excludeTokens ==> ch in w;
  }

  /** One run of the program on option values and the loaded dictionary: a
      position named twice fails first, then an empty dictionary; otherwise
      the output is exactly the dictionary words that answer the puzzle, in
      strictly ascending order. */
  function Run(length: int, excludeOption: string, includeOption: string, knownOption: string,
               dict: set<string>): (r: Result<seq<string>>)
    ensures ParseKnown(knownOption, length).Failure? ==>
      r == Failure(ParseKnown(knownOption, length).error)
    ensures ParseKnown(knownOption, length).Success? ==> (r.Failure? <==> dict == {})
    ensures ParseKnown(knownOption, length).Success? && dict == {} ==> r == Failure(EmptyDictionary)
    ensures r.Success? ==>
      && StrictlySorted(r.value)
      && forall w :: w in r.value <==>
           w in dict
           && IsSolution(w, length, excludeOption, includeOption, ParseKnown(knownOption, length).value)
  {
    match ParseConstraints(length, excludeOption, includeOption, knownOption)
    case Failure(e) => Failure(e)
    case Success(c) =>
      assert forall w :: Satisfies(w, c) <==>
        IsSolution(w, c.length, excludeOption, includeOption, c.known) by {
        forall w {
          SatisfiesSolvesFor(w, c, Tokens(excludeOption), Tokens(includeOption));
        }
      }
      SolveWordle(dict, c)
  }

  /** The output is determined by its members: a strictly sorted list of
      exactly the dictionary words that answer the puzzle is what a
      successful run returns. */
  lemma RunDetermined(length: int, excludeOption: string, includeOption: string, knownOption: string,
                      dict: set<string>, positions: map<int, char>, expected: seq<string>)
    requires ParseKnown(knownOption, length) == Success(positions) && dict != {}
    requires StrictlySorted(expected)
    requires forall w :: w in expected <==>
      w in dict && IsSolution(w, length, excludeOption, includeOption, positions)
    ensures Run(length, excludeOption, includeOption, knownOption, dict) == Success(expected)
  {
    var r := Run(length, excludeOption, includeOption, knownOption, dict);
    SortedUnique(r.value, expected);
  }
}
