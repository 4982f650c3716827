/** Parsing of the three comma-separated constraint options: excluded
    letters, required letters and known letter positions. */
module Parsing {
  import opened Outcome
  import opened Lex

  predicate IsAsciiLower(c: char)
  {
    'a' <= c <= 'z'
  }

  predicate IsAsciiUpper(c: char)
  {
    'A' <= c <= 'Z'
  }

  predicate IsAsciiDigit(c: char)
  {
    '0' <= c <= '9'
  }

  /** ASCII case folding of one character. */
  function LowerChar(c: char): (r: char)
    ensures IsAsciiLower(r) <==> IsAsciiLower(c) || IsAsciiUpper(c)
    ensures !IsAsciiUpper(r)
    ensures !IsAsciiUpper(c) ==> r == c
    ensures IsAsciiUpper(c) ==> r as int - 'a' as int == c as int - 'A' as int
  {
    if IsAsciiUpper(c) then (c as int + ('a' as int - 'A' as int)) as char else c
  }

  /** The option text with every ASCII capital replaced by its small letter
      and every other character kept. */
  function AsciiLower(s: string): (r: string)
    ensures |r| == |s|
    ensures forall i :: 0 <= i < |s| ==> r[i] == LowerChar(s[i])
    ensures forall i :: 0 <= i < |r| ==> !IsAsciiUpper(r[i]) && (r[i] == ',' <==> s[i] == ',')
    ensures (forall i :: 0 <= i < |s| ==> !IsAsciiUpper(s[i])) ==> r == s
  {
    seq(|s|, i requires 0 <= i < |s| => LowerChar(s[i]))
  }

  /** The pieces of `parts` joined with a comma between neighbours. */
  function Join(parts: seq<string>): string
    requires |parts| > 0
  {
    if |parts| == 1 then parts[0] else parts[0] + [','] + Join(parts[1..])
  }

  /** The pieces of `s` between commas, empty pieces kept, computed from
      the back: a comma starts a new piece, any other character joins the
      first piece. */
  function Pieces(s: string): (r: seq<string>)
    ensures |r| > 0
    decreases |s|
  {
    if |s| == 0 then
      [""]
    else
      var rest := Pieces(s[1..]);
      if s[0] == ',' then [""] + rest else [[s[0]] + rest[0]] + rest[1..]
  }

  /** Splitting at every comma, empty pieces kept: one more piece than there
      are commas, none holding a comma, joining them back gives `s`. */
  function Split(s: string): (r: seq<string>)
    ensures |r| == multiset(s)[','] + 1
    ensures forall i :: 0 <= i < |r| ==> ',' !in r[i]
    ensures Join(r) == s
  {
    PiecesSpec(s);
    Pieces(s)
  }

  lemma {:induction false} PiecesSpec(s: string)
    ensures |Pieces(s)| == multiset(s)[','] + 1
    ensures forall i :: 0 <= i < |Pieces(s)| ==> ',' !in Pieces(s)[i]
    ensures Join(Pieces(s)) == s
    decreases |s|
  {
    if |s| > 0 {
      var rest := Pieces(s[1..]);
      PiecesSpec(s[1..]);
      CommaCount(s);
      if s[0] == ',' {
        JoinEmptyFirst(rest);
      } else {
        assert rest == [rest[0]] + rest[1..];
        JoinExtendFirst(s[0], rest[0], rest[1..]);
        var r := Pieces(s);
        assert r == [[s[0]] + rest[0]] + rest[1..];
        forall i | 0 <= i < |r|
          ensures ',' !in r[i]
        {
          if i > 0 {
            assert r[i] == rest[i];
          }
        }
      }
    }
  }

  lemma CommaCount(s: string)
    requires |s| > 0
    ensures multiset(s)[','] == multiset(s[1..])[','] + (if s[0] == ',' then 1 else 0)
    ensures s == [s[0]] + s[1..]
  {
    assert s == [s[0]] + s[1..];
  }

  lemma JoinEmptyFirst(rest: seq<string>)
    requires |rest| > 0
    ensures Join([""] + rest) == [','] + Join(rest)
  {
    assert ([""] + rest)[1..] == rest;
  }

  lemma JoinExtendFirst(c: char, first: string, tail: seq<string>)
    ensures Join([[c] + first] + tail) == [c] + Join([first] + tail)
  {
    if |tail| == 0 {
      assert [[c] + first] + tail == [[c] + first];
      assert [first] + tail == [first];
    } else {
      JoinCons([c] + first, tail);
      JoinCons(first, tail);
    }
  }

  lemma JoinCons(a: string, rest: seq<string>)
    requires |rest| > 0
    ensures Join([a] + rest) == a + [','] + Join(rest)
  {
    assert ([a] + rest)[1..] == rest;
  }

  /** Splitting a comma-joined list of comma-free pieces gives the pieces
      back. */
  lemma {:induction false} SplitJoin(parts: seq<string>)
    requires |parts| > 0
    requires forall i :: 0 <= i < |parts| ==> ',' !in parts[i]
    ensures Split(Join(parts)) == parts
    decreases |parts|
  {
    if |parts| == 1 {
      SplitNoComma(parts[0]);
    } else {
      SplitJoin(parts[1..]);
      SplitPiece(parts[0], Join(parts[1..]));
      assert parts == [parts[0]] + parts[1..];
    }
  }

  lemma {:induction false} SplitNoComma(s: string)
    requires ',' !in s
    ensures Split(s) == [s]
  {
    PiecesNoComma(s);
  }

  lemma {:induction false} PiecesNoComma(s: string)
    requires ',' !in s
    ensures Pieces(s) == [s]
    decreases |s|
  {
    if |s| > 0 {
      PiecesNoComma(s[1..]);
      assert s == [s[0]] + s[1..];
    }
  }

  lemma SplitPiece(piece: string, tail: string)
    requires ',' !in piece
    ensures Split(piece + [','] + tail) == [piece] + Split(tail)
  {
    PiecesPiece(piece, tail);
  }

  lemma {:induction false} PiecesPiece(piece: string, tail: string)
    requires ',' !in piece
    ensures Pieces(piece + [','] + tail) == [piece] + Pieces(tail)
    decreases |piece|
  {
    var s := piece + [','] + tail;
    if |piece| == 0 {
      assert s[1..] == tail by {
        assert s == [','] + tail;
      }
    } else {
      assert s[1..] == piece[1..] + [','] + tail;
      PiecesPiece(piece[1..], tail);
      var rest := Pieces(s[1..]);
      assert rest[0] == piece[1..] && rest[1..] == Pieces(tail);
      assert [s[0]] + piece[1..] == piece;
    }
  }

  /** The comma-separated tokens of an option value after case folding:
      one more token than the option has commas, none holding a comma or an
      ASCII capital, and joined back with commas they give the folded
      option. */
  function Tokens(option: string): (r: seq<string>)
    ensures |r| == multiset(option)[','] + 1
    ensures forall i :: 0 <= i < |r| ==> ',' !in r[i]
    ensures Join(r) == AsciiLower(option)
  {
    LowerKeepsCommas(option);
    Split(AsciiLower(option))
  }

  /** Case folding neither adds nor removes commas. */
  lemma {:induction false} LowerKeepsCommas(s: string)
    ensures multiset(AsciiLower(s))[','] == multiset(s)[',']
    decreases |s|
  {
    if |s| > 0 {
      LowerKeepsCommas(s[1..]);
      CommaCount(s);
      AsciiLowerCons(s);
      CommaCount(AsciiLower(s));
    }
  }

  lemma AsciiLowerCons(s: string)
    requires |s| > 0
    ensures AsciiLower(s)[1..] == AsciiLower(s[1..])
    ensures AsciiLower(s)[0] == LowerChar(s[0])
  {
  }

  /** The letters given as one-character tokens that are ASCII small
      letters. */
  function LetterTokens(tokens: seq<string>): (r: set<char>)
    ensures forall c :: c in r <==> IsAsciiLower(c) && [c] in tokens
    decreases |tokens|
  {
    if |tokens| == 0 then
      {}
    else
      assert tokens == [tokens[0]] + tokens[1..];
      assert forall c :: [c] == tokens[0] <==> |tokens[0]| == 1 && c == tokens[0][0];
      (if |tokens[0]| == 1 && IsAsciiLower(tokens[0][0]) then {tokens[0][0]} else {})
      + LetterTokens(tokens[1..])
  }

  /** The excluded letters: each token of the exclude option that is exactly
      one ASCII small letter (after case folding); tokens of any other length
      or character are ignored. */
  function ExcludedLetters(option: string): (r: set<char>)
    ensures forall c :: c in r <==> IsAsciiLower(c) && [c] in Tokens(option)
  {
    if |option| > 0 then
      LetterTokens(Tokens(option))
    else
      assert Tokens(option) == [""];
      {}
  }

  /** The required letters: each token of the include option that is exactly
      one ASCII small letter and is not excluded. */
  function RequiredLetters(option: string, excluded: set<char>): (r: set<char>)
    ensures forall c :: c in r <==> IsAsciiLower(c) && [c] in Tokens(option) && c !in excluded
  {
    if |option| > 0 then
      LetterTokens(Tokens(option)) - excluded
    else
      assert Tokens(option) == [""];
      {}
  }

  /** The letters with codes from `code` up to 'z' that are not excluded,
      in code order. */
  function LettersFrom(code: int, excluded: set<char>): (r: seq<char>)
    requires 'a' as int <= code <= 'z' as int + 1
    ensures forall c :: c in r <==> code <= c as int <= 'z' as int && c !in excluded
    ensures forall i :: 0 <= i < |r| ==> code <= r[i] as int
    ensures StrictlyAscending(r)
    decreases 'z' as int + 1 - code
  {
    if code == 'z' as int + 1 then
      []
    else
      var c := code as char;
      (if c !in excluded then [c] else []) + LettersFrom(code + 1, excluded)
  }

  /** The valid letters: 'a' to 'z' in ascending order, the excluded letters
      left out. */
  function ValidLetters(excluded: set<char>): (r: seq<char>)
    ensures forall c :: c in r <==> IsAsciiLower(c) && c !in excluded
    ensures StrictlyAscending(r)
  {
    LettersFrom('a' as int, excluded)
  }

  /** A known-position token: one ASCII digit then one ASCII small letter.
      The source's anchored pattern ends in `$`, which also matches just
      before a final line feed, so a trailing line feed is accepted too. */
  predicate IsKnownToken(t: string)
  {
    && (|t| == 2 || (|t| == 3 && t[2] == '\n'))
    && IsAsciiDigit(t[0])
    && IsAsciiLower(t[1])
  }

  /** The zero-based position a known-position token names: its digit minus
      one, so the digit 0 names position -1. */
  function TokenPosition(t: string): (p: int)
    requires IsKnownToken(t)
    ensures p == t[0] as int - '1' as int
    ensures -1 <= p <= 8
  {
    (t[0] as int - '0' as int) - 1
  }

  /** Two known-position tokens of the list name the same position. */
  predicate PositionRepeats(tokens: seq<string>)
  {
    exists i, j :: 0 <= i < j < |tokens| && IsKnownToken(tokens[i]) && IsKnownToken(tokens[j])
                   && TokenPosition(tokens[i]) == TokenPosition(tokens[j])
  }

  /** Some known-position token of the list names position `p`. */
  predicate NamesPosition(tokens: seq<string>, p: int)
  {
    exists t :: t in tokens && IsKnownToken(t) && TokenPosition(t) == p
  }

  /** Adds the known-position tokens to `acc` left to right, skipping other
      tokens; adding a position already present fails. */
  function InsertKnown(tokens: seq<string>, acc: map<int, char>): (r: Result<map<int, char>>)
    ensures r.Success? ==> forall p :: p in acc ==> p in r.value && r.value[p] == acc[p]
    ensures r.Failure? ==> r.error.DuplicatePosition?
    decreases |tokens|
  {
    if |tokens| == 0 then
      Success(acc)
    else if IsKnownToken(tokens[0]) then
      var p := TokenPosition(tokens[0]);
      if p in acc then Failure(DuplicatePosition(p))
      else InsertKnown(tokens[1..], acc[p := tokens[0][1]])
    else
      InsertKnown(tokens[1..], acc)
  }

  /** Token `j` is the first to name a position already taken: it names
      `p`, `p` is in `acc` or named by an earlier token, and the tokens before
      `j` add to `acc` without any clash. */
  predicate FirstClashAt(tokens: seq<string>, acc: map<int, char>, j: int, p: int)
  {
    && 0 <= j < |tokens|
    && IsKnownToken(tokens[j]) && TokenPosition(tokens[j]) == p
    && (p in acc || NamesPosition(tokens[..j], p))
    && !PositionRepeats(tokens[..j])
    && (forall q :: NamesPosition(tokens[..j], q) ==> q !in acc)
  }

  lemma NamesPositionCons(tokens: seq<string>)
    requires |tokens| > 0
    ensures forall p :: NamesPosition(tokens, p) <==>
      (IsKnownToken(tokens[0]) && TokenPosition(tokens[0]) == p) || NamesPosition(tokens[1..], p)
  {
    assert tokens == [tokens[0]] + tokens[1..];
    forall p | NamesPosition(tokens, p)
      ensures (IsKnownToken(tokens[0]) && TokenPosition(tokens[0]) == p) || NamesPosition(tokens[1..], p)
    {
      var t :| t in tokens && IsKnownToken(t) && TokenPosition(t) == p;
      if t != tokens[0] {
        assert t in tokens[1..];
      }
    }
  }

  lemma PositionRepeatsCons(tokens: seq<string>)
    requires |tokens| > 0
    ensures PositionRepeats(tokens) <==>
      || PositionRepeats(tokens[1..])
      || (IsKnownToken(tokens[0]) && NamesPosition(tokens[1..], TokenPosition(tokens[0])))
  {
    if PositionRepeats(tokens) {
      RepeatsSplit(tokens);
    }
    if PositionRepeats(tokens[1..]) {
      RepeatsInTail(tokens);
    }
    if IsKnownToken(tokens[0]) && NamesPosition(tokens[1..], TokenPosition(tokens[0])) {
      RepeatsWithHead(tokens);
    }
  }

  lemma RepeatsSplit(tokens: seq<string>)
    requires |tokens| > 0 && PositionRepeats(tokens)
    ensures || PositionRepeats(tokens[1..])
            || (IsKnownToken(tokens[0]) && NamesPosition(tokens[1..], TokenPosition(tokens[0])))
  {
    var rest := tokens[1..];
    var i, j :| 0 <= i < j < |tokens| && IsKnownToken(tokens[i]) && IsKnownToken(tokens[j])
                && TokenPosition(tokens[i]) == TokenPosition(tokens[j]);
    if i == 0 {
      assert tokens[j] == rest[j - 1];
      assert tokens[j] in rest;
    } else {
      assert tokens[i] == rest[i - 1] && tokens[j] == rest[j - 1];
    }
  }

  lemma RepeatsInTail(tokens: seq<string>)
    requires |tokens| > 0 && PositionRepeats(tokens[1..])
    ensures PositionRepeats(tokens)
  {
    var rest := tokens[1..];
    var i, j :| 0 <= i < j < |rest| && IsKnownToken(rest[i]) && IsKnownToken(rest[j])
                && TokenPosition(rest[i]) == TokenPosition(rest[j]);
    assert tokens[i + 1] == rest[i] && tokens[j + 1] == rest[j];
  }

  lemma RepeatsWithHead(tokens: seq<string>)
    requires |tokens| > 0 && IsKnownToken(tokens[0])
    requires NamesPosition(tokens[1..], TokenPosition(tokens[0]))
    ensures PositionRepeats(tokens)
  {
    var rest := tokens[1..];
    var t :| t in rest && IsKnownToken(t) && TokenPosition(t) == TokenPosition(tokens[0]);
    var j :| 0 <= j < |rest| && rest[j] == t;
    assert tokens[j + 1] == t;
  }

  /** Adding the tokens to `acc` succeeds exactly when no two tokens name the
      same position and none names a position already in `acc`; the map it
      then returns holds `acc` and, at each named position, that token's
      letter. A failure reports a position some token names. */
  lemma {:induction false} InsertKnownSpec(tokens: seq<string>, acc: map<int, char>)
    ensures InsertKnown(tokens, acc).Success? <==>
      && !PositionRepeats(tokens)
      && forall p :: NamesPosition(tokens, p) ==> p !in acc
    ensures InsertKnown(tokens, acc).Success? ==>
      var m := InsertKnown(tokens, acc).value;
      && (forall p :: p in m <==> p in acc || NamesPosition(tokens, p))
      && (forall p :: p in acc ==> m[p] == acc[p])
      && (forall t :: t in tokens && IsKnownToken(t) ==> TokenPosition(t) in m && m[TokenPosition(t)] == t[1])
    ensures InsertKnown(tokens, acc).Failure? ==>
      var e := InsertKnown(tokens, acc).error;
      e.DuplicatePosition? && NamesPosition(tokens, e.position)
    ensures InsertKnown(tokens, acc).Failure? ==>
      exists j :: FirstClashAt(tokens, acc, j, InsertKnown(tokens, acc).error.position)
  {
    InsertKnownSucceeds(tokens, acc);
    InsertKnownFails(tokens, acc);
    InsertKnownFirstClash(tokens, acc);
    if InsertKnown(tokens, acc).Success? {
      InsertKnownKeys(tokens, acc);
      InsertKnownValues(tokens, acc);
    }
  }

  lemma {:induction false} InsertKnownSucceeds(tokens: seq<string>, acc: map<int, char>)
    ensures InsertKnown(tokens, acc).Success? <==>
      && !PositionRepeats(tokens)
      && forall p :: NamesPosition(tokens, p) ==> p !in acc
    decreases |tokens|
  {
    if |tokens| == 0 {
      assert !PositionRepeats(tokens);
      assert forall p :: !NamesPosition(tokens, p);
    } else {
      NamesPositionCons(tokens);
      PositionRepeatsCons(tokens);
      if IsKnownToken(tokens[0]) {
        var p := TokenPosition(tokens[0]);
        if p !in acc {
          InsertKnownSucceeds(tokens[1..], acc[p := tokens[0][1]]);
        }
      } else {
        InsertKnownSucceeds(tokens[1..], acc);
      }
    }
  }

  lemma {:induction false} InsertKnownFails(tokens: seq<string>, acc: map<int, char>)
    ensures InsertKnown(tokens, acc).Failure? ==>
      var e := InsertKnown(tokens, acc).error;
      e.DuplicatePosition? && NamesPosition(tokens, e.position)
    decreases |tokens|
  {
    if |tokens| > 0 {
      NamesPositionCons(tokens);
      if IsKnownToken(tokens[0]) {
        var p := TokenPosition(tokens[0]);
        if p !in acc {
          InsertKnownFails(tokens[1..], acc[p := tokens[0][1]]);
        }
      } else {
        InsertKnownFails(tokens[1..], acc);
      }
    }
  }

  /** A failure reports the position of the first token that clashes, as
      the first failing `Dictionary.Add` does. */
  lemma {:induction false} InsertKnownFirstClash(tokens: seq<string>, acc: map<int, char>)
    ensures InsertKnown(tokens, acc).Failure? ==>
      exists j :: FirstClashAt(tokens, acc, j, InsertKnown(tokens, acc).error.position)
    decreases |tokens|
  {
    if |tokens| > 0 && InsertKnown(tokens, acc).Failure? {
      var t := tokens[0];
      var e := InsertKnown(tokens, acc).error;
      if IsKnownToken(t) && TokenPosition(t) in acc {
        assert tokens[..0] == [];
        assert !PositionRepeats(tokens[..0]);
        assert forall q :: !NamesPosition(tokens[..0], q);
        assert FirstClashAt(tokens, acc, 0, e.position);
      } else {
        var acc' := if IsKnownToken(t) then acc[TokenPosition(t) := t[1]] else acc;
        assert InsertKnown(tokens, acc) == InsertKnown(tokens[1..], acc');
        InsertKnownFirstClash(tokens[1..], acc');
        var j' :| FirstClashAt(tokens[1..], acc', j', e.position);
        FirstClashStep(tokens, acc, acc', j', e.position);
      }
    }
  }

  /** A clash found after the first token is a clash of the whole list, one
      token further on. */
  lemma FirstClashStep(tokens: seq<string>, acc: map<int, char>, acc': map<int, char>, j': int, p: int)
    requires |tokens| > 0
    requires IsKnownToken(tokens[0]) ==>
      TokenPosition(tokens[0]) !in acc && acc' == acc[TokenPosition(tokens[0]) := tokens[0][1]]
    requires !IsKnownToken(tokens[0]) ==> acc' == acc
    requires FirstClashAt(tokens[1..], acc', j', p)
    ensures FirstClashAt(tokens, acc, j' + 1, p)
  {
    var t := tokens[0];
    var before := tokens[..j' + 1];
    assert |before| > 0 && before[0] == t;
    assert before[1..] == tokens[1..][..j'];
    assert tokens[j' + 1] == tokens[1..][j'];
    NamesPositionCons(before);
    PositionRepeatsCons(before);
  }

  lemma {:induction false} InsertKnownKeys(tokens: seq<string>, acc: map<int, char>)
    requires InsertKnown(tokens, acc).Success?
    ensures var m := InsertKnown(tokens, acc).value;
      && (forall p :: p in m <==> p in acc || NamesPosition(tokens, p))
      && (forall p :: p in acc ==> m[p] == acc[p])
    decreases |tokens|
  {
    if |tokens| == 0 {
      assert forall p :: !NamesPosition(tokens, p);
    } else {
      NamesPositionCons(tokens);
      if IsKnownToken(tokens[0]) {
        InsertKnownKeys(tokens[1..], acc[TokenPosition(tokens[0]) := tokens[0][1]]);
      } else {
        InsertKnownKeys(tokens[1..], acc);
      }
    }
  }

  lemma {:induction false} InsertKnownValues(tokens: seq<string>, acc: map<int, char>)
    requires InsertKnown(tokens, acc).Success?
    ensures var m := InsertKnown(tokens, acc).value;
      forall t :: t in tokens && IsKnownToken(t) ==> TokenPosition(t) in m && m[TokenPosition(t)] == t[1]
    decreases |tokens|
  {
    if |tokens| > 0 {
      var t := tokens[0];
      var rest := tokens[1..];
      assert tokens == [t] + rest;
      var acc' := if IsKnownToken(t) then acc[TokenPosition(t) := t[1]] else acc;
      assert InsertKnown(tokens, acc) == InsertKnown(rest, acc');
      InsertKnownValues(rest, acc');
      if IsKnownToken(t) {
        InsertKnownKeys(rest, acc');
      }
    }
  }

  /** The known-position option. The whole list is ignored when it has more
      tokens than the word length; otherwise each digit-letter token records
      its letter at its position, other tokens are skipped, and a position
      named twice is an error. */
  function ParseKnown(option: string, length: int): (r: Result<map<int, char>>)
    ensures |option| == 0 || |Tokens(option)| > length ==> r == Success(map[])
    ensures |option| > 0 && |Tokens(option)| <= length ==>
      var tokens := Tokens(option);
      && (r.Success? <==> !PositionRepeats(tokens))
      && (r.Success? ==>
            && (forall p :: p in r.value <==> NamesPosition(tokens, p))
            && (forall t :: t in tokens && IsKnownToken(t) ==>
                  TokenPosition(t) in r.value && r.value[TokenPosition(t)] == t[1]))
      && (r.Failure? ==> r.error.DuplicatePosition? && NamesPosition(tokens, r.error.position))
      && (r.Failure? ==> exists j :: FirstClashAt(tokens, map[], j, r.error.position))
  {
    if |option| > 0 then
      var tokens := Tokens(option);
      if 0 < |tokens| <= length then
        InsertKnownSpec(tokens, map[]);
        InsertKnown(tokens, map[])
      else
        Success(map[])
    else
      Success(map[])
  }
}
