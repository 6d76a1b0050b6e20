/** The delta encoding of semantic tokens (`encode_semantic_tokens`, src/lsp/semantic_tokens.cpp)
    and its decoding by the rules of "Integer Encoding for Tokens" in
    textDocument/semanticTokens of the Language Server Protocol 3.17. */
module SemanticTokens {

  datatype Token = Token(line: int, character: int, length: int, kind: int, modifiers: int)

  predicate NotAfter(a: Token, b: Token) {
    a.line < b.line || (a.line == b.line && a.character <= b.character)
  }

  ghost predicate Ordered(ts: seq<Token>) {
    forall i, j | 0 <= i < j < |ts| :: NotAfter(ts[i], ts[j])
  }

  ghost predicate NonNegative(ts: seq<Token>) {
    forall i | 0 <= i < |ts| :: ts[i].line >= 0 && ts[i].character >= 0
  }

  // ---------------------------------------------------------------- sorting

  function Insert(t: Token, ts: seq<Token>): seq<Token> {
    if ts == [] || NotAfter(t, ts[0]) then [t] + ts else [ts[0]] + Insert(t, ts[1..])
  }

  lemma {:induction false} InsertKeepsOrder(t: Token, ts: seq<Token>)
    requires Ordered(ts)
    ensures Ordered(Insert(t, ts)) && multiset(Insert(t, ts)) == multiset(ts) + multiset{t}
  {
    if ts == [] || NotAfter(t, ts[0]) {
    } else {
      InsertKeepsOrder(t, ts[1..]);
      assert ts == [ts[0]] + ts[1..];
      var rest := Insert(t, ts[1..]);
      forall i | 0 <= i < |rest| ensures NotAfter(ts[0], rest[i]) {
        assert rest[i] in multiset(ts[1..]) + multiset{t};
        if rest[i] != t {
          assert rest[i] in ts[1..];
        }
      }
    }
  }

  /** `std::sort` promises an ordered permutation, and nothing about tokens at one position. */
  method Sort(tokens: seq<Token>) returns (sorted: seq<Token>)
    ensures Ordered(sorted) && multiset(sorted) == multiset(tokens)
  {
    sorted := [];
    for i := 0 to |tokens|
      invariant Ordered(sorted) && multiset(sorted) == multiset(tokens[..i])
    {
      InsertKeepsOrder(tokens[i], sorted);
      assert tokens[..i + 1] == tokens[..i] + [tokens[i]];
      sorted := Insert(tokens[i], sorted);
    }
    assert tokens[..|tokens|] == tokens;
  }

  // ---------------------------------------------------------------- encoding and decoding

  /** The five numbers for a token after one at the given position. */
  function Delta(line: int, character: int, t: Token): seq<int> {
    [t.line - line, if t.line != line then t.character else t.character - character, t.length, t.kind, t.modifiers]
  }

  function Deltas(line: int, character: int, ts: seq<Token>): (data: seq<int>)
    ensures |data| == 5 * |ts|
    decreases |ts|
  {
    if ts == [] then [] else Delta(line, character, ts[0]) + Deltas(ts[0].line, ts[0].character, ts[1..])
  }

  /** The protocol's reading: a line relative to the last token's, and a start relative to the
      last token's if both are on one line. */
  function Decode(line: int, character: int, data: seq<int>): (ts: seq<Token>)
    requires |data| % 5 == 0
    ensures 5 * |ts| == |data|
    decreases |data|
  {
    if data == [] then []
    else
      var l := line + data[0];
      var c := if data[0] == 0 then character + data[1] else data[1];
      [Token(l, c, data[2], data[3], data[4])] + Decode(l, c, data[5..])
  }

  lemma {:induction false} DecodesToTokens(line: int, character: int, ts: seq<Token>)
    ensures Decode(line, character, Deltas(line, character, ts)) == ts
    decreases |ts|
  {
    if ts == [] {
    } else {
      DecodesToTokens(ts[0].line, ts[0].character, ts[1..]);
      assert Deltas(line, character, ts)[5..] == Deltas(ts[0].line, ts[0].character, ts[1..]);
    }
  }

  ghost predicate PositionsNonNegative(data: seq<int>) {
    forall k | 0 <= k < |data| && k % 5 < 2 :: data[k] >= 0
  }

  /** The first token, if there is one, is not before the position. */
  predicate StartsFrom(line: int, character: int, ts: seq<Token>) {
    ts != [] ==> line < ts[0].line || (line == ts[0].line && character <= ts[0].character)
  }

  lemma OrderedStep(ts: seq<Token>)
    requires ts != []
    ensures Ordered(ts) <==> StartsFrom(ts[0].line, ts[0].character, ts[1..]) && Ordered(ts[1..])
  {
    var rest := ts[1..];
    assert forall i | 0 <= i < |rest| :: rest[i] == ts[i + 1];
    if StartsFrom(ts[0].line, ts[0].character, rest) && Ordered(rest) {
      forall i, j | 0 <= i < j < |ts| ensures NotAfter(ts[i], ts[j]) {
        assert ts[j] == rest[j - 1];
        if i > 0 {
          assert ts[i] == rest[i - 1];
        } else if j > 1 {
          assert NotAfter(rest[0], rest[j - 1]);
        }
      }
    }
  }

  /** The position numbers of an encoding are what the protocol's unsigned integers can hold
      exactly when the tokens are in order and at positions. */
  lemma {:induction false} DeltasNonNegativeIff(line: nat, character: nat, ts: seq<Token>)
    ensures PositionsNonNegative(Deltas(line, character, ts)) <==>
            StartsFrom(line, character, ts) && Ordered(ts) && NonNegative(ts)
    decreases |ts|
  {
    if ts == [] {
    } else {
      var t := ts[0];
      HeadAndRest(Delta(line, character, t), Deltas(t.line, t.character, ts[1..]));
      OrderedStep(ts);
      assert NonNegative(ts) <==> t.line >= 0 && t.character >= 0 && NonNegative(ts[1..]) by {
        assert forall i | 0 < i < |ts| :: ts[i] == ts[1..][i - 1];
        assert forall i | 0 <= i < |ts[1..]| :: ts[1..][i] == ts[i + 1];
      }
      if t.line >= 0 && t.character >= 0 {
        DeltasNonNegativeIff(t.line, t.character, ts[1..]);
      }
    }
  }

  lemma HeadAndRest(five: seq<int>, rest: seq<int>)
    requires |five| == 5
    ensures PositionsNonNegative(five + rest) <==> five[0] >= 0 && five[1] >= 0 && PositionsNonNegative(rest)
  {
    var data := five + rest;
    if PositionsNonNegative(data) {
      assert data[0] == five[0] && data[1] == five[1];
      forall k | 0 <= k < |rest| && k % 5 < 2 ensures rest[k] >= 0 {
        assert data[k + 5] == rest[k] && (k + 5) % 5 == k % 5;
      }
    }
    if five[0] >= 0 && five[1] >= 0 && PositionsNonNegative(rest) {
      forall k | 0 <= k < |data| && k % 5 < 2 ensures data[k] >= 0 {
        if k >= 5 {
          assert data[k] == rest[k - 5] && (k - 5) % 5 == k % 5;
        }
      }
    }
  }

  lemma DeltasStep(data: seq<int>, line: int, character: int, ts: seq<Token>)
    requires ts != []
    ensures data + Deltas(line, character, ts)
         == (data + Delta(line, character, ts[0])) + Deltas(ts[0].line, ts[0].character, ts[1..])
  {
    var five, rest := Delta(line, character, ts[0]), Deltas(ts[0].line, ts[0].character, ts[1..]);
    assert data + (five + rest) == (data + five) + rest;
  }

  /** The loop over the sorted tokens. */
  method EncodeSorted(sorted: seq<Token>) returns (data: seq<int>)
    ensures data == Deltas(0, 0, sorted)
  {
    data := [];
    var lastLine, lastCharacter := 0, 0;
    var first := true;
    assert sorted[0..] == sorted;
    for i := 0 to |sorted|
      invariant first ==> lastLine == 0 && lastCharacter == 0
      invariant data + Deltas(lastLine, lastCharacter, sorted[i..]) == Deltas(0, 0, sorted)
    {
      var token := sorted[i];
      assert sorted[i..][0] == token && sorted[i..][1..] == sorted[i + 1..];
      var deltaLine := if first then token.line else token.line - lastLine;
      var deltaStart := if first || deltaLine != 0 then token.character else token.character - lastCharacter;
      DeltasStep(data, lastLine, lastCharacter, sorted[i..]);
      var five := [deltaLine, deltaStart, token.length, token.kind, token.modifiers];
      assert five == Delta(lastLine, lastCharacter, token);
      data := data + five;
      lastLine := token.line;
      lastCharacter := token.character;
      first := false;
    }
    assert sorted[|sorted|..] == [];
  }

  /** Decoding the output gives the tokens back in order; its position numbers are non-negative
      exactly when the positions of the tokens are. */
  method Encode(tokens: seq<Token>) returns (data: seq<int>)
    ensures |data| == 5 * |tokens|
    ensures Ordered(Decode(0, 0, data)) && multiset(Decode(0, 0, data)) == multiset(tokens)
    ensures PositionsNonNegative(data) <==> NonNegative(tokens)
  {
    var sorted := Sort(tokens);
    data := EncodeSorted(sorted);
    DecodesToTokens(0, 0, sorted);
    assert |sorted| == |multiset(sorted)| == |multiset(tokens)|;
    SameNonNegative(tokens, sorted);
    DeltasNonNegativeIff(0, 0, sorted);
  }

  lemma SameNonNegative(a: seq<Token>, b: seq<Token>)
    requires multiset(a) == multiset(b)
    ensures NonNegative(a) <==> NonNegative(b)
  {
    forall i | 0 <= i < |a| ensures a[i] in b {
      assert a[i] in multiset(b);
    }
    forall i | 0 <= i < |b| ensures b[i] in a {
      assert b[i] in multiset(a);
    }
  }
}
