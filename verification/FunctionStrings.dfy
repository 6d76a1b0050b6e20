/** What the strings of function types are, said by their form instead of by the steps that take them
    apart (`parse_function_type`, src/frontend/checker/type.cpp). */
module FunctionStrings {
  import opened FunctionTypes

  // ---------------------------------------------------------------- trimmed strings

  /** Spaces and tabs only. */
  predicate Blanks(s: string) {
    forall i | 0 <= i < |s| :: s[i] == ' ' || s[i] == '\t'
  }

  predicate Bare(s: string) {
    s == "" || (!Blanks([s[0]]) && !Blanks([s[|s| - 1]]))
  }

  /** `t` is what is left of `s` without the blanks around it. */
  ghost predicate Trimmed(s: string, t: string) {
    Bare(t) && exists a, b :: s == a + t + b && Blanks(a) && Blanks(b)
  }

  lemma {:induction false} LeftTrimmed(s: string) returns (a: string)
    ensures s == a + TrimLeft(s) && Blanks(a) && (TrimLeft(s) != "" ==> !Blanks([TrimLeft(s)[0]]))
  {
    if s == "" || !IsBlank(s[0]) {
      a := "";
      assert s != "" ==> [s[0]][0] == s[0];
    } else {
      var rest := LeftTrimmed(s[1..]);
      a := [s[0]] + rest;
      assert s == [s[0]] + s[1..];
    }
  }

  lemma {:induction false} RightTrimmed(s: string) returns (b: string)
    ensures var r := TrimRight(s); s == r + b && Blanks(b) && (r != "" ==> !Blanks([r[|r| - 1]]))
    decreases |s|
  {
    if s == "" || !IsBlank(s[|s| - 1]) {
      b := "";
      assert s != "" ==> [s[|s| - 1]][0] == s[|s| - 1];
    } else {
      var rest := RightTrimmed(s[..|s| - 1]);
      b := rest + [s[|s| - 1]];
      assert s == s[..|s| - 1] + [s[|s| - 1]];
    }
  }

  lemma {:induction false} BlanksVanish(s: string)
    requires Blanks(s)
    ensures TrimLeft(s) == "" && TrimRight(s) == ""
    decreases |s|
  {
    if s == "" {
    } else {
      BlanksVanish(s[1..]);
      BlanksVanish(s[..|s| - 1]);
    }
  }

  lemma TrimmedIsTrim(a: string, t: string, b: string)
    requires Blanks(a) && Bare(t) && Blanks(b)
    ensures Trim(a + t + b) == t
  {
    BlanksVanish(a);
    BlanksVanish(b);
    if t == "" {
      BlanksVanish(a + t + b);
    } else {
      var first, last := t[0], t[|t| - 1];
      assert [first][0] == first && [last][0] == last;
      assert a + t + b == a + [first] + (t[1..] + b);
      TrimLeftAt(a, first, t[1..] + b);
      assert "" + [first] + (t[1..] + b) == t[..|t| - 1] + [last] + b;
      TrimRightAt(t[..|t| - 1], last, b);
      assert t[..|t| - 1] + [last] + "" == t;
    }
  }

  /** Trimming takes the spaces and tabs at both ends away, all of them and nothing else. */
  lemma TrimIff(s: string, t: string)
    ensures Trim(s) == t <==> Trimmed(s, t)
  {
    var a, b := TrimParts(s);
    forall a, t, b | s == a + t + b && Blanks(a) && Bare(t) && Blanks(b) ensures t == Trim(s) {
      TrimmedIsTrim(a, t, b);
    }
  }

  lemma TrimParts(s: string) returns (a: string, b: string)
    ensures s == a + Trim(s) + b && Blanks(a) && Bare(Trim(s)) && Blanks(b)
  {
    a := LeftTrimmed(s);
    b := RightTrimmed(TrimLeft(s));
    if Trim(s) != "" {
      assert Trim(s)[0] == TrimLeft(s)[0];
    }
  }

  lemma NothingLeftIff(s: string)
    ensures Trim(s) == "" <==> Blanks(s)
  {
    var a, b := TrimParts(s);
    assert Trim(s) == "" ==> s == a + b;
    if Blanks(s) {
      assert s == s + "" + "";
      TrimmedIsTrim(s, "", "");
    }
  }

  // ---------------------------------------------------------------- parameters

  /** A blank piece of the list gives no type, one without a colon is an error, and any other gives what
      follows its first colon, trimmed. */
  lemma PieceIs(piece: string)
    ensures Blanks(piece) ==> PieceType(piece) == Ok([])
    ensures !Blanks(piece) && ':' !in piece ==> PieceType(piece) == Err(NoParameterType(Trim(piece)))
    ensures forall a, b | piece == a + ":" + b && ':' !in a :: PieceType(piece) == Ok([Trim(b)])
  {
    NothingLeftIff(piece);
    if ':' !in piece {
      TrimLeftAdds(piece, ':');
      TrimRightAdds(TrimLeft(piece), ':');
    }
    forall a, b | piece == a + ":" + b && ':' !in a ensures PieceType(piece) == Ok([Trim(b)]) {
      var t := ColonPiece(a, b);
      NoColons(a);
      RightFirst(b);
    }
  }

  lemma TrimmedByParts(s: string, a: string, t: string, c: string, b: string)
    requires s == a + t + c + b && Blanks(a) && Bare(t) && Blanks(c) && Blanks(b)
    ensures Trim(s) == t
  {
    assert s == a + t + (c + b);
    TrimmedIsTrim(a, t, c + b);
  }

  /** Blanks at the end may be taken away before. */
  lemma RightFirst(s: string)
    ensures Trim(TrimRight(s)) == Trim(s)
  {
    var b := RightTrimmed(s);
    var a, c := TrimParts(TrimRight(s));
    TrimmedByParts(s, a, Trim(TrimRight(s)), c, b);
  }

  /** The first piece with an error decides. */
  lemma {:induction false} FirstErrorCounts(pieces: seq<string>, i: nat)
    requires i < |pieces| && PieceType(pieces[i]).Err? && forall j | 0 <= j < i :: PieceType(pieces[j]).Ok?
    ensures PieceTypes(pieces) == Err(PieceType(pieces[i]).error)
  {
    if i == 0 {
    } else {
      FirstErrorCounts(pieces[1..], i - 1);
    }
  }

  lemma {:induction false} OnlyTypesAreMissing(pieces: seq<string>)
    ensures PieceTypes(pieces).Err? ==> PieceTypes(pieces).error.NoParameterType?
  {
    if pieces == [] {
    } else {
      OnlyTypesAreMissing(pieces[1..]);
    }
  }

  // ---------------------------------------------------------------- the whole string

  /** `|params|:result`, with the last bar of the string before the result. */
  lemma ParsedForm(params: string, result: string)
    requires '|' !in result
    ensures Parse("|" + params + "|:" + result) == match PieceTypes(Split(params))
              case Ok(types) => Ok(Signature(types, result))
              case Err(error) => Err(error)
  {
    var s, front, rest := "|" + params + "|:" + result, "|" + params, ":" + result;
    assert s == front + ['|'] + rest && '|' !in rest;
    LastAt(front, '|', rest);
    assert s[|front| + 1..] == rest && rest[1..] == result && s[1..|front|] == params;
    PiecesAreSplit(params);
  }

  ghost predicate HasForm(s: string, params: string, result: string) {
    s == "|" + params + "|:" + result && '|' !in result
  }

  lemma BarAgain(s: string)
    requires s != ""
    ensures '|' in s[1..] <==> Last(s, '|') > 0
  {
    if '|' in s[1..] {
      var i :| 0 <= i < |s[1..]| && s[1..][i] == '|';
      assert s[i + 1] == '|';
    }
    if Last(s, '|') > 0 {
      assert s[1..][Last(s, '|') - 1] == '|';
    }
  }

  /** Parsing asks for a bar at the start and another one, ... */
  lemma BarsIff(s: string)
    ensures Parse(s) == Err(NotFunctionType) <==> |s| < 2 || s[0] != '|'
    ensures Parse(s) == Err(InvalidFormat) <==> |s| >= 2 && s[0] == '|' && '|' !in s[1..]
  {
    if |s| >= 2 && s[0] == '|' {
      BarAgain(s);
      if '|' in s[1..] {
        OnlyTypesAreMissing(Pieces(s[1..Last(s, '|')]));
      }
    }
  }

  lemma CutAt(s: string, k: nat)
    requires 0 < k < |s| - 1
    ensures s == [s[0]] + s[1..k] + [s[k], s[k + 1]] + s[k + 2..]
  {
  }

  lemma FormOf(s: string, pipe: nat)
    requires 0 < pipe < |s| - 1 && s[0] == s[pipe] == '|' && s[pipe + 1] == ':'
    requires forall k | pipe < k < |s| :: s[k] != '|'
    ensures HasForm(s, s[1..pipe], s[pipe + 2..])
  {
    CutAt(s, pipe);
    assert "|:" == [s[pipe], s[pipe + 1]];
  }

  lemma ColonAfterBar(s: string)
    requires |s| >= 2 && s[0] == '|' && Last(s, '|') > 0
    ensures Parse(s) != Err(NoReturnType) <==> Last(s, '|') + 1 < |s| && s[Last(s, '|') + 1] == ':'
  {
    var pipe := Last(s, '|');
    var rest := s[pipe + 1..];
    OnlyTypesAreMissing(Pieces(s[1..pipe]));
    assert rest != "" ==> rest[0] == s[pipe + 1];
  }

  lemma FormHasColon(s: string, params: string, result: string)
    requires HasForm(s, params, result)
    ensures Parse(s) != Err(NoReturnType)
  {
    ParsedForm(params, result);
    OnlyTypesAreMissing(Split(params));
  }

  /** ... a colon after the last bar, and, as ParsedForm says, one in every parameter that is not blank. */
  lemma ReturnTypeIff(s: string)
    requires |s| >= 2 && s[0] == '|' && '|' in s[1..]
    ensures Parse(s) == Err(NoReturnType) <==> !exists params, result :: HasForm(s, params, result)
  {
    BarAgain(s);
    ColonAfterBar(s);
    if Parse(s) != Err(NoReturnType) {
      FormOf(s, Last(s, '|'));
    }
    forall params, result | HasForm(s, params, result) ensures Parse(s) != Err(NoReturnType) {
      FormHasColon(s, params, result);
    }
  }
}
