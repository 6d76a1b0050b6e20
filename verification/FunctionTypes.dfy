/** Function types as strings (`create_function_type_string` and `parse_function_type`,
    src/frontend/checker/type.cpp). A parse yields the type strings that the resolver is given:
    one for each parameter and one for the result. */
module FunctionTypes {

  datatype Error = NotFunctionType | InvalidFormat | NoReturnType | NoParameterType(param: string)

  datatype Result<T> = Ok(value: T) | Err(error: Error)

  datatype Signature = Signature(params: seq<string>, result: string)

  datatype Param = Param(name: string, ty: string)

  // ---------------------------------------------------------------- the string functions that both use

  predicate IsBlank(c: char) { c == ' ' || c == '\t' }

  function TrimLeft(s: string): (r: string)
    ensures |r| <= |s|
  {
    if s != "" && IsBlank(s[0]) then TrimLeft(s[1..]) else s
  }

  function TrimRight(s: string): (r: string)
    ensures |r| <= |s|
  {
    if s != "" && IsBlank(s[|s| - 1]) then TrimRight(s[..|s| - 1]) else s
  }

  function Trim(s: string): string { TrimRight(TrimLeft(s)) }

  /** Where `c` first stands, or the length. */
  function First(s: string, c: char): (i: nat)
    ensures i <= |s| && (i < |s| ==> s[i] == c) && c !in s[..i]
  {
    if s == "" || s[0] == c then 0
    else
      assert s[..1 + First(s[1..], c)] == [s[0]] + s[1..][..First(s[1..], c)];
      1 + First(s[1..], c)
  }

  /** Where `c` last stands, or -1. */
  function Last(s: string, c: char): (i: int)
    ensures -1 <= i < |s| && (i >= 0 ==> s[i] == c) && forall k | i < k < |s| :: s[k] != c
  {
    if s == "" then -1
    else if s[|s| - 1] == c then |s| - 1
    else Last(s[..|s| - 1], c)
  }

  /** The pieces that `getline` takes off at commas. */
  function Pieces(s: string): seq<string>
    decreases |s|
  {
    if s == "" then []
    else
      var i := First(s, ',');
      [s[..i]] + Pieces(if i < |s| then s[i + 1..] else "")
  }

  // ---------------------------------------------------------------- printing and parsing

  function Printed(p: Param): string { p.name + ":" + p.ty }

  function Joined(ps: seq<Param>): string {
    if ps == [] then ""
    else if |ps| == 1 then Printed(ps[0])
    else Printed(ps[0]) + ", " + Joined(ps[1..])
  }

  function Create(ps: seq<Param>, result: string): string {
    "|" + Joined(ps) + "|:" + result
  }

  /** The type in one piece: none in a blank one. */
  function PieceType(piece: string): Result<seq<string>> {
    var p := Trim(piece);
    if p == "" then Ok([])
    else
      var colon := First(p, ':');
      if colon == |p| then Err(NoParameterType(p)) else Ok([Trim(p[colon + 1..])])
  }

  function Then(a: Result<seq<string>>, b: Result<seq<string>>): Result<seq<string>> {
    if a.Err? then a else if b.Err? then b else Ok(a.value + b.value)
  }

  function PieceTypes(pieces: seq<string>): Result<seq<string>> {
    if pieces == [] then Ok([]) else Then(PieceType(pieces[0]), PieceTypes(pieces[1..]))
  }

  predicate IsFunctionType(s: string) { |s| >= 2 && s[0] == '|' }

  function Parse(s: string): Result<Signature> {
    if !IsFunctionType(s) then Err(NotFunctionType)
    else
      var pipe := Last(s, '|');
      if pipe <= 0 then Err(InvalidFormat)
      else
        var rest := s[pipe + 1..];
        if rest == "" || rest[0] != ':' then Err(NoReturnType)
        else
          var types := PieceTypes(Pieces(s[1..pipe]));
          if types.Err? then Err(types.error) else Ok(Signature(types.value, rest[1..]))
  }

  method CreateFunctionTypeString(ps: seq<Param>, result: string) returns (s: string)
    ensures s == Create(ps, result)
  {
    s := "|";
    assert ps[0..] == ps;
    for i := 0 to |ps|
      invariant s + Joined(ps[i..]) == "|" + Joined(ps)
    {
      assert ps[i..][0] == ps[i] && ps[i..][1..] == ps[i + 1..];
      ghost var before := s;
      s := s + (ps[i].name + ":" + ps[i].ty);
      if i < |ps| - 1 {
        assert before + (Printed(ps[i]) + ", " + Joined(ps[i + 1..])) == s + ", " + Joined(ps[i + 1..]);
        s := s + ", ";
      } else {
        assert ps[i + 1..] == [];
      }
    }
    assert ps[|ps|..] == [];
    s := s + "|:" + result;
  }

  /** The loop over the pieces of the parameter list. */
  method ParseParams(params: string) returns (types: Result<seq<string>>)
    ensures types == PieceTypes(Pieces(params))
  {
    types := Ok([]);
    var left := params;
    ThenAssociates(PieceTypes(Pieces(params)), Ok([]), Ok([]));
    while left != ""
      invariant types.Ok? && PieceTypes(Pieces(params)) == Then(types, PieceTypes(Pieces(left)))
      decreases |left|
    {
      var comma := First(left, ',');
      var piece, rest := left[..comma], if comma < |left| then left[comma + 1..] else "";
      PieceTypesCons(piece, Pieces(rest));
      ThenAssociates(types, PieceType(piece), PieceTypes(Pieces(rest)));
      var param := Trim(piece);
      if param != "" {
        var colon := First(param, ':');
        if colon == |param| {
          return Err(NoParameterType(param));
        }
        types := Ok(types.value + [Trim(param[colon + 1..])]);
      } else {
        assert types.value + [] == types.value;
      }
      left := rest;
    }
    ThenAssociates(types, Ok([]), Ok([]));
  }

  method ParseFunctionType(s: string) returns (r: Result<Signature>)
    ensures r == Parse(s)
  {
    if !IsFunctionType(s) {
      return Err(NotFunctionType);
    }
    var pipe := Last(s, '|');
    if pipe <= 0 {
      return Err(InvalidFormat);
    }
    var params, rest := s[1..pipe], s[pipe + 1..];
    if rest == "" || rest[0] != ':' {
      return Err(NoReturnType);
    }
    var types := ParseParams(params);
    if types.Err? {
      return Err(types.error);
    }
    return Ok(Signature(types.value, rest[1..]));
  }

  lemma PieceTypesCons(piece: string, pieces: seq<string>)
    ensures PieceTypes([piece] + pieces) == Then(PieceType(piece), PieceTypes(pieces))
  {
    assert ([piece] + pieces)[1..] == pieces;
  }

  lemma ThenAssociates(a: Result<seq<string>>, b: Result<seq<string>>, c: Result<seq<string>>)
    ensures Then(a, Then(b, c)) == Then(Then(a, b), c)
    ensures Then(a, Ok([])) == a && Then(Ok([]), a) == a
  {
    if a.Ok? && b.Ok? && c.Ok? {
      assert a.value + (b.value + c.value) == a.value + b.value + c.value;
    }
    if a.Ok? {
      assert a.value + [] == a.value && [] + a.value == a.value;
    }
  }

  // ---------------------------------------------------------------- splitting at every comma

  /** All the pieces between commas, the last one also when it is empty. */
  function Split(s: string): (r: seq<string>)
    ensures r != []
  {
    if s == "" then [""]
    else if s[0] == ',' then [""] + Split(s[1..])
    else [[s[0]] + Split(s[1..])[0]] + Split(s[1..])[1..]
  }

  lemma {:induction false} PieceTypesAppend(a: seq<string>, b: seq<string>)
    ensures PieceTypes(a + b) == Then(PieceTypes(a), PieceTypes(b))
    decreases |a|
  {
    if a == [] {
      assert a + b == b;
      ThenAssociates(PieceTypes(b), Ok([]), Ok([]));
    } else {
      assert (a + b)[0] == a[0] && (a + b)[1..] == a[1..] + b;
      PieceTypesAppend(a[1..], b);
      ThenAssociates(PieceType(a[0]), PieceTypes(a[1..]), PieceTypes(b));
    }
  }

  lemma {:induction false} SplitAtFirst(s: string)
    ensures var i := First(s, ','); Split(s) == if i < |s| then [s[..i]] + Split(s[i + 1..]) else [s]
    decreases |s|
  {
    if s == "" || s[0] == ',' {
    } else {
      SplitAtFirst(s[1..]);
      var i := First(s[1..], ',');
      assert s == [s[0]] + s[1..] && s[..1 + i] == [s[0]] + s[1..][..i];
      if i < |s[1..]| {
        assert s[1..][i + 1..] == s[i + 2..];
      }
    }
  }

  /** The pieces that `getline` leaves out are blank. */
  lemma {:induction false} PiecesAreSplit(s: string)
    ensures PieceTypes(Pieces(s)) == PieceTypes(Split(s))
    decreases |s|
  {
    PieceTypesCons("", []);
    if s != "" {
      SplitAtFirst(s);
      var i := First(s, ',');
      if i < |s| {
        PiecesAreSplit(s[i + 1..]);
        PieceTypesCons(s[..i], Pieces(s[i + 1..]));
        PieceTypesCons(s[..i], Split(s[i + 1..]));
      } else {
        assert Pieces("") == [] && s[..i] == s;
      }
    } else {
      assert [""] + [] == [""];
      ThenAssociates(Ok([]), Ok([]), Ok([]));
    }
  }

  /** Two strings put together: the last piece of one and the first of the other become one. */
  lemma {:induction false} SplitGlue(a: string, b: string)
    ensures Split(a + b) == Glued(Split(a), Split(b))
    decreases |a|
  {
    if a == "" {
      assert a + b == b;
      assert "" + Split(b)[0] == Split(b)[0];
    } else {
      assert (a + b)[0] == a[0] && (a + b)[1..] == a[1..] + b;
      SplitGlue(a[1..], b);
      if a[0] == ',' {
        GluedPrefix([""], Split(a[1..]), Split(b));
      } else {
        GluedFirst(a[0], Split(a[1..]), Split(b));
      }
    }
  }

  function Glued(a: seq<string>, b: seq<string>): (r: seq<string>)
    requires a != [] && b != []
    ensures r != []
  {
    a[..|a| - 1] + [a[|a| - 1] + b[0]] + b[1..]
  }

  lemma GluedPrefix(x: seq<string>, a: seq<string>, b: seq<string>)
    requires a != [] && b != []
    ensures Glued(x + a, b) == x + Glued(a, b)
  {
  }

  lemma GluedFirst(c: char, a: seq<string>, b: seq<string>)
    requires a != [] && b != []
    ensures Glued([[c] + a[0]] + a[1..], b) == [[c] + Glued(a, b)[0]] + Glued(a, b)[1..]
  {
    if |a| == 1 {
      assert [c] + (a[0] + b[0]) == [c] + a[0] + b[0];
    }
  }

  lemma SplitAtComma(a: string, b: string)
    ensures Split(a + "," + b) == Split(a) + Split(b)
  {
    SplitGlue(a, "," + b);
    assert a + "," + b == a + ("," + b) && ("," + b)[1..] == b;
    assert Split("," + b) == [""] + Split(b);
    var last := Split(a)[|Split(a)| - 1];
    assert last + "" == last;
  }

  // ---------------------------------------------------------------- trimming

  lemma {:induction false} TrimLeftAt(a: string, c: char, b: string)
    requires !IsBlank(c)
    ensures TrimLeft(a + [c] + b) == TrimLeft(a) + [c] + b
    decreases |a|
  {
    if a == "" {
      assert a + [c] + b == [c] + b;
    } else {
      assert (a + [c] + b)[1..] == a[1..] + [c] + b && (a + [c] + b)[0] == a[0];
      TrimLeftAt(a[1..], c, b);
    }
  }

  lemma {:induction false} TrimRightAt(a: string, c: char, b: string)
    requires !IsBlank(c)
    ensures TrimRight(a + [c] + b) == a + [c] + TrimRight(b)
    decreases |b|
  {
    var s := a + [c] + b;
    if b == "" {
      assert s == a + [c];
    } else {
      assert s[..|s| - 1] == a + [c] + b[..|b| - 1] && s[|s| - 1] == b[|b| - 1];
      TrimRightAt(a, c, b[..|b| - 1]);
    }
  }

  function Colons(s: string): nat {
    if s == "" then 0 else (if s[0] == ':' then 1 else 0) + Colons(s[1..])
  }

  lemma {:induction false} ColonsAppend(a: string, b: string)
    ensures Colons(a + b) == Colons(a) + Colons(b)
  {
    if a == "" {
      assert a + b == b;
    } else {
      assert (a + b)[1..] == a[1..] + b;
      ColonsAppend(a[1..], b);
    }
  }

  lemma {:induction false} NoColons(s: string)
    ensures Colons(s) == 0 <==> ':' !in s
  {
    if s == "" {
    } else {
      NoColons(s[1..]);
    }
  }

  lemma {:induction false} TrimLeftKeeps(s: string)
    ensures Colons(TrimLeft(s)) == Colons(s)
    ensures |TrimLeft(s)| == |s| ==> TrimLeft(s) == s
  {
    if s == "" || !IsBlank(s[0]) {
    } else {
      TrimLeftKeeps(s[1..]);
    }
  }

  lemma {:induction false} TrimRightKeeps(s: string)
    ensures Colons(TrimRight(s)) == Colons(s)
    ensures |TrimRight(s)| == |s| ==> TrimRight(s) == s
    decreases |s|
  {
    if s == "" || !IsBlank(s[|s| - 1]) {
    } else {
      var most, end := s[..|s| - 1], [s[|s| - 1]];
      TrimRightKeeps(most);
      ColonsAppend(most, end);
      assert s == most + end && Colons(end) == 0 + Colons(end[1..]) && end[1..] == "";
    }
  }

  lemma TrimKeeps(s: string)
    ensures Colons(Trim(s)) == Colons(s)
  {
    TrimLeftKeeps(s);
    TrimRightKeeps(TrimLeft(s));
  }

  lemma {:induction false} TrimLeftAdds(s: string, c: char)
    requires c !in s
    ensures c !in TrimLeft(s)
  {
    if s == "" || !IsBlank(s[0]) {
    } else {
      TrimLeftAdds(s[1..], c);
    }
  }

  lemma {:induction false} TrimRightAdds(s: string, c: char)
    requires c !in s
    ensures c !in TrimRight(s)
    decreases |s|
  {
    if s == "" || !IsBlank(s[|s| - 1]) {
    } else {
      TrimRightAdds(s[..|s| - 1], c);
    }
  }

  lemma TrimmedTwice(s: string)
    ensures Trim(TrimRight(s)) == s <==> Trim(s) == s
  {
    TrimLeftKeeps(s);
    TrimRightKeeps(TrimLeft(s));
    TrimRightKeeps(s);
    TrimLeftKeeps(TrimRight(s));
    TrimRightKeeps(TrimLeft(TrimRight(s)));
  }

  // ---------------------------------------------------------------- one parameter

  /** What stands after the first colon of two strings around a colon. */
  lemma AfterColon(left: string, right: string)
    ensures var p := left + ":" + right; var colon := First(p, ':');
            && colon < |p|
            && Colons(p[colon + 1..]) == Colons(left) + Colons(right)
            && (Colons(left) == 0 ==> p[colon + 1..] == right)
  {
    var p := left + ":" + right;
    var colon := First(p, ':');
    assert p[|left|] == ':';
    ColonsOf(p, colon);
    ColonsAppend(left, ":" + right);
    assert p == left + (":" + right) && (":" + right)[1..] == right;
    if Colons(left) == 0 {
      NoColons(left);
      assert forall k | 0 <= k < |left| :: p[k] == left[k];
    }
  }

  lemma ColonPieceIs(a: string, b: string)
    ensures var p := TrimLeft(a) + ":" + TrimRight(b); var colon := First(p, ':');
            colon < |p| && PieceType(a + ":" + b) == Ok([Trim(p[colon + 1..])])
  {
    TrimLeftAt(a, ':', b);
    TrimRightAt(TrimLeft(a), ':', b);
    AfterColon(TrimLeft(a), TrimRight(b));
    assert Trim(a + ":" + b) == TrimLeft(a) + ":" + TrimRight(b);
  }

  /** A piece with a colon gives one type: what stands after the first colon. */
  lemma ColonPiece(a: string, b: string) returns (t: string)
    ensures PieceType(a + ":" + b) == Ok([t])
    ensures Colons(t) == Colons(a) + Colons(b)
    ensures Colons(a) == 0 ==> t == Trim(TrimRight(b))
  {
    ColonPieceIs(a, b);
    TrimLeftKeeps(a);
    TrimRightKeeps(b);
    AfterColon(TrimLeft(a), TrimRight(b));
    var p := TrimLeft(a) + ":" + TrimRight(b);
    t := Trim(p[First(p, ':') + 1..]);
    TrimKeeps(p[First(p, ':') + 1..]);
  }

  lemma ColonPieceAdds(a: string, b: string)
    requires ',' !in a && ',' !in b
    ensures PieceType(a + ":" + b).Ok? && |PieceType(a + ":" + b).value| == 1 && ',' !in PieceType(a + ":" + b).value[0]
  {
    ColonPieceIs(a, b);
    TrimLeftAdds(a, ',');
    TrimRightAdds(b, ',');
    var p := TrimLeft(a) + ":" + TrimRight(b);
    var tail := p[First(p, ':') + 1..];
    TrimLeftAdds(tail, ',');
    TrimRightAdds(TrimLeft(tail), ',');
  }

  lemma ColonsOf(p: string, colon: nat)
    requires colon < |p| && p[colon] == ':' && ':' !in p[..colon]
    ensures Colons(p) == 1 + Colons(p[colon + 1..])
  {
    NoColons(p[..colon]);
    ColonsAppend(p[..colon], p[colon..]);
    assert p == p[..colon] + p[colon..] && p[colon..][1..] == p[colon + 1..];
  }

  lemma {:induction false} SplitHasNoCommas(s: string)
    ensures forall i | 0 <= i < |Split(s)| :: ',' !in Split(s)[i]
    ensures ',' !in s <==> |Split(s)| == 1
    ensures |Split(s)| == 1 ==> Split(s)[0] == s
  {
    if s == "" {
    } else {
      SplitHasNoCommas(s[1..]);
    }
  }

  ghost predicate AllBlank(pieces: seq<string>) {
    forall i | 0 <= i < |pieces| :: Trim(pieces[i]) == ""
  }

  lemma {:induction false} BlankGivesNothing(pieces: seq<string>)
    ensures PieceTypes(pieces) == Ok([]) <==> AllBlank(pieces)
  {
    if pieces == [] {
    } else {
      BlankGivesNothing(pieces[1..]);
      var first, rest := PieceType(pieces[0]), PieceTypes(pieces[1..]);
      assert Then(first, rest) == Ok([]) <==> first == Ok([]) && rest == Ok([]) by {
        if Then(first, rest) == Ok([]) {
          assert |first.value + rest.value| == 0;
        }
        ThenAssociates(Ok([]), Ok([]), Ok([]));
      }
      assert first == Ok([]) <==> Trim(pieces[0]) == "" by {
        assert first.Ok? && Trim(pieces[0]) != "" ==> |first.value| == 1;
      }
      assert pieces == [pieces[0]] + pieces[1..];
      assert AllBlank(pieces) <==> Trim(pieces[0]) == "" && AllBlank(pieces[1..]) by {
        if Trim(pieces[0]) == "" && AllBlank(pieces[1..]) {
          forall i | 0 <= i < |pieces| ensures Trim(pieces[i]) == "" {
            assert i > 0 ==> pieces[i] == pieces[1..][i - 1];
          }
        }
        if AllBlank(pieces) {
          assert forall i | 0 <= i < |pieces[1..]| :: pieces[1..][i] == pieces[i + 1];
        }
      }
    }
  }

  /** The type is trimmed and has no comma; the name has no colon, and nothing but blanks before
      a comma. */
  ghost predicate Survives(p: Param) {
    Trim(p.ty) == p.ty && ',' !in p.ty && ':' !in p.name && AllBlank(Split(p.name)[..|Split(p.name)| - 1])
  }

  lemma GluedAt(front: seq<string>, last: string, b: seq<string>)
    requires b != []
    ensures Glued(front + [last], b) == front + ([last + b[0]] + b[1..])
  {
  }

  lemma ColonStart(s: string, head: string, tail: seq<string>)
    requires Split(s) == [head] + tail
    ensures Split(":" + s) == [":" + head] + tail
  {
    assert (":" + s)[1..] == s;
  }

  lemma SplitPrinted(p: Param, front: seq<string>, last: string, head: string, tail: seq<string>)
    requires Split(p.name) == front + [last] && Split(p.ty) == [head] + tail
    ensures Split(Printed(p)) == front + ([last + ":" + head] + tail)
  {
    ColonStart(p.ty, head, tail);
    SplitGlue(p.name, ":" + p.ty);
    GluedAt(front, last, [":" + head] + tail);
    assert Printed(p) == p.name + (":" + p.ty);
    assert last + (":" + head) == last + ":" + head;
  }

  /** What a printed parameter gives: the type in its one piece with the colon, and whatever the
      pieces before and after it give. */
  lemma PrintedPieces(p: Param) returns (front: seq<string>, last: string, head: string, tail: seq<string>)
    ensures Split(p.name) == front + [last] && Split(p.ty) == [head] + tail
    ensures PieceTypes(Split(Printed(p)))
         == Then(PieceTypes(front), Then(PieceType(last + ":" + head), PieceTypes(tail)))
  {
    var names, types := Split(p.name), Split(p.ty);
    front, last := names[..|names| - 1], names[|names| - 1];
    head, tail := types[0], types[1..];
    SplitPrinted(p, front, last, head, tail);
    PieceTypesAppend(front, [last + ":" + head] + tail);
    PieceTypesCons(last + ":" + head, tail);
  }

  lemma ThenOne(a: Result<seq<string>>, t: string, b: Result<seq<string>>, u: string)
    ensures Then(a, Then(Ok([t]), b)).Ok? ==> |Then(a, Then(Ok([t]), b)).value| >= 1
    ensures Then(a, Then(Ok([t]), b)) == Ok([u]) <==> a == Ok([]) && b == Ok([]) && t == u
  {
    if a.Ok? && b.Ok? {
      var all := a.value + ([t] + b.value);
      if all == [u] {
        assert |a.value| == 0 && |b.value| == 0 && all[0] == t;
      }
      if a.value == [] && b.value == [] {
        assert all == [t] && ([t] == [u] ==> [t][0] == u);
      }
    }
  }

  /** The type in the piece with the colon is the parameter's own type exactly when it survives. */
  lemma MiddleType(p: Param, front: seq<string>, last: string, head: string, tail: seq<string>, t: string)
    requires Split(p.name) == front + [last] && Split(p.ty) == [head] + tail
    requires PieceType(last + ":" + head) == Ok([t])
    ensures AllBlank(front) && AllBlank(tail) && t == p.ty <==> Survives(p)
  {
    assert Split(p.name)[..|Split(p.name)| - 1] == front;
    SplitHasNoCommas(p.name);
    assert Split(p.name)[|front|] == last;
    SplitHasNoCommas(p.ty);
    assert Split(p.ty)[0] == head;
    var u := ColonPiece(last, head);
    assert [t] == [u] && [t][0] == [u][0];
    ColonPieceAdds(last, head);
    TrimmedTwice(p.ty);
    NoColons(last);
    if AllBlank(front) {
      ColonsInLast(p.name);
    }
    if t == p.ty {
      assert head == p.ty;
    }
  }

  /** A printed parameter gives at least one type, and it gives its own and no other exactly
      when it survives. */
  lemma OneParameter(p: Param)
    ensures var r := PieceTypes(Split(Printed(p)));
            (r.Ok? ==> |r.value| >= 1) && (r == Ok([p.ty]) <==> Survives(p))
  {
    var front, last, head, tail := PrintedPieces(p);
    var t := ColonPiece(last, head);
    ThenOne(PieceTypes(front), t, PieceTypes(tail), p.ty);
    BlankGivesNothing(front);
    BlankGivesNothing(tail);
    MiddleType(p, front, last, head, tail, t);
  }

  /** A blank piece has no colon, so a name with only blanks before a comma has its colons after it. */
  lemma {:induction false} ColonsInLast(s: string)
    requires AllBlank(Split(s)[..|Split(s)| - 1])
    ensures ':' in s <==> ':' in Split(s)[|Split(s)| - 1]
  {
    ColonsSplit(s);
    var pieces := Split(s);
    forall i | 0 <= i < |pieces| - 1 ensures ':' !in pieces[i] {
      assert pieces[..|pieces| - 1][i] == pieces[i];
      TrimKeeps(pieces[i]);
      NoColons(pieces[i]);
    }
  }

  ghost predicate SomeWithColon(pieces: seq<string>) {
    exists i :: 0 <= i < |pieces| && ':' in pieces[i]
  }

  lemma ColonInFirst(first: string, rest: seq<string>)
    ensures SomeWithColon([first] + rest) <==> ':' in first || SomeWithColon(rest)
  {
    var all := [first] + rest;
    assert all[0] == first;
    if SomeWithColon(rest) {
      var i :| 0 <= i < |rest| && ':' in rest[i];
      assert all[i + 1] == rest[i];
    }
  }

  lemma {:induction false} ColonsSplit(s: string)
    ensures ':' in s <==> SomeWithColon(Split(s))
  {
    if s == "" {
      assert Split(s) == [""] + [];
      ColonInFirst("", []);
    } else {
      var c, rest := s[0], Split(s[1..]);
      ColonsSplit(s[1..]);
      assert s == [c] + s[1..];
      if c == ',' {
        ColonInFirst("", rest);
      } else {
        ColonInFirst([c] + rest[0], rest[1..]);
        ColonInFirst(rest[0], rest[1..]);
        assert rest == [rest[0]] + rest[1..];
      }
    }
  }

  // ---------------------------------------------------------------- the whole string

  function Types(ps: seq<Param>): (r: seq<string>)
    ensures |r| == |ps|
  {
    if ps == [] then [] else [ps[0].ty] + Types(ps[1..])
  }

  function AllTypes(ps: seq<Param>): Result<seq<string>> {
    if ps == [] then Ok([]) else Then(PieceTypes(Split(Printed(ps[0]))), AllTypes(ps[1..]))
  }

  lemma SplitBlank(s: string)
    ensures Split(" " + s) == [" " + Split(s)[0]] + Split(s)[1..]
  {
    assert (" " + s)[1..] == s && (" " + s)[0] == ' ';
  }

  lemma BlankPiece(piece: string)
    ensures PieceType(" " + piece) == PieceType(piece)
  {
    assert (" " + piece)[1..] == piece;
    assert TrimLeft(" " + piece) == TrimLeft(piece);
  }

  lemma LeadingBlank(s: string)
    ensures PieceTypes(Split(" " + s)) == PieceTypes(Split(s))
  {
    var first, rest := Split(s)[0], Split(s)[1..];
    SplitBlank(s);
    BlankPiece(first);
    PieceTypesCons(" " + first, rest);
    PieceTypesCons(first, rest);
    assert Split(s) == [first] + rest;
  }

  lemma JoinedStep(first: string, rest: string)
    ensures PieceTypes(Split(first + ", " + rest)) == Then(PieceTypes(Split(first)), PieceTypes(Split(rest)))
  {
    assert first + ", " + rest == first + "," + (" " + rest);
    SplitAtComma(first, " " + rest);
    PieceTypesAppend(Split(first), Split(" " + rest));
    LeadingBlank(rest);
  }

  lemma {:induction false} JoinedTypes(ps: seq<Param>)
    ensures PieceTypes(Split(Joined(ps))) == AllTypes(ps)
    decreases |ps|
  {
    ThenAssociates(Ok([]), Ok([]), Ok([]));
    if ps == [] {
      PieceTypesCons("", []);
      assert [""] + [] == [""];
    } else if |ps| == 1 {
      ThenAssociates(PieceTypes(Split(Printed(ps[0]))), Ok([]), Ok([]));
      assert AllTypes(ps[1..]) == Ok([]);
    } else {
      JoinedTypes(ps[1..]);
      JoinedStep(Printed(ps[0]), Joined(ps[1..]));
    }
  }

  lemma {:induction false} AllSurvive(ps: seq<Param>)
    ensures AllTypes(ps).Ok? ==> |AllTypes(ps).value| >= |ps|
    ensures AllTypes(ps) == Ok(Types(ps)) <==> forall i | 0 <= i < |ps| :: Survives(ps[i])
    decreases |ps|
  {
    if ps == [] {
    } else {
      AllSurvive(ps[1..]);
      OneParameter(ps[0]);
      var first, rest := PieceTypes(Split(Printed(ps[0]))), AllTypes(ps[1..]);
      if AllTypes(ps) == Ok(Types(ps)) {
        assert first.value + rest.value == [ps[0].ty] + Types(ps[1..]);
        assert |first.value| == 1;
        assert first.value[0] == ps[0].ty && (first.value + rest.value)[1..] == rest.value;
        assert ([ps[0].ty] + Types(ps[1..]))[1..] == Types(ps[1..]);
        assert forall i | 0 < i < |ps| :: ps[i] == ps[1..][i - 1];
      }
      if forall i | 0 <= i < |ps| :: Survives(ps[i]) {
        assert forall i | 0 <= i < |ps[1..]| :: ps[1..][i] == ps[i + 1];
      }
    }
  }

  lemma {:induction false} LastAt(a: string, c: char, b: string)
    requires c !in b
    ensures Last(a + [c] + b, c) == |a|
    decreases |b|
  {
    var s := a + [c] + b;
    if b == "" {
    } else {
      assert s[..|s| - 1] == a + [c] + b[..|b| - 1] && s[|s| - 1] == b[|b| - 1];
      LastAt(a, c, b[..|b| - 1]);
    }
  }

  /** Where the closing bar of a printed type is, and what stands before and after it. */
  lemma {:induction false} CreateParts(ps: seq<Param>, result: string)
    requires '|' !in result
    ensures var s := Create(ps, result); var pipe := Last(s, '|');
            pipe == 1 + |Joined(ps)| && s[1..pipe] == Joined(ps) && s[pipe + 1..] == ":" + result
  {
    var before := "|" + Joined(ps);
    assert Create(ps, result) == before + ['|'] + (":" + result);
    LastAt(before, '|', ":" + result);
  }

  lemma {:induction false} ParsedWithoutBar(ps: seq<Param>, result: string)
    requires '|' !in result
    ensures Parse(Create(ps, result)) == var types := AllTypes(ps);
              if types.Err? then Err(types.error) else Ok(Signature(types.value, result))
  {
    CreateParts(ps, result);
    PiecesAreSplit(Joined(ps));
    JoinedTypes(ps);
  }

  lemma ResultHasNoBar(s: string)
    requires Parse(s).Ok?
    ensures '|' !in Parse(s).value.result
  {
    var result, pipe := Parse(s).value.result, Last(s, '|');
    forall k | 0 <= k < |result| ensures result[k] != '|' {
      assert result[k] == s[pipe + 2 + k];
    }
  }

  /** Parsing what was printed gives back exactly the parameter types, in order, and the result
      type, when and only when every parameter survives and the result type has no bar. */
  lemma {:induction false} RoundTripIff(ps: seq<Param>, result: string)
    ensures Parse(Create(ps, result)) == Ok(Signature(Types(ps), result))
      <==> '|' !in result && forall i | 0 <= i < |ps| :: Survives(ps[i])
  {
    if '|' !in result {
      ParsedWithoutBar(ps, result);
      AllSurvive(ps);
    } else if Parse(Create(ps, result)).Ok? {
      ResultHasNoBar(Create(ps, result));
    }
  }

  /** So parameters with plain names and trimmed types without commas do survive. */
  lemma PlainSurvives(p: Param)
    requires ':' !in p.name && ',' !in p.name && Trim(p.ty) == p.ty && ',' !in p.ty
    ensures Survives(p)
  {
    SplitHasNoCommas(p.name);
  }

  /** So a function that returns a function does not survive, ... */
  lemma FunctionResultIsLost(ps: seq<Param>, qs: seq<Param>, result: string)
    ensures Parse(Create(ps, Create(qs, result))) != Ok(Signature(Types(ps), Create(qs, result)))
  {
    assert Create(qs, result)[0] == '|';
    RoundTripIff(ps, Create(qs, result));
  }

  /** What stands between the outer bars, read as a list of parameters. */
  lemma {:induction false} BetweenBars(inner: string)
    requires ',' !in inner && inner != "" && !IsBlank(inner[|inner| - 1])
    ensures PieceTypes(Pieces("|:" + inner)) == Ok([Trim(inner)])
  {
    var params := "|:" + inner;
    assert Pieces(params) == [params] by {
      FirstAbsent(params, ',');
      assert params[..|params|] == params;
    }
    assert First(params[1..], ':') == 0 && params[2..] == inner;
    assert PieceType(params) == Ok([Trim(inner)]);
    PieceTypesCons(params, []);
    assert [params] + [] == [params] && [Trim(inner)] + [] == [Trim(inner)];
  }

  lemma {:induction false} OuterParts(inner: string, result: string)
    requires '|' !in result
    ensures var s := "||:" + inner + ("|:" + result); var pipe := Last(s, '|');
            pipe == 3 + |inner| && s[1..pipe] == "|:" + inner && s[pipe + 1..] == ":" + result
  {
    var before := "||:" + inner;
    assert before + ['|'] + (":" + result) == before + ("|:" + result);
    LastAt(before, '|', ":" + result);
  }

  lemma {:induction false} InnerReadAsParameter(inner: string, result: string)
    requires '|' !in result && ',' !in inner && inner != "" && !IsBlank(inner[|inner| - 1])
    ensures Parse("||:" + inner + ("|:" + result)) == Ok(Signature([Trim(inner)], result))
  {
    OuterParts(inner, result);
    BetweenBars(inner);
    assert (":" + result)[1..] == result;
  }

  /** ... as a function without parameters that returns one: the bar that closes the outer list is
      taken for one of the inner list, and what stands between for a parameter. */
  lemma {:induction false} ResultReadAsParameter(p: Param, result: string)
    requires '|' !in result && ',' !in Printed(p) && p.ty != "" && !IsBlank(p.ty[|p.ty| - 1])
    ensures Parse(Create([], Create([p], result))) == Ok(Signature(["|" + Printed(p)], result))
  {
    var inner := "|" + Printed(p);
    assert Create([], Create([p], result)) == "||:" + inner + ("|:" + result);
    assert inner[|inner| - 1] == p.ty[|p.ty| - 1];
    InnerReadAsParameter(inner, result);
    assert Trim(inner) == inner;
  }

  /** In particular with the result type `|x:int|:int`. */
  lemma ReturnsFunction()
    ensures var p, result := Param("x", "int"), "int";
      Parse(Create([], Create([p], result))) == Ok(Signature(["|" + Printed(p)], result))
  {
    ResultReadAsParameter(Param("x", "int"), "int");
  }

  lemma {:induction false} FirstAbsent(s: string, c: char)
    requires c !in s
    ensures First(s, c) == |s|
  {
    if s == "" {
    } else {
      FirstAbsent(s[1..], c);
    }
  }
}
