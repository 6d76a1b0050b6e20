/** Which module an import path names (`get_combined_ast` of src/frontend/module_manager.cpp), said by
    what such a path looks like: directories, the module's name, and perhaps an extension. */
module ImportPaths {
  import opened Modules
  import opened Combining

  const SLASHES: set<char> := {'/', '\\'}
  const DOT: set<char> := {'.'}

  predicate None(s: string, chars: set<char>) {
    forall i | 0 <= i < |s| :: s[i] !in chars
  }

  /** The path is the name `b`, after directories or not, and before an extension or not. A name that
      has no extension has no dot. */
  ghost predicate Names(path: string, b: string) {
    exists dirs, file :: path == dirs + file && InDirectory(dirs) && None(file, SLASHES) && IsFile(file, b)
  }

  predicate InDirectory(dirs: string) {
    dirs == "" || dirs[|dirs| - 1] in SLASHES
  }

  ghost predicate IsFile(file: string, b: string) {
    || (file == b && None(b, DOT))
    || exists e: string :: file == b + ['.'] + e && None(e, DOT)
  }

  // ---------------------------------------------------------------- the last slash and the last dot

  predicate IsLast(s: string, chars: set<char>, k: int) {
    -1 <= k < |s| && (k >= 0 ==> s[k] in chars) && forall i | k < i < |s| :: s[i] !in chars
  }

  lemma {:induction false} LastOfIsLast(s: string, chars: set<char>)
    ensures IsLast(s, chars, LastOf(s, chars))
  {
    if s == "" {
    } else {
      var less := s[..|s| - 1];
      LastOfIsLast(less, chars);
      assert forall i | 0 <= i < |less| :: s[i] == less[i];
    }
  }

  lemma OneLast(s: string, chars: set<char>, k: int, j: int)
    requires IsLast(s, chars, k) && IsLast(s, chars, j)
    ensures k == j
  {
  }

  lemma LastOfIs(s: string, chars: set<char>, k: int)
    requires IsLast(s, chars, k)
    ensures LastOf(s, chars) == k
  {
    LastOfIsLast(s, chars);
    OneLast(s, chars, k, LastOf(s, chars));
  }

  lemma {:induction false} LastOfDrop(s: string, k: nat, chars: set<char>)
    requires k <= |s|
    ensures LastOf(s[k..], chars) == if LastOf(s, chars) >= k then LastOf(s, chars) - k else -1
  {
    if k == |s| {
    } else {
      var last := |s| - 1;
      assert s[k..][|s[k..]| - 1] == s[last] && s[k..][..|s[k..]| - 1] == s[..last][k..];
      LastOfDrop(s[..last], k, chars);
    }
  }

  lemma NoneAfter(s: string, chars: set<char>, k: int)
    requires IsLast(s, chars, k)
    ensures None(s[k + 1..], chars) && (k >= 0 ==> s[..k + 1][k] in chars)
  {
  }

  /** A path is its directories and its file. */
  lemma Split(path: string, k: int)
    requires IsLast(path, SLASHES, k)
    ensures InDirectory(path[..k + 1]) && None(path[k + 1..], SLASHES)
  {
    NoneAfter(path, SLASHES, k);
  }

  /** ... in one way. */
  lemma SplitOnce(dirs: string, file: string)
    requires InDirectory(dirs) && None(file, SLASHES)
    ensures LastOf(dirs + file, SLASHES) == |dirs| - 1
  {
    var path := dirs + file;
    assert forall i | |dirs| <= i < |path| :: path[i] == file[i - |dirs|];
    LastOfIs(path, SLASHES, |dirs| - 1);
  }

  /** The base name is that of the file. */
  lemma BaseNameOfFile(path: string)
    ensures BaseName(path) == Stem(path[LastOf(path, SLASHES) + 1..])
  {
    var cut, dot := LastOf(path, SLASHES) + 1, LastOf(path, DOT);
    var file := path[cut..];
    LastOfDrop(path, cut, DOT);
    DotIsNoSlash(path);
    if dot >= cut {
      assert Stem(file) == file[..dot - cut] == path[cut..dot];
    } else {
      assert Stem(file) == file;
    }
  }

  lemma DotIsNoSlash(path: string)
    ensures LastOf(path, SLASHES) == LastOf(path, DOT) ==> LastOf(path, DOT) == -1
  {
    LastOfIsLast(path, SLASHES);
    LastOfIsLast(path, DOT);
  }

  function Stem(file: string): string {
    var dot := LastOf(file, DOT);
    if dot < 0 then file else file[..dot]
  }

  lemma StemIff(file: string, b: string)
    ensures Stem(file) == b <==> IsFile(file, b)
  {
    var dot := LastOf(file, DOT);
    LastOfIsLast(file, DOT);
    if dot >= 0 {
      assert file == file[..dot] + ['.'] + file[dot + 1..];
    }
    forall e: string | file == b + ['.'] + e && None(e, DOT) ensures Stem(file) == b {
      assert forall i | |b| < i < |file| :: file[i] == e[i - |b| - 1];
      LastOfIs(file, DOT, |b|);
    }
    if file == b && None(b, DOT) {
      LastOfIs(file, DOT, -1);
    }
  }

  /** The name that the merge cuts out of a path is the name that the path gives. */
  lemma BaseNameIff(path: string, b: string)
    ensures BaseName(path) == b <==> Names(path, b)
  {
    var cut := LastOf(path, SLASHES) + 1;
    BaseNameOfFile(path);
    StemIff(path[cut..], b);
    LastOfIsLast(path, SLASHES);
    Split(path, cut - 1);
    assert path == path[..cut] + path[cut..];
    forall dirs, file | path == dirs + file && InDirectory(dirs) && None(file, SLASHES) ensures file == path[cut..] {
      SplitOnce(dirs, file);
    }
  }

  // ---------------------------------------------------------------- quotes

  lemma {:induction false} UnquotedAppend(s: string, t: string)
    ensures Unquoted(s + t) == Unquoted(s) + Unquoted(t)
  {
    if s == "" {
      assert s + t == t;
    } else {
      assert (s + t)[0] == s[0] && (s + t)[1..] == s[1..] + t;
      UnquotedAppend(s[1..], t);
    }
  }

  /** The text of an import is the path, in quotes or not. */
  ghost predicate Spells(text: string, path: string) {
    None(path, {'"'}) && (text == path || text == ['"'] + path + ['"'])
  }

  lemma SpelledIsUnquoted(text: string, path: string)
    requires Spells(text, path)
    ensures Unquoted(text) == path
  {
    UnquotedOnce(path);
    UnquotedAppend(['"'] + path, ['"']);
    UnquotedAppend(['"'], path);
    assert ['"'][1..] == "" && Unquoted("") == "";
  }

  // ---------------------------------------------------------------- the order of the merge

  /** The file has an import whose path names the module. */
  ghost predicate ImportsByPath(f: File, x: Name) {
    exists i, path :: 0 <= i < |f.imports| && Spells(f.imports[i], path) && Names(path, x)
  }

  lemma ByPathIsImport(modules: map<Name, File>, n: Name, x: Name)
    requires n in modules && x in modules && ImportsByPath(modules[n], x)
    ensures Imports(modules, n, x)
  {
    var i, path :| 0 <= i < |modules[n].imports| && Spells(modules[n].imports[i], path) && Names(path, x);
    SpelledIsUnquoted(modules[n].imports[i], path);
    BaseNameIff(path, x);
    assert Dependency(modules[n], i) == x;
  }

  /** Every loaded module that a path names is merged before the module which imports it. */
  ghost predicate PathsFirst(modules: map<Name, File>, parts: seq<Part>) {
    forall i, x | 0 <= i < |parts| && parts[i].name in modules && x in modules
               && ImportsByPath(modules[parts[i].name], x) ::
      Merged(parts[..i], x)
  }

  lemma ImportsByPathFirst(modules: map<Name, File>, parts: seq<Part>)
    requires ImportsFirst(modules, parts)
    ensures PathsFirst(modules, parts)
  {
    forall i, x | 0 <= i < |parts| && parts[i].name in modules && x in modules
               && ImportsByPath(modules[parts[i].name], x)
      ensures Merged(parts[..i], x)
    {
      ByPathIsImport(modules, parts[i].name, x);
    }
  }

  /** No directory, no extension, no quotes. */
  ghost predicate IsBare(s: string) {
    None(s, SLASHES) && None(s, DOT) && None(s, {'"'})
  }

  lemma BareName(s: string)
    requires IsBare(s)
    ensures BaseName(Unquoted(s)) == s
  {
    UnquotedOnce(s);
    assert "" + s == s;
    assert IsFile(s, s) && InDirectory("");
    BaseNameIff(s, s);
  }
}
