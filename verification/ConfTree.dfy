/** Configuration data as it is looked up: files of sections of named values, a section named after a
    directory answering for those under it, the files of a stack being asked in turn. */
module ConfTree {
  import opened Common

  /** One configuration file: the named values of each section. */
  type ConfFile = map<string, map<string, string>>

  /** A stack of files, the first one having priority. */
  type Stack = seq<ConfFile>

  function LastSlash(s: string): (r: nat)
    requires '/' in s
    ensures r < |s| && s[r] == '/' && '/' !in s[r + 1..]
  {
    if s[|s| - 1] == '/' then |s| - 1
    else
      assert s == s[..|s| - 1] + [s[|s| - 1]];
      var r := LastSlash(s[..|s| - 1]);
      assert s[r + 1..] == s[..|s| - 1][r + 1..] + [s[|s| - 1]];
      r
  }

  function CatSlash(s: string): string {
    if s != "" && s[|s| - 1] == '/' then s else s + "/"
  }

  predicate IsAbsolute(s: string) {
    s != "" && s[0] == '/'
  }

  function SimpleGet(tree: ConfFile, nm: string, sk: string): Option<string> {
    if sk in tree && nm in tree[sk] then Some(tree[sk][nm]) else None
  }

  /** The value in a section or in the nearest one above it. */
  function Climb(tree: ConfFile, nm: string, sk: string): Option<string>
    decreases |sk|
  {
    if SimpleGet(tree, nm, sk).Some? then SimpleGet(tree, nm, sk)
    else if '/' in sk then Climb(tree, nm, sk[..LastSlash(sk)])
    else None
  }

  function TreeGet(tree: ConfFile, nm: string, sk: string): Option<string> {
    if IsAbsolute(sk) then Climb(tree, nm, CatSlash(sk)) else SimpleGet(tree, nm, sk)
  }

  function Get(confs: Stack, nm: string, sk: string): Option<string> {
    if confs == [] then None
    else if TreeGet(confs[0], nm, sk).Some? then TreeGet(confs[0], nm, sk)
    else Get(confs[1..], nm, sk)
  }

  /** The value of a variable, empty when there is none. */
  function Value(confs: Stack, nm: string, sk: string): string {
    match Get(confs, nm, sk)
    case Some(v) => v
    case None => ""
  }

  /** Does asking for the name in any of the sections there are give something? */
  predicate TreeHasName(tree: ConfFile, nm: string) {
    exists sk :: sk in tree && TreeGet(tree, nm, sk).Some?
  }

  predicate HasNameAnywhere(confs: Stack, nm: string) {
    exists k :: 0 <= k < |confs| && TreeHasName(confs[k], nm)
  }

  // Which value is found.

  /** The section itself, or one above it: what stands before one of its slashes. */
  predicate Above(sk: string, d: string) {
    d == sk || (|d| < |sk| && sk[..|d|] == d && sk[|d|] == '/')
  }

  /** No section from `sk` up to above `d`, `d` not included, has the name. */
  ghost predicate NoneNearer(tree: ConfFile, nm: string, sk: string, d: string) {
    forall e :: Above(sk, e) && |e| > |d| ==> SimpleGet(tree, nm, e) == None
  }

  /** The nearest section above that has the name wins. */
  lemma {:induction false} NearestWins(tree: ConfFile, nm: string, sk: string, d: string)
    requires Above(sk, d) && SimpleGet(tree, nm, d).Some? && NoneNearer(tree, nm, sk, d)
    ensures Climb(tree, nm, sk) == SimpleGet(tree, nm, d)
    decreases |sk|
  {
    if d != sk {
      assert SimpleGet(tree, nm, sk) == None;
      var up := sk[..LastSlash(sk)];
      AboveUp(sk, d);
      forall e | Above(up, e) && |e| > |d| ensures SimpleGet(tree, nm, e) == None {
        AboveTwice(sk, e);
      }
      NearestWins(tree, nm, up, d);
    }
  }

  /** Everything above a section is what stands before its last slash, or above that. */
  lemma AboveUp(sk: string, d: string)
    requires Above(sk, d) && d != sk
    ensures '/' in sk && Above(sk[..LastSlash(sk)], d)
  {
    assert sk[|d|] in sk;
    var r := LastSlash(sk);
    assert forall j :: r < j < |sk| ==> sk[j] == sk[r + 1..][j - r - 1] && sk[j] != '/';
  }

  lemma AboveTwice(sk: string, e: string)
    requires '/' in sk && Above(sk[..LastSlash(sk)], e)
    ensures Above(sk, e)
  {
  }

  /** For a directory, written with or without a slash at its end, the nearest section wins, the one of the
      directory itself being written with the slash or without. Other keys are looked up as they are. */
  lemma DirectoryWins(tree: ConfFile, nm: string, sk: string, d: string)
    requires Above(sk + "/", d) && SimpleGet(tree, nm, d).Some? && NoneNearer(tree, nm, sk + "/", d)
    requires IsAbsolute(sk) && sk[|sk| - 1] != '/'
    ensures TreeGet(tree, nm, sk) == TreeGet(tree, nm, sk + "/") == SimpleGet(tree, nm, d)
    ensures forall key :: !IsAbsolute(key) ==> TreeGet(tree, nm, key) == SimpleGet(tree, nm, key)
  {
    NearestWins(tree, nm, sk + "/", d);
  }

  /** When no section above has the name there is no value. */
  lemma {:induction false} NoneFound(tree: ConfFile, nm: string, sk: string)
    requires forall e :: Above(sk, e) ==> SimpleGet(tree, nm, e) == None
    ensures Climb(tree, nm, sk) == None
    decreases |sk|
  {
    if '/' in sk {
      forall e | Above(sk[..LastSlash(sk)], e) ensures SimpleGet(tree, nm, e) == None {
        AboveTwice(sk, e);
      }
      NoneFound(tree, nm, sk[..LastSlash(sk)]);
    }
  }

  /** The first file of the stack that has a value wins. */
  lemma {:induction false} FirstFileWins(confs: Stack, nm: string, sk: string, k: nat)
    requires k < |confs| && TreeGet(confs[k], nm, sk).Some?
    requires forall j :: 0 <= j < k ==> TreeGet(confs[j], nm, sk) == None
    ensures Get(confs, nm, sk) == TreeGet(confs[k], nm, sk)
    decreases |confs|
  {
    if k > 0 {
      assert confs[1..][k - 1] == confs[k];
      FirstFileWins(confs[1..], nm, sk, k - 1);
    }
  }

  lemma {:induction false} NoFileHas(confs: Stack, nm: string, sk: string)
    requires forall j :: 0 <= j < |confs| ==> TreeGet(confs[j], nm, sk) == None
    ensures Get(confs, nm, sk) == None && Value(confs, nm, sk) == ""
    decreases |confs|
  {
    if confs != [] {
      NoFileHas(confs[1..], nm, sk);
    }
  }

  /** A value found by climbing is in some section, and asking for that section finds it too. */
  lemma {:induction false} ClimbFinds(tree: ConfFile, nm: string, sk: string)
    requires Climb(tree, nm, sk).Some?
    ensures TreeHasName(tree, nm)
    decreases |sk|
  {
    if SimpleGet(tree, nm, sk).Some? {
      SectionFinds(tree, nm, sk);
    } else {
      ClimbFinds(tree, nm, sk[..LastSlash(sk)]);
    }
  }

  lemma SectionFinds(tree: ConfFile, nm: string, sk: string)
    requires SimpleGet(tree, nm, sk).Some?
    ensures TreeGet(tree, nm, sk).Some?
  {
    if IsAbsolute(sk) && CatSlash(sk) != sk {
      var s := sk + "/";
      assert s[|sk|] == '/' && s[..|sk|] == sk;
      assert LastSlash(s) == |sk|;
      assert Climb(tree, nm, sk) == SimpleGet(tree, nm, sk);
    }
  }

  lemma TreeFinds(tree: ConfFile, nm: string, sk: string)
    ensures TreeGet(tree, nm, sk).Some? ==> TreeHasName(tree, nm)
  {
    if TreeGet(tree, nm, sk).Some? {
      if IsAbsolute(sk) {
        ClimbFinds(tree, nm, CatSlash(sk));
      }
    }
  }

  /** A name that is nowhere has no value in any directory. */
  lemma {:induction false} NowhereIsEmpty(confs: Stack, nm: string, sk: string)
    requires !HasNameAnywhere(confs, nm)
    ensures Get(confs, nm, sk) == None && Value(confs, nm, sk) == ""
  {
    if confs != [] {
      assert !TreeHasName(confs[0], nm);
      TreeFinds(confs[0], nm, sk);
      forall k | 0 <= k < |confs[1..]| ensures !TreeHasName(confs[1..][k], nm) {
        assert confs[1..][k] == confs[k + 1];
      }
      NowhereIsEmpty(confs[1..], nm, sk);
    }
  }

  // Lists of words.

  datatype Lexer = InSpace | InToken | InQuote | InEscape

  /** The words of a string, which double quotes can hold together. An unfinished quoted word is lost. */
  function Words(s: string, state: Lexer, current: string): seq<string>
    decreases |s|
  {
    if s == "" then (if state == InToken then [current] else [])
    else
      var c, rest := s[0], s[1..];
      if c == '\"' then
        match state
        case InSpace => Words(rest, InQuote, current)
        case InToken => Words(rest, InToken, current + "\"")
        case InQuote => [current] + Words(rest, InSpace, "")
        case InEscape => Words(rest, InQuote, current + "\"")
      else if c == '\\' then
        match state
        case InQuote => Words(rest, InEscape, current)
        case InEscape => Words(rest, InQuote, current + "\\")
        case _ => Words(rest, InToken, current + "\\")
      else if c in " \t\n\r" then
        match state
        case InSpace => Words(rest, InSpace, current)
        case InToken => [current] + Words(rest, InSpace, "")
        case _ => Words(rest, state, current + [c])
      else
        match state
        case InSpace => Words(rest, InToken, current + [c])
        case InEscape => Words(rest, InQuote, current + [c])
        case _ => Words(rest, state, current + [c])
  }

  function StringToStrings(s: string): seq<string> {
    Words(s, InSpace, "")
  }

  function ToSet(l: seq<string>): set<string> {
    set s | s in l
  }

  /** A base list with some words taken away and others added. */
  function BasePlusMinus(base: string, plus: string, minus: string): set<string> {
    ToSet(StringToStrings(base)) - ToSet(StringToStrings(minus)) + ToSet(StringToStrings(plus))
  }
}
