/** Lists computed from configuration variables and kept until the variables change, which depends on
    the directory that the values are looked up for. */
module RclConfig {
  import opened Closed
  import opened Common
  import opened ConfTree
  import opened SuffixStore
  import opened WordList

  /** The values of some variables in a directory. */
  function Values(conf: Stack, names: seq<string>, keydir: string): seq<string> {
    seq(|names|, k requires 0 <= k < |names| => Value(conf, names[k], keydir))
  }

  /** Remembers the values that some variables had when last asked for. */
  class ParamStale {
    const conf: Stack
    const paramnames: seq<string>
    var savedvalues: seq<string>
    // Does the configuration define any of the variables at all?
    var active: bool
    var savedkeydirgen: int

    /** What holds when the owner's directory is `keydir`, which it is for the `gen`-th time. */
    ghost predicate Valid(keydir: string, gen: int)
      reads this
    {
      && |savedvalues| == |paramnames|
      && savedkeydirgen <= gen
      && (savedkeydirgen == gen ==> savedvalues == Values(conf, paramnames, keydir))
      && (!active ==> forall k :: 0 <= k < |paramnames| ==> savedvalues[k] == "" && !HasNameAnywhere(conf, paramnames[k]))
    }

    /** Nothing is known of the values yet: all are taken to be empty. */
    constructor (conf: Stack, paramnames: seq<string>)
      ensures this.conf == conf && this.paramnames == paramnames
      ensures savedvalues == seq(|paramnames|, _ => "")
      ensures forall keydir, gen: nat :: Valid(keydir, gen)
    {
      this.conf := conf;
      this.paramnames := paramnames;
      savedvalues := seq(|paramnames|, _ => "");
      active := exists k :: 0 <= k < |paramnames| && HasNameAnywhere(conf, paramnames[k]);
      savedkeydirgen := -1;
    }

    /** Fetch all values, and say whether some changed. */
    method Fetch(keydir: string) returns (changed: bool)
      requires |savedvalues| == |paramnames|
      modifies this`savedvalues
      ensures savedvalues == Values(conf, paramnames, keydir)
      ensures changed <==> savedvalues != old(savedvalues)
    {
      changed := false;
      ghost var was := savedvalues;
      for i := 0 to |paramnames|
        invariant |savedvalues| == |paramnames|
        invariant forall k :: 0 <= k < i ==> savedvalues[k] == Value(conf, paramnames[k], keydir)
        invariant forall k :: i <= k < |paramnames| ==> savedvalues[k] == was[k]
        invariant changed <==> exists k :: 0 <= k < i && savedvalues[k] != was[k]
      {
        var newvalue := Value(conf, paramnames[i], keydir);
        if newvalue != savedvalues[i] {
          savedvalues := savedvalues[i := newvalue];
          changed := true;
        }
      }
    }

    /** Bring the saved values up to date, and say whether they changed. */
    method NeedRecompute(keydir: string, gen: int) returns (changed: bool)
      requires Valid(keydir, gen)
      modifies this
      ensures Valid(keydir, gen)
      ensures savedvalues == Values(conf, paramnames, keydir)
      ensures changed <==> savedvalues != old(savedvalues)
    {
      changed := false;
      if active && gen != savedkeydirgen {
        savedkeydirgen := gen;
        changed := Fetch(keydir);
      } else if !active {
        InactiveIsEmpty(conf, paramnames, keydir);
      }
    }
  }

  /** Variables that are nowhere have empty values. */
  lemma InactiveIsEmpty(conf: Stack, names: seq<string>, keydir: string)
    requires forall k :: 0 <= k < |names| ==> !HasNameAnywhere(conf, names[k])
    ensures forall k :: 0 <= k < |names| ==> Values(conf, names, keydir)[k] == ""
  {
    forall k | 0 <= k < |names| ensures Values(conf, names, keydir)[k] == "" {
      NowhereIsEmpty(conf, names[k], keydir);
    }
  }

  const SKIPPED: seq<string> := ["skippedNames", "skippedNames+", "skippedNames-"]
  const STOP: seq<string> := ["noContentSuffixes", "noContentSuffixes+", "noContentSuffixes-"]
  const OLD_STOP: seq<string> := ["recoll_noindex"]
  const RESTRICT: seq<string> := ["indexedmimetypes"]
  const EXCLUDE: seq<string> := ["excludedmimetypes"]

  /** The set that three variables describe. */
  function SetOf(values: seq<string>): set<string>
    requires |values| == 3
  {
    BasePlusMinus(values[0], values[1], values[2])
  }

  /** The MIME types that a variable lists. */
  function TypesOf(values: seq<string>): seq<string>
    requires |values| == 1
  {
    StringToStrings(Lower(values[0]))
  }

  /** The suffixes that are not indexed: the obsolete variable has priority. */
  function StopOf(old_: seq<string>, values: seq<string>): set<string>
    requires |old_| == 1 && |values| == 3
  {
    if old_[0] != "" then ToSet(StringToStrings(old_[0])) else SetOf(values)
  }

  /** `l` is the set that the values describe. */
  ghost predicate IsSet(l: set<string>, values: seq<string>) {
    forall eye :: Look(eye) ==> |values| == 3 && l == SetOf(values)
  }

  lemma IsSetIs(l: set<string>, values: seq<string>)
    ensures IsSet(l, values) <==> |values| == 3 && l == SetOf(values)
  {
    if IsSet(l, values) {
      assert Look(Eye);
    }
  }

  /** `l` are the types that the value lists. */
  ghost predicate IsTypes(l: seq<string>, values: seq<string>) {
    forall eye :: Look(eye) ==> |values| == 1 && l == TypesOf(values)
  }

  lemma IsTypesIs(l: seq<string>, values: seq<string>)
    ensures IsTypes(l, values) <==> |values| == 1 && l == TypesOf(values)
  {
    if IsTypes(l, values) {
      assert Look(Eye);
    }
  }

  /** `l` are the suffixes that the obsolete and the current values give. */
  ghost predicate IsStop(l: set<string>, old_: seq<string>, values: seq<string>) {
    forall eye :: Look(eye) ==> |old_| == 1 && |values| == 3 && l == StopOf(old_, values)
  }

  lemma IsStopIs(l: set<string>, old_: seq<string>, values: seq<string>)
    ensures IsStop(l, old_, values) <==> |old_| == 1 && |values| == 3 && l == StopOf(old_, values)
  {
    if IsStop(l, old_, values) {
      assert Look(Eye);
    }
  }

  // What a fresh computation would give.

  function SkippedNames(conf: Stack, keydir: string): set<string> {
    SetOf(Values(conf, SKIPPED, keydir))
  }

  function RestrictTypes(conf: Stack, keydir: string): seq<string> {
    TypesOf(Values(conf, RESTRICT, keydir))
  }

  function ExcludeTypes(conf: Stack, keydir: string): seq<string> {
    TypesOf(Values(conf, EXCLUDE, keydir))
  }

  function StopSuffixes(conf: Stack, mimemap: Stack, keydir: string): set<string> {
    StopOf(Values(mimemap, OLD_STOP, keydir), Values(conf, STOP, keydir))
  }

  // What the lists are when the variables are written as lists of words.

  /** The variable has this written list as its value. */
  predicate Holds(conf: Stack, nm: string, keydir: string, w: Written) {
    GoodWritten(w) && Value(conf, nm, keydir) == Text(w)
  }

  /** A name is skipped exactly when it is in the plus list, or in the base list and not in the minus list. */
  lemma SkippedIff(conf: Stack, keydir: string, base: Written, plus: Written, minus: Written, name: string)
    requires Holds(conf, "skippedNames", keydir, base)
    requires Holds(conf, "skippedNames+", keydir, plus) && Holds(conf, "skippedNames-", keydir, minus)
    ensures name in SkippedNames(conf, keydir) <==>
            name in WordsOf(plus.entries) || (name in WordsOf(base.entries) && name !in WordsOf(minus.entries))
  {
    InLists(base, plus, minus, name);
  }

  /** The suffixes: the words of the obsolete variable if it has a value, or else from the three lists. */
  lemma StopIff(conf: Stack, mimemap: Stack, keydir: string, obsolete: Written, base: Written, plus: Written,
                minus: Written, suffix: string)
    requires Holds(mimemap, "recoll_noindex", keydir, obsolete) && Holds(conf, "noContentSuffixes", keydir, base)
    requires Holds(conf, "noContentSuffixes+", keydir, plus) && Holds(conf, "noContentSuffixes-", keydir, minus)
    ensures suffix in StopSuffixes(conf, mimemap, keydir) <==>
            if Text(obsolete) != "" then suffix in WordsOf(obsolete.entries)
            else suffix in WordsOf(plus.entries)
                 || (suffix in WordsOf(base.entries) && suffix !in WordsOf(minus.entries))
  {
    ListReadBack(obsolete.entries, obsolete.tail);
    InLists(base, plus, minus, suffix);
  }

  /** The MIME types are the words of their variable, in order, in lower case. */
  lemma TypesAre(conf: Stack, keydir: string, restrict: Written, exclude: Written)
    requires Holds(conf, "indexedmimetypes", keydir, restrict) && Holds(conf, "excludedmimetypes", keydir, exclude)
    ensures RestrictTypes(conf, keydir) == WordsOf(LowerEntries(restrict.entries))
    ensures ExcludeTypes(conf, keydir) == WordsOf(LowerEntries(exclude.entries))
  {
    LowerReadBack(restrict);
    LowerReadBack(exclude);
  }

  class RclConfig {
    const conf: Stack
    const mimemap: Stack
    var keydir: string
    var keydirgen: int
    const skpnstate: ParamStale
    var skpnlist: set<string>
    const rmtstate: ParamStale
    var restrictMTypes: seq<string>
    const xmtstate: ParamStale
    var excludeMTypes: seq<string>
    const stpsuffstate: ParamStale
    const oldstpsuffstate: ParamStale
    // The suffixes, None as long as they were never asked for, with their store and greatest length.
    var stopsuffixes: Option<set<string>>
    var store: Tree
    var maxsufflen: nat

    ghost const Repr: set<object>

    ghost predicate Parts()
    {
      && Repr == {this, skpnstate, rmtstate, xmtstate, stpsuffstate, oldstpsuffstate}
      && skpnstate != rmtstate && skpnstate != xmtstate && skpnstate != stpsuffstate && skpnstate != oldstpsuffstate
      && rmtstate != xmtstate && rmtstate != stpsuffstate && rmtstate != oldstpsuffstate
      && xmtstate != stpsuffstate && xmtstate != oldstpsuffstate && stpsuffstate != oldstpsuffstate
      && skpnstate.conf == rmtstate.conf == xmtstate.conf == stpsuffstate.conf == conf && oldstpsuffstate.conf == mimemap
      && skpnstate.paramnames == SKIPPED && rmtstate.paramnames == RESTRICT && xmtstate.paramnames == EXCLUDE
      && stpsuffstate.paramnames == STOP && oldstpsuffstate.paramnames == OLD_STOP
    }

    /** Every list is what its saved values give, and the saved values are right for the directory they
        were last looked up for. */
    ghost predicate Valid()
      reads Repr
    {
      && Parts() && keydirgen >= 0
      && skpnstate.Valid(keydir, keydirgen) && rmtstate.Valid(keydir, keydirgen) && xmtstate.Valid(keydir, keydirgen)
      && stpsuffstate.Valid(keydir, keydirgen) && oldstpsuffstate.Valid(keydir, keydirgen)
      && IsSet(skpnlist, skpnstate.savedvalues)
      && IsTypes(restrictMTypes, rmtstate.savedvalues) && IsTypes(excludeMTypes, xmtstate.savedvalues)
      && (stopsuffixes.Some? ==> IsStop(stopsuffixes.value, oldstpsuffstate.savedvalues, stpsuffstate.savedvalues))
      && (stopsuffixes.Some? ==> StoreOf(store, maxsufflen, stopsuffixes.value))
    }

    constructor (conf: Stack, mimemap: Stack)
      ensures Valid() && fresh(Repr) && this.conf == conf && this.mimemap == mimemap && keydir == ""
    {
      this.conf, this.mimemap := conf, mimemap;
      keydir, keydirgen := "", 0;
      var s := new ParamStale(conf, SKIPPED);
      var r := new ParamStale(conf, RESTRICT);
      var x := new ParamStale(conf, EXCLUDE);
      var p := new ParamStale(conf, STOP);
      var o := new ParamStale(mimemap, OLD_STOP);
      skpnstate, rmtstate, xmtstate, stpsuffstate, oldstpsuffstate := s, r, x, p, o;
      skpnlist, restrictMTypes, excludeMTypes, stopsuffixes := {}, [], [], None;
      store, maxsufflen := Leaf, 0;
      Repr := {this, s, r, x, p, o};
      EmptyLists();
      IsSetIs({}, ["", "", ""]);
      IsTypesIs([], [""]);
    }

    /** Look values up for another directory from now on. */
    method SetKeyDir(dir: string)
      requires Valid()
      modifies this`keydir, this`keydirgen
      ensures Valid() && keydir == dir
    {
      if dir == keydir {
        return;
      }
      keydirgen := keydirgen + 1;
      keydir := dir;
    }

    method GetSkippedNames() returns (names: set<string>)
      requires Valid()
      modifies Repr
      ensures Valid() && keydir == old(keydir)
      ensures names == SkippedNames(conf, keydir)
    {
      var stale := skpnstate.NeedRecompute(keydir, keydirgen);
      if stale {
        skpnlist := BasePlusMinus(skpnstate.savedvalues[0], skpnstate.savedvalues[1], skpnstate.savedvalues[2]);
      }
      IsSetIs(skpnlist, skpnstate.savedvalues);
      names := skpnlist;
    }

    /** The allowed and the excluded MIME types. */
    method GetMimeTypes() returns (restrict: seq<string>, exclude: seq<string>)
      requires Valid()
      modifies Repr
      ensures Valid() && keydir == old(keydir)
      ensures restrict == RestrictTypes(conf, keydir) && exclude == ExcludeTypes(conf, keydir)
    {
      var stale := rmtstate.NeedRecompute(keydir, keydirgen);
      if stale {
        restrictMTypes := StringToStrings(Lower(rmtstate.savedvalues[0]));
      }
      stale := xmtstate.NeedRecompute(keydir, keydirgen);
      if stale {
        excludeMTypes := StringToStrings(Lower(xmtstate.savedvalues[0]));
      }
      IsTypesIs(restrictMTypes, rmtstate.savedvalues);
      IsTypesIs(excludeMTypes, xmtstate.savedvalues);
      restrict, exclude := restrictMTypes, excludeMTypes;
    }

    /** Compute the suffixes from the saved values. */
    method ComputeStopSuffixes()
      requires |oldstpsuffstate.savedvalues| == 1 && |stpsuffstate.savedvalues| == 3
      modifies this`stopsuffixes, this`store, this`maxsufflen
      ensures stopsuffixes.Some? && StoreOf(store, maxsufflen, stopsuffixes.value)
      ensures IsStop(stopsuffixes.value, oldstpsuffstate.savedvalues, stpsuffstate.savedvalues)
    {
      var stop: set<string>;
      if oldstpsuffstate.savedvalues[0] != "" {
        stop := ToSet(StringToStrings(oldstpsuffstate.savedvalues[0]));
      } else {
        stop := SetOf(stpsuffstate.savedvalues);
      }
      IsStopIs(stop, oldstpsuffstate.savedvalues, stpsuffstate.savedvalues);
      stopsuffixes := Some(stop);
      store, maxsufflen := Build(stop);
    }

    method GetStopSuffixes() returns (suffixes: set<string>)
      requires Valid()
      modifies Repr
      ensures Valid() && keydir == old(keydir)
      ensures suffixes == StopSuffixes(conf, mimemap, keydir) && stopsuffixes == Some(suffixes)
    {
      var needrecompute := stpsuffstate.NeedRecompute(keydir, keydirgen);
      var more := oldstpsuffstate.NeedRecompute(keydir, keydirgen);
      needrecompute := more || needrecompute;
      if needrecompute || stopsuffixes.None? {
        ComputeStopSuffixes();
      }
      suffixes := stopsuffixes.value;
      IsStopIs(suffixes, oldstpsuffstate.savedvalues, stpsuffstate.savedvalues);
    }

    /** Does the file name have one of the suffixes? When none of these ends another, the answer is right
        but for names that are a proper end of a suffix, which are taken to have it. */
    method InStopSuffixes(name: string) returns (found: bool)
      requires Valid()
      modifies Repr
      ensures Valid() && keydir == old(keydir)
      ensures var suffixes := StopSuffixes(conf, mimemap, keydir);
              Apart(LowerAll(suffixes)) ==> (found <==> HasSuffix(suffixes, name) || EndsSuffix(suffixes, name))
    {
      var suffixes := GetStopSuffixes();
      var pos := if |name| < maxsufflen then 0 else |name| - maxsufflen;
      var tail := Lower(name[pos..]);
      found := Find(store, tail).Some?;
      if Apart(LowerAll(suffixes)) {
        InStoreIff(store, maxsufflen, suffixes, name);
      }
    }
  }

  lemma EmptyLists()
    ensures SetOf(["", "", ""]) == {} && TypesOf([""]) == []
    ensures seq(3, _ => "") == ["", "", ""] && seq(1, _ => "") == [""]
  {
    assert StringToStrings("") == [];
  }

  // Runs.

  /** What can be asked of a configuration. */
  datatype Call = SetDir(dir: string) | AskSkipped | AskTypes | AskSuffixes

  datatype Answer = NoAnswer | Names(names: set<string>) | Types(restrict: seq<string>, exclude: seq<string>)

  /** The directory in force after some calls. */
  function DirAfter(calls: seq<Call>, keydir: string): string {
    if calls == [] then keydir
    else
      var c := calls[|calls| - 1];
      if c.SetDir? then c.dir else DirAfter(calls[..|calls| - 1], keydir)
  }

  /** The answer to a call, computed afresh. */
  function Afresh(conf: Stack, mimemap: Stack, keydir: string, c: Call): Answer {
    match c
    case SetDir(_) => NoAnswer
    case AskSkipped => Names(SkippedNames(conf, keydir))
    case AskTypes => Types(RestrictTypes(conf, keydir), ExcludeTypes(conf, keydir))
    case AskSuffixes => Names(StopSuffixes(conf, mimemap, keydir))
  }

  /** One call. */
  method Ask(config: RclConfig, c: Call) returns (answer: Answer)
    requires config.Valid()
    modifies config.Repr
    ensures config.Valid() && config.keydir == DirAfter([c], old(config.keydir))
    ensures answer == Afresh(config.conf, config.mimemap, config.keydir, c)
  {
    match c
    case SetDir(dir) =>
      config.SetKeyDir(dir);
      answer := NoAnswer;
    case AskSkipped =>
      var names := config.GetSkippedNames();
      answer := Names(names);
    case AskTypes =>
      var restrict, exclude := config.GetMimeTypes();
      answer := Types(restrict, exclude);
    case AskSuffixes =>
      var names := config.GetStopSuffixes();
      answer := Names(names);
  }

  /** In every run, every answer is what a fresh computation for the directory then in force gives. */
  method Run(conf: Stack, mimemap: Stack, calls: seq<Call>) returns (answers: seq<Answer>)
    ensures |answers| == |calls|
    ensures forall k :: 0 <= k < |calls| ==>
              answers[k] == Afresh(conf, mimemap, DirAfter(calls[..k + 1], ""), calls[k])
  {
    var config := new RclConfig(conf, mimemap);
    answers := [];
    for n := 0 to |calls|
      invariant config.Valid() && fresh(config.Repr) && config.conf == conf && config.mimemap == mimemap
      invariant config.keydir == DirAfter(calls[..n], "")
      invariant |answers| == n
      invariant forall k :: 0 <= k < n ==> answers[k] == Afresh(conf, mimemap, DirAfter(calls[..k + 1], ""), calls[k])
    {
      assert calls[..n + 1][..n] == calls[..n] && calls[..n + 1][n] == calls[n];
      var answer := Ask(config, calls[n]);
      answers := answers + [answer];
    }
  }
}
