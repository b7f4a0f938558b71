/** Content-Type fields as they are written, in any letter case, with any parameters: what the analysis makes
    of them, for multiparts, for enclosed messages and for everything else. */
module ContentType {
  import opened Common
  import opened HeaderText

  /** A parameter of the field. `lead`, `mid` and `trail` are the blanks before its name, between name and
      equals sign, and at its end. */
  datatype Param = Param(lead: string, name: string, mid: string, value: string, quoted: bool, trail: string)

  /** A parameter value as it is written: between quotes or as it is. */
  function Written(b: string, quoted: bool): string {
    if quoted then "\"" + b + "\"" else b
  }

  function WriteParam(p: Param): string {
    p.lead + (p.name + p.mid + "=" + Written(p.value, p.quoted)) + p.trail
  }

  function WriteParams(params: seq<Param>): string {
    if params == [] then "" else ";" + WriteParam(params[0]) + WriteParams(params[1..])
  }

  /** The media type with blanks around it. Without a subtype there is no slash. */
  function WriteType(lead: string, kind: string, sub: Option<string>, trail: string): string {
    lead + (match sub case Some(s) => kind + "/" + s case None => kind) + trail
  }

  predicate Blank(s: string) {
    forall i :: 0 <= i < |s| ==> s[i] in BLANKS
  }

  /** A name: no separators, no blanks. */
  predicate Token(s: string) {
    s != "" && forall i :: 0 <= i < |s| ==> s[i] !in "/;=" && s[i] !in BLANKS
  }

  /** A boundary that survives quoting: no separator, and trimming takes nothing off it. */
  predicate Quotable(b: string) {
    b != "" && ';' !in b && b[0] !in " \"" && b[|b| - 1] !in " \""
  }

  predicate GoodParam(p: Param) {
    Blank(p.lead) && Token(p.name) && Blank(p.mid) && Blank(p.trail) && ';' !in p.value
  }

  /** A boundary parameter, its name in any letter case. Without quotes it must not end in a blank. */
  predicate IsBoundary(p: Param) {
    Lower(p.name) == "boundary" && Quotable(p.value) && (p.quoted || p.value[|p.value| - 1] !in BLANKS)
  }

  predicate GoodParams(params: seq<Param>) {
    forall p :: p in params ==> GoodParam(p)
  }

  lemma {:induction false} SplitFromNone(s: string, delims: string, token: string)
    requires forall i :: 0 <= i < |s| ==> s[i] !in delims
    ensures SplitFrom(s, delims, token) == if token + s == "" then [] else [token + s]
    decreases |s|
  {
    if s == "" {
      assert token + s == token;
    } else {
      SplitFromNone(s[1..], delims, token + [s[0]]);
      assert token + [s[0]] + s[1..] == token + s;
    }
  }

  lemma {:induction false} SplitFromOne(s: string, d: char, rest: string, delims: string, token: string)
    requires d in delims && forall i :: 0 <= i < |s| ==> s[i] !in delims
    requires token + s != ""
    ensures SplitFrom(s + [d] + rest, delims, token) == [token + s] + SplitFrom(rest, delims, "")
    decreases |s|
  {
    var t := s + [d] + rest;
    if s == "" {
      assert t[0] == d && t[1..] == rest && token + s == token;
    } else {
      assert t[1..] == s[1..] + [d] + rest;
      SplitFromOne(s[1..], d, rest, delims, token + [s[0]]);
      assert token + [s[0]] + s[1..] == token + s;
    }
  }

  lemma {:induction false} IndexOfIs(s: string, c: char, rest: string)
    requires c !in s
    ensures IndexOf(s + [c] + rest, c) == |s|
    decreases |s|
  {
    var t := s + [c] + rest;
    if s != "" {
      assert t[0] == s[0] && s[0] in s;
      assert t[1..] == s[1..] + [c] + rest;
      IndexOfIs(s[1..], c, rest);
    }
  }

  // Trimming.

  lemma {:induction false} TrimLead(lead: string, s: string, chars: string)
    requires forall i :: 0 <= i < |lead| ==> lead[i] in chars
    requires s != "" && s[0] !in chars
    ensures TrimStart(lead + s, chars) == s
    decreases |lead|
  {
    if lead == "" {
      assert lead + s == s;
    } else {
      assert (lead + s)[1..] == lead[1..] + s;
      TrimLead(lead[1..], s, chars);
    }
  }

  lemma {:induction false} ChompTrail(s: string, trail: string, chars: string)
    requires forall i :: 0 <= i < |trail| ==> trail[i] in chars
    requires s != "" && s[|s| - 1] !in chars
    ensures Chomp(s + trail, chars) == s
    decreases |trail|
  {
    if trail == "" {
      assert s + trail == s;
    } else {
      var init := trail[..|trail| - 1];
      assert (s + trail)[..|s + trail| - 1] == s + init;
      ChompTrail(s, init, chars);
    }
  }

  lemma TrimBoth(lead: string, s: string, trail: string, chars: string)
    requires forall i :: 0 <= i < |lead| ==> lead[i] in chars
    requires forall i :: 0 <= i < |trail| ==> trail[i] in chars
    requires s != "" && s[0] !in chars && s[|s| - 1] !in chars
    ensures Trim(lead + s + trail, chars) == s
  {
    assert lead + s + trail == lead + (s + trail);
    TrimLead(lead, s + trail, chars);
    ChompTrail(s, trail, chars);
  }

  /** Trimming a written value gives back the boundary. */
  lemma TrimWritten(b: string, quoted: bool)
    requires Quotable(b)
    ensures Trim(Written(b, quoted), " \"") == b
  {
    var q := if quoted then "\"" else "";
    TrimBoth(q, b, q, " \"");
    assert Written(b, quoted) == q + b + q;
  }

  // One parameter.

  lemma TokenEnds(s: string)
    requires Token(s)
    ensures s[0] !in BLANKS && s[|s| - 1] !in BLANKS && ';' !in s && '/' !in s && '=' !in s
  {
  }

  lemma LowerToken(s: string, mid: string)
    requires Token(s) && Blank(mid)
    ensures Trim(Lower(s + mid), BLANKS) == Lower(s)
  {
    assert forall i :: 0 <= i < |mid| ==> Lower(mid)[i] in BLANKS;
    assert Lower(s + mid) == Lower(s) + Lower(mid);
    LowerEnds(s);
    TrimBoth("", Lower(s), Lower(mid), BLANKS);
    assert "" + Lower(s) + Lower(mid) == Lower(s) + Lower(mid);
  }

  lemma LowerEnds(s: string)
    requires Token(s)
    ensures Lower(s) != "" && Lower(s)[0] !in BLANKS && Lower(s)[|s| - 1] !in BLANKS
  {
  }

  /** What the analysis sees of a parameter once its blanks are off. */
  lemma ParamSplit(name: string, mid: string, rest: string, e: string)
    requires Token(name) && Blank(mid) && e == name + mid + "=" + rest
    ensures IndexOf(e, '=') == |name + mid| && e[..|name + mid|] == name + mid && e[|name + mid| + 1..] == rest
  {
    TokenEnds(name);
    assert forall i :: 0 <= i < |mid| ==> mid[i] != '=';
    assert '=' !in name + mid;
    IndexOfIs(name + mid, '=', rest);
    assert e == name + mid + ['='] + rest;
  }

  /** A parameter that is no boundary sets none, whatever its value. */
  lemma OtherParam(p: Param)
    requires GoodParam(p) && Lower(p.name) != "boundary"
    ensures BoundaryElement(WriteParam(p)) == None
  {
    var written := Written(p.value, p.quoted);
    var whole := WriteParam(p);
    var rest := written + p.trail;
    TokenEnds(p.name);
    assert whole == p.lead + (p.name + p.mid + "=" + rest);
    TrimLead(p.lead, p.name + p.mid + "=" + rest, BLANKS);
    var e := Trim(whole, BLANKS);
    var cut := ChompPrefix(p.name + p.mid + "=", rest);
    ParamSplit(p.name, p.mid, cut, e);
    LowerToken(p.name, p.mid);
  }

  /** Trimming at the end leaves what ends in an equals sign alone, but for what follows it. */
  lemma {:induction false} ChompPrefix(head: string, rest: string) returns (cut: string)
    requires head != "" && head[|head| - 1] == '='
    ensures Chomp(head + rest, BLANKS) == head + cut
    decreases |rest|
  {
    if rest != "" && rest[|rest| - 1] in BLANKS {
      assert (head + rest)[..|head + rest| - 1] == head + rest[..|rest| - 1];
      cut := ChompPrefix(head, rest[..|rest| - 1]);
    } else {
      cut := rest;
    }
  }

  /** A boundary parameter sets the boundary that was written. */
  lemma BoundaryParam(p: Param)
    requires GoodParam(p) && IsBoundary(p)
    ensures BoundaryElement(WriteParam(p)) == Some(p.value)
  {
    var written := Written(p.value, p.quoted);
    var e := p.name + p.mid + "=" + written;
    TokenEnds(p.name);
    assert e[|e| - 1] == written[|written| - 1];
    TrimBoth(p.lead, e, p.trail, BLANKS);
    ParamSplit(p.name, p.mid, written, e);
    LowerToken(p.name, p.mid);
    TrimWritten(p.value, p.quoted);
  }

  // The elements of the field.

  predicate NoSemicolon(s: string) {
    forall i :: 0 <= i < |s| ==> s[i] !in ";"
  }

  lemma ParamText(p: Param)
    requires GoodParam(p)
    ensures WriteParam(p) != "" && NoSemicolon(WriteParam(p))
  {
    TokenEnds(p.name);
    var s := WriteParam(p);
    assert ';' !in p.lead && ';' !in p.mid && ';' !in p.trail;
    assert ';' !in Written(p.value, p.quoted);
    assert ';' !in s;
  }

  function Elements(params: seq<Param>): seq<string> {
    if params == [] then [] else [WriteParam(params[0])] + Elements(params[1..])
  }

  lemma {:induction false} FieldElements(first: string, params: seq<Param>)
    requires first != "" && NoSemicolon(first) && GoodParams(params)
    ensures Split(first + WriteParams(params), ";") == [first] + Elements(params)
    decreases |params|
  {
    assert "" + first == first;
    if params == [] {
      assert first + "" == first;
      SplitFromNone(first, ";", "");
      assert [first] + [] == [first];
    } else {
      var next := WriteParam(params[0]);
      ParamText(params[0]);
      FieldElements(next, params[1..]);
      assert first + WriteParams(params) == first + [';'] + (next + WriteParams(params[1..]));
      SplitFromOne(first, ';', next + WriteParams(params[1..]), ";", "");
    }
  }

  lemma {:induction false} NoneSets(params: seq<Param>, acc: string)
    requires GoodParams(params) && forall p :: p in params ==> Lower(p.name) != "boundary"
    ensures LastBoundary(Elements(params), acc) == acc
    decreases |params|
  {
    if params != [] {
      OtherParam(params[0]);
      assert Elements(params)[1..] == Elements(params[1..]);
      NoneSets(params[1..], acc);
    }
  }

  /** Of the parameters only the boundary sets the boundary, wherever it stands. */
  lemma {:induction false} OneSets(before: seq<Param>, p: Param, after: seq<Param>, acc: string)
    requires GoodParams(before) && GoodParam(p) && IsBoundary(p) && GoodParams(after)
    requires forall o :: o in before || o in after ==> Lower(o.name) != "boundary"
    ensures LastBoundary(Elements(before + [p] + after), acc) == p.value
    decreases |before|
  {
    var params := before + [p] + after;
    assert Elements(params)[1..] == Elements(params[1..]);
    if before == [] {
      assert params[0] == p && params[1..] == after;
      BoundaryParam(p);
      NoneSets(after, p.value);
    } else {
      assert params[0] == before[0] && params[1..] == before[1..] + [p] + after;
      OtherParam(before[0]);
      OneSets(before[1..], p, after, acc);
    }
  }

  // The media type.

  lemma TypeText(lead: string, kind: string, sub: Option<string>, trail: string)
    requires Blank(lead) && Token(kind) && (sub.Some? ==> Token(sub.value)) && Blank(trail)
    ensures var core := match sub case Some(s) => kind + "/" + s case None => kind;
            Trim(WriteType(lead, kind, sub, trail), BLANKS) == core
    ensures WriteType(lead, kind, sub, trail) != "" && NoSemicolon(WriteType(lead, kind, sub, trail))
  {
    var core := match sub case Some(s) => kind + "/" + s case None => kind;
    TokenEnds(kind);
    if sub.Some? {
      TokenEnds(sub.value);
      assert core[|core| - 1] == sub.value[|sub.value| - 1];
    }
    TrimBoth(lead, core, trail, BLANKS);
    var s := WriteType(lead, kind, sub, trail);
    assert ';' !in lead && ';' !in trail && ';' !in core;
    assert ';' !in s;
  }

  lemma SlashSplit(kind: string, sub: string)
    requires Token(kind) && Token(sub)
    ensures Split(kind + "/" + sub, "/") == [kind, sub]
  {
    TokenEnds(kind);
    TokenEnds(sub);
    assert "" + kind == kind && forall i :: 0 <= i < |kind| ==> kind[i] !in "/";
    assert "" + sub == sub && forall i :: 0 <= i < |sub| ==> sub[i] !in "/";
    SplitFromOne(kind, '/', sub, "/", "");
    SplitFromNone(sub, "/", "");
    assert kind + ['/'] + sub == kind + "/" + sub;
  }

  lemma NoSlashSplit(kind: string)
    requires Token(kind)
    ensures Split(kind, "/") == [kind]
  {
    TokenEnds(kind);
    assert "" + kind == kind && forall i :: 0 <= i < |kind| ==> kind[i] !in "/";
    SplitFromNone(kind, "/", "");
  }

  lemma MediaTypeIs(lead: string, kind: string, sub: Option<string>, trail: string)
    requires Blank(lead) && Token(kind) && (sub.Some? ==> Token(sub.value)) && Blank(trail)
    ensures MediaType(WriteType(lead, kind, sub, trail)) ==
            (Lower(kind), if sub.Some? then Lower(sub.value) else "plain")
  {
    TypeText(lead, kind, sub, trail);
    if sub.Some? {
      SlashSplit(kind, sub.value);
    } else {
      NoSlashSplit(kind);
      assert Lower("plain") == "plain";
    }
  }

  lemma TypeSetsNone(lead: string, kind: string, sub: Option<string>, trail: string)
    requires Blank(lead) && Token(kind) && (sub.Some? ==> Token(sub.value)) && Blank(trail)
    ensures BoundaryElement(WriteType(lead, kind, sub, trail)) == None
  {
    TypeText(lead, kind, sub, trail);
    TokenEnds(kind);
    var core := match sub case Some(s) => kind + "/" + s case None => kind;
    if sub.Some? {
      TokenEnds(sub.value);
    }
    assert '=' !in core;
    assert forall i :: 0 <= i < |core| ==> core[i] != '=';
  }

  // The field.

  predicate IsContentType(name: string) {
    Lower(name) == "content-type"
  }

  /** The boundary of a list of parameters as the analysis leaves it, from the list. */
  lemma ValueAnalysed(value: string, first: string, params: seq<Param>, items: seq<Item>)
    requires value == first + WriteParams(params) && first != "" && NoSemicolon(first) && GoodParams(params)
    requires FirstHeader(items, "content-type") == Some(value) && BoundaryElement(first) == None
    ensures var (kind, sub) := MediaType(first);
            Analyze(items) == Analysis(kind == "multipart", kind == "message" && sub == "rfc822",
                                       if kind == "multipart" then sub else "", LastBoundary(Elements(params), ""))
  {
    FieldElements(first, params);
    assert ([first] + Elements(params))[1..] == Elements(params);
  }

  /** The first Content-Type field decides: a multipart, in any letter case, has its subtype in lower case; an
      enclosed message is what has type message/rfc822 in any letter case; and nothing else is either. The
      parameters do not matter for that. Without a subtype it counts as plain. */
  lemma FieldAnalysed(name: string, lead: string, kind: string, sub: Option<string>, trail: string, params: seq<Param>,
                      before: seq<Item>, after: seq<Item>)
    requires IsContentType(name) && Blank(lead) && Token(kind) && (sub.Some? ==> Token(sub.value)) && Blank(trail)
    requires GoodParams(params) && forall i :: 0 <= i < |before| ==> !IsContentType(before[i].name)
    ensures var item := Item(name, WriteType(lead, kind, sub, trail) + WriteParams(params));
            var a := Analyze(before + [item] + after);
            && (a.multipart <==> Lower(kind) == "multipart")
            && (a.rfc822 <==> Lower(kind) == "message" && sub.Some? && Lower(sub.value) == "rfc822")
            && a.subtype == (if Lower(kind) != "multipart" then "" else if sub.Some? then Lower(sub.value) else "plain")
            && a.boundary == LastBoundary(Elements(params), "")
  {
    var first := WriteType(lead, kind, sub, trail);
    var item := Item(name, first + WriteParams(params));
    FirstHeaderSkips(before, item, after);
    TypeText(lead, kind, sub, trail);
    MediaTypeIs(lead, kind, sub, trail);
    TypeSetsNone(lead, kind, sub, trail);
    ValueAnalysed(item.value, first, params, before + [item] + after);
  }

  /** The boundary is the one written, with any other parameters before and after it. */
  lemma BoundaryAnalysed(name: string, lead: string, kind: string, sub: Option<string>, trail: string,
                         others: seq<Param>, p: Param, more: seq<Param>, before: seq<Item>, after: seq<Item>)
    requires IsContentType(name) && Blank(lead) && Token(kind) && (sub.Some? ==> Token(sub.value)) && Blank(trail)
    requires GoodParams(others) && GoodParam(p) && IsBoundary(p) && GoodParams(more)
    requires forall o :: o in others || o in more ==> Lower(o.name) != "boundary"
    requires forall i :: 0 <= i < |before| ==> !IsContentType(before[i].name)
    ensures var item := Item(name, WriteType(lead, kind, sub, trail) + WriteParams(others + [p] + more));
            Analyze(before + [item] + after).boundary == p.value
  {
    FieldAnalysed(name, lead, kind, sub, trail, others + [p] + more, before, after);
    OneSets(others, p, more, "");
  }

  /** A multipart field with its boundary, all together. */
  lemma MultipartAnalysed(name: string, lead: string, kind: string, sub: string, trail: string, others: seq<Param>,
                          p: Param, more: seq<Param>, before: seq<Item>, after: seq<Item>)
    requires IsContentType(name) && Blank(lead) && Token(kind) && Token(sub) && Blank(trail)
    requires Lower(kind) == "multipart"
    requires GoodParams(others) && GoodParam(p) && IsBoundary(p) && GoodParams(more)
    requires forall o :: o in others || o in more ==> Lower(o.name) != "boundary"
    requires forall i :: 0 <= i < |before| ==> !IsContentType(before[i].name)
    ensures var item := Item(name, WriteType(lead, kind, Some(sub), trail) + WriteParams(others + [p] + more));
            Analyze(before + [item] + after) == Analysis(true, false, Lower(sub), p.value)
  {
    FieldAnalysed(name, lead, kind, Some(sub), trail, others + [p] + more, before, after);
    BoundaryAnalysed(name, lead, kind, Some(sub), trail, others, p, more, before, after);
  }

  /** Without a boundary parameter there is no boundary. */
  lemma NoBoundaryAnalysed(name: string, lead: string, kind: string, sub: Option<string>, trail: string,
                           params: seq<Param>, before: seq<Item>, after: seq<Item>)
    requires IsContentType(name) && Blank(lead) && Token(kind) && (sub.Some? ==> Token(sub.value)) && Blank(trail)
    requires GoodParams(params) && forall o :: o in params ==> Lower(o.name) != "boundary"
    requires forall i :: 0 <= i < |before| ==> !IsContentType(before[i].name)
    ensures var item := Item(name, WriteType(lead, kind, sub, trail) + WriteParams(params));
            Analyze(before + [item] + after).boundary == ""
  {
    FieldAnalysed(name, lead, kind, sub, trail, params, before, after);
    NoneSets(params, "");
  }

  /** Without the field there is nothing. */
  lemma {:induction false} NoField(items: seq<Item>)
    requires forall i :: 0 <= i < |items| ==> !IsContentType(items[i].name)
    ensures FirstHeader(items, "content-type") == None && Analyze(items) == Analysis(false, false, "", "")
    decreases |items|
  {
    assert Lower("content-type") == "content-type";
    if items != [] {
      NoField(items[1..]);
    }
  }

  lemma {:induction false} FirstHeaderSkips(before: seq<Item>, item: Item, after: seq<Item>)
    requires forall i :: 0 <= i < |before| ==> !IsContentType(before[i].name)
    requires IsContentType(item.name)
    ensures FirstHeader(before + [item] + after, "content-type") == Some(item.value)
    decreases |before|
  {
    assert Lower("content-type") == "content-type";
    var items := before + [item] + after;
    if before == [] {
      assert items[0] == item;
    } else {
      assert items[0] == before[0] && items[1..] == before[1..] + [item] + after;
      FirstHeaderSkips(before[1..], item, after);
    }
  }
}
