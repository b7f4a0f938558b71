/** Header fields: trimming, splitting, lookup, and what the parser reads off the Content-Type. */
module HeaderText {
  import opened Common

  const BLANKS: string := " \t\r\n"

  datatype Item = Item(name: string, value: string)

  /** What analyzeHeader sets in a part. */
  datatype Analysis = Analysis(multipart: bool, rfc822: bool, subtype: string, boundary: string)

  function TrimStart(s: string, chars: string): string {
    if s != "" && s[0] in chars then TrimStart(s[1..], chars) else s
  }

  /** Strip at the end, but never the first character. */
  function Chomp(s: string, chars: string): string {
    if |s| > 1 && s[|s| - 1] in chars then Chomp(s[..|s| - 1], chars) else s
  }

  function Trim(s: string, chars: string): string {
    Chomp(TrimStart(s, chars), chars)
  }

  /** Drop the line end of a header value. */
  function DropEol(s: string): string {
    if |s| > 2 then s[..|s| - 2] else s
  }

  /** The non-empty pieces of `s` between characters of `delims`. */
  function Split(s: string, delims: string): seq<string> {
    SplitFrom(s, delims, "")
  }

  function SplitFrom(s: string, delims: string, token: string): seq<string>
    decreases |s|
  {
    if s == "" then (if token == "" then [] else [token])
    else if s[0] in delims then (if token == "" then [] else [token]) + SplitFrom(s[1..], delims, "")
    else SplitFrom(s[1..], delims, token + [s[0]])
  }

  /** Value of the first field of that name, case ignored. */
  function FirstHeader(items: seq<Item>, key: string): Option<string> {
    if items == [] then None
    else if Lower(items[0].name) == Lower(key) then Some(items[0].value)
    else FirstHeader(items[1..], key)
  }

  function IndexOf(s: string, c: char): (k: nat)
    ensures k <= |s| && c !in s[..k] && (k < |s| ==> s[k] == c)
  {
    if s == "" || s[0] == c then 0 else
      var k := IndexOf(s[1..], c);
      assert s[..k + 1] == [s[0]] + s[1..][..k];
      k + 1
  }

  /** The boundary a `key=value` element sets, if it is the boundary parameter. */
  function BoundaryElement(element: string): Option<string> {
    var e := Trim(element, BLANKS);
    var k := IndexOf(e, '=');
    if k < |e| && Trim(Lower(e[..k]), BLANKS) == "boundary" then Some(Trim(e[k + 1..], " \"")) else None
  }

  /** The last boundary parameter wins. */
  function LastBoundary(types: seq<string>, acc: string): string
    decreases |types|
  {
    if types == [] then acc
    else
      var b := BoundaryElement(types[0]);
      LastBoundary(types[1..], if b.Some? then b.value else acc)
  }

  /** Type and subtype of the first element. */
  function MediaType(first: string): (string, string) {
    var v := Split(Trim(first, BLANKS), "/");
    (Lower(if |v| > 0 then v[0] else "text"), Lower(if |v| > 1 then v[1] else "plain"))
  }

  function Analyze(items: seq<Item>): (a: Analysis)
    ensures items == [] ==> !a.multipart && !a.rfc822
    ensures !(a.multipart && a.rfc822)
  {
    match FirstHeader(items, "content-type")
    case None => Analysis(false, false, "", "")
    case Some(value) =>
      var types := Split(value, ";");
      var boundary := LastBoundary(types, "");
      if types == [] then Analysis(false, false, "", boundary)
      else
        var (kind, sub) := MediaType(types[0]);
        Analysis(kind == "multipart", kind == "message" && sub == "rfc822",
                 if kind == "multipart" then sub else "", boundary)
  }

  lemma {:induction false} LastBoundarySnoc(types: seq<string>, acc: string, element: string)
    ensures LastBoundary(types + [element], acc) ==
            match BoundaryElement(element) case Some(b) => b case None => LastBoundary(types, acc)
    decreases |types|
  {
    if types == [] {
      assert (types + [element])[1..] == [];
    } else {
      assert (types + [element])[1..] == types[1..] + [element];
      var b := BoundaryElement(types[0]);
      LastBoundarySnoc(types[1..], if b.Some? then b.value else acc, element);
    }
  }

  /** The boundary parameter among the elements of the field. */
  method ScanBoundary(types: seq<string>) returns (boundary: string)
    ensures boundary == LastBoundary(types, "")
  {
    boundary := "";
    for i := 0 to |types|
      invariant boundary == LastBoundary(types[..i], "")
    {
      assert types[..i + 1] == types[..i] + [types[i]];
      LastBoundarySnoc(types[..i], "", types[i]);
      var element := Trim(types[i], BLANKS);
      var pos := IndexOf(element, '=');
      if pos < |element| {
        var key := Trim(Lower(element[..pos]), BLANKS);
        var value := element[pos + 1..];
        if key == "boundary" {
          boundary := Trim(value, " \"");
        }
      }
    }
    assert types[..|types|] == types;
  }

  /** Set the media type flags and the boundary from the Content-Type field. */
  method AnalyzeHeader(items: seq<Item>) returns (a: Analysis)
    ensures a == Analyze(items)
  {
    a := Analysis(false, false, "", "");
    var ctype := FirstHeader(items, "content-type");
    if ctype.Some? {
      var types := Split(ctype.value, ";");
      if |types| > 0 {
        var v := Split(Trim(types[0], BLANKS), "/");
        var key := Lower(if |v| > 0 then v[0] else "text");
        var value := if |v| > 1 then v[1] else "plain";
        if key == "multipart" {
          a := a.(multipart := true, subtype := Lower(value));
        } else if key == "message" {
          if Lower(value) == "rfc822" {
            a := a.(rfc822 := true);
          }
        }
      }
      var boundary := ScanBoundary(types);
      a := a.(boundary := boundary);
    }
  }
}
