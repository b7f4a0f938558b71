/** The protocol between the indexer and its helper processes: messages are lists of named parameters,
    each a line with the name and the data size, then the data; an empty line ends a message. Strings
    here are byte strings. */
module CmdTalk {
  import opened Common

  /** A named value to be sent. */
  datatype Field = Field(name: string, data: string)

  /** What reading one parameter gives: end of input, an unusable line or missing data, or a parameter,
      whose name is empty at the end of a message. */
  datatype Param = Eof | Bad | Param(name: string, data: string)

  /** How the main loop ends. */
  datatype End = EndOfInput | Failure

  type Message = map<string, string>

  const CHUNK: nat := 4096
  const MAX_PARAMS: nat := 20

  predicate IsBlank(c: char) {
    c in " \t\n\r\U{b}\U{c}"
  }

  // Numbers.

  function Digit(n: nat): char
    requires n < 10
  {
    '0' + n as char
  }

  /** A number in decimal. */
  function Dec(n: nat): (s: string)
    ensures s != "" && forall k :: 0 <= k < |s| ==> '0' <= s[k] <= '9'
  {
    if n < 10 then [Digit(n)] else Dec(n / 10) + [Digit(n % 10)]
  }

  /** Value of digits, single underscores being allowed between them. */
  function Digits(s: string): Option<nat> {
    if s == "" || !('0' <= s[|s| - 1] <= '9') then None
    else
      var d := (s[|s| - 1] - '0') as nat;
      if |s| == 1 then Some(d)
      else
        match Digits(if s[|s| - 2] == '_' then s[..|s| - 2] else s[..|s| - 1])
        case Some(v) => Some(10 * v + d)
        case None => None
  }

  /** Conversion of a word to a number. */
  function ToInt(s: string): Option<int> {
    if s != "" && s[0] in "+-" then
      match Digits(s[1..])
      case Some(v) => var n: int := if s[0] == '-' then 0 - v else v; Some(n)
      case None => None
    else
      match Digits(s)
      case Some(v) => Some(v)
      case None => None
  }

  lemma {:induction false} DigitsOfDec(n: nat)
    ensures Digits(Dec(n)) == Some(n)
  {
    var s := Dec(n);
    if n >= 10 {
      DigitsOfDec(n / 10);
      assert s[..|s| - 1] == Dec(n / 10);
      assert s[|s| - 2] == Dec(n / 10)[|s| - 2];
    }
  }

  lemma ToIntOfDec(n: nat)
    ensures ToInt(Dec(n)) == Some(n)
  {
    DigitsOfDec(n);
    assert '0' <= Dec(n)[0] <= '9';
  }

  // Reading.

  /** The first line, with its end if it has one. */
  function Line(s: string): (r: string)
    ensures r <= s && (s != "" ==> r != "")
  {
    if s == "" then ""
    else if s[0] == '\n' then assert s[..1] == "\n"; "\n"
    else
      var r := Line(s[1..]);
      assert s == [s[0]] + s[1..];
      [s[0]] + r
  }

  function StripNewlines(s: string): string {
    if s != "" && s[|s| - 1] == '\n' then StripNewlines(s[..|s| - 1]) else s
  }

  function StripColons(s: string): string {
    if s != "" && s[|s| - 1] == ':' then StripColons(s[..|s| - 1]) else s
  }

  /** Length of the word that a string begins with. */
  function WordLength(s: string): (n: nat)
    ensures n <= |s| && (n < |s| ==> IsBlank(s[n])) && forall k :: 0 <= k < n ==> !IsBlank(s[k])
  {
    if s == "" || IsBlank(s[0]) then 0 else 1 + WordLength(s[1..])
  }

  /** The words between blanks. */
  function Words(s: string): seq<string>
    decreases |s|
  {
    if s == "" then []
    else if IsBlank(s[0]) then Words(s[1..])
    else [s[..WordLength(s)]] + Words(s[WordLength(s)..])
  }

  predicate IsAscii(s: string) {
    forall k :: 0 <= k < |s| ==> s[k] < '\U{80}'
  }

  /** The name and size on a line, if it has just these. */
  function NameAndSize(line: string): Option<(string, int)> {
    var l := Words(line);
    if |l| != 2 || !IsAscii(l[0]) then None
    else
      match ToInt(l[1])
      case Some(n) => Some((StripColons(l[0]), n))
      case None => None
  }

  /** One parameter from the input, and what is left of it. */
  function Reading(s: string): (r: (Param, string))
    ensures r.0.Param? ==> |r.1| < |s|
  {
    var line := Line(s);
    var rest := s[|line|..];
    if line == "" then (Eof, rest)
    else
      var text := StripNewlines(line);
      if text == "" then (Param("", ""), rest)
      else
        match NameAndSize(text)
        case None => (Bad, rest)
        case Some((name, size)) =>
          if size <= 0 then (Param(name, ""), rest)
          else if size > |rest| then (Bad, "")
          else (Param(name, rest[..size]), rest[size..])
  }

  /** At most `n` more parameters of a message. The first result says what stopped the program, if
      anything did. */
  function Gathered(s: string, n: nat, params: Message): (r: (Option<End>, Message, string))
    ensures |r.2| <= |s| && (r.0.None? && n > 0 ==> |r.2| < |s|)
    decreases n
  {
    if n == 0 then (None, params, s)
    else
      var (p, rest) := Reading(s);
      match p
      case Eof => (Some(EndOfInput), params, "")
      case Bad => (Some(Failure), params, "")
      case Param(name, data) =>
        if name == "" then (None, params, rest) else Gathered(rest, n - 1, params[name := data])
  }

  /** All messages of an input, and what ended the loop. */
  function Messages(s: string): (seq<Message>, End)
    decreases |s|
  {
    var (end, params, rest) := Gathered(s, MAX_PARAMS, map[]);
    match end
    case Some(e) => ([], e)
    case None => var (more, e) := Messages(rest); ([params] + more, e)
  }

  // Writing.

  function Item(f: Field): string {
    f.name + ": " + Dec(|f.data|) + "\n" + f.data
  }

  function Items(fields: seq<Field>): string {
    if fields == [] then "" else Item(fields[0]) + Items(fields[1..])
  }

  /** A message as it is sent. */
  function Sent(fields: seq<Field>): string {
    Items(fields) + "\n"
  }

  function Wire(messages: seq<seq<Field>>): string {
    if messages == [] then "" else Sent(messages[0]) + Wire(messages[1..])
  }

  function Concat(chunks: seq<string>): string {
    if chunks == [] then "" else Concat(chunks[..|chunks| - 1]) + chunks[|chunks| - 1]
  }

  class CmdTalk {
    const windows: bool
    // What is still to be read, and what was written.
    var infile: string
    var outfile: string

    constructor (windows: bool, input: string)
      ensures this.windows == windows && infile == input && outfile == ""
    {
      this.windows := windows;
      infile := input;
      outfile := "";
    }

    /** Write data, in pieces where the platform needs that. */
    method BreakWrite(data: string) returns (chunks: seq<string>)
      modifies this`outfile
      ensures Concat(chunks) == data && outfile == old(outfile) + data
      ensures windows ==> forall c :: c in chunks ==> 0 < |c| <= CHUNK
    {
      if !windows {
        outfile := outfile + data;
        chunks := [data];
        assert chunks[..0] == [] && "" + data == data;
        return;
      }
      var total := |data|;
      var offset := 0;
      chunks := [];
      while total > 0
        invariant 0 <= total && offset + total == |data|
        invariant Concat(chunks) == data[..offset] && outfile == old(outfile) + data[..offset]
        invariant forall c :: c in chunks ==> 0 < |c| <= CHUNK
      {
        var tow := if total < CHUNK then total else CHUNK;
        var piece := data[offset..offset + tow];
        outfile := outfile + piece;
        assert data[..offset + tow] == data[..offset] + piece;
        assert (chunks + [piece])[..|chunks|] == chunks;
        chunks := chunks + [piece];
        offset := offset + tow;
        total := total - tow;
      }
      assert data[..offset] == data;
    }

    /** Send one field. */
    method SendItem(f: Field)
      modifies this`outfile
      ensures outfile == old(outfile) + Item(f)
    {
      outfile := outfile + (f.name + ": " + Dec(|f.data|) + "\n");
      var _ := BreakWrite(f.data);
    }

    /** Send a message. */
    method Answer(fields: seq<Field>)
      modifies this`outfile
      ensures outfile == old(outfile) + Sent(fields)
    {
      for n := 0 to |fields|
        invariant outfile == old(outfile) + Items(fields[..n])
      {
        SendItem(fields[n]);
        ItemsAppend(fields[..n], fields[n]);
        assert fields[..n + 1] == fields[..n] + [fields[n]];
      }
      assert fields[..|fields|] == fields;
      outfile := outfile + "\n";
    }

    /** Send messages one after the other. */
    method AnswerAll(messages: seq<seq<Field>>)
      modifies this`outfile
      ensures outfile == old(outfile) + Wire(messages)
    {
      for n := 0 to |messages|
        invariant outfile == old(outfile) + Wire(messages[..n])
      {
        Answer(messages[n]);
        WireAppend(messages[..n], messages[n]);
        assert messages[..n + 1] == messages[..n] + [messages[n]];
      }
      assert messages[..|messages|] == messages;
    }

    /** Read one parameter. */
    method ReadParam() returns (p: Param)
      modifies this`infile
      ensures (p, infile) == Reading(old(infile))
    {
      var line := Line(infile);
      infile := infile[|line|..];
      if line == "" {
        return Eof;
      }
      var text := StripNewlines(line);
      if text == "" {
        return Param("", "");
      }
      var l := Words(text);
      if |l| != 2 || !IsAscii(l[0]) {
        return Bad;
      }
      var number := ToInt(l[1]);
      if number.None? {
        return Bad;
      }
      var name, size := StripColons(l[0]), number.value;
      if size > 0 {
        if size > |infile| {
          infile := "";
          return Bad;
        }
        var data := infile[..size];
        infile := infile[size..];
        return Param(name, data);
      }
      return Param(name, "");
    }

    /** Read one message, up to an empty name or the most parameters allowed. */
    method ReadMessage() returns (stop: Option<End>, params: Message)
      modifies this`infile
      ensures var r := Gathered(old(infile), MAX_PARAMS, map[]);
              stop == r.0 && (stop.None? ==> params == r.1 && infile == r.2)
    {
      params := map[];
      stop := None;
      var i := 0;
      ghost var whole := Gathered(infile, MAX_PARAMS, params);
      while i < MAX_PARAMS
        invariant i <= MAX_PARAMS && stop.None?
        invariant Gathered(infile, MAX_PARAMS - i, params) == whole
      {
        var p := ReadParam();
        match p
        case Eof => return Some(EndOfInput), params;
        case Bad => return Some(Failure), params;
        case Param(name, data) =>
          if name == "" {
            return;
          }
          params := params[name := data];
        i := i + 1;
      }
    }

    /** Read all messages, handing each to the processor. */
    method MainLoop() returns (messages: seq<Message>, end: End)
      modifies this`infile
      ensures (messages, end) == Messages(old(infile))
    {
      messages := [];
      ghost var whole := Messages(infile);
      assert [] + whole.0 == whole.0;
      while true
        invariant whole == (messages + Messages(infile).0, Messages(infile).1)
        decreases |infile|
      {
        var stop, params := ReadMessage();
        if stop.Some? {
          assert messages + [] == messages;
          return messages, stop.value;
        }
        assert messages + ([params] + Messages(infile).0) == messages + [params] + Messages(infile).0;
        messages := messages + [params];
      }
    }
  }

  lemma {:induction false} ItemsAppend(fields: seq<Field>, f: Field)
    ensures Items(fields + [f]) == Items(fields) + Item(f)
  {
    var more := fields + [f];
    if fields == [] {
      assert more == [f];
      OneItem(f);
    } else {
      ItemsAppend(fields[1..], f);
      assert more[0] == fields[0] && more[1..] == fields[1..] + [f];
    }
  }

  lemma OneItem(f: Field)
    ensures Items([f]) == Item(f)
  {
    assert [f][1..] == [];
    assert Items([]) == "";
  }

  lemma {:induction false} WireAppend(messages: seq<seq<Field>>, m: seq<Field>)
    ensures Wire(messages + [m]) == Wire(messages) + Sent(m)
  {
    if messages == [] {
      assert ([] + [m])[1..] == [];
    } else {
      WireAppend(messages[1..], m);
      assert (messages + [m])[1..] == messages[1..] + [m];
    }
  }
}
