/** What one side of the helper protocol sends, the other side reads back. */
module CmdTalkRoundTrip {
  import opened Closed
  import opened CmdTalk
  import opened Common

  /** A name that survives the line it is sent on. */
  predicate GoodName(nm: string) {
    nm != "" && IsAscii(nm) && (forall k :: 0 <= k < |nm| ==> !IsBlank(nm[k])) && nm[|nm| - 1] != ':'
  }

  predicate GoodFields(fields: seq<Field>) {
    forall f :: f in fields ==> GoodName(f.name)
  }

  /** Fields set one after the other. */
  function Set(params: Message, fields: seq<Field>): Message
    decreases |fields|
  {
    if fields == [] then params else Set(params[fields[0].name := fields[0].data], fields[1..])
  }

  /** How a message is cut up when it has too many fields: the reader stops after every twentieth. */
  function Cut(fields: seq<Field>): (r: seq<Message>)
    ensures r != [] && (|r| == 1 <==> |fields| < MAX_PARAMS)
    decreases |fields|
  {
    if |fields| < MAX_PARAMS then [Set(map[], fields)]
    else [Set(map[], fields[..MAX_PARAMS])] + Cut(fields[MAX_PARAMS..])
  }

  function CutAll(messages: seq<seq<Field>>): seq<Message> {
    if messages == [] then [] else Cut(messages[0]) + CutAll(messages[1..])
  }

  // One field.

  lemma {:induction false} LineOf(a: string, rest: string)
    requires '\n' !in a
    ensures Line(a + "\n" + rest) == a + "\n"
  {
    var s := a + "\n" + rest;
    if a == "" {
      assert s[0] == '\n';
    } else {
      assert s[1..] == a[1..] + "\n" + rest;
      LineOf(a[1..], rest);
      assert a == [a[0]] + a[1..];
    }
  }

  lemma StripLine(a: string)
    requires '\n' !in a
    ensures StripNewlines(a + "\n") == a
  {
    assert (a + "\n")[..|a|] == a;
    assert a != "" ==> a[|a| - 1] in a;
  }

  lemma {:induction false} WordLengthOf(w: string, rest: string)
    requires forall k :: 0 <= k < |w| ==> !IsBlank(w[k])
    requires rest == "" || IsBlank(rest[0])
    ensures WordLength(w + rest) == |w|
  {
    if w == "" {
      assert w + rest == rest;
    } else {
      assert (w + rest)[1..] == w[1..] + rest;
      WordLengthOf(w[1..], rest);
    }
  }

  /** No blank in it. */
  predicate Solid(s: string) {
    forall k :: 0 <= k < |s| ==> !IsBlank(s[k])
  }

  lemma TwoWords(a: string, b: string)
    requires a != "" && b != "" && Solid(a) && Solid(b)
    ensures Words(a + " " + b) == [a, b]
  {
    var s := a + " " + b;
    assert s == a + (" " + b);
    WordLengthOf(a, " " + b);
    assert s[..|a|] == a && s[|a|..] == " " + b;
    assert (" " + b)[1..] == b;
    WordLengthOf(b, "");
    assert b + "" == b && b[..|b|] == b && b[|b|..] == "";
    assert Words(b) == [b] + Words("");
    assert !IsBlank(s[0]);
  }

  lemma NoBlankIn(nm: string, n: nat)
    requires GoodName(nm)
    ensures Solid(nm + ":") && Solid(Dec(n))
    ensures IsAscii(nm + ":") && StripColons(nm + ":") == nm
  {
    assert (nm + ":")[..|nm|] == nm;
    forall k | 0 <= k < |Dec(n)| ensures !IsBlank(Dec(n)[k]) {
      assert '0' <= Dec(n)[k] <= '9';
    }
  }

  lemma NameLine(nm: string, n: nat)
    requires GoodName(nm)
    ensures NameAndSize(nm + ": " + Dec(n)) == Some((nm, n))
  {
    var a, b := nm + ":", Dec(n);
    assert nm + ": " + b == a + " " + b;
    NoBlankIn(nm, n);
    TwoWords(a, b);
    ToIntOfDec(n);
  }

  lemma NoLineEnd(nm: string, n: nat)
    requires GoodName(nm)
    ensures '\n' !in nm + ": " + Dec(n)
  {
    NoBlankIn(nm, n);
    var head := nm + ": " + Dec(n);
    forall k | 0 <= k < |head| ensures head[k] != '\n' {
      if k < |nm| {
        assert head[k] == nm[k];
      } else if k >= |nm| + 2 {
        assert head[k] == Dec(n)[k - |nm| - 2];
      }
    }
  }

  lemma ItemReadBack(f: Field, rest: string)
    requires GoodName(f.name)
    ensures Reading(Item(f) + rest) == (Param(f.name, f.data), rest)
  {
    var head := f.name + ": " + Dec(|f.data|);
    var s := Item(f) + rest;
    NoLineEnd(f.name, |f.data|);
    assert s == head + "\n" + (f.data + rest);
    LineOf(head, f.data + rest);
    StripLine(head);
    NameLine(f.name, |f.data|);
    assert s[|head| + 1..] == f.data + rest;
    assert (f.data + rest)[..|f.data|] == f.data && (f.data + rest)[|f.data|..] == rest;
  }

  /** The first line and what comes after it. */
  lemma LineRead(head: string, rest: string)
    requires '\n' !in head
    ensures var s := head + "\n" + rest;
            Line(s) == head + "\n" && StripNewlines(Line(s)) == head && s[|Line(s)|..] == rest
  {
    LineOf(head, rest);
    StripLine(head);
  }

  lemma MinusDec(n: nat, b: string)
    requires b == "-" + Dec(n)
    ensures ToInt(b) == Some(0 - n) && Solid(b)
  {
    DigitsOfDec(n);
    assert b[1..] == Dec(n);
  }

  lemma NameAndSizeOf(head: string, a: string, b: string, n: int)
    requires Words(head) == [a, b] && IsAscii(a) && ToInt(b) == Some(n)
    ensures NameAndSize(head) == Some((StripColons(a), n))
  {
  }

  lemma SignedLine(nm: string, n: nat, head: string, a: string, b: string)
    requires GoodName(nm) && a == nm + ":" && b == "-" + Dec(n) && head == a + " " + b
    ensures NameAndSize(head) == Some((nm, 0 - n))
  {
    NoBlankIn(nm, n);
    MinusDec(n, b);
    TwoWords(a, b);
    NameAndSizeOf(head, a, b, 0 - n);
  }

  lemma HeadSplits(nm: string, n: nat, head: string)
    requires head == nm + ": -" + Dec(n)
    ensures head == nm + ":" + " " + ("-" + Dec(n))
  {
  }

  /** A size that is not positive: the parameter has no data. */
  lemma NegativeSize(nm: string, n: nat, rest: string, head: string)
    requires GoodName(nm) && head == nm + ": -" + Dec(n)
    ensures Reading(head + "\n" + rest) == (Param(nm, ""), rest)
  {
    NoLineEnd(nm, n);
    NoEndIn(nm, n, head);
    LineRead(head, rest);
    HeadSplits(nm, n, head);
    SignedLine(nm, n, head, nm + ":", "-" + Dec(n));
  }

  lemma NoEndIn(nm: string, n: nat, head: string)
    requires head == nm + ": -" + Dec(n) && '\n' !in nm + ": " + Dec(n)
    ensures '\n' !in head
  {
    var other := nm + ": " + Dec(n);
    forall k | 0 <= k < |head| ensures head[k] != '\n' {
      assert k < |nm| + 2 ==> head[k] == other[k];
      assert k > |nm| + 2 ==> head[k] == other[k - 1];
    }
  }

  /** A line that is not empty and has not just a name and a number stops the program. */
  lemma BadLine(line: string, rest: string)
    requires line != "" && '\n' !in line && (|Words(line)| != 2 || ToInt(Words(line)[1]) == None)
    ensures Reading(line + "\n" + rest) == (Bad, rest)
  {
    LineRead(line, rest);
  }

  lemma EmptyLine(rest: string)
    ensures Reading("\n" + rest) == (Param("", ""), rest)
  {
    assert "" + "\n" + rest == "\n" + rest;
    LineOf("", rest);
    StripLine("");
    assert ("\n" + rest)[1..] == rest;
  }

  // One message.

  /** Reading at most `n` parameters from `s` sets `params` to `end` and leaves `rest`. */
  ghost predicate Gathers(s: string, n: nat, params: Message, end: Message, rest: string) {
    forall eye :: Look(eye) ==> Gathered(s, n, params) == (None, end, rest)
  }

  lemma GathersIs(s: string, n: nat, params: Message, end: Message, rest: string)
    ensures Gathers(s, n, params, end, rest) <==> Gathered(s, n, params) == (None, end, rest)
  {
    if Gathers(s, n, params, end, rest) {
      assert Look(Eye);
    }
  }

  lemma {:induction false} GatherStep(s: string, f: Field, tail: string, n: nat, m: nat, params: Message)
    requires Reading(s) == (Param(f.name, f.data), tail) && f.name != "" && m + 1 == n
    ensures Gathered(s, n, params) == Gathered(tail, m, params[f.name := f.data])
  {
    GatherIs(s, n, params, Reading(s));
    assert n - 1 == m;
  }

  lemma {:induction false} GatherIs(s: string, n: nat, params: Message, x: (Param, string))
    requires n > 0 && x == Reading(s)
    ensures Gathered(s, n, params) == match x.0
              case Eof => (Some(EndOfInput), params, "")
              case Bad => (Some(Failure), params, "")
              case Param(name, data) =>
                if name == "" then (None, params, x.1) else Gathered(x.1, n - 1, params[name := data])
  {
  }

  lemma GatherField(f: Field, tail: string, n: nat, m: nat, params: Message, end: Message, rest: string)
    requires GoodName(f.name) && m + 1 == n && Gathers(tail, m, params[f.name := f.data], end, rest)
    ensures Gathers(Item(f) + tail, n, params, end, rest)
  {
    ItemReadBack(f, tail);
    GatherStep(Item(f) + tail, f, tail, n, m, params);
    GathersIs(tail, m, params[f.name := f.data], end, rest);
    GathersIs(Item(f) + tail, n, params, end, rest);
  }

  lemma GatherEnd(rest: string, n: nat, params: Message)
    requires n > 0
    ensures Gathers("\n" + rest, n, params, params, rest)
  {
    EmptyLine(rest);
    GathersIs("\n" + rest, n, params, params, rest);
  }

  lemma SentFirst(fields: seq<Field>, rest: string)
    requires fields != []
    ensures Sent(fields) + rest == Item(fields[0]) + (Sent(fields[1..]) + rest)
  {
  }

  /** What is left of the fields after reading at most `n`. */
  function Left(fields: seq<Field>, n: nat, rest: string): string {
    if |fields| < n then rest else Sent(fields[n..]) + rest
  }

  function Taken(fields: seq<Field>, n: nat): seq<Field> {
    if |fields| < n then fields else fields[..n]
  }

  /** Up to `n` fields are read as they were sent; the message ends with the empty line, or before the
      field that is one too many. */
  lemma {:induction false} FieldsReadBack(fields: seq<Field>, n: nat, params: Message, rest: string, end: Message,
                                          left: string)
    requires GoodFields(fields) && end == Set(params, Taken(fields, n)) && left == Left(fields, n, rest)
    ensures Gathers(Sent(fields) + rest, n, params, end, left)
    decreases |fields|
  {
    if n == 0 {
      assert fields[0..] == fields;
      GathersIs(Sent(fields) + rest, 0, params, end, left);
    } else if fields == [] {
      assert Sent(fields) + rest == "\n" + rest;
      GatherEnd(rest, n, params);
    } else {
      var f, more, m := fields[0], fields[1..], n - 1;
      SentFirst(fields, rest);
      LeftStep(fields, n, params, rest);
      FieldsReadBack(more, m, params[f.name := f.data], rest, end, left);
      GatherField(f, Sent(more) + rest, n, m, params, end, left);
    }
  }

  lemma LeftStep(fields: seq<Field>, n: nat, params: Message, rest: string)
    requires fields != [] && n > 0
    ensures Left(fields, n, rest) == Left(fields[1..], n - 1, rest)
    ensures Set(params, Taken(fields, n)) == Set(params[fields[0].name := fields[0].data], Taken(fields[1..], n - 1))
  {
    if |fields| >= n {
      assert fields[..n][1..] == fields[1..][..n - 1] && fields[n..] == fields[1..][n - 1..];
    }
  }

  /** These messages are read from the input, and this ends it. */
  ghost predicate Reads(s: string, messages: seq<Message>, end: End) {
    forall eye :: Look(eye) ==> Messages(s) == (messages, end)
  }

  lemma ReadsIs(s: string, messages: seq<Message>, end: End)
    ensures Reads(s, messages, end) <==> Messages(s) == (messages, end)
  {
    if Reads(s, messages, end) {
      assert Look(Eye);
    }
  }

  lemma {:induction false} ReadsFirst(s: string, params: Message, rest: string, messages: seq<Message>, end: End)
    requires Gathers(s, MAX_PARAMS, map[], params, rest) && Reads(rest, messages, end)
    ensures Reads(s, [params] + messages, end)
  {
    GathersIs(s, MAX_PARAMS, map[], params, rest);
    ReadsIs(rest, messages, end);
    ReadsIs(s, [params] + messages, end);
  }

  /** A message with as many fields as are read at a time, or more. */
  lemma {:induction false} LongMessage(fields: seq<Field>, rest: string, after: seq<Field>, messages: seq<Message>, end: End)
    requires GoodFields(fields) && |fields| >= MAX_PARAMS && after == fields[MAX_PARAMS..]
    requires Reads(Sent(after) + rest, Cut(after) + messages, end)
    ensures Reads(Sent(fields) + rest, Cut(fields) + messages, end)
  {
    var first := Set(map[], fields[..MAX_PARAMS]);
    FieldsReadBack(fields, MAX_PARAMS, map[], rest, first, Sent(after) + rest);
    ReadsFirst(Sent(fields) + rest, first, Sent(after) + rest, Cut(after) + messages, end);
    assert [first] + (Cut(after) + messages) == [first] + Cut(after) + messages;
  }

  lemma {:induction false} ShortMessage(fields: seq<Field>, rest: string, messages: seq<Message>, end: End)
    requires GoodFields(fields) && |fields| < MAX_PARAMS && Reads(rest, messages, end)
    ensures Reads(Sent(fields) + rest, Cut(fields) + messages, end)
  {
    var only := Set(map[], fields);
    FieldsReadBack(fields, MAX_PARAMS, map[], rest, only, rest);
    ReadsFirst(Sent(fields) + rest, only, rest, messages, end);
  }

  /** A message of any number of fields is read as the messages it is cut into. */
  lemma {:induction false} MessageReadBack(fields: seq<Field>, rest: string, messages: seq<Message>, end: End)
    requires GoodFields(fields) && Reads(rest, messages, end)
    ensures Reads(Sent(fields) + rest, Cut(fields) + messages, end)
    decreases |fields|
  {
    if |fields| < MAX_PARAMS {
      ShortMessage(fields, rest, messages, end);
    } else {
      MessageReadBack(fields[MAX_PARAMS..], rest, messages, end);
      LongMessage(fields, rest, fields[MAX_PARAMS..], messages, end);
    }
  }

  // All messages.

  /** The sender's messages and whatever follows them. */
  lemma {:induction false} WireThen(sent: seq<seq<Field>>, rest: string, messages: seq<Message>, end: End)
    requires (forall m :: m in sent ==> GoodFields(m)) && Reads(rest, messages, end)
    ensures Reads(Wire(sent) + rest, CutAll(sent) + messages, end)
  {
    if sent == [] {
      assert "" + rest == rest && [] + messages == messages;
    } else {
      WireThen(sent[1..], rest, messages, end);
      MessageReadBack(sent[0], Wire(sent[1..]) + rest, CutAll(sent[1..]) + messages, end);
      assert Wire(sent) + rest == Sent(sent[0]) + (Wire(sent[1..]) + rest);
      assert Cut(sent[0]) + (CutAll(sent[1..]) + messages) == CutAll(sent) + messages;
    }
  }

  /** Whatever the numbers of fields, the sender's messages are read back cut up, and nothing else. */
  lemma {:induction false} WireReadBack(messages: seq<seq<Field>>)
    requires forall m :: m in messages ==> GoodFields(m)
    ensures Messages(Wire(messages)) == (CutAll(messages), EndOfInput)
  {
    ReadsIs("", [], EndOfInput);
    WireThen(messages, "", [], EndOfInput);
    assert Wire(messages) + "" == Wire(messages) && CutAll(messages) + [] == CutAll(messages);
    ReadsIs(Wire(messages), CutAll(messages), EndOfInput);
  }

  // Input that ends too early.

  /** Reading at most `n` parameters stops the program this way. */
  ghost predicate Stops(s: string, n: nat, params: Message, end: End) {
    forall eye :: Look(eye) ==> Gathered(s, n, params).0 == Some(end)
  }

  lemma StopsIs(s: string, n: nat, params: Message, end: End)
    ensures Stops(s, n, params, end) <==> Gathered(s, n, params).0 == Some(end)
  {
    if Stops(s, n, params, end) {
      assert Look(Eye);
    }
  }

  /** Fields that are followed by what stops the program. */
  lemma {:induction false} FieldsThenStop(fields: seq<Field>, n: nat, params: Message, tail: string, end: End)
    requires GoodFields(fields) && |fields| < n
    requires forall m: nat, p :: m > 0 ==> Stops(tail, m, p, end)
    ensures Stops(Items(fields) + tail, n, params, end)
    decreases |fields|
  {
    if fields == [] {
      assert "" + tail == tail;
    } else {
      var f, more := fields[0], Items(fields[1..]) + tail;
      FieldsThenStop(fields[1..], n - 1, params[f.name := f.data], tail, end);
      FieldThenStop(f, more, n, n - 1, params, end);
      ItemsFirst(fields, tail);
    }
  }

  lemma FieldThenStop(f: Field, more: string, n: nat, m: nat, params: Message, end: End)
    requires GoodName(f.name) && m + 1 == n && Stops(more, m, params[f.name := f.data], end)
    ensures Stops(Item(f) + more, n, params, end)
  {
    ItemReadBack(f, more);
    GatherStep(Item(f) + more, f, more, n, m, params);
    StopsIs(more, m, params[f.name := f.data], end);
    StopsIs(Item(f) + more, n, params, end);
  }

  lemma {:induction false} ItemsFirst(fields: seq<Field>, tail: string)
    requires fields != []
    ensures Items(fields) + tail == Item(fields[0]) + (Items(fields[1..]) + tail)
  {
  }

  /** Nothing is read from an input that stops the program in its first message. */
  lemma {:induction false} StoppedFirst(s: string, end: End)
    requires Stops(s, MAX_PARAMS, map[], end)
    ensures Reads(s, [], end)
  {
    StopsIs(s, MAX_PARAMS, map[], end);
    ReadsIs(s, [], end);
  }

  /** A field whose data is cut short, `cut` characters of it being there. */
  function Shortened(f: Field, cut: nat): string
    requires cut <= |f.data|
  {
    f.name + ": " + Dec(|f.data|) + "\n" + f.data[..cut]
  }

  lemma ShortenedIsBad(f: Field, cut: nat)
    requires GoodName(f.name) && cut < |f.data|
    ensures Reading(Shortened(f, cut)) == (Bad, "")
  {
    var head, part := f.name + ": " + Dec(|f.data|), f.data[..cut];
    var s := Shortened(f, cut);
    NoLineEnd(f.name, |f.data|);
    assert s == head + "\n" + part;
    LineOf(head, part);
    StripLine(head);
    NameLine(f.name, |f.data|);
    assert s[|head| + 1..] == part;
  }

  /** Input that ends inside the data of a field: the messages before are read, the one that was begun is lost,
      and the program ends with a failure. */
  lemma CutInData(messages: seq<seq<Field>>, fields: seq<Field>, f: Field, cut: nat)
    requires (forall m :: m in messages ==> GoodFields(m)) && GoodFields(fields) && |fields| < MAX_PARAMS
    requires GoodName(f.name) && cut < |f.data|
    ensures Messages(Wire(messages) + (Items(fields) + Shortened(f, cut))) == (CutAll(messages), Failure)
  {
    var tail := Shortened(f, cut);
    ShortenedIsBad(f, cut);
    forall m: nat, p | m > 0 ensures Stops(tail, m, p, Failure) {
      StopsIs(tail, m, p, Failure);
    }
    FieldsThenStop(fields, MAX_PARAMS, map[], tail, Failure);
    StoppedFirst(Items(fields) + tail, Failure);
    WireThen(messages, Items(fields) + tail, [], Failure);
    assert CutAll(messages) + [] == CutAll(messages);
    ReadsIs(Wire(messages) + (Items(fields) + tail), CutAll(messages), Failure);
  }

  /** Input that ends between two fields: the message that was begun is lost too, but this is no failure. */
  lemma CutBetween(messages: seq<seq<Field>>, fields: seq<Field>)
    requires (forall m :: m in messages ==> GoodFields(m)) && GoodFields(fields) && |fields| < MAX_PARAMS
    ensures Messages(Wire(messages) + Items(fields)) == (CutAll(messages), EndOfInput)
  {
    forall m: nat, p | m > 0 ensures Stops("", m, p, EndOfInput) {
      StopsIs("", m, p, EndOfInput);
    }
    FieldsThenStop(fields, MAX_PARAMS, map[], "", EndOfInput);
    assert Items(fields) + "" == Items(fields);
    StoppedFirst(Items(fields), EndOfInput);
    WireThen(messages, Items(fields), [], EndOfInput);
    assert CutAll(messages) + [] == CutAll(messages);
    ReadsIs(Wire(messages) + Items(fields), CutAll(messages), EndOfInput);
  }

  /** The dictionary of a message. */
  function AsMessages(messages: seq<seq<Field>>): seq<Message> {
    if messages == [] then [] else [Set(map[], messages[0])] + AsMessages(messages[1..])
  }

  lemma {:induction false} CutAllCounts(messages: seq<seq<Field>>)
    ensures |AsMessages(messages)| == |messages| <= |CutAll(messages)|
    ensures |CutAll(messages)| == |messages| <==> forall m :: m in messages ==> |m| < MAX_PARAMS
    ensures (forall m :: m in messages ==> |m| < MAX_PARAMS) ==> CutAll(messages) == AsMessages(messages)
  {
    if messages != [] {
      CutAllCounts(messages[1..]);
      assert forall m :: m in messages <==> m == messages[0] || m in messages[1..];
    }
  }

  /** The messages are read back as sent exactly when each has at most nineteen fields. */
  lemma ReadBackIff(messages: seq<seq<Field>>)
    requires forall m :: m in messages ==> GoodFields(m)
    ensures Messages(Wire(messages)) == (AsMessages(messages), EndOfInput) <==>
            forall m :: m in messages ==> |m| < MAX_PARAMS
  {
    WireReadBack(messages);
    CutAllCounts(messages);
  }

  predicate Distinct(fields: seq<Field>) {
    forall j, k :: 0 <= j < k < |fields| ==> fields[j].name != fields[k].name
  }

  /** The reader's dictionary has the fields of the message and no others. */
  lemma {:induction false} SetHasFields(params: Message, fields: seq<Field>)
    requires Distinct(fields)
    ensures forall nm :: nm in Set(params, fields) <==> nm in params || exists k :: 0 <= k < |fields| && fields[k].name == nm
    ensures forall k :: 0 <= k < |fields| ==>
              fields[k].name in Set(params, fields) && Set(params, fields)[fields[k].name] == fields[k].data
    ensures forall nm :: nm in params && (forall k :: 0 <= k < |fields| ==> fields[k].name != nm) ==>
              nm in Set(params, fields) && Set(params, fields)[nm] == params[nm]
    decreases |fields|
  {
    if fields != [] {
      var more := fields[1..];
      assert Distinct(more) by {
        assert forall j :: 0 <= j < |more| ==> more[j] == fields[j + 1];
      }
      SetHasFields(params[fields[0].name := fields[0].data], more);
      assert forall k :: 0 <= k < |fields| ==> fields[k] == if k == 0 then fields[0] else more[k - 1];
    }
  }

  /** What one side writes, the other side reads, through the two loops. */
  method Exchange(messages: seq<seq<Field>>, windows: bool) returns (read: seq<Message>, end: End)
    requires forall m :: m in messages ==> GoodFields(m)
    ensures read == CutAll(messages) && end == EndOfInput
    ensures read == AsMessages(messages) <==> forall m :: m in messages ==> |m| < MAX_PARAMS
  {
    var sender := new CmdTalk(windows, "");
    sender.AnswerAll(messages);
    var reader := new CmdTalk(windows, sender.outfile);
    assert sender.outfile == Wire(messages);
    read, end := reader.MainLoop();
    WireReadBack(messages);
    ReadBackIff(messages);
  }
}
