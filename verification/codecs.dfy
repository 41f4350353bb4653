/** The two text formats of collective I/O: one command per message, and the list of
    metadata entries that answers `metaGetAll`. */
module Codecs {
  import opened Wrappers
  import opened Bytes
  import opened Log
  import opened Collective

  const NUL: Byte := 0 as char
  const SEPARATOR: Byte := ';'

  // ---- command;key;value ----

  datatype Triple = Triple(command: Str, key: Str, value: Str)

  /** `serializeCmd`, into an empty buffer. */
  function Encode(t: Triple): Str {
    t.command + [SEPARATOR] + t.key + [SEPARATOR] + t.value
  }

  /** `strchr`: it stops at a NUL byte. Nothing here stands for what the source does not
      define: a result of `nullptr`, or a scan beyond the buffer. */
  function StrChr(s: Str, c: Byte): (r: Option<nat>)
    ensures r.Some? ==> r.value < |s| && s[r.value] == c
  {
    if s == [] then None
    else if s[0] == c then Some(0)
    else if s[0] == NUL then None
    else
      match StrChr(s[1..], c)
      case Some(i) => Some(i + 1)
      case None => None
  }

  /** Cutting a buffer at the separator that `strchr` finds. */
  function Cut(buf: Str): Option<(Str, Str)> {
    match StrChr(buf, SEPARATOR)
    case None => None
    case Some(i) => Some((buf[..i], buf[i + 1..]))
  }

  /** `deSerializeCmd`. */
  function Decode(buf: Str): Option<Triple> {
    match Cut(buf)
    case None => None
    case Some((command, rest)) =>
      match Cut(rest)
      case None => None
      case Some((key, value)) => Some(Triple(command, key, value))
  }

  /** No separator and no NUL byte. */
  predicate Clean(s: Str) {
    SEPARATOR !in s && NUL !in s
  }

  /** `strchr` finds the separator behind a string exactly when the string is clean. */
  lemma {:induction false} StrChrSplits(s: Str, tail: Str)
    ensures StrChr(s + [SEPARATOR] + tail, SEPARATOR) == Some(|s|) <==> Clean(s)
  {
    var whole := s + [SEPARATOR] + tail;
    if s == [] {
    } else {
      StrChrSplits(s[1..], tail);
      assert whole[1..] == s[1..] + [SEPARATOR] + tail;
      assert Clean(s) <==> Clean([s[0]]) && Clean(s[1..]) by {
        assert s == [s[0]] + s[1..];
      }
    }
  }

  lemma CutExact(buf: Str, s: Str, rest: Str)
    ensures Cut(buf) == Some((s, rest)) <==> buf == s + [SEPARATOR] + rest && Clean(s)
  {
    StrChrSplits(s, rest);
    if buf == s + [SEPARATOR] + rest && Clean(s) {
      assert buf[..|s|] == s && buf[|s| + 1..] == rest;
    }
    if Cut(buf) == Some((s, rest)) {
      assert buf == s + [SEPARATOR] + rest;
    }
  }

  /** Decoding undoes encoding, and encoding undoes decoding, exactly on the triples whose
      command and key are clean; the value may contain anything. */
  lemma DecodeExact(buf: Str, t: Triple)
    ensures Decode(buf) == Some(t) <==> buf == Encode(t) && Clean(t.command) && Clean(t.key)
  {
    var rest := t.key + [SEPARATOR] + t.value;
    assert Encode(t) == t.command + [SEPARATOR] + rest;
    CutExact(buf, t.command, rest);
    CutExact(rest, t.key, t.value);
    if Decode(buf) == Some(t) {
      var cut := Cut(buf).value;
      CutExact(cut.1, t.key, t.value);
    }
  }

  // ---- Messages ----

  datatype Message = Command(cmd: Cmd) | EndOfLife

  const END_OF_LIFE: Str := "__EOL"
  const DUMMY: Str := "DUMMY"

  function CommandText(op: Op): Str {
    match op
    case Get => "get"
    case Put => "put"
    case Del => "del"
    case MetaGet => "metaGet"
    case MetaGetAll => "metaGetAll"
    case MetaPut => "metaPut"
    case ReadBarrier => "rBarrier"
    case WriteBarrier => "wBarrier"
    case Other(name) => name
  }

  /** The comparisons of the server loop and of the callback. */
  function ParseCommand(text: Str): Op {
    if text == "get" then Get
    else if text == "put" then Put
    else if text == "del" then Del
    else if text == "metaGet" then MetaGet
    else if text == "metaGetAll" then MetaGetAll
    else if text == "metaPut" then MetaPut
    else if text == "rBarrier" then ReadBarrier
    else if text == "wBarrier" then WriteBarrier
    else Other(text)
  }

  function ToWire(m: Message): Str {
    match m
    case Command(cmd) => Encode(Triple(CommandText(cmd.op), cmd.key, cmd.value))
    case EndOfLife => Encode(Triple(END_OF_LIFE, DUMMY, []))
  }

  function FromWire(buf: Str): Option<Message> {
    match Decode(buf)
    case None => None
    case Some(t) =>
      if t.command == END_OF_LIFE then Some(EndOfLife)
      else Some(Command(Cmd(ParseCommand(t.command), t.key, t.value)))
  }

  /** What goes over the wire, for every operation and for the end of life. */
  lemma WireTexts()
    ensures ToWire(Command(Cmd(Get, "k", "DUMMY"))) == "get;k;DUMMY"
    ensures ToWire(Command(Cmd(Put, "k", "v"))) == "put;k;v" && ToWire(Command(Cmd(Del, "k", "v"))) == "del;k;v"
    ensures ToWire(Command(Cmd(MetaGet, "k", "v"))) == "metaGet;k;v"
    ensures ToWire(Command(Cmd(MetaPut, "k", "v"))) == "metaPut;k;v"
    ensures ToWire(Command(Cmd(MetaGetAll, "k", "v"))) == "metaGetAll;k;v"
    ensures ToWire(Command(Cmd(ReadBarrier, "k", "v"))) == "rBarrier;k;v"
    ensures ToWire(Command(Cmd(WriteBarrier, "k", "v"))) == "wBarrier;k;v"
    ensures ToWire(EndOfLife) == "__EOL;DUMMY;"
  {
  }

  /** An operation that its text names. */
  predicate Nameable(op: Op) {
    op.Other? ==> op.name != END_OF_LIFE && ParseCommand(op.name) == op && Clean(op.name)
  }

  lemma KnownTextsAreClean(op: Op)
    requires !op.Other?
    ensures Clean(CommandText(op)) && CommandText(op) != END_OF_LIFE && ParseCommand(CommandText(op)) == op
  {
    assert CommandText(op)[1] != END_OF_LIFE[1];
  }

  /** The server reads the message that the client sent exactly when its key is clean. */
  lemma MessageRoundTrip(m: Message)
    ensures FromWire(ToWire(m)) == Some(m) <==> (m.Command? ==> Nameable(m.cmd.op) && Clean(m.cmd.key))
  {
    match m
    case EndOfLife =>
      DecodeExact(ToWire(m), Triple(END_OF_LIFE, DUMMY, []));
    case Command(cmd) =>
      var t := Triple(CommandText(cmd.op), cmd.key, cmd.value);
      DecodeExact(Encode(t), t);
      if !cmd.op.Other? {
        KnownTextsAreClean(cmd.op);
      }
      if FromWire(ToWire(m)) == Some(m) {
        var read := Decode(Encode(t)).value;
        DecodeExact(Encode(t), read);
        ReadBack(cmd, read);
      }
  }

  lemma ReadBack(cmd: Cmd, read: Triple)
    requires read.command != END_OF_LIFE && Cmd(ParseCommand(read.command), read.key, read.value) == cmd
    requires Clean(read.command) && Clean(read.key)
    ensures Nameable(cmd.op) && Clean(cmd.key)
  {
  }

  // ---- Answers ----

  /** The command of an answer; the client compares it with the one that it waits for. */
  function AnswerText(op: Op): Str
    requires Answered(op)
  {
    match op
    case Get => "getBack"
    case MetaGet => "metaGetBack"
    case MetaGetAll => "metaGetAllBack"
    case ReadBarrier => "rBarrierBack"
    case WriteBarrier => "wBarrierBack"
  }

  /** The answer carries the command's key and the value that the callback left. */
  function AnswerToWire(cmd: Cmd, reply: Str): Str
    requires Answered(cmd.op)
  {
    Encode(Triple(AnswerText(cmd.op), cmd.key, reply))
  }

  /** The client reads its answer, with the value whatever bytes it has, exactly when the key
      that it sent is clean; and it takes no other operation's answer for its own. */
  lemma AnswerArrives(cmd: Cmd, reply: Str, op: Op)
    requires Answered(cmd.op) && Answered(op)
    ensures Decode(AnswerToWire(cmd, reply)) == Some(Triple(AnswerText(cmd.op), cmd.key, reply)) <==> Clean(cmd.key)
    ensures AnswerText(op) == AnswerText(cmd.op) <==> op == cmd.op
  {
    DecodeExact(AnswerToWire(cmd, reply), Triple(AnswerText(cmd.op), cmd.key, reply));
    AnswerTextIsClean(cmd.op);
    AnswerTextsDiffer(op, cmd.op);
  }

  lemma AnswerTextIsClean(op: Op)
    requires Answered(op)
    ensures Clean(AnswerText(op))
  {
  }

  lemma AnswerTextsDiffer(a: Op, b: Op)
    requires Answered(a) && Answered(b)
    ensures AnswerText(a) == AnswerText(b) <==> a == b
  {
    assert a != b ==> |AnswerText(a)| != |AnswerText(b)| || AnswerText(a)[0] != AnswerText(b)[0];
  }

  lemma AnswerTexts()
    ensures AnswerToWire(Cmd(Get, "k", []), "v") == "getBack;k;v"
    ensures AnswerToWire(Cmd(MetaGet, "k", []), "v") == "metaGetBack;k;v"
    ensures AnswerToWire(Cmd(MetaGetAll, "k", []), "v") == "metaGetAllBack;k;v"
    ensures AnswerToWire(Cmd(ReadBarrier, "k", []), "v") == "rBarrierBack;k;v"
    ensures AnswerToWire(Cmd(WriteBarrier, "k", []), "v") == "wBarrierBack;k;v"
  {
  }

  // ---- The metadata list ----

  /** `vectorTupleSerialize`. */
  function Lines(values: seq<Entry>): Str {
    if values == [] then []
    else values[0].key + "|" + values[0].value + "\n" + Lines(values[1..])
  }

  method VectorTupleSerialize(values: seq<Entry>) returns (text: Str)
    ensures text == Lines(values)
  {
    text := [];
    var i := 0;
    while i < |values|
      invariant 0 <= i <= |values| && text + Lines(values[i..]) == Lines(values)
    {
      ghost var before := text;
      var line := values[i].key + "|" + values[i].value + "\n";
      text := text + line;
      assert Lines(values[i..]) == line + Lines(values[i + 1..]);
      assert before + (line + Lines(values[i + 1..])) == text + Lines(values[i + 1..]);
      i := i + 1;
    }
    assert values[i..] == [];
    assert text + [] == text;
  }

  /** The first position of a character, or the length. */
  function Find(s: Str, c: Byte): (n: nat)
    ensures n <= |s| && c !in s[..n] && (n < |s| ==> s[n] == c)
  {
    if s == [] || s[0] == c then 0
    else
      var n := Find(s[1..], c);
      assert s[..n + 1] == [s[0]] + s[1..][..n];
      n + 1
  }

  /** The entry of one line: what is before and after its first bar; lines without a bar,
      the empty line among them, are dropped. */
  function ParseLine(line: Str): seq<Entry> {
    var n := Find(line, '|');
    if n < |line| then [Entry(line[..n], line[n + 1..])] else []
  }

  /** The part of the text behind its first line. */
  function AfterLine(text: Str): (rest: Str)
    requires text != []
    ensures |rest| < |text|
  {
    var n := Find(text, '\n');
    if n < |text| then text[n + 1..] else []
  }

  /** `vectorTupleDeserialize`: line by line. */
  function Parse(text: Str): seq<Entry>
    decreases |text|
  {
    if text == [] then [] else ParseLine(text[..Find(text, '\n')]) + Parse(AfterLine(text))
  }

  method VectorTupleDeserialize(text: Str) returns (values: seq<Entry>)
    ensures values == Parse(text)
  {
    values := [];
    var rest := text;
    while rest != []
      invariant values + Parse(rest) == Parse(text)
      decreases |rest|
    {
      ghost var before := values;
      var line := rest[..Find(rest, '\n')];
      var delimiter := Find(line, '|');
      if |line| != 0 && delimiter < |line| {
        values := values + [Entry(line[..delimiter], line[delimiter + 1..])];
      }
      NextLine(rest, before, values, line);
      rest := AfterLine(rest);
    }
  }

  lemma NextLine(text: Str, before: seq<Entry>, values: seq<Entry>, line: Str)
    requires text != [] && line == text[..Find(text, '\n')] && values == before + ParseLine(line)
    ensures values + Parse(AfterLine(text)) == before + Parse(text)
  {
    Associative(before, ParseLine(line), Parse(AfterLine(text)));
  }

  lemma Associative(a: seq<Entry>, b: seq<Entry>, c: seq<Entry>)
    ensures a + (b + c) == a + b + c
  {
  }

  lemma {:induction false} FindAt(s: Str, c: Byte, n: nat)
    requires n < |s| && s[n] == c && c !in s[..n]
    ensures Find(s, c) == n
  {
    assert s == s[..n] + [c] + s[n + 1..];
    FindSplits(s[..n], c, s[n + 1..]);
  }

  /** One line after the other: a line with a bar is cut at its first one, a line without a bar
      yields nothing, and the last line need not end. */
  lemma ParseSplits(line: Str, rest: Str, n: nat)
    requires '\n' !in line && n <= |line| && '|' !in line[..n] && (n < |line| ==> line[n] == '|')
    ensures Parse(line + "\n" + rest) == (if n < |line| then [Entry(line[..n], line[n + 1..])] else []) + Parse(rest)
    ensures Parse(line) == if n < |line| then [Entry(line[..n], line[n + 1..])] else []
  {
    var text := line + ['\n'] + rest;
    FindSplits(line, '\n', rest);
    assert text[..|line|] == line && text[|line| + 1..] == rest;
    ParseLineExactly(line, n);
    if line != [] {
      var end := Find(line, '\n');
      assert end == |line| && line[..end] == line;
    }
  }

  lemma ParseLineExactly(line: Str, n: nat)
    requires n <= |line| && '|' !in line[..n] && (n < |line| ==> line[n] == '|')
    ensures ParseLine(line) == if n < |line| then [Entry(line[..n], line[n + 1..])] else []
  {
    if n < |line| {
      FindAt(line, '|', n);
    } else {
      assert line[..n] == line;
    }
  }

  lemma LineTexts()
    ensures Lines([Entry("k", "v"), Entry("l", "w")]) == "k|v\nl|w\n"
  {
    assert [Entry("k", "v"), Entry("l", "w")][1..] == [Entry("l", "w")];
  }

  /** A key without bar or newline, and a value without newline. */
  predicate Listable(e: Entry) {
    '|' !in e.key && '\n' !in e.key && '\n' !in e.value
  }

  predicate AllListable(values: seq<Entry>) {
    forall e | e in values :: Listable(e)
  }

  /** A string is cut at the first occurrence. */
  lemma {:induction false} FindSplits(s: Str, c: Byte, tail: Str)
    requires c !in s
    ensures Find(s + [c] + tail, c) == |s|
  {
    if s == [] {
    } else {
      assert (s + [c] + tail)[1..] == s[1..] + [c] + tail;
      FindSplits(s[1..], c, tail);
    }
  }

  lemma ParseOneLine(e: Entry, tail: Str)
    requires Listable(e)
    ensures Parse(e.key + "|" + e.value + "\n" + tail) == [e] + Parse(tail)
  {
    var line := e.key + "|" + e.value;
    var text := e.key + "|" + e.value + "\n" + tail;
    assert '\n' !in line;
    assert text == line + ['\n'] + tail;
    FindSplits(line, '\n', tail);
    assert text[..|line|] == line && text[|line| + 1..] == tail;
    FindSplits(e.key, '|', e.value);
    assert line[..|e.key|] == e.key && line[|e.key| + 1..] == e.value;
  }

  lemma {:induction false} ParseUndoesLines(values: seq<Entry>)
    requires AllListable(values)
    ensures Parse(Lines(values)) == values
  {
    if values == [] {
    } else {
      assert values[0] in values;
      ParseUndoesLines(values[1..]);
      ParseOneLine(values[0], Lines(values[1..]));
    }
  }

  lemma ParsedLineIsListable(line: Str)
    requires '\n' !in line
    ensures AllListable(ParseLine(line))
  {
  }

  lemma {:induction false} ParsedIsListable(text: Str)
    ensures AllListable(Parse(text))
    decreases |text|
  {
    if text == [] {
    } else {
      ParsedIsListable(AfterLine(text));
      ParsedLineIsListable(text[..Find(text, '\n')]);
    }
  }

  /** The list survives the trip exactly when every key is free of bars and newlines and
      every value free of newlines. */
  lemma ListRoundTrip(values: seq<Entry>)
    ensures Parse(Lines(values)) == values <==> AllListable(values)
  {
    if AllListable(values) {
      ParseUndoesLines(values);
    }
    ParsedIsListable(Lines(values));
  }
}
