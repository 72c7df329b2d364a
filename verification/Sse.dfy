/**
 * Server-sent events: the formatter, and as its specification the interpretation of an
 * event stream after sections 9.2.5 and 9.2.6 of the WHATWG HTML standard.
 */
module Sse {
  import opened Common
  import opened Text

  /** An event; data is text already (dicts are serialised and bytes decoded before). */
  datatype Event = Event(data: Option<string>, kind: Option<string>, id: Option<string>, retry: Option<int>)

  /** What an application may yield: an event, a dict with optional keys, or a plain value. */
  datatype Item =
    | EventItem(event: Event)
    | DictItem(data: Option<Option<string>>, kind: Option<string>, id: Option<string>, retry: Option<int>)
    | PlainItem(value: Option<string>)

  // ----- The formatter -----

  /** `text.split("\n")`. */
  function SplitLines(s: string): (ls: seq<string>)
    ensures ls != []
  {
    if s == [] then [[]]
    else
      var rest := SplitLines(s[1..]);
      if s[0] == '\n' then [[]] + rest else [[s[0]] + rest[0]] + rest[1..]
  }

  /** `"\n".join(ls)`. */
  function JoinLines(ls: seq<string>): string {
    if ls == [] then [] else if |ls| == 1 then ls[0] else ls[0] + "\n" + JoinLines(ls[1..])
  }

  function IntegerText(n: int): string {
    if n < 0 then "-" + Decimal(-n) else Decimal(n)
  }

  function FieldLine(name: string, value: string): string { name + ": " + value }

  function DataLines(ls: seq<string>): (r: seq<string>)
    ensures |r| == |ls| && forall i :: 0 <= i < |ls| ==> r[i] == FieldLine("data", ls[i])
  {
    if ls == [] then [] else [FieldLine("data", ls[0])] + DataLines(ls[1..])
  }

  /** The lines in front of the data, in the order the source appends them. */
  function HeadLines(e: Event): seq<string> {
    (if e.kind.Some? then [FieldLine("event", e.kind.value)] else [])
    + (if e.id.Some? then [FieldLine("id", e.id.value)] else [])
    + (if e.retry.Some? then [FieldLine("retry", IntegerText(e.retry.value))] else [])
  }

  function Parts(e: Event): seq<string> {
    HeadLines(e) + (if e.data.Some? then DataLines(SplitLines(e.data.value)) else [])
  }

  function Format(e: Event): string { JoinLines(Parts(e) + ["", ""]) }

  method FormatEvent(e: Event) returns (r: string)
    ensures r == Format(e)
  {
    hide FieldLine;
    hide JoinLines;
    hide DataLines;
    var parts: seq<string> := [];
    if e.kind.Some? {
      parts := parts + [FieldLine("event", e.kind.value)];
    }
    if e.id.Some? {
      parts := parts + [FieldLine("id", e.id.value)];
    }
    if e.retry.Some? {
      parts := parts + [FieldLine("retry", IntegerText(e.retry.value))];
    }
    assert parts == HeadLines(e);
    hide HeadLines;
    if e.data.Some? {
      parts := AppendData(parts, SplitLines(e.data.value));
    } else {
      assert parts + [] == parts;
    }
    assert parts + [""] + [""] == parts + ["", ""];
    return JoinLines(parts + [""] + [""]);
  }

  method AppendData(head: seq<string>, lines: seq<string>) returns (parts: seq<string>)
    ensures parts == head + DataLines(lines)
  {
    parts := head;
    for i := 0 to |lines|
      invariant parts == head + DataLines(lines)[..i]
    {
      parts := parts + [FieldLine("data", lines[i])];
      assert DataLines(lines)[..i + 1] == DataLines(lines)[..i] + [FieldLine("data", lines[i])];
    }
    assert DataLines(lines)[..|lines|] == DataLines(lines);
  }

  /** How an item becomes an event: a dict without "data" has empty data, a plain None none. */
  function ItemEvent(item: Item): Event {
    match item
    case EventItem(e) => e
    case DictItem(d, k, i, r) => Event(if d.Some? then d.value else Some([]), k, i, r)
    case PlainItem(v) => Event(v, None, None, None)
  }

  function Stream(items: seq<Item>): string {
    if items == [] then [] else Format(ItemEvent(items[0])) + Stream(items[1..])
  }

  // ----- Interpretation of a stream -----

  /** The lines that end in LF, CR or CR LF; an unfinished last line is discarded. */
  function LinesFrom(line: string, s: string): seq<string>
    decreases |s|
  {
    if s == [] then []
    else if s[0] == '\n' then [line] + LinesFrom([], s[1..])
    else if s[0] == '\r' then [line] + LinesFrom([], if |s| > 1 && s[1] == '\n' then s[2..] else s[1..])
    else LinesFrom(line + [s[0]], s[1..])
  }

  datatype Dispatched = Dispatched(kind: string, data: string, lastEventId: string)

  datatype Client = Client(data: string, kind: string, id: string, reconnection: Option<nat>, events: seq<Dispatched>)

  const START := Client("", "", "", None, [])

  function Dispatch(c: Client): Client {
    var c' := c.(data := "", kind := "");
    if c.data == [] then c'
    else
      var text := if c.data[|c.data| - 1] == '\n' then c.data[..|c.data| - 1] else c.data;
      c'.(events := c.events + [Dispatched(if c.kind == [] then "message" else c.kind, text, c.id)])
  }

  function Field(c: Client, name: string, value: string): Client {
    if name == "event" then c.(kind := value)
    else if name == "data" then c.(data := c.data + value + "\n")
    else if name == "id" then if 0 as char in value then c else c.(id := value)
    else if name == "retry" then
      if value != [] && AllDigits(value) then c.(reconnection := Some(ParseDecimal(value))) else c
    else c
  }

  function ProcessLine(c: Client, line: string): Client {
    if line == [] then Dispatch(c)
    else
      var colon := Find(line, ":", 0, |line|);
      if colon == 0 then c
      else if colon < 0 then Field(c, line, [])
      else
        var value := line[colon + 1..];
        Field(c, line[..colon], if value != [] && value[0] == ' ' then value[1..] else value)
  }

  function ProcessLines(c: Client, ls: seq<string>): Client
    decreases |ls|
  {
    if ls == [] then c else ProcessLines(ProcessLine(c, ls[0]), ls[1..])
  }

  /** One leading byte order mark is skipped. */
  function Interpret(s: string): Client {
    var body := if s != [] && s[0] == '\U{FEFF}' then s[1..] else s;
    ProcessLines(START, LinesFrom([], body))
  }

  // ----- What a stream should mean -----

  /** The client after one event, when nothing goes wrong on the way. */
  function After(c: Client, e: Event): Client {
    var id := if e.id.Some? then e.id.value else c.id;
    var wait := if e.retry.Some? && e.retry.value >= 0 then Some(e.retry.value as nat) else c.reconnection;
    var kind := if e.kind.Some? && e.kind.value != [] then e.kind.value else "message";
    var events := if e.data.Some? then c.events + [Dispatched(kind, e.data.value, id)] else c.events;
    Client("", "", id, wait, events)
  }

  function Meaning(c: Client, es: seq<Event>): Client
    decreases |es|
  {
    if es == [] then c else Meaning(After(c, es[0]), es[1..])
  }

  predicate OneLine(s: string) { '\r' !in s && '\n' !in s }

  predicate Clean(e: Event) {
    && (e.data.Some? ==> '\r' !in e.data.value)
    && (e.kind.Some? ==> OneLine(e.kind.value))
    && (e.id.Some? ==> OneLine(e.id.value) && 0 as char !in e.id.value)
  }

  // ----- Lines of the output -----

  function Terminated(ls: seq<string>): string {
    if ls == [] then [] else ls[0] + "\n" + Terminated(ls[1..])
  }

  lemma {:induction false} JoinEnds(ls: seq<string>)
    ensures JoinLines(ls + ["", ""]) == Terminated(ls + [""])
  {
    if ls == [] {
      assert ls + ["", ""] == ["", ""] && ls + [""] == [""];
      assert ["", ""][1..] == [""] && [""][1..] == [];
      assert JoinLines([""]) == "";
    } else {
      assert (ls + ["", ""])[1..] == ls[1..] + ["", ""] && (ls + [""])[1..] == ls[1..] + [""];
      JoinEnds(ls[1..]);
    }
  }

  lemma {:induction false} LinesSkip(line: string, l: string, s: string)
    requires OneLine(l)
    ensures LinesFrom(line, l + s) == LinesFrom(line + l, s)
    decreases |l|
  {
    if l == [] {
      assert l + s == s && line + l == line;
    } else {
      assert (l + s)[1..] == l[1..] + s && l[0] in l;
      LinesSkip(line + [l[0]], l[1..], s);
      assert line + [l[0]] + l[1..] == line + l;
    }
  }

  lemma {:induction false} LinesOfTerminated(ls: seq<string>, s: string)
    requires forall l <- ls :: OneLine(l)
    ensures LinesFrom([], Terminated(ls) + s) == ls + LinesFrom([], s)
    decreases |ls|
  {
    if ls == [] {
      assert Terminated(ls) + s == s && [] + LinesFrom([], s) == LinesFrom([], s);
    } else {
      hide LinesFrom;
      hide OneLine;
      var rest := Terminated(ls[1..]) + s;
      assert Terminated(ls) + s == ls[0] + ("\n" + rest);
      FirstLine(ls[0], rest);
      LinesOfTerminated(ls[1..], s);
      assert [ls[0]] + (ls[1..] + LinesFrom([], s)) == ls + LinesFrom([], s);
    }
  }

  lemma FirstLine(l: string, rest: string)
    requires OneLine(l)
    ensures LinesFrom([], l + ("\n" + rest)) == [l] + LinesFrom([], rest)
  {
    LinesSkip([], l, "\n" + rest);
    assert [] + l == l && ("\n" + rest)[1..] == rest;
  }

  lemma {:induction false} ProcessAppend(c: Client, a: seq<string>, b: seq<string>)
    ensures ProcessLines(c, a + b) == ProcessLines(ProcessLines(c, a), b)
    decreases |a|
  {
    hide ProcessLine;
    if a == [] {
      assert a + b == b;
    } else {
      assert (a + b)[1..] == a[1..] + b;
      ProcessAppend(ProcessLine(c, a[0]), a[1..], b);
    }
  }

  // ----- Splitting data into lines and back -----

  lemma {:induction false} JoinSplit(s: string)
    ensures JoinLines(SplitLines(s)) == s
  {
    if s != [] {
      var rest := SplitLines(s[1..]);
      JoinSplit(s[1..]);
      if s[0] == '\n' {
        assert ([[]] + rest)[1..] == rest;
        assert JoinLines([[]] + rest) == [] + "\n" + JoinLines(rest);
      } else {
        var ls := [[s[0]] + rest[0]] + rest[1..];
        assert ls[1..] == rest[1..];
        assert JoinLines(ls) == [s[0]] + JoinLines(rest);
      }
    }
  }

  lemma {:induction false} SplitClean(s: string)
    requires '\r' !in s
    ensures forall l <- SplitLines(s) :: OneLine(l)
  {
    if s != [] {
      SplitClean(s[1..]);
      var rest := SplitLines(s[1..]);
      assert s[0] in s && rest[0] in rest;
      assert forall l <- rest[1..] :: l in rest;
    }
  }

  lemma {:induction false} TerminatedIsJoined(ls: seq<string>)
    requires ls != []
    ensures Terminated(ls) == JoinLines(ls) + "\n"
  {
    if |ls| == 1 {
      assert ls[1..] == [];
    } else {
      TerminatedIsJoined(ls[1..]);
    }
  }

  // ----- One field, one event, one stream -----

  lemma ProcessField(c: Client, name: string, value: string)
    requires name != [] && ':' !in name
    ensures ProcessLine(c, FieldLine(name, value)) == Field(c, name, value)
  {
    hide Find;
    var line := FieldLine(name, value);
    FindFirst(line, ":", 0, |line|);
    assert line[|name|..|name| + 1] == ":";
    assert At(line, |name|, ":");
    forall i | 0 <= i < |name| ensures !At(line, i, ":") {
      assert line[i..i + 1][0] == name[i] && name[i] in name;
    }
    assert line[..|name|] == name && line[|name| + 1..] == " " + value && (" " + value)[1..] == value;
    hide Field;
  }

  lemma {:induction false} ProcessData(c: Client, ls: seq<string>)
    ensures ProcessLines(c, DataLines(ls)) == c.(data := c.data + Terminated(ls))
    decreases |ls|
  {
    hide ProcessLine;
    hide FieldLine;
    if ls == [] {
      assert c.data + [] == c.data;
    } else {
      ProcessField(c, "data", ls[0]);
      assert DataLines(ls)[1..] == DataLines(ls[1..]);
      ProcessData(c.(data := c.data + ls[0] + "\n"), ls[1..]);
      assert c.data + ls[0] + "\n" + Terminated(ls[1..]) == c.data + Terminated(ls);
    }
  }

  /** The client once the event, id and retry lines are read. */
  function AfterHead(c: Client, e: Event): Client {
    c.(kind := if e.kind.Some? then e.kind.value else c.kind,
       id := if e.id.Some? then e.id.value else c.id,
       reconnection := if e.retry.Some? && e.retry.value >= 0 then Some(e.retry.value as nat) else c.reconnection)
  }

  lemma ProcessOne(c: Client, line: string)
    ensures ProcessLines(c, [line]) == ProcessLine(c, line)
  {
    assert [line][1..] == [];
  }

  lemma ProcessOptional(c: Client, present: bool, name: string, value: string)
    requires name != [] && ':' !in name
    ensures ProcessLines(c, if present then [FieldLine(name, value)] else [])
            == if present then Field(c, name, value) else c
  {
    hide ProcessLine;
    hide Field;
    ProcessField(c, name, value);
    ProcessOne(c, FieldLine(name, value));
  }

  lemma RetryField(c: Client, n: int)
    ensures Field(c, "retry", IntegerText(n)) == if n >= 0 then c.(reconnection := Some(n as nat)) else c
  {
    if n >= 0 {
      DecimalRoundTrip(n);
    } else {
      assert IntegerText(n)[0] == '-' && '-' in IntegerText(n);
    }
  }

  lemma ProcessHead(c: Client, e: Event)
    requires Clean(e)
    ensures ProcessLines(c, HeadLines(e)) == AfterHead(c, e)
  {
    hide ProcessLines;
    hide FieldLine;
    var k := if e.kind.Some? then e.kind.value else [];
    var i := if e.id.Some? then e.id.value else [];
    var r := if e.retry.Some? then e.retry.value else 0;
    var a := if e.kind.Some? then [FieldLine("event", k)] else [];
    var b := if e.id.Some? then [FieldLine("id", i)] else [];
    var d := if e.retry.Some? then [FieldLine("retry", IntegerText(r))] else [];
    ProcessAppend(c, a + b, d);
    ProcessAppend(c, a, b);
    ProcessOptional(c, e.kind.Some?, "event", k);
    var c1 := if e.kind.Some? then Field(c, "event", k) else c;
    ProcessOptional(c1, e.id.Some?, "id", i);
    var c2 := if e.id.Some? then Field(c1, "id", i) else c1;
    ProcessOptional(c2, e.retry.Some?, "retry", IntegerText(r));
    RetryField(c2, r);
  }

  /** Between events the data and type buffers are empty; one event leads to its meaning. */
  lemma ProcessEvent(c: Client, e: Event)
    requires Clean(e) && c.data == "" && c.kind == ""
    ensures ProcessLines(c, Parts(e) + [""]) == After(c, e)
  {
    hide ProcessLines;
    hide FieldLine;
    var head := HeadLines(e);
    var data := if e.data.Some? then DataLines(SplitLines(e.data.value)) else [];
    assert Parts(e) == head + data;
    ProcessHead(c, e);
    ProcessAppend(c, head + data, [""]);
    ProcessAppend(c, head, data);
    var c1 := AfterHead(c, e);
    ProcessOne(if e.data.Some? then c1.(data := Terminated(SplitLines(e.data.value))) else c1, "");
    if e.data.Some? {
      var ls := SplitLines(e.data.value);
      ProcessData(c1, ls);
      assert "" + Terminated(ls) == Terminated(ls);
      TerminatedIsJoined(ls);
      JoinSplit(e.data.value);
      assert (e.data.value + "\n")[..|e.data.value|] == e.data.value;
    } else {
      NoLines(c1);
    }
  }

  lemma NoLines(c: Client)
    ensures ProcessLines(c, []) == c
  {
  }

  lemma PartsClean(e: Event)
    requires Clean(e)
    ensures forall l <- Parts(e) + [""] :: OneLine(l)
  {
    if e.data.Some? {
      SplitClean(e.data.value);
      var ls := SplitLines(e.data.value);
      forall l <- DataLines(ls) ensures OneLine(l) {
        var i :| 0 <= i < |ls| && DataLines(ls)[i] == l;
        assert ls[i] in ls;
      }
    }
    if e.retry.Some? {
      DigitsAreClean(e.retry.value);
    }
  }

  lemma DigitsAreClean(n: int)
    ensures OneLine(IntegerText(n))
  {
    var d := Decimal(if n < 0 then -n else n);
    assert '\r' !in d && '\n' !in d;
  }

  lemma {:induction false} ProcessStream(c: Client, items: seq<Item>)
    requires c.data == "" && c.kind == "" && forall i <- items :: Clean(ItemEvent(i))
    ensures ProcessLines(c, LinesFrom([], Stream(items))) == Meaning(c, Events(items))
    decreases |items|
  {
    if items == [] {
      NoLines(c);
    } else {
      hide ProcessLines;
      hide Parts;
      hide Clean;
      var e, rest := ItemEvent(items[0]), Stream(items[1..]);
      JoinEnds(Parts(e));
      PartsClean(e);
      LinesOfTerminated(Parts(e) + [""], rest);
      ProcessAppend(c, Parts(e) + [""], LinesFrom([], rest));
      ProcessEvent(c, e);
      assert Events(items)[1..] == Events(items[1..]);
      ProcessStream(After(c, e), items[1..]);
    }
  }

  function Events(items: seq<Item>): (r: seq<Event>)
    ensures |r| == |items| && forall i :: 0 <= i < |items| ==> r[i] == ItemEvent(items[i])
  {
    if items == [] then [] else [ItemEvent(items[0])] + Events(items[1..])
  }

  /**
   * SSE round trip: a client that interprets the concatenated output dispatches exactly
   * the events that have data, in order, with the same type and the same data, however
   * many lines it has; identifiers and reconnection times carry over as the standard says.
   */
  lemma StreamRoundTrip(items: seq<Item>)
    requires forall i <- items :: Clean(ItemEvent(i))
    ensures Interpret(Stream(items)) == Meaning(START, Events(items))
  {
    NoByteOrderMark(items);
    ProcessStream(START, items);
  }

  lemma NoByteOrderMark(items: seq<Item>)
    ensures Stream(items) != [] ==> Stream(items)[0] != '\U{FEFF}'
  {
    if items != [] {
      var e := ItemEvent(items[0]);
      var ls := Parts(e) + [""];
      JoinEnds(Parts(e));
      assert Terminated(ls) == ls[0] + "\n" + Terminated(ls[1..]);
      assert Stream(items)[0] == (ls[0] + "\n")[0];
      if Parts(e) != [] {
        assert ls[0] == Parts(e)[0];
        if e.data.Some? {
          assert DataLines(SplitLines(e.data.value))[0] == FieldLine("data", SplitLines(e.data.value)[0]);
        }
      }
    }
  }

  /** What a client gets from one item, by the kind of the item: each field of a dict under its own name. */
  lemma ItemArrives(data: Option<Option<string>>, kind: Option<string>, id: Option<string>, retry: Option<int>)
    requires data.Some? && data.value.Some? ==> '\r' !in data.value.value
    requires (kind.Some? ==> OneLine(kind.value)) && (id.Some? ==> OneLine(id.value) && 0 as char !in id.value)
    ensures var c := Interpret(Stream([DictItem(data, kind, id, retry)]));
            && c.id == (if id.Some? then id.value else "")
            && c.reconnection == (if retry.Some? && retry.value >= 0 then Some(retry.value as nat) else None)
            && c.events == if data == Some(None) then []
                           else [Dispatched(if kind.Some? && kind.value != "" then kind.value else "message",
                                            if data.Some? then data.value.value else "", c.id)]
    ensures data.Some? ==>
              && Interpret(Stream([EventItem(Event(data.value, kind, id, retry))]))
                 == Interpret(Stream([DictItem(data, kind, id, retry)]))
              && Interpret(Stream([PlainItem(data.value)])) == Interpret(Stream([DictItem(data, None, None, None)]))
  {
    OneArrives(DictItem(data, kind, id, retry));
    if data.Some? {
      OneArrives(EventItem(Event(data.value, kind, id, retry)));
      OneArrives(PlainItem(data.value));
      OneArrives(DictItem(data, None, None, None));
    }
    hide Interpret, Stream, OneLine;
  }

  lemma OneArrives(item: Item)
    requires Clean(ItemEvent(item))
    ensures Interpret(Stream([item])) == After(START, ItemEvent(item))
  {
    StreamRoundTrip([item]);
    hide Interpret, Stream, After, ItemEvent;
    var es := Events([item]);
    assert es == [ItemEvent(item)] && es[1..] == [];
    assert Meaning(START, es) == Meaning(After(START, ItemEvent(item)), []);
  }

  /** The lines of an event with one line of data and all fields: type, identifier, time, data, and a blank line. */
  lemma EventText(data: string, kind: string, id: string, retry: nat)
    requires '\n' !in data
    ensures Format(Event(Some(data), Some(kind), Some(id), Some(retry)))
            == JoinLines(["event: " + kind, "id: " + id, "retry: " + Decimal(retry), "data: " + data, "", ""])
  {
    SplitOne(data);
    var e := Event(Some(data), Some(kind), Some(id), Some(retry));
    hide Decimal, JoinLines, SplitLines;
    assert "event" + ": " + kind == "event: " + kind;
    assert "id" + ": " + id == "id: " + id;
    assert "retry" + ": " + Decimal(retry) == "retry: " + Decimal(retry);
    assert "data" + ": " + data == "data: " + data;
    assert DataLines([data]) == [FieldLine("data", data)];
    assert Parts(e) + ["", ""]
           == ["event: " + kind, "id: " + id, "retry: " + Decimal(retry), "data: " + data, "", ""];
  }

  lemma {:induction false} SplitOne(s: string)
    requires '\n' !in s
    ensures SplitLines(s) == [s]
  {
    if s != [] {
      SplitOne(s[1..]);
      assert s == [s[0]] + s[1..];
    }
  }

  // ----- What cannot travel -----

  /** A data text, a type and an identifier as a client can get them. */
  predicate Receivable(data: string, kind: string, id: string) {
    '\r' !in data && OneLine(kind) && OneLine(id) && 0 as char !in id
  }

  predicate OnlyReceivable(c: Client) {
    Receivable(c.data, c.kind, c.id) && forall d <- c.events :: Receivable(d.data, d.kind, d.lastEventId)
  }

  lemma {:induction false} LinesAreSingle(line: string, s: string)
    requires OneLine(line)
    ensures forall l <- LinesFrom(line, s) :: OneLine(l)
    decreases |s|
  {
    if s != [] {
      if s[0] == '\n' {
        LinesAreSingle([], s[1..]);
      } else if s[0] == '\r' {
        LinesAreSingle([], if |s| > 1 && s[1] == '\n' then s[2..] else s[1..]);
      } else {
        LinesAreSingle(line + [s[0]], s[1..]);
      }
    }
  }

  lemma FieldKeepsReceivable(c: Client, name: string, value: string)
    requires OnlyReceivable(c) && OneLine(value)
    ensures OnlyReceivable(Field(c, name, value))
  {
    hide ParseDecimal, AllDigits;
  }

  lemma DispatchKeepsReceivable(c: Client)
    requires OnlyReceivable(c)
    ensures OnlyReceivable(Dispatch(c))
  {
    assert OneLine("message");
  }

  lemma LineKeepsReceivable(c: Client, line: string)
    requires OnlyReceivable(c) && OneLine(line)
    ensures OnlyReceivable(ProcessLine(c, line))
  {
    hide Find, Field, Dispatch, OnlyReceivable;
    DispatchKeepsReceivable(c);
    var colon := Find(line, ":", 0, |line|);
    FieldKeepsReceivable(c, line, []);
    if colon > 0 {
      var value := line[colon + 1..];
      assert OneLine(value) && (value != [] ==> OneLine(value[1..]));
      FieldKeepsReceivable(c, line[..colon], if value != [] && value[0] == ' ' then value[1..] else value);
    }
  }

  lemma {:induction false} ProcessingKeepsReceivable(c: Client, ls: seq<string>)
    requires OnlyReceivable(c) && forall l <- ls :: OneLine(l)
    ensures OnlyReceivable(ProcessLines(c, ls))
    decreases |ls|
  {
    hide OnlyReceivable, ProcessLine;
    if ls != [] {
      LineKeepsReceivable(c, ls[0]);
      ProcessingKeepsReceivable(ProcessLine(c, ls[0]), ls[1..]);
    }
  }

  /** Whatever the stream, a client gets nothing else. */
  lemma ClientsReceive(s: string)
    ensures OnlyReceivable(Interpret(s))
  {
    hide LinesFrom, ProcessLines;
    var body := if s != [] && s[0] == '\U{FEFF}' then s[1..] else s;
    LinesAreSingle([], body);
    ProcessingKeepsReceivable(START, LinesFrom([], body));
  }

  /** A dispatched event stays in the list, whatever follows. */
  lemma {:induction false} DispatchedStays(c: Client, es: seq<Event>, d: Dispatched)
    requires d in c.events
    ensures d in Meaning(c, es).events
    decreases |es|
  {
    if es != [] {
      DispatchedStays(After(c, es[0]), es[1..], d);
    }
  }

  /** Every event with data ends up among those dispatched, with its type and its identifier. */
  lemma {:induction false} EventIsMeant(c: Client, es: seq<Event>, e: Event) returns (d: Dispatched)
    requires e in es && e.data.Some?
    ensures d in Meaning(c, es).events && d.data == e.data.value
    ensures e.kind.Some? && e.kind.value != [] ==> d.kind == e.kind.value
    ensures e.id.Some? ==> d.lastEventId == e.id.value
    decreases |es|
  {
    var c' := After(c, es[0]);
    if es[0] == e {
      d := c'.events[|c.events|];
      assert d in c'.events;
      DispatchedStays(c', es[1..], d);
    } else {
      d := EventIsMeant(c', es[1..], e);
    }
  }

  /**
   * A stream arrives as it was meant exactly when all its events are clean: no carriage
   * return in the data, no line break in type or identifier, no NUL in an identifier. An
   * event without data dispatches nothing; one that is not clean may or may not do harm.
   */
  lemma StreamArrivesIff(items: seq<Item>)
    requires forall i <- items :: ItemEvent(i).data.None? ==> Clean(ItemEvent(i))
    ensures Interpret(Stream(items)) == Meaning(START, Events(items)) <==> forall i <- items :: Clean(ItemEvent(i))
  {
    if forall i <- items :: Clean(ItemEvent(i)) {
      StreamRoundTrip(items);
    } else {
      var item :| item in items && !Clean(ItemEvent(item));
      var n :| 0 <= n < |items| && items[n] == item;
      var s, e := Stream(items), ItemEvent(item);
      assert Events(items)[n] == e;
      hide Interpret, Meaning, Stream;
      ClientsReceive(s);
      var d := EventIsMeant(START, Events(items), e);
      assert !Receivable(d.data, d.kind, d.lastEventId);
    }
  }

  /** Three events that do not arrive as meant: a return in the data, a line feed in the type, a NUL in the id. */
  lemma UncleanIsLost(item: Item)
    requires item in {PlainItem(Some("a\rb")),
                      EventItem(Event(Some("x"), Some("a\nb"), None, None)),
                      EventItem(Event(Some("x"), None, Some([0 as char]), None))}
    ensures Interpret(Stream([item])) != Meaning(START, Events([item]))
  {
    assert "a\rb"[1] == '\r' && "a\nb"[1] == '\n' && [0 as char][0] == 0 as char;
    assert item in [item] && !Clean(ItemEvent(item));
    StreamArrivesIff([item]);
  }
}
