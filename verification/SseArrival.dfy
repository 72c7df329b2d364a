/** Event streams that are not clean: exactly when each prefix of a stream arrives as it was meant. */
module SseArrival {
  import opened Common
  import opened Text
  import opened Sse

  // ----- What a line does -----

  /** The field of a line; none for an empty line or a comment. */
  function FieldOf(line: string): Option<(string, string)> {
    if line == [] then None
    else
      var colon := Find(line, ":", 0, |line|);
      if colon == 0 then None
      else if colon < 0 then Some((line, []))
      else
        var value := line[colon + 1..];
        Some((line[..colon], if value != [] && value[0] == ' ' then value[1..] else value))
  }

  predicate IsData(line: string) {
    FieldOf(line).Some? && FieldOf(line).value.0 == "data"
  }

  lemma LineIsField(c: Client, line: string)
    ensures ProcessLine(c, line) ==
              if line == [] then Dispatch(c)
              else if FieldOf(line).None? then c
              else Field(c, FieldOf(line).value.0, FieldOf(line).value.1)
  {
    hide Find, Field, Dispatch;
  }

  /** The identifier and the reconnection time that lines leave. */
  function IdAfter(ls: seq<string>, id: string): string
    decreases |ls|
  {
    if ls == [] then id
    else
      var f := FieldOf(ls[0]);
      IdAfter(ls[1..], if f.Some? && f.value.0 == "id" && 0 as char !in f.value.1 then f.value.1 else id)
  }

  function RetryAfter(ls: seq<string>, wait: Option<nat>): Option<nat>
    decreases |ls|
  {
    if ls == [] then wait
    else
      var f := FieldOf(ls[0]);
      RetryAfter(ls[1..],
                 if f.Some? && f.value.0 == "retry" && f.value.1 != [] && AllDigits(f.value.1)
                 then Some(ParseDecimal(f.value.1)) else wait)
  }

  lemma {:induction false} StateAfter(c: Client, ls: seq<string>)
    ensures ProcessLines(c, ls).id == IdAfter(ls, c.id)
    ensures ProcessLines(c, ls).reconnection == RetryAfter(ls, c.reconnection)
    decreases |ls|
  {
    hide FieldOf, ProcessLine, ParseDecimal, AllDigits;
    if ls != [] {
      LineIsField(c, ls[0]);
      EmptyHasNoField();
      StateAfter(ProcessLine(c, ls[0]), ls[1..]);
    }
  }

  lemma EmptyHasNoField()
    ensures FieldOf([]) == None
  {
  }

  // ----- Data lines dispatch events -----

  /** The events dispatched, and one more that is due. */
  function Due(c: Client): nat {
    |c.events| + if c.data == "" then 0 else 1
  }

  lemma LineDue(c: Client, line: string)
    ensures Due(ProcessLine(c, line)) >= Due(c) && c.events <= ProcessLine(c, line).events
    ensures IsData(line) ==> Due(ProcessLine(c, line)) >= |c.events| + 1
    ensures !IsData(line) && c.data == "" ==> ProcessLine(c, line).events == c.events && ProcessLine(c, line).data == ""
  {
    LineIsField(c, line);
    EmptyHasNoField();
    hide FieldOf, ProcessLine, ParseDecimal, AllDigits;
    if line != [] && FieldOf(line).Some? {
      var (name, value) := FieldOf(line).value;
      assert name == "data" ==> |c.data + value + "\n"| > 0;
    }
  }

  lemma {:induction false} LinesDue(c: Client, ls: seq<string>)
    ensures Due(ProcessLines(c, ls)) >= Due(c)
    ensures (exists l <- ls :: IsData(l)) ==> Due(ProcessLines(c, ls)) >= |c.events| + 1
    ensures (forall l <- ls :: !IsData(l)) && c.data == "" ==>
              ProcessLines(c, ls).events == c.events && ProcessLines(c, ls).data == ""
    decreases |ls|
  {
    hide ProcessLine, IsData;
    if ls != [] {
      var next := ProcessLine(c, ls[0]);
      LineDue(c, ls[0]);
      LinesDue(next, ls[1..]);
      assert ls == [ls[0]] + ls[1..];
      assert |next.events| >= |c.events|;
    }
  }

  // ----- The lines of an event -----

  /** What is left of the text after its first character, or after a CR LF. */
  function Next(s: string): string
    requires s != []
  {
    if s[0] == '\r' && |s| > 1 && s[1] == '\n' then s[2..] else s[1..]
  }

  lemma LinesStep(line: string, s: string)
    requires s != []
    ensures LinesFrom(line, s) ==
              if s[0] == '\n' || s[0] == '\r' then [line] + LinesFrom([], Next(s))
              else LinesFrom(line + [s[0]], Next(s))
  {
  }

  lemma NextJoin(s: string, t: string)
    requires s != [] && s[|s| - 1] == '\n'
    ensures (s + t)[0] == s[0] && Next(s + t) == Next(s) + t && |Next(s)| < |s|
    ensures Next(s) == [] || Next(s)[|Next(s)| - 1] == '\n'
    ensures Next(s) == [] ==> s[0] == '\n' || s[0] == '\r'
  {
    assert (s + t)[1..] == s[1..] + t && (|s| > 1 ==> (s + t)[2..] == s[2..] + t && (s + t)[1] == s[1]);
  }

  lemma {:induction false} LinesJoin(line: string, s: string, t: string)
    requires s != [] && s[|s| - 1] == '\n'
    ensures LinesFrom(line, s + t) == LinesFrom(line, s) + LinesFrom([], t)
    decreases |s|
  {
    hide LinesFrom, Next;
    LinesStep(line, s);
    LinesStep(line, s + t);
    NextJoin(s, t);
    NoText();
    if Next(s) == [] {
      assert [] + t == t && [line] + [] == [line];
    } else if s[0] == '\n' || s[0] == '\r' {
      LinesJoin([], Next(s), t);
      var a, b := LinesFrom([], Next(s)), LinesFrom([], t);
      assert [line] + (a + b) == [line] + a + b;
    } else {
      LinesJoin(line + [s[0]], Next(s), t);
    }
  }

  function EventLines(e: Event): seq<string> {
    LinesFrom([], Format(e))
  }

  lemma {:induction false} TerminatedSnoc(ls: seq<string>)
    ensures Terminated(ls + [""]) == Terminated(ls) + "\n"
    ensures ls != [] ==> Terminated(ls) != [] && Terminated(ls)[|Terminated(ls)| - 1] == '\n'
  {
    if ls == [] {
      assert ls + [""] == [""] && [""][1..] == [] && Terminated([""]) == "" + "\n" + Terminated([]);
    } else {
      TerminatedSnoc(ls[1..]);
      assert (ls + [""])[1..] == ls[1..] + [""];
    }
  }

  /** An event ends with a line feed and its last line is empty. */
  lemma EventEnds(e: Event) returns (heads: seq<string>)
    ensures Format(e) != [] && Format(e)[|Format(e)| - 1] == '\n' && EventLines(e) == heads + [""]
  {
    var text := Terminated(Parts(e));
    JoinEnds(Parts(e));
    TerminatedSnoc(Parts(e));
    assert Parts(e) == [] ==> text == [];
    hide Parts, Terminated, JoinLines;
    assert LinesFrom([], "\n") == [[]] + LinesFrom([], "\n"[1..]) == [""];
    heads := LinesFrom([], text);
    if text == [] {
      assert text + "\n" == "\n" && [] + [""] == [""];
    } else {
      LinesJoin([], text, "\n");
    }
  }

  // ----- When one event arrives -----

  /**
   * An event without data is quiet: no line of it is a data line, and its lines leave the
   * identifier and the reconnection time that it was meant to leave.
   */
  predicate Quiet(c: Client, e: Event) {
    && (forall l <- EventLines(e) :: !IsData(l))
    && IdAfter(EventLines(e), c.id) == After(c, e).id
    && RetryAfter(EventLines(e), c.reconnection) == After(c, e).reconnection
  }

  predicate Arrives(c: Client, e: Event) {
    if e.data.Some? then Clean(e) else Quiet(c, e)
  }

  lemma QuietIff(c: Client, e: Event)
    requires e.data.None? && c.data == "" && c.kind == ""
    ensures ProcessLines(c, EventLines(e)) == After(c, e) <==> Quiet(c, e)
  {
    hide EventLines, IsData, ProcessLines;
    var heads := EventEnds(e);
    var ls, last := EventLines(e), ProcessLines(c, heads);
    StateAfter(c, ls);
    LinesDue(c, heads);
    ProcessAppend(c, heads, [""]);
    ProcessOne(last, "");
    BlankIsNoData();
    assert forall l <- heads :: l in ls;
    assert forall l <- ls :: l in heads || l == "";
  }

  lemma BlankIsNoData()
    ensures !IsData("")
  {
  }

  lemma ArrivesIff(c: Client, e: Event)
    requires c.data == "" && c.kind == "" && OnlyReceivable(c)
    ensures ProcessLines(c, EventLines(e)) == After(c, e) <==> Arrives(c, e)
  {
    if e.data.None? {
      QuietIff(c, e);
    } else if Clean(e) {
      hide ProcessLines, Parts, Terminated, JoinLines, LinesFrom;
      JoinEnds(Parts(e));
      PartsClean(e);
      LinesOfTerminated(Parts(e) + [""], []);
      assert Terminated(Parts(e) + [""]) + [] == Terminated(Parts(e) + [""]);
      assert LinesFrom([], []) == [] by {
        NoText();
      }
      assert Parts(e) + [""] + [] == Parts(e) + [""];
      ProcessEvent(c, e);
    } else {
      hide ProcessLines, Format, LinesFrom;
      LinesAreSingle([], Format(e));
      ProcessingKeepsReceivable(c, EventLines(e));
      var d := After(c, e).events[|c.events|];
      assert !Receivable(d.data, d.kind, d.lastEventId);
    }
  }

  lemma NoText()
    ensures LinesFrom([], []) == []
  {
  }

  // ----- Streams -----

  lemma {:induction false} StreamSnoc(items: seq<Item>, i: Item)
    ensures Stream(items + [i]) == Stream(items) + Format(ItemEvent(i))
    ensures items != [] ==> Stream(items) != [] && Stream(items)[|Stream(items)| - 1] == '\n'
  {
    hide Format;
    if items == [] {
      assert items + [i] == [i] && [i][1..] == [];
      assert Format(ItemEvent(i)) + [] == Format(ItemEvent(i)) && [] + Format(ItemEvent(i)) == Format(ItemEvent(i));
    } else {
      var heads := EventEnds(ItemEvent(items[0]));
      assert (items + [i])[1..] == items[1..] + [i] && (items + [i])[0] == items[0];
      StreamSnoc(items[1..], i);
      assert items[1..] == [] ==> Stream(items[1..]) == [];
    }
  }

  /** What a client makes of one more event. */
  lemma InterpretSnoc(items: seq<Item>, i: Item)
    ensures Interpret(Stream(items + [i])) == ProcessLines(Interpret(Stream(items)), EventLines(ItemEvent(i)))
  {
    StreamSnoc(items, i);
    NoByteOrderMark(items);
    NoByteOrderMark(items + [i]);
    var s, t := Stream(items), Format(ItemEvent(i));
    assert LinesFrom([], s + t) == LinesFrom([], s) + LinesFrom([], t) by {
      if items == [] {
        NoText();
        assert s + t == t && [] + LinesFrom([], t) == LinesFrom([], t);
      } else {
        LinesJoin([], s, t);
      }
    }
    hide Stream, LinesFrom, ProcessLines, Format;
    ProcessAppend(START, LinesFrom([], s), LinesFrom([], t));
  }

  lemma {:induction false} MeaningSnoc(c: Client, es: seq<Event>, e: Event)
    ensures Meaning(c, es + [e]) == After(Meaning(c, es), e)
    decreases |es|
  {
    hide After;
    if es == [] {
      assert es + [e] == [e] && [e][1..] == [];
      assert Meaning(c, [e]) == Meaning(After(c, e), []);
    } else {
      assert (es + [e])[1..] == es[1..] + [e] && (es + [e])[0] == es[0];
      MeaningSnoc(After(c, es[0]), es[1..], e);
    }
  }

  lemma MeantIsIdle(es: seq<Event>)
    ensures Meaning(START, es).data == "" && Meaning(START, es).kind == ""
  {
    if es != [] {
      var last := |es| - 1;
      MeaningSnoc(START, es[..last], es[last]);
      assert es[..last] + [es[last]] == es;
    }
  }

  /** The first `k` events arrive as they were meant. */
  predicate PrefixArrives(items: seq<Item>, k: nat)
    requires k <= |items|
  {
    Interpret(Stream(items[..k])) == Meaning(START, Events(items[..k]))
  }

  /** The event `k` arrives at a client that has got the events before it. */
  predicate EventArrives(items: seq<Item>, k: nat)
    requires k < |items|
  {
    Arrives(Meaning(START, Events(items[..k])), ItemEvent(items[k]))
  }

  lemma NextPrefix(items: seq<Item>, k: nat)
    requires k < |items| && PrefixArrives(items, k)
    ensures PrefixArrives(items, k + 1) <==> EventArrives(items, k)
  {
    hide Interpret, Stream, Meaning, Arrives, EventLines, OnlyReceivable, After;
    var before, i := items[..k], items[k];
    assert items[..k + 1] == before + [i];
    assert Events(before + [i]) == Events(before) + [ItemEvent(i)];
    InterpretSnoc(before, i);
    MeaningSnoc(START, Events(before), ItemEvent(i));
    MeantIsIdle(Events(before));
    ClientsReceive(Stream(before));
    ArrivesIff(Meaning(START, Events(before)), ItemEvent(i));
  }

  lemma {:induction false} PrefixesArrive(items: seq<Item>, k: nat)
    requires k <= |items| && forall j: nat :: j < |items| ==> EventArrives(items, j)
    ensures PrefixArrives(items, k)
    decreases k
  {
    if k == 0 {
      assert items[..0] == [] && Stream([]) == [] && Events([]) == [];
      NoText();
      assert ProcessLines(START, []) == START;
    } else {
      PrefixesArrive(items, k - 1);
      hide PrefixArrives, EventArrives;
      NextPrefix(items, k - 1);
    }
  }

  /**
   * For every list of items: the stream arrives as it was meant at every moment between two
   * events exactly when each event arrives: clean if it has data, quiet if it has none.
   */
  lemma EveryPrefixArrivesIff(items: seq<Item>)
    ensures (forall k: nat :: k <= |items| ==> PrefixArrives(items, k))
            <==> (forall k: nat :: k < |items| ==> EventArrives(items, k))
  {
    if forall k: nat :: k <= |items| ==> PrefixArrives(items, k) {
      forall k: nat | k < |items| ensures EventArrives(items, k) {
        assert PrefixArrives(items, k) && PrefixArrives(items, k + 1);
        NextPrefix(items, k);
      }
    }
    if forall k: nat :: k < |items| ==> EventArrives(items, k) {
      forall k: nat | k <= |items| ensures PrefixArrives(items, k) {
        PrefixesArrive(items, k);
      }
    }
  }

  /** A type of two lines is printed as two lines. */
  lemma TypeLines(x: string, l: string)
    requires OneLine(x) && OneLine(l)
    ensures EventLines(Event(None, Some(x + "\n" + l), None, None)) == [FieldLine("event", x), l, ""]
  {
    var e, ls := Event(None, Some(x + "\n" + l), None, None), [FieldLine("event", x), l, ""];
    var field := FieldLine("event", x + "\n" + l);
    assert Parts(e) == [field];
    JoinEnds([field]);
    TerminatedSnoc([field]);
    assert [field][1..] == [] && Terminated([field]) == field + "\n" + [];
    assert field == FieldLine("event", x) + "\n" + l;
    assert ls[1..] == [l, ""] && [l, ""][1..] == [""] && [""][1..] == [];
    assert Terminated([""]) == "" + "\n" + [] && Terminated([l, ""]) == l + "\n" + Terminated([""]);
    assert Terminated(ls) == Format(e);
    assert OneLine(FieldLine("event", x)) && OneLine("");
    hide LinesFrom, Terminated, OneLine, Format, FieldLine;
    LinesOfTerminated(ls, []);
    NoText();
    assert Terminated(ls) + [] == Terminated(ls) && ls + [] == ls;
  }

  /** An event without data whose type goes on with a data line dispatches an event all the same. */
  lemma HiddenDataArrives(c: Client, x: string)
    requires OneLine(x)
    ensures !Quiet(c, Event(None, Some(x + "\n" + "data"), None, None))
  {
    TypeLines(x, "data");
    var line := "data";
    FindFirst(line, ":", 0, |line|);
    forall i | 0 <= i < |line| ensures !At(line, i, ":") {
      assert line[i] != ':' && line[i..i + 1][0] == line[i];
    }
    assert IsData(line);
    assert [FieldLine("event", x), "data", ""][1] == "data";
  }
}
