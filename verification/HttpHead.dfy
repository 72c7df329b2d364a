/**
 * The request-head parser and the response-header injector. Byte strings are modelled
 * by strings, one character for each byte (Latin-1).
 */
module HttpHead {
  import opened Text

  const CRLF := "\r\n"
  const BLANK := "\r\n\r\n"

  type Header = (string, string)

  // ----- Line breaks, blank lines and single characters -----

  predicate BreakAt(s: string, i: int) {
    0 <= i && i + 1 < |s| && s[i] == '\r' && s[i + 1] == '\n'
  }

  predicate BlankAt(s: string, i: int) {
    BreakAt(s, i) && BreakAt(s, i + 2)
  }

  predicate BreakFree(s: string) {
    forall i :: 0 <= i < |s| ==> !BreakAt(s, i)
  }

  lemma AtIsBreak(s: string, i: int)
    ensures At(s, i, CRLF) <==> BreakAt(s, i)
    ensures At(s, i, BLANK) <==> BlankAt(s, i)
  {
    if 0 <= i && i + 4 <= |s| {
      var t := s[i..i + 4];
      assert t[0] == s[i] && t[1] == s[i + 1] && t[2] == s[i + 2] && t[3] == s[i + 3];
      assert t == BLANK <==> BlankAt(s, i);
    }
    if 0 <= i && i + 2 <= |s| {
      var t := s[i..i + 2];
      assert t[0] == s[i] && t[1] == s[i + 1];
      assert t == CRLF <==> BreakAt(s, i);
    }
  }

  /** Text in front moves the line breaks. */
  lemma BreakShift(a: string, t: string, i: int)
    requires 0 <= i
    ensures BreakAt(a + t, |a| + i) <==> BreakAt(t, i)
    ensures BlankAt(a + t, |a| + i) <==> BlankAt(t, i)
  {
    var s := a + t;
    assert forall k :: |a| <= k < |s| ==> s[k] == t[k - |a|];
  }

  lemma BreakFreeSlice(s: string, lo: nat, hi: nat)
    requires lo <= hi <= |s| && forall i :: lo <= i && i + 2 <= hi ==> !BreakAt(s, i)
    ensures BreakFree(s[lo..hi])
  {
    var t := s[lo..hi];
    forall i | 0 <= i < |t|
      ensures !BreakAt(t, i)
    {
      assert i + 1 < |t| ==> t[i] == s[lo + i] && t[i + 1] == s[lo + i + 1] && !BreakAt(s, lo + i);
    }
  }

  lemma CutAtBreak(s: string, lo: nat, k: nat, hi: nat)
    requires lo <= k && k + 2 <= hi <= |s| && BreakAt(s, k)
    ensures s[lo..hi] == s[lo..k] + CRLF + s[k + 2..hi]
  {
    assert s[k..k + 2] == CRLF;
    hide BreakAt;
    assert s[lo..hi] == s[lo..k] + s[k..k + 2] + s[k + 2..hi];
  }

  lemma AtIsChar(s: string, i: int, c: char)
    ensures At(s, i, [c]) <==> 0 <= i < |s| && s[i] == c
  {
    if 0 <= i < |s| {
      assert s[i..i + 1] == [s[i]];
    }
  }

  /** The search for a line break, in terms of characters. */
  lemma FindBreak(s: string, lo: nat, hi: nat)
    requires hi <= |s|
    ensures var k := Find(s, CRLF, lo, hi);
            && (k >= 0 ==> lo <= k && k + 2 <= hi && BreakAt(s, k))
            && forall i :: lo <= i && i + 2 <= hi && (k < 0 || i < k) ==> !BreakAt(s, i)
  {
    FindFirst(s, CRLF, lo, hi);
    hide Find;
    forall i ensures At(s, i, CRLF) <==> BreakAt(s, i) { AtIsBreak(s, i); }
    hide At;
    hide BreakAt;
  }

  lemma FindBlank(s: string, lo: nat)
    ensures var k := Find(s, BLANK, lo, |s|);
            && (k >= 0 ==> lo <= k && k + 4 <= |s| && BlankAt(s, k))
            && forall i :: lo <= i && (k < 0 || i < k) ==> !BlankAt(s, i)
  {
    FindFirst(s, BLANK, lo, |s|);
    hide Find;
    forall i ensures At(s, i, BLANK) <==> BlankAt(s, i) { AtIsBreak(s, i); }
    hide At;
  }

  /** The search for a character finds it right behind text that does not contain it. */
  lemma FindChar(a: string, c: char, rest: string)
    requires c !in a
    ensures var s := a + [c] + rest; Find(s, [c], 0, |s|) == |a|
  {
    hide Find;
    var s := a + [c] + rest;
    FindFirst(s, [c], 0, |s|);
    forall i ensures At(s, i, [c]) <==> 0 <= i < |s| && s[i] == c { AtIsChar(s, i, c); }
    hide At;
    forall i | 0 <= i < |a| ensures s[i] != c { assert a[i] in a; }
    assert s[|a|] == c;
  }

  lemma FindNoChar(a: string, c: char)
    requires c !in a
    ensures Find(a, [c], 0, |a|) == -1
  {
    FindFirst(a, [c], 0, |a|);
    hide Find;
    forall i ensures At(a, i, [c]) <==> 0 <= i < |a| && a[i] == c { AtIsChar(a, i, c); }
    hide At;
  }

  /** Behind text without a line break, the first one found is the one that follows. */
  lemma FindFirstBreak(a: string, rest: string, hi: nat)
    requires BreakFree(a) && |a| + 2 <= hi <= |a| + 2 + |rest|
    ensures Find(a + CRLF + rest, CRLF, 0, hi) == |a|
  {
    hide Find;
    var s := a + CRLF + rest;
    FindBreak(s, 0, hi);
    forall i | 0 <= i < |a| ensures !BreakAt(s, i) {
      assert !BreakAt(a, i);
    }
    assert BreakAt(s, |a|);
  }

  // ----- Header lines -----

  /** A line up to its first colon, which must not be its first character. */
  function ParseLine(line: string): seq<Header> {
    var colon := Find(line, ":", 0, |line|);
    if colon > 0 then [(Lower(Strip(line[..colon])), Strip(line[colon + 1..]))] else []
  }

  /** Name and value are what stands around the first colon, trimmed, the name in lower case. */
  lemma HeaderLineRead(name: string, value: string)
    requires ':' !in name
    ensures ParseLine(name + ":" + value) == if name == [] then [] else [(Lower(Strip(name)), Strip(value))]
    ensures ParseLine(name) == []
  {
    hide Find;
    FindNoChar(name, ':');
    FindChar(name, ':', value);
    var line := name + ":" + value;
    assert line[..|name|] == name && line[|name| + 1..] == value;
  }

  /** The headers of a block of lines separated by line breaks. */
  function HeadersOf(block: string): seq<Header>
    decreases |block|
  {
    if block == [] then []
    else
      var k := Find(block, CRLF, 0, |block|);
      if k < 0 then ParseLine(block) else ParseLine(block[..k]) + HeadersOf(block[k + 2..])
  }

  lemma OneLine(line: string)
    requires BreakFree(line)
    ensures HeadersOf(line) == ParseLine(line)
  {
    FindBreak(line, 0, |line|);
    assert line == [] ==> ParseLine(line) == [];
    hide ParseLine;
    hide Find;
  }

  lemma FirstLine(line: string, rest: string)
    requires BreakFree(line)
    ensures HeadersOf(line + CRLF + rest) == ParseLine(line) + HeadersOf(rest)
  {
    hide ParseLine;
    hide Find;
    var s := line + CRLF + rest;
    FindFirstBreak(line, rest, |s|);
    assert s[..|line|] == line && s[|line| + 2..] == rest;
  }

  /** A block is one line, or a line, a line break and a block. */
  lemma SplitFirst(a: string) returns (line: string, rest: string)
    ensures BreakFree(line)
    ensures a == line || (|rest| < |a| && a == line + CRLF + rest)
  {
    FindBreak(a, 0, |a|);
    var k := Find(a, CRLF, 0, |a|);
    hide Find;
    if k < 0 {
      line, rest := a, [];
    } else {
      line, rest := a[..k], a[k + 2..];
      assert forall i :: 0 <= i < k ==> BreakAt(line, i) ==> BreakAt(a, i);
      assert a[k..k + 2] == CRLF;
    }
  }

  /** Blocks joined by a line break have the headers of both. */
  lemma {:induction false} HeadersAppend(a: string, b: string)
    ensures HeadersOf(a + CRLF + b) == HeadersOf(a) + HeadersOf(b)
    decreases |a|
  {
    hide HeadersOf;
    hide ParseLine;
    var line, rest := SplitFirst(a);
    if a == line {
      OneLine(a);
      FirstLine(a, b);
    } else {
      var more := rest + CRLF + b;
      assert a + CRLF + b == line + CRLF + more;
      FirstLine(line, more);
      FirstLine(line, rest);
      HeadersAppend(rest, b);
    }
  }

  /** The index loop of the parser over the header block `data[start..end]`. */
  method ParseHeaders(data: string, start: nat, end: nat) returns (headers: seq<Header>)
    requires start <= end && end + 4 <= |data| && BlankAt(data, end)
    ensures headers == HeadersOf(data[start..end])
  {
    hide *;
    headers := [];
    var pos: nat := start;
    StartRemains(data, start, end);
    while pos < end
      invariant start <= pos <= end + 2
      invariant headers + Remaining(data, pos, end) == HeadersOf(data[start..end])
      decreases end + 2 - pos
    {
      LineEnd(data, pos, end);
      var eol := Find(data, CRLF, pos, end + 1);
      if eol < 0 {
        eol := end;
      }
      ColonInLine(data, pos, eol);
      var colon := Find(data, ":", pos, eol);
      ghost var found, rest := ParseLine(data[pos..eol]), Remaining(data, eol + 2, end);
      assert headers + (found + rest) == headers + found + rest;
      if colon > pos {
        headers := headers + [(Lower(Strip(data[pos..colon])), Strip(data[colon + 1..eol]))];
      } else {
        assert headers + found == headers;
      }
      pos := eol + 2;
    }
    NothingRemains(data, pos, end);
  }

  lemma StartRemains(data: string, start: nat, end: nat)
    requires start <= end <= |data|
    ensures [] + Remaining(data, start, end) == HeadersOf(data[start..end])
  {
  }

  /** The headers still to be read when the loop is at `pos`. */
  function Remaining(data: string, pos: nat, end: nat): seq<Header>
    requires end <= |data|
  {
    if pos <= end then HeadersOf(data[pos..end]) else []
  }

  /** The end of a line and what it contributes, seen from the data and from the block. */
  lemma LineEnd(data: string, pos: nat, end: nat)
    requires pos < end && end + 4 <= |data| && BlankAt(data, end)
    ensures var k := Find(data, CRLF, pos, end + 1);
            var eol := if k < 0 then end else k;
            && pos <= eol <= end
            && Remaining(data, pos, end) == ParseLine(data[pos..eol]) + Remaining(data, eol + 2, end)
  {
    hide Find;
    hide HeadersOf;
    hide ParseLine;
    FindBreak(data, pos, end + 1);
    var k := Find(data, CRLF, pos, end + 1);
    if k < 0 {
      BreakFreeSlice(data, pos, end);
      OneLine(data[pos..end]);
    } else {
      LineThenRest(data, pos, k, end);
    }
  }

  lemma LineThenRest(data: string, pos: nat, k: nat, end: nat)
    requires pos <= k && k + 1 <= end < |data| && BreakAt(data, k) && BreakAt(data, end)
    requires forall i :: pos <= i < k ==> !BreakAt(data, i)
    ensures k + 2 <= end && HeadersOf(data[pos..end]) == ParseLine(data[pos..k]) + HeadersOf(data[k + 2..end])
  {
    hide HeadersOf;
    hide ParseLine;
    assert k + 2 <= end;
    BreakFreeSlice(data, pos, k);
    CutAtBreak(data, pos, k, end);
    FirstLine(data[pos..k], data[k + 2..end]);
  }

  lemma ColonInLine(data: string, pos: nat, eol: nat)
    requires pos <= eol <= |data|
    ensures var colon := Find(data, ":", pos, eol);
            ParseLine(data[pos..eol])
            == if colon > pos then [(Lower(Strip(data[pos..colon])), Strip(data[colon + 1..eol]))] else []
  {
    hide Find;
    hide Strip;
    hide Lower;
    var line := data[pos..eol];
    assert |line| == eol - pos;
    FindSlice(data, ":", pos, eol);
    var k := Find(line, ":", 0, |line|);
    if k > 0 {
      SliceEnds(data, pos, eol, k);
      SliceEnds(data, pos, eol, k + 1);
      assert ParseLine(line) == [(Lower(Strip(line[..k])), Strip(line[k + 1..]))];
    } else {
      assert ParseLine(line) == [];
    }
  }

  lemma NothingRemains(data: string, pos: nat, end: nat)
    requires end <= pos && end <= |data|
    ensures Remaining(data, pos, end) == []
  {
  }

  // ----- The request head -----

  predicate IsMethod(s: string) {
    s in {"GET", "POST", "PUT", "DELETE", "PATCH", "HEAD", "OPTIONS", "TRACE", "CONNECT"}
  }

  /** The bytes in which the end of the request line is looked for. */
  const WINDOW: nat := 4096

  /** What the parser leaves in the context variables. */
  datatype Request = Request(verb: string, path: string, query: string, headers: seq<Header>, body: string)

  function Min(a: nat, b: nat): (m: nat)
    ensures m <= a && m <= b
  {
    if a < b then a else b
  }

  /** The length of the request line, -1 when there is no line break in the window. */
  function LineLength(data: string): (nl: int)
    ensures nl < 0 || nl + 2 <= |data|
  {
    Find(data, CRLF, 0, Min(|data|, WINDOW))
  }

  /** A chunk starts a request when its first line starts with a known method and a space. */
  predicate StartsRequest(data: string) {
    LineLength(data) > 0
    && var line := data[..LineLength(data)];
       Find(line, " ", 0, |line|) > 0 && IsMethod(VerbOf(line))
  }

  /** Between the first space and the second one, or the end of the line. */
  function TargetOf(line: string): string {
    var sp := Find(line, " ", 0, |line|);
    if sp < 0 then []
    else
      var rest := line[sp + 1..];
      var sp1 := Find(rest, " ", 0, |rest|);
      if sp1 < 0 then rest else rest[..sp1]
  }

  function SplitTarget(target: string): (string, string) {
    var q := Find(target, "?", 0, |target|);
    if q >= 0 then (target[..q], target[q + 1..]) else (target, [])
  }

  function VerbOf(line: string): string {
    var sp := Find(line, " ", 0, |line|);
    if sp < 0 then line else line[..sp]
  }

  /** The context after one chunk of data; a chunk that starts no request continues the body. */
  function Receive(data: string, prev: Request): Request {
    if data == [] then prev
    else if !StartsRequest(data) then prev.(body := prev.body + data)
    else
      var nl := LineLength(data);
      var line, target := data[..nl], SplitTarget(TargetOf(data[..nl]));
      var end := Find(data, BLANK, nl, |data|);
      if end < 0 then Request(VerbOf(line), target.0, target.1, [], [])
      else Request(VerbOf(line), target.0, target.1, Remaining(data, nl + 2, end), data[end + 4..])
  }

  method ReceiveChunk(data: string, prev: Request) returns (r: Request)
    ensures r == Receive(data, prev)
  {
    hide *;
    if data == [] {
      ReceiveCases(data, prev);
      return prev;
    }
    var nl := Find(data, CRLF, 0, Min(|data|, WINDOW));
    var isNew, sp := false, -1;
    if nl > 0 {
      sp := Find(data, " ", 0, nl);
      isNew := sp > 0 && IsMethod(data[..sp]);
    }
    NewIsStart(data);
    ReceiveCases(data, prev);
    if !isNew {
      return prev.(body := prev.body + data);
    }
    TargetBounds(data, nl, sp);
    var sp1 := Find(data, " ", sp + 1, nl);
    var target := data[sp + 1..if sp1 > 0 then sp1 else nl];
    var parts := SplitTarget(target);
    FindBlank(data, nl);
    var end := Find(data, BLANK, nl, |data|);
    if end > 0 {
      var headers := [];
      if nl + 2 <= end {
        headers := ParseHeaders(data, nl + 2, end);
        StartRemains(data, nl + 2, end);
      } else {
        NothingRemains(data, nl + 2, end);
      }
      return Request(data[..sp], parts.0, parts.1, headers, data[end + 4..]);
    }
    return Request(data[..sp], parts.0, parts.1, [], []);
  }

  /** The nested tests of the source, as one condition on the first line. */
  lemma NewIsStart(data: string)
    ensures var nl := Find(data, CRLF, 0, Min(|data|, WINDOW));
            && nl == LineLength(data)
            && (StartsRequest(data) <==>
                  nl > 0 && Find(data, " ", 0, nl) > 0 && IsMethod(data[..Find(data, " ", 0, nl)]))
  {
    hide Find;
    hide IsMethod;
    var nl := LineLength(data);
    if nl > 0 {
      var line := data[..nl];
      FindSlice(data, " ", 0, nl);
      assert data[0..nl] == line;
      var sp := Find(data, " ", 0, nl);
      assert sp > 0 ==> line[..sp] == data[..sp];
    }
  }

  lemma ReceiveCases(data: string, prev: Request)
    ensures data == [] ==> Receive(data, prev) == prev
    ensures data != [] && !StartsRequest(data) ==> Receive(data, prev) == prev.(body := prev.body + data)
    ensures data != [] && StartsRequest(data) ==>
              var nl, end := LineLength(data), Find(data, BLANK, LineLength(data), |data|);
              var line := data[..nl];
              var target := SplitTarget(TargetOf(line));
              Receive(data, prev) ==
                if end < 0 then Request(VerbOf(line), target.0, target.1, [], [])
                else Request(VerbOf(line), target.0, target.1, Remaining(data, nl + 2, end), data[end + 4..])
  {
    hide Find;
    hide VerbOf;
    hide SplitTarget;
    hide TargetOf;
    hide IsMethod;
    hide Remaining;
  }

  lemma TargetBounds(data: string, nl: nat, sp: nat)
    requires nl <= |data| && sp == Find(data, " ", 0, nl)
    ensures var sp1 := Find(data, " ", sp + 1, nl);
            data[sp + 1..if sp1 > 0 then sp1 else nl] == TargetOf(data[..nl]) && data[..sp] == VerbOf(data[..nl])
  {
    hide Find;
    var line := data[..nl];
    assert data[0..nl] == line;
    FindSlice(data, " ", 0, nl);
    FindSlice(data, " ", sp + 1, nl);
    assert line[sp + 1..] == data[sp + 1..nl] && line[..sp] == data[..sp];
    var sp1 := Find(data, " ", sp + 1, nl);
    if sp1 > 0 {
      assert data[sp + 1..nl][..sp1 - (sp + 1)] == data[sp + 1..sp1];
    }
  }

  /** The text begins with this word and a space. */
  predicate Begins(data: string, word: string) {
    |word| < |data| && word <= data && data[|word|] == ' '
  }

  /**
   * A chunk starts a request exactly when it begins with one of the nine methods and a
   * space, and a line break ends within its first 4096 bytes.
   */
  lemma StartsRequestIff(data: string)
    ensures StartsRequest(data) <==>
              && (|| Begins(data, "GET") || Begins(data, "POST") || Begins(data, "PUT") || Begins(data, "DELETE")
                  || Begins(data, "PATCH") || Begins(data, "HEAD") || Begins(data, "OPTIONS") || Begins(data, "TRACE")
                  || Begins(data, "CONNECT"))
              && exists i :: 0 <= i && i + 2 <= 4096 && BreakAt(data, i)
  {
    BeginsIff(data);
    LineInWindow(data);
    hide *;
    NewIsStart(data);
    var nl := LineLength(data);
    if nl >= 0 {
      FirstWord(data, nl);
    }
  }

  lemma BeginsIff(data: string)
    ensures (exists v :: IsMethod(v) && Begins(data, v)) <==>
              (|| Begins(data, "GET") || Begins(data, "POST") || Begins(data, "PUT") || Begins(data, "DELETE")
               || Begins(data, "PATCH") || Begins(data, "HEAD") || Begins(data, "OPTIONS") || Begins(data, "TRACE")
               || Begins(data, "CONNECT"))
  {
    hide Begins;
    assert IsMethod("GET") && IsMethod("POST") && IsMethod("PUT") && IsMethod("DELETE") && IsMethod("PATCH");
    assert IsMethod("HEAD") && IsMethod("OPTIONS") && IsMethod("TRACE") && IsMethod("CONNECT");
  }

  lemma LineInWindow(data: string)
    ensures var nl := LineLength(data);
            && (nl >= 0 <==> exists i :: 0 <= i && i + 2 <= 4096 && BreakAt(data, i))
            && (nl >= 0 ==> BreakAt(data, nl) && nl == Find(data, CRLF, 0, Min(|data|, WINDOW)))
  {
    FindBreak(data, 0, Min(|data|, WINDOW));
    hide Find;
  }

  lemma MethodChars(v: string)
    requires IsMethod(v)
    ensures v != [] && ' ' !in v && '\r' !in v
  {
  }

  /** The word in front of the first space of the first line. */
  lemma FirstWord(data: string, nl: nat)
    requires BreakAt(data, nl)
    ensures nl > 0 && Find(data, " ", 0, nl) > 0 && IsMethod(data[..Find(data, " ", 0, nl)])
            <==> exists v :: IsMethod(v) && Begins(data, v)
  {
    hide IsMethod;
    FindFirst(data, " ", 0, nl);
    hide Find;
    forall i ensures At(data, i, " ") <==> 0 <= i < |data| && data[i] == ' ' { AtIsChar(data, i, ' '); }
    hide At;
    var sp := Find(data, " ", 0, nl);
    if sp > 0 && IsMethod(data[..sp]) {
      assert Begins(data, data[..sp]);
    }
    if v :| IsMethod(v) && Begins(data, v) {
      MethodChars(v);
      assert forall i :: 0 <= i < |v| ==> data[i] == v[i] && v[i] in v;
      assert nl > |v| && sp == |v| && data[..sp] == v;
    }
  }

  // ----- Printing, after sections 3 and 5 of RFC 9112 -----

  function Line(h: Header): string { h.0 + ": " + h.1 }

  /** Each header on a line of its own, behind what comes before it. */
  function HeaderTail(hs: seq<Header>): string {
    if hs == [] then [] else CRLF + Line(hs[0]) + HeaderTail(hs[1..])
  }

  function RequestLine(r: Request): string {
    r.verb + " " + (r.path + (if r.query == [] then [] else "?" + r.query)) + " HTTP/1.1"
  }

  function Print(r: Request): string {
    RequestLine(r) + HeaderTail(r.headers) + BLANK + r.body
  }

  predicate PrintableHeader(h: Header) {
    && h.0 != [] && Trimmed(h.0) && Trimmed(h.1) && Lower(h.0) == h.0
    && ':' !in h.0 && BreakFree(Line(h))
  }

  predicate Printable(r: Request) {
    && IsMethod(r.verb)
    && ' ' !in r.path && ' ' !in r.query && '?' !in r.path
    && BreakFree(RequestLine(r))
    && forall h <- r.headers :: PrintableHeader(h)
  }

  lemma ParsePrintedLine(h: Header)
    requires PrintableHeader(h)
    ensures ParseLine(Line(h)) == [h]
  {
    hide Find;
    hide Lower;
    var line := Line(h);
    assert line == h.0 + [':'] + ([' '] + h.1);
    FindChar(h.0, ':', [' '] + h.1);
    assert line[..|h.0|] == h.0 && line[|h.0| + 1..] == [' '] + h.1;
    StripPadded(h.0);
    StripPadded(h.1);
    hide Strip;
  }

  /** The lines behind the first line break parse back. */
  lemma {:induction false} ParsePrintedBlock(hs: seq<Header>)
    requires hs != [] && forall h <- hs :: PrintableHeader(h)
    ensures HeaderTail(hs)[..2] == CRLF && HeadersOf(HeaderTail(hs)[2..]) == hs
    decreases |hs|
  {
    hide HeadersOf;
    hide ParseLine;
    var line, tail := Line(hs[0]), HeaderTail(hs[1..]);
    assert hs[0] in hs;
    assert HeaderTail(hs) == CRLF + (line + tail);
    assert HeaderTail(hs)[2..] == line + tail;
    ParsePrintedLine(hs[0]);
    if |hs| > 1 {
      ParsePrintedBlock(hs[1..]);
      assert line + tail == line + CRLF + tail[2..];
      FirstLine(line, tail[2..]);
      assert [hs[0]] + hs[1..] == hs;
    } else {
      assert line + tail == line;
      OneLine(line);
    }
  }

  /** A header line starts with something other than a carriage return and holds no line break. */
  predicate Solid(line: string) {
    line != [] && line[0] != '\r' && BreakFree(line)
  }

  /** No blank line starts inside a line break followed by a header line and another line break. */
  lemma NoBlankInLine(line: string, rest: string, i: nat)
    requires Solid(line) && i < 2 + |line| && BreakAt(rest, 0)
    ensures !BlankAt(CRLF + line + rest, i)
  {
    var s := CRLF + line + rest;
    if i == 0 {
      assert s[2] == line[0];
    } else if 2 <= i {
      assert s[i] == line[i - 2];
      assert !BreakAt(line, i - 2);
      assert i + 1 < 2 + |line| ==> s[i + 1] == line[i - 1];
      assert i + 1 == 2 + |line| ==> s[i + 1] == rest[0];
    }
  }

  /** Behind any number of header lines, the first blank line is the one that ends them. */
  lemma {:induction false} FirstBlank(hs: seq<Header>, body: string, i: nat)
    requires (forall h <- hs :: Solid(Line(h))) && i <= |HeaderTail(hs)|
    ensures var s := HeaderTail(hs) + BLANK + body;
            BreakAt(s, 0) && (BlankAt(s, i) <==> i == |HeaderTail(hs)|)
    decreases |hs|
  {
    var s := HeaderTail(hs) + BLANK + body;
    if hs != [] {
      var line, tail := Line(hs[0]), HeaderTail(hs[1..]) + BLANK + body;
      assert hs[0] in hs;
      assert s == CRLF + line + tail;
      var n := 2 + |line|;
      if i < n {
        FirstBlank(hs[1..], body, 0);
        NoBlankInLine(line, tail, i);
      } else {
        FirstBlank(hs[1..], body, i - n);
        BreakShift(CRLF + line, tail, i - n);
      }
    }
  }

  lemma PrintableIsSolid(h: Header)
    requires PrintableHeader(h)
    ensures Solid(Line(h))
  {
    assert Line(h)[0] == h.0[0];
  }

  lemma ReadLine(r: Request)
    requires Printable(r)
    ensures var line := RequestLine(r);
            && Find(line, " ", 0, |line|) == |r.verb| && VerbOf(line) == r.verb
            && SplitTarget(TargetOf(line)) == (r.path, r.query)
  {
    var target := r.path + (if r.query == [] then [] else "?" + r.query);
    assert ' ' !in r.verb && ' ' !in target && '?' !in r.path;
    assert RequestLine(r) == r.verb + [' '] + (target + [' '] + "HTTP/1.1");
    hide *;
    ReadTarget(r);
    ReadWords(r.verb, target, "HTTP/1.1");
  }

  lemma ReadWords(verb: string, target: string, version: string)
    requires ' ' !in verb && ' ' !in target
    ensures var line := verb + [' '] + (target + [' '] + version);
            Find(line, " ", 0, |line|) == |verb| && VerbOf(line) == verb && TargetOf(line) == target
  {
    hide Find;
    var rest := target + [' '] + version;
    FindChar(verb, ' ', rest);
    SplitAt(verb, ' ', rest);
    FindChar(target, ' ', version);
    SplitAt(target, ' ', version);
  }

  lemma SplitAt(a: string, c: char, b: string)
    ensures (a + [c] + b)[..|a|] == a && (a + [c] + b)[|a| + 1..] == b
  {
  }

  lemma ReadTarget(r: Request)
    requires '?' !in r.path
    ensures SplitTarget(r.path + (if r.query == [] then [] else "?" + r.query)) == (r.path, r.query)
  {
    hide Find;
    var target := r.path + (if r.query == [] then [] else "?" + r.query);
    if r.query == [] {
      assert target == r.path;
      FindNoChar(r.path, '?');
    } else {
      assert target == r.path + ['?'] + r.query;
      FindChar(r.path, '?', r.query);
      assert target[..|r.path|] == r.path && target[|r.path| + 1..] == r.query;
    }
  }

  lemma PrintedLine(r: Request)
    requires Printable(r) && |RequestLine(r)| + 2 <= WINDOW
    ensures LineLength(Print(r)) == |RequestLine(r)| && Print(r)[..|RequestLine(r)|] == RequestLine(r)
    ensures StartsRequest(Print(r))
  {
    hide Find;
    var line, rest := RequestLine(r), HeaderTail(r.headers) + BLANK + r.body;
    assert Print(r) == line + rest;
    forall h <- r.headers ensures Solid(Line(h)) { PrintableIsSolid(h); }
    FirstBlank(r.headers, r.body, 0);
    assert rest == CRLF + rest[2..];
    FindFirstBreak(line, rest[2..], Min(|Print(r)|, WINDOW));
    assert Print(r) == line + CRLF + rest[2..];
    assert Print(r)[..|line|] == line;
    ReadLine(r);
    hide IsMethod;
    hide VerbOf;
    hide Print;
    hide RequestLine;
  }

  lemma PrintedRest(r: Request)
    requires Printable(r)
    ensures var data, nl := Print(r), |RequestLine(r)|;
            var end := nl + |HeaderTail(r.headers)|;
            && Find(data, BLANK, nl, |data|) == end && end + 4 <= |data|
            && Remaining(data, nl + 2, end) == r.headers && data[end + 4..] == r.body
  {
    hide Find;
    hide HeadersOf;
    forall h <- r.headers ensures Solid(Line(h)) { PrintableIsSolid(h); }
    FindEnd(r);
    var data, nl, tail := Print(r), |RequestLine(r)|, HeaderTail(r.headers);
    if r.headers != [] {
      ParsePrintedBlock(r.headers);
      assert data[nl + 2..nl + |tail|] == tail[2..];
    }
  }

  /** A request line that does not fit the window with its line break is not seen as one. */
  lemma LongLineStartsNothing(r: Request)
    requires Printable(r) && |RequestLine(r)| + 2 > WINDOW
    ensures !StartsRequest(Print(r)) && |Print(r)| > |r.body|
  {
    var line, rest, data := RequestLine(r), HeaderTail(r.headers) + BLANK + r.body, Print(r);
    hide Find, RequestLine, IsMethod;
    assert data == line + rest;
    forall h <- r.headers ensures Solid(Line(h)) { PrintableIsSolid(h); }
    FirstBlank(r.headers, r.body, 0);
    FindBreak(data, 0, Min(|data|, WINDOW));
    forall i | 0 <= i < |line| ensures !BreakAt(data, i) {
      assert !BreakAt(line, i);
    }
  }

  /**
   * Request-head round trip: parsing the printed request gives back method, path, query,
   * header list and body, whatever request came before, exactly when the request line
   * fits the window. Otherwise the whole request is taken for more of the body before.
   */
  lemma HeadRoundTrip(r: Request, prev: Request)
    requires Printable(r)
    ensures Receive(Print(r), prev) == r <==> |RequestLine(r)| + 2 <= WINDOW
    ensures |RequestLine(r)| + 2 > WINDOW ==> Receive(Print(r), prev) == prev.(body := prev.body + Print(r))
  {
    if |RequestLine(r)| + 2 <= WINDOW {
      hide *;
      PrintedLine(r);
      PrintedRest(r);
      ReadLine(r);
      ReceiveCases(Print(r), prev);
    } else {
      hide *;
      LongLineStartsNothing(r);
      ReceiveCases(Print(r), prev);
    }
  }

  /**
   * A request line, with or without a version behind its target: method, path and query
   * are read from it whatever follows, and without a blank line there is nothing else.
   */
  lemma LineIsRead(verb: string, path: string, query: string, tail: string, rest: string, prev: Request)
    requires IsMethod(verb) && ' ' !in path && ' ' !in query && '?' !in path
    requires tail == [] || tail[0] == ' '
    requires var line := verb + " " + (path + (if query == [] then [] else "?" + query)) + tail;
             BreakFree(line) && |line| + 2 <= 4096
    ensures var line := verb + " " + (path + (if query == [] then [] else "?" + query)) + tail;
            var data := line + "\r\n" + rest;
            var r := Receive(data, prev);
            && r.verb == verb && r.path == path && r.query == query
            && ((forall i :: |line| <= i ==> !BlankAt(data, i)) ==> r.headers == [] && r.body == [])
  {
    hide *;
    var target := path + (if query == [] then [] else "?" + query);
    var line := verb + " " + target + tail;
    MethodChars(verb);
    TargetChars(path, query);
    ReadTarget(Request(verb, path, query, [], []));
    WordsRead(verb, target, tail);
    LineFound(line, rest);
    var data := line + "\r\n" + rest;
    StartsAt(data, line);
    ReceiveCases(data, prev);
    NoBlankFound(data, |line|);
  }

  lemma TargetChars(path: string, query: string)
    requires ' ' !in path && ' ' !in query
    ensures ' ' !in path + (if query == [] then [] else "?" + query)
  {
  }

  lemma LineFound(line: string, rest: string)
    requires BreakFree(line) && |line| + 2 <= 4096
    ensures var data := line + "\r\n" + rest; LineLength(data) == |line| && data[..|line|] == line
  {
    hide Find, BreakFree;
    var data := line + CRLF + rest;
    FindFirstBreak(line, rest, Min(|data|, WINDOW));
  }

  lemma StartsAt(data: string, line: string)
    requires LineLength(data) == |line| > 0 && data[..|line|] == line
    requires Find(line, " ", 0, |line|) > 0 && IsMethod(VerbOf(line))
    ensures StartsRequest(data) && data != []
  {
    hide Find, VerbOf, IsMethod, LineLength;
  }

  lemma NoBlankFound(data: string, n: nat)
    ensures (forall i :: n <= i ==> !BlankAt(data, i)) ==> Find(data, BLANK, n, |data|) < 0
  {
    FindBlank(data, n);
    hide *;
  }

  lemma WordsRead(verb: string, target: string, tail: string)
    requires ' ' !in verb && ' ' !in target && (tail == [] || tail[0] == ' ')
    ensures var line := verb + " " + target + tail;
            Find(line, " ", 0, |line|) == |verb| && VerbOf(line) == verb && TargetOf(line) == target
  {
    hide Find;
    if tail == [] {
      assert verb + " " + target + tail == verb + [' '] + target;
      FindChar(verb, ' ', target);
      SplitAt(verb, ' ', target);
      FindNoChar(target, ' ');
    } else {
      assert verb + " " + target + tail == verb + [' '] + (target + [' '] + tail[1..]);
      hide *;
      ReadWords(verb, target, tail[1..]);
    }
  }

  /** A request for a path that is too long, for every length. */
  lemma LongPathIsLost(n: nat, prev: Request)
    requires n + 15 > WINDOW
    ensures var r := Request("GET", seq(n, i => 'a'), [], [], []);
            && Printable(r) && Receive(Print(r), prev) == prev.(body := prev.body + Print(r))
            && Receive(Print(r), prev) != r
  {
    var path := seq(n, i => 'a');
    var r := Request("GET", path, [], [], []);
    var line := RequestLine(r);
    assert forall i :: 0 <= i < |line| ==> line[i] != '\r';
    assert |line| == n + 13;
    HeadRoundTrip(r, prev);
  }

  lemma FindEnd(r: Request)
    requires forall h <- r.headers :: Solid(Line(h))
    ensures var data := Print(r);
            Find(data, BLANK, |RequestLine(r)|, |data|) == |RequestLine(r)| + |HeaderTail(r.headers)|
  {
    hide Find;
    var data, nl, rest := Print(r), |RequestLine(r)|, HeaderTail(r.headers) + BLANK + r.body;
    assert data == RequestLine(r) + rest;
    var end := nl + |HeaderTail(r.headers)|;
    forall i | nl <= i <= end
      ensures BlankAt(data, i) <==> i == end
    {
      FirstBlank(r.headers, r.body, i - nl);
      BreakShift(RequestLine(r), rest, i - nl);
    }
    FindBlank(data, nl);
    hide BlankAt;
    assert BlankAt(data, end);
  }

  // ----- Bodies that arrive in several chunks -----

  function ReceiveAll(r: Request, chunks: seq<string>): Request
    decreases |chunks|
  {
    if chunks == [] then r else ReceiveAll(Receive(chunks[0], r), chunks[1..])
  }

  function Concat(chunks: seq<string>): string {
    if chunks == [] then [] else chunks[0] + Concat(chunks[1..])
  }

  lemma ReceiveBody(data: string, r: Request)
    ensures |Receive(data, r).body| <= |r.body| + |data|
    ensures data != [] && StartsRequest(data) ==> |Receive(data, r).body| < |data|
    ensures !StartsRequest(data) ==> Receive(data, r) == r.(body := r.body + data)
  {
    hide Receive;
    hide StartsRequest;
    hide LineLength;
    hide Find;
    ReceiveCases(data, r);
    assert r.body + [] == r.body;
  }

  lemma {:induction false} BodyBound(r: Request, chunks: seq<string>)
    ensures |ReceiveAll(r, chunks).body| <= |r.body| + |Concat(chunks)|
    decreases |chunks|
  {
    hide Receive;
    if chunks != [] {
      ReceiveBody(chunks[0], r);
      BodyBound(Receive(chunks[0], r), chunks[1..]);
    }
  }

  /**
   * Chunks that follow a request are its body, all of it and nothing else, exactly when
   * none of them looks like the start of a request.
   */
  lemma {:induction false} BodyIntactIff(r: Request, chunks: seq<string>)
    ensures ReceiveAll(r, chunks) == r.(body := r.body + Concat(chunks))
            <==> forall c <- chunks :: !StartsRequest(c)
    decreases |chunks|
  {
    hide Receive;
    hide StartsRequest;
    if chunks == [] {
      assert r.body + [] == r.body;
    } else {
      var c, rest := chunks[0], chunks[1..];
      ReceiveBody(c, r);
      EmptyStartsNothing();
      assert chunks == [c] + rest;
      if StartsRequest(c) {
        BodyBound(Receive(c, r), rest);
        assert c in chunks;
      } else {
        BodyIntactIff(Receive(c, r), rest);
        assert r.body + c + Concat(rest) == r.body + (c + Concat(rest));
      }
    }
  }

  /** A body chunk that reads like a request line: it replaces the request instead of joining its body. */
  lemma ChunkTakenForRequest(r: Request)
    ensures var chunk := "PUT /" + CRLF;
            StartsRequest(chunk) && ReceiveAll(r, [chunk]) != r.(body := r.body + chunk)
  {
    var line, chunk := "PUT /", "PUT /" + CRLF;
    assert BreakFree(line);
    hide Find;
    assert line + CRLF + [] == chunk && "PUT" + [' '] + "/" == line;
    FindFirstBreak(line, [], |chunk|);
    FindChar("PUT", ' ', "/");
    assert chunk[..|line|] == line && line[..3] == "PUT";
    assert StartsRequest(chunk);
    hide StartsRequest, ReceiveAll, Receive;
    assert chunk in [chunk] && Concat([chunk]) == chunk + Concat([]) == chunk;
    BodyIntactIff(r, [chunk]);
  }

  lemma EmptyStartsNothing()
    ensures !StartsRequest([])
  {
  }

  // ----- Header injection -----

  const CONTENT_LENGTH := "content-length"

  /** The injected headers: all but content-length, in order. */
  function Injected(hs: seq<Header>): seq<Header> {
    if hs == [] then []
    else (if Lower(hs[0].0) == CONTENT_LENGTH then [] else [hs[0]]) + Injected(hs[1..])
  }

  function Inject(resp: string, hs: seq<Header>): string {
    var k := Find(resp, BLANK, 0, |resp|);
    if k < 0 then resp else resp[..k] + HeaderTail(Injected(hs)) + resp[k..]
  }

  lemma {:induction false} HeaderTailAppend(hs: seq<Header>, gs: seq<Header>)
    ensures HeaderTail(hs + gs) == HeaderTail(hs) + HeaderTail(gs)
  {
    if hs == [] {
      assert hs + gs == gs;
    } else {
      assert (hs + gs)[1..] == hs[1..] + gs;
      HeaderTailAppend(hs[1..], gs);
    }
  }

  lemma {:induction false} InjectedAppend(hs: seq<Header>, gs: seq<Header>)
    ensures Injected(hs + gs) == Injected(hs) + Injected(gs)
  {
    hide Lower;
    if hs == [] {
      assert hs + gs == gs;
    } else {
      assert (hs + gs)[1..] == hs[1..] + gs;
      InjectedAppend(hs[1..], gs);
    }
  }

  method InjectHeaders(resp: string, extra: seq<Header>) returns (r: string)
    ensures r == Inject(resp, extra)
  {
    hide Find;
    hide Lower;
    hide HeaderTail;
    var idx := Find(resp, BLANK, 0, |resp|);
    if idx == -1 {
      return resp;
    }
    var parts: string := [];
    TailOfOne(("", ""));
    for i := 0 to |extra|
      invariant parts == HeaderTail(Injected(extra[..i]))
    {
      var (k, v) := extra[i];
      assert extra[..i + 1] == extra[..i] + [extra[i]];
      InjectedAppend(extra[..i], [extra[i]]);
      TailOfOne(extra[i]);
      assert Injected([extra[i]]) == if Lower(k) == CONTENT_LENGTH then [] else [extra[i]];
      HeaderTailAppend(Injected(extra[..i]), Injected([extra[i]]));
      if Lower(k) != CONTENT_LENGTH {
        parts := parts + (CRLF + k + ": " + v);
      } else {
        assert Injected(extra[..i]) + [] == Injected(extra[..i]);
      }
    }
    assert extra[..|extra|] == extra;
    if parts == [] {
      assert resp[..idx] + [] + resp[idx..] == resp;
      return resp;
    }
    return resp[..idx] + parts + resp[idx..];
  }

  /**
   * The injected headers are the given ones at the positions `at`, in increasing order:
   * exactly the positions whose name, in lower case, is not content-length.
   */
  lemma {:induction false} InjectedSelects(hs: seq<Header>) returns (at: seq<nat>)
    ensures |at| == |Injected(hs)|
    ensures forall j :: 0 <= j < |at| ==> at[j] < |hs| && Injected(hs)[j] == hs[at[j]]
    ensures forall i, j :: 0 <= i < j < |at| ==> at[i] < at[j]
    ensures forall i :: 0 <= i < |hs| ==> (i in at <==> Lower(hs[i].0) != "content-length")
  {
    hide Lower;
    if hs == [] {
      return [];
    }
    var n := |hs| - 1;
    var front, last := hs[..n], hs[n];
    at := InjectedSelects(front);
    assert hs == front + [last];
    InjectedAppend(front, [last]);
    InjectedOne(last);
    if Lower(last.0) != "content-length" {
      at := at + [n];
    }
  }

  lemma InjectedOne(h: Header)
    ensures Injected([h]) == if Lower(h.0) == "content-length" then [] else [h]
  {
    hide Lower;
    assert [h][1..] == [];
  }

  /** So each header is injected as often as it is given, or not at all if it is content-length. */
  lemma {:induction false} InjectedCounts(hs: seq<Header>, h: Header)
    ensures h in Injected(hs) <==> h in hs && Lower(h.0) != "content-length"
    ensures multiset(Injected(hs))[h] == if Lower(h.0) == "content-length" then 0 else multiset(hs)[h]
  {
    hide Lower;
    if hs != [] {
      var rest := hs[1..];
      InjectedCounts(rest, h);
      assert hs == [hs[0]] + rest;
      assert multiset(hs) == multiset([hs[0]]) + multiset(rest);
      var own := if Lower(hs[0].0) == "content-length" then [] else [hs[0]];
      assert Injected(hs) == own + Injected(rest);
      assert multiset(Injected(hs)) == multiset(own) + multiset(Injected(rest));
    }
  }

  /** One header goes on a line of its own, in front of the first blank line; content-length goes nowhere. */
  lemma InjectOne(resp: string, h: Header)
    ensures var k := Find(resp, "\r\n\r\n", 0, |resp|);
            Inject(resp, [h]) == if k < 0 || Lower(h.0) == "content-length" then resp
                                 else resp[..k] + "\r\n" + h.0 + ": " + h.1 + resp[k..]
  {
    hide *;
    OneTail(h);
    InjectParts(resp, [h]);
    var k := Find(resp, "\r\n\r\n", 0, |resp|);
    if k >= 0 {
      FiveParts(resp[..k], "\r\n", h.0, ": ", h.1);
    }
  }

  lemma OneTail(h: Header)
    ensures HeaderTail(Injected([h])) == if Lower(h.0) == "content-length" then [] else "\r\n" + h.0 + ": " + h.1
  {
    hide Lower, HeaderTail, Injected;
    InjectedOne(h);
    TailOfOne(h);
  }

  lemma InjectParts(resp: string, hs: seq<Header>)
    ensures var k, tail := Find(resp, "\r\n\r\n", 0, |resp|), HeaderTail(Injected(hs));
            && (k < 0 ==> Inject(resp, hs) == resp)
            && (k >= 0 ==> Inject(resp, hs) == resp[..k] + tail + resp[k..])
            && (k >= 0 && tail == [] ==> Inject(resp, hs) == resp)
  {
    hide Find, HeaderTail, Injected;
    var k, tail := Find(resp, BLANK, 0, |resp|), HeaderTail(Injected(hs));
    if k >= 0 && tail == [] {
      assert resp[..k] + [] + resp[k..] == resp;
    }
  }

  lemma FiveParts(a: string, b: string, c: string, d: string, e: string)
    ensures a + (b + c + d + e) == a + b + c + d + e
  {
  }

  lemma TailOfOne(h: Header)
    ensures HeaderTail([]) == [] && HeaderTail([h]) == CRLF + h.0 + ": " + h.1
  {
    assert [h][1..] == [];
    assert HeaderTail([h]) == CRLF + Line(h) + [];
  }

  /** Names and values without line-break characters; a name may be empty. */
  predicate CleanHeader(h: Header) {
    '\r' !in h.0 && '\n' !in h.0 && '\r' !in h.1 && '\n' !in h.1
  }

  lemma CleanIsSolid(h: Header)
    requires CleanHeader(h)
    ensures Solid(Line(h))
  {
    var l := Line(h);
    forall i | 0 <= i < |l|
      ensures l[i] != '\r'
    {
      assert i < |h.0| ==> l[i] == h.0[i];
      assert i >= |h.0| + 2 ==> l[i] == h.1[i - |h.0| - 2];
    }
  }

  /** What follows the text in front of the first blank line may gain lines: still no earlier blank line. */
  lemma NoEarlierBlank(a: string, b: string, t: string, i: nat)
    requires i < |a| && !BlankAt(a + BLANK + b, i) && BreakAt(t, 0)
    ensures !BlankAt(a + t, i)
  {
    var s, u := a + BLANK + b, a + t;
    assert forall k :: 0 <= k < |a| ==> s[k] == u[k];
    assert s[|a|] == u[|a|] == '\r' && s[|a| + 1] == u[|a| + 1] == '\n';
  }

  /** No blank line starts inside the injected lines. */
  predicate NoBlankIn(tail: string) {
    forall j :: 0 <= j < |tail| ==> !BlankAt(tail + BLANK, j)
  }

  /**
   * The injected response: what stands before and behind the injected headers is unchanged,
   * and the first blank line ends the old head followed by them exactly when no name or
   * value brings a blank line of its own, as none does without line breaks. Without a
   * blank line the response is returned as it is.
   */
  lemma InjectionPreservesMessage(resp: string, hs: seq<Header>)
    ensures var k, r, tail := Find(resp, BLANK, 0, |resp|), Inject(resp, hs), HeaderTail(Injected(hs));
            if k < 0 then r == resp
            else
              && |r| == |resp| + |tail|
              && r[..k] == resp[..k] && r[k..k + |tail|] == tail && r[k + |tail|..] == resp[k..]
              && 0 <= Find(r, BLANK, 0, |r|) <= k + |tail|
              && (Find(r, BLANK, 0, |r|) == k + |tail| <==> NoBlankIn(tail))
              && ((forall h <- hs :: CleanHeader(h)) ==> NoBlankIn(tail))
  {
    var k, r, tail := Find(resp, BLANK, 0, |resp|), Inject(resp, hs), HeaderTail(Injected(hs));
    if k >= 0 {
      InjectedParts(resp, hs);
      hide *;
      var a, b := resp[..k], resp[k + 4..];
      if forall h <- hs :: CleanHeader(h) {
        CleanHasNoBlank(hs);
      }
      TailStartsLine(Injected(hs), b);
      FirstBlankIff(a, b, tail);
      ThreeParts(a, tail, resp[k..]);
    }
  }

  lemma InjectedParts(resp: string, hs: seq<Header>)
    requires Find(resp, BLANK, 0, |resp|) >= 0
    ensures var k, r, tail := Find(resp, BLANK, 0, |resp|), Inject(resp, hs), HeaderTail(Injected(hs));
            && k + 4 <= |resp|
            && r == resp[..k] + tail + resp[k..] && r == resp[..k] + (tail + BLANK + resp[k + 4..])
            && resp == resp[..k] + BLANK + resp[k + 4..] && forall j :: 0 <= j < k ==> !BlankAt(resp, j)
  {
    FindBlank(resp, 0);
    hide Find, HeaderTail, Injected;
    var k, tail := Find(resp, BLANK, 0, |resp|), HeaderTail(Injected(hs));
    BlankCut(resp, k);
    hide BlankAt;
    var a, b := resp[..k], resp[k + 4..];
    assert a + tail + (BLANK + b) == a + (tail + BLANK + b);
  }

  lemma CleanHasNoBlank(hs: seq<Header>)
    requires forall h <- hs :: CleanHeader(h)
    ensures NoBlankIn(HeaderTail(Injected(hs)))
  {
    hide HeaderTail, BlankAt, Injected, CleanHeader;
    InjectedClean(hs);
    var tail := HeaderTail(Injected(hs));
    forall j | 0 <= j < |tail| ensures !BlankAt(tail + BLANK, j) {
      FirstBlank(Injected(hs), [], j);
      assert tail + BLANK + [] == tail + BLANK;
    }
  }

  lemma TailStartsLine(hs: seq<Header>, b: string)
    ensures BreakAt(HeaderTail(hs) + BLANK + b, 0)
  {
    var t := HeaderTail(hs) + BLANK + b;
    assert hs != [] ==> HeaderTail(hs)[0] == '\r' && HeaderTail(hs)[1] == '\n';
    assert t[0] == '\r' && t[1] == '\n';
  }

  /** Lines put in front of the first blank line: it is still the first one if they have none. */
  lemma FirstBlankIff(a: string, b: string, tail: string)
    requires BreakAt(tail + BLANK + b, 0)
    requires forall j :: 0 <= j < |a| ==> !BlankAt(a + BLANK + b, j)
    ensures var r := a + (tail + BLANK + b);
            && 0 <= Find(r, BLANK, 0, |r|) <= |a| + |tail|
            && (Find(r, BLANK, 0, |r|) == |a| + |tail| <==> NoBlankIn(tail))
  {
    hide Find;
    var t := tail + BLANK + b;
    var r := a + t;
    forall i | 0 <= i < |a| ensures !BlankAt(r, i) {
      NoEarlierBlank(a, b, t, i);
    }
    forall j | 0 <= j <= |tail|
      ensures BlankAt(r, |a| + j) <==> BlankAt(tail + BLANK, j)
    {
      BreakShift(a, t, j);
      assert forall i :: 0 <= i < |tail + BLANK| ==> t[i] == (tail + BLANK)[i];
    }
    assert BlankAt(tail + BLANK, |tail|);
    hide BlankAt;
    FindBlank(r, 0);
    if NoBlankIn(tail) {
      forall i | 0 <= i <= |a| + |tail| ensures BlankAt(r, i) <==> i == |a| + |tail| {
        assert i >= |a| ==> (BlankAt(r, |a| + (i - |a|)) <==> BlankAt(tail + BLANK, i - |a|));
      }
      FindOnly(r, |a| + |tail|);
    } else {
      var j :| 0 <= j < |tail| && BlankAt(tail + BLANK, j);
      assert BlankAt(r, |a| + j);
    }
  }

  /** A value with a blank line in it ends the head early, whatever the response. */
  lemma BlankValueEndsHead(resp: string, h: Header, j: nat)
    requires Find(resp, BLANK, 0, |resp|) >= 0 && Lower(h.0) != CONTENT_LENGTH && BlankAt(h.1, j)
    ensures var r := Inject(resp, [h]);
            0 <= Find(r, BLANK, 0, |r|) < Find(resp, BLANK, 0, |resp|) + |CRLF + Line(h)|
  {
    hide Find, Lower;
    InjectionPreservesMessage(resp, [h]);
    assert [h][1..] == [] && Injected([h]) == [h] + Injected([]) == [h];
    var front := CRLF + h.0 + ": ";
    TailOfOne(h);
    var tail := HeaderTail([h]);
    assert tail == front + h.1 && tail == CRLF + Line(h);
    assert tail + BLANK == front + (h.1 + BLANK);
    BreakShift(front, h.1 + BLANK, j);
    assert BlankAt(h.1 + BLANK, j);
    assert BlankAt(tail + BLANK, |front| + j) && |front| + j < |tail|;
  }

  lemma FindOnly(s: string, n: nat)
    requires forall i :: 0 <= i <= n ==> (BlankAt(s, i) <==> i == n)
    ensures Find(s, BLANK, 0, |s|) == n
  {
    FindBlank(s, 0);
    hide *;
    assert BlankAt(s, n);
  }

  lemma BlankCut(s: string, k: nat)
    requires BlankAt(s, k) && k + 4 <= |s|
    ensures s == s[..k] + BLANK + s[k + 4..] && s[k..] == BLANK + s[k + 4..]
  {
    assert s[k..k + 4] == BLANK;
  }

  lemma ThreeParts(a: string, b: string, c: string)
    ensures var s := a + b + c;
            s[..|a|] == a && s[|a|..|a| + |b|] == b && s[|a| + |b|..] == c
  {
  }

  lemma {:induction false} InjectedClean(hs: seq<Header>)
    requires forall h <- hs :: CleanHeader(h)
    ensures forall h <- Injected(hs) :: CleanHeader(h) && Solid(Line(h))
  {
    hide Lower;
    if hs != [] {
      InjectedClean(hs[1..]);
      CleanIsSolid(hs[0]);
    }
  }

  /** How a parser reads an injected header back. */
  function ReadBack(hs: seq<Header>): seq<Header> {
    if hs == [] then [] else ParseLine(Line(hs[0])) + ReadBack(hs[1..])
  }

  /** The same when a line may hold line breaks: it is then read as several. */
  function ReadLines(hs: seq<Header>): seq<Header> {
    if hs == [] then [] else HeadersOf(Line(hs[0])) + ReadLines(hs[1..])
  }

  lemma {:induction false} SolidReadsBack(hs: seq<Header>)
    requires forall h <- hs :: Solid(Line(h))
    ensures ReadLines(hs) == ReadBack(hs)
  {
    hide HeadersOf, ParseLine;
    if hs != [] {
      OneLine(Line(hs[0]));
      SolidReadsBack(hs[1..]);
    }
  }

  lemma {:induction false} TailHeaders(a: string, hs: seq<Header>)
    ensures HeadersOf(a + HeaderTail(hs)) == HeadersOf(a) + ReadLines(hs)
    decreases |hs|
  {
    hide HeadersOf, ParseLine;
    if hs == [] {
      assert a + [] == a;
      assert HeadersOf(a) + [] == HeadersOf(a);
    } else {
      var line := Line(hs[0]);
      HeadersAppend(a, line);
      TailHeaders(a + CRLF + line, hs[1..]);
      JoinThree(a, CRLF + line, HeaderTail(hs[1..]));
      JoinThree(a, CRLF, line);
      var before, own, rest := HeadersOf(a), HeadersOf(line), ReadLines(hs[1..]);
      assert before + own + rest == before + (own + rest);
    }
  }

  /**
   * A reader of the injected response sees the old headers followed by what the injected
   * lines read as, one header each if they have no line breaks, as long as they bring no
   * blank line. `start` is where the header block begins, behind the status line.
   */
  lemma InjectionAppendsHeaders(resp: string, hs: seq<Header>, start: nat)
    requires start <= Find(resp, BLANK, 0, |resp|)
    ensures var k, r := Find(resp, BLANK, 0, |resp|), Inject(resp, hs);
            && (NoBlankIn(HeaderTail(Injected(hs))) ==>
                  && k <= Find(r, BLANK, 0, |r|)
                  && HeadersOf(r[start..Find(r, BLANK, 0, |r|)])
                     == HeadersOf(resp[start..k]) + ReadLines(Injected(hs)))
            && ((forall h <- hs :: CleanHeader(h)) ==>
                  NoBlankIn(HeaderTail(Injected(hs))) && ReadLines(Injected(hs)) == ReadBack(Injected(hs)))
  {
    hide *;
    InjectionPreservesMessage(resp, hs);
    var k, r, tail := Find(resp, BLANK, 0, |resp|), Inject(resp, hs), HeaderTail(Injected(hs));
    if forall h <- hs :: CleanHeader(h) {
      InjectedClean(hs);
      SolidReadsBack(Injected(hs));
    }
    assert r[start..k + |tail|] == resp[start..k] + tail by {
      assert r[..k + |tail|] == resp[..k] + tail;
    }
    TailHeaders(resp[start..k], Injected(hs));
  }
}
