/**
 Server-sent events: the web channel prints frames (src/wolfpaw/channels/web.py) and the
 browser client parses them back from whatever chunks the network delivers
 (web/src/chat/sseClient.ts). Text is modelled as characters, after UTF-8 decoding.
 */
module Sse {
  import opened Prelude

  datatype SseEvent = SseEvent(event: string, data: string)

  // ---- lines ----

  /** `s.split("\n")`. */
  function Split(s: string): (lines: seq<string>)
    ensures lines != []
  {
    if s == "" then [""]
    else
      var lines := Split(s[1..]);
      if s[0] == '\n' then [""] + lines else [[s[0]] + lines[0]] + lines[1..]
  }

  /** `"\n".join(lines)`. */
  function JoinLines(lines: seq<string>): string {
    if lines == [] then ""
    else if |lines| == 1 then lines[0]
    else lines[0] + "\n" + JoinLines(lines[1..])
  }

  predicate OneLine(s: string) {
    '\n' !in s
  }

  lemma {:induction false} SplitLines(s: string)
    ensures forall k :: 0 <= k < |Split(s)| ==> OneLine(Split(s)[k])
    ensures JoinLines(Split(s)) == s
  {
    if s != "" {
      SplitLines(s[1..]);
      var lines := Split(s[1..]);
      if s[0] == '\n' {
        assert ([""] + lines)[1..] == lines;
        assert JoinLines([""] + lines) == "" + "\n" + JoinLines(lines);
        assert s == "\n" + s[1..];
      } else {
        var first := [s[0]] + lines[0];
        assert ([first] + lines[1..])[1..] == lines[1..];
        assert s == [s[0]] + s[1..];
        JoinHead([s[0]], lines);
      }
    }
  }

  lemma {:induction false} JoinHead(p: string, lines: seq<string>)
    requires lines != []
    ensures JoinLines([p + lines[0]] + lines[1..]) == p + JoinLines(lines)
  {
    var more := [p + lines[0]] + lines[1..];
    assert more[1..] == lines[1..];
    if |lines| > 1 {
      assert p + lines[0] + "\n" + JoinLines(lines[1..]) == p + (lines[0] + "\n" + JoinLines(lines[1..]));
    }
  }

  lemma {:induction false} SplitCons(line: string, rest: string)
    requires OneLine(line)
    ensures Split(line + "\n" + rest) == [line] + Split(rest)
  {
    var s := line + "\n" + rest;
    if line == "" {
      assert s[1..] == rest;
    } else {
      assert s[1..] == line[1..] + "\n" + rest;
      SplitCons(line[1..], rest);
      assert line == [line[0]] + line[1..];
    }
  }

  lemma {:induction false} SplitOne(line: string)
    requires OneLine(line)
    ensures Split(line) == [line]
  {
    if line != "" {
      SplitOne(line[1..]);
      assert line == [line[0]] + line[1..];
    }
  }

  lemma {:induction false} SplitJoin(lines: seq<string>)
    requires lines != [] && forall k :: 0 <= k < |lines| ==> OneLine(lines[k])
    ensures Split(JoinLines(lines)) == lines
  {
    if |lines| == 1 {
      SplitOne(lines[0]);
      assert lines == [lines[0]];
    } else {
      SplitJoin(lines[1..]);
      SplitCons(lines[0], JoinLines(lines[1..]));
      assert lines == [lines[0]] + lines[1..];
    }
  }

  // ---- printing ----

  function DataPrefixed(lines: seq<string>): seq<string> {
    seq(|lines|, i requires 0 <= i < |lines| => "data: " + lines[i])
  }

  function DataParts(data: string): seq<string> {
    if data != "" then Split(data) else [""]
  }

  /** The lines of one printed frame, without the blank line that ends it. */
  function FrameLines(e: SseEvent): seq<string> {
    ["event: " + e.event] + DataPrefixed(DataParts(e.data))
  }

  /** `_sse_event`. */
  function Print(e: SseEvent): string {
    "event: " + e.event + "\n" + JoinLines(DataPrefixed(DataParts(e.data))) + "\n\n"
  }

  function PrintAll(es: seq<SseEvent>): string {
    if es == [] then "" else Print(es[0]) + PrintAll(es[1..])
  }

  // ---- trimming ----

  /** White space and line terminators of ECMAScript's `trim`. */
  predicate Space(c: char) {
    c == '\t' || c == '\n' || c == '\U{000B}' || c == '\U{000C}' || c == '\r' || c == ' ' || c == '\U{00A0}' ||
    c == '\U{1680}' || '\U{2000}' <= c <= '\U{200A}' || c == '\U{2028}' || c == '\U{2029}' || c == '\U{202F}' ||
    c == '\U{205F}' || c == '\U{3000}' || c == '\U{FEFF}'
  }

  function TrimEnd(s: string): string {
    if s != "" && Space(s[|s| - 1]) then TrimEnd(s[..|s| - 1]) else s
  }

  function Trim(s: string): string {
    if s != "" && Space(s[0]) then Trim(s[1..]) else TrimEnd(s)
  }

  predicate Trimmed(s: string) {
    s == "" || (!Space(s[0]) && !Space(s[|s| - 1]))
  }

  lemma {:induction false} TrimEndShape(s: string)
    ensures TrimEnd(s) <= s && (TrimEnd(s) != "" ==> !Space(TrimEnd(s)[|TrimEnd(s)| - 1]))
  {
    if s != "" && Space(s[|s| - 1]) { TrimEndShape(s[..|s| - 1]); }
  }

  lemma {:induction false} TrimShape(s: string)
    ensures Trimmed(Trim(s)) && (OneLine(s) ==> OneLine(Trim(s)))
    ensures Trimmed(s) ==> Trim(s) == s
  {
    if s != "" && Space(s[0]) {
      TrimShape(s[1..]);
    } else {
      TrimEndShape(s);
    }
  }

  // ---- parsing ----

  predicate IsData(line: string) {
    "data: " <= line || line == "data:"
  }

  function DataOf(line: string): string
    requires IsData(line)
  {
    if "data: " <= line then line[6..] else ""
  }

  /** The name in the last `event: ` line, or "message". */
  function EventName(lines: seq<string>): string {
    if lines == [] then "message"
    else
      var last := lines[|lines| - 1];
      if "event: " <= last then Trim(last[7..]) else EventName(lines[..|lines| - 1])
  }

  /** The contents of the data lines, in order. */
  function DataLines(lines: seq<string>): seq<string> {
    if lines == [] then []
    else
      var last := lines[|lines| - 1];
      DataLines(lines[..|lines| - 1]) + if IsData(last) then [DataOf(last)] else []
  }

  function Frame(frame: string): Option<SseEvent> {
    var lines := Split(frame);
    if DataLines(lines) == [] then None
    else Some(SseEvent(EventName(lines), JoinLines(DataLines(lines))))
  }

  method ParseFrame(frame: string) returns (ev: Option<SseEvent>)
    ensures ev == Frame(frame)
  {
    var event := "message";
    var dataLines: seq<string> := [];
    var lines := Split(frame);
    for k := 0 to |lines|
      invariant event == EventName(lines[..k]) && dataLines == DataLines(lines[..k])
    {
      assert lines[..k + 1][..k] == lines[..k];
      var line := lines[k];
      if "event: " <= line {
        event := Trim(line[7..]);
        NotBoth(line);
      } else if "data: " <= line {
        dataLines := dataLines + [line[6..]];
      } else if line == "data:" {
        dataLines := dataLines + [""];
      }
    }
    assert lines[..|lines|] == lines;
    if |dataLines| == 0 {
      return None;
    }
    return Some(SseEvent(event, JoinLines(dataLines)));
  }

  lemma NotBoth(line: string)
    requires "event: " <= line
    ensures !IsData(line)
  {
    assert line[0] == 'e';
  }

  // ---- the stream ----

  /** `s.indexOf("\n\n")`. */
  function BlankLine(s: string): (r: Option<nat>)
    ensures r.Some? ==> r.value + 2 <= |s|
  {
    if |s| < 2 then None
    else if s[0] == '\n' && s[1] == '\n' then Some(0)
    else match BlankLine(s[1..])
      case None => None
      case Some(n) => Some(n + 1)
  }

  datatype Drained = Drained(events: seq<SseEvent>, rest: string)

  function Emit(ev: Option<SseEvent>): seq<SseEvent> {
    match ev
    case None => []
    case Some(e) => [e]
  }

  /** All complete frames of a buffer, and what is left of it. */
  function Drain(buf: string): Drained
    decreases |buf|
  {
    match BlankLine(buf)
    case None => Drained([], buf)
    case Some(sep) =>
      var d := Drain(buf[sep + 2..]);
      Drained(Emit(Frame(buf[..sep])) + d.events, d.rest)
  }

  /** What a whole stream delivers: its complete frames, then a trailing one without the blank line. */
  function Received(stream: string): seq<SseEvent> {
    var d := Drain(stream);
    d.events + if Trim(d.rest) != "" then Emit(Frame(d.rest)) else []
  }

  function Concat(chunks: seq<string>): string {
    if chunks == [] then "" else Concat(chunks[..|chunks| - 1]) + chunks[|chunks| - 1]
  }

  lemma {:induction false} BlankLineStays(a: string, b: string)
    requires BlankLine(a).Some?
    ensures BlankLine(a + b) == BlankLine(a)
  {
    if !(a[0] == '\n' && a[1] == '\n') {
      assert (a + b)[1..] == a[1..] + b;
      BlankLineStays(a[1..], b);
    }
  }

  function Before(first: seq<SseEvent>, d: Drained): Drained {
    Drained(first + d.events, d.rest)
  }

  lemma {:induction false} DrainStep(s: string)
    ensures BlankLine(s).None? ==> Drain(s) == Drained([], s)
    ensures BlankLine(s).Some? ==>
            var sep := BlankLine(s).value; Drain(s) == Before(Emit(Frame(s[..sep])), Drain(s[sep + 2..]))
  {}

  lemma BeforeBefore(a: seq<SseEvent>, b: seq<SseEvent>, d: Drained)
    ensures Before(a, Before(b, d)) == Before(a + b, d) && Before([], d) == d
  {
    assert a + (b + d.events) == a + b + d.events;
    assert [] + d.events == d.events;
  }

  /** Draining early or late makes no difference, wherever the stream is cut. */
  lemma {:induction false} DrainAppend(a: string, b: string)
    ensures Drain(a + b) == Before(Drain(a).events, Drain(Drain(a).rest + b))
    decreases |a|
  {
    hide Drain, Frame;
    DrainStep(a);
    if BlankLine(a).None? {
      BeforeBefore([], [], Drain(a + b));
    } else {
      var sep := BlankLine(a).value;
      var tail := a[sep + 2..];
      BlankLineStays(a, b);
      DrainStep(a + b);
      DrainAppend(tail, b);
      assert (a + b)[sep + 2..] == tail + b;
      assert (a + b)[..sep] == a[..sep];
      BeforeBefore(Emit(Frame(a[..sep])), Drain(tail).events, Drain(Drain(tail).rest + b));
    }
  }

  /** The inner loop: emit complete frames until no blank line is left in the buffer. */
  method DrainBuffer(buf0: string, events0: seq<SseEvent>) returns (buf: string, events: seq<SseEvent>)
    ensures Drained(events, buf) == Before(events0, Drain(buf0))
  {
    hide Drain, Frame;
    buf, events := buf0, events0;
    while true
      invariant Before(events, Drain(buf)) == Before(events0, Drain(buf0))
      decreases |buf|
    {
      var sep := BlankLine(buf);
      DrainStep(buf);
      if sep.None? {
        assert events + [] == events;
        return;
      }
      var frame := buf[..sep.value];
      buf := buf[sep.value + 2..];
      var ev := ParseFrame(frame);
      BeforeBefore(events, Emit(ev), Drain(buf));
      events := Delivered(events, ev);
    }
  }

  /** `if (ev !== null) onEvent(ev)`. */
  function Delivered(events: seq<SseEvent>, ev: Option<SseEvent>): (r: seq<SseEvent>)
    ensures r == events + Emit(ev)
  {
    if ev.Some? then events + [ev.value] else events
  }

  method StreamChat(chunks: seq<string>) returns (events: seq<SseEvent>, leftover: string)
    ensures events == Received(Concat(chunks))
    ensures leftover == Drain(Concat(chunks)).rest
  {
    hide Drain, Frame;
    events := [];
    var buf := "";
    DrainStep("");
    for k := 0 to |chunks|
      invariant Drain(Concat(chunks[..k])) == Drained(events, buf)
    {
      assert chunks[..k + 1][..k] == chunks[..k];
      DrainAppend(Concat(chunks[..k]), chunks[k]);
      buf := buf + chunks[k];
      buf, events := DrainBuffer(buf, events);
    }
    assert chunks[..|chunks|] == chunks;
    leftover := buf;
    if |Trim(buf)| > 0 {
      var ev := ParseFrame(buf);
      events := Delivered(events, ev);
    } else {
      assert events + [] == events;
    }
  }

  // ---- the round trip ----

  /** A name the client gives back unchanged. */
  predicate CleanName(name: string) {
    OneLine(name) && Trimmed(name)
  }

  lemma {:induction false} DataLinesOfPrefixed(lines: seq<string>)
    ensures DataLines(DataPrefixed(lines)) == lines && EventName(DataPrefixed(lines)) == "message"
  {
    if lines != [] {
      var n := |lines| - 1;
      DataLinesOfPrefixed(lines[..n]);
      var all := DataPrefixed(lines);
      assert all[..n] == DataPrefixed(lines[..n]);
      DataLine(lines[n]);
      assert lines == lines[..n] + [lines[n]];
    }
  }

  lemma DataLine(s: string)
    ensures IsData("data: " + s) && DataOf("data: " + s) == s && !("event: " <= "data: " + s)
  {
    var line := "data: " + s;
    assert line[..6] == "data: ";
    if "event: " <= line { NotBoth(line); }
  }

  lemma {:induction false} HeadLine(name: string, lines: seq<string>)
    ensures var all := ["event: " + name] + DataPrefixed(lines);
            DataLines(all) == lines && EventName(all) == Trim(name)
  {
    var all := ["event: " + name] + DataPrefixed(lines);
    if lines == [] {
      var head := "event: " + name;
      assert all == [head] && all[..0] == [];
      assert head[..7] == "event: " && head[7..] == name;
      NotBoth(head);
    } else {
      var n := |lines| - 1;
      HeadLine(name, lines[..n]);
      assert all[..n + 1] == ["event: " + name] + DataPrefixed(lines[..n]);
      assert all[|all| - 1] == "data: " + lines[n];
      DataLine(lines[n]);
      assert lines == lines[..n] + [lines[n]];
    }
  }

  /** A printed frame is parsed back to its data and its trimmed name. */
  lemma FrameOfPrinted(e: SseEvent)
    requires OneLine(e.event)
    ensures Print(e) == JoinLines(FrameLines(e)) + "\n\n"
    ensures Frame(JoinLines(FrameLines(e))) == Some(SseEvent(Trim(e.event), e.data))
    ensures FrameLines(e) != [] && forall k :: 0 <= k < |FrameLines(e)| ==> OneLine(FrameLines(e)[k]) && FrameLines(e)[k] != ""
  {
    var parts := DataParts(e.data);
    SplitLines(e.data);
    var lines := FrameLines(e);
    assert lines[1..] == DataPrefixed(parts);
    forall k | 0 <= k < |lines| ensures OneLine(lines[k]) && lines[k] != "" {
      if k > 0 { assert lines[k] == "data: " + parts[k - 1]; }
    }
    SplitJoin(lines);
    HeadLine(e.event, parts);
    assert JoinLines([""]) == "";
  }

  /** Nonempty lines hold no blank line, so a frame ends exactly where its own lines end. */
  lemma {:induction false} BlankAfter(lines: seq<string>, rest: string)
    requires lines != [] && forall k :: 0 <= k < |lines| ==> OneLine(lines[k]) && lines[k] != ""
    ensures BlankLine(JoinLines(lines) + "\n\n" + rest) == Some(|JoinLines(lines)|)
  {
    if |lines| == 1 {
      BlankAfterLine(lines[0], "\n" + rest);
      assert lines[0] + "\n\n" + rest == lines[0] + ("\n" + ("\n" + rest));
    } else {
      BlankAfter(lines[1..], rest);
      var tail := JoinLines(lines[1..]) + "\n\n" + rest;
      assert tail[0] == lines[1][0] && tail[0] != '\n';
      BlankAfterLine(lines[0], tail);
      assert JoinLines(lines) + "\n\n" + rest == lines[0] + ("\n" + tail);
    }
  }

  lemma {:induction false} BlankAfterLine(line: string, tail: string)
    requires OneLine(line) && tail != ""
    ensures BlankLine(line + ("\n" + tail)) ==
            if tail[0] == '\n' then Some(|line|)
            else match BlankLine(tail) case None => None case Some(n) => Some(|line| + 1 + n)
  {
    var s := line + ("\n" + tail);
    if line == "" {
      assert s[1..] == tail;
    } else {
      assert s[1..] == line[1..] + ("\n" + tail);
      BlankAfterLine(line[1..], tail);
    }
  }

  lemma {:induction false} NameIsClean(name: string)
    ensures CleanName(name) ==> OneLine(name) && Trim(name) == name
  {
    TrimShape(name);
  }

  lemma {:induction false} PrintedDrains(es: seq<SseEvent>)
    requires forall e :: e in es ==> CleanName(e.event)
    ensures Drain(PrintAll(es)) == Drained(es, "")
  {
    hide Drain, Frame, FrameLines, JoinLines, CleanName, Print;
    if es == [] {
      DrainStep("");
    } else {
      var e := es[0];
      PrintedDrains(es[1..]);
      NameIsClean(e.event);
      FrameOfPrinted(e);
      var frame, rest := JoinLines(FrameLines(e)), PrintAll(es[1..]);
      BlankAfter(FrameLines(e), rest);
      var s := frame + "\n\n" + rest;
      assert s[..|frame|] == frame && s[|frame| + 2..] == rest;
      DrainStep(s);
      assert es == [e] + es[1..];
    }
  }

  lemma {:induction false} EventNameClean(lines: seq<string>)
    requires forall k :: 0 <= k < |lines| ==> OneLine(lines[k])
    ensures CleanName(EventName(lines))
  {
    if lines != [] {
      var last := lines[|lines| - 1];
      if "event: " <= last { TrimShape(last[7..]); } else { EventNameClean(lines[..|lines| - 1]); }
    }
  }

  lemma FrameNameClean(frame: string)
    requires Frame(frame).Some?
    ensures CleanName(Frame(frame).value.event)
  {
    SplitLines(frame);
    EventNameClean(Split(frame));
  }

  lemma {:induction false} DrainedNamesClean(buf: string)
    ensures forall e :: e in Drain(buf).events ==> CleanName(e.event)
    decreases |buf|
  {
    if BlankLine(buf).Some? {
      var sep := BlankLine(buf).value;
      DrainedNamesClean(buf[sep + 2..]);
      if Frame(buf[..sep]).Some? { FrameNameClean(buf[..sep]); }
    }
  }

  /**
   Whatever the data, and however the network cuts the stream (`StreamChat` delivers
   `Received` of the whole), the client receives exactly the printed events if and only if
   every event name is one line without outer white space.
   */
  lemma {:induction false} RoundTrip(es: seq<SseEvent>)
    ensures Received(PrintAll(es)) == es <==> forall e :: e in es ==> CleanName(e.event)
  {
    var s := PrintAll(es);
    if forall e :: e in es ==> CleanName(e.event) {
      PrintedDrains(es);
    }
    DrainedNamesClean(s);
    var rest := Drain(s).rest;
    if Frame(rest).Some? { FrameNameClean(rest); }
  }
}
