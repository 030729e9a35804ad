/**
 A reader for Telegram's MarkdownV2, after the "MarkdownV2 style" section of the Telegram
 Bot API, and the exact condition under which it reads back what the converter cut.

 The reader knows nothing of the converter: it keeps a stack of open entities, takes a
 backslash before any character with code 1 to 126 as an escape, reads `__` greedily as
 underline, and takes code and fence contents raw.
 */
module MarkdownV2Reader {
  import opened Prelude
  import opened TelegramMarkdown

  datatype Style = Bold | Italic | Underline | Strike | Spoiler | LinkText

  datatype Event =
    | Ch(c: char)
    | Open(style: Style)
    | Close(style: Style)
    | CodeText(body: string)
    | FenceText(body: string)
    | CloseLink(url: string)

  predicate Escapable(c: char) {
    1 <= c as int <= 126
  }

  /** A backslash and the character it escapes stand at the head. */
  predicate Escaped(s: string) {
    |s| >= 2 && s[0] == '\\' && Escapable(s[1])
  }

  datatype Raw = Raw(body: string, rest: string)

  /** Raw contents up to an unescaped `close`, which is made of backticks or is `)`. */
  function RawUntil(s: string, close: string): (r: Option<Raw>)
    requires close != ""
    ensures r.Some? ==> |r.value.rest| < |s|
  {
    if At(s, 0, close) then Some(Raw("", s[|close|..]))
    else if s == "" || s[0] == close[0] then None
    else
      var skip := if Escaped(s) then 2 else 1;
      match RawUntil(s[skip..], close)
      case None => None
      case Some(raw) => Some(Raw([s[skip - 1]] + raw.body, raw.rest))
  }

  /** What stands at the head of a message, before the open entities decide what it does. */
  datatype Lexeme = Letter(c: char) | Block(event: Event) | Marker(style: Style) | LinkStart | LinkEnd(url: string)

  datatype Lexed = Lexed(lexeme: Lexeme, rest: string)

  function Next(s: string): (r: Option<Lexed>)
    requires s != ""
    ensures r.Some? ==> |r.value.rest| < |s|
  {
    if Escaped(s) then Some(Lexed(Letter(s[1]), s[2..]))
    else if !Reserved(s[0]) then Some(Lexed(Letter(s[0]), s[1..]))
    else if FenceAt(s, 0) then
      (match RawUntil(s[3..], "```") case None => None case Some(raw) => Some(Lexed(Block(FenceText(raw.body)), raw.rest)))
    else if s[0] == '`' then
      (match RawUntil(s[1..], "`") case None => None case Some(raw) => Some(Lexed(Block(CodeText(raw.body)), raw.rest)))
    else if s[0] == '*' then Some(Lexed(Marker(Bold), s[1..]))
    else if s[0] == '_' && |s| >= 2 && s[1] == '_' then Some(Lexed(Marker(Underline), s[2..]))
    else if s[0] == '_' then Some(Lexed(Marker(Italic), s[1..]))
    else if s[0] == '~' then Some(Lexed(Marker(Strike), s[1..]))
    else if s[0] == '|' && |s| >= 2 && s[1] == '|' then Some(Lexed(Marker(Spoiler), s[2..]))
    else if s[0] == '[' then Some(Lexed(LinkStart, s[1..]))
    else if s[0] == ']' && |s| >= 2 && s[1] == '(' then
      (match RawUntil(s[2..], ")") case None => None case Some(raw) => Some(Lexed(LinkEnd(raw.body), raw.rest)))
    else None
  }

  datatype Effect = Effect(event: Event, open: seq<Style>)

  predicate Top(open: seq<Style>, style: Style) {
    open != [] && open[|open| - 1] == style
  }

  /** A marker closes the innermost entity when that has its style, and opens one otherwise. */
  function Act(lexeme: Lexeme, open: seq<Style>): Option<Effect> {
    match lexeme
    case Letter(c) => Some(Effect(Ch(c), open))
    case Block(event) => Some(Effect(event, open))
    case Marker(style) =>
      if Top(open, style) then Some(Effect(Close(style), open[..|open| - 1]))
      else Some(Effect(Open(style), open + [style]))
    case LinkStart => Some(Effect(Open(LinkText), open + [LinkText]))
    case LinkEnd(url) =>
      if Top(open, LinkText) then Some(Effect(CloseLink(url), open[..|open| - 1])) else None
  }

  function Then(es: seq<Event>, tail: Option<seq<Event>>): Option<seq<Event>> {
    match tail
    case None => None
    case Some(more) => Some(es + more)
  }

  /** The entity events of a message, or None where it is rejected. */
  function Read(s: string, open: seq<Style>): Option<seq<Event>>
    decreases |s|
  {
    if s == "" then
      if open == [] then Some([]) else None
    else match Next(s)
      case None => None
      case Some(lexed) =>
        match Act(lexed.lexeme, open)
        case None => None
        case Some(effect) => Then([effect.event], Read(lexed.rest, effect.open))
  }

  // ---- what the reader should find for a cut ----

  function Chars(t: string): seq<Event> {
    seq(|t|, i requires 0 <= i < |t| => Ch(t[i]))
  }

  function Expected(sp: Span): seq<Event> {
    match sp
    case Plain(text) => Chars(text)
    case Pre(lang, body) => [FenceText(lang + "\n" + body)]
    case PreInline(body) => [FenceText(body)]
    case Code(body) => [CodeText(body)]
    case Link(text, url) => [Open(LinkText)] + Chars(text) + [CloseLink(url)]
    case BoldStar(body) => [Open(Bold)] + Chars(body) + [Close(Bold)]
    case ItalicStar(body) => [Open(Italic)] + Chars(body) + [Close(Italic)]
    case ItalicUnder(body) => [Open(Italic)] + Chars(body) + [Close(Italic)]
  }

  function ExpectedAll(sps: seq<Span>): seq<Event> {
    if sps == [] then [] else Expected(sps[0]) + ExpectedAll(sps[1..])
  }

  // ---- the condition ----

  /** A backslash of `t` followed, in `t` or else in `rest`, by a character it would escape. */
  predicate Live(t: string, k: nat, rest: string)
    requires k < |t|
  {
    t[k] == '\\' && if k + 1 < |t| then Escapable(t[k + 1]) else rest != "" && Escapable(rest[0])
  }

  predicate Inert(t: string, rest: string) {
    forall k :: 0 <= k < |t| ==> !Live(t, k, rest)
  }

  predicate Italics(sp: Span) {
    sp.ItalicStar? || sp.ItalicUnder?
  }

  /** Backslashes of styled and plain text escape nothing; one may end the whole message. */
  predicate HeadReadable(sp: Span, last: bool) {
    match sp
    case Plain(text) => Inert(text, if last then "" else "*")
    case Link(text, _) => Inert(text, "]")
    case BoldStar(body) => Inert(body, "*")
    case ItalicStar(body) => Inert(body, "_")
    case ItalicUnder(body) => Inert(body, "_")
    case _ => true
  }

  predicate Readable(sps: seq<Span>) {
    sps != [] ==>
      HeadReadable(sps[0], |sps| == 1) &&
      !(|sps| > 1 && Italics(sps[0]) && Italics(sps[1])) &&
      Readable(sps[1..])
  }

  // ---- raw contents ----

  /** Backslashing the backslash and then `c` is one pass over both. */
  function Guarded(t: string, c: char): string {
    if t == "" then ""
    else (if t[0] == '\\' || t[0] == c then ['\\', t[0]] else [t[0]]) + Guarded(t[1..], c)
  }

  lemma {:induction false} GuardedIsTwice(t: string, c: char)
    requires c != '\\'
    ensures Backslashed(Backslashed(t, '\\'), c) == Guarded(t, c)
  {
    if t != "" {
      GuardedIsTwice(t[1..], c);
      var once := Backslashed(t[1..], '\\');
      if t[0] == '\\' {
        TwoStep(c, once);
      } else {
        assert ([t[0]] + once)[1..] == once;
      }
    }
  }

  lemma {:induction false} TwoStep(c: char, once: string)
    requires c != '\\'
    ensures Backslashed(['\\', '\\'] + once, c) == ['\\', '\\'] + Backslashed(once, c)
  {
    var s := ['\\', '\\'] + once;
    assert s[1..] == ['\\'] + once;
    assert s[1..][1..] == once;
    assert Backslashed(s[1..], c) == ['\\'] + Backslashed(once, c);
  }

  lemma {:induction false} RawStep(s: string, close: string)
    requires close != "" && s != "" && s[0] != close[0]
    ensures var skip := if Escaped(s) then 2 else 1;
            RawUntil(s, close) ==
              match RawUntil(s[skip..], close) case None => None case Some(raw) => Some(Raw([s[skip - 1]] + raw.body, raw.rest))
  {}

  lemma {:induction false} RawClose(close: string, rest: string)
    requires close != ""
    ensures RawUntil(close + rest, close) == Some(Raw("", rest))
  {
    assert (close + rest)[..|close|] == close;
    assert (close + rest)[|close|..] == rest;
  }

  /** Guarded contents come back raw, whatever follows the closing mark. */
  lemma {:induction false} GuardedRead(t: string, close: string, rest: string)
    requires close != "" && Escapable(close[0]) && close[0] != '\\'
    ensures RawUntil(Guarded(t, close[0]) + (close + rest), close) == Some(Raw(t, rest))
  {
    hide RawUntil;
    var c := close[0];
    var s := Guarded(t, c) + (close + rest);
    if t == "" {
      assert s == close + rest;
      RawClose(close, rest);
    } else {
      GuardedRead(t[1..], close, rest);
      var tail := Guarded(t[1..], c) + (close + rest);
      if t[0] == '\\' || t[0] == c {
        assert s == ['\\', t[0]] + tail;
        assert s[2..] == tail;
      } else {
        assert s == [t[0]] + tail;
        assert s[1..] == tail;
      }
      RawStep(s, close);
      assert t == [t[0]] + t[1..];
    }
  }

  // ---- one step of the reader ----

  lemma {:induction false} ReadLetter(s: string, open: seq<Style>)
    requires s != "" && !Reserved(s[0]) && !Escaped(s)
    ensures Read(s, open) == Then([Ch(s[0])], Read(s[1..], open))
  {}

  lemma {:induction false} ReadEscape(s: string, open: seq<Style>)
    requires Escaped(s)
    ensures Read(s, open) == Then([Ch(s[1])], Read(s[2..], open))
  {}

  /** An unescaped reserved character never reads as itself. */
  lemma {:induction false} ReservedHead(s: string, open: seq<Style>)
    requires s != "" && Reserved(s[0])
    ensures Read(s, open).None? || (Read(s, open).value != [] && !Read(s, open).value[0].Ch?)
  {
    hide RawUntil;
  }

  lemma ThenThen(a: seq<Event>, b: seq<Event>, r: Option<seq<Event>>)
    ensures Then(a, Then(b, r)) == Then(a + b, r)
  {
    if r.Some? { assert a + (b + r.value) == a + b + r.value; }
  }

  lemma ThenCancel(a: seq<Event>, r: Option<seq<Event>>, b: seq<Event>)
    ensures Then(a, r) == Some(a + b) <==> r == Some(b)
  {
    if r.Some? && a + r.value == a + b {
      assert (a + r.value)[|a|..] == r.value && (a + b)[|a|..] == b;
    }
  }

  lemma CharsHead(t: string)
    requires t != ""
    ensures Chars(t) == [Ch(t[0])] + Chars(t[1..])
  {}

  /** Escaped text splits at its first character. */
  lemma {:induction false} EscapeHead(t: string, rest: string)
    requires t != ""
    ensures var tail := Escape(t[1..]) + rest;
            Escape(t) + rest == if Reserved(t[0]) then ['\\', t[0]] + tail else [t[0]] + tail
  {
    var tail := Escape(t[1..]) + rest;
    if Reserved(t[0]) {
      assert ['\\', t[0]] + Escape(t[1..]) + rest == ['\\', t[0]] + tail;
    } else {
      assert [t[0]] + Escape(t[1..]) + rest == [t[0]] + tail;
    }
  }

  lemma ReservedEscapable(c: char)
    requires Reserved(c)
    ensures Escapable(c) && c != '\\'
  {}

  /** A backslash is not escaped: it stays in front of what follows. */
  lemma {:induction false} SlashHead(t: string, rest: string)
    requires t != "" && t[0] == '\\'
    ensures Escape(t) + rest == ['\\'] + (Escape(t[1..]) + rest)
  {
    EscapeHead(t, rest);
    hide Escape;
  }

  lemma {:induction false} SlashLast(t: string, rest: string)
    requires |t| == 1 && t[0] == '\\' && (rest == "" || Reserved(rest[0]))
    ensures Escape(t) + rest == ['\\'] + rest && Escape(t[1..]) + rest == rest
    ensures Escaped(Escape(t) + rest) <==> Live(t, 0, rest)
    ensures Live(t, 0, rest) <==> rest != ""
  {
    SlashHead(t, rest);
    assert t[1..] == "";
    EscapeNothing(rest);
    if rest != "" { ReservedEscapable(rest[0]); }
    hide Escape, Reserved;
  }

  lemma {:induction false} SlashBefore(t: string, rest: string)
    requires |t| > 1 && t[0] == '\\'
    ensures var tail := Escape(t[2..]) + rest;
            Escape(t) + rest == if Reserved(t[1]) then ['\\', '\\', t[1]] + tail else ['\\', t[1]] + tail
  {
    hide *;
    assert t[1..][1..] == t[2..] && t[1..][0] == t[1];
    SlashHead(t, rest);
    EscapeHead(t[1..], rest);
    PutBefore('\\', t[1], Escape(t[2..]) + rest);
  }

  lemma PutBefore(x: char, y: char, tail: string)
    ensures [x] + ([x, y] + tail) == [x, x, y] + tail && [x] + ([y] + tail) == [x, y] + tail
  {}

  lemma AfterTwo(x: char, y: char, tail: string)
    ensures ([x, y] + tail)[2..] == tail
  {}

  lemma {:induction false} SlashMore(t: string, rest: string)
    requires |t| > 1 && t[0] == '\\'
    ensures var s := Escape(t) + rest;
            && |s| >= 2 && (Escaped(s) <==> Live(t, 0, rest)) && (Live(t, 0, rest) <==> Escapable(t[1]))
            && (!Reserved(t[1]) ==> s[1] == t[1] && s[2..] == Escape(t[2..]) + rest)
            && (Reserved(t[1]) ==> |s| > 2 && s[1] == '\\' && s[2] == t[1])
  {
    hide Escape, Reserved;
    SlashBefore(t, rest);
    if Reserved(t[1]) { ReservedEscapable(t[1]); } else { AfterTwo('\\', t[1], Escape(t[2..]) + rest); }
  }

  /** A backslash in `t` escapes something in the output exactly when it is not inert there. */
  lemma {:induction false} SlashStep(t: string, rest: string)
    requires t != "" && t[0] == '\\'
    requires rest == "" || Reserved(rest[0])
    ensures Escaped(Escape(t) + rest) <==> Live(t, 0, rest)
    ensures Live(t, 0, rest) <==> if |t| > 1 then Escapable(t[1]) else rest != ""
    ensures |t| > 1 || rest != "" ==> |Escape(t) + rest| >= 2
    ensures |t| == 1 && rest != "" ==> (Escape(t) + rest)[1] == rest[0]
    ensures |t| > 1 && !Reserved(t[1]) ==>
            (Escape(t) + rest)[1] == t[1] && (Escape(t) + rest)[2..] == Escape(t[2..]) + rest
    ensures |t| > 1 && Reserved(t[1]) ==>
            var s := Escape(t) + rest; |s| > 2 && s[1] == '\\' && s[2] == t[1]
    ensures (Escape(t) + rest)[1..] == Escape(t[1..]) + rest
  {
    hide *;
    SlashHead(t, rest);
    if |t| > 1 { SlashMore(t, rest); } else { SlashLast(t, rest); }
  }

  /** Inert text reads back character by character. */
  lemma {:induction false} EscapedRead(t: string, rest: string, open: seq<Style>)
    requires Inert(t, rest) && (rest == "" || Reserved(rest[0]))
    ensures Read(Escape(t) + rest, open) == Then(Chars(t), Read(rest, open))
  {
    hide Read;
    if t == "" {
      assert Escape(t) + rest == rest;
      if Read(rest, open).Some? { assert Chars(t) + Read(rest, open).value == Read(rest, open).value; }
    } else {
      var s := Escape(t) + rest;
      EscapeHead(t, rest);
      var tail := Escape(t[1..]) + rest;
      InertTail(t, rest);
      EscapedRead(t[1..], rest, open);
      if Reserved(t[0]) {
        ReservedEscapable(t[0]);
        assert s[2..] == tail;
        ReadEscape(s, open);
      } else {
        if t[0] == '\\' {
          SlashStep(t, rest);
          assert !Live(t, 0, rest);
        }
        assert s[1..] == tail;
        ReadLetter(s, open);
      }
      ThenThen([Ch(t[0])], Chars(t[1..]), Read(rest, open));
      CharsHead(t);
    }
  }

  lemma InertTail(t: string, rest: string)
    requires t != ""
    ensures Inert(t, rest) <==> !Live(t, 0, rest) && Inert(t[1..], rest)
  {
    forall k | 0 <= k < |t[1..]| ensures Live(t[1..], k, rest) <==> Live(t, k + 1, rest) {}
    if Inert(t[1..], rest) && !Live(t, 0, rest) {
      forall k | 0 <= k < |t| ensures !Live(t, k, rest) {
        if k > 0 { assert Live(t[1..], k - 1, rest) <==> Live(t, (k - 1) + 1, rest); }
      }
    }
  }

  // ---- text with a live backslash never reads back ----

  function Slashes(k: nat): string {
    seq(k, _ => '\\')
  }

  lemma FirstDiffers(r: Option<seq<Event>>, e: Event, a: seq<Event>)
    requires a != [] && a[0] != e
    ensures Then([e], r) != Some(a)
  {}

  lemma {:induction false} SlashesLost(k: nat, u: string, rest: string, open: seq<Style>, more: seq<Event>)
    requires k >= 1 && (rest == "" || Reserved(rest[0]))
    ensures Read(Escape(u) + rest, open) != Some(Chars(Slashes(k) + u) + more)
    decreases |u|
  {
    assert !Reserved('\\');
    hide Read, Slashes, Chars, Escape, Escapable, Reserved;
    var s := Escape(u) + rest;
    var want := Chars(Slashes(k) + u) + more;
    SlashPeel(k, u);
    CharsHead(Slashes(k) + u);
    assert want[0] == Ch('\\');
    if u == "" {
      EscapeNothing(rest);
      if rest == "" { ReadEmpty(open); } else { ReservedHead(rest, open); }
    } else if u[0] != '\\' {
      EscapeHead(u, rest);
      if Reserved(u[0]) { ReservedEscapable(u[0]); ReadEscape(s, open); } else { ReadLetter(s, open); }
    } else {
      SlashStep(u, rest);
      EscapeHead(u, rest);
      if !Escaped(s) {
        ReadLetter(s, open);
        SlashesLost(k, u[1..], rest, open, more);
        Wanted(Slashes(k) + u[1..], more, Read(s[1..], open));
      } else {
        ReadEscape(s, open);
        if |u| == 1 {
          ReservedEscapable(rest[0]);
        } else if Reserved(u[1]) {
          ReservedHead(s[2..], open);
          Wanted(Slashes(k - 1) + u, more, Read(s[2..], open));
          CharsHead(Slashes(k - 1) + u);
        } else if u[1] == '\\' {
          SlashesLost(k + 1, u[2..], rest, open, more);
          Wanted(Slashes(k + 1) + u[2..], more, Read(s[2..], open));
        }
      }
    }
  }

  lemma SlashPeel(k: nat, u: string)
    requires k >= 1
    ensures Slashes(k) + u == ['\\'] + (Slashes(k - 1) + u)
    ensures u != "" && u[0] == '\\' ==> Slashes(k) + u == ['\\'] + (Slashes(k) + u[1..])
    ensures |u| > 1 && u[0] == u[1] == '\\' ==> Slashes(k) + u == ['\\'] + (Slashes(k + 1) + u[2..])
  {}

  lemma EscapeNothing(rest: string)
    ensures Escape("") + rest == rest
  {}

  lemma {:induction false} ReadEmpty(open: seq<Style>)
    ensures Read("", open) == if open == [] then Some([]) else None
  {}

  /** One backslash read leaves the rest of what was wanted. */
  lemma Wanted(t: string, more: seq<Event>, r: Option<seq<Event>>)
    ensures Then([Ch('\\')], r) == Some(Chars(['\\'] + t) + more) <==> r == Some(Chars(t) + more)
  {
    CharsHead(['\\'] + t);
    assert (['\\'] + t)[1..] == t;
    assert Chars(['\\'] + t) + more == [Ch('\\')] + (Chars(t) + more);
    ThenCancel([Ch('\\')], r, Chars(t) + more);
  }

  lemma {:induction false} LiveSlash(t: string, rest: string, open: seq<Style>, more: seq<Event>)
    requires !Inert(t, rest) && (rest == "" || Reserved(rest[0]))
    ensures Read(Escape(t) + rest, open) != Some(Chars(t) + more)
    decreases |t|
  {
    assert !Reserved('\\');
    hide Read, Slashes, Chars, Escape, Escapable, Reserved, Inert;
    var s := Escape(t) + rest;
    if t == "" { InertNothing(rest); }
    CharsHead(t);
    EscapeHead(t, rest);
    InertTail(t, rest);
    CharsMore(t, more);
    if t[0] == '\\' && Live(t, 0, rest) {
      SlashStep(t, rest);
      ReadEscape(s, open);
      if |t| == 1 {
        ReservedEscapable(rest[0]);
        FirstDiffers(Read(s[2..], open), Ch(s[1]), Chars(t) + more);
      } else if Reserved(t[1]) {
        ReservedHead(s[2..], open);
        CharsHead(t[1..]);
        ThenCancel([Ch('\\')], Read(s[2..], open), Chars(t[1..]) + more);
      } else if t[1] == '\\' {
        SlashesLost(1, t[2..], rest, open, more);
        OneSlash(t[1..]);
        ThenCancel([Ch('\\')], Read(s[2..], open), Chars(t[1..]) + more);
      } else {
        FirstDiffers(Read(s[2..], open), Ch(s[1]), Chars(t) + more);
      }
    } else {
      LiveSlash(t[1..], rest, open, more);
      if Reserved(t[0]) {
        ReservedEscapable(t[0]);
        assert s[2..] == Escape(t[1..]) + rest;
        ReadEscape(s, open);
        ThenCancel([Ch(t[0])], Read(s[2..], open), Chars(t[1..]) + more);
      } else {
        if t[0] == '\\' { SlashStep(t, rest); }
        assert s[1..] == Escape(t[1..]) + rest;
        ReadLetter(s, open);
        ThenCancel([Ch(t[0])], Read(s[1..], open), Chars(t[1..]) + more);
      }
    }
  }

  lemma InertNothing(rest: string)
    ensures Inert("", rest)
  {}

  lemma CharsMore(t: string, more: seq<Event>)
    requires t != ""
    ensures Chars(t) + more == [Ch(t[0])] + (Chars(t[1..]) + more)
  {
    CharsHead(t);
  }

  lemma OneSlash(t: string)
    requires t != "" && t[0] == '\\'
    ensures t == Slashes(1) + t[1..]
  {}

  // ---- one span at a time ----

  predicate MarkOf(mark: char, style: Style) {
    (mark == '*' && style == Bold) || (mark == '_' && style == Italic)
  }

  lemma Glue(a: string, b: string, c: string, r: string)
    ensures a + b + c + r == a + (b + (c + r))
  {}

  lemma GlueEvents(a: seq<Event>, b: seq<Event>, c: seq<Event>, more: seq<Event>)
    ensures a + b + c + more == a + (b + (c + more))
  {}

  lemma {:induction false} OpenMark(mark: char, style: Style, t: string)
    requires MarkOf(mark, style) && t != "" && t[0] != '_'
    ensures Read([mark] + t, []) == Then([Open(style)], Read(t, [style]))
  {
    hide RawUntil;
    var s := [mark] + t;
    assert s[1..] == t;
    assert Act(Marker(style), []) == Some(Effect(Open(style), [] + [style]));
    assert [] + [style] == [style];
  }

  lemma {:induction false} CloseMark(mark: char, style: Style, rest: string)
    requires MarkOf(mark, style) && (mark == '_' && rest != "" ==> rest[0] != '_')
    ensures Read([mark] + rest, [style]) == Then([Close(style)], Read(rest, []))
  {
    hide RawUntil;
    var s := [mark] + rest;
    assert s[1..] == rest;
    assert [style][..0] == [];
  }

  /** Two italic markers in a row read as an underline, not as a close and an open. */
  lemma {:induction false} TouchingMarks(rest: string)
    requires rest != "" && rest[0] == '_'
    ensures Read(['_'] + rest, [Italic]) == Then([Open(Underline)], Read(rest[1..], [Italic, Underline]))
  {
    hide RawUntil;
    var s := ['_'] + rest;
    assert s[2..] == rest[1..];
    assert [Italic] + [Underline] == [Italic, Underline];
  }

  lemma InertBefore(t: string, a: string, b: string)
    requires a != "" && b != "" && Reserved(a[0]) && Reserved(b[0])
    ensures Inert(t, a) <==> Inert(t, b)
  {
    ReservedEscapable(a[0]);
    ReservedEscapable(b[0]);
    forall k | 0 <= k < |t| ensures Live(t, k, a) <==> Live(t, k, b) {}
  }

  lemma {:induction false} EscapeStart(body: string, rest: string)
    requires body != ""
    ensures Escape(body) + rest != "" && !Reserved((Escape(body) + rest)[0])
  {
    EscapeHead(body, rest);
  }

  lemma {:induction false} StyledRead(mark: char, style: Style, body: string, rest: string)
    requires MarkOf(mark, style) && body != "" && Inert(body, [mark])
    requires mark == '_' && rest != "" ==> rest[0] != '_'
    ensures Read([mark] + Escape(body) + [mark] + rest, [])
         == Then([Open(style)] + Chars(body) + [Close(style)], Read(rest, []))
  {
    hide Read, Escape, Chars;
    var close := [mark] + rest;
    Glue([mark], Escape(body), [mark], rest);
    EscapeStart(body, close);
    OpenMark(mark, style, Escape(body) + close);
    InertBefore(body, [mark], close);
    EscapedRead(body, close, [style]);
    CloseMark(mark, style, rest);
    ThenThen(Chars(body), [Close(style)], Read(rest, []));
    ThenThen([Open(style)], Chars(body) + [Close(style)], Read(rest, []));
    assert [Open(style)] + (Chars(body) + [Close(style)]) == [Open(style)] + Chars(body) + [Close(style)];
  }

  lemma {:induction false} StyledGarbled(mark: char, style: Style, body: string, rest: string, more: seq<Event>)
    requires MarkOf(mark, style) && body != ""
    requires !Inert(body, [mark]) || (mark == '_' && rest != "" && rest[0] == '_')
    ensures Read([mark] + Escape(body) + [mark] + rest, []) != Some([Open(style)] + Chars(body) + [Close(style)] + more)
  {
    hide Read, Escape, Chars;
    var close := [mark] + rest;
    var wanted := [Close(style)] + more;
    Glue([mark], Escape(body), [mark], rest);
    GlueEvents([Open(style)], Chars(body), [Close(style)], more);
    EscapeStart(body, close);
    OpenMark(mark, style, Escape(body) + close);
    ThenCancel([Open(style)], Read(Escape(body) + close, [style]), Chars(body) + wanted);
    InertBefore(body, [mark], close);
    if Inert(body, close) {
      EscapedRead(body, close, [style]);
      TouchingMarks(rest);
      FirstDiffers(Read(rest[1..], [Italic, Underline]), Open(Underline), wanted);
      ThenCancel(Chars(body), Read(close, [style]), wanted);
    } else {
      LiveSlash(body, close, [style], wanted);
    }
  }

  lemma {:induction false} OpenLink(t: string)
    ensures Read(['['] + t, []) == Then([Open(LinkText)], Read(t, [LinkText]))
  {
    hide RawUntil;
    var s := ['['] + t;
    assert s[1..] == t;
    assert [] + [LinkText] == [LinkText];
  }

  lemma {:induction false} LinkTail(url: string, rest: string)
    ensures Read("](" + (Guarded(url, ')') + (")" + rest)), [LinkText]) == Then([CloseLink(url)], Read(rest, []))
  {
    hide RawUntil, Guarded;
    var t := Guarded(url, ')') + (")" + rest);
    var s := "](" + t;
    assert s[2..] == t;
    GuardedRead(url, ")", rest);
    assert [LinkText][..0] == [];
  }

  lemma {:induction false} RenderLink(text: string, url: string, rest: string)
    ensures Render(Link(text, url)) + rest == ['['] + (Escape(text) + ("](" + (Guarded(url, ')') + (")" + rest))))
  {
    hide Escape, Guarded, Backslashed;
    GuardedIsTwice(url, ')');
    var g := Guarded(url, ')');
    Glue("](", g, ")", rest);
    assert Render(Link(text, url)) == "[" + Escape(text) + "](" + g + ")";
    Glue("[" + Escape(text) + "](", g, ")", rest);
    Glue("[", Escape(text), "](", g + (")" + rest));
  }

  lemma {:induction false} LinkRead(text: string, url: string, rest: string)
    requires text != "" && Inert(text, "]")
    ensures Read(Render(Link(text, url)) + rest, []) == Then(Expected(Link(text, url)), Read(rest, []))
  {
    hide Read, Escape, Chars, Render, Guarded;
    var close := "](" + (Guarded(url, ')') + (")" + rest));
    RenderLink(text, url, rest);
    OpenLink(Escape(text) + close);
    InertBefore(text, "]", close);
    EscapedRead(text, close, [LinkText]);
    LinkTail(url, rest);
    ThenThen(Chars(text), [CloseLink(url)], Read(rest, []));
    ThenThen([Open(LinkText)], Chars(text) + [CloseLink(url)], Read(rest, []));
    assert [Open(LinkText)] + (Chars(text) + [CloseLink(url)]) == [Open(LinkText)] + Chars(text) + [CloseLink(url)];
  }

  lemma {:induction false} LinkGarbled(text: string, url: string, rest: string, more: seq<Event>)
    requires text != "" && !Inert(text, "]")
    ensures Read(Render(Link(text, url)) + rest, []) != Some(Expected(Link(text, url)) + more)
  {
    hide Read, Escape, Chars, Render, Guarded;
    var close := "](" + (Guarded(url, ')') + (")" + rest));
    var wanted := [CloseLink(url)] + more;
    RenderLink(text, url, rest);
    GlueEvents([Open(LinkText)], Chars(text), [CloseLink(url)], more);
    OpenLink(Escape(text) + close);
    InertBefore(text, "]", close);
    LiveSlash(text, close, [LinkText], wanted);
    ThenCancel([Open(LinkText)], Read(Escape(text) + close, [LinkText]), Chars(text) + wanted);
  }

  lemma {:induction false} CodeRead(body: string, rest: string)
    requires body != "" && Free(body, '`')
    ensures Read(Render(Code(body)) + rest, []) == Then([CodeText(body)], Read(rest, []))
  {
    hide RawUntil, Backslashed;
    GuardedIsTwice(body, '`');
    var t := Guarded(body, '`') + ("`" + rest);
    Glue("`", Guarded(body, '`'), "`", rest);
    var s := "`" + t;
    assert s[1..] == t;
    assert t[0] != '`';
    GuardedRead(body, "`", rest);
  }

  lemma {:induction false} FenceRead(body: string, rest: string)
    ensures Read(Render(PreInline(body)) + rest, []) == Then([FenceText(body)], Read(rest, []))
  {
    hide RawUntil, Backslashed, Guarded;
    GuardedIsTwice(body, '`');
    var t := Guarded(body, '`') + ("```" + rest);
    Glue("```", Guarded(body, '`'), "```", rest);
    var s := "```" + t;
    assert s[3..] == t;
    GuardedRead(body, "```", rest);
  }

  /** A span reads back as itself when its text is inert and no italic marker touches another. */
  lemma {:induction false} SpanRead(sp: Span, rest: string)
    requires WellFormed(sp) && HeadReadable(sp, rest == "")
    requires rest != "" && sp.Plain? ==> Reserved(rest[0])
    requires rest != "" && Italics(sp) ==> rest[0] != '_'
    ensures Read(Render(sp) + rest, []) == Then(Expected(sp), Read(rest, []))
  {
    hide Read, Escape, Inert, Chars, Free, FenceFree, IsLang, Backslashed;
    match sp
    case Plain(text) =>
      if rest != "" { InertBefore(text, "*", rest); }
      EscapedRead(text, rest, []);
    case Pre(lang, body) =>
      SameFence(lang, body);
      FenceRead(lang + "\n" + body, rest);
    case PreInline(body) => FenceRead(body, rest);
    case Code(body) => CodeRead(body, rest);
    case Link(text, url) => LinkRead(text, url, rest);
    case BoldStar(body) => StyledRead('*', Bold, body, rest);
    case ItalicStar(body) => StyledRead('_', Italic, body, rest);
    case ItalicUnder(body) => StyledRead('_', Italic, body, rest);
  }

  lemma {:induction false} SpanGarbled(sp: Span, rest: string, more: seq<Event>)
    requires WellFormed(sp)
    requires !HeadReadable(sp, rest == "") || (rest != "" && Italics(sp) && rest[0] == '_')
    requires rest != "" && sp.Plain? ==> Reserved(rest[0])
    ensures Read(Render(sp) + rest, []) != Some(Expected(sp) + more)
  {
    hide Read, Escape, Inert, Chars, Free, FenceFree, IsLang, Backslashed;
    match sp
    case Plain(text) =>
      if rest != "" { InertBefore(text, "*", rest); }
      LiveSlash(text, rest, [], more);
    case Link(text, url) => LinkGarbled(text, url, rest, more);
    case BoldStar(body) => StyledGarbled('*', Bold, body, rest, more);
    case ItalicStar(body) => StyledGarbled('_', Italic, body, rest, more);
    case ItalicUnder(body) => StyledGarbled('_', Italic, body, rest, more);
    case _ =>
  }

  lemma RenderStart(sp: Span)
    requires WellFormed(sp)
    ensures Render(sp) != "" && (Render(sp)[0] == '_' <==> Italics(sp)) && (!sp.Plain? ==> Reserved(Render(sp)[0]))
  {
    hide Backslashed;
    if sp.Plain? {
      EscapeStart(sp.text, "");
      assert Escape(sp.text) + "" == Escape(sp.text);
    }
  }

  /** For every proper cut, reading the rendering gives back the cut exactly when the cut is readable. */
  lemma {:induction false} CutReadsBack(sps: seq<Span>)
    requires ProperCut(sps)
    ensures Read(RenderAll(sps), []) == Some(ExpectedAll(sps)) <==> Readable(sps)
  {
    hide Read, Render, Expected, WellFormed, HeadReadable;
    if sps == [] {
      ReadEmpty([]);
    } else {
      var sp, rest := sps[0], sps[1..];
      var r := RenderAll(rest);
      var more := ExpectedAll(rest);
      CutReadsBack(rest);
      if rest != [] {
        RenderStart(rest[0]);
        assert r[0] == Render(rest[0])[0];
      }
      if HeadReadable(sp, |sps| == 1) && !(|sps| > 1 && Italics(sp) && Italics(sps[1])) {
        SpanRead(sp, r);
        ThenCancel(Expected(sp), Read(r, []), more);
      } else {
        SpanGarbled(sp, r, more);
      }
    }
  }

  /**
   The round trip, for every text: a reader of the converted message accepts it and recovers exactly
   the spans that the loop cut (which cover the text, by `SpansCover`) precisely when no backslash
   outside code, fences and link URLs stands before a character with code 1 to 126 or before a
   marker, and no two italic spans touch.
   */
  lemma {:induction false} RoundTrip(text: string)
    ensures Read(RenderAll(Spans(text)), []) == Some(ExpectedAll(Spans(text))) <==> Readable(Spans(text))
  {
    SpansCover(text);
    CutReadsBack(Spans(text));
  }

  // ---- the condition is needed ----

  lemma {:induction false} NoMarkNoMatch(text: string)
    requires forall k :: 0 <= k < |text| ==> text[k] != '`' && text[k] != '[' && text[k] != '*' && text[k] != '_'
    ensures First(text).None?
  {
    if text != "" {
      NoneOf(TOKEN_PATTERNS, text);
      NoMarkNoMatch(text[1..]);
    } else {
      NoneOf(TOKEN_PATTERNS, text);
    }
  }

  lemma {:induction false} NoneOf(kinds: seq<Kind>, s: string)
    requires s == "" || (s[0] != '`' && s[0] != '[' && s[0] != '*' && (s[0] != '_' || ItalicUnderKind !in kinds))
    ensures FirstOf(kinds, s).None?
  {
    if kinds != [] {
      var last := kinds[|kinds| - 1];
      NoneOf(kinds[..|kinds| - 1], s);
      if Match(last, s).Some? { MatchExact(last, s, Match(last, s).value); }
    }
  }

  /** `\a` loses its backslash: the converter leaves it, and the reader takes it as an escape. */
  lemma BackslashIsLost()
    ensures Spans("\\a") == [Plain("\\a")]
    ensures RenderAll(Spans("\\a")) == "\\a" && Read("\\a", []) == Some([Ch('a')])
  {
    NoMarkNoMatch("\\a");
    PlainRendered("\\a");
    assert Escape("a") == "a";
    assert "\\a"[2..] == "";
    ReadEscape("\\a", []);
    assert [Ch('a')] + [] == [Ch('a')];
    ReadEmpty([]);
  }

  /** Two touching italics `_a__b_`: both spans are cut, and the reader does not find them. */
  lemma TouchingItalicsAreLost()
    ensures Read(RenderAll(Spans("_a__b_")), []) != Some(ExpectedAll(Spans("_a__b_")))
  {
    TwoItalics();
    assert Italics(ItalicUnder("a")) && Italics(ItalicUnder("b"));
    assert !Readable([ItalicUnder("a"), ItalicUnder("b")]);
    hide *;
    RoundTrip("_a__b_");
  }

  lemma TwoItalics()
    ensures Spans("_a__b_") == [ItalicUnder("a"), ItalicUnder("b")]
  {
    UnderFirst("_a__b_", "a");
    assert "_a__b_"[3..] == "_b_";
    hide First, Spans;
    SpansUnfold("_a__b_");
    OneItalic();
  }

  lemma OneItalic()
    ensures Spans("_b_") == [ItalicUnder("b")]
  {
    UnderFirst("_b_", "b");
    assert "_b_"[3..] == "";
    hide First, Spans;
    SpansUnfold("_b_");
    EmptySpans();
  }

  lemma EmptySpans()
    ensures Spans("") == []
  {}

  lemma {:induction false} UnderFirst(s: string, body: string)
    requires WellFormed(ItalicUnder(body)) && Source(ItalicUnder(body)) <= s
    ensures First(s) == Some(Hit(0, ItalicUnder(body)))
  {
    var earlier := TOKEN_PATTERNS[..|TOKEN_PATTERNS| - 1];
    assert s[0] == '_';
    NoneOf(earlier, s);
    MatchExact(ItalicUnderKind, s, ItalicUnder(body));
  }
}
