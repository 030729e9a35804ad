/**
 The converter from the agent's markdown to Telegram MarkdownV2
 (src/wolfpaw/channels/telegram_markdown.py).

 Each regular expression of the source is a function that matches at the head of a
 string; searching is matching at the leftmost offset. `Spans` is the cut the
 conversion loop makes, and the method `ToMarkdownV2` is the loop itself.
 */
module TelegramMarkdown {
  import opened Prelude

  predicate Reserved(c: char) {
    c == '_' || c == '*' || c == '[' || c == ']' || c == '(' || c == ')' || c == '~' || c == '`' || c == '>' ||
    c == '#' || c == '+' || c == '-' || c == '=' || c == '|' || c == '{' || c == '}' || c == '.' || c == '!'
  }

  function Escape(text: string): string {
    if text == "" then ""
    else (if Reserved(text[0]) then ['\\', text[0]] else [text[0]]) + Escape(text[1..])
  }

  /** `text.replace(c, "\\" + c)` for a single character `c`. */
  function Backslashed(text: string, c: char): string {
    if text == "" then ""
    else (if text[0] == c then ['\\', c] else [text[0]]) + Backslashed(text[1..], c)
  }

  datatype Kind = PreKind | PreInlineKind | CodeKind | LinkKind | BoldStarKind | ItalicStarKind | ItalicUnderKind

  /** The patterns in the order the source tries them. */
  const TOKEN_PATTERNS: seq<Kind> :=
    [PreKind, PreInlineKind, CodeKind, LinkKind, BoldStarKind, ItalicStarKind, ItalicUnderKind]

  datatype Span =
    | Plain(text: string)
    | Pre(lang: string, body: string)
    | PreInline(body: string)
    | Code(body: string)
    | Link(text: string, url: string)
    | BoldStar(body: string)
    | ItalicStar(body: string)
    | ItalicUnder(body: string)

  /** The text a span was cut from. */
  function Source(sp: Span): string {
    match sp
    case Plain(text) => text
    case Pre(lang, body) => "```" + lang + "\n" + body + "```"
    case PreInline(body) => "```" + body + "```"
    case Code(body) => "`" + body + "`"
    case Link(text, url) => "[" + text + "](" + url + ")"
    case BoldStar(body) => "**" + body + "**"
    case ItalicStar(body) => "*" + body + "*"
    case ItalicUnder(body) => "_" + body + "_"
  }

  function Render(sp: Span): string {
    match sp
    case Plain(text) => Escape(text)
    case Pre(lang, body) => "```" + lang + "\n" + Backslashed(Backslashed(body, '\\'), '`') + "```"
    case PreInline(body) => "```" + Backslashed(Backslashed(body, '\\'), '`') + "```"
    case Code(body) => "`" + Backslashed(Backslashed(body, '\\'), '`') + "`"
    case Link(text, url) => "[" + Escape(text) + "](" + Backslashed(Backslashed(url, '\\'), ')') + ")"
    case BoldStar(body) => "*" + Escape(body) + "*"
    case ItalicStar(body) => "_" + Escape(body) + "_"
    case ItalicUnder(body) => "_" + Escape(body) + "_"
  }

  function SourceAll(sps: seq<Span>): string {
    if sps == [] then "" else Source(sps[0]) + SourceAll(sps[1..])
  }

  function RenderAll(sps: seq<Span>): string {
    if sps == [] then "" else Render(sps[0]) + RenderAll(sps[1..])
  }

  // ---- the patterns, matched at the head of a string ----

  /** `p` stands in `s` at offset `i`. */
  predicate At(s: string, i: nat, p: string) {
    i + |p| <= |s| && s[i..i + |p|] == p
  }

  /** End of the longest run from `i` with neither `stop` nor a newline: `[^stop\n]*`. */
  function RunEnd(s: string, i: nat, stop: char): (j: nat)
    requires i <= |s|
    ensures i <= j <= |s| && (forall k :: i <= k < j ==> s[k] != stop && s[k] != '\n')
    ensures j < |s| ==> s[j] == stop || s[j] == '\n'
    decreases |s| - i
  {
    if i == |s| || s[i] == stop || s[i] == '\n' then i else RunEnd(s, i + 1, stop)
  }

  predicate LangChar(c: char) {
    'a' <= c <= 'z' || 'A' <= c <= 'Z' || '0' <= c <= '9' || c == '_' || c == '+' || c == '-'
  }

  function LangEnd(s: string, i: nat): (j: nat)
    requires i <= |s|
    ensures i <= j <= |s| && (forall k :: i <= k < j ==> LangChar(s[k])) && (j < |s| ==> !LangChar(s[j]))
    decreases |s| - i
  {
    if i == |s| || !LangChar(s[i]) then i else LangEnd(s, i + 1)
  }

  predicate FenceAt(s: string, i: nat) {
    i + 3 <= |s| && s[i] == '`' && s[i + 1] == '`' && s[i + 2] == '`'
  }

  /** Where a non-greedy `.*?` before a closing fence stops: the first fence from `i`. */
  function FirstFence(s: string, i: nat): (r: Option<nat>)
    requires i <= |s|
    ensures r.Some? ==> i <= r.value && FenceAt(s, r.value) && forall k :: i <= k < r.value ==> !FenceAt(s, k)
    ensures r.None? ==> forall k :: i <= k ==> !FenceAt(s, k)
    decreases |s| - i
  {
    if FenceAt(s, i) then Some(i) else if i == |s| then None else FirstFence(s, i + 1)
  }

  /** From `i`: `open`, a nonempty run without `stop` or newline, then `close`. Yields the run. */
  function Delimited(s: string, i: nat, open: string, stop: char, close: string): Option<string> {
    if At(s, i, open) then
      var j := RunEnd(s, i + |open|, stop);
      if i + |open| < j && At(s, j, close) then Some(s[i + |open|..j]) else None
    else None
  }

  function Match(kind: Kind, s: string): Option<Span> {
    match kind
    case PreKind =>
      if FenceAt(s, 0) then
        var n := LangEnd(s, 3);
        if n < |s| && s[n] == '\n' && FirstFence(s, n + 1).Some?
        then Some(Pre(s[3..n], s[n + 1..FirstFence(s, n + 1).value]))
        else None
      else None
    case PreInlineKind =>
      if FenceAt(s, 0) && FirstFence(s, 3).Some? then Some(PreInline(s[3..FirstFence(s, 3).value])) else None
    case CodeKind =>
      (match Delimited(s, 0, "`", '`', "`") case None => None case Some(b) => Some(Code(b)))
    case LinkKind =>
      (match Delimited(s, 0, "[", ']', "](")
       case None => None
       case Some(t) =>
         match Delimited(s, |t| + 2, "(", ')', ")")
         case None => None
         case Some(u) => Some(Link(t, u)))
    case BoldStarKind =>
      (match Delimited(s, 0, "**", '*', "**") case None => None case Some(b) => Some(BoldStar(b)))
    case ItalicStarKind =>
      (match Delimited(s, 0, "*", '*', "*") case None => None case Some(b) => Some(ItalicStar(b)))
    case ItalicUnderKind =>
      (match Delimited(s, 0, "_", '_', "_") case None => None case Some(b) => Some(ItalicUnder(b)))
  }

  // ---- what the patterns mean: each span's own language ----

  predicate Free(s: string, stop: char) {
    forall k :: 0 <= k < |s| ==> s[k] != stop && s[k] != '\n'
  }

  predicate IsLang(s: string) {
    forall k :: 0 <= k < |s| ==> LangChar(s[k])
  }

  /** No three backticks start inside `body`, reading on into a closing fence. */
  predicate FenceFree(body: string) {
    forall k :: 0 <= k < |body| ==> !(body[k] == '`' && TickOrEnd(body, k + 1) && TickOrEnd(body, k + 2))
  }

  predicate TickOrEnd(body: string, k: nat) {
    k < |body| ==> body[k] == '`'
  }

  predicate WellFormed(sp: Span) {
    match sp
    case Plain(text) => text != ""
    case Pre(lang, body) => IsLang(lang) && FenceFree(body)
    case PreInline(body) => FenceFree(body)
    case Code(body) => body != "" && Free(body, '`')
    case Link(text, url) => text != "" && url != "" && Free(text, ']') && Free(url, ')')
    case BoldStar(body) => body != "" && Free(body, '*')
    case ItalicStar(body) => body != "" && Free(body, '*')
    case ItalicUnder(body) => body != "" && Free(body, '_')
  }

  predicate HasKind(sp: Span, kind: Kind) {
    match kind
    case PreKind => sp.Pre?
    case PreInlineKind => sp.PreInline?
    case CodeKind => sp.Code?
    case LinkKind => sp.Link?
    case BoldStarKind => sp.BoldStar?
    case ItalicStarKind => sp.ItalicStar?
    case ItalicUnderKind => sp.ItalicUnder?
  }

  /** A prefix in three pieces, piece by piece. */
  lemma Prefix3(s: string, p: string, q: string, r: string)
    ensures p + q + r <= s <==> At(s, 0, p) && At(s, |p|, q) && At(s, |p| + |q|, r)
  {
    var whole := p + q + r;
    if |whole| <= |s| {
      assert whole[..|p|] == p && whole[|p|..|p| + |q|] == q && whole[|p| + |q|..] == r;
      var t := s[..|whole|];
      assert t[..|p|] == s[..|p|];
      assert t[|p|..|p| + |q|] == s[|p|..|p| + |q|];
      assert t[|p| + |q|..] == s[|p| + |q|..|p| + |q| + |r|];
      assert t == t[..|p|] + t[|p|..|p| + |q|] + t[|p| + |q|..];
    }
  }

  lemma DelimitedExact(s: string, i: nat, open: string, stop: char, close: string, b: string)
    requires close != "" && close[0] == stop
    ensures Delimited(s, i, open, stop, close) == Some(b)
       <==> b != "" && Free(b, stop) && At(s, i, open) && At(s, i + |open|, b) && At(s, i + |open| + |b|, close)
  {
    var o := i + |open|;
    if b != "" && Free(b, stop) && At(s, i, open) && At(s, o, b) && At(s, o + |b|, close) {
      var j := RunEnd(s, o, stop);
      assert forall k :: 0 <= k < |b| ==> s[o + k] == b[k];
      assert s[o + |b|] == s[o + |b|..o + |b| + |close|][0] == stop;
      assert j >= o + |b| by {
        if j < o + |b| { assert false; }
      }
    }
  }

  lemma MarkedExact(s: string, mark: string, stop: char, b: string)
    requires mark != "" && mark[0] == stop
    ensures Delimited(s, 0, mark, stop, mark) == Some(b) <==> b != "" && Free(b, stop) && mark + b + mark <= s
  {
    hide Delimited;
    DelimitedExact(s, 0, mark, stop, mark, b);
    Prefix3(s, mark, b, mark);
  }

  /** Every pattern matches exactly the strings of its own language, with one reading each. */
  lemma MatchExact(kind: Kind, s: string, sp: Span)
    ensures Match(kind, s) == Some(sp) <==> HasKind(sp, kind) && WellFormed(sp) && Source(sp) <= s
  {
    hide Delimited, At, FirstFence, LangEnd, FenceFree, Free, IsLang;
    match kind
    case PreKind => if sp.Pre? { PreExact(s, sp.lang, sp.body); }
    case PreInlineKind => if sp.PreInline? { PreInlineExact(s, sp.body); }
    case CodeKind => if sp.Code? { MarkedExact(s, "`", '`', sp.body); }
    case LinkKind => if sp.Link? { LinkExact(s, sp.text, sp.url); }
    case BoldStarKind => if sp.BoldStar? { MarkedExact(s, "**", '*', sp.body); }
    case ItalicStarKind => if sp.ItalicStar? { MarkedExact(s, "*", '*', sp.body); }
    case ItalicUnderKind => if sp.ItalicUnder? { MarkedExact(s, "_", '_', sp.body); }
  }

  lemma FenceIsThree(s: string, i: nat)
    ensures FenceAt(s, i) <==> At(s, i, "```")
  {
    if i + 3 <= |s| {
      assert s[i..i + 3] == [s[i], s[i + 1], s[i + 2]];
    }
  }

  /** A body up to a fence is the non-greedy one exactly when it is fence-free. */
  lemma {:induction false} FirstFenceExact(s: string, i: nat, m: nat)
    requires i <= m <= |s|
    ensures FirstFence(s, i) == Some(m) <==> FenceAt(s, m) && FenceFree(s[i..m])
  {
    var body := s[i..m];
    if FenceAt(s, m) {
      forall k | 0 <= k < |body|
        ensures FenceAt(s, i + k) <==> body[k] == '`' && TickOrEnd(body, k + 1) && TickOrEnd(body, k + 2)
      {
        assert body[k] == s[i + k];
      }
      if forall k :: i <= k < m ==> !FenceAt(s, k) {
        assert FenceFree(body);
      }
      if FenceFree(body) {
        forall k | i <= k < m ensures !FenceAt(s, k) { assert body[k - i] == s[k]; assert FenceAt(s, i + (k - i)) <==> FenceAt(s, k); }
      }
    }
  }

  lemma PreInlineExact(s: string, body: string)
    ensures Match(PreInlineKind, s) == Some(PreInline(body)) <==> FenceFree(body) && Source(PreInline(body)) <= s
  {
    var m := 3 + |body|;
    Prefix3(s, "```", body, "```");
    FenceIsThree(s, 0);
    FenceIsThree(s, m);
    if m <= |s| { FirstFenceExact(s, 3, m); }
  }

  lemma PreExact(s: string, lang: string, body: string)
    ensures Match(PreKind, s) == Some(Pre(lang, body)) <==>
            IsLang(lang) && FenceFree(body) && Source(Pre(lang, body)) <= s
  {
    hide Source, FirstFence, LangEnd, FenceFree;
    var n := 3 + |lang|;
    var m := n + 1 + |body|;
    PrePieces(s, lang, body);
    FenceIsThree(s, 0);
    FenceIsThree(s, m);
    if m <= |s| { FirstFenceExact(s, n + 1, m); }
    if n <= |s| { LangEndExact(s, lang); }
  }

  lemma {:induction false} LangEndExact(s: string, lang: string)
    requires 3 + |lang| <= |s|
    ensures LangEnd(s, 3) == 3 + |lang| && At(s, 3 + |lang|, "\n") && s[3..3 + |lang|] == lang
       <==> IsLang(lang) && At(s, 3, lang) && At(s, 3 + |lang|, "\n")
  {
    assert !LangChar('\n');
    hide LangEnd, LangChar;
    var n, e := 3 + |lang|, LangEnd(s, 3);
    if s[3..n] == lang && At(s, n, "\n") {
      assert s[n..n + 1][0] == s[n];
      forall k | 3 <= k < n ensures s[k] == lang[k - 3] {}
      if IsLang(lang) {
        forall k | 3 <= k < n ensures LangChar(s[k]) { assert LangChar(lang[k - 3]); }
      }
      if e == n {
        forall k | 0 <= k < |lang| ensures LangChar(lang[k]) { assert s[k + 3] == lang[k]; }
      }
    }
  }

  lemma PrePieces(s: string, lang: string, body: string)
    ensures Source(Pre(lang, body)) <= s <==>
            At(s, 0, "```") && At(s, 3, lang) && At(s, 3 + |lang|, "\n") && At(s, 4 + |lang|, body) && At(s, 4 + |lang| + |body|, "```")
  {
    var head := "```" + lang + "\n";
    Prefix3(s, head, body, "```");
    Prefix3(s, "```", lang, "\n");
  }

  lemma LinkExact(s: string, t: string, u: string)
    ensures Match(LinkKind, s) == Some(Link(t, u)) <==> WellFormed(Link(t, u)) && Source(Link(t, u)) <= s
  {
    hide Source, Delimited, At;
    LinkPieces(s, t, u);
    DelimitedExact(s, 0, "[", ']', "](", t);
    DelimitedExact(s, |t| + 2, "(", ')', ")", u);
  }

  lemma LinkPieces(s: string, t: string, u: string)
    ensures Source(Link(t, u)) <= s <==>
            At(s, 0, "[") && At(s, 1, t) && At(s, 1 + |t|, "](") &&
            At(s, |t| + 2, "(") && At(s, |t| + 3, u) && At(s, |t| + 3 + |u|, ")")
  {
    var head := "[" + t + "](";
    Prefix3(s, head, u, ")");
    Prefix3(s, "[", t, "](");
    if At(s, 1 + |t|, "](") {
      assert s[|t| + 2..|t| + 3] == s[|t| + 1..|t| + 3][1..];
    }
  }

  /** `p <= s` as a split of `s`. */
  lemma Split(p: string, s: string)
    requires p <= s
    ensures s == p + s[|p|..]
  {}

  /** The fence pattern with a language tag adds nothing: the one after it would cut and render the same. */
  lemma PreIsRedundant(s: string)
    requires Match(PreKind, s).Some?
    ensures Match(PreInlineKind, s).Some?
    ensures var p, q := Match(PreKind, s).value, Match(PreInlineKind, s).value;
            Source(p) == Source(q) && Render(p) == Render(q)
  {
    var n := LangEnd(s, 3);
    var m := FirstFence(s, n + 1).value;
    assert FirstFence(s, 3) == Some(m) by {
      forall k | 3 <= k <= n ensures !FenceAt(s, k) {}
      FirstFenceFrom(s, 3, n + 1);
    }
    var lang, body := s[3..n], s[n + 1..m];
    assert s[3..m] == lang + "\n" + body;
    SameFence(lang, body);
  }

  lemma {:induction false} FirstFenceFrom(s: string, i: nat, j: nat)
    requires i <= j <= |s| && forall k :: i <= k < j ==> !FenceAt(s, k)
    ensures FirstFence(s, i) == FirstFence(s, j)
    decreases j - i
  {
    if i < j { FirstFenceFrom(s, i + 1, j); }
  }

  lemma SameFence(lang: string, body: string)
    requires IsLang(lang)
    ensures var p, q := Pre(lang, body), PreInline(lang + "\n" + body); Source(p) == Source(q) && Render(p) == Render(q)
  {
    var head := lang + "\n";
    var once := Backslashed(body, '\\');
    BackslashedPlain(head, body, '\\');
    BackslashedPlain(head, once, '`');
    Regroup("```", lang, "\n", body, "```");
    Regroup("```", lang, "\n", Backslashed(once, '`'), "```");
  }

  lemma Regroup(a: string, b: string, c: string, d: string, e: string)
    ensures a + b + c + d + e == a + (b + c + d) + e
  {}

  lemma {:induction false} BackslashedPlain(head: string, t: string, c: char)
    requires forall k :: 0 <= k < |head| ==> head[k] != c
    ensures Backslashed(head + t, c) == head + Backslashed(t, c)
  {
    if head == "" {
      assert head + t == t;
    } else {
      assert (head + t)[1..] == head[1..] + t;
      BackslashedPlain(head[1..], t, c);
    }
  }

  // ---- the cut ----

  /** The first pattern, in order, that matches at the head of `s`. */
  function AnyMatch(s: string): (r: Option<Span>)
  {
    FirstOf(TOKEN_PATTERNS, s)
  }

  function FirstOf(kinds: seq<Kind>, s: string): Option<Span> {
    if kinds == [] then None
    else
      var earlier := FirstOf(kinds[..|kinds| - 1], s);
      if earlier.Some? then earlier else Match(kinds[|kinds| - 1], s)
  }

  datatype Hit = Hit(start: nat, span: Span)

  /** `rx.search`: the leftmost match of one pattern. */
  function Search(kind: Kind, s: string): Option<Hit> {
    if Match(kind, s).Some? then Some(Hit(0, Match(kind, s).value))
    else if s == "" then None
    else Later(Search(kind, s[1..]))
  }

  function Later(h: Option<Hit>): Option<Hit> {
    match h
    case None => None
    case Some(hit) => Some(Hit(hit.start + 1, hit.span))
  }

  /** The leftmost place where any pattern matches. */
  function First(s: string): Option<Hit> {
    if AnyMatch(s).Some? then Some(Hit(0, AnyMatch(s).value))
    else if s == "" then None
    else Later(First(s[1..]))
  }

  lemma {:induction false} FirstOfIsMatch(kinds: seq<Kind>, s: string)
    requires FirstOf(kinds, s).Some?
    ensures exists k :: k in kinds && Match(k, s) == FirstOf(kinds, s)
  {
    var last := |kinds| - 1;
    if FirstOf(kinds[..last], s).Some? {
      FirstOfIsMatch(kinds[..last], s);
    } else {
      assert kinds[last] in kinds;
    }
  }

  lemma SpanOfMatch(s: string, sp: Span)
    requires AnyMatch(s) == Some(sp)
    ensures WellFormed(sp) && !sp.Plain? && Source(sp) <= s && Source(sp) != ""
  {
    FirstOfIsMatch(TOKEN_PATTERNS, s);
    var k :| k in TOKEN_PATTERNS && Match(k, s) == Some(sp);
    MatchExact(k, s, sp);
  }

  lemma {:induction false} FirstInside(s: string)
    requires First(s).Some?
    ensures var h := First(s).value;
            h.start < |s| && AnyMatch(s[h.start..]) == Some(h.span) && WellFormed(h.span) && !h.span.Plain? &&
            Source(h.span) != "" && Source(h.span) <= s[h.start..]
  {
    var h := First(s).value;
    if AnyMatch(s).Some? {
      assert s[0..] == s;
      SpanOfMatch(s, h.span);
    } else {
      FirstInside(s[1..]);
      assert s[1..][h.start - 1..] == s[h.start..];
    }
  }

  function Spans(text: string): seq<Span>
    decreases |text|
  {
    if text == "" then []
    else match First(text)
      case None => [Plain(text)]
      case Some(h) =>
        FirstInside(text);
        var found := [h.span] + Spans(text[h.start + |Source(h.span)|..]);
        if h.start > 0 then [Plain(text[..h.start])] + found else found
  }

  /** Nonempty well-formed spans, no two plain ones touching: the shape of every cut. */
  predicate ProperCut(sps: seq<Span>) {
    sps == [] || (WellFormed(sps[0]) && (|sps| > 1 && sps[0].Plain? ==> !sps[1].Plain?) && ProperCut(sps[1..]))
  }

  lemma Assoc(a: string, b: string, c: string)
    ensures a + b + c == a + (b + c)
  {}

  /** Adding a span in front adds its source and its rendering in front, and keeps the cut proper. */
  lemma {:induction false} Consed(sp: Span, sps: seq<Span>)
    ensures SourceAll([sp] + sps) == Source(sp) + SourceAll(sps)
    ensures RenderAll([sp] + sps) == Render(sp) + RenderAll(sps)
    ensures ProperCut([sp] + sps) <==>
            WellFormed(sp) && ProperCut(sps) && (sps != [] && sp.Plain? ==> !sps[0].Plain?)
  {
    hide Source, Render, WellFormed;
    assert ([sp] + sps)[1..] == sps;
  }

  lemma {:induction false} SpansUnfold(text: string)
    requires First(text).Some?
    ensures var h := First(text).value;
            h.start + |Source(h.span)| <= |text| && |Source(h.span)| > 0 &&
            var found := [h.span] + Spans(text[h.start + |Source(h.span)|..]);
            Spans(text) == if h.start > 0 then [Plain(text[..h.start])] + found else found
  {
    hide Source, WellFormed, First, AnyMatch;
    FirstInside(text);
  }

  /** The spans of a cut concatenate to the input, and are proper. */
  lemma {:induction false} SpansCover(text: string)
    ensures SourceAll(Spans(text)) == text && ProperCut(Spans(text))
    decreases |text|
  {
    hide Source, Render, SourceAll, ProperCut, WellFormed, Spans, First;
    if text == "" || First(text).None? {
      NothingCut(text);
    } else {
      FirstInside(text);
      SpansUnfold(text);
      var h := First(text).value;
      var found := text[h.start..];
      var tail := found[|Source(h.span)|..];
      assert text[h.start + |Source(h.span)|..] == tail;
      SpansCover(tail);
      Consed(h.span, Spans(tail));
      Split(Source(h.span), found);
      if h.start > 0 {
        Consed(Plain(text[..h.start]), [h.span] + Spans(tail));
        PlainSource(text[..h.start]);
        Split(text[..h.start], text);
      } else {
        assert found == text;
      }
    }
  }

  lemma {:induction false} NothingCut(text: string)
    requires text == "" || First(text).None?
    ensures SourceAll(Spans(text)) == text && ProperCut(Spans(text))
  {
    hide First;
    EmptyCut();
    if text != "" {
      Consed(Plain(text), []);
      assert [Plain(text)] + [] == [Plain(text)];
    }
  }

  lemma EmptyCut()
    ensures SourceAll([]) == "" && RenderAll([]) == "" && ProperCut([])
  {}

  lemma {:induction false} PlainSource(t: string)
    ensures Source(Plain(t)) == t && Render(Plain(t)) == Escape(t) && (WellFormed(Plain(t)) <==> t != "")
  {}

  // ---- the loop ----

  function Join(parts: seq<string>): string {
    if parts == [] then "" else Join(parts[..|parts| - 1]) + parts[|parts| - 1]
  }

  /** What the inner loop has in `best` once it has tried `kinds`. */
  function BestOf(kinds: seq<Kind>, s: string): Option<Hit> {
    if kinds == [] then None
    else
      var best := BestOf(kinds[..|kinds| - 1], s);
      var m := Search(kinds[|kinds| - 1], s);
      if m.Some? && (best.None? || m.value.start < best.value.start) then m else best
  }

  lemma {:induction false} BestAtHead(kinds: seq<Kind>, s: string)
    ensures FirstOf(kinds, s).Some? ==> BestOf(kinds, s) == Some(Hit(0, FirstOf(kinds, s).value))
    ensures FirstOf(kinds, s).None? && s != "" ==> BestOf(kinds, s) == Later(BestOf(kinds, s[1..]))
    ensures FirstOf(kinds, s).None? && s == "" ==> BestOf(kinds, s) == None
  {
    if kinds != [] {
      BestAtHead(kinds[..|kinds| - 1], s);
    }
  }

  /** Searching each pattern and keeping the strictly earliest finds the leftmost match, first pattern first. */
  lemma {:induction false} BestIsFirst(s: string)
    ensures BestOf(TOKEN_PATTERNS, s) == First(s)
    decreases |s|
  {
    BestAtHead(TOKEN_PATTERNS, s);
    if AnyMatch(s).None? && s != "" {
      BestIsFirst(s[1..]);
    }
  }

  /** One round of the loop peels the spans it renders. */
  lemma {:induction false} RenderStep(rest: string)
    requires First(rest).Some?
    ensures var h := First(rest).value;
            h.start + |Source(h.span)| <= |rest| && |Source(h.span)| > 0 &&
            var found := Render(h.span) + RenderAll(Spans(rest[h.start + |Source(h.span)|..]));
            RenderAll(Spans(rest)) == if h.start > 0 then Escape(rest[..h.start]) + found else found
  {
    hide Source, Render, Spans, Escape, RenderAll;
    FirstInside(rest);
    SpansUnfold(rest);
    var h := First(rest).value;
    var tail := Spans(rest[h.start + |Source(h.span)|..]);
    Consed(h.span, tail);
    Consed(Plain(rest[..h.start]), [h.span] + tail);
    PlainSource(rest[..h.start]);
  }

  lemma {:induction false} JoinPush(parts: seq<string>, a: string, t: string)
    ensures Join(parts + [a]) + t == Join(parts) + (a + t)
  {
    assert (parts + [a])[..|parts|] == parts;
    Assoc(Join(parts), a, t);
  }

  /** The inner loop: try every pattern, keep the earliest start, the first pattern on a tie. */
  method SearchAll(rest: string) returns (best: Option<Hit>)
    ensures best == First(rest)
  {
    best := None;
    for k := 0 to |TOKEN_PATTERNS|
      invariant best == BestOf(TOKEN_PATTERNS[..k], rest)
    {
      assert TOKEN_PATTERNS[..k + 1][..k] == TOKEN_PATTERNS[..k];
      var m := Search(TOKEN_PATTERNS[k], rest);
      if m.Some? && (best.None? || m.value.start < best.value.start) {
        best := m;
      }
    }
    assert TOKEN_PATTERNS[..|TOKEN_PATTERNS|] == TOKEN_PATTERNS;
    BestIsFirst(rest);
  }

  method ToMarkdownV2(text: string) returns (result: string)
    ensures result == RenderAll(Spans(text))
  {
    hide Source, Render, Escape, Join, Spans, RenderAll, First;
    var out: seq<string> := [];
    assert Join(out) == "" by { JoinEmpty(); }
    var i, n := 0, |text|;
    while i < n
      invariant 0 <= i <= n
      invariant Join(out) + RenderAll(Spans(text[i..])) == RenderAll(Spans(text))
    {
      var rest := text[i..];
      var best := SearchAll(rest);
      if best.None? {
        PlainRendered(rest);
        JoinPush(out, Escape(rest), "");
        out := out + [Escape(rest)];
        assert Join(out) == RenderAll(Spans(text));
        break;
      }
      var start, span := best.value.start, best.value.span;
      SpansUnfold(rest);
      RenderStep(rest);
      ghost var found := Render(span) + RenderAll(Spans(rest[start + |Source(span)|..]));
      if start > 0 {
        JoinPush(out, Escape(rest[..start]), found);
        out := out + [Escape(rest[..start])];
      }
      assert Join(out) + found == RenderAll(Spans(text));
      JoinPush(out, Render(span), RenderAll(Spans(rest[start + |Source(span)|..])));
      out := out + [Render(span)];
      assert text[i + start + |Source(span)|..] == rest[start + |Source(span)|..];
      i := i + start + |Source(span)|;
    }
    EmptyRest(text);
    result := Join(out);
  }

  lemma EmptyRest(text: string)
    ensures RenderAll(Spans(text[|text|..])) == ""
  {}

  lemma JoinEmpty()
    ensures Join([]) == ""
  {}

  lemma {:induction false} PlainRendered(t: string)
    requires t != "" && First(t).None?
    ensures RenderAll(Spans(t)) == Escape(t) + ""
  {
    assert [Plain(t)] + [] == [Plain(t)];
    Consed(Plain(t), []);
    PlainSource(t);
  }
}
