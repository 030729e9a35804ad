/**
 Signed tokens: base64url without padding (RFC 4648, sections 3.2 and 5) and the two formats built on it,
 storage tokens (src/wolfpaw/storage/signing.py:38-90) and session tokens (src/wolfpaw/auth/tokens.py:47-87).

 The MAC is any function of secret and message, and JSON any codec whose decoder undoes its encoder.
 The decoder is the lenient one of Python's `base64.urlsafe_b64decode`.
 */
module Tokens {
  import opened Prelude

  type Byte = x: int | 0 <= x < 256
  type Bytes = seq<Byte>

  // ---- base64url ----

  function Digit(v: int): char
    requires 0 <= v < 64
  {
    if v < 26 then ('A' as int + v) as char
    else if v < 52 then ('a' as int + v - 26) as char
    else if v < 62 then ('0' as int + v - 52) as char
    else if v == 62 then '-'
    else '_'
  }

  /** The value of a character; Python maps `-` and `_` to `+` and `/` and then knows only those. */
  function Value(c: char): Option<int> {
    if 'A' <= c <= 'Z' then Some(c as int - 'A' as int)
    else if 'a' <= c <= 'z' then Some(c as int - 'a' as int + 26)
    else if '0' <= c <= '9' then Some(c as int - '0' as int + 52)
    else if c == '-' || c == '+' then Some(62)
    else if c == '_' || c == '/' then Some(63)
    else None
  }

  /** Three bytes as four characters. */
  function Group(x: Byte, y: Byte, z: Byte): (g: string)
    ensures |g| == 4
  {
    [Digit(x / 4), Digit(x % 4 * 16 + y / 16), Digit(y % 16 * 4 + z / 64), Digit(z % 64)]
  }

  /** `base64.urlsafe_b64encode`, three bytes to four characters. */
  function Padded(data: Bytes): string {
    if data == [] then ""
    else if |data| == 1 then [Digit(data[0] / 4), Digit(data[0] % 4 * 16), '=', '=']
    else if |data| == 2 then [Digit(data[0] / 4), Digit(data[0] % 4 * 16 + data[1] / 16), Digit(data[1] % 16 * 4), '=']
    else Group(data[0], data[1], data[2]) + Padded(data[3..])
  }

  function Stripped(s: string): string {
    if s != "" && s[|s| - 1] == '=' then Stripped(s[..|s| - 1]) else s
  }

  function B64(data: Bytes): string {
    Stripped(Padded(data))
  }

  predicate Ascii(s: string) {
    forall i :: 0 <= i < |s| ==> s[i] < 128 as char
  }

  /**
   The decoder's automaton: `pos` is the place in the current group of four, `left` the bits kept from the
   last character, `pads` the run of `=` in hand. Other characters are skipped; a completed padding ends it.
   */
  function Scan(s: string, pos: int, left: int, pads: int): Option<Bytes>
    requires 0 <= pos < 4 && 0 <= left
    requires pos == 0 ==> left == 0
    requires pos == 1 ==> left < 64
    requires pos == 2 ==> left < 16
    requires pos == 3 ==> left < 4
  {
    if s == "" then (if pos == 0 then Some([]) else None)
    else if s[0] == '=' then
      (if pos >= 2 && pos + pads + 1 >= 4 then Some([]) else Scan(s[1..], pos, left, if pos >= 2 then pads + 1 else pads))
    else match Value(s[0])
      case None => Scan(s[1..], pos, left, pads)
      case Some(v) =>
        if pos == 0 then Scan(s[1..], 1, v, 0)
        else if pos == 1 then Then(left * 4 + v / 16, Scan(s[1..], 2, v % 16, 0))
        else if pos == 2 then Then(left * 16 + v / 4, Scan(s[1..], 3, v % 4, 0))
        else Then(left * 64 + v, Scan(s[1..], 0, 0, 0))
  }

  function Then(b: Byte, rest: Option<Bytes>): Option<Bytes> {
    if rest.None? then None else Some([b] + rest.value)
  }

  function Decoded(s: string): Option<Bytes> {
    if Ascii(s) then Scan(s, 0, 0, 0) else None
  }

  /** `-n % 4` signs of padding; both operators take the remainder from 0 to 3. */
  function Padding(n: int): string {
    match (-n) % 4
    case 0 => ""
    case 1 => "="
    case 2 => "=="
    case _ => "==="
  }

  function Unb64(s: string): Option<Bytes> {
    Decoded(s + Padding(|s|))
  }

  /** The characters that encode: letters, digits, `-` and `_`. */
  predicate Plain(s: string) {
    forall i :: 0 <= i < |s| ==> PlainChar(s[i])
  }

  predicate PlainChar(c: char) {
    Value(c).Some? && c != '+' && c != '/'
  }

  lemma DigitValue(v: int)
    requires 0 <= v < 64
    ensures Value(Digit(v)) == Some(v) && Plain([Digit(v)]) && Digit(v) != '=' && Digit(v) < 128 as char
  {}

  /** Every character that encodes is ASCII, and neither `.` nor `=`. */
  lemma PlainChars(s: string, i: int)
    requires Plain(s) && 0 <= i < |s|
    ensures s[i] < 128 as char && s[i] != '.' && s[i] != '='
  {
    assert PlainChar(s[i]);
  }

  // ---- encoding, and back ----

  /** The encoding with its padding left off. */
  function Unpadded(data: Bytes): string {
    if data == [] then ""
    else if |data| == 1 then [Digit(data[0] / 4), Digit(data[0] % 4 * 16)]
    else if |data| == 2 then [Digit(data[0] / 4), Digit(data[0] % 4 * 16 + data[1] / 16), Digit(data[1] % 16 * 4)]
    else Group(data[0], data[1], data[2]) + Unpadded(data[3..])
  }

  lemma DigitsPlain()
    ensures forall v :: 0 <= v < 64 ==> PlainChar(Digit(v))
  {}

  lemma PlainJoin(a: string, b: string)
    requires Plain(a) && Plain(b)
    ensures Plain(a + b)
  {
    hide PlainChar;
  }

  lemma {:induction false} UnpaddedPlain(data: Bytes)
    ensures Plain(Unpadded(data))
  {
    hide Digit, PlainChar;
    DigitsPlain();
    if |data| >= 3 {
      UnpaddedPlain(data[3..]);
      PlainJoin(Group(data[0], data[1], data[2]), Unpadded(data[3..]));
    }
  }

  lemma Regroup(a: string, b: string, c: string)
    ensures a + (b + c) == (a + b) + c
  {}

  lemma PaddingPeriod(n: int)
    ensures Padding(n + 4) == Padding(n)
  {}

  lemma {:induction false} PaddedIs(data: Bytes)
    ensures Padded(data) == Unpadded(data) + Padding(|Unpadded(data)|)
  {
    hide Digit, Group;
    if |data| >= 3 {
      var head, rest := Group(data[0], data[1], data[2]), Unpadded(data[3..]);
      PaddedIs(data[3..]);
      PaddingPeriod(|rest|);
      Regroup(head, rest, Padding(|rest|));
      assert Padded(data) == head + Padded(data[3..]) && Unpadded(data) == head + rest;
      hide *;
    } else {
      PaddedTailIs(data);
    }
  }

  lemma {:induction false} PaddedTailIs(data: Bytes)
    requires |data| < 3
    ensures Padded(data) == Unpadded(data) + Padding(|Unpadded(data)|)
  {
    hide Digit;
    if |data| == 1 {
      assert |Unpadded(data)| == 2 && Padded(data) == Unpadded(data) + "==";
    } else if |data| == 2 {
      assert |Unpadded(data)| == 3 && Padded(data) == Unpadded(data) + "=";
    }
  }

  lemma {:induction false} StripOne(s: string)
    ensures Stripped(s + "=") == Stripped(s)
  {
    assert (s + "=")[..|s|] == s;
  }

  lemma {:induction false} StripNothing(s: string)
    requires Plain(s)
    ensures Stripped(s) == s
  {
    if s != "" { PlainChars(s, |s| - 1); }
  }

  lemma {:induction false} StrippedIs(s: string, n: nat)
    requires Plain(s)
    ensures Stripped(s + Padding(n)) == s
  {
    hide Plain, Stripped;
    StripNothing(s);
    StripOne(s);
    StripOne(s + "=");
    StripOne(s + "==");
    assert s + "" == s && s + "==" == s + "=" + "=" && s + "===" == s + "==" + "=";
  }

  /** What is left after stripping: the encoding of every byte and no padding. */
  lemma {:induction false} B64Is(data: Bytes)
    ensures B64(data) == Unpadded(data)
  {
    UnpaddedPlain(data);
    PaddedIs(data);
    StrippedIs(Unpadded(data), |Unpadded(data)|);
  }

  /** One character of the alphabet taken off the front. */
  lemma {:induction false} ScanDigit(c: char, v: int, rest: string, pos: int, left: int)
    requires 0 <= pos < 4 && 0 <= left < (if pos == 0 then 1 else if pos == 1 then 64 else if pos == 2 then 16 else 4)
    requires Value(c) == Some(v)
    ensures Scan([c] + rest, pos, left, 0) ==
            if pos == 0 then Scan(rest, 1, v, 0)
            else if pos == 1 then Then(left * 4 + v / 16, Scan(rest, 2, v % 16, 0))
            else if pos == 2 then Then(left * 16 + v / 4, Scan(rest, 3, v % 4, 0))
            else Then(left * 64 + v, Scan(rest, 0, 0, 0))
  {
    assert ([c] + rest)[1..] == rest;
  }

  predicate Values(s: string, v: seq<int>) {
    |s| == |v| && forall i :: 0 <= i < |s| ==> 0 <= v[i] < 64 && Value(s[i]) == Some(v[i])
  }

  /** A whole group: four characters, three bytes. */
  lemma {:induction false} ScanGroup(s: string, v: seq<int>, rest: string)
    requires |s| == 4 && Values(s, v)
    ensures Scan(s + rest, 0, 0, 0) ==
            Then(v[0] * 4 + v[1] / 16,
                 Then(v[1] % 16 * 16 + v[2] / 4,
                      Then(v[2] % 4 * 64 + v[3], Scan(rest, 0, 0, 0))))
  {
    hide Scan, Value, Then;
    assert s + rest == [s[0]] + (s[1..] + rest);
    assert s[1..] + rest == [s[1]] + (s[2..] + rest);
    assert s[2..] + rest == [s[2]] + ([s[3]] + rest);
    ScanDigit(s[0], v[0], s[1..] + rest, 0, 0);
    ScanDigit(s[1], v[1], s[2..] + rest, 1, v[0]);
    ScanDigit(s[2], v[2], [s[3]] + rest, 2, v[1] % 16);
    ScanDigit(s[3], v[3], rest, 3, v[2] % 4);
  }

  lemma {:induction false} ScanPads(left: int)
    requires 0 <= left
    ensures left < 16 ==> Scan("==", 2, left, 0) == Some([])
    ensures left < 4 ==> Scan("=", 3, left, 0) == Some([])
    ensures left < 64 ==> Scan("===", 1, left, 0) == None
  {
    assert "==="[1..] == "==" && "=="[1..] == "=" && "="[1..] == "";
    if left < 16 { assert Scan("=", 2, left, 1) == Some([]); }
    if left < 64 {
      assert Scan("=", 1, left, 0) == None;
      assert Scan("==", 1, left, 0) == None;
    }
  }

  /** A last group of two characters with its padding. */
  lemma {:induction false} ScanTwo(s: string, v: seq<int>)
    requires |s| == 2 && Values(s, v)
    ensures Scan(s + "==", 0, 0, 0) == Some([v[0] * 4 + v[1] / 16])
  {
    hide Scan, Value;
    assert s + "==" == [s[0]] + ([s[1]] + "==");
    ScanDigit(s[0], v[0], [s[1]] + "==", 0, 0);
    ScanDigit(s[1], v[1], "==", 1, v[0]);
    ScanPads(v[1] % 16);
    assert [v[0] * 4 + v[1] / 16] + [] == [v[0] * 4 + v[1] / 16];
  }

  /** A last group of three. */
  lemma {:induction false} ScanThree(s: string, v: seq<int>)
    requires |s| == 3 && Values(s, v)
    ensures Scan(s + "=", 0, 0, 0) == Some([v[0] * 4 + v[1] / 16, v[1] % 16 * 16 + v[2] / 4])
  {
    hide Scan, Value;
    assert s + "=" == [s[0]] + (s[1..] + "=");
    assert s[1..] + "=" == [s[1]] + ([s[2]] + "=");
    ScanDigit(s[0], v[0], s[1..] + "=", 0, 0);
    ScanDigit(s[1], v[1], [s[2]] + "=", 1, v[0]);
    ScanDigit(s[2], v[2], "=", 2, v[1] % 16);
    ScanPads(v[2] % 4);
    var x, y := v[0] * 4 + v[1] / 16, v[1] % 16 * 16 + v[2] / 4;
    assert [x] + ([y] + []) == [x, y];
  }

  lemma DigitsValues(v: seq<int>)
    requires forall i :: 0 <= i < |v| ==> 0 <= v[i] < 64
    ensures Values(seq(|v|, i requires 0 <= i < |v| => Digit(v[i])), v)
  {
    forall i | 0 <= i < |v| ensures Value(Digit(v[i])) == Some(v[i]) { DigitValue(v[i]); }
  }

  lemma {:induction false} ScanPadded(data: Bytes)
    ensures Scan(Padded(data), 0, 0, 0) == Some(data)
  {
    if |data| == 0 {
      ScanNothing();
    } else if |data| == 1 {
      ScanPaddedOne(data);
    } else if |data| == 2 {
      ScanPaddedTwo(data);
    } else {
      ScanPadded(data[3..]);
      ScanPaddedGroup(data);
    }
  }

  lemma {:induction false} ScanPaddedOne(data: Bytes)
    requires |data| == 1
    ensures Scan(Padded(data), 0, 0, 0) == Some(data)
  {
    hide Digit, Value, Scan;
    var v := [data[0] / 4, data[0] % 4 * 16];
    DigitsValues(v);
    var s := [Digit(v[0]), Digit(v[1])];
    assert s == seq(|v|, i requires 0 <= i < |v| => Digit(v[i]));
    ScanTwo(s, v);
    assert Padded(data) == s + "==" && data == [data[0]];
  }

  lemma {:induction false} ScanPaddedTwo(data: Bytes)
    requires |data| == 2
    ensures Scan(Padded(data), 0, 0, 0) == Some(data)
  {
    hide Digit, Value, Scan;
    var v := [data[0] / 4, data[0] % 4 * 16 + data[1] / 16, data[1] % 16 * 4];
    DigitsValues(v);
    var s := [Digit(v[0]), Digit(v[1]), Digit(v[2])];
    assert s == seq(|v|, i requires 0 <= i < |v| => Digit(v[i]));
    ScanThree(s, v);
    assert Padded(data) == s + "=" && data == [data[0], data[1]];
  }

  lemma {:induction false} ScanPaddedGroup(data: Bytes)
    requires |data| >= 3 && Scan(Padded(data[3..]), 0, 0, 0) == Some(data[3..])
    ensures Scan(Padded(data), 0, 0, 0) == Some(data)
  {
    hide Digit, Value, Scan;
    var v := [data[0] / 4, data[0] % 4 * 16 + data[1] / 16, data[1] % 16 * 4 + data[2] / 64, data[2] % 64];
    DigitsValues(v);
    var s := [Digit(v[0]), Digit(v[1]), Digit(v[2]), Digit(v[3])];
    assert s == seq(|v|, i requires 0 <= i < |v| => Digit(v[i]));
    ScanGroup(s, v, Padded(data[3..]));
    GroupBytes(data[0], data[1], data[2]);
    assert data == [data[0]] + ([data[1]] + ([data[2]] + data[3..]));
  }

  /** Six bits at a time and eight bits at a time are the same bits. */
  lemma GroupBytes(x: Byte, y: Byte, z: Byte)
    ensures var a, b, c, d := x / 4, x % 4 * 16 + y / 16, y % 16 * 4 + z / 64, z % 64;
            a * 4 + b / 16 == x && b % 16 * 16 + c / 4 == y && c % 4 * 64 + d == z
  {}

  lemma {:induction false} PaddedAscii(data: Bytes)
    ensures Ascii(Padded(data))
  {
    UnpaddedPlain(data);
    PaddedIs(data);
    var s := Unpadded(data);
    forall i | 0 <= i < |s| ensures s[i] < 128 as char { PlainChars(s, i); }
  }

  /**
   For every byte string: decoding the stripped form after padding it again gives the bytes back, and the
   stripped form is made of letters, digits, `-` and `_` only, so it has no `.` and no `=`.
   */
  lemma RoundTrip(data: Bytes)
    ensures Unb64(B64(data)) == Some(data)
    ensures Plain(B64(data)) && '.' !in B64(data) && '=' !in B64(data) && Ascii(B64(data))
  {
    B64Is(data);
    UnpaddedPlain(data);
    PaddedIs(data);
    ScanPadded(data);
    PaddedAscii(data);
    var s := Unpadded(data);
    forall i | 0 <= i < |s| ensures s[i] < 128 as char && s[i] != '.' && s[i] != '=' { PlainChars(s, i); }
  }

  // ---- which texts decode ----

  function ValuesOf(s: string): seq<int>
    requires Plain(s)
  {
    seq(|s|, i requires 0 <= i < |s| => Value(s[i]).value)
  }

  lemma {:induction false} PlainScans(s: string)
    requires Plain(s)
    ensures Scan(s + Padding(|s|), 0, 0, 0).Some? <==> |s| % 4 != 1
  {
    if |s| < 4 {
      PlainTailScans(s);
    } else {
      var v, rest := ValuesOf(s), s[4..];
      assert Values(s[..4], v[..4]);
      assert |rest| % 4 == |s| % 4;
      PlainScans(rest);
      hide *;
      PaddingAgrees(s);
      GroupScans(s[..4], v[..4], rest + Padding(|rest|));
    }
  }

  /** A whole group neither helps nor hinders what follows it. */
  lemma {:induction false} GroupScans(s: string, v: seq<int>, rest: string)
    requires |s| == 4 && Values(s, v)
    ensures Scan(s + rest, 0, 0, 0).Some? <==> Scan(rest, 0, 0, 0).Some?
  {
    hide Scan, Value;
    ScanGroup(s, v, rest);
  }

  lemma {:induction false} PaddingJoin(group: string, rest: string)
    requires |group| == 4
    ensures (group + rest) + Padding(|group + rest|) == group + (rest + Padding(|rest|))
  {
    hide Padding;
    PaddingPeriod(|rest|);
    Regroup(group, rest, Padding(|rest|));
  }

  lemma {:induction false} PaddingAgrees(s: string)
    requires |s| >= 4
    ensures s + Padding(|s|) == s[..4] + (s[4..] + Padding(|s[4..]|))
  {
    hide Padding;
    assert s[..4] + s[4..] == s;
    PaddingJoin(s[..4], s[4..]);
  }

  lemma {:induction false} PlainTailScans(s: string)
    requires Plain(s) && |s| < 4
    ensures Scan(s + Padding(|s|), 0, 0, 0).Some? <==> |s| != 1
  {
    var v := ValuesOf(s);
    assert Values(s, v);
    hide Value, Scan, Plain;
    if |s| == 3 {
      ScanThree(s, v);
    } else if |s| == 2 {
      ScanTwo(s, v);
    } else if |s| == 1 {
      assert s + "===" == [s[0]] + "===";
      ScanDigit(s[0], v[0], "===", 0, 0);
      ScanPads(v[0]);
    } else {
      assert s + Padding(0) == "";
      ScanNothing();
    }
  }

  lemma ScanNothing()
    ensures Scan("", 0, 0, 0) == Some([])
  {}

  /** A text over the alphabet decodes exactly when its length can be that of an encoding. */
  lemma DecodesExactly(s: string)
    requires Plain(s)
    ensures Unb64(s).Some? <==> |s| % 4 != 1
  {
    PlainScans(s);
    forall i | 0 <= i < |s| ensures s[i] < 128 as char { PlainChars(s, i); }
  }

  // ---- storage tokens ----

  function FirstIndex(s: string, c: char): (i: nat)
    requires c in s
    ensures i < |s| && s[i] == c && c !in s[..i]
  {
    if s[0] == c then 0 else 1 + FirstIndex(s[1..], c)
  }

  lemma {:induction false} FirstIs(s: string, c: char, k: nat)
    requires k < |s| && s[k] == c && c !in s[..k]
    ensures FirstIndex(s, c) == k
  {
    if k > 0 {
      assert s[0] == s[..k][0];
      assert s[1..][..k - 1] == s[..k][1..];
      FirstIs(s[1..], c, k - 1);
    }
  }

  /** `token.split(".")`. */
  function Split(s: string): seq<string> {
    if '.' !in s then [s] else [s[..FirstIndex(s, '.')]] + Split(s[FirstIndex(s, '.') + 1..])
  }

  datatype TokenPayload = TokenPayload(user: int, filename: string, op: string, maxBytes: int, exp: int)

  datatype Verdict =
    | Accepted(payload: TokenPayload)
    | Malformed
    | BadSignature
    | MalformedPayload
    | UnknownOp
    | Expired

  type Mac = (int, Bytes) -> Bytes

  function MintToken(p: TokenPayload, secret: int, mac: Mac, dump: TokenPayload -> Bytes): string {
    var body := dump(p);
    B64(body) + "." + B64(mac(secret, body))
  }

  /** `now or int(time.time())`: zero counts as not given. */
  function EffectiveNow(now: Option<int>, clock: int): int {
    if now.Some? && now.value != 0 then now.value else clock
  }

  function VerifyToken(token: string, secret: int, now: Option<int>, clock: int, mac: Mac,
                       load: Bytes -> Option<TokenPayload>): Verdict
  {
    var parts := Split(token);
    if |parts| != 2 then Malformed
    else if Unb64(parts[0]).None? || Unb64(parts[1]).None? then Malformed
    else
      var body, sig := Unb64(parts[0]).value, Unb64(parts[1]).value;
      if mac(secret, body) != sig then BadSignature
      else match load(body)
        case None => MalformedPayload
        case Some(p) =>
          if p.op != "upload" && p.op != "download" then UnknownOp
          else if EffectiveNow(now, clock) >= p.exp then Expired
          else Accepted(p)
  }

  lemma {:induction false} CutAtDot(a: string, b: string)
    requires '.' !in a
    ensures '.' in a + "." + b && FirstIndex(a + "." + b, '.') == |a|
    ensures (a + "." + b)[..|a|] == a && (a + "." + b)[|a| + 1..] == b
  {
    var s := a + "." + b;
    assert s[|a|] == '.';
    assert s[..|a|] == a;
    FirstIs(s, '.', |a|);
  }

  lemma {:induction false} SplitTwo(a: string, b: string)
    requires '.' !in a && '.' !in b
    ensures Split(a + "." + b) == [a, b]
  {
    CutAtDot(a, b);
  }

  /**
   What verifying a minted token gives, for every payload, every pair of secrets and every time: the payload
   itself when the signatures agree, the operation is known and the time is before the expiry, and otherwise
   the first of these three complaints.
   */
  lemma VerifyMinted(p: TokenPayload, minted: int, checked: int, now: Option<int>, clock: int, mac: Mac,
                                        dump: TokenPayload -> Bytes, load: Bytes -> Option<TokenPayload>)
    requires load(dump(p)) == Some(p)
    ensures VerifyToken(MintToken(p, minted, mac, dump), checked, now, clock, mac, load) ==
            if mac(checked, dump(p)) != mac(minted, dump(p)) then BadSignature
            else if p.op !in {"upload", "download"} then UnknownOp
            else if EffectiveNow(now, clock) >= p.exp then Expired
            else Accepted(p)
  {
    var body := dump(p);
    RoundTrip(body);
    RoundTrip(mac(minted, body));
    SplitTwo(B64(body), B64(mac(minted, body)));
    hide Split, B64, Unb64;
  }

  /** A caller who passes a time gets it used, except that zero gives the answer of the wall clock. */
  lemma GivenTimeCounts(p: TokenPayload, secret: int, now: int, clock: int, mac: Mac,
                                           dump: TokenPayload -> Bytes, load: Bytes -> Option<TokenPayload>)
    requires load(dump(p)) == Some(p) && p.op in {"upload", "download"}
    ensures VerifyToken(MintToken(p, secret, mac, dump), secret, Some(now), clock, mac, load) ==
              (if now >= p.exp then Expired else Accepted(p))
            <==> now != 0 || (clock >= p.exp <==> 0 >= p.exp)
  {
    hide VerifyToken, MintToken;
    VerifyMinted(p, secret, secret, Some(now), clock, mac, dump, load);
  }

  /** Expired at five, checked as of zero at nine o'clock: the token is refused, although zero is before five. */
  lemma TimeZeroIsIgnored(p: TokenPayload, secret: int, mac: Mac,
                                             dump: TokenPayload -> Bytes, load: Bytes -> Option<TokenPayload>)
    requires load(dump(p)) == Some(p) && p.op == "upload" && p.exp == 5
    ensures VerifyToken(MintToken(p, secret, mac, dump), secret, Some(0), 9, mac, load) == Expired
    ensures VerifyToken(MintToken(p, secret, mac, dump), secret, Some(1), 9, mac, load) == Accepted(p)
  {
    hide VerifyToken, MintToken;
    VerifyMinted(p, secret, secret, Some(0), 9, mac, dump, load);
    VerifyMinted(p, secret, secret, Some(1), 9, mac, dump, load);
  }

  // ---- session tokens ----

  datatype Session = Session(user: int, issuedAt: int, expiresAt: int)

  /** A session, None, or an exception that escapes the function. */
  datatype SessionResult = Valid(session: Session) | Rejected | Raised

  function AsciiBytes(s: string): Bytes
    requires Ascii(s)
  {
    seq(|s|, i requires 0 <= i < |s| => s[i] as int)
  }

  /** What `json.loads` makes of a payload; Python reads `1e999` and `Infinity` as infinite. */
  datatype Json =
    | Null
    | Bool(b: bool)
    | Int(n: int)
    | Fraction(r: real)
    | Infinite
    | NotANumber
    | Text(s: string)
    | List
    | Object(fields: map<string, Json>)

  /** Nesting beyond the interpreter's limit raises an error of its own kind. */
  datatype Parse = Parsed(json: Json) | Invalid | TooDeep

  /** JSON, UUID and number texts are read by library code. */
  datatype Codec = Codec(json: Bytes -> Parse, uuid: string -> Option<int>, number: string -> Option<int>)

  /** A conversion: its value, one of the exceptions that `verify_session_token` catches, or another. */
  datatype Conversion = Got(value: int) | Caught | Escaped

  function Field(fields: map<string, Json>, key: string): Option<Json> {
    if key in fields then Some(fields[key]) else None
  }

  function OfText(n: Option<int>): Conversion {
    if n.Some? then Got(n.value) else Caught
  }

  /** `UUID(payload["sub"])`: a value that is neither a text nor null has no `replace`. */
  function AsUuid(codec: Codec, j: Option<Json>): Conversion {
    match j
    case None => Caught
    case Some(Null) => Caught
    case Some(Text(s)) => OfText(codec.uuid(s))
    case Some(_) => Escaped
  }

  /** `int(...)`: an infinite number overflows. */
  function AsInt(codec: Codec, j: Option<Json>): Conversion {
    match j
    case Some(Int(n)) => Got(n)
    case Some(Bool(b)) => Got(if b then 1 else 0)
    case Some(Fraction(r)) => Got(if r >= 0.0 then r.Floor else -((-r).Floor))
    case Some(Infinite) => Escaped
    case Some(Text(s)) => OfText(codec.number(s))
    case _ => Caught
  }

  datatype Loaded = Loaded(session: Session) | Refused | Escapes

  /** The payload in the order that the source reads it: subject, expiry, time of issue. */
  function Load(codec: Codec, payload: Bytes): Loaded {
    match codec.json(payload)
    case TooDeep => Escapes
    case Parsed(Object(fields)) =>
      var sub, exp, iat := AsUuid(codec, Field(fields, "sub")), AsInt(codec, Field(fields, "exp")), AsInt(codec, Field(fields, "iat"));
      if sub.Escaped? then Escapes
      else if sub.Caught? then Refused
      else if exp.Escaped? then Escapes
      else if exp.Caught? then Refused
      else if iat.Escaped? then Escapes
      else if iat.Caught? then Refused
      else Loaded(Session(sub.value, iat.value, exp.value))
    case _ => Refused
  }

  /** A payload with its signature, as minted. */
  function SignedToken(payload: Bytes, secret: int, mac: Mac): string {
    RoundTrip(payload);
    B64(payload) + "." + B64(mac(secret, AsciiBytes(B64(payload))))
  }

  function MintSession(user: int, ttl: int, now: int, secret: int, mac: Mac, dump: Session -> Bytes): string {
    SignedToken(dump(Session(user, now, now + ttl)), secret, mac)
  }

  function VerifySession(token: string, secret: int, clock: int, mac: Mac, codec: Codec): SessionResult {
    if '.' !in token then Rejected
    else
      var i := FirstIndex(token, '.');
      var body, sig := token[..i], token[i + 1..];
      if !Ascii(body) then Raised
      else if Unb64(sig).None? then Rejected
      else if mac(secret, AsciiBytes(body)) != Unb64(sig).value then Rejected
      else if Unb64(body).None? then Rejected
      else match Load(codec, Unb64(body).value)
        case Escapes => Raised
        case Refused => Rejected
        case Loaded(session) => if session.expiresAt <= clock then Rejected else Valid(session)
  }

  lemma VerifySigned(payload: Bytes, secret: int, clock: int, mac: Mac, codec: Codec)
    ensures VerifySession(SignedToken(payload, secret, mac), secret, clock, mac, codec) ==
            match Load(codec, payload)
            case Escapes => Raised
            case Refused => Rejected
            case Loaded(session) => if session.expiresAt <= clock then Rejected else Valid(session)
  {
    RoundTrip(payload);
    var body := B64(payload);
    var sig := mac(secret, AsciiBytes(body));
    RoundTrip(sig);
    CutAtDot(body, B64(sig));
    hide B64, Unb64, Load;
  }

  /** The payload that is minted: the subject as text, the times as whole numbers. */
  predicate Dumps(codec: Codec, dump: Session -> Bytes, session: Session) {
    match codec.json(dump(session))
    case Parsed(Object(fields)) =>
      && "sub" in fields && fields["sub"].Text? && codec.uuid(fields["sub"].s) == Some(session.user)
      && Field(fields, "iat") == Some(Int(session.issuedAt)) && Field(fields, "exp") == Some(Int(session.expiresAt))
    case _ => false
  }

  /** A minted session is valid, with its user and times, exactly until its time to live is over. */
  lemma SessionRoundTrip(user: int, ttl: int, now: int, clock: int, secret: int, mac: Mac,
                                            dump: Session -> Bytes, codec: Codec)
    requires Dumps(codec, dump, Session(user, now, now + ttl))
    ensures VerifySession(MintSession(user, ttl, now, secret, mac, dump), secret, clock, mac, codec) ==
            if clock < now + ttl then Valid(Session(user, now, now + ttl)) else Rejected
  {
    hide VerifySession, SignedToken;
    VerifySigned(dump(Session(user, now, now + ttl)), secret, clock, mac, codec);
  }

  /**
   A payload that raises something else than the three exceptions caught: nested too deeply, with a subject
   that is neither a text nor null, or with a good subject and an infinite time that is reached.
   */
  predicate EscapingPayload(codec: Codec, payload: Bytes) {
    match codec.json(payload)
    case TooDeep => true
    case Parsed(Object(fields)) =>
      "sub" in fields &&
      (match fields["sub"]
       case Null => false
       case Text(s) =>
         && codec.uuid(s).Some?
         && "exp" in fields
         && (fields["exp"].Infinite? ||
             (AsInt(codec, Some(fields["exp"])).Got? && "iat" in fields && fields["iat"].Infinite?))
       case _ => true)
    case _ => false
  }

  lemma EscapesExactly(codec: Codec, payload: Bytes)
    ensures Load(codec, payload).Escapes? <==> EscapingPayload(codec, payload)
  {
    match codec.json(payload)
    case Parsed(Object(fields)) =>
      if "sub" in fields { assert Field(fields, "sub") == Some(fields["sub"]); }
      if "exp" in fields { assert Field(fields, "exp") == Some(fields["exp"]); }
      if "iat" in fields { assert Field(fields, "iat") == Some(fields["iat"]); }
    case _ =>
  }

  predicate NonAsciiBody(token: string) {
    exists i, k :: 0 <= i < k < |token| && token[k] == '.' && token[i] >= 128 as char && '.' !in token[..k]
  }

  /** `token` is a body and, after the first dot, a text that decodes to the body's signature; the body decodes to `payload`. */
  predicate Signs(token: string, body: string, sig: string, payload: Bytes, secret: int, mac: Mac) {
    && token == body + "." + sig && '.' !in body && Ascii(body)
    && Unb64(sig) == Some(mac(secret, AsciiBytes(body))) && Unb64(body) == Some(payload)
  }

  /**
   The promise is None on any failure. It is broken exactly by a token with a non-ASCII character before its
   first dot, whose encoding is outside the guarded part, and by a correctly signed token whose payload
   raises an exception that is not caught.
   */
  lemma RaisesExactly(token: string, secret: int, clock: int, mac: Mac, codec: Codec)
    ensures VerifySession(token, secret, clock, mac, codec).Raised? <==>
            || NonAsciiBody(token)
            || exists body, sig, payload :: Signs(token, body, sig, payload, secret, mac) && EscapingPayload(codec, payload)
  {
    hide VerifySession, EscapingPayload, Signs, NonAsciiBody;
    NonAsciiRaises(token, secret, clock, mac, codec);
    if VerifySession(token, secret, clock, mac, codec).Raised? && !NonAsciiBody(token) {
      var body, sig, payload := RaisedIsSigned(token, secret, clock, mac, codec);
    }
    if body, sig, payload :| Signs(token, body, sig, payload, secret, mac) && EscapingPayload(codec, payload) {
      SignedRaises(token, body, sig, payload, secret, clock, mac, codec);
    }
  }

  lemma NonAsciiRaises(token: string, secret: int, clock: int, mac: Mac, codec: Codec)
    ensures NonAsciiBody(token) ==> VerifySession(token, secret, clock, mac, codec).Raised?
  {
    NonAsciiBodyIs(token);
    hide NonAsciiBody, Unb64, Load;
  }

  lemma RaisedIsSigned(token: string, secret: int, clock: int, mac: Mac, codec: Codec)
    returns (body: string, sig: string, payload: Bytes)
    requires VerifySession(token, secret, clock, mac, codec).Raised? && !NonAsciiBody(token)
    ensures Signs(token, body, sig, payload, secret, mac) && EscapingPayload(codec, payload)
  {
    NonAsciiBodyIs(token);
    hide NonAsciiBody, Unb64, EscapingPayload, Load;
    var dot := FirstIndex(token, '.');
    body, sig := token[..dot], token[dot + 1..];
    payload := Unb64(body).value;
    assert token == body + "." + sig;
    EscapesExactly(codec, payload);
  }

  lemma SignedRaises(token: string, body: string, sig: string, payload: Bytes, secret: int, clock: int, mac: Mac, codec: Codec)
    requires Signs(token, body, sig, payload, secret, mac) && EscapingPayload(codec, payload)
    ensures VerifySession(token, secret, clock, mac, codec).Raised?
  {
    hide Unb64, EscapingPayload, Load;
    CutAtDot(body, sig);
    EscapesExactly(codec, payload);
  }

  lemma {:induction false} NonAsciiBodyIs(token: string)
    ensures NonAsciiBody(token) <==> '.' in token && !Ascii(token[..FirstIndex(token, '.')])
  {
    if '.' in token {
      var dot := FirstIndex(token, '.');
      if i, k :| 0 <= i < k < |token| && token[k] == '.' && token[i] >= 128 as char && '.' !in token[..k] {
        FirstIs(token, '.', k);
        assert token[..dot][i] == token[i];
      }
      if !Ascii(token[..dot]) {
        var i :| 0 <= i < dot && token[..dot][i] >= 128 as char;
        assert token[i] >= 128 as char;
      }
    } else {
      forall k | 0 <= k < |token| ensures token[k] != '.' {}
    }
  }

  lemma NonAsciiSessionRaises(secret: int, clock: int, mac: Mac, codec: Codec)
    ensures VerifySession([200 as char, '.', 'x'], secret, clock, mac, codec) == Raised
  {
    var token := [200 as char, '.', 'x'];
    assert token[0] >= 128 as char && token[1] == '.' && '.' !in token[..1];
    NonAsciiBodyIs(token);
  }

  /** A signed `{"sub":1,"iat":0,"exp":9}`: a number has no `replace`. */
  lemma NumericSubjectRaises(payload: Bytes, secret: int, clock: int, mac: Mac, codec: Codec)
    requires codec.json(payload) == Parsed(Object(map["sub" := Int(1), "iat" := Int(0), "exp" := Int(9)]))
    ensures VerifySession(SignedToken(payload, secret, mac), secret, clock, mac, codec) == Raised
  {
    hide VerifySession, SignedToken;
    VerifySigned(payload, secret, clock, mac, codec);
  }

  /** A signed `{"sub":user,"iat":0,"exp":1e999}`: the expiry overflows. */
  lemma InfiniteExpiryRaises(user: string, payload: Bytes, secret: int, clock: int, mac: Mac, codec: Codec)
    requires codec.uuid(user).Some?
    requires codec.json(payload) == Parsed(Object(map["sub" := Text(user), "iat" := Int(0), "exp" := Infinite]))
    ensures VerifySession(SignedToken(payload, secret, mac), secret, clock, mac, codec) == Raised
  {
    hide VerifySession, SignedToken;
    VerifySigned(payload, secret, clock, mac, codec);
  }
}
