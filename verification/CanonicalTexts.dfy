/**
 Canonical texts against what reads them and what spells them out: a reader of JSON strings
 (section 7 of RFC 8259), decimal digits, and the texts that the cassette format lists
 for gRPC streams (spec/cassette-format-streaming.md).
 */
module CanonicalTexts {
  import opened Prelude
  import opened StreamModel
  import opened CanonicalJson
  import opened Session
  import Probe
  import StatusText
  import R = Recording

  // ---------------------------------------------------------------------------
  // Reading a JSON string
  // ---------------------------------------------------------------------------

  /** The character that a one-letter escape stands for. */
  function ShortEscape(b: byte): Option<int> {
    if b == 0x22 || b == 0x5C || b == 0x2F then Some(b)
    else if b == 'b' as int then Some(0x08)
    else if b == 'f' as int then Some(0x0C)
    else if b == 'n' as int then Some(0x0A)
    else if b == 'r' as int then Some(0x0D)
    else if b == 't' as int then Some(0x09)
    else None
  }

  function HexDigit(b: byte): Option<int> {
    if '0' as int <= b <= '9' as int then Some(b - '0' as int)
    else if 'a' as int <= b <= 'f' as int then Some(b - 'a' as int + 10)
    else if 'A' as int <= b <= 'F' as int then Some(b - 'A' as int + 10)
    else None
  }

  function HexDigits(b: Bytes): Option<int> {
    if b == [] then Some(0)
    else
      var front, last := HexDigits(b[..|b| - 1]), HexDigit(b[|b| - 1]);
      if front.Some? && last.Some? then Some(front.value * 16 + last.value) else None
  }

  /** The length of the UTF-8 form that a byte starts. */
  function FormLength(b: byte): nat {
    if b < 0x80 then 1 else if b < 0xE0 then 2 else if b < 0xF0 then 3 else 4
  }

  /** One character at the front of a string body: its code point, and how many bytes it takes. */
  function ReadChar(b: Bytes): Option<(int, nat)>
    requires b != []
  {
    if b[0] != 0x5C then
      var n := FormLength(b[0]);
      if n <= |b| then Some((CodePoint(b[..n]), n)) else None
    else if |b| < 2 then None
    else if b[1] == 'u' as int then
      if |b| >= 6 && HexDigits(b[2..6]).Some? then Some((HexDigits(b[2..6]).value, 6)) else None
    else if ShortEscape(b[1]).Some? then Some((ShortEscape(b[1]).value, 2))
    else None
  }

  /** The code points up to the closing quote, and what follows it. */
  function ReadString(b: Bytes): Option<(seq<int>, Bytes)>
    decreases |b|
  {
    if b == [] then None
    else if b[0] == 0x22 then Some(([], b[1..]))
    else
      var c := ReadChar(b);
      if c.None? || c.value.1 == 0 then None
      else
        var rest := ReadString(b[c.value.1..]);
        if rest.None? then None else Some(([c.value.0] + rest.value.0, rest.value.1))
  }

  lemma FourDigits(a: byte, b: byte, c: byte, d: byte)
    requires HexDigit(a).Some? && HexDigit(b).Some? && HexDigit(c).Some? && HexDigit(d).Some?
    ensures HexDigits([a, b, c, d])
            == Some(((HexDigit(a).value * 16 + HexDigit(b).value) * 16 + HexDigit(c).value) * 16 + HexDigit(d).value)
  {
    hide HexDigit;
    var s := [a, b, c, d];
    assert s[..3] == [a, b, c] && [a, b, c][..2] == [a, b] && [a, b][..1] == [a] && [a][..0] == [];
    assert HexDigits([a]) == Some(HexDigit(a).value);
    assert HexDigits([a, b]) == Some(HexDigit(a).value * 16 + HexDigit(b).value);
    assert HexDigits([a, b, c]) == Some((HexDigit(a).value * 16 + HexDigit(b).value) * 16 + HexDigit(c).value);
  }

  lemma LowerHexRead(d: nat)
    requires d < 16
    ensures HexDigit(LowerHex(d)) == Some(d)
  {
  }

  lemma LowerHexOfZero()
    ensures LowerHex(0) == 0x30
  {
  }

  lemma LongEscapeIsRead(c: char, rest: Bytes)
    requires EscapeChar(c)[0] == BACKSLASH && |EscapeChar(c)| == 6
    ensures ReadChar(EscapeChar(c) + rest) == Some((c as int, 6))
  {
    hide HexDigits, HexDigit, LowerHex;
    var v, b := c as int, EscapeChar(c) + rest;
    LowerHexRead(v / 16);
    LowerHexRead(v % 16);
    LowerHexRead(0);
    LowerHexOfZero();
    EscapeShape(c);
    assert EscapeChar(c) == [BACKSLASH, 0x75, 0x30, 0x30, LowerHex(v / 16), LowerHex(v % 16)];
    FourDigits(0x30, 0x30, LowerHex(v / 16), LowerHex(v % 16));
    assert b[2..6] == [0x30, 0x30, LowerHex(v / 16), LowerHex(v % 16)];
  }

  lemma ShortEscapeIsRead(c: char, rest: Bytes)
    requires EscapeChar(c)[0] == BACKSLASH && |EscapeChar(c)| == 2
    ensures ReadChar(EscapeChar(c) + rest) == Some((c as int, 2))
  {
    hide HexDigits, LowerHex, Utf8, CodePoint;
    EscapeShape(c);
    var b := EscapeChar(c) + rest;
    assert b[0] == EscapeChar(c)[0] && b[1] == EscapeChar(c)[1];
  }

  lemma PlainCharIsRead(c: char, rest: Bytes)
    requires EscapeChar(c)[0] != BACKSLASH
    ensures ReadChar(EscapeChar(c) + rest) == Some((c as int, |EscapeChar(c)|))
  {
    hide EscapeChar, Utf8, CodePoint;
    EscapeShape(c);
    Utf8Ranges(c);
    Utf8Decodes(c);
    var u := Utf8(c);
    assert (u + rest)[..|u|] == u && (u + rest)[0] == u[0];
  }

  lemma CharIsRead(c: char, rest: Bytes)
    ensures ReadChar(EscapeChar(c) + rest) == Some((c as int, |EscapeChar(c)|))
    ensures EscapeChar(c)[0] != QUOTE
  {
    hide EscapeChar, ReadChar;
    EscapeShape(c);
    if EscapeChar(c)[0] != BACKSLASH {
      PlainCharIsRead(c, rest);
    } else if |EscapeChar(c)| == 6 {
      LongEscapeIsRead(c, rest);
    } else {
      ShortEscapeIsRead(c, rest);
    }
  }

  function CodePoints(s: string): seq<int> {
    seq(|s|, i requires 0 <= i < |s| => s[i] as int)
  }

  /** Any JSON reader gets the string back that was escaped, and what follows its quote. */
  lemma {:induction false} EscapedIsRead(s: string, rest: Bytes)
    ensures ReadString(Escape(s) + [QUOTE] + rest) == Some((CodePoints(s), rest))
  {
    hide EscapeChar, ReadChar;
    var whole := Escape(s) + [QUOTE] + rest;
    if s == [] {
      assert whole == [QUOTE] + rest;
    } else {
      var e, later := EscapeChar(s[0]), Escape(s[1..]) + [QUOTE] + rest;
      assert whole == e + later;
      CharIsRead(s[0], later);
      assert (e + later)[|e|..] == later;
      EscapedIsRead(s[1..], rest);
      assert CodePoints(s) == [s[0] as int] + CodePoints(s[1..]);
    }
  }

  /**
   No other form would do: only the quote, the backslash and the controls are escaped, a
   control with a letter of its own by that letter, and any other by lower-case digits.
   */
  lemma EscapedAs(c: char)
    ensures var v, e := c as int, EscapeChar(c);
            if v >= 0x20 && c != '"' && c != '\\' then
              e == Utf8(c)
            else if exists letter: byte :: ShortEscape(letter) == Some(v) then
              |e| == 2 && e[0] == 0x5C && ShortEscape(e[1]) == Some(v)
            else
              e == [0x5C, 'u' as int, '0' as int, '0' as int, StatusText.HEX_LOWER[v / 16] as int, StatusText.HEX_LOWER[v % 16] as int]
  {
    hide Utf8;
    var v, e := c as int, EscapeChar(c);
    if v < 0x20 {
      StatusText.HexLetters(v / 16);
      StatusText.HexLetters(v % 16);
    }
    if c == '"' || c == '\\' || v in {0x08, 0x0C, 0x0A, 0x0D, 0x09} {
      assert ShortEscape(e[1]) == Some(v);
    }
  }

  // ---------------------------------------------------------------------------
  // Numbers and plain texts
  // ---------------------------------------------------------------------------

  lemma {:induction false} Utf8AllConcat(a: string, b: string)
    ensures Utf8All(a + b) == Utf8All(a) + Utf8All(b)
  {
    hide Utf8;
    if a == [] {
      assert a + b == b;
    } else {
      assert (a + b)[1..] == a[1..] + b;
      Utf8AllConcat(a[1..], b);
    }
  }

  lemma OneAscii(c: char)
    requires c as int < 0x80
    ensures Utf8All([c]) == [c as int]
  {
    assert [c][1..] == [];
    assert Utf8All([]) == [];
  }

  lemma {:induction false} DigitsAreDecimal(n: nat)
    ensures Digits(n) == Utf8All(Decimal(n))
  {
    hide Utf8All;
    var last := (0x30 + n % 10) as char;
    OneAscii(last);
    if n >= 10 {
      DigitsAreDecimal(n / 10);
      Utf8AllConcat(Decimal(n / 10), [last]);
    }
  }

  // ---------------------------------------------------------------------------
  // The texts of gRPC opens, as the cassette format spells them out
  // ---------------------------------------------------------------------------

  ghost predicate InOrder(keys: seq<string>) {
    forall i, j :: 0 <= i < j < |keys| ==> keys[i] != keys[j] && KeyLeq(keys[i], keys[j])
  }

  /** A listing in order is the sorted one. */
  lemma {:induction false} SortedAs(keys: set<string>, listed: seq<string>)
    requires InOrder(listed) && forall k :: k in keys <==> k in listed
    ensures SortedKeys(keys) == listed
    decreases |listed|
  {
    hide SortedKeys, KeyLeq;
    if listed == [] {
      assert keys == {};
      NoKeys();
    } else {
      var k := listed[0];
      SelfLeq(k);
      assert IsLeast(k, keys);
      SortedKeysStep(k, keys);
      SortedAs(keys - {k}, listed[1..]);
    }
  }

  lemma SelfLeq(k: string)
    ensures KeyLeq(k, k)
  {
    LexOrder(Utf8All(k), Utf8All(k), []);
  }

  /** Keys that start with the same ASCII characters are ordered by the next. */
  lemma {:induction false} KeysOrdered(a: string, b: string, i: nat)
    requires i < |a| && i < |b| && a[..i] == b[..i] && a[i] as int < b[i] as int < 0x80
    requires forall j :: 0 <= j < i ==> a[j] as int < 0x80
    ensures LexLeq(Utf8All(a), Utf8All(b)) && a != b
    decreases i
  {
    hide Utf8All;
    assert i > 0 ==> a[0] == a[..i][0] == b[..i][0] == b[0];
    AsciiFirst(a);
    AsciiFirst(b);
    if i > 0 {
      assert a[1..][..i - 1] == a[..i][1..] == b[..i][1..] == b[1..][..i - 1];
      KeysOrdered(a[1..], b[1..], i - 1);
    }
  }

  lemma OpenKeysInOrder()
    ensures InOrder(["method", "n", "service", "stream"]) && InOrder(["method", "msg_hash", "service", "stream"])
  {
    hide LexLeq, Utf8All;
    KeysOrdered("method", "n", 0);
    KeysOrdered("method", "msg_hash", 1);
    KeysOrdered("method", "service", 0);
    KeysOrdered("method", "stream", 0);
    KeysOrdered("n", "service", 0);
    KeysOrdered("n", "stream", 0);
    KeysOrdered("msg_hash", "service", 0);
    KeysOrdered("msg_hash", "stream", 0);
    KeysOrdered("service", "stream", 1);
  }

  lemma FourEntries(m: Inputs, a: string, b: string, c: string, d: string)
    requires m.Keys == {a, b, c, d} && InOrder([a, b, c, d])
    ensures Entries(m) == [Entry(a, m[a]), Entry(b, m[b]), Entry(c, m[c]), Entry(d, m[d])]
  {
    hide SortedKeys, Entries, KeyLeq;
    SortedAs(m.Keys, [a, b, c, d]);
    EntryAt(m, 0);
    EntryAt(m, 1);
    EntryAt(m, 2);
    EntryAt(m, 3);
  }

  lemma FourTexts(m: Inputs, p: Entry, q: Entry, r: Entry, s: Entry)
    requires Entries(m) == [p, q, r, s]
    ensures ObjectText(m)
            == [OPEN_BRACE] + (EntryText(p) + [COMMA] + (EntryText(q) + [COMMA] + (EntryText(r) + [COMMA] + EntryText(s)))) + [CLOSE_BRACE]
  {
    hide EntryText, Entries, Joined, EntryTexts;
    ThreeTexts(q, r, s);
    JoinedThree(EntryText(q), EntryText(r), EntryText(s));
    assert [p, q, r, s][1..] == [q, r, s];
    TextsCons([p, q, r, s]);
    JoinedCons(EntryText(p), EntryTexts([q, r, s]));
  }

  lemma TextsCons(es: seq<Entry>)
    requires es != []
    ensures EntryTexts(es) == [EntryText(es[0])] + EntryTexts(es[1..])
  {
  }

  lemma JoinedCons(x: Bytes, rest: seq<Bytes>)
    requires rest != []
    ensures Joined([x] + rest) == x + [COMMA] + Joined(rest)
  {
    assert ([x] + rest)[1..] == rest;
  }

  /** A key behind punctuation. */
  lemma KeyText(before: string, key: string)
    requires forall i :: 0 <= i < |key| ==> 0x20 <= key[i] as int < 0x7F && key[i] != '"' && key[i] != '\\'
    ensures Utf8All(before + "\"" + key + "\":") == Utf8All(before) + JsonString(key) + [COLON]
  {
    hide Utf8All, Escape;
    PlainEscape(key);
    OneAscii('"');
    OneAscii(':');
    assert "\":" == "\"" + ":";
    Utf8AllConcat("\"", ":");
    Utf8AllConcat(before, "\"");
    Utf8AllConcat(before + "\"", key);
    Utf8AllConcat(before + "\"" + key, "\":");
  }

  lemma KeyTexts()
    ensures Utf8All("{\"method\":") == [OPEN_BRACE] + JsonString("method") + [COLON]
    ensures Utf8All(",\"n\":") == [COMMA] + JsonString("n") + [COLON]
    ensures Utf8All(",\"msg_hash\":") == [COMMA] + JsonString("msg_hash") + [COLON]
    ensures Utf8All(",\"service\":") == [COMMA] + JsonString("service") + [COLON]
    ensures Utf8All(",\"stream\":") == [COMMA] + JsonString("stream") + [COLON]
  {
    hide Utf8All, JsonString;
    OneAscii('{');
    OneAscii(',');
    KeyText("{", "method");
    KeyText(",", "n");
    KeyText(",", "msg_hash");
    KeyText(",", "service");
    KeyText(",", "stream");
    assert "{\"method\":" == "{" + "\"" + "method" + "\":";
    assert ",\"n\":" == "," + "\"" + "n" + "\":";
    assert ",\"msg_hash\":" == "," + "\"" + "msg_hash" + "\":";
    assert ",\"service\":" == "," + "\"" + "service" + "\":";
    assert ",\"stream\":" == "," + "\"" + "stream" + "\":";
  }

  lemma TypeText(typ: string)
    requires ValidType(typ)
    ensures JsonString(typ) == Utf8All("\"" + typ + "\"")
  {
    hide Utf8All;
    PlainEscape(typ);
    OneAscii('"');
    Utf8AllConcat("\"", typ);
    Utf8AllConcat("\"" + typ, "\"");
  }

  lemma Regrouped(o: Bytes, p: Bytes, c: Bytes, q: Bytes, d: Bytes, r: Bytes, e: Bytes, s: Bytes, z: Bytes)
    ensures o + (p + c + (q + d + (r + e + s))) + z == o + p + c + q + d + r + e + s + z
  {
  }

  /** Four fields, of which the last is the stream type, spelled out. */
  lemma SpelledOut(m: Inputs, second: string, value: Value, service: string, method': string, typ: string)
    requires ValidType(typ) && (second == "n" || second == "msg_hash")
    requires m == map["method" := Text(method'), second := value, "service" := Text(service), "stream" := Text(typ)]
    ensures ObjectText(m) == Utf8All("{\"method\":") + JsonString(method') + Utf8All(",\"" + second + "\":") + JsonValue(value)
                             + Utf8All(",\"service\":") + JsonString(service)
                             + Utf8All(",\"stream\":") + Utf8All("\"" + typ + "\"") + Utf8All("}")
  {
    hide Utf8All, JsonString, JsonValue, Entries, InOrder;
    OpenKeysInOrder();
    KeyTexts();
    TypeText(typ);
    OneAscii('}');
    FourKeys(m, second, value, service, method', typ);
    FourEntries(m, "method", second, "service", "stream");
    FourTexts(m, Entry("method", m["method"]), Entry(second, value), Entry("service", m["service"]), Entry("stream", m["stream"]));
    SecondKey(second);
    TextsOf(method', value, service, typ);
    Assembled(JsonString("method"), JsonString(method'), JsonString(second), JsonValue(value), JsonString("service"), JsonString(service),
              JsonString("stream"), JsonString(typ));
  }

  lemma FourKeys(m: Inputs, second: string, value: Value, service: string, method': string, typ: string)
    requires second == "n" || second == "msg_hash"
    requires m == map["method" := Text(method'), second := value, "service" := Text(service), "stream" := Text(typ)]
    ensures m.Keys == {"method", second, "service", "stream"}
    ensures m["method"] == Text(method') && m[second] == value && m["service"] == Text(service) && m["stream"] == Text(typ)
  {
    assert "method"[0] == 'm' && "method"[1] == 'e' && "msg_hash"[1] == 's' && "msg_hash"[0] == 'm';
    assert "service"[0] == 's' && "service"[1] == 'e' && "stream"[1] == 't' && "stream"[0] == 's' && "n"[0] == 'n';
  }

  lemma SecondKey(second: string)
    requires second == "n" || second == "msg_hash"
    ensures ",\"" + second + "\":" == if second == "n" then ",\"n\":" else ",\"msg_hash\":"
  {
  }

  lemma TextsOf(method': string, value: Value, service: string, typ: string)
    ensures JsonValue(Text(method')) == JsonString(method') && JsonValue(Text(service)) == JsonString(service)
    ensures JsonValue(Text(typ)) == JsonString(typ)
  {
  }

  lemma Assembled(k1: Bytes, v1: Bytes, k2: Bytes, v2: Bytes, k3: Bytes, v3: Bytes, k4: Bytes, v4: Bytes)
    ensures var o, c, m, z := [OPEN_BRACE], [COLON], [COMMA], [CLOSE_BRACE];
            o + ((k1 + c + v1) + m + ((k2 + c + v2) + m + ((k3 + c + v3) + m + (k4 + c + v4)))) + z
            == (o + k1 + c) + v1 + (m + k2 + c) + v2 + (m + k3 + c) + v3 + (m + k4 + c) + v4 + z
  {
  }

  /** `{"method":...,"n":...,"service":...,"stream":"client"}`, or "bidi" */
  function CountedForm(typ: string, service: string, method': string, n: nat): Bytes {
    Utf8All("{\"method\":") + JsonString(method') + Utf8All(",\"n\":") + Utf8All(Decimal(n))
    + Utf8All(",\"service\":") + JsonString(service)
    + Utf8All(",\"stream\":") + Utf8All("\"" + typ + "\"") + Utf8All("}")
  }

  /** `{"method":...,"msg_hash":...,"service":...,"stream":"server"}` */
  function HashedForm(service: string, method': string, msgHash: string): Bytes {
    Utf8All("{\"method\":") + JsonString(method') + Utf8All(",\"msg_hash\":") + JsonString(msgHash)
    + Utf8All(",\"service\":") + JsonString(service)
    + Utf8All(",\"stream\":") + Utf8All("\"server\"") + Utf8All("}")
  }

  /** The open of a client or bidi stream that is the n-th of its tuple. */
  lemma CountedText(scrub: Option<R.Scrub>, hash: Bytes -> string, typ: string, service: string, method': string, msg: Bytes, n: nat)
    requires typ == "client" || typ == "bidi"
    ensures var o := Probe.StreamOpenFor(scrub, hash, typ, service, method', msg);
            && o.counter && o.adapterId == "grpc"
            && Canonical(o, n) == CountedForm(typ, service, method', n)
  {
    hide Utf8All, JsonString, Digits, ObjectText, Decimal;
    var o := Probe.StreamOpenFor(scrub, hash, typ, service, method', msg);
    assert typ != SERVER;
    SpelledOut(InputsOf(o, n), "n", Number(n), service, method', typ);
    DigitsAreDecimal(n);
    SecondKey("n");
  }

  /** The open of a server stream: its first message, through the hook and hashed, is part of its identity. */
  lemma HashedText(scrub: Option<R.Scrub>, hash: Bytes -> string, service: string, method': string, msg: Bytes)
    ensures var o := Probe.StreamOpenFor(scrub, hash, "server", service, method', msg);
            var shown := match scrub case None => msg case Some(f) => f(R.SendDir, R.ScrubInfo("grpc", "server"), msg);
            && !o.counter && o.adapterId == "grpc"
            && Canonical(o, -1) == HashedForm(service, method', hash(shown))
  {
    hide Utf8All, JsonString, ObjectText;
    var o := Probe.StreamOpenFor(scrub, hash, "server", service, method', msg);
    var shown := match scrub case None => msg case Some(f) => f(R.SendDir, R.ScrubInfo("grpc", "server"), msg);
    SpelledOut(InputsOf(o, -1), "msg_hash", Text(hash(shown)), service, method', "server");
    SecondKey("msg_hash");
    assert "\"" + "server" + "\"" == "\"server\"";
  }
}
