/**
 Canonical JSON of a stream open: the printer behind every fingerprint
 (go/canonical.go, go/stream.go, php/src/Stream/StreamFingerprint.php).
 Strings are sequences of Unicode scalar values; texts are their UTF-8 bytes.
 */
module CanonicalJson {
  import opened Prelude
  import opened StreamModel

  const QUOTE: byte := 0x22
  const BACKSLASH: byte := 0x5C
  const COLON: byte := 0x3A
  const COMMA: byte := 0x2C
  const OPEN_BRACE: byte := 0x7B
  const CLOSE_BRACE: byte := 0x7D

  // ---------------------------------------------------------------------------
  // UTF-8 and string escapes
  // ---------------------------------------------------------------------------

  function Utf8(c: char): (b: Bytes)
    ensures b != []
  {
    var v := c as int;
    if v < 0x80 then [v]
    else if v < 0x800 then [0xC0 + v / 64, 0x80 + v % 64]
    else if v < 0x1_0000 then [0xE0 + v / 4096, 0x80 + v / 64 % 64, 0x80 + v % 64]
    else [0xF0 + v / 262144, 0x80 + v / 4096 % 64, 0x80 + v / 64 % 64, 0x80 + v % 64]
  }

  function Utf8All(s: string): Bytes {
    if s == [] then [] else Utf8(s[0]) + Utf8All(s[1..])
  }

  function LowerHex(d: nat): byte
    requires d < 16
  {
    if d < 10 then 0x30 + d else 0x57 + d
  }

  /** Section 3.2.2.2 of RFC 8785: only the quote, the backslash and U+0000..U+001F are escaped. */
  function EscapeChar(c: char): (b: Bytes)
    ensures b != []
  {
    var v := c as int;
    if v == 0x22 then [BACKSLASH, 0x22]
    else if v == 0x5C then [BACKSLASH, 0x5C]
    else if v == 0x08 then [BACKSLASH, 0x62]
    else if v == 0x09 then [BACKSLASH, 0x74]
    else if v == 0x0A then [BACKSLASH, 0x6E]
    else if v == 0x0C then [BACKSLASH, 0x66]
    else if v == 0x0D then [BACKSLASH, 0x72]
    else if v < 0x20 then [BACKSLASH, 0x75, 0x30, 0x30, LowerHex(v / 16), LowerHex(v % 16)]
    else Utf8(c)
  }

  function Escape(s: string): Bytes {
    if s == [] then [] else EscapeChar(s[0]) + Escape(s[1..])
  }

  function JsonString(s: string): Bytes {
    [QUOTE] + Escape(s) + [QUOTE]
  }

  function Digits(n: nat): (b: Bytes)
    ensures b != []
  {
    if n < 10 then [0x30 + n] else Digits(n / 10) + [0x30 + n % 10]
  }

  function JsonNumber(n: int): Bytes {
    if n < 0 then [0x2D] + Digits(-n) else Digits(n)
  }

  function JsonValue(v: Value): Bytes {
    match v
    case Text(s) => JsonString(s)
    case Number(n) => JsonNumber(n)
  }

  // ---------------------------------------------------------------------------
  // Objects: entries in byte order of their keys
  // ---------------------------------------------------------------------------

  predicate LexLeq(a: Bytes, b: Bytes) {
    a == [] || (b != [] && (a[0] < b[0] || (a[0] == b[0] && LexLeq(a[1..], b[1..]))))
  }

  predicate KeyLeq(a: string, b: string) {
    LexLeq(Utf8All(a), Utf8All(b))
  }

  type Inputs = map<string, Value>

  predicate IsLeast(k: string, keys: set<string>) {
    k in keys && forall j :: j in keys ==> KeyLeq(k, j)
  }

  // ---------------------------------------------------------------------------
  // Reading back: every text determines what it was printed from
  // ---------------------------------------------------------------------------

  lemma Utf8Ranges(c: char)
    ensures var b := Utf8(c);
            && (b[0] < 0x80 <==> c as int < 0x80)
            && (b[0] < 0x80 ==> |b| == 1 && b[0] == c as int)
            && (0x80 <= b[0] ==> 0xC2 <= b[0] <= 0xF4)
            && (0xC2 <= b[0] < 0xE0 <==> |b| == 2) && (0xE0 <= b[0] < 0xF0 <==> |b| == 3) && (0xF0 <= b[0] <==> |b| == 4)
            && forall i :: 1 <= i < |b| ==> 0x80 <= b[i] < 0xC0
  {
  }

  /** The code point a UTF-8 sequence stands for. */
  function CodePoint(b: Bytes): int
    requires 1 <= |b| <= 4
  {
    if |b| == 1 then b[0] as int
    else if |b| == 2 then (b[0] as int - 0xC0) * 64 + (b[1] as int - 0x80)
    else if |b| == 3 then (b[0] as int - 0xE0) * 4096 + (b[1] as int - 0x80) * 64 + (b[2] as int - 0x80)
    else (b[0] as int - 0xF0) * 262144 + (b[1] as int - 0x80) * 4096 + (b[2] as int - 0x80) * 64 + (b[3] as int - 0x80)
  }

  lemma Utf8Decodes(c: char)
    ensures CodePoint(Utf8(c)) == c as int
  {
    var v := c as int;
    assert v / 64 == v / 4096 * 64 + v / 64 % 64;
    assert v / 4096 == v / 262144 * 64 + v / 4096 % 64;
  }

  /** No character's UTF-8 form begins another's. */
  lemma Utf8PrefixFree(c: char, d: char, s: Bytes, t: Bytes)
    requires Utf8(c) + s == Utf8(d) + t
    ensures c == d && s == t
  {
    hide Utf8;
    Utf8Ranges(c);
    Utf8Ranges(d);
    assert (Utf8(c) + s)[0] == (Utf8(d) + t)[0];
    SplitSame(Utf8(c), s, Utf8(d), t);
    Utf8Decodes(c);
    Utf8Decodes(d);
  }

  lemma SplitSame<T>(a: seq<T>, s: seq<T>, b: seq<T>, t: seq<T>)
    requires a + s == b + t && |a| == |b|
    ensures a == b && s == t
  {
    assert a == (a + s)[..|a|] && b == (b + t)[..|a|];
    assert s == (a + s)[|a|..] && t == (b + t)[|a|..];
  }

  /** The shape of an escape, by its second byte. */
  lemma EscapeShape(c: char)
    ensures var b := EscapeChar(c);
            && b[0] != QUOTE && b[0] != 0
            && (b[0] == BACKSLASH <==> c as int < 0x20 || c == '\"' || c == '\\')
            && (b[0] == BACKSLASH ==> |b| == if b[1] == 0x75 then 6 else 2)
            && (b[0] != BACKSLASH ==> b == Utf8(c))
  {
    Utf8Ranges(c);
  }

  lemma ShortEscapesDiffer(c: char, d: char)
    requires EscapeChar(c)[0] == BACKSLASH && EscapeChar(c) == EscapeChar(d)
    ensures c == d
  {
    EscapeShape(c);
    EscapeShape(d);
    if |EscapeChar(c)| == 6 {
      assert LowerHex(c as int / 16) == LowerHex(d as int / 16);
      assert LowerHex(c as int % 16) == LowerHex(d as int % 16);
    }
  }

  lemma EscapePrefixFree(c: char, d: char, s: Bytes, t: Bytes)
    requires EscapeChar(c) + s == EscapeChar(d) + t
    ensures c == d && s == t
  {
    hide EscapeChar, Utf8;
    EscapeShape(c);
    EscapeShape(d);
    var a, b := EscapeChar(c), EscapeChar(d);
    assert (a + s)[0] == (b + t)[0];
    if a[0] == BACKSLASH {
      assert (a + s)[1] == a[1] && (b + t)[1] == b[1];
      SplitSame(a, s, b, t);
      ShortEscapesDiffer(c, d);
    } else {
      Utf8PrefixFree(c, d, s, t);
    }
  }

  lemma {:induction false} StringReadsBack(a: string, b: string, s: Bytes, t: Bytes)
    requires Escape(a) + [QUOTE] + s == Escape(b) + [QUOTE] + t
    ensures a == b && s == t
    decreases |a| + |b|
  {
    hide EscapeChar;
    var whole := Escape(a) + [QUOTE] + s;
    QuoteEndsEscape(a, s);
    QuoteEndsEscape(b, t);
    if a != [] && b != [] {
      assert whole == EscapeChar(a[0]) + (Escape(a[1..]) + [QUOTE] + s);
      assert whole == EscapeChar(b[0]) + (Escape(b[1..]) + [QUOTE] + t);
      EscapePrefixFree(a[0], b[0], Escape(a[1..]) + [QUOTE] + s, Escape(b[1..]) + [QUOTE] + t);
      StringReadsBack(a[1..], b[1..], s, t);
    } else {
      assert whole == [QUOTE] + s == [QUOTE] + t;
      SplitSame([QUOTE], s, [QUOTE], t);
    }
  }

  /** No escaped text starts with a raw quote. */
  lemma QuoteEndsEscape(a: string, s: Bytes)
    ensures (Escape(a) + [QUOTE] + s)[0] == QUOTE <==> a == []
  {
    hide EscapeChar;
    if a != [] {
      EscapeShape(a[0]);
    }
  }

  predicate IsDigit(b: byte) {
    0x30 <= b <= 0x39
  }

  lemma {:induction false} DigitsAreDigits(n: nat)
    ensures forall i :: 0 <= i < |Digits(n)| ==> IsDigit(Digits(n)[i])
  {
    if n >= 10 {
      DigitsAreDigits(n / 10);
    }
  }

  lemma {:induction false} DigitsInjective(m: nat, n: nat)
    requires Digits(m) == Digits(n)
    ensures m == n
  {
    var a, b := Digits(m), Digits(n);
    assert a[|a| - 1] == 0x30 + m % 10 && b[|b| - 1] == 0x30 + n % 10;
    if m >= 10 && n >= 10 {
      assert Digits(m / 10) == a[..|a| - 1] == b[..|b| - 1] == Digits(n / 10);
      DigitsInjective(m / 10, n / 10);
    }
  }

  /** What may follow a value inside an object. */
  predicate Ends(s: Bytes) {
    s != [] && (s[0] == COMMA || s[0] == CLOSE_BRACE)
  }

  lemma {:induction false} DigitsReadBack(m: nat, n: nat, s: Bytes, t: Bytes)
    requires Digits(m) + s == Digits(n) + t && Ends(s) && Ends(t)
    ensures m == n && s == t
  {
    DigitsAreDigits(m);
    DigitsAreDigits(n);
    DigitRunOf(Digits(m), s);
    DigitRunOf(Digits(n), t);
    SplitSame(Digits(m), s, Digits(n), t);
    DigitsInjective(m, n);
  }

  /** How many digits a text starts with. */
  function DigitRun(s: Bytes): nat {
    if s == [] || !IsDigit(s[0]) then 0 else 1 + DigitRun(s[1..])
  }

  lemma {:induction false} DigitRunOf(a: Bytes, s: Bytes)
    requires (forall i :: 0 <= i < |a| ==> IsDigit(a[i])) && Ends(s)
    ensures DigitRun(a + s) == |a|
  {
    if a == [] {
      assert a + s == s;
    } else {
      assert (a + s)[1..] == a[1..] + s;
      DigitRunOf(a[1..], s);
    }
  }

  lemma ValueReadsBack(v: Value, w: Value, s: Bytes, t: Bytes)
    requires JsonValue(v) + s == JsonValue(w) + t && Ends(s) && Ends(t)
    ensures v == w && s == t
  {
    hide Escape, Digits, JsonValue;
    ValueStart(v, s);
    ValueStart(w, t);
    if v.Text? {
      StringReadsBack(v.text, w.text, s, t);
    } else if v.number < 0 {
      DigitsReadBack(-v.number, -w.number, s, t);
    } else {
      DigitsReadBack(v.number, w.number, s, t);
    }
  }

  /** The first byte of a value tells its kind; what follows is its string body or its digits. */
  lemma ValueStart(v: Value, s: Bytes)
    ensures var whole := JsonValue(v) + s;
            && whole != []
            && (v.Text? <==> whole[0] == QUOTE)
            && (v.Number? && v.number < 0 <==> whole[0] == 0x2D)
            && (v.Text? ==> whole[1..] == Escape(v.text) + [QUOTE] + s)
            && (v.Number? && v.number < 0 ==> whole[1..] == Digits(-v.number) + s)
            && (v.Number? && v.number >= 0 ==> whole == Digits(v.number) + s)
  {
    hide Escape, Digits;
    if v.Number? && v.number >= 0 {
      DigitsAreDigits(v.number);
    }
  }

  // ---------------------------------------------------------------------------
  // Key order
  // ---------------------------------------------------------------------------

  lemma {:induction false} LexOrder(a: Bytes, b: Bytes, c: Bytes)
    ensures LexLeq(a, b) || LexLeq(b, a)
    ensures LexLeq(a, b) && LexLeq(b, a) ==> a == b
    ensures LexLeq(a, b) && LexLeq(b, c) ==> LexLeq(a, c)
  {
    if a != [] && b != [] {
      LexOrder(a[1..], b[1..], if c == [] then c else c[1..]);
      assert a == [a[0]] + a[1..] && b == [b[0]] + b[1..];
    }
  }

  lemma {:induction false} Utf8AllInjective(a: string, b: string)
    requires Utf8All(a) == Utf8All(b)
    ensures a == b
  {
    hide Utf8;
    if a != [] && b != [] {
      Utf8PrefixFree(a[0], b[0], Utf8All(a[1..]), Utf8All(b[1..]));
      Utf8AllInjective(a[1..], b[1..]);
    }
  }

  lemma LeastIsUnique(k: string, j: string, keys: set<string>)
    requires IsLeast(k, keys) && IsLeast(j, keys)
    ensures k == j
  {
    LexOrder(Utf8All(k), Utf8All(j), []);
    Utf8AllInjective(k, j);
  }

  lemma {:induction false} LeastExists(keys: set<string>) returns (k: string)
    requires keys != {}
    ensures IsLeast(k, keys)
    decreases |keys|
  {
    var x :| x in keys;
    if keys == {x} {
      k := x;
      LexOrder(Utf8All(x), Utf8All(x), []);
    } else {
      var m := LeastExists(keys - {x});
      LexOrder(Utf8All(m), Utf8All(x), []);
      k := if KeyLeq(m, x) then m else x;
      forall j | j in keys ensures KeyLeq(k, j) {
        assert j == x || j in keys - {x};
        LexOrder(Utf8All(x), Utf8All(m), Utf8All(j));
        LexOrder(Utf8All(x), Utf8All(x), []);
      }
    }
  }

  lemma OneIsLeast(keys: set<string>)
    requires keys != {}
    ensures exists k :: k in keys && IsLeast(k, keys)
    ensures forall k, j :: IsLeast(k, keys) && IsLeast(j, keys) ==> k == j
  {
    var least := LeastExists(keys);
    forall k, j | IsLeast(k, keys) && IsLeast(j, keys) ensures k == j {
      LeastIsUnique(k, j, keys);
    }
  }

  function SortedKeys(keys: set<string>): (r: seq<string>)
    ensures forall k :: k in r <==> k in keys
    ensures forall i, j :: 0 <= i < j < |r| ==> r[i] != r[j] && KeyLeq(r[i], r[j])
    decreases |keys|
  {
    if keys == {} then []
    else
      OneIsLeast(keys);
      var k :| k in keys && IsLeast(k, keys);
      [k] + SortedKeys(keys - {k})
  }

  lemma SortedKeysStep(k: string, keys: set<string>)
    requires k in keys && IsLeast(k, keys)
    ensures SortedKeys(keys) == [k] + SortedKeys(keys - {k})
  {
    forall j | IsLeast(j, keys) ensures j == k {
      LeastIsUnique(k, j, keys);
    }
  }

  const METHOD_KEY := "method"
  const SERVICE_KEY := "service"

  lemma AsciiFirst(s: string)
    requires s != [] && s[0] as int < 0x80
    ensures Utf8All(s) == [s[0] as int] + Utf8All(s[1..])
  {
  }

  lemma KeysCompared()
    ensures KeyLeq(METHOD_KEY, METHOD_KEY) && KeyLeq(METHOD_KEY, SERVICE_KEY) && KeyLeq(METHOD_KEY, STREAM_KEY)
    ensures KeyLeq(SERVICE_KEY, SERVICE_KEY) && KeyLeq(SERVICE_KEY, STREAM_KEY) && KeyLeq(STREAM_KEY, STREAM_KEY)
  {
    hide Utf8All;
    AsciiFirst(METHOD_KEY);
    AsciiFirst(SERVICE_KEY);
    AsciiFirst(STREAM_KEY);
    AsciiFirst(SERVICE_KEY[1..]);
    AsciiFirst(STREAM_KEY[1..]);
    LexOrder(Utf8All(METHOD_KEY), Utf8All(METHOD_KEY), []);
    LexOrder(Utf8All(SERVICE_KEY), Utf8All(SERVICE_KEY), []);
    LexOrder(Utf8All(STREAM_KEY), Utf8All(STREAM_KEY), []);
  }

  /** The identity keys of a gRPC open, and those of its canonical inputs, in byte order. */
  lemma GrpcKeysInOrder()
    ensures SortedKeys({METHOD_KEY, SERVICE_KEY}) == [METHOD_KEY, SERVICE_KEY]
    ensures SortedKeys({METHOD_KEY, SERVICE_KEY, STREAM_KEY}) == [METHOD_KEY, SERVICE_KEY, STREAM_KEY]
  {
    hide KeyLeq, SortedKeys;
    KeysCompared();
    SortedKeysStep(METHOD_KEY, {METHOD_KEY, SERVICE_KEY, STREAM_KEY});
    SortedKeysStep(METHOD_KEY, {METHOD_KEY, SERVICE_KEY});
    SortedKeysStep(SERVICE_KEY, {SERVICE_KEY, STREAM_KEY});
    SortedKeysStep(SERVICE_KEY, {SERVICE_KEY});
    SortedKeysStep(STREAM_KEY, {STREAM_KEY});
    KeysDiffer();
    assert {METHOD_KEY, SERVICE_KEY, STREAM_KEY} - {METHOD_KEY} == {SERVICE_KEY, STREAM_KEY};
    assert {METHOD_KEY, SERVICE_KEY} - {METHOD_KEY} == {SERVICE_KEY};
    assert {SERVICE_KEY, STREAM_KEY} - {SERVICE_KEY} == {STREAM_KEY};
    assert {SERVICE_KEY} - {SERVICE_KEY} == {} == {STREAM_KEY} - {STREAM_KEY};
    NoKeys();
  }

  lemma KeysDiffer()
    ensures METHOD_KEY != SERVICE_KEY && METHOD_KEY != STREAM_KEY && SERVICE_KEY != STREAM_KEY
  {
    assert METHOD_KEY[0] != SERVICE_KEY[0] && METHOD_KEY[0] != STREAM_KEY[0] && SERVICE_KEY[1] != STREAM_KEY[1];
  }

  lemma NoKeys()
    ensures SortedKeys({}) == []
  {
  }

  // ---------------------------------------------------------------------------
  // Objects
  // ---------------------------------------------------------------------------

  datatype Entry = Entry(key: string, value: Value)

  function Entries(m: Inputs): (r: seq<Entry>)
    ensures |r| == |SortedKeys(m.Keys)|
  {
    var keys := SortedKeys(m.Keys);
    seq(|keys|, i requires 0 <= i < |keys| => assert keys[i] in m.Keys; Entry(keys[i], m[keys[i]]))
  }

  lemma EntryAt(m: Inputs, i: nat)
    requires i < |Entries(m)|
    ensures var e := Entries(m)[i]; e.key == SortedKeys(m.Keys)[i] && e.key in m && m[e.key] == e.value
  {
    assert SortedKeys(m.Keys)[i] in m.Keys;
  }

  function EntryText(e: Entry): Bytes {
    JsonString(e.key) + [COLON] + JsonValue(e.value)
  }

  /** implode(',', parts) */
  function Joined(parts: seq<Bytes>): Bytes {
    if parts == [] then [] else if |parts| == 1 then parts[0] else parts[0] + [COMMA] + Joined(parts[1..])
  }

  function EntryTexts(es: seq<Entry>): (r: seq<Bytes>)
    ensures |r| == |es|
  {
    if es == [] then [] else [EntryText(es[0])] + EntryTexts(es[1..])
  }

  function ObjectText(m: Inputs): Bytes {
    [OPEN_BRACE] + Joined(EntryTexts(Entries(m))) + [CLOSE_BRACE]
  }

  /** The text after the opening brace. */
  function Tail(es: seq<Entry>): Bytes {
    Joined(EntryTexts(es)) + [CLOSE_BRACE]
  }

  /** What follows the first value. */
  function AfterFirst(es: seq<Entry>): Bytes
    requires es != []
  {
    if |es| == 1 then [CLOSE_BRACE] else [COMMA] + Tail(es[1..])
  }

  lemma TailUnrolls(es: seq<Entry>)
    requires es != []
    ensures Tail(es) == [QUOTE] + (Escape(es[0].key) + [QUOTE] + ([COLON] + (JsonValue(es[0].value) + AfterFirst(es))))
    ensures Ends(AfterFirst(es))
  {
    hide Escape, JsonValue;
    TailSplits(es);
    Regroup([QUOTE], Escape(es[0].key), [QUOTE], [COLON], JsonValue(es[0].value), AfterFirst(es));
  }

  lemma TailSplits(es: seq<Entry>)
    requires es != []
    ensures Tail(es) == EntryText(es[0]) + AfterFirst(es) && Ends(AfterFirst(es))
  {
    hide EntryText;
  }

  lemma Regroup(a: Bytes, b: Bytes, c: Bytes, d: Bytes, e: Bytes, f: Bytes)
    ensures (((a + b) + c) + d) + e + f == a + (b + c + (d + (e + f)))
  {
  }

  lemma {:induction false} EntriesReadBack(es: seq<Entry>, fs: seq<Entry>)
    requires Tail(es) == Tail(fs)
    ensures es == fs
    decreases |es|
  {
    hide Escape, JsonValue, Tail, Ends;
    if es == [] || fs == [] {
      EmptyTail(es);
      EmptyTail(fs);
    } else {
      TailUnrolls(es);
      TailUnrolls(fs);
      var e, f := es[0], fs[0];
      var restE, restF := [COLON] + (JsonValue(e.value) + AfterFirst(es)), [COLON] + (JsonValue(f.value) + AfterFirst(fs));
      assert Tail(es)[1..] == Escape(e.key) + [QUOTE] + restE == Escape(f.key) + [QUOTE] + restF;
      StringReadsBack(e.key, f.key, restE, restF);
      assert JsonValue(e.value) + AfterFirst(es) == restE[1..] == restF[1..] == JsonValue(f.value) + AfterFirst(fs);
      ValueReadsBack(e.value, f.value, AfterFirst(es), AfterFirst(fs));
      assert AfterFirst(es)[0] == AfterFirst(fs)[0];
      if |es| > 1 {
        assert Tail(es[1..]) == AfterFirst(es)[1..] == AfterFirst(fs)[1..] == Tail(fs[1..]);
        EntriesReadBack(es[1..], fs[1..]);
        assert es == [e] + es[1..] && fs == [f] + fs[1..];
      }
    }
  }

  lemma EmptyTail(es: seq<Entry>)
    ensures Tail(es) != []
    ensures Tail(es)[0] == CLOSE_BRACE <==> es == []
  {
    if es != [] {
      TailUnrolls(es);
    }
  }

  /** Two inputs print alike only if they are the same map. */
  lemma ObjectTextInjective(m: Inputs, m': Inputs)
    ensures ObjectText(m) == ObjectText(m') <==> m == m'
  {
    if ObjectText(m) == ObjectText(m') {
      assert ObjectText(m) == [OPEN_BRACE] + Tail(Entries(m));
      assert ObjectText(m') == [OPEN_BRACE] + Tail(Entries(m'));
      SplitSame([OPEN_BRACE], Tail(Entries(m)), [OPEN_BRACE], Tail(Entries(m')));
      EntriesReadBack(Entries(m), Entries(m'));
      SameEntries(m, m');
    }
  }

  lemma EntryOf(m: Inputs, k: string) returns (i: nat)
    requires k in m
    ensures i < |Entries(m)| && Entries(m)[i] == Entry(k, m[k])
  {
    hide SortedKeys, Entries;
    assert k in SortedKeys(m.Keys);
    i :| 0 <= i < |SortedKeys(m.Keys)| && SortedKeys(m.Keys)[i] == k;
    EntryAt(m, i);
  }

  lemma SameEntries(m: Inputs, m': Inputs)
    requires Entries(m) == Entries(m')
    ensures m == m'
  {
    hide SortedKeys, Entries;
    forall k | k in m ensures k in m' && m'[k] == m[k] {
      var i := EntryOf(m, k);
      EntryAt(m', i);
    }
    forall k | k in m' ensures k in m {
      var i := EntryOf(m', k);
      EntryAt(m, i);
    }
  }

  // ---------------------------------------------------------------------------
  // Stream opens
  // ---------------------------------------------------------------------------

  datatype StreamOpen = StreamOpen(adapterId: string, typ: string, identity: Inputs, counter: bool, payload: Payload)

  datatype OpenError = BadStreamType | ReservedKey | MissingOrdinal

  const STREAM_KEY := "stream"
  const ORDINAL_KEY := "n"

  predicate Acceptable(open: StreamOpen) {
    ValidType(open.typ) && STREAM_KEY !in open.identity && ORDINAL_KEY !in open.identity
  }

  /** The identity with the stream discriminator, and the ordinal when n >= 0. */
  function InputsOf(open: StreamOpen, n: int): Inputs {
    var inputs := open.identity[STREAM_KEY := Text(open.typ)];
    if n >= 0 then inputs[ORDINAL_KEY := Number(n)] else inputs
  }

  function Canonical(open: StreamOpen, n: int): Bytes {
    ObjectText(InputsOf(open, n))
  }

  /** Two accepted opens print alike exactly when identity, stream type and ordinal all agree. */
  lemma CanonicalIdentifies(o: StreamOpen, n: int, o': StreamOpen, n': int)
    requires Acceptable(o) && Acceptable(o')
    ensures Canonical(o, n) == Canonical(o', n')
            <==> o.identity == o'.identity && o.typ == o'.typ && (n == n' || (n < 0 && n' < 0))
  {
    hide ObjectText;
    var m, m' := InputsOf(o, n), InputsOf(o', n');
    ObjectTextInjective(m, m');
    if m == m' {
      assert m[STREAM_KEY] == Text(o.typ) && m'[STREAM_KEY] == Text(o'.typ);
      assert (ORDINAL_KEY in m <==> n >= 0) && (ORDINAL_KEY in m' <==> n' >= 0);
      assert n >= 0 ==> m[ORDINAL_KEY] == Number(n) && m'[ORDINAL_KEY] == Number(n');
      assert o.identity == m - {STREAM_KEY, ORDINAL_KEY} == m' - {STREAM_KEY, ORDINAL_KEY} == o'.identity;
    }
  }

  /** Without the reserved-key check an ordinal could be forged: these two differ and print alike. */
  lemma ReservedKeysMatter() returns (o: StreamOpen, o': StreamOpen)
    ensures !Acceptable(o) && Acceptable(o')
    ensures o.identity != o'.identity && Canonical(o, -1) == Canonical(o', 0)
  {
    o := StreamOpen("x", BIDI, map[ORDINAL_KEY := Number(0)], false, map[]);
    o' := StreamOpen("x", BIDI, map[], true, map[]);
    assert ORDINAL_KEY in o.identity;
    assert InputsOf(o, -1) == InputsOf(o', 0);
  }

  /** The text of inputs without the discriminator, as every unary adapter's are, is never a stream's. */
  lemma UnaryTextsDiffer(unary: Inputs, open: StreamOpen, n: int)
    requires STREAM_KEY !in unary
    ensures ObjectText(unary) != Canonical(open, n)
  {
    ObjectTextInjective(unary, InputsOf(open, n));
    assert STREAM_KEY in InputsOf(open, n);
  }

  // ---------------------------------------------------------------------------
  // No raw NUL
  // ---------------------------------------------------------------------------

  predicate NoNul(b: Bytes) {
    forall i :: 0 <= i < |b| ==> b[i] != 0
  }

  lemma {:induction false} EscapeHasNoNul(s: string)
    ensures NoNul(Escape(s))
  {
    if s != [] {
      EscapeShape(s[0]);
      Utf8Ranges(s[0]);
      EscapeHasNoNul(s[1..]);
    }
  }

  lemma NoNulConcat(a: Bytes, b: Bytes)
    requires NoNul(a) && NoNul(b)
    ensures NoNul(a + b)
  {
  }

  lemma EntryHasNoNul(e: Entry)
    ensures NoNul(EntryText(e))
  {
    hide Escape, Digits;
    EscapeHasNoNul(e.key);
    NoNulConcat([QUOTE] + Escape(e.key), [QUOTE]);
    if e.value.Text? {
      EscapeHasNoNul(e.value.text);
      NoNulConcat([QUOTE] + Escape(e.value.text), [QUOTE]);
    } else {
      DigitsAreDigits(if e.value.number < 0 then -e.value.number else e.value.number);
    }
    NoNulConcat(JsonString(e.key) + [COLON], JsonValue(e.value));
  }

  lemma {:induction false} JoinedHasNoNul(es: seq<Entry>)
    ensures NoNul(Joined(EntryTexts(es)))
  {
    hide EntryText;
    if es != [] {
      EntryHasNoNul(es[0]);
      JoinedHasNoNul(es[1..]);
      NoNulConcat(EntryText(es[0]), [COMMA]);
    }
  }

  lemma CanonicalHasNoNul(open: StreamOpen, n: int)
    ensures NoNul(Canonical(open, n))
  {
    var body := Joined(EntryTexts(Entries(InputsOf(open, n))));
    JoinedHasNoNul(Entries(InputsOf(open, n)));
    NoNulConcat([OPEN_BRACE], body);
    NoNulConcat([OPEN_BRACE] + body, [CLOSE_BRACE]);
  }

  // ---------------------------------------------------------------------------
  // PHP: the text assembled key by key
  // ---------------------------------------------------------------------------

  /** The inputs map, filled in an arbitrary key order, as ranging over a map does. */
  method CollectInputs(open: StreamOpen, n: int) returns (r: Result<Inputs, OpenError>)
    ensures match r
            case Ok(m) => STREAM_KEY !in open.identity && ORDINAL_KEY !in open.identity && m == InputsOf(open, n)
            case Err(e) => e == ReservedKey && (STREAM_KEY in open.identity || ORDINAL_KEY in open.identity)
  {
    var inputs: Inputs := map[];
    var left := open.identity.Keys;
    while left != {}
      invariant left <= open.identity.Keys
      invariant inputs == map k | k in open.identity && k !in left :: open.identity[k]
      invariant STREAM_KEY !in inputs && ORDINAL_KEY !in inputs
      decreases |left|
    {
      var key :| key in left;
      if key == STREAM_KEY || key == ORDINAL_KEY {
        return Err(ReservedKey);
      }
      inputs := inputs[key := open.identity[key]];
      left := left - {key};
    }
    assert inputs == open.identity;
    inputs := inputs[STREAM_KEY := Text(open.typ)];
    if n >= 0 {
      inputs := inputs[ORDINAL_KEY := Number(n)];
    }
    r := Ok(inputs);
  }

  lemma {:induction false} EntryTextsAppend(es: seq<Entry>, e: Entry)
    ensures EntryTexts(es + [e]) == EntryTexts(es) + [EntryText(e)]
  {
    if es == [] {
      assert es + [e] == [e];
    } else {
      assert (es + [e])[1..] == es[1..] + [e];
      EntryTextsAppend(es[1..], e);
    }
  }

  /** php StreamFingerprint::canonical; the stream type is an enum there. */
  method PhpCanonical(open: StreamOpen, n: int) returns (r: Result<Bytes, OpenError>)
    requires ValidType(open.typ)
    ensures r == if Acceptable(open) then Ok(Canonical(open, n)) else Err(ReservedKey)
  {
    hide Entries, InputsOf, JsonString, JsonValue;
    var inputs := CollectInputs(open, n);
    if inputs.Err? {
      return Err(inputs.error);
    }
    var sorted := Entries(inputs.value);
    var parts: seq<Bytes> := [];
    for i := 0 to |sorted|
      invariant parts == EntryTexts(sorted[..i])
    {
      assert sorted[..i + 1] == sorted[..i] + [sorted[i]];
      EntryTextsAppend(sorted[..i], sorted[i]);
      parts := parts + [JsonString(sorted[i].key) + [COLON] + JsonValue(sorted[i].value)];
    }
    assert sorted[..|sorted|] == sorted;
    r := Ok([OPEN_BRACE] + Joined(parts) + [CLOSE_BRACE]);
  }
}
