/**
 The repair pass over encoder output, and canonical JSON as Go assembles it (go/canonical.go).
 The encoder is given as a specification: it escapes as canonical JSON does, and also U+2028 and U+2029.
 */
module EscapeRepair {
  import opened Prelude
  import opened StreamModel
  import opened CanonicalJson

  const LINE_SEPARATOR: Bytes := [0xE2, 0x80, 0xA8]
  const PARAGRAPH_SEPARATOR: Bytes := [0xE2, 0x80, 0xA9]

  /** u202 */
  const TERMINATOR_PREFIX: Bytes := [0x75, 0x32, 0x30, 0x32]

  /** The six bytes of an escaped U+2028 (last 0x38) or U+2029 (last 0x39) are at the front. */
  predicate StartsEscape(b: Bytes, last: byte) {
    |b| >= 6 && b[0] == BACKSLASH && b[1..5] == TERMINATOR_PREFIX && b[5] == last
  }

  function Unescape(b: Bytes): Bytes
    decreases |b|
  {
    if b == [] then []
    else if b[0] != BACKSLASH || |b| == 1 then [b[0]] + Unescape(b[1..])
    else if StartsEscape(b, 0x38) then LINE_SEPARATOR + Unescape(b[6..])
    else if StartsEscape(b, 0x39) then PARAGRAPH_SEPARATOR + Unescape(b[6..])
    else b[..2] + Unescape(b[2..])
  }

  predicate NoBackslash(b: Bytes) {
    forall i :: 0 <= i < |b| ==> b[i] != BACKSLASH
  }

  /** Bytes without a backslash are copied. */
  lemma {:induction false} PlainIsCopied(a: Bytes, b: Bytes)
    requires NoBackslash(a)
    ensures Unescape(a + b) == a + Unescape(b)
  {
    if a == [] {
      assert a + b == b;
    } else {
      assert (a + b)[1..] == a[1..] + b;
      PlainIsCopied(a[1..], b);
      assert a == [a[0]] + a[1..];
    }
  }

  lemma UnescapeStep(b: Bytes)
    ensures b != [] ==>
              Unescape(b) == if b[0] != BACKSLASH || |b| == 1 then [b[0]] + Unescape(b[1..])
                             else if StartsEscape(b, 0x38) then LINE_SEPARATOR + Unescape(b[6..])
                             else if StartsEscape(b, 0x39) then PARAGRAPH_SEPARATOR + Unescape(b[6..])
                             else b[..2] + Unescape(b[2..])
  {
  }

  method UnescapeLineTerminators(b: Bytes) returns (r: Bytes)
    ensures r == Unescape(b)
  {
    hide Unescape;
    if BACKSLASH !in b {
      PlainIsCopied(b, []);
      assert b + [] == b;
      EmptyUnescapes();
      return b;
    }
    var out: Bytes := [];
    var i := 0;
    while i < |b|
      invariant 0 <= i <= |b|
      invariant Unescape(b) == out + Unescape(b[i..])
    {
      ghost var rest := b[i..];
      UnescapeStep(rest);
      var piece: Bytes;
      if b[i] != BACKSLASH || i + 1 >= |b| {
        piece := [b[i]];
        i := i + 1;
      } else if i + 6 <= |b| && b[i + 1..i + 5] == TERMINATOR_PREFIX && (b[i + 5] == 0x38 || b[i + 5] == 0x39) {
        assert rest[1..5] == b[i + 1..i + 5];
        piece := if b[i + 5] == 0x38 then LINE_SEPARATOR else PARAGRAPH_SEPARATOR;
        i := i + 6;
      } else {
        assert |rest| >= 6 ==> rest[1..5] == b[i + 1..i + 5];
        piece := [b[i], b[i + 1]];
        i := i + 2;
      }
      assert Unescape(rest) == piece + Unescape(b[i..]);
      assert out + (piece + Unescape(b[i..])) == (out + piece) + Unescape(b[i..]);
      out := out + piece;
    }
    assert b[i..] == [];
    EmptyUnescapes();
    assert out + [] == out;
    r := out;
  }

  lemma EmptyUnescapes()
    ensures Unescape([]) == []
  {
  }

  // ---------------------------------------------------------------------------
  // Idempotence, on all byte strings
  // ---------------------------------------------------------------------------

  lemma EscapesAreNotPlain(b: Bytes)
    ensures |b| > 1 && b[0] == BACKSLASH ==>
              Unescape(b) != [] && (Unescape(b)[0] == BACKSLASH || Unescape(b)[0] == 0xE2)
  {
  }

  /** Output that starts with k plain ASCII bytes was copied from input that starts with them. */
  lemma {:induction false} PlainOutputWasInput(b: Bytes, k: nat)
    requires k <= |Unescape(b)|
    requires forall i :: 0 <= i < k ==> Unescape(b)[i] != BACKSLASH && Unescape(b)[i] < 0x80
    ensures k <= |b| && Unescape(b)[..k] == b[..k]
    decreases |b|
  {
    if k > 0 {
      EscapesAreNotPlain(b);
      var later := Unescape(b[1..]);
      assert forall i :: 0 <= i < k - 1 ==> later[i] == Unescape(b)[i + 1];
      PlainOutputWasInput(b[1..], k - 1);
      assert b[..k] == [b[0]] + b[1..][..k - 1];
    }
  }

  /** So an escape pair that was kept is kept again: only an escape comes out as an escape. */
  lemma EscapeInOutputWasInInput(b: Bytes, last: byte)
    requires |b| >= 2 && b[0] == BACKSLASH && (last == 0x38 || last == 0x39)
    requires StartsEscape(b[..2] + Unescape(b[2..]), last)
    ensures StartsEscape(b, last)
  {
    var out, later := b[..2] + Unescape(b[2..]), Unescape(b[2..]);
    assert forall i :: 0 <= i < 4 ==> later[i] == out[i + 2];
    assert out[2] == out[1..5][1] && out[3] == out[1..5][2] && out[4] == out[1..5][3];
    PlainOutputWasInput(b[2..], 4);
    assert b[1..5] == [b[1]] + b[2..][..3] == [out[1]] + later[..3] == out[1..5];
    assert b[5] == b[2..][..4][3] == later[..4][3] == last;
  }

  lemma KeptPairStaysKept(b: Bytes, last: byte)
    requires |b| >= 2 && b[0] == BACKSLASH && !StartsEscape(b, last) && (last == 0x38 || last == 0x39)
    ensures !StartsEscape(b[..2] + Unescape(b[2..]), last)
  {
    hide StartsEscape;
    if StartsEscape(b[..2] + Unescape(b[2..]), last) {
      EscapeInOutputWasInInput(b, last);
    }
  }

  lemma {:induction false} UnescapeIsIdempotent(b: Bytes)
    ensures Unescape(Unescape(b)) == Unescape(b)
    decreases |b|
  {
    if b != [] {
      if b[0] != BACKSLASH {
        PlainIsCopied([b[0]], Unescape(b[1..]));
        UnescapeIsIdempotent(b[1..]);
      } else if |b| == 1 {
        assert b[1..] == [] && Unescape(b) == [b[0]];
      } else if StartsEscape(b, 0x38) {
        PlainIsCopied(LINE_SEPARATOR, Unescape(b[6..]));
        UnescapeIsIdempotent(b[6..]);
      } else if StartsEscape(b, 0x39) {
        PlainIsCopied(PARAGRAPH_SEPARATOR, Unescape(b[6..]));
        UnescapeIsIdempotent(b[6..]);
      } else {
        KeptPairStaysKept(b, 0x38);
        KeptPairStaysKept(b, 0x39);
        UnescapeIsIdempotent(b[2..]);
        var out := Unescape(b);
        assert out[..2] == b[..2] && out[2..] == Unescape(b[2..]);
      }
    }
  }

  // ---------------------------------------------------------------------------
  // On encoder output: exactly the canonical form
  // ---------------------------------------------------------------------------

  function GoEscapeChar(c: char): Bytes {
    if c as int == 0x2028 then [BACKSLASH] + TERMINATOR_PREFIX + [0x38]
    else if c as int == 0x2029 then [BACKSLASH] + TERMINATOR_PREFIX + [0x39]
    else EscapeChar(c)
  }

  function GoEscape(s: string): Bytes {
    if s == [] then [] else GoEscapeChar(s[0]) + GoEscape(s[1..])
  }

  function GoString(s: string): Bytes {
    [QUOTE] + GoEscape(s) + [QUOTE]
  }

  function GoValue(v: Value): Bytes {
    match v
    case Text(s) => GoString(s)
    case Number(n) => JsonNumber(n)
  }

  function GoEntryTexts(es: seq<Entry>): (r: seq<Bytes>)
    ensures |r| == |es|
  {
    if es == [] then [] else [GoString(es[0].key) + [COLON] + GoValue(es[0].value)] + GoEntryTexts(es[1..])
  }

  /** What the encoder writes for a map: sorted keys, HTML escaping off, a newline at the end. */
  function GoEncode(m: Inputs): Bytes {
    [OPEN_BRACE] + Joined(GoEntryTexts(Entries(m))) + [CLOSE_BRACE] + [0x0A]
  }

  lemma UnescapeChar(c: char, rest: Bytes)
    ensures Unescape(GoEscapeChar(c) + rest) == EscapeChar(c) + Unescape(rest)
  {
    hide Unescape;
    var g := GoEscapeChar(c);
    var b := g + rest;
    UnescapeStep(b);
    if c as int == 0x2028 || c as int == 0x2029 {
      assert b[1..5] == TERMINATOR_PREFIX && b[6..] == rest;
    } else {
      EscapeShape(c);
      Utf8Ranges(c);
      if g[0] != BACKSLASH {
        PlainIsCopied(g, rest);
      } else if |g| == 2 {
        assert b[..2] == g && b[2..] == rest;
        assert |b| >= 6 ==> b[1..5][0] == g[1];
      } else {
        assert b[1..5][1] == b[2] == 0x30 && b[..2] == g[..2] && b[2..] == g[2..] + rest;
        PlainIsCopied(g[2..], rest);
        assert g == g[..2] + g[2..];
      }
    }
  }

  /** The repaired encoding of a string is the form of section 3.2.2.2 of RFC 8785. */
  lemma {:induction false} RepairedString(s: string, rest: Bytes)
    ensures Unescape(GoEscape(s) + rest) == Escape(s) + Unescape(rest)
  {
    hide EscapeChar, GoEscapeChar, Unescape;
    if s == [] {
      assert [] + rest == rest;
    } else {
      assert GoEscape(s) + rest == GoEscapeChar(s[0]) + (GoEscape(s[1..]) + rest);
      UnescapeChar(s[0], GoEscape(s[1..]) + rest);
      RepairedString(s[1..], rest);
    }
  }

  lemma RepairedQuoted(s: string, rest: Bytes)
    ensures Unescape(GoString(s) + rest) == JsonString(s) + Unescape(rest)
  {
    hide Escape, GoEscape, Unescape;
    assert GoString(s) + rest == [QUOTE] + (GoEscape(s) + ([QUOTE] + rest));
    PlainIsCopied([QUOTE], GoEscape(s) + ([QUOTE] + rest));
    RepairedString(s, [QUOTE] + rest);
    PlainIsCopied([QUOTE], rest);
  }

  lemma RepairedValue(v: Value, rest: Bytes)
    ensures Unescape(GoValue(v) + rest) == JsonValue(v) + Unescape(rest)
  {
    hide Unescape, Digits;
    match v {
      case Text(s) => RepairedQuoted(s, rest);
      case Number(n) =>
        DigitsAreDigits(if n < 0 then -n else n);
        PlainIsCopied(JsonNumber(n), rest);
    }
  }

  lemma RepairedEntry(e: Entry, rest: Bytes)
    ensures Unescape(GoString(e.key) + [COLON] + GoValue(e.value) + rest) == EntryText(e) + Unescape(rest)
  {
    hide Unescape, GoString, GoValue, JsonString, JsonValue;
    var more := GoValue(e.value) + rest;
    assert GoString(e.key) + [COLON] + GoValue(e.value) + rest == GoString(e.key) + ([COLON] + more);
    RepairedQuoted(e.key, [COLON] + more);
    PlainIsCopied([COLON], more);
    RepairedValue(e.value, rest);
    assert EntryText(e) + Unescape(rest) == JsonString(e.key) + ([COLON] + (JsonValue(e.value) + Unescape(rest)));
  }

  lemma {:induction false} RepairedEntries(es: seq<Entry>, rest: Bytes)
    ensures Unescape(Joined(GoEntryTexts(es)) + rest) == Joined(EntryTexts(es)) + Unescape(rest)
  {
    hide Unescape, GoString, GoValue, EntryText;
    if es == [] {
      assert [] + rest == rest;
    } else {
      var e := es[0];
      var first := GoString(e.key) + [COLON] + GoValue(e.value);
      if |es| == 1 {
        RepairedEntry(e, rest);
      } else {
        var more := Joined(GoEntryTexts(es[1..])) + rest;
        assert Joined(GoEntryTexts(es)) + rest == first + ([COMMA] + more);
        RepairedEntry(e, [COMMA] + more);
        PlainIsCopied([COMMA], more);
        RepairedEntries(es[1..], rest);
        assert Joined(EntryTexts(es)) + Unescape(rest)
            == EntryText(e) + ([COMMA] + (Joined(EntryTexts(es[1..])) + Unescape(rest)));
      }
    }
  }

  lemma RepairedObject(m: Inputs)
    ensures Unescape(GoEncode(m)[..|GoEncode(m)| - 1]) == ObjectText(m)
  {
    hide Unescape, Entries, Joined, GoEntryTexts, EntryTexts;
    var body := Joined(GoEntryTexts(Entries(m)));
    assert GoEncode(m)[..|GoEncode(m)| - 1] == [OPEN_BRACE] + (body + [CLOSE_BRACE]);
    PlainIsCopied([OPEN_BRACE], body + [CLOSE_BRACE]);
    RepairedEntries(Entries(m), [CLOSE_BRACE]);
    PlainIsCopied([CLOSE_BRACE], []);
    assert [CLOSE_BRACE] + [] == [CLOSE_BRACE];
    EmptyUnescapes();
  }

  // ---------------------------------------------------------------------------
  // Go's canonical JSON
  // ---------------------------------------------------------------------------

  method GoCanonicalJson(m: Inputs) returns (r: Bytes)
    ensures r == ObjectText(m)
  {
    var encoded := GoEncode(m);
    RepairedObject(m);
    // bytes.TrimSuffix of the encoder's newline
    r := UnescapeLineTerminators(encoded[..|encoded| - 1]);
  }

  /** Go's streamCanonical: the same text as PHP's key-by-key assembly. */
  method StreamCanonical(open: StreamOpen, n: int) returns (r: Result<Bytes, OpenError>)
    ensures r == if !ValidType(open.typ) then Err(BadStreamType)
                 else if !Acceptable(open) then Err(ReservedKey)
                 else Ok(Canonical(open, n))
  {
    if !ValidType(open.typ) {
      return Err(BadStreamType);
    }
    var inputs := CollectInputs(open, n);
    if inputs.Err? {
      return Err(inputs.error);
    }
    var text := GoCanonicalJson(inputs.value);
    r := Ok(text);
  }
}
