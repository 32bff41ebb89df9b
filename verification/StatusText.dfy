/**
 Percent coding of gRPC status text (go/adapters/grpctransport/replay.go, headers.go);
 section 2.1 of RFC 3986.
 */
module StatusText {
  import opened Prelude

  const PERCENT: byte := 0x25

  predicate Printable(c: byte) {
    0x20 <= c <= 0x7E
  }

  function UpperHex(d: nat): byte
    requires d < 16
  {
    if d < 10 then 0x30 + d else 0x37 + d
  }

  /** A hexadecimal digit, in either case. */
  function HexValue(c: byte): (r: Option<nat>)
    ensures r.Some? ==> r.value < 16
  {
    if 0x30 <= c <= 0x39 then Some(c - 0x30)
    else if 0x41 <= c <= 0x46 then Some(c - 0x37)
    else if 0x61 <= c <= 0x66 then Some(c - 0x57)
    else None
  }

  function EncodedByte(c: byte): Bytes {
    if Printable(c) && c != PERCENT then [c] else [PERCENT, UpperHex(c / 16), UpperHex(c % 16)]
  }

  function Encoded(s: Bytes): Bytes {
    if s == [] then [] else EncodedByte(s[0]) + Encoded(s[1..])
  }

  /** strconv.ParseUint(s[1:3], 16, 8) after a percent sign with two bytes behind it. */
  predicate StartsTriplet(s: Bytes) {
    |s| >= 3 && s[0] == PERCENT && HexValue(s[1]).Some? && HexValue(s[2]).Some?
  }

  function Decoded(s: Bytes): Bytes
    decreases |s|
  {
    if s == [] then []
    else if StartsTriplet(s) then [HexValue(s[1]).value * 16 + HexValue(s[2]).value] + Decoded(s[3..])
    else [s[0]] + Decoded(s[1..])
  }

  const HEX_UPPER := "0123456789ABCDEF"
  const HEX_LOWER := "0123456789abcdef"

  /** A byte is read as a digit exactly when it is one of sixteen, in either case. */
  lemma HexDigitIff(c: byte, d: nat)
    ensures HexValue(c) == Some(d) <==> d < 16 && (c == HEX_UPPER[d] as int || c == HEX_LOWER[d] as int)
  {
    if d < 16 {
      HexLetters(d);
    }
  }

  lemma HexLetters(d: nat)
    requires d < 16
    ensures HEX_UPPER[d] as int == if d < 10 then 0x30 + d else 0x37 + d
    ensures HEX_LOWER[d] as int == if d < 10 then 0x30 + d else 0x57 + d
  {
    assert d in {0, 1, 2, 3, 4, 5, 6, 7, 8, 9, 10, 11, 12, 13, 14, 15};
  }

  /** Section 2.1 of RFC 3986, for every byte but those from space to tilde other than the percent sign. */
  function EncodedForm(c: byte): Bytes {
    if 0x20 <= c <= 0x7E && c != 0x25 then [c] else [0x25, HEX_UPPER[c as int / 16] as int, HEX_UPPER[c as int % 16] as int]
  }

  lemma {:induction false} EncodedBytes(s: Bytes)
    ensures Encoded(s) == Flatten(seq(|s|, i requires 0 <= i < |s| => EncodedForm(s[i])))
  {
    hide EncodedByte;
    if s != [] {
      EncodedBytes(s[1..]);
      ByteForm(s[0]);
      var forms := seq(|s|, i requires 0 <= i < |s| => EncodedForm(s[i]));
      var later := seq(|s[1..]|, i requires 0 <= i < |s[1..]| => EncodedForm(s[1..][i]));
      assert forms[1..] == later;
    }
  }

  lemma ByteForm(c: byte)
    ensures EncodedByte(c) == EncodedForm(c)
  {
    HexLetters(c as int / 16);
    HexLetters(c as int % 16);
  }

  lemma EncodedStep(before: Bytes, s: Bytes, i: nat)
    requires i < |s|
    ensures before + Encoded(s[i..]) == before + EncodedByte(s[i]) + Encoded(s[i + 1..])
  {
    hide EncodedByte;
    assert s[i..][1..] == s[i + 1..];
  }

  lemma EncodedByteIsPrintable(c: byte)
    ensures forall j :: 0 <= j < |EncodedByte(c)| ==> Printable(EncodedByte(c)[j])
  {
  }

  lemma EmptyCodings()
    ensures Encoded([]) == [] == Decoded([])
  {
  }

  method EncodeGrpcMessage(s: Bytes) returns (out: Bytes)
    ensures out == Encoded(s)
    ensures forall i :: 0 <= i < |out| ==> Printable(out[i])
  {
    hide Encoded;
    out := [];
    assert s[0..] == s && [] + Encoded(s) == Encoded(s);
    for i := 0 to |s|
      invariant Encoded(s) == out + Encoded(s[i..])
      invariant forall j :: 0 <= j < |out| ==> Printable(out[j])
    {
      ghost var before := out;
      var c := s[i];
      EncodedStep(before, s, i);
      EncodedByteIsPrintable(c);
      if 0x20 <= c <= 0x7E && c != PERCENT {
        out := out + [c];
      } else {
        out := out + [PERCENT] + [UpperHex(c / 16), UpperHex(c % 16)];
      }
      assert out == before + EncodedByte(c);
    }
    EmptyCodings();
    assert s[|s|..] == [] && out + [] == out;
  }

  lemma {:induction false} NoPercentIsVerbatim(s: Bytes)
    requires PERCENT !in s
    ensures Decoded(s) == s
  {
    if s != [] {
      NoPercentIsVerbatim(s[1..]);
    }
  }

  lemma DecodedStep(before: Bytes, s: Bytes, i: nat)
    requires i < |s|
    ensures before + Decoded(s[i..])
            == if StartsTriplet(s[i..]) then before + [HexValue(s[i + 1]).value * 16 + HexValue(s[i + 2]).value] + Decoded(s[i + 3..])
               else before + [s[i]] + Decoded(s[i + 1..])
  {
    hide HexValue;
    assert s[i..][1..] == s[i + 1..];
    if StartsTriplet(s[i..]) {
      assert s[i..][3..] == s[i + 3..];
    }
  }

  method DecodeGrpcMessage(s: Bytes) returns (out: Bytes)
    ensures out == Decoded(s)
  {
    hide Decoded, HexValue;
    if PERCENT !in s {
      NoPercentIsVerbatim(s);
      return s;
    }
    out := [];
    var i := 0;
    assert s[0..] == s && [] + Decoded(s) == Decoded(s);
    while i < |s|
      invariant 0 <= i <= |s|
      invariant Decoded(s) == out + Decoded(s[i..])
    {
      DecodedStep(out, s, i);
      if s[i] == PERCENT && i + 2 < |s| && HexValue(s[i + 1]).Some? && HexValue(s[i + 2]).Some? {
        out := out + [HexValue(s[i + 1]).value * 16 + HexValue(s[i + 2]).value];
        i := i + 3;
      } else {
        out := out + [s[i]];
        i := i + 1;
      }
    }
    EmptyCodings();
    assert s[i..] == [] && out + [] == out;
  }

  lemma HexReadsBack(d: nat)
    requires d < 16
    ensures HexValue(UpperHex(d)) == Some(d)
  {
  }

  /** What is encoded decodes to itself, for every byte string. */
  lemma {:induction false} StatusTextRoundTrip(s: Bytes)
    ensures Decoded(Encoded(s)) == s
  {
    if s != [] {
      var c, rest := s[0], Encoded(s[1..]);
      StatusTextRoundTrip(s[1..]);
      HexReadsBack(c as int / 16);
      HexReadsBack(c as int % 16);
      var e := Encoded(s);
      assert e[|EncodedByte(c)|..] == rest;
      assert s == [c] + s[1..];
    }
  }

  /** Decoding never grows its input, and keeps it exactly when no triplet occurs in it. */
  lemma {:induction false} DecodingShrinks(s: Bytes)
    ensures |Decoded(s)| <= |s|
    ensures Decoded(s) == s <==> forall i :: 0 <= i <= |s| ==> !StartsTriplet(s[i..])
    decreases |s|
  {
    if s != [] {
      assert s[0..] == s;
      if StartsTriplet(s) {
        DecodingShrinks(s[3..]);
      } else {
        DecodingShrinks(s[1..]);
        assert forall i :: 1 <= i <= |s| ==> s[i..] == s[1..][i - 1..];
        assert s == [s[0]] + s[1..];
        if Decoded(s) == s {
          assert Decoded(s)[1..] == Decoded(s[1..]);
        }
        if forall i :: 0 <= i <= |s| ==> !StartsTriplet(s[i..]) {
          forall i | 0 <= i <= |s[1..]| ensures !StartsTriplet(s[1..][i..]) {
            assert s[1..][i..] == s[i + 1..];
          }
        }
      }
    }
  }
}
