/**
 Strict base64 with a wrapping 32-bit accumulator (rs/src/b64.rs); sections 3.5 and 4 of RFC 4648.
 */
module Base64 {
  import opened Prelude

  type sextet = v: int | 0 <= v < 64

  const PAD: byte := 0x3D
  const U32 := 0x1_0000_0000

  function Letter(v: sextet): byte {
    if v < 26 then 0x41 + v
    else if v < 52 then 0x61 + (v - 26)
    else if v < 62 then 0x30 + (v - 52)
    else if v == 62 then 0x2B
    else 0x2F
  }

  function Sextet(c: byte): (r: Option<sextet>)
    ensures r.Some? ==> Letter(r.value) == c
    ensures forall v: sextet :: Letter(v) == c ==> r == Some(v)
    ensures r.Some? ==> c != PAD
  {
    if 0x41 <= c <= 0x5A then Some(c - 0x41)
    else if 0x61 <= c <= 0x7A then Some(c - 0x61 + 26)
    else if 0x30 <= c <= 0x39 then Some(c - 0x30 + 52)
    else if c == 0x2B then Some(62)
    else if c == 0x2F then Some(63)
    else None
  }

  // ---------------------------------------------------------------------------
  // Three octets a, b, c as four sextets, and back
  // ---------------------------------------------------------------------------

  function High(a: byte): sextet { a / 4 }

  function Middle1(a: byte, b: byte): sextet { a as int % 4 * 16 + b as int / 16 }

  function Middle2(b: byte, c: byte): sextet { b as int % 16 * 4 + c as int / 64 }

  function Low(c: byte): sextet { c % 64 }

  function Octet1(u: sextet, v: sextet): byte { u as int * 4 + v as int / 16 }

  function Octet2(u: sextet, v: sextet): byte { u as int % 16 * 16 + v as int / 4 }

  function Octet3(u: sextet, v: sextet): byte { u as int % 4 * 64 + v as int }

  lemma OctetsOfSextets(a: byte, b: byte, c: byte)
    ensures Octet1(High(a), Middle1(a, b)) == a
    ensures Octet2(Middle1(a, b), Middle2(b, c)) == b
    ensures Octet3(Middle2(b, c), Low(c)) == c
    ensures Middle1(a, 0) % 16 == 0 && Middle2(b, 0) % 4 == 0
  {
  }

  lemma SextetsOfOctets(p: sextet, q: sextet, r: sextet, t: sextet)
    ensures High(Octet1(p, q)) == p
    ensures Middle1(Octet1(p, q), Octet2(q, r)) == q
    ensures Middle2(Octet2(q, r), Octet3(r, t)) == r
    ensures Low(Octet3(r, t)) == t
    ensures q % 16 == 0 ==> Middle1(Octet1(p, q), 0) == q
    ensures r % 4 == 0 ==> Middle2(Octet2(q, r), 0) == r
  {
  }

  // ---------------------------------------------------------------------------
  // The encoding: 24 bits in, four sextets out, a short last group zero-filled and padded
  // ---------------------------------------------------------------------------

  function Sextets(x: Bytes): seq<sextet>
    decreases |x|
  {
    if x == [] then []
    else if |x| == 1 then [High(x[0]), Middle1(x[0], 0)]
    else if |x| == 2 then [High(x[0]), Middle1(x[0], x[1]), Middle2(x[1], 0)]
    else [High(x[0]), Middle1(x[0], x[1]), Middle2(x[1], x[2]), Low(x[2])] + Sextets(x[3..])
  }

  function Letters(vs: seq<sextet>): (r: Bytes)
    ensures |r| == |vs|
    ensures forall i :: 0 <= i < |vs| ==> r[i] == Letter(vs[i])
  {
    seq(|vs|, i requires 0 <= i < |vs| => Letter(vs[i]))
  }

  function Padding(n: nat): Bytes {
    if n % 3 == 0 then [] else if n % 3 == 1 then [PAD, PAD] else [PAD]
  }

  function Encoded(x: Bytes): Bytes {
    Letters(Sextets(x)) + Padding(|x|)
  }

  // ---------------------------------------------------------------------------
  // Sextets back to bytes
  // ---------------------------------------------------------------------------

  function Octets(vs: seq<sextet>): Bytes
    decreases |vs|
  {
    if |vs| <= 1 then []
    else if |vs| == 2 then [Octet1(vs[0], vs[1])]
    else if |vs| == 3 then [Octet1(vs[0], vs[1]), Octet2(vs[1], vs[2])]
    else [Octet1(vs[0], vs[1]), Octet2(vs[1], vs[2]), Octet3(vs[2], vs[3])] + Octets(vs[4..])
  }

  /** Bits of the last sextet that belong to no byte: how many, and their value. */
  function SpareBits(n: nat): nat {
    if n % 4 == 0 then 0 else 8 - 2 * (n % 4)
  }

  function Spare(vs: seq<sextet>): nat {
    if |vs| % 4 == 0 then 0
    else
      var last := vs[|vs| - 1];
      if |vs| % 4 == 1 then last else if |vs| % 4 == 2 then last % 16 else last % 4
  }

  lemma ShortSextetsReadBack(x: Bytes)
    requires |x| <= 2
    ensures Octets(Sextets(x)) == x && Spare(Sextets(x)) == 0
    ensures |Sextets(x)| == if x == [] then 0 else |x| + 1
  {
    hide High, Middle1, Middle2, Low, Octet1, Octet2, Octet3;
    if x != [] {
      OctetsOfSextets(x[0], if |x| > 1 then x[1] else 0, 0);
    }
  }

  lemma {:induction false} SextetsReadBack(x: Bytes)
    ensures Octets(Sextets(x)) == x && Spare(Sextets(x)) == 0
    ensures |Sextets(x)| % 4 == if |x| % 3 == 0 then 0 else |x| % 3 + 1
    decreases |x|
  {
    hide High, Middle1, Middle2, Low, Octet1, Octet2, Octet3, Spare;
    if |x| <= 2 {
      ShortSextetsReadBack(x);
    } else {
      OctetsOfSextets(x[0], x[1], x[2]);
      SextetsReadBack(x[3..]);
      var vs := Sextets(x);
      assert vs[4..] == Sextets(x[3..]);
      SpareOfTail(vs);
      assert Octets(vs) == [x[0], x[1], x[2]] + Octets(vs[4..]);
    }
  }

  lemma SpareOfTail(vs: seq<sextet>)
    requires |vs| >= 4
    ensures Spare(vs) == Spare(vs[4..])
  {
    var tail := vs[4..];
    assert |tail| % 4 == |vs| % 4;
    if tail != [] {
      assert tail[|tail| - 1] == vs[|vs| - 1];
    }
  }

  lemma ShortOctetsReadBack(vs: seq<sextet>)
    requires |vs| <= 3 && Spare(vs) == 0 && |vs| % 4 != 1
    ensures Sextets(Octets(vs)) == vs
    ensures |Octets(vs)| == if vs == [] then 0 else |vs| - 1
  {
    hide High, Middle1, Middle2, Low, Octet1, Octet2, Octet3;
    if vs != [] {
      SextetsOfOctets(vs[0], vs[1], if |vs| > 2 then vs[2] else 0, 0);
    }
  }

  lemma {:induction false} OctetsReadBack(vs: seq<sextet>)
    requires Spare(vs) == 0 && |vs| % 4 != 1
    ensures Sextets(Octets(vs)) == vs
    ensures |Octets(vs)| % 3 == if |vs| % 4 == 0 then 0 else |vs| % 4 - 1
    decreases |vs|
  {
    hide High, Middle1, Middle2, Low, Octet1, Octet2, Octet3, Spare;
    if |vs| <= 3 {
      ShortOctetsReadBack(vs);
    } else {
      SextetsOfOctets(vs[0], vs[1], vs[2], vs[3]);
      SpareOfTail(vs);
      OctetsReadBack(vs[4..]);
      var x := Octets(vs);
      assert x[3..] == Octets(vs[4..]);
      assert Sextets(x) == [vs[0], vs[1], vs[2], vs[3]] + Sextets(x[3..]);
    }
  }

  /** What the sextet v completes after the sextets vs: a byte, except at the start of a group. */
  function Completed(vs: seq<sextet>, v: sextet): Bytes {
    if |vs| % 4 == 0 then []
    else
      var last := vs[|vs| - 1];
      if |vs| % 4 == 1 then [Octet1(last, v)] else if |vs| % 4 == 2 then [Octet2(last, v)] else [Octet3(last, v)]
  }

  lemma {:induction false} OctetsSnoc(vs: seq<sextet>, v: sextet)
    ensures Octets(vs + [v]) == Octets(vs) + Completed(vs, v)
    decreases |vs|
  {
    hide Octet1, Octet2, Octet3;
    if |vs| >= 4 {
      var all := vs + [v];
      assert all[4..] == vs[4..] + [v] && all[..4] == vs[..4];
      OctetsSnoc(vs[4..], v);
      assert Completed(vs, v) == Completed(vs[4..], v);
      var group := [Octet1(vs[0], vs[1]), Octet2(vs[1], vs[2]), Octet3(vs[2], vs[3])];
      assert group + (Octets(vs[4..]) + Completed(vs, v)) == (group + Octets(vs[4..])) + Completed(vs, v);
    }
  }

  // ---------------------------------------------------------------------------
  // encode
  // ---------------------------------------------------------------------------

  /** The shifts and masks of the code, as arithmetic on the 24-bit group. */
  function GroupOf(a: byte, b: byte, c: byte): seq<sextet> {
    var n := a as int * 0x1_0000 + b as int * 0x100 + c as int;
    [n / 0x4_0000 % 64, n / 0x1000 % 64, n / 0x40 % 64, n % 64]
  }

  /** Dividing q * m + r by one of the constants the shifts use. */
  lemma Quotient(q: nat, m: nat, r: nat)
    requires m in {4, 16, 64, 256, 0x1000, 0x4_0000} && r < m
    ensures (q * m + r) / m == q && (q * m + r) % m == r
  {
  }

  /** The base-64 digits of a 24-bit number. */
  lemma Digits64(h: nat, m1: nat, m2: nat, l: nat, n: nat)
    requires h < 64 && m1 < 64 && m2 < 64 && l < 64
    requires n == ((h * 64 + m1) * 64 + m2) * 64 + l
    ensures n / 0x4_0000 % 64 == h && n / 0x1000 % 64 == m1 && n / 0x40 % 64 == m2 && n % 64 == l
  {
    var q1 := h * 64 + m1;
    var q2 := q1 * 64 + m2;
    Quotient(h, 0x4_0000, (m1 * 64 + m2) * 64 + l);
    Quotient(q1, 0x1000, m2 * 64 + l);
    Quotient(q2, 64, l);
    Quotient(q1, 64, m2);
    Quotient(h, 64, m1);
  }

  lemma Regrouped(a: nat, b: nat, c: nat)
    ensures a * 0x1_0000 + b * 0x100 + c
            == ((a / 4 * 64 + (a % 4 * 16 + b / 16)) * 64 + (b % 16 * 4 + c / 64)) * 64 + c % 64
  {
    var a1, a0, b1, b0, c1, c0 := a / 4, a % 4, b / 16, b % 16, c / 64, c % 64;
    assert a == 4 * a1 + a0 && b == 16 * b1 + b0 && c == 64 * c1 + c0;
  }

  lemma GroupArithmetic(a: byte, b: byte, c: byte)
    ensures GroupOf(a, b, c) == [High(a), Middle1(a, b), Middle2(b, c), Low(c)]
  {
    Regrouped(a, b, c);
    Digits64(High(a), Middle1(a, b), Middle2(b, c), Low(c), a as int * 0x1_0000 + b as int * 0x100 + c as int);
  }

  method Encode(data: Bytes) returns (out: Bytes)
    ensures out == Encoded(data)
  {
    hide High, Middle1, Middle2, Low, GroupOf, Encoded, Letter;
    out := [];
    var at := 0;
    EmptyEncoding();
    while at < |data|
      invariant 0 <= at <= |data|
      invariant Encoded(data) == out + Encoded(data[at..])
    {
      ghost var rest := data[at..];
      var chunk := if at + 3 <= |data| then data[at..at + 3] else data[at..];
      var idx := GroupOf(chunk[0], if |chunk| > 1 then chunk[1] else 0, if |chunk| > 2 then chunk[2] else 0);
      GroupArithmetic(chunk[0], if |chunk| > 1 then chunk[1] else 0, if |chunk| > 2 then chunk[2] else 0);
      var text: Bytes := [];
      for i := 0 to 4
        invariant text == GroupText(idx, |chunk|)[..i]
      {
        text := text + [if i <= |chunk| then Letter(idx[i]) else PAD];
      }
      FirstGroup(rest, idx);
      assert out + (text + Encoded(rest[|chunk|..])) == (out + text) + Encoded(rest[|chunk|..]);
      out := out + text;
      at := at + |chunk|;
      assert data[at..] == rest[|chunk|..];
    }
    assert data[at..] == [] && out + [] == out;
  }

  lemma EmptyEncoding()
    ensures Encoded([]) == []
  {
  }

  function GroupText(idx: seq<sextet>, n: nat): Bytes
    requires |idx| == 4
  {
    seq(4, j requires 0 <= j < 4 => if j <= n then Letter(idx[j]) else PAD)
  }

  lemma FirstGroup(x: Bytes, idx: seq<sextet>)
    requires x != [] && |idx| == 4
    requires var b, c := if |x| > 1 then x[1] else 0, if |x| > 2 then x[2] else 0;
             idx == [High(x[0]), Middle1(x[0], b), Middle2(b, c), Low(c)]
    ensures var n := if |x| < 3 then |x| else 3;
            Encoded(x) == GroupText(idx, n) + Encoded(x[n..])
  {
    hide High, Middle1, Middle2, Low, Letter;
    if |x| >= 3 {
      assert Sextets(x) == idx + Sextets(x[3..]);
      assert Letters(Sextets(x)) == GroupText(idx, 3) + Letters(Sextets(x[3..]));
      assert Padding(|x|) == Padding(|x[3..]|);
    } else {
      EmptyEncoding();
      assert Sextets(x) == idx[..|x| + 1];
    }
  }

  /** Table 1 of RFC 4648. */
  function AlphabetAt(v: sextet): char {
    if v < 26 then "ABCDEFGHIJKLMNOPQRSTUVWXYZ"[v]
    else if v < 52 then "abcdefghijklmnopqrstuvwxyz"[v - 26]
    else if v < 62 then "0123456789"[v - 52]
    else "+/"[v - 62]
  }

  lemma LetterOfAlphabet(v: sextet)
    ensures Letter(v) == AlphabetAt(v) as int
  {
    if v < 26 {
      UpperLetter(v);
    } else if v < 52 {
      LowerLetter(v - 26);
    } else if v < 62 {
      assert "0123456789"[v - 52] as int == 0x30 + v - 52 by {
        assert v in {52, 53, 54, 55, 56, 57, 58, 59, 60, 61};
      }
    }
  }

  lemma UpperLetter(i: nat)
    requires i < 26
    ensures "ABCDEFGHIJKLMNOPQRSTUVWXYZ"[i] as int == 0x41 + i
  {
    assert i in {0, 1, 2, 3, 4, 5, 6, 7, 8, 9, 10, 11, 12, 13, 14, 15, 16, 17, 18, 19, 20, 21, 22, 23, 24, 25};
  }

  lemma LowerLetter(i: nat)
    requires i < 26
    ensures "abcdefghijklmnopqrstuvwxyz"[i] as int == 0x61 + i
  {
    assert i in {0, 1, 2, 3, 4, 5, 6, 7, 8, 9, 10, 11, 12, 13, 14, 15, 16, 17, 18, 19, 20, 21, 22, 23, 24, 25};
  }

  /** The k-th group of three bytes as a number of 24 bits, zero-filled. */
  function GroupNumber(x: Bytes, k: nat): (n: nat)
    requires 3 * k < |x|
    ensures n < 0x100_0000
  {
    x[3 * k] as int * 0x1_0000 + (if 3 * k + 1 < |x| then x[3 * k + 1] as int * 0x100 else 0)
    + if 3 * k + 2 < |x| then x[3 * k + 2] as int else 0
  }

  /** It is written as four letters of six bits each, those without a bit of the input as padding. */
  ghost predicate GroupWritten(x: Bytes, k: nat, text: Bytes)
    requires 3 * k < |x|
  {
    var n := GroupNumber(x, k);
    && 4 * k + 4 <= |text|
    && text[4 * k] == AlphabetAt(n / 0x4_0000 % 64) as int
    && text[4 * k + 1] == AlphabetAt(n / 0x1000 % 64) as int
    && text[4 * k + 2] == (if 3 * k + 1 < |x| then AlphabetAt(n / 0x40 % 64) else '=') as int
    && text[4 * k + 3] == (if 3 * k + 2 < |x| then AlphabetAt(n % 64) else '=') as int
  }

  lemma NextGroup(x: Bytes, k: nat, first: Bytes, text: Bytes)
    requires 0 < k && 3 * k < |x| && |first| == 4 && GroupWritten(x[3..], k - 1, text)
    ensures GroupWritten(x, k, first + text)
  {
    hide AlphabetAt, GroupNumber;
    assert GroupNumber(x, k) == GroupNumber(x[3..], k - 1) by { SameGroup(x, k); }
    assert forall j :: 0 <= j < |text| ==> (first + text)[4 + j] == text[j];
    assert 4 + 4 * (k - 1) == 4 * k;
  }

  lemma SameGroup(x: Bytes, k: nat)
    requires 0 < k && 3 * k < |x|
    ensures GroupNumber(x, k) == GroupNumber(x[3..], k - 1)
  {
    assert forall j :: 0 <= j < |x| - 3 ==> x[3..][j] == x[3 + j];
  }

  /** Section 4 of RFC 4648, group by group. */
  lemma {:induction false} EncodedGroup(x: Bytes, k: nat)
    requires 3 * k < |x|
    ensures GroupWritten(x, k, Encoded(x))
    decreases k
  {
    hide High, Middle1, Middle2, Low, Letter, Encoded, GroupOf, GroupText, GroupWritten;
    var b, c := if |x| > 1 then x[1] else 0, if |x| > 2 then x[2] else 0;
    var m := if |x| < 3 then |x| else 3;
    GroupArithmetic(x[0], b, c);
    FirstGroup(x, GroupOf(x[0], b, c));
    var first := GroupText(GroupOf(x[0], b, c), m);
    FirstGroupWritten(x, Encoded(x[m..]));
    if k > 0 {
      EncodedGroup(x[3..], k - 1);
      NextGroup(x, k, first, Encoded(x[3..]));
    }
  }

  lemma FirstGroupWritten(x: Bytes, text: Bytes)
    requires x != []
    ensures var b, c := if |x| > 1 then x[1] else 0, if |x| > 2 then x[2] else 0;
            var first := GroupText(GroupOf(x[0], b, c), if |x| < 3 then |x| else 3);
            |first| == 4 && GroupWritten(x, 0, first + text)
  {
    hide Letter, AlphabetAt;
    var b, c := if |x| > 1 then x[1] else 0, if |x| > 2 then x[2] else 0;
    var idx := GroupOf(x[0], b, c);
    assert GroupNumber(x, 0) == x[0] as int * 0x1_0000 + b as int * 0x100 + c as int;
    LetterOfAlphabet(idx[0]);
    LetterOfAlphabet(idx[1]);
    LetterOfAlphabet(idx[2]);
    LetterOfAlphabet(idx[3]);
  }

  // ---------------------------------------------------------------------------
  // decode
  // ---------------------------------------------------------------------------

  datatype DecodeError = BadLength | TooMuchPadding | BadCharacter | NonCanonical | PaddingMismatch

  function TrailingPads(s: Bytes): (n: nat)
    ensures n <= |s|
    ensures forall i :: |s| - n <= i < |s| ==> s[i] == PAD
    ensures n < |s| ==> s[|s| - n - 1] != PAD
  {
    if s == [] || s[|s| - 1] != PAD then 0 else 1 + TrailingPads(s[..|s| - 1])
  }

  lemma {:induction false} PadsAfterLetters(vs: seq<sextet>, pads: Bytes)
    requires forall i :: 0 <= i < |pads| ==> pads[i] == PAD
    ensures TrailingPads(Letters(vs) + pads) == |pads|
  {
    var s := Letters(vs) + pads;
    if pads != [] {
      assert s[..|s| - 1] == Letters(vs) + pads[..|pads| - 1];
      PadsAfterLetters(vs, pads[..|pads| - 1]);
    } else if vs != [] {
      assert Sextet(PAD).None? && s[|s| - 1] == Letter(vs[|vs| - 1]);
    }
  }

  /** What every encoding looks like. */
  lemma EncodedShape(x: Bytes)
    ensures var s := Encoded(x);
            && |s| % 4 == 0 && TrailingPads(s) == |Padding(|x|)| <= 2
            && s[..|s| - TrailingPads(s)] == Letters(Sextets(x))
  {
    hide Sextets, Letter, TrailingPads, Padding, Octets, Spare;
    SextetsReadBack(x);
    PaddingCompletes(|x|, |Sextets(x)|);
    PadsAfterLetters(Sextets(x), Padding(|x|));
    var letters, pads := Letters(Sextets(x)), Padding(|x|);
    assert (letters + pads)[..|letters|] == letters;
  }

  lemma PaddingCompletes(n: nat, m: nat)
    requires m % 4 == if n % 3 == 0 then 0 else n % 3 + 1
    ensures (m + |Padding(n)|) % 4 == 0 && |Padding(n)| <= 2
    ensures forall i :: 0 <= i < |Padding(n)| ==> Padding(n)[i] == PAD
  {
  }

  lemma LettersDetermine(vs: seq<sextet>, ws: seq<sextet>)
    requires Letters(vs) == Letters(ws)
    ensures vs == ws
  {
    forall i | 0 <= i < |vs| ensures i < |ws| && vs[i] == ws[i] {
      assert Letters(vs)[i] == Letters(ws)[i];
      assert Sextet(Letter(vs[i])) == Some(vs[i]) && Sextet(Letter(ws[i])) == Some(ws[i]);
    }
  }

  /** acc << 6 | v in 32 bits: what is shifted out is above the 12 low bits. */
  lemma Shifted(acc: nat, v: sextet) returns (k: nat)
    requires acc < U32
    ensures acc * 64 % U32 + v == k * 4096 + acc % 64 * 64 + v < U32
  {
    var kept := acc % 0x400_0000;
    assert acc * 64 == acc / 0x400_0000 * U32 + kept * 64;
    assert acc * 64 % U32 == kept * 64;
    k := kept / 64;
    assert kept % 64 == acc % 64;
  }

  /** Byte number q of the value above r's bits. */
  lemma ByteAbove(n: nat, k: nat, o: nat, m: nat, r: nat)
    requires m in {4, 16} && r < m && o < 256 && n == (k * 256 + o) * m + r
    ensures n / m % 256 == o
  {
    Quotient(k * 256 + o, m, r);
    Quotient(k, 256, o);
  }

  lemma LowBits(k: nat, u: sextet, v: sextet)
    ensures var n := k * 4096 + u as int * 64 + v as int;
            n % 64 == v && n / 16 % 256 == Octet1(u, v) && n / 4 % 256 == Octet2(u, v) && n % 256 == Octet3(u, v)
  {
    var n, u', v' := k * 4096 + u as int * 64 + v as int, u as int, v as int;
    var o1, o2, o3 := u' * 4 + v' / 16, u' % 16 * 16 + v' / 4, u' % 4 * 64 + v';
    assert n == (k * 64 + u') * 64 + v';
    Quotient(k * 64 + u', 64, v');
    assert n == (k * 256 + o1) * 16 + v' % 16;
    ByteAbove(n, k, o1, 16, v' % 16);
    assert n == ((k * 4 + u' / 16) * 256 + o2) * 4 + v' % 4;
    ByteAbove(n, k * 4 + u' / 16, o2, 4, v' % 4);
    assert n == (k * 16 + u' / 4) * 256 + o3;
    Quotient(k * 16 + u' / 4, 256, o3);
  }

  lemma AccumulatorStep(acc: nat, v: sextet)
    requires acc < U32
    ensures var next, last := acc * 64 % U32 + v, acc % 64;
            && next < U32 && next % 64 == v
            && next / 16 % 256 == Octet1(last, v) && next / 4 % 256 == Octet2(last, v) && next % 256 == Octet3(last, v)
  {
    hide Octet1, Octet2, Octet3;
    var k := Shifted(acc, v);
    LowBits(k, acc % 64, v);
  }

  /** s is no encoding, for the reason e. */
  ghost predicate Refused(s: Bytes, e: DecodeError) {
    match e
    case BadLength => |s| % 4 != 0
    case TooMuchPadding => TrailingPads(s) > 2
    case BadCharacter => exists i :: 0 <= i < |s| - TrailingPads(s) && Sextet(s[i]).None?
    case NonCanonical => exists vs :: Letters(vs) == s[..|s| - TrailingPads(s)] && Spare(vs) != 0
    case PaddingMismatch => false
  }

  lemma RefusedIsNoEncoding(s: Bytes, e: DecodeError, x: Bytes)
    requires Refused(s, e)
    ensures s != Encoded(x)
  {
    if s == Encoded(x) {
      EncodingIsNotRefused(x, e);
    }
  }

  lemma EncodingIsNotRefused(x: Bytes, e: DecodeError)
    ensures !Refused(Encoded(x), e)
  {
    hide Sextets, Letter, TrailingPads, Sextet, Spare, Encoded;
    EncodedShape(x);
    SextetsReadBack(x);
    var s := Encoded(x);
    var body := s[..|s| - TrailingPads(s)];
    forall i | 0 <= i < |body| ensures Sextet(s[i]).Some? {
      assert body[i] == Letter(Sextets(x)[i]);
    }
    forall vs | Letters(vs) == body ensures Spare(vs) == 0 {
      LettersDetermine(vs, Sextets(x));
    }
  }

  /** acc >> n, for the shifts that occur. */
  function ShiftRight(acc: nat, n: nat): nat
    requires n < 8
  {
    acc / [1, 2, 4, 8, 16, 32, 64, 128][n]
  }

  /** acc & ((1 << n) - 1) */
  function LowMask(acc: nat, n: nat): nat
    requires n < 8
  {
    acc % [1, 2, 4, 8, 16, 32, 64, 128][n]
  }

  /** One turn of the loop: the sextet shifted in, and the byte it completes shifted out. */
  lemma DecodeStep(vs: seq<sextet>, v: sextet, acc: nat)
    requires acc < U32 && acc % 64 == if vs == [] then 0 else vs[|vs| - 1]
    ensures var next, nbits := acc * 64 % U32 + v, SpareBits(|vs|) + 6;
            && next < U32 && next % 64 == v
            && SpareBits(|vs| + 1) == (if nbits >= 8 then nbits - 8 else nbits)
            && Octets(vs + [v]) == Octets(vs) + if nbits >= 8 then [ShiftRight(next, nbits - 8) % 256] else []
  {
    hide *;
    AccumulatorStep(acc, v);
    var next := acc * 64 % U32 + v;
    OctetsSnoc(vs, v);
    SpareStep(|vs|);
    CompletedByte(vs, v, next);
    assert Completed(vs, v) == if SpareBits(|vs|) >= 2 then [ShiftRight(next, SpareBits(|vs|) - 2) % 256] else [];
  }

  lemma SpareStep(n: nat)
    ensures SpareBits(n) == if n % 4 == 0 then 0 else 8 - 2 * (n % 4)
    ensures SpareBits(n + 1) == if n % 4 == 0 then 6 else SpareBits(n) - 2
    ensures SpareBits(n) >= 2 <==> n % 4 != 0
    ensures n % 4 != 0 ==> SpareBits(n) - 2 == 6 - 2 * (n % 4)
  {
  }

  /** The byte that v completes is the accumulator shifted by the bits left over. */
  lemma CompletedByte(vs: seq<sextet>, v: sextet, next: nat)
    requires var last := if vs == [] then 0 else vs[|vs| - 1];
             next / 16 % 256 == Octet1(last, v) && next / 4 % 256 == Octet2(last, v) && next % 256 == Octet3(last, v)
    ensures Completed(vs, v) == if |vs| % 4 == 0 then [] else [ShiftRight(next, 6 - 2 * (|vs| % 4)) % 256]
  {
    hide Octet1, Octet2, Octet3;
  }

  /** Accepts exactly the encodings, and returns what they encode; the last padding test never fires. */
  method Decode(s: Bytes) returns (r: Result<Bytes, DecodeError>)
    ensures match r
            case Ok(x) => s == Encoded(x)
            case Err(e) => Refused(s, e) && forall x :: s != Encoded(x)
  {
    var e := DecodeChecked(s);
    r := e;
    if e.Err? {
      forall x ensures s != Encoded(x) {
        RefusedIsNoEncoding(s, e.error, x);
      }
    }
  }

  method DecodeChecked(s: Bytes) returns (r: Result<Bytes, DecodeError>)
    ensures match r case Ok(x) => s == Encoded(x) case Err(e) => Refused(s, e)
  {
    hide Sextets, Letter, TrailingPads, Octets, Spare, LowMask, ShiftRight, SpareBits;
    if s == [] {
      EmptyEncoding();
      return Ok([]);
    }
    if |s| % 4 != 0 {
      return Err(BadLength);
    }
    var pad := TrailingPads(s);
    if pad > 2 {
      return Err(TooMuchPadding);
    }
    var body := s[..|s| - pad];
    var out: Bytes := [];
    var acc: nat, nbits: nat := 0, 0;
    ghost var vs: seq<sextet> := [];
    NoOctets();
    assert SpareBits(0) == 0 by { SpareBitsOf(0); }
    for i := 0 to |body|
      invariant |vs| == i && Letters(vs) == body[..i]
      invariant out == Octets(vs) && nbits == SpareBits(i)
      invariant acc < U32 && acc % 64 == if i == 0 then 0 else vs[i - 1]
    {
      var v := Sextet(body[i]);
      if v.None? {
        assert s[i] == body[i];
        return Err(BadCharacter);
      }
      DecodeStep(vs, v.value, acc);
      acc := acc * 64 % U32 + v.value;
      nbits := nbits + 6;
      if nbits >= 8 {
        nbits := nbits - 8;
        out := out + [ShiftRight(acc, nbits) % 256];
      }
      vs := vs + [v.value];
      assert body[..i + 1] == body[..i] + [body[i]];
    }
    assert body[..|body|] == body && s == body + s[|body|..];
    MaskIsSpare(vs, acc);
    if LowMask(acc, nbits) != 0 {
      return Err(NonCanonical);
    }
    var expectedSpare := if pad == 2 then 4 else if pad == 1 then 2 else 0;
    PaddedEnd(s, vs, pad);
    r := if nbits != expectedSpare then Err(PaddingMismatch) else Ok(out);
  }

  /** Letters without spare bits, padded to whole groups, are an encoding. */
  lemma PaddedEnd(s: Bytes, vs: seq<sextet>, pad: nat)
    requires |s| % 4 == 0 && pad <= 2 && |vs| == |s| - pad && Spare(vs) == 0
    requires s == Letters(vs) + s[|vs|..] && forall i :: |vs| <= i < |s| ==> s[i] == PAD
    ensures s == Encoded(Octets(vs))
    ensures SpareBits(|vs|) == if pad == 2 then 4 else if pad == 1 then 2 else 0
  {
    hide Sextets, Letter, Octets, Spare, SpareBits;
    OctetsReadBack(vs);
    SpareBitsOf(|vs|);
    assert s[|vs|..] == Padding(|Octets(vs)|);
  }

  lemma SpareBitsOf(n: nat)
    ensures SpareBits(n) == if n % 4 == 0 then 0 else 8 - 2 * (n % 4)
  {
  }

  lemma NoOctets()
    ensures Octets([]) == []
  {
  }

  lemma MaskIsSpare(vs: seq<sextet>, acc: nat)
    requires acc % 64 == if vs == [] then 0 else vs[|vs| - 1]
    ensures LowMask(acc, SpareBits(|vs|)) == Spare(vs)
  {
    hide LowMask, SpareBits;
    SpareBitsOf(|vs|);
    MasksOf(acc);
  }

  lemma MasksOf(acc: nat)
    ensures LowMask(acc, 0) == 0 && LowMask(acc, 2) == acc % 64 % 4 && LowMask(acc, 4) == acc % 64 % 16 && LowMask(acc, 6) == acc % 64
  {
  }

  // ---------------------------------------------------------------------------
  // The bijection
  // ---------------------------------------------------------------------------

  /** Distinct byte strings have distinct encodings, so Decode returns the one string encoded. */
  lemma EncodedInjective(x: Bytes, y: Bytes)
    ensures Encoded(x) == Encoded(y) <==> x == y
  {
    if Encoded(x) == Encoded(y) {
      EncodedShape(x);
      EncodedShape(y);
      LettersDetermine(Sextets(x), Sextets(y));
      SextetsReadBack(x);
      SextetsReadBack(y);
    }
  }

  /** decode(encode(x)) == x, run through both methods. */
  method RoundTrip(x: Bytes) returns (r: Result<Bytes, DecodeError>)
    ensures r == Ok(x)
  {
    var s := Encode(x);
    r := Decode(s);
    if r.Ok? {
      EncodedInjective(r.value, x);
    }
  }
}
