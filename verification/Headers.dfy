/**
 What the header rules read, stated on the header lists and texts themselves
 (go/adapters/grpctransport/headers.go).
 */
module Headers {
  import opened Prelude
  import opened Demux
  import opened GrpcHeaders
  import opened Tracker
  import CanonicalJson
  import StatusText

  // ---------------------------------------------------------------------------
  // Fields
  // ---------------------------------------------------------------------------

  /** The i-th field is the first of its name. */
  ghost predicate FirstAt(fields: Fields, name: string, i: nat) {
    i < |fields| && fields[i].0 == name && forall j :: 0 <= j < i ==> fields[j].0 != name
  }

  ghost predicate Absent(fields: Fields, name: string) {
    forall i :: 0 <= i < |fields| ==> fields[i].0 != name
  }

  /** Of several fields of one name the first counts; without one the value is empty. */
  lemma {:induction false} FirstFieldCounts(fields: Fields, name: string)
    ensures HasHeader(fields, name) <==> !Absent(fields, name)
    ensures Absent(fields, name) ==> HeaderValue(fields, name) == ""
    ensures forall i: nat :: FirstAt(fields, name, i) ==> HeaderValue(fields, name) == fields[i].1
    ensures Absent(fields, name) || exists i: nat :: FirstAt(fields, name, i)
  {
    if fields != [] {
      var rest := fields[1..];
      FirstFieldCounts(rest, name);
      assert forall i :: 0 < i < |fields| ==> fields[i] == rest[i - 1];
      if fields[0].0 == name {
        assert FirstAt(fields, name, 0);
      } else {
        forall i: nat | FirstAt(fields, name, i) ensures HeaderValue(fields, name) == fields[i].1 {
          assert FirstAt(rest, name, i - 1) by {
            assert forall j :: 0 <= j < i - 1 ==> rest[j] == fields[j + 1];
          }
        }
        if !Absent(rest, name) {
          var i: nat :| FirstAt(rest, name, i);
          assert FirstAt(fields, name, i + 1);
        }
        assert Absent(rest, name) <==> Absent(fields, name);
      }
    }
  }

  /** A header block negotiates compression when its first grpc-encoding is neither empty nor identity. */
  ghost predicate Compresses(fields: Fields) {
    exists i: nat :: FirstAt(fields, "grpc-encoding", i) && fields[i].1 != "" && fields[i].1 != "identity"
  }

  lemma CompressedIff(fields: Fields)
    ensures IsCompressed(fields) <==> Compresses(fields)
  {
    FirstFieldCounts(fields, "grpc-encoding");
    if IsCompressed(fields) {
      var i: nat :| FirstAt(fields, "grpc-encoding", i);
      assert HeaderValue(fields, "grpc-encoding") == fields[i].1;
    }
  }

  // ---------------------------------------------------------------------------
  // Paths
  // ---------------------------------------------------------------------------

  /** A path of the form /service/method; the method holds no slash, and the leading slash may be missing. */
  ghost predicate PathOf(path: string, service: string, method': string) {
    && service != "" && method' != "" && '/' !in method'
    && (path == "/" + service + "/" + method' || (path == service + "/" + method' && service[0] != '/'))
  }

  lemma {:induction false} LastIndexAt(s: string, c: char, i: nat)
    requires i < |s| && s[i] == c && c !in s[i + 1..]
    ensures LastIndex(s, c) == i
    decreases |s|
  {
    if i < |s| - 1 {
      assert s[|s| - 1] == s[i + 1..][|s| - i - 2];
      assert s[i + 1..] == s[..|s| - 1][i + 1..] + [s[|s| - 1]];
      LastIndexAt(s[..|s| - 1], c, i);
    }
  }

  lemma {:induction false} LastIndexFound(s: string, c: char)
    ensures LastIndex(s, c) < 0 <==> c !in s
    ensures LastIndex(s, c) >= 0 ==> s[LastIndex(s, c)] == c && c !in s[LastIndex(s, c) + 1..]
  {
    if s != [] {
      hide LastIndex;
      var front, last := s[..|s| - 1], s[|s| - 1];
      assert s == front + [last];
      LastIndexUnrolled(s, c);
      if last == c {
        assert s[|s|..] == [];
      } else {
        LastIndexFound(front, c);
        var i := LastIndex(front, c);
        if i >= 0 {
          assert s[i + 1..] == front[i + 1..] + [last];
        }
      }
    }
  }

  lemma LastIndexUnrolled(s: string, c: char)
    requires s != []
    ensures LastIndex(s, c) == if s[|s| - 1] == c then |s| - 1 else LastIndex(s[..|s| - 1], c)
  {
  }

  lemma SplitsAt(s: string, service: string, method': string)
    requires service != "" && method' != "" && '/' !in method' && s == service + "/" + method'
    ensures LastIndex(s, '/') == |service| && s[..|service|] == service && s[|service| + 1..] == method'
  {
    LastIndexAt(s, '/', |service|);
  }

  lemma CutAt(s: string, i: nat)
    requires i < |s|
    ensures s == s[..i] + [s[i]] + s[i + 1..]
  {
  }

  lemma SplitJoins(s: string)
    requires 0 < LastIndex(s, '/') < |s| - 1
    ensures var i := LastIndex(s, '/');
            s == s[..i] + "/" + s[i + 1..] && '/' !in s[i + 1..]
  {
    hide LastIndex;
    LastIndexFound(s, '/');
    var i := LastIndex(s, '/');
    CutAt(s, i);
    assert [s[i]] == "/";
  }

  lemma PathSplits(path: string, service: string, method': string)
    requires PathOf(path, service, method')
    ensures SplitPath(path) == Some((service, method'))
  {
    hide LastIndex;
    var s := service + "/" + method';
    SplitsAt(s, service, method');
    if path == "/" + service + "/" + method' {
      assert path[0] == '/' && path[1..] == s;
    } else {
      assert path[0] == service[0];
    }
  }

  lemma SplitIsPath(path: string, service: string, method': string)
    requires SplitPath(path) == Some((service, method'))
    ensures PathOf(path, service, method')
  {
    hide LastIndex;
    var s := if path[0] == '/' then path[1..] else path;
    SplitJoins(s);
    if path[0] == '/' {
      assert path == "/" + s;
      assert "/" + (service + "/" + method') == "/" + service + "/" + method';
    }
  }

  /** A path names an RPC exactly when it has that form, and then the one it reads. */
  lemma SplitPathIff(path: string, service: string, method': string)
    ensures SplitPath(path) == Some((service, method')) <==> PathOf(path, service, method')
  {
    hide SplitPath, PathOf;
    if PathOf(path, service, method') {
      PathSplits(path, service, method');
    }
    if SplitPath(path) == Some((service, method')) {
      SplitIsPath(path, service, method');
    }
  }

  // ---------------------------------------------------------------------------
  // Numbers
  // ---------------------------------------------------------------------------

  function Zeros(k: nat): string {
    seq(k, _ => '0')
  }

  lemma {:induction false} ZerosAreNothing(k: nat)
    ensures DigitsValue(Zeros(k)) == Some(0)
  {
    if k > 0 {
      assert Zeros(k)[..k - 1] == Zeros(k - 1);
      ZerosAreNothing(k - 1);
    }
  }

  lemma DigitsSnoc(s: string, d: nat)
    requires d < 10
    ensures DigitsValue(s + [(0x30 + d) as char])
            == if DigitsValue(s).Some? then Some(DigitsValue(s).value * 10 + d) else None
  {
    hide DigitsValue;
    var c := (0x30 + d) as char;
    assert (s + [c])[..|s|] == s && (s + [c])[|s|] == c;
    DigitsUnrolled(s + [c]);
  }

  lemma DigitsUnrolled(s: string)
    requires s != ""
    ensures var front, c := DigitsValue(s[..|s| - 1]), s[|s| - 1];
            DigitsValue(s) == if front.Some? && 0x30 <= c as int <= 0x39 then Some(front.value * 10 + (c as int - 0x30)) else None
  {
  }

  lemma {:induction false} DecimalIsRead(k: nat, n: nat)
    ensures DigitsValue(Zeros(k) + Decimal(n)) == Some(n)
    decreases n
  {
    hide DigitsValue;
    if n < 10 {
      ZerosAreNothing(k);
      DigitsSnoc(Zeros(k), n);
    } else {
      DecimalIsRead(k, n / 10);
      DigitsSnoc(Zeros(k) + Decimal(n / 10), n % 10);
      assert Zeros(k) + Decimal(n) == Zeros(k) + Decimal(n / 10) + [(0x30 + n % 10) as char];
    }
  }

  /** Digits are the decimal text of their value, behind leading zeros. */
  lemma {:induction false} ReadIsDecimal(s: string) returns (k: nat)
    requires s != "" && DigitsValue(s).Some?
    ensures s == Zeros(k) + Decimal(DigitsValue(s).value)
  {
    var front, c := s[..|s| - 1], s[|s| - 1];
    var d := c as int - 0x30;
    assert s == front + [c];
    if front == "" {
      k := 0;
    } else {
      var j := ReadIsDecimal(front);
      var v := DigitsValue(front).value;
      if v == 0 {
        k := j + 1;
        assert front == Zeros(j) + "0" == Zeros(j + 1);
      } else {
        k := j;
        assert (v * 10 + d) / 10 == v && (v * 10 + d) % 10 == d;
        assert s == Zeros(j) + (Decimal(v) + [c]);
      }
    }
  }

  /** A sign or none, leading zeros, and the decimal digits of a number of 64 bits. */
  ghost predicate Denotes(s: string, n: int) {
    && -0x8000_0000_0000_0000 <= n < 0x8000_0000_0000_0000
    && exists k: nat :: DenotesWith(s, n, k)
  }

  ghost predicate DenotesWith(s: string, n: int, k: nat) {
    || (n >= 0 && s == Zeros(k) + Decimal(n))
    || (n >= 0 && s == "+" + (Zeros(k) + Decimal(n)))
    || (n <= 0 && s == "-" + (Zeros(k) + Decimal(-n)))
  }

  lemma {:induction false} DigitsStart(k: nat, n: nat)
    ensures var s := Zeros(k) + Decimal(n); s != "" && s[0] != '-' && s[0] != '+'
    decreases n
  {
    if k == 0 && n >= 10 {
      DigitsStart(0, n / 10);
      assert Zeros(0) + Decimal(n / 10) == Decimal(n / 10) && Zeros(0) + Decimal(n) == Decimal(n);
    }
  }

  lemma AtoiReads(s: string, n: int, k: nat)
    requires -0x8000_0000_0000_0000 <= n < 0x8000_0000_0000_0000 && DenotesWith(s, n, k)
    ensures Atoi(s) == Some(n)
  {
    hide DigitsValue, Decimal, Zeros;
    var size: nat := if n >= 0 then n else -n;
    var digits := Zeros(k) + Decimal(size);
    DigitsStart(k, size);
    DecimalIsRead(k, size);
    if s == digits {
    } else {
      assert s[1..] == digits;
    }
  }

  /** strconv.Atoi accepts exactly the texts that denote a 64-bit number, and returns it. */
  lemma AtoiIff(s: string, n: int)
    ensures Atoi(s) == Some(n) <==> Denotes(s, n)
  {
    hide DigitsValue, Decimal, Zeros;
    if Denotes(s, n) {
      var k: nat :| DenotesWith(s, n, k);
      AtoiReads(s, n, k);
    }
    if Atoi(s) == Some(n) {
      var signed := s[0] == '-' || s[0] == '+';
      var body := if signed then s[1..] else s;
      var k := ReadIsDecimal(body);
      assert signed ==> s == [s[0]] + body;
      assert DenotesWith(s, n, k);
    }
  }

  // ---------------------------------------------------------------------------
  // The status of a header block
  // ---------------------------------------------------------------------------

  /** The bytes of the first grpc-message. */
  ghost predicate MessageIs(fields: Fields, text: Bytes) {
    || (Absent(fields, "grpc-message") && text == [])
    || exists i: nat :: FirstAt(fields, "grpc-message", i) && text == CanonicalJson.Utf8All(fields[i].1)
  }

  /**
   Code and text as the first grpc-status and grpc-message give them: the number that the
   status denotes, in 32 bits, with the percent-decoded message; UNKNOWN, which is 2, with
   the message as it stands when the status denotes none.
   */
  ghost predicate StatusReads(fields: Fields, code: nat, text: Bytes) {
    exists i: nat, raw: Bytes :: FirstAt(fields, "grpc-status", i) && MessageIs(fields, raw)
      && ((exists n :: Denotes(fields[i].1, n) && code == n % 0x1_0000_0000 && text == StatusText.Decoded(raw))
          || ((forall n :: !Denotes(fields[i].1, n)) && code == 2 && text == raw))
  }

  lemma MessageRead(fields: Fields)
    ensures MessageIs(fields, CanonicalJson.Utf8All(HeaderValue(fields, "grpc-message")))
    ensures forall text :: MessageIs(fields, text) ==> text == CanonicalJson.Utf8All(HeaderValue(fields, "grpc-message"))
  {
    FirstFieldCounts(fields, "grpc-message");
    assert CanonicalJson.Utf8All("") == [];
  }

  /** A block carries a status exactly when it has a grpc-status field, and then the one read off its texts. */
  lemma StatusIff(fields: Fields)
    ensures GrpcStatus(fields).None? <==> Absent(fields, "grpc-status")
    ensures forall code: nat, text: Bytes :: StatusReads(fields, code, text) <==> GrpcStatus(fields) == Some((code, text))
  {
    hide Atoi, Denotes, MessageIs, StatusText.Decoded, CanonicalJson.Utf8All;
    FirstFieldCounts(fields, "grpc-status");
    MessageRead(fields);
    AtoiOfEmpty();
    var value := HeaderValue(fields, "grpc-status");
    forall n ensures Atoi(value) == Some(n) <==> Denotes(value, n) {
      AtoiIff(value, n);
    }
    if !Absent(fields, "grpc-status") {
      var i: nat :| FirstAt(fields, "grpc-status", i);
      var raw := CanonicalJson.Utf8All(HeaderValue(fields, "grpc-message"));
      assert fields[i].1 == value;
      forall code: nat, text: Bytes ensures StatusReads(fields, code, text) <==> GrpcStatus(fields) == Some((code, text)) {
        if GrpcStatus(fields) == Some((code, text)) {
          assert FirstAt(fields, "grpc-status", i) && MessageIs(fields, raw);
          if Atoi(value).Some? {
            assert Denotes(value, Atoi(value).value);
          }
        }
      }
    }
  }

  lemma AtoiOfEmpty()
    ensures Atoi("").None?
  {
  }

  /** In particular: a plain decimal code is read as that number, in 32 bits. */
  lemma DecimalCode(fields: Fields, i: nat, n: nat)
    requires FirstAt(fields, "grpc-status", i) && fields[i].1 == Decimal(n) && n < 0x8000_0000_0000_0000
    ensures GrpcStatus(fields).Some? && GrpcStatus(fields).value.0 == n % 0x1_0000_0000
    ensures GrpcStatus(fields).value.1 == StatusText.Decoded(CanonicalJson.Utf8All(HeaderValue(fields, "grpc-message")))
  {
    hide Atoi, Decimal, StatusText.Decoded, CanonicalJson.Utf8All;
    FirstFieldCounts(fields, "grpc-status");
    assert Zeros(0) + Decimal(n) == Decimal(n);
    assert DenotesWith(fields[i].1, n, 0);
    AtoiIff(fields[i].1, n);
  }

  // ---------------------------------------------------------------------------
  // The status that a replay writes
  // ---------------------------------------------------------------------------

  /** ASCII bytes as header text. */
  function AsText(b: Bytes): (s: string)
    requires forall i :: 0 <= i < |b| ==> b[i] < 0x80
    ensures |s| == |b|
  {
    seq(|b|, i requires 0 <= i < |b| => b[i] as char)
  }

  lemma {:induction false} TextOfBytes(b: Bytes)
    requires forall i :: 0 <= i < |b| ==> b[i] < 0x80
    ensures CanonicalJson.Utf8All(AsText(b)) == b
  {
    if b != [] {
      TextOfBytes(b[1..]);
      assert AsText(b)[1..] == AsText(b[1..]);
      CanonicalJson.AsciiFirst(AsText(b));
    }
  }

  lemma {:induction false} EncodedIsAscii(msg: Bytes)
    ensures forall i :: 0 <= i < |StatusText.Encoded(msg)| ==> StatusText.Encoded(msg)[i] < 0x80
    ensures StatusText.Encoded(msg) == [] <==> msg == []
  {
    if msg != [] {
      StatusText.EncodedByteIsPrintable(msg[0]);
      EncodedIsAscii(msg[1..]);
    }
  }

  /** The trailers that end an RPC, behind the given other fields. */
  function StatusFields(before: Fields, code: nat, msg: Bytes): Fields {
    EncodedIsAscii(msg);
    before + [("grpc-status", Decimal(code))]
    + if msg == [] then [] else [("grpc-message", AsText(StatusText.Encoded(msg)))]
  }

  const TRAILERS_ONLY: Fields := [(":status", "200"), ("content-type", "application/grpc")]

  lemma StatusFieldsAt(before: Fields, code: nat, msg: Bytes)
    requires Absent(before, "grpc-status") && Absent(before, "grpc-message") && Absent(before, "grpc-encoding")
    ensures var fields := StatusFields(before, code, msg);
            && FirstAt(fields, "grpc-status", |before|) && fields[|before|].1 == Decimal(code)
            && Absent(fields, "grpc-encoding") && MessageIs(fields, StatusText.Encoded(msg))
  {
    hide Decimal, StatusText.Encoded, AsText, CanonicalJson.Utf8All;
    EncodedIsAscii(msg);
    FieldNames();
    var fields := StatusFields(before, code, msg);
    assert forall i :: 0 <= i < |before| ==> fields[i] == before[i];
    if msg != [] {
      TextOfBytes(StatusText.Encoded(msg));
      assert FirstAt(fields, "grpc-message", |before| + 1);
    }
  }

  lemma FieldNames()
    ensures "grpc-status" != "grpc-message" && "grpc-status" != "grpc-encoding" && "grpc-message" != "grpc-encoding"
  {
    assert "grpc-status"[5] == 's' && "grpc-message"[5] == 'm' && "grpc-encoding"[5] == 'e';
  }

  /** Recorded again, what a replay writes as a status is the code and the text it was given, for every text. */
  lemma StatusFieldsReadBack(before: Fields, code: nat, msg: Bytes)
    requires code < 0x1_0000_0000 && before in {[], TRAILERS_ONLY}
    ensures GrpcStatus(StatusFields(before, code, msg)) == Some((code, msg)) && !IsCompressed(StatusFields(before, code, msg))
  {
    hide Decimal, StatusText.Encoded, StatusText.Decoded, StatusFields, GrpcStatus, IsCompressed;
    OtherFields();
    StatusFieldsAt(before, code, msg);
    var fields := StatusFields(before, code, msg);
    DecimalCode(fields, |before|, code);
    MessageRead(fields);
    StatusText.StatusTextRoundTrip(msg);
    CompressedIff(fields);
  }

  lemma OtherFields()
    ensures forall name :: name in {"grpc-status", "grpc-message", "grpc-encoding"} ==> Absent(TRAILERS_ONLY, name)
  {
    assert "grpc-status"[0] == 'g' && "grpc-message"[0] == 'g' && "grpc-encoding"[0] == 'g';
  }

  // ---------------------------------------------------------------------------
  // What the events of a stream say
  // ---------------------------------------------------------------------------

  /** The first :path is /service/method. */
  ghost predicate Names(fields: Fields, service: string, method': string) {
    exists i: nat :: FirstAt(fields, ":path", i) && PathOf(fields[i].1, service, method')
  }

  ghost predicate NamesAnRpc(fields: Fields) {
    exists service, method' :: Names(fields, service, method')
  }

  lemma NamesIff(fields: Fields, service: string, method': string)
    ensures Names(fields, service, method') <==> SplitPath(HeaderValue(fields, ":path")) == Some((service, method'))
  {
    hide SplitPath, PathOf;
    FirstFieldCounts(fields, ":path");
    SplitPathIff(HeaderValue(fields, ":path"), service, method');
    NoPath();
  }

  lemma NoPath()
    ensures SplitPath("").None?
  {
  }

  lemma NamesAnRpcIff(fields: Fields)
    ensures NamesAnRpc(fields) <==> SplitPath(HeaderValue(fields, ":path")).Some?
  {
    hide SplitPath, HeaderValue, Names;
    var path := SplitPath(HeaderValue(fields, ":path"));
    if path.Some? {
      NamesIff(fields, path.value.0, path.value.1);
    }
    if service, method' :| Names(fields, service, method') {
      NamesIff(fields, service, method');
    }
  }

  lemma OpensIff(o: Observed)
    ensures OpensRpc(o) <==> o.dir.ClientToServer? && o.ev.HeadersEvent? && NamesAnRpc(o.ev.fields)
  {
    hide SplitPath, HeaderValue, NamesAnRpc;
    if o.ev.HeadersEvent? {
      NamesAnRpcIff(o.ev.fields);
    }
  }

  /** A reset of either side, or an uncompressed server header block with a grpc-status field. */
  ghost predicate IsTerminal(o: Observed) {
    || o.ev.ResetEvent?
    || (o.dir.ServerToClient? && o.ev.HeadersEvent? && !Compresses(o.ev.fields) && !Absent(o.ev.fields, "grpc-status"))
  }

  /** A reset stands for CANCELLED, which is 1; a header block for what its texts say. */
  ghost predicate EndsWith(o: Observed, code: nat, text: Bytes) {
    || (o.ev.ResetEvent? && code == 1 && text == CanonicalJson.Utf8All("stream reset"))
    || (o.dir.ServerToClient? && o.ev.HeadersEvent? && !Compresses(o.ev.fields) && StatusReads(o.ev.fields, code, text))
  }

  lemma EndsIff(o: Observed)
    ensures Ends(o) <==> IsTerminal(o)
    ensures forall code: nat, text: Bytes :: EndsWith(o, code, text) <==> Ends(o) && StatusOf(o) == (code, text)
  {
    hide IsCompressed, GrpcStatus, Compresses, StatusReads, CanonicalJson.Utf8All, Absent;
    if o.ev.HeadersEvent? {
      CompressedIff(o.ev.fields);
      StatusIff(o.ev.fields);
    }
  }

  /** The handler of a direction stops with an error exactly at a compressed block that names an RPC, or that answers one. */
  lemma FailsIff(tracks: Tracks, o: Observed)
    ensures Fails(tracks, o)
            <==> o.ev.HeadersEvent? && o.ev.id != 0 && Compresses(o.ev.fields)
                 && if o.dir.ClientToServer? then NamesAnRpc(o.ev.fields) else TrackOf(tracks, o.ev.id).service != ""
  {
    hide SplitPath, HeaderValue, IsCompressed, GrpcStatus, NoteHalfClose, Compresses, NamesAnRpc;
    if o.ev.HeadersEvent? {
      CompressedIff(o.ev.fields);
      NamesAnRpcIff(o.ev.fields);
    }
  }

  /** Nothing is ever saved for stream 0, the connection itself. */
  lemma {:induction false} ConnectionSavesNothing(tracks: Tracks, evs: seq<Observed>, i: nat)
    requires i <= |evs|
    ensures forall x :: x in SavedOver(tracks, evs, i) ==> x.id != 0
    decreases |evs| - i
  {
    hide HandleOne, TracksAfter;
    if i < |evs| {
      SavedOverUnrolled(tracks, evs, i);
      ConnectionSavesNothing(TracksAfter(tracks, evs[i]), evs, i + 1);
    }
  }

  /** A saved RPC in terms of the texts: named at h, ended at e, with the log shown in between. */
  ghost predicate ReadsAs(own: seq<Observed>, h: nat, e: nat, rpc: Rpc)
    requires h < e < |own| && own[h].ev.HeadersEvent?
  {
    && Names(own[h].ev.fields, rpc.service, rpc.method')
    && EndsWith(own[e], rpc.code, rpc.text)
    && (forall i :: h < i < e ==> !IsTerminal(own[i]))
    && rpc.log == FirstHalfCloseOnly(ShownBy(own[h..e]))
  }

  /** The one RPC saved for a stream, if its naming block is uncompressed and a terminal follows it. */
  lemma SavedAsRead(own: seq<Observed>, h: nat)
    requires OpensOnceAt(own, h)
    ensures var saved := Alone(NewTrack, own);
            if !Compresses(own[h].ev.fields) && exists e :: h < e < |own| && IsTerminal(own[e]) then
              |saved| == 1 && exists e :: h < e < |own| && ReadsAs(own, h, e, saved[0])
            else
              saved == []
  {
    hide Ends, StatusOf, SplitPath, HeaderValue, IsCompressed, Compresses, Names, EndsWith, IsTerminal, Alone, LogFrom, OpensRpc;
    SavedLog(own, h);
    NamingBlock(own[h]);
    CompressedIff(own[h].ev.fields);
    forall i | 0 <= i < |own|
      ensures Ends(own[i]) <==> IsTerminal(own[i])
      ensures forall code: nat, text: Bytes :: EndsWith(own[i], code, text) <==> Ends(own[i]) && StatusOf(own[i]) == (code, text)
    {
      EndsIff(own[i]);
    }
    var e := EndFrom(own, h);
    assert LogFrom(own, h) == FirstHalfCloseOnly(ShownBy(own[h..e])) by { LogIsShown(own, h); }
    assert e < |own| <==> exists i :: h < i < |own| && IsTerminal(own[i]) by {
      assert e < |own| ==> IsTerminal(own[e]) && e != h;
    }
    if e < |own| && !IsCompressed(own[h].ev.fields) {
      var rpc := RpcFrom(own, h, h);
      assert EndsWith(own[e], rpc.code, rpc.text);
      assert Alone(NewTrack, own) == [rpc];
      assert ReadsAs(own, h, e, Alone(NewTrack, own)[0]);
    }
  }

  lemma LogIsShown(own: seq<Observed>, h: nat)
    requires h <= |own|
    ensures LogFrom(own, h) == FirstHalfCloseOnly(ShownBy(own[h..EndFrom(own, h)]))
  {
  }

  lemma NamingBlock(o: Observed)
    requires OpensRpc(o)
    ensures o.dir.ClientToServer? && o.ev.HeadersEvent? && !Ends(o) && SplitPath(HeaderValue(o.ev.fields, ":path")).Some?
    ensures var path := SplitPath(HeaderValue(o.ev.fields, ":path")).value; Names(o.ev.fields, path.0, path.1)
  {
    hide SplitPath, HeaderValue, IsCompressed, GrpcStatus, Names;
    var path := SplitPath(HeaderValue(o.ev.fields, ":path")).value;
    NamesIff(o.ev.fields, path.0, path.1);
  }

  // ---------------------------------------------------------------------------
  // One event, whatever the stream was used for before
  // ---------------------------------------------------------------------------

  /** The log with a half-close, unless it has one. */
  function WithHalfClose(log: seq<RecEvent>): seq<RecEvent> {
    if EvHalfClose in log then log else log + [EvHalfClose]
  }

  /**
   A client header block names the stream, again if it was named before, and keeps its log;
   a compressed one spoils it. A message counts once the stream is named. A server block with
   a status, or any reset, ends the stream, and saves it if it is named and not spoiled.
   */
  lemma EventByEvent(t: Track, o: Observed)
    ensures o.dir.ClientToServer? && o.ev.HeadersEvent? ==>
              forall service, method' :: Names(o.ev.fields, service, method') ==>
                HandleOne(t, o) == if Compresses(o.ev.fields) then Handled(Some(Track(service, method', t.log, true)), None, true)
                                   else Handled(Some(Track(service, method', if o.ev.endStream then WithHalfClose(t.log) else t.log,
                                                           t.compressed)), None, false)
    ensures o.dir.ClientToServer? && o.ev.HeadersEvent? && !NamesAnRpc(o.ev.fields) ==> HandleOne(t, o) == Handled(Some(t), None, false)
    ensures o.ev.MessageEvent? && t.service == "" ==> HandleOne(t, o) == Handled(Some(t), None, false)
    ensures o.ev.MessageEvent? && t.service != "" ==>
              var sent := if o.ev.message.None? then t.log
                          else t.log + [if o.dir.ClientToServer? then EvSend(o.ev.message.value) else EvRecv(o.ev.message.value)];
              HandleOne(t, o) == Handled(Some(t.(log := if o.dir.ClientToServer? && o.ev.endStream then WithHalfClose(sent) else sent)),
                                         None, false)
    ensures o.ev.ResetEvent? || t.service != "" ==>
              forall code: nat, text: Bytes :: EndsWith(o, code, text) ==>
                HandleOne(t, o) == Handled(None, if t.service == "" || t.compressed then None
                                                 else Some(Rpc(t.service, t.method', t.log, code, text)), false)
    ensures o.dir.ServerToClient? && o.ev.HeadersEvent? && (t.service == "" || !IsTerminal(o)) ==>
              HandleOne(t, o).track == Some(t) && HandleOne(t, o).saved.None?
  {
    hide SplitPath, HeaderValue, IsCompressed, GrpcStatus, Names, Compresses, NamesAnRpc, EndsWith, IsTerminal, SendsAtHalfClose;
    EndsIff(o);
    forall log: seq<RecEvent> ensures NoteHalfClose(log) == WithHalfClose(log) {
      HalfCloseKept(log);
    }
    if o.ev.HeadersEvent? {
      CompressedIff(o.ev.fields);
      NamesAnRpcIff(o.ev.fields);
      forall service, method' | Names(o.ev.fields, service, method')
        ensures SplitPath(HeaderValue(o.ev.fields, ":path")) == Some((service, method'))
      {
        NamesIff(o.ev.fields, service, method');
      }
    }
  }

  // ---------------------------------------------------------------------------
  // The half-close
  // ---------------------------------------------------------------------------

  /** The client ends its side: on a message, or on the header block at position h that names the RPC. */
  predicate ClosesAt(own: seq<Observed>, h: nat, i: nat)
    requires i < |own|
  {
    && own[i].dir.ClientToServer?
    && (own[i].ev.MessageEvent? || (i == h && own[i].ev.HeadersEvent?))
    && own[i].ev.endStream
  }

  lemma ShowsHalfClose(own: seq<Observed>, h: nat, i: nat)
    requires OpensOnceAt(own, h) && i < |own|
    ensures EvHalfClose in Shows(own[i]) <==> ClosesAt(own, h, i)
    ensures var more := Shows(own[i]);
            |more| <= 2 && (EvHalfClose in more ==> more[|more| - 1] == EvHalfClose && (|more| == 2 ==> more[0] != EvHalfClose))
  {
    hide SplitPath, HeaderValue;
  }

  lemma {:induction false} ShownSnoc(own: seq<Observed>, o: Observed)
    ensures ShownBy(own + [o]) == ShownBy(own) + Shows(o)
  {
    hide Shows;
    if own == [] {
      assert [o][1..] == [];
      assert ShownBy([o]) == Shows(o) + ShownBy([]);
    } else {
      assert (own + [o])[1..] == own[1..] + [o];
      ShownSnoc(own[1..], o);
      AppendAssociates(Shows(own[0]), ShownBy(own[1..]), Shows(o));
    }
  }

  /** Repeated half-closes do not move the first. */
  lemma {:induction false} FirstHalfCloseStays(log: seq<RecEvent>)
    ensures SendsAtHalfClose(FirstHalfCloseOnly(log)) == SendsAtHalfClose(log)
  {
    hide SendsIn, RecvsIn, SendsAtHalfClose;
    if log != [] {
      var front, last := log[..|log| - 1], log[|log| - 1];
      assert log == front + [last];
      FirstHalfCloseStays(front);
      LogSnoc(front, last);
      LogSnoc(FirstHalfCloseOnly(front), last);
      HalfCloseKept(front);
      MessagesKept(front);
      assert FirstHalfCloseOnly(front) + [] == FirstHalfCloseOnly(front);
    }
  }

  /**
   The log of a stream holds a half-close exactly when the client ended its side while it was
   recorded, and then it stands where the client did so first: after the messages shown by then.
   */
  lemma HalfCloseIff(own: seq<Observed>, h: nat, e: nat)
    requires OpensOnceAt(own, h) && h <= e <= |own|
    ensures var log := FirstHalfCloseOnly(ShownBy(own[h..e]));
            var at := SendsAtHalfClose(log);
            && (EvHalfClose !in log <==> forall i :: h <= i < e ==> !ClosesAt(own, h, i))
            && (at.None? <==> forall i :: h <= i < e ==> !ClosesAt(own, h, i))
            && forall i :: h <= i < e && ClosesAt(own, h, i) && (forall j :: h <= j < i ==> !ClosesAt(own, h, j)) ==>
                 at == Some(|SendsIn(ShownBy(own[h..i + 1]))|)
  {
    hide ClosesAt, OpensRpc, SendsIn, SendsAtHalfClose, ShownBy, FirstHalfCloseOnly;
    HalfCloseShown(own, h, e);
    FirstHalfCloseStays(ShownBy(own[h..e]));
    HalfCloseKept(ShownBy(own[h..e]));
  }

  lemma {:induction false} HalfCloseShown(own: seq<Observed>, h: nat, e: nat)
    requires OpensOnceAt(own, h) && h <= e <= |own|
    ensures var at := SendsAtHalfClose(ShownBy(own[h..e]));
            && (at.None? <==> forall i :: h <= i < e ==> !ClosesAt(own, h, i))
            && forall i :: h <= i < e && ClosesAt(own, h, i) && (forall j :: h <= j < i ==> !ClosesAt(own, h, j)) ==>
                 at == Some(|SendsIn(ShownBy(own[h..i + 1]))|)
    decreases e
  {
    hide ClosesAt, Shows, OpensRpc, SendsIn, SendsAtHalfClose, ShownBy;
    if e == h {
      assert own[h..e] == [];
      NothingShown();
    } else {
      var last, before := own[e - 1], own[h..e - 1];
      assert own[h..e] == before + [last];
      HalfCloseShown(own, h, e - 1);
      ShownSnoc(before, last);
      ShowsHalfClose(own, h, e - 1);
      AfterOneEvent(ShownBy(before), Shows(last));
    }
  }

  lemma NothingShown()
    ensures ShownBy([]) == [] && SendsAtHalfClose([]).None?
  {
  }

  /** At most two events, of which a half-close is the last. */
  lemma AfterOneEvent(log: seq<RecEvent>, more: seq<RecEvent>)
    requires |more| <= 2 && (EvHalfClose in more ==> more[|more| - 1] == EvHalfClose && (|more| == 2 ==> more[0] != EvHalfClose))
    ensures SendsAtHalfClose(log + more)
            == if SendsAtHalfClose(log).Some? then SendsAtHalfClose(log)
               else if EvHalfClose in more then Some(|SendsIn(log + more)|) else None
  {
    hide SendsIn, SendsAtHalfClose;
    if |more| == 2 {
      assert log + more == log + [more[0]] + [more[1]];
      LogSnoc(log, more[0]);
      LogSnoc(log + [more[0]], more[1]);
    } else if |more| == 1 {
      assert more == [more[0]];
      LogSnoc(log, more[0]);
    } else {
      assert log + more == log;
    }
  }
}
