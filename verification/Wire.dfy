/**
 Reassembly of length-prefixed gRPC messages from DATA payloads, and the printer
 that is its inverse (go/adapters/grpctransport/demux.go, replay.go).
 */
module Wire {
  import opened Prelude

  const PREFIX_LEN := 5
  const MAX_MESSAGE_SIZE := 0x400_0000
  const WRITE_CHUNK := 0x4000

  /** binary.BigEndian.Uint32 */
  function BigEndian32(b: Bytes): (n: nat)
    requires |b| == 4
  {
    b[0] as int * 0x100_0000 + b[1] as int * 0x1_0000 + b[2] as int * 0x100 + b[3] as int
  }

  /** The length announced by the message header at the front of s. */
  function Announced(s: Bytes): nat
    requires |s| >= PREFIX_LEN
  {
    BigEndian32(s[1..PREFIX_LEN])
  }

  predicate OverCap(s: Bytes) {
    |s| >= PREFIX_LEN && Announced(s) > MAX_MESSAGE_SIZE
  }

  /** Nothing more can be read from s: it is short of a message, or over the cap. */
  predicate Stuck(s: Bytes) {
    |s| < PREFIX_LEN || Announced(s) > MAX_MESSAGE_SIZE || |s| < PREFIX_LEN + Announced(s)
  }

  datatype Parsed = Parsed(msgs: seq<Bytes>, rest: Bytes)

  /** One reading of a whole byte stream. */
  function Parse(s: Bytes): Parsed
    decreases |s|
  {
    if Stuck(s) then
      Parsed([], s)
    else
      var total := PREFIX_LEN + Announced(s);
      var tail := Parse(s[total..]);
      Parsed([s[PREFIX_LEN..total]] + tail.msgs, tail.rest)
  }

  // ---------------------------------------------------------------------------
  // The grammar that Parse reads
  // ---------------------------------------------------------------------------

  /** byte(n >> 24), byte(n >> 16), byte(n >> 8), byte(n) */
  function LengthBytes(n: nat): (b: Bytes)
    ensures |b| == 4
  {
    [n / 0x100_0000 % 256, n / 0x1_0000 % 256, n / 0x100 % 256, n % 256]
  }

  /** One message on the wire, under an arbitrary compression byte. */
  function Framed(flag: byte, msg: Bytes): Bytes {
    [flag] + LengthBytes(|msg|) + msg
  }

  function FramedAll(flags: Bytes, msgs: seq<Bytes>): Bytes
    requires |flags| == |msgs|
  {
    if msgs == [] then [] else Framed(flags[0], msgs[0]) + FramedAll(flags[1..], msgs[1..])
  }

  predicate WithinCap(msgs: seq<Bytes>) {
    forall i :: 0 <= i < |msgs| ==> |msgs[i]| <= MAX_MESSAGE_SIZE
  }

  lemma LengthBytesAt(n: nat)
    ensures BigEndian32(LengthBytes(n)) == n % 0x1_0000_0000
  {
    var n1, n2, n3 := n / 0x100, n / 0x1_0000, n / 0x100_0000;
    assert n2 == n1 / 0x100 && n3 == n2 / 0x100 && n / 0x1_0000_0000 == n3 / 0x100;
    assert n == n1 * 0x100 + n % 0x100;
    assert n1 == n2 * 0x100 + n1 % 0x100;
    assert n2 == n3 * 0x100 + n2 % 0x100;
  }

  lemma AnnouncedInFramed(flag: byte, msg: Bytes, rest: Bytes)
    ensures |Framed(flag, msg) + rest| >= PREFIX_LEN
    ensures Announced(Framed(flag, msg) + rest) == |msg| % 0x1_0000_0000
  {
    LengthBytesAt(|msg|);
    assert (Framed(flag, msg) + rest)[1..PREFIX_LEN] == LengthBytes(|msg|);
  }

  /** A 4-byte big-endian number is determined by its value. */
  lemma LengthBytesOf(b: Bytes)
    requires |b| == 4
    ensures LengthBytes(BigEndian32(b)) == b
  {
    var n := BigEndian32(b);
    assert n % 256 == b[3];
    assert n / 0x100 == b[0] as int * 0x1_0000 + b[1] as int * 0x100 + b[2] as int;
    assert n / 0x1_0000 == b[0] as int * 0x100 + b[1] as int;
    assert n / 0x100_0000 == b[0];
  }

  /** Completeness: any decomposition into framed messages and a stuck rest is what Parse finds. */
  lemma {:induction false} ParseFindsEveryReading(flags: Bytes, msgs: seq<Bytes>, rest: Bytes)
    requires |flags| == |msgs| && WithinCap(msgs) && Stuck(rest)
    ensures Parse(FramedAll(flags, msgs) + rest) == Parsed(msgs, rest)
  {
    hide BigEndian32, LengthBytes;
    if msgs == [] {
      assert FramedAll(flags, msgs) + rest == rest;
    } else {
      var tail := FramedAll(flags[1..], msgs[1..]) + rest;
      var s := Framed(flags[0], msgs[0]) + tail;
      assert FramedAll(flags, msgs) + rest == s;
      AnnouncedInFramed(flags[0], msgs[0], tail);
      assert s[PREFIX_LEN + |msgs[0]|..] == tail;
      assert s[PREFIX_LEN..PREFIX_LEN + |msgs[0]|] == msgs[0];
      ParseFindsEveryReading(flags[1..], msgs[1..], rest);
    }
  }

  /** Soundness: what Parse finds is such a decomposition. */
  lemma {:induction false} ParseIsAReading(s: Bytes) returns (flags: Bytes)
    ensures var p := Parse(s);
            && |flags| == |p.msgs| && WithinCap(p.msgs) && Stuck(p.rest)
            && s == FramedAll(flags, p.msgs) + p.rest
    decreases |s|
  {
    hide BigEndian32, LengthBytes, Parse, Framed;
    if Stuck(s) {
      flags := [];
      StuckReadsNothing(s);
    } else {
      var total := PREFIX_LEN + Announced(s);
      var more := ParseIsAReading(s[total..]);
      flags := [s[0]] + more;
      FirstFrame(s);
      ParseOne(s);
      var p, tail := Parse(s), Parse(s[total..]);
      assert flags[1..] == more && p.msgs[1..] == tail.msgs;
      assert Framed(s[0], p.msgs[0]) + (FramedAll(more, tail.msgs) + tail.rest)
          == Framed(s[0], p.msgs[0]) + FramedAll(more, tail.msgs) + tail.rest;
    }
  }

  lemma FirstFrame(s: Bytes)
    requires !Stuck(s)
    ensures var total := PREFIX_LEN + Announced(s);
            s == Framed(s[0], s[PREFIX_LEN..total]) + s[total..]
  {
    hide BigEndian32, LengthBytes;
    LengthBytesOf(s[1..PREFIX_LEN]);
  }

  // ---------------------------------------------------------------------------
  // Chunking
  // ---------------------------------------------------------------------------

  /** Bytes that follow only extend the reading; an over-cap header blocks it for good. */
  lemma {:induction false} ParseExtends(a: Bytes, b: Bytes)
    ensures var p := Parse(a);
            if OverCap(p.rest) then
              Parse(a + b) == Parsed(p.msgs, p.rest + b) && OverCap(p.rest + b)
            else
              var q := Parse(p.rest + b);
              Parse(a + b) == Parsed(p.msgs + q.msgs, q.rest)
    decreases |a|
  {
    hide Parse, Stuck, OverCap, Announced;
    HeaderKept(a, b);
    if Stuck(a) {
      StuckReadsNothing(a);
      if OverCap(a) {
        StuckReadsNothing(a + b);
      }
      assert [] + Parse(a + b).msgs == Parse(a + b).msgs;
    } else {
      var total := PREFIX_LEN + Announced(a);
      assert (a + b)[total..] == a[total..] + b;
      assert (a + b)[PREFIX_LEN..total] == a[PREFIX_LEN..total];
      ParseExtends(a[total..], b);
      ParseOne(a);
      ParseOne(a + b);
    }
  }

  /** A complete header, a complete message, an over-cap header: each survives more bytes. */
  lemma HeaderKept(a: Bytes, b: Bytes)
    ensures |a| >= PREFIX_LEN ==> Announced(a + b) == Announced(a)
    ensures !Stuck(a) ==> PREFIX_LEN + Announced(a) <= |a| && !Stuck(a + b)
    ensures OverCap(a) ==> OverCap(a + b) && Stuck(a + b)
  {
    hide BigEndian32;
    if |a| >= PREFIX_LEN {
      assert (a + b)[1..PREFIX_LEN] == a[1..PREFIX_LEN];
    }
  }

  lemma ParseOne(s: Bytes)
    requires !Stuck(s)
    ensures var total := PREFIX_LEN + Announced(s);
            Parse(s) == Parsed([s[PREFIX_LEN..total]] + Parse(s[total..]).msgs, Parse(s[total..]).rest)
  {
  }

  lemma StuckReadsNothing(s: Bytes)
    requires Stuck(s)
    ensures Parse(s) == Parsed([], s)
  {
  }

  lemma {:induction false} ParseRestIsStuck(s: Bytes)
    ensures Stuck(Parse(s).rest)
    decreases |s|
  {
    hide BigEndian32;
    if !Stuck(s) {
      ParseRestIsStuck(s[PREFIX_LEN + Announced(s)..]);
    }
  }

  datatype FeedRun = FeedRun(out: seq<Bytes>, buf: Bytes, failed: bool)

  /** Feeding payloads one by one; the first error ends the direction's decoder loop. */
  function FeedAll(buf: Bytes, chunks: seq<Bytes>): FeedRun
    decreases |chunks|
  {
    if chunks == [] then
      FeedRun([], buf, false)
    else
      var p := Parse(buf + chunks[0]);
      if OverCap(p.rest) then
        FeedRun([], p.rest, true)
      else
        var r := FeedAll(p.rest, chunks[1..]);
        r.(out := p.msgs + r.out)
  }

  lemma {:induction false} FeedAllFrom(buf: Bytes, chunks: seq<Bytes>)
    requires !OverCap(buf) && Stuck(buf)
    ensures var r := FeedAll(buf, chunks);
            var whole := Parse(buf + Flatten(chunks));
            && r.failed == OverCap(whole.rest)
            && r.out <= whole.msgs
            && (!r.failed ==> r.out == whole.msgs && r.buf == whole.rest)
            && (r.failed ==> r.buf <= whole.rest)
    decreases |chunks|
  {
    hide Parse, OverCap, Stuck;
    if chunks == [] {
      assert buf + Flatten(chunks) == buf;
      StuckReadsNothing(buf);
    } else {
      var p := Parse(buf + chunks[0]);
      assert buf + Flatten(chunks) == (buf + chunks[0]) + Flatten(chunks[1..]);
      ParseExtends(buf + chunks[0], Flatten(chunks[1..]));
      ParseRestIsStuck(buf + chunks[0]);
      if !OverCap(p.rest) {
        FeedAllFrom(p.rest, chunks[1..]);
      }
    }
  }

  /**
   However a byte stream is cut into payloads, a fresh decoder outputs the one reading of
   the whole stream and keeps its rest; it fails exactly when that reading ends at an
   over-cap header, and has then output only a prefix of it.
   */
  lemma ChunkingInvariance(chunks: seq<Bytes>)
    ensures var r := FeedAll([], chunks);
            var whole := Parse(Flatten(chunks));
            && r.failed == OverCap(whole.rest)
            && (!r.failed ==> r.out == whole.msgs && r.buf == whole.rest)
            && (r.failed ==> r.out <= whole.msgs && r.buf <= whole.rest)
  {
    FeedAllFrom([], chunks);
    assert [] + Flatten(chunks) == Flatten(chunks);
  }

  /** What the first k payloads hold. */
  function ReadOf(buf: Bytes, chunks: seq<Bytes>, k: nat): Parsed
    requires k <= |chunks|
  {
    Parse(buf + Flatten(chunks[..k]))
  }

  lemma ReadOfStep(buf: Bytes, chunks: seq<Bytes>, k: nat)
    requires 0 < k <= |chunks|
    ensures var p := Parse(buf + chunks[0]);
            OverCap(p.rest)
            || (&& ReadOf(buf, chunks, k).msgs == p.msgs + ReadOf(p.rest, chunks[1..], k - 1).msgs
                && ReadOf(buf, chunks, k).rest == ReadOf(p.rest, chunks[1..], k - 1).rest)
  {
    hide Parse, OverCap;
    assert chunks[..k][1..] == chunks[1..][..k - 1];
    assert buf + Flatten(chunks[..k]) == (buf + chunks[0]) + Flatten(chunks[1..][..k - 1]);
    ParseExtends(buf + chunks[0], Flatten(chunks[1..][..k - 1]));
  }

  /** On failure the loss is exact: the messages completed by the payload that failed. */
  lemma {:induction false} FailureLosesOnePayload(buf: Bytes, chunks: seq<Bytes>) returns (k: nat)
    requires Stuck(buf) && !OverCap(buf) && FeedAll(buf, chunks).failed
    ensures k < |chunks|
    ensures FeedAll(buf, chunks).out == ReadOf(buf, chunks, k).msgs
    ensures !OverCap(ReadOf(buf, chunks, k).rest)
    ensures OverCap(ReadOf(buf, chunks, k + 1).rest)
    ensures Parse(buf + Flatten(chunks)).msgs == ReadOf(buf, chunks, k + 1).msgs
    decreases |chunks|
  {
    hide Parse, OverCap, Stuck, ReadOf;
    var p := Parse(buf + chunks[0]);
    if OverCap(p.rest) {
      k := 0;
      FirstReads(buf, chunks);
      ParseExtends(buf + chunks[0], Flatten(chunks[1..]));
      assert buf + Flatten(chunks) == (buf + chunks[0]) + Flatten(chunks[1..]);
    } else {
      ParseRestIsStuck(buf + chunks[0]);
      var j := FailureLosesOnePayload(p.rest, chunks[1..]);
      k := j + 1;
      ReadOfStep(buf, chunks, k);
      ReadOfStep(buf, chunks, k + 1);
      ParseExtends(buf + chunks[0], Flatten(chunks[1..]));
      assert buf + Flatten(chunks) == (buf + chunks[0]) + Flatten(chunks[1..]);
    }
  }

  /**
   Nothing is lost exactly when no payload fails, or the one that does (the k-th) completes
   no message before its over-cap header.
   */
  lemma NothingLostIff(chunks: seq<Bytes>) returns (k: nat)
    ensures var r, whole := FeedAll([], chunks), Parse(Flatten(chunks));
            && (if r.failed then k < |chunks| && !OverCap(ReadOf([], chunks, k).rest) && OverCap(ReadOf([], chunks, k + 1).rest)
                else k == |chunks|)
            && r.out == ReadOf([], chunks, k).msgs
            && (r.out == whole.msgs <==> !r.failed || ReadOf([], chunks, k).msgs == ReadOf([], chunks, k + 1).msgs)
  {
    hide FeedAll, Parse, OverCap, Stuck;
    ChunkingInvariance(chunks);
    assert [] + Flatten(chunks) == Flatten(chunks) && chunks[..|chunks|] == chunks;
    NothingRead();
    if FeedAll([], chunks).failed {
      k := FailureLosesOnePayload([], chunks);
    } else {
      k := |chunks|;
    }
  }

  lemma NothingRead()
    ensures Stuck([]) && !OverCap([]) && Parse([]) == Parsed([], [])
  {
  }

  /** A complete message lost: the payload goes on with an over-cap header. */
  lemma LostMessage() returns (payload: Bytes)
    ensures |payload| == 11 && FeedAll([], [payload]) == FeedRun([], payload[6..], true)
    ensures Parse(payload).msgs == [[7]]
  {
    payload := [0, 0, 0, 0, 1, 7, 0, 0xFF, 0, 0, 0];
    assert payload[6..] == [0, 0xFF, 0, 0, 0] && payload[5..6] == [7];
    assert payload[1..5] == [0, 0, 0, 1] && payload[6..][1..5] == [0xFF, 0, 0, 0];
    assert [] + payload == payload;
    StuckReadsNothing(payload[6..]);
    ParseOne(payload);
  }

  lemma FirstReads(buf: Bytes, chunks: seq<Bytes>)
    requires Stuck(buf) && chunks != []
    ensures ReadOf(buf, chunks, 0) == Parsed([], buf)
    ensures ReadOf(buf, chunks, 1) == Parse(buf + chunks[0])
  {
    hide Stuck;
    assert buf + Flatten(chunks[..0]) == buf;
    StuckReadsNothing(buf);
    assert chunks[..1] == [chunks[0]] && Flatten([chunks[0]]) == chunks[0];
  }

  // ---------------------------------------------------------------------------
  // The decoder
  // ---------------------------------------------------------------------------

  datatype WireError = MessageTooLong(length: nat)

  class StreamDecoder {
    var buf: Bytes

    constructor ()
      ensures buf == []
    {
      buf := [];
    }

    method Feed(data: Bytes) returns (r: Result<seq<Bytes>, WireError>)
      modifies this
      ensures var p := Parse(old(buf) + data);
              && buf == p.rest
              && r == if OverCap(p.rest) then Err(MessageTooLong(Announced(p.rest))) else Ok(p.msgs)
    {
      hide BigEndian32;
      buf := buf + data;
      ghost var whole := buf;
      var out: seq<Bytes> := [];
      while |buf| >= PREFIX_LEN
        invariant Parse(whole) == Parsed(out + Parse(buf).msgs, Parse(buf).rest)
        decreases |buf|
      {
        var n := BigEndian32(buf[1..PREFIX_LEN]);
        if n > MAX_MESSAGE_SIZE {
          return Err(MessageTooLong(n));
        }
        var total := PREFIX_LEN + n;
        if |buf| < total {
          break;
        }
        out := out + [buf[PREFIX_LEN..total]];
        buf := buf[total..];
      }
      assert out + [] == out;
      r := Ok(out);
    }
  }

  // ---------------------------------------------------------------------------
  // The printer
  // ---------------------------------------------------------------------------

  /** The DATA payloads of one write: full chunks, then what is left. */
  function Chunks(payload: Bytes): (fs: seq<Bytes>)
    ensures Flatten(fs) == payload
    ensures forall i :: 0 <= i < |fs| ==> 0 < |fs[i]| <= WRITE_CHUNK && (i < |fs| - 1 ==> |fs[i]| == WRITE_CHUNK)
  {
    if payload == [] then []
    else if |payload| <= WRITE_CHUNK then assert Flatten([payload]) == payload; [payload]
    else [payload[..WRITE_CHUNK]] + Chunks(payload[WRITE_CHUNK..])
  }

  lemma ChunksStep(before: seq<Bytes>, payload: Bytes, n: nat)
    requires payload != [] && n == if |payload| < WRITE_CHUNK then |payload| else WRITE_CHUNK
    ensures before + Chunks(payload) == before + [payload[..n]] + Chunks(payload[n..])
  {
    if n == |payload| {
      NoChunks();
      assert payload[..n] == payload && payload[n..] == [];
      assert Chunks(payload) == [payload];
    } else {
      assert Chunks(payload) == [payload[..n]] + Chunks(payload[n..]);
    }
    RegroupChunks(before, payload[..n], Chunks(payload[n..]));
  }

  lemma RegroupChunks(before: seq<Bytes>, x: Bytes, after: seq<Bytes>)
    ensures before + ([x] + after) == before + [x] + after
    ensures before + [x] == before + [x] + []
  {
  }

  lemma NoChunks()
    ensures Chunks([]) == []
  {
  }

  lemma WrittenInChunks(msg: Bytes)
    ensures var n, frames := |msg|, Chunks(Framed(0, msg));
            && Flatten(frames) == [0, n / 16777216 % 256, n / 65536 % 256, n / 256 % 256, n % 256] + msg
            && forall i :: 0 <= i < |frames| ==> 0 < |frames[i]| <= 16384 && (i < |frames| - 1 ==> |frames[i]| == 16384)
  {
    var n := |msg|;
    assert [0] + LengthBytes(n) == [0, n / 16777216 % 256, n / 65536 % 256, n / 256 % 256, n % 256];
  }

  method WriteMessage(msg: Bytes) returns (frames: seq<Bytes>)
    ensures frames == Chunks(Framed(0, msg))
    ensures var n := |msg|;
            Flatten(frames) == [0, n / 16777216 % 256, n / 65536 % 256, n / 256 % 256, n % 256] + msg
    ensures forall i :: 0 <= i < |frames| ==> 0 < |frames[i]| <= 16384 && (i < |frames| - 1 ==> |frames[i]| == 16384)
  {
    WrittenInChunks(msg);
    hide Chunks, LengthBytes;
    var payload: Bytes := [0] + LengthBytes(|msg|) + msg;
    frames := [];
    while |payload| > 0
      invariant Chunks(Framed(0, msg)) == frames + Chunks(payload)
      decreases |payload|
    {
      var n := if |payload| < WRITE_CHUNK then |payload| else WRITE_CHUNK;
      ChunksStep(frames, payload, n);
      frames := frames + [payload[..n]];
      payload := payload[n..];
    }
    NoChunks();
  }

  /** Everything writeMessage emits for a list of messages. */
  function Written(msgs: seq<Bytes>): seq<Bytes> {
    if msgs == [] then [] else Chunks(Framed(0, msgs[0])) + Written(msgs[1..])
  }

  lemma {:induction false} WrittenBytes(msgs: seq<Bytes>)
    ensures Flatten(Written(msgs)) == FramedAll(seq(|msgs|, _ => 0), msgs)
  {
    if msgs != [] {
      WrittenBytes(msgs[1..]);
      FlattenConcat(Chunks(Framed(0, msgs[0])), Written(msgs[1..]));
      assert seq(|msgs|, _ => 0 as byte)[1..] == seq(|msgs[1..]|, _ => 0 as byte);
    }
  }

  /** A message over the cap is never read back: the reading stops, or reads another length. */
  lemma {:induction false} TooLongIsMisread(flags: Bytes, msgs: seq<Bytes>)
    requires |flags| == |msgs| && !WithinCap(msgs)
    ensures Parse(FramedAll(flags, msgs)).msgs != msgs
  {
    hide BigEndian32, LengthBytes;
    var tail := FramedAll(flags[1..], msgs[1..]);
    var s := Framed(flags[0], msgs[0]) + tail;
    AnnouncedInFramed(flags[0], msgs[0], tail);
    if |msgs[0]| <= MAX_MESSAGE_SIZE {
      assert s[PREFIX_LEN + |msgs[0]|..] == tail;
      TooLongIsMisread(flags[1..], msgs[1..]);
      assert Parse(s).msgs[1..] == Parse(tail).msgs;
    } else if !Stuck(s) {
      assert |Parse(s).msgs[0]| == Announced(s) < |msgs[0]|;
    }
  }

  /** What is written is read back, buffer empty, exactly when every message is within the cap. */
  lemma WireRoundTrip(msgs: seq<Bytes>)
    ensures FeedAll([], Written(msgs)) == FeedRun(msgs, [], false) <==> forall i :: 0 <= i < |msgs| ==> |msgs[i]| <= 67108864
  {
    hide BigEndian32, LengthBytes;
    var flags: Bytes := seq(|msgs|, _ => 0);
    WrittenBytes(msgs);
    ChunkingInvariance(Written(msgs));
    if WithinCap(msgs) {
      ParseFindsEveryReading(flags, msgs, []);
      assert FramedAll(flags, msgs) + [] == FramedAll(flags, msgs);
    } else {
      TooLongIsMisread(flags, msgs);
    }
  }

  // ---------------------------------------------------------------------------
  // A fresh decoder for every payload, as the replay connection uses
  // ---------------------------------------------------------------------------

  lemma {:induction false} ParsedMessagesFit(s: Bytes)
    ensures forall i :: 0 <= i < |Parse(s).msgs| ==> PREFIX_LEN + |Parse(s).msgs[i]| <= |s|
    decreases |s|
  {
    hide BigEndian32, LengthBytes;
    if !Stuck(s) {
      ParsedMessagesFit(s[PREFIX_LEN + Announced(s)..]);
    }
  }

  /** Reading b with a fresh decoder after a gives what one decoder would have given. */
  ghost predicate SplitsCleanly(a: Bytes, b: Bytes) {
    && Parse(a + b).msgs == Parse(a).msgs + Parse(b).msgs
    && OverCap(Parse(a + b).rest) == OverCap(Parse(b).rest)
  }

  /** Zero bytes announce empty messages only. */
  lemma {:induction false} ZerosStayInCap(b: Bytes)
    requires forall i :: 0 <= i < |b| ==> b[i] == 0
    ensures !OverCap(Parse(b).rest)
    decreases |b|
  {
    if !Stuck(b) {
      ZerosStayInCap(b[PREFIX_LEN + Announced(b)..]);
    }
  }

  /** Bytes after which a stuck, non-empty, capped rest no longer reads as with a fresh decoder. */
  lemma RestIsNotSkippable(r: Bytes) returns (b: Bytes)
    requires Stuck(r) && !OverCap(r) && r != []
    ensures !SplitsCleanly(r, b) && !OverCap(Parse(b).rest)
  {
    hide BigEndian32;
    var pad: Bytes := if |r| < PREFIX_LEN then seq(PREFIX_LEN - |r|, _ => 0) else [];
    var head := r + pad;
    assert pad == [] ==> head == r;
    StuckReadsNothing(r);
    if Announced(head) > MAX_MESSAGE_SIZE {
      b := pad;
      StuckReadsNothing(head);
      ZerosStayInCap(b);
    } else {
      var body: Bytes := seq(PREFIX_LEN + Announced(head) - |head|, _ => 0);
      b := pad + body;
      var s := r + b;
      assert s[1..PREFIX_LEN] == head[1..PREFIX_LEN];
      assert Parse(s).msgs[0] == s[PREFIX_LEN..];
      ParsedMessagesFit(b);
      ZerosStayInCap(b);
    }
  }

  lemma SameAfterPrefix<T>(p: seq<T>, x: seq<T>, y: seq<T>)
    requires p + x == p + y
    ensures x == y
  {
    assert x == (p + x)[|p|..];
    assert y == (p + y)[|p|..];
  }

  /** A fresh decoder per payload is right after a, whatever follows, exactly when a ends between messages. */
  lemma FreshDecoderBoundary(a: Bytes)
    requires !OverCap(Parse(a).rest)
    ensures (forall b :: SplitsCleanly(a, b)) <==> Parse(a).rest == []
  {
    hide Parse, OverCap, Stuck;
    var r := Parse(a).rest;
    ParseRestIsStuck(a);
    if r == [] {
      forall b ensures SplitsCleanly(a, b) {
        ParseExtends(a, b);
        assert [] + b == b;
      }
    } else {
      var b := RestIsNotSkippable(r);
      StuckReadsNothing(r);
      assert Parse(r).msgs == [] && [] + Parse(b).msgs == Parse(b).msgs;
      ParseExtends(a, b);
      if SplitsCleanly(a, b) {
        SameAfterPrefix(Parse(a).msgs, Parse(r + b).msgs, Parse(b).msgs);
      }
    }
  }

  /** The DATA frames of one stream, each read with a decoder of its own; an error drops the stream. */
  function FreshAll(frames: seq<Bytes>): FeedRun {
    if frames == [] then FeedRun([], [], false)
    else
      var p := Parse(frames[0]);
      if OverCap(p.rest) then FeedRun([], [], true)
      else
        var r := FreshAll(frames[1..]);
        r.(out := p.msgs + r.out)
  }

  lemma FreshAllUnrolled(frames: seq<Bytes>)
    requires frames != []
    ensures FreshAll(frames)
            == if OverCap(Parse(frames[0]).rest) then FeedRun([], [], true)
               else FreshAll(frames[1..]).(out := Parse(frames[0]).msgs + FreshAll(frames[1..]).out)
  {
  }

  /** go onData over the frames of a stream, up to the first refused one. */
  method ServeData(frames: seq<Bytes>) returns (buffered: seq<Bytes>, failed: bool)
    ensures buffered == FreshAll(frames).out && failed == FreshAll(frames).failed
  {
    hide FreshAll, Parse, OverCap, Announced;
    buffered := [];
    NoFrames();
    for i := 0 to |frames|
      invariant FreshAll(frames).out == buffered + FreshAll(frames[i..]).out
      invariant FreshAll(frames).failed == FreshAll(frames[i..]).failed
    {
      FreshAllUnrolled(frames[i..]);
      assert frames[i..][1..] == frames[i + 1..];
      var sd := new StreamDecoder();
      var fed := sd.Feed(frames[i]);
      assert [] + frames[i] == frames[i];
      if fed.Err? {
        assert buffered + [] == buffered;
        return buffered, true;
      }
      buffered := buffered + fed.value;
    }
    assert frames[|frames|..] == [] && buffered + [] == buffered;
    failed := false;
  }

  lemma NoFrames()
    ensures FreshAll([]) == FeedRun([], [], false) && FeedAll([], []) == FeedRun([], [], false)
  {
  }

  /** Fresh decoders give what one decoder gives. */
  ghost predicate Agrees(frames: seq<Bytes>) {
    FreshAll(frames).out == FeedAll([], frames).out && FreshAll(frames).failed == FeedAll([], frames).failed
  }

  ghost predicate EndBetweenMessages(frames: seq<Bytes>) {
    forall i :: 0 <= i < |frames| ==> Parse(frames[i]).rest == []
  }

  lemma {:induction false} FreshAllSnoc(frames: seq<Bytes>, b: Bytes)
    ensures var r, p := FreshAll(frames), Parse(b);
            FreshAll(frames + [b])
            == if r.failed then r else if OverCap(p.rest) then r.(failed := true) else r.(out := r.out + p.msgs)
  {
    hide FreshAll, Parse, OverCap;
    FreshAllUnrolled(frames + [b]);
    NoFrames();
    if frames == [] {
      assert frames + [b] == [b] && [b][1..] == [];
      assert [] + Parse(b).msgs == Parse(b).msgs + [];
    } else {
      FreshAllUnrolled(frames);
      assert (frames + [b])[1..] == frames[1..] + [b];
      FreshAllSnoc(frames[1..], b);
    }
  }

  lemma {:induction false} FeedAllSnoc(buf: Bytes, frames: seq<Bytes>, b: Bytes)
    ensures var r := FeedAll(buf, frames);
            var p := Parse(r.buf + b);
            FeedAll(buf, frames + [b])
            == if r.failed then r else if OverCap(p.rest) then FeedRun(r.out, p.rest, true) else FeedRun(r.out + p.msgs, p.rest, false)
    decreases |frames|
  {
    hide Parse, OverCap;
    if frames == [] {
      assert frames + [b] == [b] && [b][1..] == [];
    } else {
      assert (frames + [b])[1..] == frames[1..] + [b];
      FeedAllSnoc(Parse(buf + frames[0]).rest, frames[1..], b);
    }
  }

  /** Bytes taken up by messages. */
  function SizeOf(msgs: seq<Bytes>): nat {
    if msgs == [] then 0 else PREFIX_LEN + |msgs[0]| + SizeOf(msgs[1..])
  }

  lemma {:induction false} SizeOfConcat(a: seq<Bytes>, b: seq<Bytes>)
    ensures SizeOf(a + b) == SizeOf(a) + SizeOf(b)
  {
    if a == [] {
      assert a + b == b;
    } else {
      assert (a + b)[1..] == a[1..] + b;
      SizeOfConcat(a[1..], b);
    }
  }

  lemma {:induction false} ReadingUsesAllBytes(s: Bytes)
    ensures SizeOf(Parse(s).msgs) + |Parse(s).rest| == |s|
    decreases |s|
  {
    hide BigEndian32;
    if !Stuck(s) {
      var total := PREFIX_LEN + Announced(s);
      ReadingUsesAllBytes(s[total..]);
      assert Parse(s).msgs[1..] == Parse(s[total..]).msgs;
    }
  }

  /** Bytes that fresh decoders leave unread. */
  function Unread(frames: seq<Bytes>): (n: nat)
    ensures n == 0 <==> forall i :: 0 <= i < |frames| ==> Parse(frames[i]).rest == []
  {
    if frames == [] then 0 else |Parse(frames[0]).rest| + Unread(frames[1..])
  }

  lemma {:induction false} FreshUsesTheRest(frames: seq<Bytes>)
    requires !FreshAll(frames).failed
    ensures SizeOf(FreshAll(frames).out) + Unread(frames) == |Flatten(frames)|
  {
    hide Parse, OverCap;
    if frames != [] {
      ReadingUsesAllBytes(frames[0]);
      FreshUsesTheRest(frames[1..]);
      SizeOfConcat(Parse(frames[0]).msgs, FreshAll(frames[1..]).out);
    }
  }

  lemma {:induction false} BoundariesAgree(frames: seq<Bytes>)
    requires EndBetweenMessages(frames)
    ensures FreshAll(frames) == FeedAll([], frames) && !FreshAll(frames).failed && FeedAll([], frames).buf == []
  {
    hide Parse;
    if frames != [] {
      assert [] + frames[0] == frames[0];
      assert EndBetweenMessages(frames[1..]);
      BoundariesAgree(frames[1..]);
    }
  }

  /** Once some frame ends inside a message, one more frame can tell the two apart. */
  lemma DisagreeingFrame(frames: seq<Bytes>) returns (b: Bytes)
    requires !FeedAll([], frames).failed && !EndBetweenMessages(frames)
    ensures !Agrees(frames + [b])
  {
    hide Parse, OverCap, Stuck, FreshAll, FeedAll, Unread;
    b := [];
    if Agrees(frames + [b]) {
      var r := FeedAll([], frames);
      ChunkingInvariance(frames);
      ParseRestIsStuck(Flatten(frames));
      StuckReadsNothing(r.buf);
      NothingRead();
      assert r.buf + [] == r.buf && r.out + [] == r.out && FreshAll(frames).out + [] == FreshAll(frames).out;
      FreshAllSnoc(frames, []);
      FeedAllSnoc([], frames, []);
      FreshUsesTheRest(frames);
      ReadingUsesAllBytes(Flatten(frames));
      assert |r.buf| == Unread(frames);
      b := RestIsNotSkippable(r.buf);
      FreshAllSnoc(frames, b);
      FeedAllSnoc([], frames, b);
      SameAfterPrefixIff(r.out, Parse(r.buf + b).msgs, Parse(b).msgs);
      assert Parse(r.buf).msgs == [] && [] + Parse(b).msgs == Parse(b).msgs;
    }
  }

  lemma SameAfterPrefixIff<T>(p: seq<T>, x: seq<T>, y: seq<T>)
    ensures p + x == p + y <==> x == y
  {
    if p + x == p + y {
      SameAfterPrefix(p, x, y);
    }
  }

  /**
   A decoder per frame, after any frames that one decoder reads without an error: it agrees
   with one decoder on every next frame exactly when each frame so far ended between messages.
   */
  lemma FreshDecodersAgree(frames: seq<Bytes>)
    requires !FeedAll([], frames).failed
    ensures (forall b :: Agrees(frames + [b])) <==> EndBetweenMessages(frames)
  {
    hide Parse, OverCap, FreshAll, FeedAll;
    if EndBetweenMessages(frames) {
      BoundariesAgree(frames);
      forall b ensures Agrees(frames + [b]) {
        FreshAllSnoc(frames, b);
        FeedAllSnoc([], frames, b);
        assert [] + b == b;
      }
    } else {
      var b := DisagreeingFrame(frames);
    }
  }

  lemma {:induction false} FreshMessagesFit(frames: seq<Bytes>, n: nat)
    requires forall i :: 0 <= i < |frames| ==> |frames[i]| <= n
    ensures forall m :: m in FreshAll(frames).out ==> PREFIX_LEN + |m| <= n
  {
    hide Parse, OverCap;
    if frames != [] {
      ParsedMessagesFit(frames[0]);
      FreshMessagesFit(frames[1..], n);
    }
  }

  lemma OneMessage(msg: Bytes)
    requires |msg| <= MAX_MESSAGE_SIZE
    ensures Parse(Framed(0, msg)) == Parsed([msg], []) && !OverCap([])
  {
    hide Parse, Framed;
    NothingRead();
    ParseFindsEveryReading([0], [msg], []);
    assert FramedAll([0], [msg]) == Framed(0, msg);
    assert Framed(0, msg) + [] == Framed(0, msg);
  }

  /** A message cut as the writer cuts it survives fresh decoders exactly when it fits in one frame. */
  lemma FreshDecodersNeedOneChunk(msg: Bytes)
    ensures FreshAll(Chunks(Framed(0, msg))).out == [msg] <==> PREFIX_LEN + |msg| <= WRITE_CHUNK
  {
    hide Parse, OverCap, Stuck, FreshAll;
    var whole := Framed(0, msg);
    FreshMessagesFit(Chunks(whole), WRITE_CHUNK);
    assert msg in [msg];
    if PREFIX_LEN + |msg| <= WRITE_CHUNK {
      var none: seq<Bytes> := [];
      ChunksStep(none, whole, |whole|);
      NoChunks();
      assert whole[..|whole|] == whole && whole[|whole|..] == [];
      assert Chunks(whole) == [whole];
      OneMessage(msg);
      FreshAllUnrolled([whole]);
      NoFrames();
      assert [whole][1..] == none && [msg] + none == [msg];
    }
  }
}
