/**
 Folding both directions' events into one recording per RPC
 (go/adapters/grpctransport/record.go, headers.go).
 */
module GrpcHeaders {
  import opened Prelude
  import opened Demux
  import CanonicalJson
  import StatusText

  function HeaderValue(fields: Fields, name: string): string {
    if fields == [] then "" else if fields[0].0 == name then fields[0].1 else HeaderValue(fields[1..], name)
  }

  predicate HasHeader(fields: Fields, name: string) {
    exists i :: 0 <= i < |fields| && fields[i].0 == name
  }

  function LastIndex(s: string, c: char): int
    ensures -1 <= LastIndex(s, c) < |s|
  {
    if s == [] then -1 else if s[|s| - 1] == c then |s| - 1 else LastIndex(s[..|s| - 1], c)
  }

  /** Service and method of a :path, "/pkg.Service/Method". */
  function SplitPath(path: string): (r: Option<(string, string)>)
    ensures r.Some? ==> r.value.0 != "" && r.value.1 != ""
  {
    var s := if path != "" && path[0] == '/' then path[1..] else path;
    var i := LastIndex(s, '/');
    if i <= 0 || i == |s| - 1 then None else Some((s[..i], s[i + 1..]))
  }

  predicate IsCompressed(fields: Fields) {
    var enc := HeaderValue(fields, "grpc-encoding");
    enc != "" && enc != "identity"
  }

  const OK_CODE := 0
  const CANCELED := 1
  const UNKNOWN := 2

  function DigitsValue(s: string): Option<nat> {
    if s == "" then Some(0)
    else
      var front, c := DigitsValue(s[..|s| - 1]), s[|s| - 1];
      if front.Some? && 0x30 <= c as int <= 0x39 then Some(front.value * 10 + (c as int - 0x30)) else None
  }

  /** strconv.Atoi on a 64-bit platform */
  function Atoi(s: string): Option<int> {
    var signed := s != "" && (s[0] == '-' || s[0] == '+');
    var body := if signed then s[1..] else s;
    var v := DigitsValue(body);
    if body == "" || v.None? then None
    else
      var size: int := v.value;
      var n := if signed && s[0] == '-' then -size else size;
      if -0x8000_0000_0000_0000 <= n < 0x8000_0000_0000_0000 then Some(n) else None
  }

  /** The terminal status of a server header block; None for the initial headers. */
  function GrpcStatus(fields: Fields): Option<(nat, Bytes)> {
    var raw, text := HeaderValue(fields, "grpc-status"), CanonicalJson.Utf8All(HeaderValue(fields, "grpc-message"));
    if raw == "" && !HasHeader(fields, "grpc-status") then None
    else
      match Atoi(raw)
      case None => Some((UNKNOWN, text))
      case Some(n) => Some((n % 0x1_0000_0000, StatusText.Decoded(text)))
  }
}

module Tracker {
  import opened Prelude
  import opened StreamModel
  import opened Demux
  import opened GrpcHeaders
  import CanonicalJson

  datatype Dir = ClientToServer | ServerToClient

  datatype Observed = Observed(dir: Dir, ev: WireEvent)

  datatype RecEvent = EvSend(msg: Bytes) | EvRecv(msg: Bytes) | EvHalfClose

  // ---------------------------------------------------------------------------
  // What a log says
  // ---------------------------------------------------------------------------

  function SendsIn(log: seq<RecEvent>): seq<Bytes> {
    if log == [] then []
    else SendsIn(log[..|log| - 1]) + if log[|log| - 1].EvSend? then [log[|log| - 1].msg] else []
  }

  function RecvsIn(log: seq<RecEvent>): seq<Bytes> {
    if log == [] then []
    else RecvsIn(log[..|log| - 1]) + if log[|log| - 1].EvRecv? then [log[|log| - 1].msg] else []
  }

  /** The client messages before the half-close; None without one. */
  function SendsAtHalfClose(log: seq<RecEvent>): Option<nat> {
    if log == [] then None
    else
      var front := log[..|log| - 1];
      if SendsAtHalfClose(front).Some? then SendsAtHalfClose(front)
      else if log[|log| - 1].EvHalfClose? then Some(|SendsIn(front)|)
      else None
  }

  /** One message then half-close is server streaming; at most one answer is client streaming; else bidi. */
  function InferType(log: seq<RecEvent>): string {
    if |SendsIn(log)| == 1 && SendsAtHalfClose(log) == Some(1) then SERVER
    else if |RecvsIn(log)| <= 1 then CLIENT
    else BIDI
  }

  function NoteHalfClose(log: seq<RecEvent>): seq<RecEvent> {
    if SendsAtHalfClose(log).Some? then log else log + [EvHalfClose]
  }

  // ---------------------------------------------------------------------------
  // One event on one stream
  // ---------------------------------------------------------------------------

  datatype Track = Track(service: string, method': string, log: seq<RecEvent>, compressed: bool)

  const NewTrack := Track("", "", [], false)

  /** An RPC handed to the cassette. */
  datatype Rpc = Rpc(service: string, method': string, log: seq<RecEvent>, code: nat, text: Bytes)

  /** track None: the stream is forgotten. */
  datatype Handled = Handled(track: Option<Track>, saved: Option<Rpc>, failed: bool)

  const RESET_TEXT: Bytes := CanonicalJson.Utf8All("stream reset")

  function Finish(t: Track, code: nat, text: Bytes): Handled {
    Handled(None, if t.service == "" || t.compressed then None else Some(Rpc(t.service, t.method', t.log, code, text)), false)
  }

  function Kept(t: Track): Handled {
    Handled(Some(t), None, false)
  }

  function HandleOne(t: Track, o: Observed): Handled {
    match o.ev
    case GoAwayEvent => Kept(t)
    case ResetEvent(_) => Finish(t, CANCELED, RESET_TEXT)
    case HeadersEvent(_, fields, end) =>
      if o.dir.ClientToServer? then
        var path := SplitPath(HeaderValue(fields, ":path"));
        if path.None? then Kept(t)
        else
          var named := t.(service := path.value.0, method' := path.value.1);
          if IsCompressed(fields) then Handled(Some(named.(compressed := true)), None, true)
          else Kept(if end then named.(log := NoteHalfClose(t.log)) else named)
      else if t.service == "" then Kept(t)
      else if IsCompressed(fields) then Handled(Some(t), None, true)
      else
        var status := GrpcStatus(fields);
        if status.Some? then Finish(t, status.value.0, status.value.1) else Kept(t)
    case MessageEvent(_, message, end) =>
      if t.service == "" then Kept(t)
      else if o.dir.ClientToServer? then
        var log := if message.Some? then t.log + [EvSend(message.value)] else t.log;
        Kept(t.(log := if end then NoteHalfClose(log) else log))
      else
        Kept(if message.Some? then t.(log := t.log + [EvRecv(message.value)]) else t)
  }

  // ---------------------------------------------------------------------------
  // Many streams
  // ---------------------------------------------------------------------------

  type Tracks = map<StreamId, Track>

  const NoTracks: Tracks := map[]

  function TrackOf(tracks: Tracks, id: StreamId): Track {
    if id in tracks then tracks[id] else NewTrack
  }

  predicate Ignored(o: Observed) {
    o.ev.GoAwayEvent? || o.ev.id == 0
  }

  function TracksAfter(tracks: Tracks, o: Observed): Tracks {
    if Ignored(o) then tracks
    else
      match HandleOne(TrackOf(tracks, o.ev.id), o).track
      case None => tracks - {o.ev.id}
      case Some(t) => tracks[o.ev.id := t]
  }

  function SavedBy(tracks: Tracks, o: Observed): Option<Rpc> {
    if Ignored(o) then None else HandleOne(TrackOf(tracks, o.ev.id), o).saved
  }

  predicate Fails(tracks: Tracks, o: Observed) {
    !Ignored(o) && HandleOne(TrackOf(tracks, o.ev.id), o).failed
  }

  /** An RPC saved for a stream while the event at position `at` was handled. */
  datatype SavedRpc = SavedRpc(id: StreamId, rpc: Rpc, at: nat)

  /** The RPCs saved over the events of both directions from the i-th on, in the order handled. */
  function SavedOver(tracks: Tracks, evs: seq<Observed>, i: nat): seq<SavedRpc>
    requires i <= |evs|
    decreases |evs| - i
  {
    if i == |evs| then []
    else
      (var s := SavedBy(tracks, evs[i]); if s.Some? then [SavedRpc(evs[i].ev.id, s.value, i)] else [])
      + SavedOver(TracksAfter(tracks, evs[i]), evs, i + 1)
  }

  lemma SavedOverUnrolled(tracks: Tracks, evs: seq<Observed>, i: nat)
    requires i < |evs|
    ensures SavedBy(tracks, evs[i]).Some? ==> !evs[i].ev.GoAwayEvent?
    ensures var s, later := SavedBy(tracks, evs[i]), SavedOver(TracksAfter(tracks, evs[i]), evs, i + 1);
            SavedOver(tracks, evs, i) == if s.Some? then [SavedRpc(evs[i].ev.id, s.value, i)] + later else later
  {
    hide HandleOne, TracksAfter;
    var later := SavedOver(TracksAfter(tracks, evs[i]), evs, i + 1);
    assert [] + later == later;
  }

  function OnStream(evs: seq<Observed>, id: StreamId): seq<Observed> {
    if evs == [] then [] else (if EventOf(evs[0].ev, id) then [evs[0]] else []) + OnStream(evs[1..], id)
  }

  function SavedFor(saved: seq<SavedRpc>, id: StreamId): seq<Rpc> {
    if saved == [] then [] else (if saved[0].id == id then [saved[0].rpc] else []) + SavedFor(saved[1..], id)
  }

  /** The RPCs that one stream's events save on their own. */
  function Alone(t: Track, evs: seq<Observed>): seq<Rpc>
    decreases |evs|
  {
    if evs == [] then []
    else
      var h := HandleOne(t, evs[0]);
      (if h.saved.Some? then [h.saved.value] else [])
      + Alone(if h.track.Some? then h.track.value else NewTrack, evs[1..])
  }

  lemma SavedForCons(x: SavedRpc, saved: seq<SavedRpc>, id: StreamId)
    ensures SavedFor([x] + saved, id) == (if x.id == id then [x.rpc] else []) + SavedFor(saved, id)
  {
    assert ([x] + saved)[1..] == saved;
  }

  /** What is saved for a stream is what its own events save, whatever else is handled in between. */
  lemma {:induction false} RecordingIsolation(tracks: Tracks, evs: seq<Observed>, i: nat, id: StreamId)
    requires id != 0 && i <= |evs|
    ensures SavedFor(SavedOver(tracks, evs, i), id) == Alone(TrackOf(tracks, id), OnStream(evs[i..], id))
    decreases |evs| - i
  {
    hide HandleOne, SavedOver;
    if i == |evs| {
      NoEventsNoneSaved(tracks, evs);
    } else {
      var o, rest := evs[i], evs[i..];
      var later := SavedOver(TracksAfter(tracks, o), evs, i + 1);
      assert rest[1..] == evs[i + 1..];
      RecordingIsolation(TracksAfter(tracks, o), evs, i + 1, id);
      SavedOverUnrolled(tracks, evs, i);
      if SavedBy(tracks, o).Some? {
        SavedForCons(SavedRpc(o.ev.id, SavedBy(tracks, o).value, i), later, id);
      }
      if EventOf(o.ev, id) {
        assert OnStream(rest, id)[1..] == OnStream(rest[1..], id);
      } else {
        assert OnStream(rest, id) == OnStream(rest[1..], id);
        assert [] + SavedFor(later, id) == SavedFor(later, id);
      }
    }
  }

  lemma NoEventsNoneSaved(tracks: Tracks, evs: seq<Observed>)
    ensures SavedOver(tracks, evs, |evs|) == []
  {
  }

  // ---------------------------------------------------------------------------
  // The log of a stream: its observed events, in order, up to its terminal
  // ---------------------------------------------------------------------------

  /** A client header block that names an RPC. */
  predicate OpensRpc(o: Observed) {
    o.dir.ClientToServer? && o.ev.HeadersEvent? && SplitPath(HeaderValue(o.ev.fields, ":path")).Some?
  }

  predicate Ends(o: Observed) {
    o.ev.ResetEvent?
    || (o.dir.ServerToClient? && o.ev.HeadersEvent? && !IsCompressed(o.ev.fields) && GrpcStatus(o.ev.fields).Some?)
  }

  function StatusOf(o: Observed): (nat, Bytes)
    requires Ends(o)
  {
    if o.ev.ResetEvent? then (CANCELED, RESET_TEXT) else GrpcStatus(o.ev.fields).value
  }

  /** What an event shows of the conversation. */
  function Shows(o: Observed): seq<RecEvent> {
    var closes := if o.dir.ClientToServer? && (o.ev.MessageEvent? || OpensRpc(o)) && o.ev.endStream then [EvHalfClose] else [];
    if o.ev.MessageEvent? && o.ev.message.Some? then
      [if o.dir.ClientToServer? then EvSend(o.ev.message.value) else EvRecv(o.ev.message.value)] + closes
    else closes
  }

  function ShownBy(evs: seq<Observed>): seq<RecEvent> {
    if evs == [] then [] else Shows(evs[0]) + ShownBy(evs[1..])
  }

  /** Only the first half-close counts. */
  function FirstHalfCloseOnly(log: seq<RecEvent>): seq<RecEvent> {
    if log == [] then []
    else
      var front, last := log[..|log| - 1], log[|log| - 1];
      FirstHalfCloseOnly(front) + if last.EvHalfClose? && EvHalfClose in front then [] else [last]
  }

  function FirstEnd(evs: seq<Observed>): (n: nat)
    ensures n <= |evs|
    ensures forall i :: 0 <= i < n ==> !Ends(evs[i])
    ensures n < |evs| ==> Ends(evs[n])
  {
    if evs == [] || Ends(evs[0]) then 0 else 1 + FirstEnd(evs[1..])
  }

  lemma {:induction false} HalfCloseKept(log: seq<RecEvent>)
    ensures EvHalfClose in log <==> EvHalfClose in FirstHalfCloseOnly(log)
    ensures SendsAtHalfClose(log).Some? <==> EvHalfClose in log
  {
    hide SendsIn;
    if log != [] {
      HalfCloseKept(log[..|log| - 1]);
      assert log == log[..|log| - 1] + [log[|log| - 1]];
    }
  }

  lemma {:induction false} HalfCloseAtMostOnce(log: seq<RecEvent>)
    ensures multiset(FirstHalfCloseOnly(log))[EvHalfClose] == if EvHalfClose in log then 1 else 0
  {
    if log != [] {
      var front, last := log[..|log| - 1], log[|log| - 1];
      HalfCloseAtMostOnce(front);
      assert log == front + [last];
      if last.EvHalfClose? && EvHalfClose in front {
        assert FirstHalfCloseOnly(log) == FirstHalfCloseOnly(front);
      } else {
        assert multiset(FirstHalfCloseOnly(log)) == multiset(FirstHalfCloseOnly(front)) + multiset{last};
      }
    }
  }

  lemma LogSnoc(log: seq<RecEvent>, e: RecEvent)
    ensures SendsIn(log + [e]) == SendsIn(log) + if e.EvSend? then [e.msg] else []
    ensures RecvsIn(log + [e]) == RecvsIn(log) + if e.EvRecv? then [e.msg] else []
    ensures SendsAtHalfClose(log + [e])
            == if SendsAtHalfClose(log).None? && e.EvHalfClose? then Some(|SendsIn(log)|) else SendsAtHalfClose(log)
  {
    assert (log + [e])[..|log|] == log;
  }

  lemma {:induction false} LogConcat(a: seq<RecEvent>, b: seq<RecEvent>)
    ensures SendsIn(a + b) == SendsIn(a) + SendsIn(b) && RecvsIn(a + b) == RecvsIn(a) + RecvsIn(b)
    decreases |b|
  {
    if b == [] {
      assert a + b == a;
    } else {
      var front, last := b[..|b| - 1], b[|b| - 1];
      assert a + b == (a + front) + [last] && b == front + [last];
      LogConcat(a, front);
      LogSnoc(a + front, last);
      LogSnoc(front, last);
    }
  }

  /** The client's part of a log. */
  function ClientSide(log: seq<RecEvent>): seq<RecEvent> {
    if log == [] then []
    else ClientSide(log[..|log| - 1]) + if log[|log| - 1].EvRecv? then [] else [log[|log| - 1]]
  }

  lemma ClientSideSnoc(log: seq<RecEvent>, e: RecEvent)
    ensures ClientSide(log + [e]) == if e.EvRecv? then ClientSide(log) else ClientSide(log) + [e]
  {
    assert (log + [e])[..|log|] == log;
  }

  lemma {:induction false} ClientSideKeeps(log: seq<RecEvent>)
    ensures SendsIn(ClientSide(log)) == SendsIn(log) && SendsAtHalfClose(ClientSide(log)) == SendsAtHalfClose(log)
  {
    if log != [] {
      hide SendsIn, RecvsIn, SendsAtHalfClose, ClientSide;
      var front, last := log[..|log| - 1], log[|log| - 1];
      assert log == front + [last];
      ClientSideKeeps(front);
      ClientSideSnoc(front, last);
      LogSnoc(front, last);
      LogSnoc(ClientSide(front), last);
    }
  }

  /** The client's events are its messages and its half-closes. */
  lemma {:induction false} ClientSideSize(log: seq<RecEvent>)
    ensures |ClientSide(log)| == |SendsIn(log)| + multiset(log)[EvHalfClose]
  {
    if log != [] {
      hide SendsIn, RecvsIn, SendsAtHalfClose, ClientSide;
      var front, last := log[..|log| - 1], log[|log| - 1];
      assert log == front + [last] && multiset(log) == multiset(front) + multiset{last};
      ClientSideSize(front);
      ClientSideSnoc(front, last);
      LogSnoc(front, last);
    }
  }

  lemma InferredType(log: seq<RecEvent>)
    ensures InferType(log) == SERVER <==> |SendsIn(log)| == 1 && SendsAtHalfClose(log) == Some(1)
    ensures InferType(log) != SERVER ==> InferType(log) == if |RecvsIn(log)| <= 1 then CLIENT else BIDI
  {
    hide SendsIn, RecvsIn, SendsAtHalfClose;
    assert SERVER[0] != CLIENT[0] && SERVER[0] != BIDI[0];
  }

  lemma TwoEvents(a: RecEvent, b: RecEvent)
    ensures SendsIn([a, b]) == (if a.EvSend? then [a.msg] else []) + if b.EvSend? then [b.msg] else []
    ensures SendsAtHalfClose([a, b])
            == if a.EvHalfClose? then Some(0) else if b.EvHalfClose? then Some(if a.EvSend? then 1 else 0) else None
  {
    assert [a, b] == [a] + [b] && [a] == [] + [a];
    LogSnoc([], a);
    LogSnoc([a], b);
  }

  /**
   A recorded log is taken for server streaming exactly when the client's part of it is one
   message and then the half-close, wherever the server's messages fall; otherwise the
   number of server messages alone tells client streaming from bidi.
   */
  lemma ServerStreamingSignature(log: seq<RecEvent>)
    requires multiset(log)[EvHalfClose] <= 1
    ensures InferType(log) == SERVER <==> MessageThenHalfClose(ClientSide(log))
    ensures InferType(log) != SERVER ==> InferType(log) == if |RecvsIn(log)| <= 1 then CLIENT else BIDI
  {
    var c := ClientSide(log);
    InferredType(log);
    ClientSideKeeps(log);
    ClientSideSize(log);
    HalfCloseKept(log);
    assert EvHalfClose in log ==> EvHalfClose in multiset(log);
    if |c| == 2 {
      assert c == [c[0], c[1]];
      TwoEvents(c[0], c[1]);
    }
  }

  predicate MessageThenHalfClose(events: seq<RecEvent>) {
    |events| == 2 && events[0].EvSend? && events[1].EvHalfClose?
  }

  /** Dropping repeated half-closes drops no message. */
  lemma {:induction false} MessagesKept(log: seq<RecEvent>)
    ensures SendsIn(FirstHalfCloseOnly(log)) == SendsIn(log)
    ensures RecvsIn(FirstHalfCloseOnly(log)) == RecvsIn(log)
  {
    if log != [] {
      var front, last := log[..|log| - 1], log[|log| - 1];
      MessagesKept(front);
      LogSnoc(FirstHalfCloseOnly(front), last);
      assert FirstHalfCloseOnly(front) + [] == FirstHalfCloseOnly(front);
      assert SendsIn(front) + [] == SendsIn(front) && RecvsIn(front) + [] == RecvsIn(front);
    }
  }

  /** Appending what an event shows, half-close once: the step of `handle` on the log. */
  lemma ShownStep(log: seq<RecEvent>, o: Observed)
    ensures var kept := FirstHalfCloseOnly(log);
            FirstHalfCloseOnly(log + Shows(o))
            == if o.ev.MessageEvent? && o.ev.message.Some? then
                 var more := kept + [if o.dir.ClientToServer? then EvSend(o.ev.message.value) else EvRecv(o.ev.message.value)];
                 if EvHalfClose in Shows(o) then NoteHalfClose(more) else more
               else if EvHalfClose in Shows(o) then NoteHalfClose(kept) else kept
  {
    if Shows(o) == [] {
      assert log + [] == log;
    } else {
      Snoc(log, Shows(o)[0]);
      if |Shows(o)| == 2 {
        assert log + Shows(o) == log + [Shows(o)[0]] + [EvHalfClose];
        Snoc(log + [Shows(o)[0]], EvHalfClose);
      } else {
        assert Shows(o) == [Shows(o)[0]];
      }
    }
  }

  lemma Snoc(log: seq<RecEvent>, e: RecEvent)
    ensures FirstHalfCloseOnly(log + [e])
            == if e.EvHalfClose? then NoteHalfClose(FirstHalfCloseOnly(log)) else FirstHalfCloseOnly(log) + [e]
  {
    assert (log + [e])[..|log|] == log;
    HalfCloseKept(log);
    HalfCloseKept(FirstHalfCloseOnly(log));
  }

  lemma AloneStep(t: Track, evs: seq<Observed>)
    requires evs != []
    ensures var h := HandleOne(t, evs[0]);
            var later := Alone(if h.track.Some? then h.track.value else NewTrack, evs[1..]);
            Alone(t, evs) == if h.saved.Some? then [h.saved.value] + later else later
  {
    hide HandleOne;
    var h := HandleOne(t, evs[0]);
    var later := Alone(if h.track.Some? then h.track.value else NewTrack, evs[1..]);
    assert [] + later == later;
  }

  lemma NoEventsNothingSaved(t: Track)
    ensures Alone(t, []) == []
  {
  }

  /** A step never leaves more RPCs open or saved than there were, plus the one it opens. */
  lemma StepSavesAtMostOne(t: Track, o: Observed)
    ensures var h := HandleOne(t, o);
            (if h.saved.Some? then 1 else 0) + (if h.track.Some? && h.track.value.service != "" then 1 else 0)
            <= (if OpensRpc(o) then 1 else 0) + if t.service != "" then 1 else 0
  {
    hide GrpcStatus, IsCompressed, NoteHalfClose, HeaderValue, SplitPath, CanonicalJson.Utf8All;
  }

  lemma {:induction false} NothingWithoutAnRpc(t: Track, evs: seq<Observed>)
    requires t.service == "" && forall i :: 0 <= i < |evs| ==> !OpensRpc(evs[i])
    ensures Alone(t, evs) == []
    decreases |evs|
  {
    hide HandleOne, OpensRpc, Alone;
    if evs == [] {
      NoEventsNothingSaved(t);
    } else {
      AloneStep(t, evs);
      StepSavesAtMostOne(t, evs[0]);
      var h := HandleOne(t, evs[0]);
      NothingWithoutAnRpc(if h.track.Some? then h.track.value else NewTrack, evs[1..]);
    }
  }

  ghost predicate Recording(t: Track, shown: seq<RecEvent>) {
    t.service != "" && !t.compressed && t.log == FirstHalfCloseOnly(shown)
  }

  lemma HandleStep(t: Track, shown: seq<RecEvent>, o: Observed)
    requires Recording(t, shown) && !OpensRpc(o) && !Ends(o)
    ensures HandleOne(t, o).track == Some(t.(log := FirstHalfCloseOnly(shown + Shows(o)))) && HandleOne(t, o).saved.None?
  {
    hide FirstHalfCloseOnly, SplitPath, IsCompressed, GrpcStatus, NoteHalfClose;
    ShownStep(shown, o);
  }

  lemma EndStep(t: Track, o: Observed)
    requires t.service != "" && !t.compressed && Ends(o)
    ensures HandleOne(t, o) == Handled(None, Some(Rpc(t.service, t.method', t.log, StatusOf(o).0, StatusOf(o).1)), false)
  {
    hide SplitPath, IsCompressed, GrpcStatus;
  }

  /** The RPC saved for a stream already open, whose first n events show its log and whose n-th ends it. */
  function SavedAt(t: Track, shown: seq<RecEvent>, evs: seq<Observed>, n: nat): seq<Rpc>
    requires n <= |evs| && (n < |evs| ==> Ends(evs[n]))
  {
    if n == |evs| then []
    else [Rpc(t.service, t.method', FirstHalfCloseOnly(shown + ShownBy(evs[..n])), StatusOf(evs[n]).0, StatusOf(evs[n]).1)]
  }

  lemma SavedAtStep(t: Track, shown: seq<RecEvent>, evs: seq<Observed>, n: nat)
    requires n < |evs| && (n + 1 < |evs| ==> Ends(evs[n + 1]))
    ensures SavedAt(t, shown, evs, n + 1) == SavedAt(t, shown + Shows(evs[0]), evs[1..], n)
  {
    hide FirstHalfCloseOnly, Ends, StatusOf, Shows;
    assert evs[..n + 1][1..] == evs[1..][..n];
    assert shown + ShownBy(evs[..n + 1]) == (shown + Shows(evs[0])) + ShownBy(evs[1..][..n]);
  }

  lemma {:induction false} LogOfOpenStream(t: Track, shown: seq<RecEvent>, evs: seq<Observed>)
    requires Recording(t, shown) && forall i :: 0 <= i < |evs| ==> !OpensRpc(evs[i])
    ensures Alone(t, evs) == SavedAt(t, shown, evs, FirstEnd(evs))
    decreases |evs|
  {
    hide HandleOne, FirstHalfCloseOnly, OpensRpc, Shows, Ends, StatusOf, Alone;
    if evs == [] {
      assert Alone(t, evs) == [] by {
        NoEventsNothingSaved(t);
      }
    } else {
      var o := evs[0];
      AloneStep(t, evs);
      if Ends(o) {
        EndStep(t, o);
        assert shown + ShownBy(evs[..0]) == shown;
        NothingWithoutAnRpc(NewTrack, evs[1..]);
      } else {
        HandleStep(t, shown, o);
        var next := t.(log := FirstHalfCloseOnly(shown + Shows(o)));
        LogOfOpenStream(next, shown + Shows(o), evs[1..]);
        SavedAtStep(t, shown, evs, FirstEnd(evs[1..]));
      }
    }
  }

  ghost predicate NoOpens(evs: seq<Observed>) {
    forall i :: 0 <= i < |evs| ==> !OpensRpc(evs[i])
  }

  /** The events of a stream whose id is used for one RPC (section 5.1.1 of RFC 9113), named at position h. */
  ghost predicate OpensOnceAt(own: seq<Observed>, h: nat) {
    h < |own| && forall i :: 0 <= i < |own| ==> (OpensRpc(own[i]) <==> i == h)
  }

  /** The first terminal at or after h. */
  function EndFrom(own: seq<Observed>, h: nat): (n: nat)
    requires h <= |own|
    ensures h <= n <= |own| && (n < |own| ==> Ends(own[n]))
    ensures forall i :: h <= i < n ==> !Ends(own[i])
  {
    assert forall i :: h <= i < |own| ==> own[i] == own[h..][i - h];
    h + FirstEnd(own[h..])
  }

  /** What is shown from h to that terminal, with the first half-close only. */
  function LogFrom(own: seq<Observed>, h: nat): seq<RecEvent>
    requires h <= |own|
  {
    FirstHalfCloseOnly(ShownBy(own[h..EndFrom(own, h)]))
  }

  /** The RPC named at position h with the log of what is shown from position k on. */
  function RpcFrom(own: seq<Observed>, h: nat, k: nat): Rpc
    requires OpensOnceAt(own, h) && k <= |own| && EndFrom(own, k) < |own|
  {
    var path, status := SplitPath(HeaderValue(own[h].ev.fields, ":path")).value, StatusOf(own[EndFrom(own, k)]);
    Rpc(path.0, path.1, LogFrom(own, k), status.0, status.1)
  }

  function SavedFrom(own: seq<Observed>, h: nat, k: nat): seq<Rpc>
    requires OpensOnceAt(own, h) && k <= |own|
  {
    if IsCompressed(own[h].ev.fields) || EndFrom(own, k) == |own| then [] else [RpcFrom(own, h, k)]
  }

  /**
   Whatever was handled before the header block that names it, an RPC is saved exactly once
   if a terminal follows that block and it is not compressed, and never otherwise. Its log
   is what the events from the block to the terminal show, in order: what came before is lost.
   */
  lemma SavedLog(own: seq<Observed>, h: nat)
    requires OpensOnceAt(own, h)
    ensures Alone(NewTrack, own) == SavedFrom(own, h, h)
  {
    hide HandleOne, SplitPath, IsCompressed, GrpcStatus, FirstHalfCloseOnly, Alone, Shows, StatusOf;
    var o, rest := own[h], own[h + 1..];
    BeforeTheOpen(own, h);
    AloneStep(NewTrack, own[h..]);
    assert own[h..][1..] == rest && own[h..][0] == o;
    assert NoOpens(rest) by {
      assert forall i :: 0 <= i < |rest| ==> rest[i] == own[h + 1 + i];
    }
    if IsCompressed(o.ev.fields) {
      CompressedOpen(o);
      CompressedIsNeverSaved(HandleOne(NewTrack, o).track.value, rest);
    } else {
      OpenStep(o);
      var path := SplitPath(HeaderValue(o.ev.fields, ":path")).value;
      var t := Track(path.0, path.1, FirstHalfCloseOnly(Shows(o)), false);
      LogOfOpenStream(t, Shows(o), rest);
      assert FirstEnd(own[h..]) == 1 + FirstEnd(rest);
      ShiftedLog(own, h);
    }
  }

  lemma ShiftedLog(own: seq<Observed>, h: nat)
    requires OpensOnceAt(own, h) && !Ends(own[h])
    ensures var n := FirstEnd(own[h + 1..]);
            && EndFrom(own, h) == h + 1 + n
            && LogFrom(own, h) == FirstHalfCloseOnly(Shows(own[h]) + ShownBy(own[h + 1..][..n]))
  {
    hide Ends, Shows, FirstHalfCloseOnly;
    var n := FirstEnd(own[h + 1..]);
    assert own[h..][0] == own[h] && own[h..][1..] == own[h + 1..];
    var part := own[h..h + 1 + n];
    assert part[0] == own[h] && part[1..] == own[h + 1..][..n];
  }

  /** Before a stream is named, nothing is kept of it. */
  lemma {:induction false} BeforeTheOpen(own: seq<Observed>, h: nat)
    requires h <= |own| && NoOpens(own[..h])
    ensures Alone(NewTrack, own) == Alone(NewTrack, own[h..])
    decreases h
  {
    hide HandleOne, Alone, OpensRpc;
    if h == 0 {
      assert own[0..] == own;
    } else {
      var front := own[1..][..h - 1];
      assert own[..h][0] == own[0];
      forall i | 0 <= i < |front| ensures !OpensRpc(front[i]) {
        assert front[i] == own[..h][i + 1];
      }
      AloneStep(NewTrack, own);
      IdleStep(own[0]);
      BeforeTheOpen(own[1..], h - 1);
      assert own[1..][h - 1..] == own[h..];
    }
  }

  lemma IdleStep(o: Observed)
    requires !OpensRpc(o)
    ensures var h := HandleOne(NewTrack, o);
            h.saved.None? && (h.track.None? || h.track == Some(NewTrack))
  {
    hide IsCompressed, GrpcStatus, NoteHalfClose, HeaderValue, SplitPath, CanonicalJson.Utf8All;
  }

  lemma CompressedOpen(o: Observed)
    requires OpensRpc(o) && IsCompressed(o.ev.fields)
    ensures var h := HandleOne(NewTrack, o);
            h.saved.None? && h.track.Some? && h.track.value.compressed
  {
    hide SplitPath, IsCompressed, GrpcStatus;
  }

  lemma CompressedStep(t: Track, o: Observed)
    requires t.compressed && !OpensRpc(o)
    ensures var h := HandleOne(t, o);
            h.saved.None? && (h.track.None? || h.track.value.compressed)
  {
    hide IsCompressed, GrpcStatus, NoteHalfClose, HeaderValue, SplitPath, CanonicalJson.Utf8All;
  }

  lemma {:induction false} CompressedIsNeverSaved(t: Track, evs: seq<Observed>)
    requires t.compressed && NoOpens(evs)
    ensures Alone(t, evs) == []
    decreases |evs|
  {
    hide HandleOne, Alone, OpensRpc;
    if evs == [] {
      NoEventsNothingSaved(t);
    } else {
      AloneStep(t, evs);
      CompressedStep(t, evs[0]);
      var h := HandleOne(t, evs[0]);
      if h.track.None? {
        NothingWithoutAnRpc(NewTrack, evs[1..]);
      } else {
        CompressedIsNeverSaved(h.track.value, evs[1..]);
      }
    }
  }

  lemma OpenStep(o: Observed)
    requires OpensRpc(o) && !IsCompressed(o.ev.fields)
    ensures var path := SplitPath(HeaderValue(o.ev.fields, ":path")).value;
            var h := HandleOne(NewTrack, o);
            h.track == Some(Track(path.0, path.1, FirstHalfCloseOnly(Shows(o)), false)) && h.saved.None?
  {
    hide SplitPath, IsCompressed, GrpcStatus;
    assert [EvHalfClose][..0] == [];
  }

  /** However ids are used: no more RPCs are saved for a stream than were opened on it. */
  lemma {:induction false} SavedAtMostOncePerOpen(t: Track, evs: seq<Observed>)
    ensures |Alone(t, evs)| <= OpenCount(evs) + if t.service != "" then 1 else 0
    decreases |evs|
  {
    hide HandleOne, OpensRpc, Alone;
    if evs == [] {
      NoEventsNothingSaved(t);
    } else {
      AloneStep(t, evs);
      StepSavesAtMostOne(t, evs[0]);
      var h := HandleOne(t, evs[0]);
      SavedAtMostOncePerOpen(if h.track.Some? then h.track.value else NewTrack, evs[1..]);
    }
  }

  function OpenCount(evs: seq<Observed>): nat {
    if evs == [] then 0 else (if OpensRpc(evs[0]) then 1 else 0) + OpenCount(evs[1..])
  }
}
