/**
 The transport recorder: per-stream state, the tracker, and the recording it writes at
 each terminal (go/adapters/grpctransport/record.go).
 */
module TransportRecorder {
  import opened Prelude
  import opened StreamModel
  import opened Demux
  import opened GrpcHeaders
  import opened Tracker
  import opened Session
  import CanonicalJson
  import Probe
  import R = Recording

  // ---------------------------------------------------------------------------
  // What saving an RPC does
  // ---------------------------------------------------------------------------

  function FirstOrNil(msgs: seq<Bytes>): Bytes {
    if msgs == [] then [] else msgs[0]
  }

  function CallOf(e: RecEvent, at: nat): R.Call {
    match e
    case EvSend(msg) => R.SendCall(msg, at)
    case EvRecv(msg) => R.RecvCall(msg, at)
    case EvHalfClose => R.HalfCloseCall(at)
  }

  /** The log from its i-th event on, as calls on a recording; now(i) is the clock at the i-th. */
  function CallsFrom(log: seq<RecEvent>, i: nat, now: nat -> nat): (r: seq<R.Call>)
    requires i <= |log|
    ensures |r| == |log| - i && forall k :: 0 <= k < |r| ==> r[k] == CallOf(log[i + k], now(i + k))
    decreases |log| - i
  {
    if i == |log| then [] else [CallOf(log[i], now(i))] + CallsFrom(log, i + 1, now)
  }

  /** The library's rendering of a status as an error text is an arbitrary function. */
  type Render = (nat, Bytes) -> string

  function FinishOf(rpc: Rpc, render: Render, now: nat -> nat): R.Call {
    R.FinishCall(Some(map["status_code" := Number(rpc.code)]),
                 if rpc.code != OK_CODE then Some(render(rpc.code, rpc.text)) else None, now(|rpc.log|))
  }

  function CallsOf(rpc: Rpc, render: Render, now: nat -> nat): seq<R.Call> {
    CallsFrom(rpc.log, 0, now) + [FinishOf(rpc, render, now)]
  }

  lemma CallsDoNotFinish(log: seq<RecEvent>, now: nat -> nat)
    ensures forall k :: 0 <= k < |log| ==> !CallsFrom(log, 0, now)[k].FinishCall?
  {
  }

  /** The open of an RPC: its type is decided by its log alone. */
  function OpenOf(session: FileSession, rpc: Rpc): CanonicalJson.StreamOpen {
    Probe.StreamOpenFor(session.streamScrub, session.hash, InferType(rpc.log), rpc.service, rpc.method', FirstOrNil(SendsIn(rpc.log)))
  }

  function ConfigOf(session: FileSession, counts: Counters, rpc: Rpc): R.RecConfig {
    session.RecordConfig(OpenOf(session, rpc), Ordinal(counts, OpenOf(session, rpc)))
  }

  /** The cassette once an RPC is saved under the ordinal that the counters give it at that moment. */
  function FilesWith(session: FileSession, counts: Counters, files: map<(string, string), R.Stored>, rpc: Rpc, render: Render,
                     now: nat -> nat): map<(string, string), R.Stored>
  {
    var cfg := ConfigOf(session, counts, rpc);
    var saved := R.Saved(cfg, R.Opened, CallsOf(rpc, render, now));
    if saved == [] then files else files[(cfg.adapterId, cfg.fingerprint) := R.Streamed(saved[0])]
  }

  // ---------------------------------------------------------------------------
  // One stream
  // ---------------------------------------------------------------------------

  class RecStream {
    var service: string
    var method': string
    var events: seq<RecEvent>
    var sends: seq<Bytes>
    var sentCount: nat
    var recvCount: nat
    var sawHalfClose: bool
    var halfCloseAfterFirstSend: bool
    var compressed: bool
    var finished: bool

    ghost function View(): Track
      reads this
    {
      Track(service, method', events, compressed)
    }

    /** The counters and flags say of the log what they are named for. */
    ghost predicate Valid()
      reads this
    {
      && sends == SendsIn(events) && sentCount == |sends| && recvCount == |RecvsIn(events)|
      && (sawHalfClose <==> SendsAtHalfClose(events).Some?)
      && (halfCloseAfterFirstSend <==> SendsAtHalfClose(events) == Some(1))
      && !finished
    }

    lemma LogFields()
      requires Valid()
      ensures sends == SendsIn(events) && !finished
    {
    }

    constructor ()
      ensures Valid() && View() == NewTrack
    {
      service, method', events, sends := "", "", [], [];
      sentCount, recvCount := 0, 0;
      sawHalfClose, halfCloseAfterFirstSend, compressed, finished := false, false, false, false;
    }

    method Append(e: RecEvent)
      requires Valid() && !e.EvHalfClose?
      modifies this
      ensures Valid() && View() == old(View()).(log := old(events) + [e])
    {
      LogSnoc(events, e);
      match e {
        case EvSend(msg) =>
          sends, sentCount := sends + [msg], sentCount + 1;
        case EvRecv(_) =>
          recvCount := recvCount + 1;
      }
      events := events + [e];
    }

    method NoteHalfClose()
      requires Valid()
      modifies this
      ensures Valid() && View() == old(View()).(log := Tracker.NoteHalfClose(old(events)))
    {
      if sawHalfClose {
        return;
      }
      LogSnoc(events, EvHalfClose);
      sawHalfClose := true;
      halfCloseAfterFirstSend := sentCount == 1;
      events := events + [EvHalfClose];
    }

    method InferStreamType() returns (typ: string)
      requires Valid()
      ensures typ == InferType(events) && ValidType(typ)
    {
      if sentCount == 1 && sawHalfClose && halfCloseAfterFirstSend {
        typ := SERVER;
      } else if recvCount <= 1 {
        typ := CLIENT;
      } else {
        typ := BIDI;
      }
    }

    method ClientHeaders(o: Observed) returns (failed: bool)
      requires Valid() && o.dir.ClientToServer? && o.ev.HeadersEvent?
      modifies this
      ensures Valid() && HandleOne(old(View()), o) == Handled(Some(View()), None, failed)
    {
      hide SplitPath, IsCompressed, GrpcStatus, Tracker.NoteHalfClose;
      var path := SplitPath(HeaderValue(o.ev.fields, ":path"));
      if path.None? {
        return false;
      }
      service, method' := path.value.0, path.value.1;
      if IsCompressed(o.ev.fields) {
        compressed := true;
        return true;
      }
      if o.ev.endStream {
        NoteHalfClose();
      }
      failed := false;
    }

    method ClientMessage(o: Observed)
      requires Valid() && o.dir.ClientToServer? && o.ev.MessageEvent?
      modifies this
      ensures Valid() && HandleOne(old(View()), o) == Handled(Some(View()), None, false)
    {
      hide Tracker.NoteHalfClose;
      if service == "" {
        return;
      }
      if o.ev.message.Some? {
        Append(EvSend(o.ev.message.value));
      }
      if o.ev.endStream {
        NoteHalfClose();
      }
    }

    method ServerMessage(o: Observed)
      requires Valid() && o.dir.ServerToClient? && o.ev.MessageEvent?
      modifies this
      ensures Valid() && HandleOne(old(View()), o) == Handled(Some(View()), None, false)
    {
      if service == "" || o.ev.message.None? {
        return;
      }
      Append(EvRecv(o.ev.message.value));
    }
  }

  // ---------------------------------------------------------------------------
  // The log, replayed into a recording
  // ---------------------------------------------------------------------------

  method ReplayInto(rec: R.StreamRecording, log: seq<RecEvent>, now: nat -> nat)
    requires rec.Valid()
    modifies rec
    ensures rec.Valid() && rec.State() == R.After(rec.cfg, old(rec.State()), CallsFrom(log, 0, now))
  {
    hide R.Step, R.Consistent;
    ghost var goal := R.After(rec.cfg, rec.State(), CallsFrom(log, 0, now));
    for i := 0 to |log|
      invariant rec.Valid() && R.After(rec.cfg, rec.State(), CallsFrom(log, i, now)) == goal
    {
      assert CallsFrom(log, i, now)[1..] == CallsFrom(log, i + 1, now);
      match log[i] {
        case EvSend(msg) => rec.RecordSend(msg, now(i));
        case EvRecv(msg) => rec.RecordRecv(msg, now(i));
        case EvHalfClose => rec.RecordHalfClose(now(i));
      }
    }
  }

  /** Opening, replaying and finishing saves exactly the pair that the calls of the RPC save. */
  lemma SavedPair(cfg: R.RecConfig, rpc: Rpc, render: Render, now: nat -> nat)
    ensures R.Saved(cfg, R.Opened, CallsOf(rpc, render, now))
            == [R.PairOf(cfg, R.After(cfg, R.Opened, CallsFrom(rpc.log, 0, now)), FinishOf(rpc, render, now))]
    ensures !R.After(cfg, R.Opened, CallsFrom(rpc.log, 0, now)).finished
  {
    CallsDoNotFinish(rpc.log, now);
    R.SavedByLastCall(cfg, R.Opened, CallsFrom(rpc.log, 0, now), FinishOf(rpc, render, now));
  }

  ghost function CassetteOf(session: FileSession): set<object> {
    if session.cassette == null then {} else {session.cassette}
  }

  ghost function FilesOf(session: FileSession): map<(string, string), R.Stored>
    reads CassetteOf(session)
  {
    if session.cassette == null then map[] else session.cassette.files
  }

  /** Whether the session lets an RPC be recorded at all. */
  predicate Refuses(session: FileSession, rpc: Rpc) {
    session.CheckStreamOpen(OpenOf(session, rpc), RecordMode).Some?
  }

  /**
   What saving an RPC makes of the counters and files there were: it goes to the cassette
   under the address that the session's counters give it at that moment, and its open is
   counted. Without an RPC, or in a session that refuses it, nothing changes.
   */
  ghost predicate Persisted(session: FileSession, counts: Counters, files: map<(string, string), R.Stored>, saved: Option<Rpc>,
                            render: Render, now: nat -> nat)
    reads session, CassetteOf(session)
  {
    if saved.None? || Refuses(session, saved.value) then
      session.streamN == counts && FilesOf(session) == files
    else
      && session.streamN == Consume(counts, OpenOf(session, saved.value))
      && FilesOf(session) == FilesWith(session, counts, files, saved.value, render, now)
  }

  lemma NothingPersisted(session: FileSession, render: Render, now: nat -> nat)
    ensures Persisted(session, session.streamN, FilesOf(session), None, render, now)
  {
  }

  /** The second half of `finish`: open a recording, replay the log into it, persist the pair. */
  method Persist(session: FileSession, typ: string, openMsg: Bytes, rpc: Rpc, render: Render, now: nat -> nat)
    requires typ == InferType(rpc.log) && ValidType(typ) && openMsg == FirstOrNil(SendsIn(rpc.log))
    modifies session, CassetteOf(session)
    ensures Persisted(session, old(session.streamN), old(FilesOf(session)), Some(rpc), render, now)
  {
    hide R.Step, R.Consistent, R.PairOf, Consume, InferType, Probe.StreamOpenFor, R.After, CallsFrom, SendsIn, FirstOrNil, Ordinal,
         Fingerprint;
    var open := Probe.StreamOpenFor(session.streamScrub, session.hash, typ, rpc.service, rpc.method', openMsg);
    Probe.OpenForShape(session.streamScrub, session.hash, typ, rpc.service, rpc.method', openMsg);
    var recording := session.OpenStreamRecord(open);
    if recording.Err? {
      return;
    }
    var rec := recording.value;
    ReplayInto(rec, rpc.log, now);
    var terminal := if rpc.code != OK_CODE then Some(render(rpc.code, rpc.text)) else None;
    SavedPair(rec.cfg, rpc, render, now);
    var err := rec.Finish(Some(map["status_code" := Number(rpc.code)]), terminal, now(|rpc.log|));
  }

  // ---------------------------------------------------------------------------
  // The tracker
  // ---------------------------------------------------------------------------

  class StreamTracker {
    const session: FileSession
    const render: Render
    var streams: map<StreamId, RecStream>

    /** The public view of `streams`, and the objects in it. */
    ghost var tracks: Tracks
    ghost var owned: set<RecStream>

    ghost predicate Valid()
      reads this, owned
    {
      && tracks.Keys == streams.Keys
      && (forall i :: i in streams ==> streams[i] in owned && streams[i].Valid() && streams[i].View() == tracks[i])
      && (forall i, j :: i in streams && j in streams && i != j ==> streams[i] != streams[j])
    }

    constructor (session: FileSession, render: Render)
      ensures Valid() && this.session == session && this.render == render && tracks == NoTracks && owned == {}
    {
      this.session, this.render := session, render;
      streams, tracks, owned := map[], map[], {};
    }

    method Get(id: StreamId) returns (s: RecStream)
      requires Valid()
      modifies this
      ensures Valid() && fresh(owned - old(owned)) && old(owned) <= owned
      ensures id in streams && streams[id] == s
      ensures tracks == old(tracks)[id := TrackOf(old(tracks), id)]
    {
      hide RecStream.Valid, RecStream.View;
      if id !in streams {
        s := new RecStream();
        streams, tracks, owned := streams[id := s], tracks[id := NewTrack], owned + {s};
      }
      s := streams[id];
    }

    method Forget(id: StreamId, s: RecStream)
      requires Valid() && id in streams && streams[id] == s
      modifies this, s
      ensures Valid() && owned == old(owned) && tracks == old(tracks) - {id}
    {
      hide RecStream.Valid, RecStream.View;
      s.finished := true;
      streams, tracks := streams - {id}, tracks - {id};
    }

    /** A stream that never reached its terminal produces no cassette. */
    method AbandonAll()
      modifies this
      ensures Valid() && tracks == NoTracks
    {
      streams, tracks, owned := map[], map[], {};
    }

    /**
     The RPC, if there is one to save, goes to the cassette under the address its counters
     give it now: ordinals follow the order of terminals, not the order of opens.
     */
    method Finish(id: StreamId, s: RecStream, code: nat, text: Bytes, now: nat -> nat)
      requires Valid() && id in streams && streams[id] == s
      modifies this, s, session, CassetteOf(session)
      ensures Valid() && owned == old(owned) && tracks == old(tracks) - {id}
      ensures Persisted(session, old(session.streamN), old(FilesOf(session)), Tracker.Finish(old(tracks[id]), code, text).saved,
                        render, now)
    {
      hide RecStream.Valid, Persisted, InferType, FirstOrNil, FilesOf, SendsIn;
      s.LogFields();
      NothingPersisted(session, render, now);
      if !s.finished && s.service != "" && !s.compressed {
        var typ := s.InferStreamType();
        Persist(session, typ, FirstOrNil(s.sends), Rpc(s.service, s.method', s.events, code, text), render, now);
      }
      Forget(id, s);
    }

    /** The events that concern the stream's own state only. */
    method Fold(id: StreamId, s: RecStream, o: Observed) returns (failed: bool)
      requires Valid() && id in streams && streams[id] == s
      requires o.ev.MessageEvent? || (o.ev.HeadersEvent? && o.dir.ClientToServer?)
      modifies this, s
      ensures Valid() && owned == old(owned)
      ensures exists t :: HandleOne(old(tracks[id]), o) == Handled(Some(t), None, failed) && tracks == old(tracks)[id := t]
    {
      hide RecStream.Valid, RecStream.View, HandleOne;
      failed := false;
      if o.ev.HeadersEvent? {
        failed := s.ClientHeaders(o);
      } else if o.dir.ClientToServer? {
        s.ClientMessage(o);
      } else {
        s.ServerMessage(o);
      }
      tracks := tracks[id := s.View()];
    }

    /** A server header block ends the RPC when it carries a status. */
    method ServerHeaders(id: StreamId, s: RecStream, o: Observed, now: nat -> nat) returns (failed: bool)
      requires Valid() && id in streams && streams[id] == s
      requires o.ev.HeadersEvent? && o.dir.ServerToClient?
      modifies this, s, session, CassetteOf(session)
      ensures Valid() && owned == old(owned)
      ensures var h := HandleOne(old(tracks[id]), o);
              && failed == h.failed
              && tracks == (if h.track.Some? then old(tracks)[id := h.track.value] else old(tracks) - {id})
              && Persisted(session, old(session.streamN), old(FilesOf(session)), h.saved, render, now)
    {
      hide RecStream.Valid, Persisted, FilesOf, IsCompressed, GrpcStatus, Tracker.Finish, HeaderValue;
      NothingPersisted(session, render, now);
      assert tracks[id := tracks[id]] == tracks;
      failed := false;
      if s.service == "" {
        return;
      }
      if IsCompressed(o.ev.fields) {
        return true;
      }
      var status := GrpcStatus(o.ev.fields);
      if status.Some? {
        FinishForgets(tracks[id], status.value.0, status.value.1);
        Finish(id, s, status.value.0, status.value.1, now);
      }
    }

    method Dispatch(id: StreamId, s: RecStream, o: Observed, now: nat -> nat) returns (failed: bool)
      requires Valid() && id in streams && streams[id] == s && !o.ev.GoAwayEvent?
      modifies this, s, session, CassetteOf(session)
      ensures Valid() && owned == old(owned)
      ensures var h := HandleOne(old(tracks[id]), o);
              && failed == h.failed
              && tracks == (if h.track.Some? then old(tracks)[id := h.track.value] else old(tracks) - {id})
              && Persisted(session, old(session.streamN), old(FilesOf(session)), h.saved, render, now)
    {
      hide RecStream.Valid, RecStream.View, Persisted, FilesOf, HandleOne, Tracker.Finish;
      failed := false;
      if o.ev.ResetEvent? {
        ResetFinishes(tracks[id], o);
        Finish(id, s, CANCELED, RESET_TEXT, now);
      } else if o.ev.HeadersEvent? && o.dir.ServerToClient? {
        failed := ServerHeaders(id, s, o, now);
      } else {
        NothingPersisted(session, render, now);
        failed := Fold(id, s, o);
      }
    }

    /** One event of either direction, folded in under the lock. */
    method Handle(o: Observed, now: nat -> nat) returns (failed: bool)
      requires Valid()
      modifies this, owned, session, CassetteOf(session)
      ensures Valid() && fresh(owned - old(owned))
      ensures tracks == TracksAfter(old(tracks), o) && failed == Fails(old(tracks), o)
      ensures Persisted(session, old(session.streamN), old(FilesOf(session)), SavedBy(old(tracks), o), render, now)
    {
      hide RecStream.Valid, RecStream.View, Persisted, FilesOf, HandleOne;
      if o.ev.GoAwayEvent? || o.ev.id == 0 {
        NothingPersisted(session, render, now);
        return false;
      }
      ghost var was := tracks;
      var id := o.ev.id;
      var s := Get(id);
      failed := Dispatch(id, s, o, now);
      Overwrites(was, id, TrackOf(was, id), if id in tracks then tracks[id] else NewTrack);
    }
  }

  lemma Overwrites<K, V>(m: map<K, V>, k: K, v: V, w: V)
    ensures m[k := v][k := w] == m[k := w] && m[k := v] - {k} == m - {k}
  {
  }

  lemma FinishForgets(t: Track, code: nat, text: Bytes)
    ensures Tracker.Finish(t, code, text).track.None? && !Tracker.Finish(t, code, text).failed
  {
  }

  lemma ResetFinishes(t: Track, o: Observed)
    requires o.ev.ResetEvent?
    ensures HandleOne(t, o) == Tracker.Finish(t, CANCELED, RESET_TEXT)
    ensures HandleOne(t, o).track.None? && !HandleOne(t, o).failed
  {
    hide Tracker.Finish, CanonicalJson.Utf8All, HeaderValue, SplitPath, IsCompressed, GrpcStatus, Tracker.NoteHalfClose;
    FinishForgets(t, CANCELED, RESET_TEXT);
  }

  // ---------------------------------------------------------------------------
  // A whole connection
  // ---------------------------------------------------------------------------

  datatype Store = Store(counts: Counters, files: map<(string, string), R.Stored>)

  function StoreWith(session: FileSession, st: Store, saved: Option<Rpc>, render: Render, now: nat -> nat): Store {
    if saved.None? || Refuses(session, saved.value) then st
    else Store(Consume(st.counts, OpenOf(session, saved.value)),
               FilesWith(session, st.counts, st.files, saved.value, render, now))
  }

  /** What the events from the i-th on make of a store; clock(i) is the clock while the i-th is handled. */
  function StoreAfter(session: FileSession, tracks: Tracks, st: Store, evs: seq<Observed>, i: nat, render: Render,
                      clock: nat -> nat -> nat): Store
    requires i <= |evs|
    decreases |evs| - i
  {
    if i == |evs| then st
    else StoreAfter(session, TracksAfter(tracks, evs[i]), StoreWith(session, st, SavedBy(tracks, evs[i]), render, clock(i)),
                    evs, i + 1, render, clock)
  }

  /** The events of both directions, in the order their handlers got the lock. */
  method HandleAll(t: StreamTracker, evs: seq<Observed>, clock: nat -> nat -> nat)
    requires t.Valid()
    modifies t, t.owned, t.session, CassetteOf(t.session)
    ensures t.Valid()
    ensures Store(t.session.streamN, FilesOf(t.session))
            == StoreAfter(t.session, old(t.tracks), Store(old(t.session.streamN), old(FilesOf(t.session))), evs, 0, t.render, clock)
  {
    hide TracksAfter, SavedBy, Fails, FilesWith, Consume, OpenOf, RecStream.Valid, RecStream.View;
    ghost var goal :=
      StoreAfter(t.session, t.tracks, Store(t.session.streamN, FilesOf(t.session)), evs, 0, t.render, clock);
    for i := 0 to |evs|
      invariant t.Valid() && fresh(t.owned - old(t.owned))
      invariant StoreAfter(t.session, t.tracks, Store(t.session.streamN, FilesOf(t.session)), evs, i, t.render, clock) == goal
    {
      var failed := t.Handle(evs[i], clock(i));
    }
  }

  function OpensSaved(session: FileSession, saved: seq<SavedRpc>): seq<CanonicalJson.StreamOpen> {
    seq(|saved|, k requires 0 <= k < |saved| => OpenOf(session, saved[k].rpc))
  }

  /** What is put on file for one RPC. */
  datatype FileEntry = FileEntry(name: (string, string), pair: StreamPair)

  /** The pair that the calls of an RPC save. */
  function PairUnder(cfg: R.RecConfig, rpc: Rpc, render: Render, now: nat -> nat): StreamPair {
    SavedPair(cfg, rpc, render, now);
    R.Saved(cfg, R.Opened, CallsOf(rpc, render, now))[0]
  }

  /** The file of an RPC that is the j-th open of its session. */
  function EntryOf(session: FileSession, opens: seq<CanonicalJson.StreamOpen>, j: nat, x: SavedRpc, render: Render,
                   clock: nat -> nat -> nat): FileEntry
    requires j < |opens|
  {
    var n := Assigned(opens, j);
    FileEntry((opens[j].adapterId, Fingerprint(session.hash, opens[j], n)),
              PairUnder(session.RecordConfig(opens[j], n), x.rpc, render, clock(x.at)))
  }

  /** One file per saved RPC, in terminal order, after the opens that the session counted before. */
  function EntriesOf(session: FileSession, before: seq<CanonicalJson.StreamOpen>, saved: seq<SavedRpc>, render: Render,
                     clock: nat -> nat -> nat): seq<FileEntry>
  {
    var opens := before + OpensSaved(session, saved);
    seq(|saved|, k requires 0 <= k < |saved| => EntryOf(session, opens, |before| + k, saved[k], render, clock))
  }

  /** Files written one after the other. */
  function Put(files: map<(string, string), R.Stored>, entries: seq<FileEntry>): map<(string, string), R.Stored>
    decreases |entries|
  {
    if entries == [] then files else Put(files[entries[0].name := R.Streamed(entries[0].pair)], entries[1..])
  }

  lemma OpensSavedCons(session: FileSession, x: SavedRpc, later: seq<SavedRpc>)
    ensures OpensSaved(session, [x] + later) == [OpenOf(session, x.rpc)] + OpensSaved(session, later)
  {
    hide OpenOf;
  }

  lemma EntriesCons(session: FileSession, before: seq<CanonicalJson.StreamOpen>, x: SavedRpc, later: seq<SavedRpc>, render: Render,
                    clock: nat -> nat -> nat)
    ensures var open := OpenOf(session, x.rpc);
            EntriesOf(session, before, [x] + later, render, clock)
            == [EntryOf(session, before + [open], |before|, x, render, clock)] + EntriesOf(session, before + [open], later, render, clock)
  {
    hide OpenOf, EntryOf;
    var open := OpenOf(session, x.rpc);
    OpensSavedCons(session, x, later);
    var opens := before + OpensSaved(session, [x] + later);
    assert opens == (before + [open]) + OpensSaved(session, later);
    EntrySeesEarlierOpens(session, opens, before + [open], |before|, x, render, clock);
  }

  /** Later opens do not change an entry. */
  lemma EntrySeesEarlierOpens(session: FileSession, opens: seq<CanonicalJson.StreamOpen>, front: seq<CanonicalJson.StreamOpen>, j: nat,
                              x: SavedRpc, render: Render, clock: nat -> nat -> nat)
    requires j < |front| && front <= opens
    ensures EntryOf(session, opens, j, x, render, clock) == EntryOf(session, front, j, x, render, clock)
  {
    hide PairUnder, Fingerprint;
    assert opens[..j] == front[..j];
  }

  /** The file that `finish` writes is the next entry. */
  lemma StoreWithIsNext(session: FileSession, st: Store, rpc: Rpc, id: StreamId, at: nat, render: Render,
                        clock: nat -> nat -> nat, before: seq<CanonicalJson.StreamOpen>)
    requires session.mode == RecordMode && session.cassette != null && st.counts == CountersAfter(before)
    ensures var open, x := OpenOf(session, rpc), SavedRpc(id, rpc, at);
            var e := EntryOf(session, before + [open], |before|, x, render, clock);
            StoreWith(session, st, Some(rpc), render, clock(at))
            == Store(CountersAfter(before + [open]), st.files[e.name := R.Streamed(e.pair)])
  {
    hide OpenOf, Fingerprint, Refuses, R.Saved, CallsOf, CountersAfter, Consume;
    var open := OpenOf(session, rpc);
    RecordingAccepts(session, rpc);
    CountersSnoc(before, open);
    assert (before + [open])[..|before|] == before;
    SavedPair(session.RecordConfig(open, Ordinal(st.counts, open)), rpc, render, clock(at));
  }

  /**
   A connection recorded in a session that has already counted some opens: the cassette is
   what it was with one file per saved RPC put on it in terminal order, the k-th under the
   ordinal of the k-th further open.
   */
  lemma {:induction false} FilesFollowTerminals(session: FileSession, tracks: Tracks, st: Store, evs: seq<Observed>, i: nat,
                                                render: Render, clock: nat -> nat -> nat, before: seq<CanonicalJson.StreamOpen>)
    requires i <= |evs| && session.mode == RecordMode && session.cassette != null
    requires st.counts == CountersAfter(before)
    ensures var saved := SavedOver(tracks, evs, i);
            StoreAfter(session, tracks, st, evs, i, render, clock)
            == Store(CountersAfter(before + OpensSaved(session, saved)), Put(st.files, EntriesOf(session, before, saved, render, clock)))
    decreases |evs| - i
  {
    hide OpenOf, TracksAfter, SavedBy, SavedOver, FilesWith, Consume, CountersAfter, Refuses, EntriesOf, EntryOf, StoreWith;
    if i == |evs| {
      NoEventsNoneSaved(tracks, evs);
      NoEntries(session, before, render, clock);
      assert before + OpensSaved(session, []) == before;
    } else {
      var saved, next := SavedBy(tracks, evs[i]), TracksAfter(tracks, evs[i]);
      var later := SavedOver(next, evs, i + 1);
      SavedOverUnrolled(tracks, evs, i);
      var st' := StoreWith(session, st, saved, render, clock(i));
      if saved.Some? {
        var x, open := SavedRpc(evs[i].ev.id, saved.value, i), OpenOf(session, saved.value);
        StoreWithIsNext(session, st, saved.value, x.id, i, render, clock, before);
        FilesFollowTerminals(session, next, st', evs, i + 1, render, clock, before + [open]);
        OpensSavedCons(session, x, later);
        EntriesCons(session, before, x, later, render, clock);
        assert before + ([open] + OpensSaved(session, later)) == before + [open] + OpensSaved(session, later);
        PutCons(st.files, EntryOf(session, before + [open], |before|, x, render, clock),
                EntriesOf(session, before + [open], later, render, clock));
      } else {
        NoneChangesNothing(session, st, render, clock(i));
        FilesFollowTerminals(session, next, st, evs, i + 1, render, clock, before);
      }
    }
  }

  lemma NoneChangesNothing(session: FileSession, st: Store, render: Render, now: nat -> nat)
    ensures StoreWith(session, st, None, render, now) == st
  {
  }

  lemma PutCons(files: map<(string, string), R.Stored>, e: FileEntry, entries: seq<FileEntry>)
    ensures Put(files, [e] + entries) == Put(files[e.name := R.Streamed(e.pair)], entries)
  {
    assert ([e] + entries)[1..] == entries;
  }

  lemma NoEntries(session: FileSession, before: seq<CanonicalJson.StreamOpen>, render: Render, clock: nat -> nat -> nat)
    ensures EntriesOf(session, before, [], render, clock) == []
  {
  }

  /** A counter-addressed RPC gets as ordinal the number of earlier opens of its tuple: those before, and those whose terminals came first. */
  lemma OrdinalsFollowTerminals(session: FileSession, before: seq<CanonicalJson.StreamOpen>, saved: seq<SavedRpc>, k: nat)
    requires k < |saved| && OpensSaved(session, saved)[k].counter
    ensures var opens := OpensSaved(session, saved);
            Assigned(before + opens, |before| + k) == OpensOf(before, opens[k]) + OpensOf(opens[..k], opens[k])
  {
    hide OpenOf, CountersAfter, CounterKey, OpensOf;
    var opens := OpensSaved(session, saved);
    var o := opens[k];
    GrpcShape(session, saved[k].rpc);
    CounterIsOpensOf((before + opens)[..|before| + k], o);
    assert (before + opens)[..|before| + k] == before + opens[..k];
    OpensOfConcat(before, opens[..k], o);
  }

  lemma GrpcShape(session: FileSession, rpc: Rpc)
    ensures var o := OpenOf(session, rpc);
            CanonicalJson.Acceptable(o) && o.adapterId == Probe.ADAPTER_ID && o.typ == InferType(rpc.log) && (o.counter <==> o.typ != SERVER)
  {
    hide SendsIn, RecvsIn, SendsAtHalfClose;
    InferredType(rpc.log);
    Probe.OpenForShape(session.streamScrub, session.hash, InferType(rpc.log), rpc.service, rpc.method', FirstOrNil(SendsIn(rpc.log)));
  }

  lemma {:induction false} OpensOfConcat(a: seq<CanonicalJson.StreamOpen>, b: seq<CanonicalJson.StreamOpen>, o: CanonicalJson.StreamOpen)
    ensures OpensOf(a + b, o) == OpensOf(a, o) + OpensOf(b, o)
    decreases |b|
  {
    if b == [] {
      assert a + b == a;
    } else {
      assert (a + b)[..|a + b| - 1] == a + b[..|b| - 1];
      OpensOfConcat(a, b[..|b| - 1], o);
    }
  }

  lemma CountersSnoc(opens: seq<CanonicalJson.StreamOpen>, open: CanonicalJson.StreamOpen)
    ensures CountersAfter(opens + [open]) == Consume(CountersAfter(opens), open)
  {
    assert (opens + [open])[..|opens|] == opens;
  }

  lemma RecordingAccepts(session: FileSession, rpc: Rpc)
    ensures Refuses(session, rpc) <==> !(session.mode == RecordMode && session.cassette != null)
  {
  }

  // ---------------------------------------------------------------------------
  // What is on file under a name
  // ---------------------------------------------------------------------------

  /** The last entry of a name; -1 without one. */
  function LastOf(entries: seq<FileEntry>, name: (string, string)): (k: int)
    ensures -1 <= k < |entries| && (k >= 0 ==> entries[k].name == name)
    ensures forall i :: k < i < |entries| ==> entries[i].name != name
  {
    if entries == [] then -1
    else if entries[|entries| - 1].name == name then |entries| - 1
    else LastOf(entries[..|entries| - 1], name)
  }

  lemma {:induction false} PutSnoc(files: map<(string, string), R.Stored>, entries: seq<FileEntry>, e: FileEntry)
    ensures Put(files, entries + [e]) == Put(files, entries)[e.name := R.Streamed(e.pair)]
    decreases |entries|
  {
    if entries == [] {
      assert entries + [e] == [e] && [e][1..] == [];
    } else {
      assert (entries + [e])[1..] == entries[1..] + [e];
      PutSnoc(files[entries[0].name := R.Streamed(entries[0].pair)], entries[1..], e);
    }
  }

  /** The last write under a name is what stays there; other names keep what they had. */
  lemma {:induction false} LastWriteStays(files: map<(string, string), R.Stored>, entries: seq<FileEntry>, name: (string, string))
    ensures var k, after := LastOf(entries, name), Put(files, entries);
            if k >= 0 then name in after && after[name] == R.Streamed(entries[k].pair)
            else (name in after <==> name in files) && (name in files ==> after[name] == files[name])
    decreases |entries|
  {
    if entries != [] {
      var front, last := entries[..|entries| - 1], entries[|entries| - 1];
      assert entries == front + [last];
      PutSnoc(files, front, last);
      LastWriteStays(files, front, name);
    }
  }
}
