/**
 Several recorded connections on one session: a tracker each, one store
 (go/adapters/grpctransport/record.go).
 */
module Connections {
  import opened Prelude
  import opened Demux
  import opened Tracker
  import opened TransportRecorder
  import opened Session
  import CanonicalJson
  import R = Recording

  /** An event of one of the connections. */
  datatype Tagged = Tagged(conn: nat, o: Observed)

  predicate Among(evs: seq<Tagged>, n: nat) {
    forall i :: 0 <= i < |evs| ==> evs[i].conn < n
  }

  /** The RPCs saved over the events of all connections from the i-th on, in the order of their terminals. */
  function SavedAcross(all: seq<Tracks>, evs: seq<Tagged>, i: nat): seq<SavedRpc>
    requires i <= |evs| && Among(evs, |all|)
    decreases |evs| - i
  {
    if i == |evs| then []
    else
      var c, o := evs[i].conn, evs[i].o;
      (var s := SavedBy(all[c], o); if s.Some? then [SavedRpc(o.ev.id, s.value, i)] else [])
      + SavedAcross(all[c := TracksAfter(all[c], o)], evs, i + 1)
  }

  lemma SavedAcrossUnrolled(all: seq<Tracks>, evs: seq<Tagged>, i: nat)
    requires i < |evs| && Among(evs, |all|)
    ensures SavedBy(all[evs[i].conn], evs[i].o).Some? ==> !evs[i].o.ev.GoAwayEvent?
    ensures var c, o := evs[i].conn, evs[i].o;
            var s, later := SavedBy(all[c], o), SavedAcross(all[c := TracksAfter(all[c], o)], evs, i + 1);
            SavedAcross(all, evs, i) == if s.Some? then [SavedRpc(o.ev.id, s.value, i)] + later else later
  {
    hide TracksAfter, SavedBy;
    var c, o := evs[i].conn, evs[i].o;
    SavedOnStream(all[c], o);
    var later := SavedAcross(all[c := TracksAfter(all[c], o)], evs, i + 1);
    assert [] + later == later;
  }

  lemma SavedOnStream(tracks: Tracks, o: Observed)
    ensures SavedBy(tracks, o).Some? ==> !o.ev.GoAwayEvent?
  {
    hide HandleOne;
  }

  lemma NoneSavedAcross(all: seq<Tracks>, evs: seq<Tagged>)
    requires Among(evs, |all|)
    ensures SavedAcross(all, evs, |evs|) == []
  {
  }

  /** What the events of all connections make of the one store. */
  function StoreAcross(session: FileSession, all: seq<Tracks>, st: Store, evs: seq<Tagged>, i: nat, render: Render,
                       clock: nat -> nat -> nat): Store
    requires i <= |evs| && Among(evs, |all|)
    decreases |evs| - i
  {
    if i == |evs| then st
    else
      var c, o := evs[i].conn, evs[i].o;
      StoreAcross(session, all[c := TracksAfter(all[c], o)], StoreWith(session, st, SavedBy(all[c], o), render, clock(i)),
                  evs, i + 1, render, clock)
  }

  /** As for one connection: one file per saved RPC, put there in the order of the terminals of all connections. */
  lemma {:induction false} FilesFollowAllTerminals(session: FileSession, all: seq<Tracks>, st: Store, evs: seq<Tagged>, i: nat,
                                                   render: Render, clock: nat -> nat -> nat, before: seq<CanonicalJson.StreamOpen>)
    requires i <= |evs| && Among(evs, |all|) && session.mode == RecordMode && session.cassette != null
    requires st.counts == CountersAfter(before)
    ensures var saved := SavedAcross(all, evs, i);
            StoreAcross(session, all, st, evs, i, render, clock)
            == Store(CountersAfter(before + OpensSaved(session, saved)), Put(st.files, EntriesOf(session, before, saved, render, clock)))
    decreases |evs| - i
  {
    hide OpenOf, TracksAfter, SavedBy, SavedAcross, FilesWith, Consume, CountersAfter, Refuses, EntriesOf, EntryOf, StoreWith;
    if i == |evs| {
      NoneSavedAcross(all, evs);
      NoEntries(session, before, render, clock);
      assert before + OpensSaved(session, []) == before;
    } else {
      var c, o := evs[i].conn, evs[i].o;
      var saved, next := SavedBy(all[c], o), all[c := TracksAfter(all[c], o)];
      var later := SavedAcross(next, evs, i + 1);
      SavedAcrossUnrolled(all, evs, i);
      if saved.Some? {
        var x, open := SavedRpc(o.ev.id, saved.value, i), OpenOf(session, saved.value);
        StoreWithIsNext(session, st, saved.value, x.id, i, render, clock, before);
        FilesFollowAllTerminals(session, next, StoreWith(session, st, saved, render, clock(i)), evs, i + 1, render, clock, before + [open]);
        OpensSavedCons(session, x, later);
        EntriesCons(session, before, x, later, render, clock);
        assert before + ([open] + OpensSaved(session, later)) == before + [open] + OpensSaved(session, later);
        PutCons(st.files, EntryOf(session, before + [open], |before|, x, render, clock),
                EntriesOf(session, before + [open], later, render, clock));
      } else {
        NoneChangesNothing(session, st, render, clock(i));
        FilesFollowAllTerminals(session, next, st, evs, i + 1, render, clock, before);
      }
    }
  }

  // ---------------------------------------------------------------------------
  // Connections do not disturb each other
  // ---------------------------------------------------------------------------

  function OnConn(evs: seq<Tagged>, c: nat): seq<Observed> {
    if evs == [] then [] else (if evs[0].conn == c then [evs[0].o] else []) + OnConn(evs[1..], c)
  }

  /** The RPCs one tracker saves. */
  function SavesOf(tracks: Tracks, evs: seq<Observed>): seq<Rpc>
    decreases |evs|
  {
    if evs == [] then []
    else (var s := SavedBy(tracks, evs[0]); if s.Some? then [s.value] else []) + SavesOf(TracksAfter(tracks, evs[0]), evs[1..])
  }

  /** The RPCs saved for one connection, among the events of all. */
  function SavesOfConn(all: seq<Tracks>, evs: seq<Tagged>, c: nat): seq<Rpc>
    requires Among(evs, |all|)
    decreases |evs|
  {
    if evs == [] then []
    else
      var d, o := evs[0].conn, evs[0].o;
      (var s := SavedBy(all[d], o); if s.Some? && d == c then [s.value] else [])
      + SavesOfConn(all[d := TracksAfter(all[d], o)], evs[1..], c)
  }

  /** What is saved for a connection is what its own events save, whatever other connections do. */
  lemma {:induction false} ConnectionIsolation(all: seq<Tracks>, evs: seq<Tagged>, c: nat)
    requires Among(evs, |all|) && c < |all|
    ensures SavesOfConn(all, evs, c) == SavesOf(all[c], OnConn(evs, c))
    decreases |evs|
  {
    hide SavedBy, TracksAfter;
    if evs != [] {
      var d, o := evs[0].conn, evs[0].o;
      var next := all[d := TracksAfter(all[d], o)];
      ConnectionIsolation(next, evs[1..], c);
      if d == c {
        assert OnConn(evs, c)[0] == o && OnConn(evs, c)[1..] == OnConn(evs[1..], c);
      } else {
        assert OnConn(evs, c) == OnConn(evs[1..], c);
        assert [] + SavesOfConn(next, evs[1..], c) == SavesOfConn(next, evs[1..], c);
      }
    }
  }

  // ---------------------------------------------------------------------------
  // The trackers of a session
  // ---------------------------------------------------------------------------

  ghost function TracksOf(trackers: seq<StreamTracker>): (r: seq<Tracks>)
    reads trackers
    ensures |r| == |trackers| && forall c :: 0 <= c < |trackers| ==> r[c] == trackers[c].tracks
  {
    seq(|trackers|, c requires 0 <= c < |trackers| reads trackers => trackers[c].tracks)
  }

  ghost function OwnedBy(trackers: seq<StreamTracker>): set<RecStream>
    reads trackers
  {
    set c, s | 0 <= c < |trackers| && s in trackers[c].owned :: s
  }

  /** One tracker per connection, on one session; no stream object is shared. */
  ghost predicate Together(trackers: seq<StreamTracker>, session: FileSession, render: Render)
    reads trackers, OwnedBy(trackers)
  {
    && (forall c :: 0 <= c < |trackers| ==>
          trackers[c].session == session && trackers[c].render == render && trackers[c].Valid())
    && (forall c, d :: 0 <= c < d < |trackers| ==> trackers[c] != trackers[d] && trackers[c].owned !! trackers[d].owned)
  }

  method HandleOnce(trackers: seq<StreamTracker>, session: FileSession, render: Render, ev: Tagged, now: nat -> nat)
    requires Together(trackers, session, render) && ev.conn < |trackers|
    modifies trackers, OwnedBy(trackers), session, CassetteOf(session)
    ensures Together(trackers, session, render) && fresh(OwnedBy(trackers) - old(OwnedBy(trackers)))
    ensures var c, was := ev.conn, old(TracksOf(trackers));
            && TracksOf(trackers) == was[c := TracksAfter(was[c], ev.o)]
            && Persisted(session, old(session.streamN), old(FilesOf(session)), SavedBy(was[c], ev.o), render, now)
  {
    hide StreamTracker.Valid, TracksAfter, SavedBy, Persisted, Fails, FilesOf;
    var failed := trackers[ev.conn].Handle(ev.o, now);
  }

  /** The events of all connections, in the order their handlers came to the session. */
  method HandleAcross(trackers: seq<StreamTracker>, session: FileSession, render: Render, evs: seq<Tagged>, clock: nat -> nat -> nat)
    requires Together(trackers, session, render) && Among(evs, |trackers|)
    modifies trackers, OwnedBy(trackers), session, CassetteOf(session)
    ensures Together(trackers, session, render)
    ensures Store(session.streamN, FilesOf(session))
            == StoreAcross(session, old(TracksOf(trackers)), Store(old(session.streamN), old(FilesOf(session))), evs, 0, render, clock)
  {
    hide TracksAfter, SavedBy, FilesWith, Consume, OpenOf, Together, TracksOf;
    ghost var goal := StoreAcross(session, TracksOf(trackers), Store(session.streamN, FilesOf(session)), evs, 0, render, clock);
    for i := 0 to |evs|
      invariant Together(trackers, session, render) && fresh(OwnedBy(trackers) - old(OwnedBy(trackers)))
      invariant StoreAcross(session, TracksOf(trackers), Store(session.streamN, FilesOf(session)), evs, i, render, clock) == goal
    {
      HandleOnce(trackers, session, render, evs[i], clock(i));
    }
  }
}
