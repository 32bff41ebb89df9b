/**
 Occurrence ordinals against the order in which RPCs were opened
 (go/adapters/grpctransport/record.go; the replay connection numbers its opens in open order).
 */
module Ordinals {
  import opened Prelude
  import opened StreamModel
  import opened Demux
  import opened GrpcHeaders
  import opened Tracker
  import opened TransportRecorder
  import opened Session
  import opened Samples
  import CanonicalJson
  import Probe

  // ---------------------------------------------------------------------------
  // Where a saved RPC was opened
  // ---------------------------------------------------------------------------

  /** The last event before the t-th that names an RPC on a stream; -1 without one. */
  function LastOpen(evs: seq<Observed>, id: StreamId, t: nat): (j: int)
    requires t <= |evs|
    ensures -1 <= j < t && (j >= 0 ==> OpensRpc(evs[j]) && evs[j].ev.id == id)
  {
    if t == 0 then -1
    else if OpensRpc(evs[t - 1]) && evs[t - 1].ev.id == id then t - 1
    else LastOpen(evs, id, t - 1)
  }

  function OpenedAt(evs: seq<Observed>, x: SavedRpc): (j: int)
    requires x.at <= |evs|
    ensures -1 <= j < x.at
  {
    LastOpen(evs, x.id, x.at)
  }

  lemma {:induction false} LastOpenGrows(evs: seq<Observed>, id: StreamId, s: nat, t: nat)
    requires s <= t <= |evs|
    ensures LastOpen(evs, id, s) <= LastOpen(evs, id, t)
    decreases t
  {
    if s < t {
      LastOpenGrows(evs, id, s, t - 1);
    }
  }

  /** Saves happen at events of their own stream, in order. */
  lemma {:induction false} SavedAscend(tracks: Tracks, evs: seq<Observed>, i: nat)
    requires i <= |evs|
    ensures forall k :: 0 <= k < |SavedOver(tracks, evs, i)| ==> i <= SavedOver(tracks, evs, i)[k].at < |evs|
    ensures forall k, l :: 0 <= k < l < |SavedOver(tracks, evs, i)| ==>
              SavedOver(tracks, evs, i)[k].at < SavedOver(tracks, evs, i)[l].at
    decreases |evs| - i
  {
    hide SavedOver, SavedBy, TracksAfter;
    if i == |evs| {
      NoEventsNoneSaved(tracks, evs);
    } else {
      SavedOverUnrolled(tracks, evs, i);
      SavedAscend(TracksAfter(tracks, evs[i]), evs, i + 1);
    }
  }

  lemma OpenSavesNothing(t: Track, o: Observed)
    ensures OpensRpc(o) ==> HandleOne(t, o).saved.None?
  {
    hide GrpcStatus, IsCompressed, HeaderValue, SplitPath, NoteHalfClose, CanonicalJson.Utf8All;
  }

  /** A step that leaves a nameless stream nameless, unless it opens it; and saves only what was named. */
  lemma NameStep(tracks: Tracks, o: Observed, id: StreamId)
    requires TrackOf(tracks, id).service == ""
    ensures SavedBy(tracks, o).Some? ==> o.ev.id != id
    ensures TrackOf(TracksAfter(tracks, o), id).service != "" ==> OpensRpc(o) && o.ev.id == id
  {
    hide HandleOne, OpensRpc;
    if !Ignored(o) {
      StepSavesAtMostOne(TrackOf(tracks, o.ev.id), o);
      OpenSavesNothing(TrackOf(tracks, o.ev.id), o);
      var h := HandleOne(TrackOf(tracks, o.ev.id), o);
      if o.ev.id == id {
        assert TrackOf(TracksAfter(tracks, o), id) == if h.track.Some? then h.track.value else NewTrack;
      } else {
        assert TrackOf(TracksAfter(tracks, o), id) == TrackOf(tracks, id);
      }
    }
  }

  lemma SaveForgets(tracks: Tracks, o: Observed)
    requires SavedBy(tracks, o).Some?
    ensures TrackOf(TracksAfter(tracks, o), o.ev.id).service == ""
  {
    hide HandleOne;
    SavedIsForgotten(TrackOf(tracks, o.ev.id), o);
  }

  lemma SavedIsForgotten(t: Track, o: Observed)
    ensures HandleOne(t, o).saved.Some? ==> HandleOne(t, o).track.None?
  {
    hide GrpcStatus, IsCompressed, HeaderValue, SplitPath, CanonicalJson.Utf8All;
  }

  /** From a point where a stream has no name, it takes an open to save an RPC on it. */
  lemma {:induction false} SaveNeedsOpen(tracks: Tracks, evs: seq<Observed>, i: nat, id: StreamId)
    requires i <= |evs| && TrackOf(tracks, id).service == ""
    ensures forall x :: x in SavedOver(tracks, evs, i) && x.id == id ==> x.at <= |evs| && OpenedAt(evs, x) >= i
    decreases |evs| - i
  {
    hide SavedOver, SavedBy, TracksAfter, OpensRpc;
    SavedAscend(tracks, evs, i);
    if i == |evs| {
      NoEventsNoneSaved(tracks, evs);
    } else {
      var next := TracksAfter(tracks, evs[i]);
      var later := SavedOver(next, evs, i + 1);
      SavedOverUnrolled(tracks, evs, i);
      NameStep(tracks, evs[i], id);
      SavedAscend(next, evs, i + 1);
      if TrackOf(next, id).service == "" {
        SaveNeedsOpen(next, evs, i + 1, id);
      } else {
        assert LastOpen(evs, id, i + 1) == i;
        forall x | x in later && x.id == id ensures OpenedAt(evs, x) >= i {
          LastOpenGrows(evs, id, i + 1, x.at);
        }
      }
    }
  }

  /** No two saved RPCs were opened by one event. */
  lemma {:induction false} OpensDiffer(tracks: Tracks, evs: seq<Observed>, i: nat)
    requires i <= |evs|
    ensures var saved := SavedOver(tracks, evs, i);
            forall k, l :: 0 <= k < l < |saved| ==>
              saved[k].at <= |evs| && saved[l].at <= |evs|
              && (OpenedAt(evs, saved[k]) == OpenedAt(evs, saved[l]) ==> OpenedAt(evs, saved[k]) == -1)
    decreases |evs| - i
  {
    hide SavedOver, SavedBy, TracksAfter, OpensRpc;
    if i == |evs| {
      NoEventsNoneSaved(tracks, evs);
    } else {
      var o, next := evs[i], TracksAfter(tracks, evs[i]);
      var saved, later := SavedOver(tracks, evs, i), SavedOver(next, evs, i + 1);
      SavedOverUnrolled(tracks, evs, i);
      OpensDiffer(next, evs, i + 1);
      SavedAscend(tracks, evs, i);
      if SavedBy(tracks, o).Some? {
        SaveForgets(tracks, o);
        SaveNeedsOpen(next, evs, i + 1, o.ev.id);
        forall l | 0 < l < |saved|
          ensures OpenedAt(evs, saved[0]) == OpenedAt(evs, saved[l]) ==> OpenedAt(evs, saved[0]) == -1
        {
          assert saved[l] == later[l - 1];
        }
        assert forall l :: 0 < l < |saved| ==> saved[l] == later[l - 1];
      }
    }
  }

  // ---------------------------------------------------------------------------
  // Two orders of one tuple's RPCs
  // ---------------------------------------------------------------------------

  predicate OneTuple(o: CanonicalJson.StreamOpen, p: CanonicalJson.StreamOpen) {
    o.adapterId == p.adapterId && o.typ == p.typ && o.identity == p.identity
  }

  /** The opens of k's tuple whose place in some other order comes before k's. */
  ghost function PlacedBefore(opens: seq<CanonicalJson.StreamOpen>, place: seq<int>, k: nat): set<nat>
    requires k < |opens| == |place|
  {
    set l: nat | l < |opens| && OneTuple(opens[l], opens[k]) && place[l] < place[k]
  }

  ghost function IndexedBefore(opens: seq<CanonicalJson.StreamOpen>, k: nat, o: CanonicalJson.StreamOpen): set<nat>
    requires k <= |opens|
  {
    set l: nat | l < k && OneTuple(opens[l], o)
  }

  lemma {:induction false} CountedByIndex(opens: seq<CanonicalJson.StreamOpen>, k: nat, o: CanonicalJson.StreamOpen)
    requires k <= |opens| && forall l :: 0 <= l < |opens| && OneTuple(opens[l], o) ==> Counts(opens[l])
    ensures OpensOf(opens[..k], o) == |IndexedBefore(opens, k, o)|
    decreases k
  {
    if k > 0 {
      CountedByIndex(opens, k - 1, o);
      assert opens[..k][..k - 1] == opens[..k - 1];
      var now := IndexedBefore(opens, k, o);
      if OneTuple(opens[k - 1], o) {
        assert now == IndexedBefore(opens, k - 1, o) + {k - 1};
      } else {
        assert now == IndexedBefore(opens, k - 1, o);
      }
    } else {
      assert IndexedBefore(opens, 0, o) == {};
    }
  }

  lemma SubsetIsNoLarger<T>(a: set<T>, b: set<T>)
    requires a <= b
    ensures |a| <= |b|
  {
    assert b == a + (b - a) && |a + (b - a)| == |a| + |b - a|;
  }

  lemma StrictSubsetIsSmaller<T>(a: set<T>, b: set<T>, x: T)
    requires a <= b && x in b && x !in a
    ensures |a| < |b|
  {
    SubsetIsNoLarger(a + {x}, b);
  }

  /** The two orders rank a counter-addressed tuple alike exactly when they agree on it. */
  lemma SameRanksIffSameOrder(opens: seq<CanonicalJson.StreamOpen>, place: seq<int>, o: CanonicalJson.StreamOpen)
    requires |opens| == |place| && forall k, l :: 0 <= k < l < |place| ==> place[k] != place[l]
    requires forall l :: 0 <= l < |opens| && OneTuple(opens[l], o) ==> Counts(opens[l])
    ensures (forall k :: 0 <= k < |opens| && OneTuple(opens[k], o) ==> OpensOf(opens[..k], opens[k]) == |PlacedBefore(opens, place, k)|)
            <==> (forall k, l :: 0 <= k < l < |opens| && OneTuple(opens[k], o) && OneTuple(opens[l], o) ==> place[k] < place[l])
  {
    hide OpensOf, PlacedBefore, IndexedBefore;
    if forall k :: 0 <= k < |opens| && OneTuple(opens[k], o) ==> OpensOf(opens[..k], opens[k]) == |PlacedBefore(opens, place, k)| {
      forall k, l | 0 <= k < l < |opens| && OneTuple(opens[k], o) && OneTuple(opens[l], o) ensures place[k] < place[l] {
        CountedByIndex(opens, k, opens[k]);
        CountedByIndex(opens, l, opens[l]);
        EarlierIndex(opens, k, l);
        if place[l] < place[k] {
          LaterPlace(opens, place, l, k);
        }
      }
    }
    if forall k, l :: 0 <= k < l < |opens| && OneTuple(opens[k], o) && OneTuple(opens[l], o) ==> place[k] < place[l] {
      forall k | 0 <= k < |opens| && OneTuple(opens[k], o) ensures OpensOf(opens[..k], opens[k]) == |PlacedBefore(opens, place, k)| {
        CountedByIndex(opens, k, opens[k]);
        SameSets(opens, place, o, k);
      }
    }
  }

  lemma EarlierIndex(opens: seq<CanonicalJson.StreamOpen>, k: nat, l: nat)
    requires k < l < |opens| && OneTuple(opens[k], opens[l])
    ensures |IndexedBefore(opens, k, opens[k])| < |IndexedBefore(opens, l, opens[l])|
  {
    StrictSubsetIsSmaller(IndexedBefore(opens, k, opens[k]), IndexedBefore(opens, l, opens[l]), k);
  }

  lemma LaterPlace(opens: seq<CanonicalJson.StreamOpen>, place: seq<int>, k: nat, l: nat)
    requires k < |opens| == |place| && l < |opens| && OneTuple(opens[k], opens[l]) && place[k] <= place[l]
    ensures |PlacedBefore(opens, place, k)| <= |PlacedBefore(opens, place, l)|
  {
    SubsetIsNoLarger(PlacedBefore(opens, place, k), PlacedBefore(opens, place, l));
  }

  lemma SameSets(opens: seq<CanonicalJson.StreamOpen>, place: seq<int>, o: CanonicalJson.StreamOpen, k: nat)
    requires k < |opens| == |place| && OneTuple(opens[k], o)
    requires forall k, l :: 0 <= k < l < |opens| && OneTuple(opens[k], o) && OneTuple(opens[l], o) ==> place[k] < place[l]
    ensures PlacedBefore(opens, place, k) == IndexedBefore(opens, k, opens[k])
  {
    forall l: nat ensures l in PlacedBefore(opens, place, k) <==> l in IndexedBefore(opens, k, opens[k]) {
    }
  }

  // ---------------------------------------------------------------------------
  // When ordinals follow open order
  // ---------------------------------------------------------------------------

  /** Where the saved RPCs of a connection were opened. */
  function Places(evs: seq<Observed>, saved: seq<SavedRpc>): seq<int>
    requires forall k :: 0 <= k < |saved| ==> saved[k].at <= |evs|
  {
    seq(|saved|, k requires 0 <= k < |saved| => OpenedAt(evs, saved[k]))
  }

  ghost predicate Located(evs: seq<Observed>, saved: seq<SavedRpc>) {
    forall k :: 0 <= k < |saved| ==> saved[k].at <= |evs|
  }

  ghost predicate OpenedApart(evs: seq<Observed>, saved: seq<SavedRpc>)
    requires Located(evs, saved)
  {
    && (forall k :: 0 <= k < |saved| ==> OpenedAt(evs, saved[k]) >= 0)
    && (forall k, l :: 0 <= k < l < |saved| ==> OpenedAt(evs, saved[k]) != OpenedAt(evs, saved[l]))
  }

  lemma PlacesDiffer(evs: seq<Observed>, i: nat)
    requires i <= |evs|
    ensures Located(evs, SavedOver(NoTracks, evs, i)) && OpenedApart(evs, SavedOver(NoTracks, evs, i))
  {
    hide OpensRpc, SavedBy, TracksAfter;
    var saved := SavedOver(NoTracks, evs, i);
    SavedAscend(NoTracks, evs, i);
    OpensDiffer(NoTracks, evs, i);
    forall k | 0 <= k < |saved| ensures OpenedAt(evs, saved[k]) >= 0 {
      SaveNeedsOpen(NoTracks, evs, i, saved[k].id);
      assert saved[k] in saved;
    }
  }

  /** Every saved RPC of the tuple has as ordinal the number of those of its tuple opened before it, after those counted before. */
  ghost predicate NumberedByOpens(session: FileSession, before: seq<CanonicalJson.StreamOpen>, evs: seq<Observed>,
                                  saved: seq<SavedRpc>, o: CanonicalJson.StreamOpen)
    requires Located(evs, saved)
  {
    var opens := OpensSaved(session, saved);
    forall k :: 0 <= k < |saved| && OneTuple(opens[k], o) ==>
      Assigned(before + opens, |before| + k) == OpensOf(before, opens[k]) + |PlacedBefore(opens, Places(evs, saved), k)|
  }

  /** The saved RPCs of the tuple end in the order they were opened. */
  ghost predicate EndAsOpened(session: FileSession, evs: seq<Observed>, saved: seq<SavedRpc>, o: CanonicalJson.StreamOpen)
    requires Located(evs, saved)
  {
    var opens := OpensSaved(session, saved);
    forall k, l :: 0 <= k < l < |saved| && OneTuple(opens[k], o) && OneTuple(opens[l], o) ==>
      OpenedAt(evs, saved[k]) < OpenedAt(evs, saved[l])
  }

  lemma NumberedIff(session: FileSession, before: seq<CanonicalJson.StreamOpen>, evs: seq<Observed>, saved: seq<SavedRpc>,
                    o: CanonicalJson.StreamOpen)
    requires Located(evs, saved) && OpenedApart(evs, saved) && (o.typ == CLIENT || o.typ == BIDI)
    ensures NumberedByOpens(session, before, evs, saved, o) <==> EndAsOpened(session, evs, saved, o)
  {
    hide OpenedAt, OpenOf, OpensOf, Assigned, PlacedBefore;
    var opens := OpensSaved(session, saved);
    TypesDiffer();
    forall l | 0 <= l < |opens| && OneTuple(opens[l], o) ensures Counts(opens[l]) && opens[l].counter {
      GrpcShape(session, saved[l].rpc);
    }
    forall k | 0 <= k < |opens| && OneTuple(opens[k], o)
      ensures Assigned(before + opens, |before| + k) == OpensOf(before, opens[k]) + OpensOf(opens[..k], opens[k])
    {
      OrdinalsFollowTerminals(session, before, saved, k);
    }
    SameRanksIffSameOrder(opens, Places(evs, saved), o);
  }

  /**
   On any connection of a fresh tracker, for any counter-addressed tuple: each of its saved
   RPCs gets as ordinal the number of its saved RPCs opened before it exactly when they end
   in the order they were opened. RPCs that never end are not saved and count nowhere.
   */
  lemma OrdinalsFollowOpensIff(session: FileSession, before: seq<CanonicalJson.StreamOpen>, evs: seq<Observed>,
                               o: CanonicalJson.StreamOpen)
    requires o.typ == CLIENT || o.typ == BIDI
    ensures Located(evs, SavedOver(NoTracks, evs, 0))
    ensures NumberedByOpens(session, before, evs, SavedOver(NoTracks, evs, 0), o)
            <==> EndAsOpened(session, evs, SavedOver(NoTracks, evs, 0), o)
  {
    hide NumberedByOpens, EndAsOpened, OpenedApart;
    PlacesDiffer(evs, 0);
    NumberedIff(session, before, evs, SavedOver(NoTracks, evs, 0), o);
  }

  lemma TypesDiffer()
    ensures SERVER != CLIENT && SERVER != BIDI
  {
    assert SERVER[0] != CLIENT[0] && SERVER[0] != BIDI[0];
  }

  // ---------------------------------------------------------------------------
  // Against a client that counts every open
  // ---------------------------------------------------------------------------

  /** A header block that names an RPC of the given service and method. */
  predicate Names(o: Observed, service: string, method': string) {
    OpensRpc(o) && o.ev.id != 0 && SplitPath(HeaderValue(o.ev.fields, ":path")) == Some((service, method'))
  }

  /** The namings of a method among the first t events, whether or not their RPCs are ever saved. */
  ghost function NamingsBefore(evs: seq<Observed>, service: string, method': string, t: nat): set<int>
    requires t <= |evs|
  {
    set j | 0 <= j < t && Names(evs[j], service, method')
  }

  /** If a stream has a name, it is that of its last naming. */
  ghost predicate NamedByLast(tracks: Tracks, evs: seq<Observed>, i: nat, id: StreamId)
    requires i <= |evs|
  {
    var t := TrackOf(tracks, id);
    t.service != "" ==> LastOpen(evs, id, i) >= 0 && Names(evs[LastOpen(evs, id, i)], t.service, t.method')
  }

  lemma NameKept(t: Track, o: Observed)
    ensures var h := HandleOne(t, o);
            && (h.track.Some? ==> if OpensRpc(o) then SplitPath(HeaderValue(o.ev.fields, ":path"))
                                                      == Some((h.track.value.service, h.track.value.method'))
                                  else h.track.value.service == t.service && h.track.value.method' == t.method')
            && (h.saved.Some? ==> h.saved.value.service == t.service != "" && h.saved.value.method' == t.method')
  {
    hide GrpcStatus, IsCompressed, HeaderValue, SplitPath, NoteHalfClose, CanonicalJson.Utf8All;
  }

  lemma NamedByLastStep(tracks: Tracks, evs: seq<Observed>, i: nat, id: StreamId)
    requires i < |evs| && id != 0 && NamedByLast(tracks, evs, i, id)
    ensures NamedByLast(TracksAfter(tracks, evs[i]), evs, i + 1, id)
    ensures SavedBy(tracks, evs[i]).Some? && evs[i].ev.id == id ==>
              var rpc := SavedBy(tracks, evs[i]).value;
              LastOpen(evs, id, i) >= 0 && Names(evs[LastOpen(evs, id, i)], rpc.service, rpc.method')
  {
    hide HandleOne, SplitPath, HeaderValue;
    var o := evs[i];
    if !Ignored(o) {
      NameKept(TrackOf(tracks, o.ev.id), o);
      var h := HandleOne(TrackOf(tracks, o.ev.id), o);
      if o.ev.id == id {
        assert TrackOf(TracksAfter(tracks, o), id) == if h.track.Some? then h.track.value else NewTrack;
      } else {
        assert TrackOf(TracksAfter(tracks, o), id) == TrackOf(tracks, id);
      }
    }
  }

  /** Every RPC saved on a stream was opened by a naming of its own method. */
  lemma {:induction false} SavedByItsName(tracks: Tracks, evs: seq<Observed>, i: nat, id: StreamId)
    requires i <= |evs| && id != 0 && NamedByLast(tracks, evs, i, id)
    ensures forall x :: x in SavedOver(tracks, evs, i) && x.id == id ==>
              x.at <= |evs| && OpenedAt(evs, x) >= 0 && Names(evs[OpenedAt(evs, x)], x.rpc.service, x.rpc.method')
    decreases |evs| - i
  {
    hide SavedBy, TracksAfter, NamedByLast, Names;
    if i == |evs| {
      NoEventsNoneSaved(tracks, evs);
    } else {
      NamedByLastStep(tracks, evs, i, id);
      SavedByItsName(TracksAfter(tracks, evs[i]), evs, i + 1, id);
      SavedOverUnrolled(tracks, evs, i);
    }
  }

  /** Saved RPCs are on real streams. */
  lemma {:induction false} SavedOnStreams(tracks: Tracks, evs: seq<Observed>, i: nat)
    requires i <= |evs|
    ensures forall x :: x in SavedOver(tracks, evs, i) ==> x.id != 0
    decreases |evs| - i
  {
    hide HandleOne, TracksAfter;
    if i == |evs| {
      NoEventsNoneSaved(tracks, evs);
    } else {
      SavedOverUnrolled(tracks, evs, i);
      SavedOnStreams(TracksAfter(tracks, evs[i]), evs, i + 1);
    }
  }

  ghost predicate OpenedByName(evs: seq<Observed>, saved: seq<SavedRpc>)
    requires Located(evs, saved) && OpenedApart(evs, saved)
  {
    forall k :: 0 <= k < |saved| ==> Names(evs[OpenedAt(evs, saved[k])], saved[k].rpc.service, saved[k].rpc.method')
  }

  lemma OpenedByTheirNames(evs: seq<Observed>, i: nat)
    requires i <= |evs| && Located(evs, SavedOver(NoTracks, evs, i)) && OpenedApart(evs, SavedOver(NoTracks, evs, i))
    ensures OpenedByName(evs, SavedOver(NoTracks, evs, i))
  {
    hide SavedBy, TracksAfter, Names;
    var saved := SavedOver(NoTracks, evs, i);
    SavedOnStreams(NoTracks, evs, i);
    forall k | 0 <= k < |saved| ensures Names(evs[OpenedAt(evs, saved[k])], saved[k].rpc.service, saved[k].rpc.method') {
      assert saved[k] in saved;
      SavedByItsName(NoTracks, evs, i, saved[k].id);
    }
  }

  /** The counter-addressed open of a method. */
  function MethodOpen(session: FileSession, service: string, method': string, typ: string): CanonicalJson.StreamOpen {
    Probe.StreamOpenFor(session.streamScrub, session.hash, typ, service, method', [])
  }

  lemma TupleIsMethod(session: FileSession, rpc: Rpc, service: string, method': string, typ: string)
    requires typ == CLIENT || typ == BIDI
    ensures OneTuple(OpenOf(session, rpc), MethodOpen(session, service, method', typ))
            <==> rpc.service == service && rpc.method' == method' && InferType(rpc.log) == typ
  {
    hide SendsIn, RecvsIn, SendsAtHalfClose, InferType;
    GrpcShape(session, rpc);
    var o, p := OpenOf(session, rpc), MethodOpen(session, service, method', typ);
    Probe.OpenForShape(session.streamScrub, session.hash, InferType(rpc.log), rpc.service, rpc.method', FirstOrNil(SendsIn(rpc.log)));
    Probe.OpenForShape(session.streamScrub, session.hash, typ, service, method', []);
    TypesDiffer();
    assert p.identity["service"] == Text(service) && p.identity["method"] == Text(method');
    if InferType(rpc.log) == typ {
      assert o.identity["service"] == Text(rpc.service) && o.identity["method"] == Text(rpc.method');
    }
  }

  /** Every saved RPC of the tuple has as ordinal the number of earlier namings of its method, after the opens counted before. */
  ghost predicate NumberedByNamings(session: FileSession, before: seq<CanonicalJson.StreamOpen>, evs: seq<Observed>,
                                    saved: seq<SavedRpc>, o: CanonicalJson.StreamOpen)
    requires Located(evs, saved) && OpenedApart(evs, saved)
  {
    var opens := OpensSaved(session, saved);
    forall k :: 0 <= k < |saved| && OneTuple(opens[k], o) ==>
      Assigned(before + opens, |before| + k)
      == OpensOf(before, opens[k]) + |NamingsBefore(evs, saved[k].rpc.service, saved[k].rpc.method', OpenedAt(evs, saved[k]))|
  }

  /** The j-th event opened a saved RPC of the tuple. */
  ghost predicate OpenedSaved(session: FileSession, evs: seq<Observed>, saved: seq<SavedRpc>, o: CanonicalJson.StreamOpen, j: int)
    requires Located(evs, saved)
  {
    exists l :: 0 <= l < |saved| && OneTuple(OpenOf(session, saved[l].rpc), o) && OpenedAt(evs, saved[l]) == j
  }

  /** Each naming of the method before a saved RPC of the tuple opened a saved RPC of the tuple itself. */
  ghost predicate NoneUnsaved(session: FileSession, evs: seq<Observed>, saved: seq<SavedRpc>, o: CanonicalJson.StreamOpen)
    requires Located(evs, saved) && OpenedApart(evs, saved)
  {
    forall k, j :: 0 <= k < |saved| && OneTuple(OpenOf(session, saved[k].rpc), o)
                   && j in NamingsBefore(evs, saved[k].rpc.service, saved[k].rpc.method', OpenedAt(evs, saved[k])) ==>
      OpenedSaved(session, evs, saved, o, j)
  }

  /** The earlier places of k's tuple, as a set of events. */
  ghost function PlaceSet(opens: seq<CanonicalJson.StreamOpen>, place: seq<int>, k: nat): set<int>
    requires k < |opens| == |place|
  {
    set l: nat | l in PlacedBefore(opens, place, k) :: place[l]
  }

  lemma {:induction false} InjectiveImage(s: set<nat>, place: seq<int>)
    requires forall l :: l in s ==> l < |place|
    requires forall k, l :: 0 <= k < l < |place| ==> place[k] != place[l]
    ensures |set l: nat | l in s :: place[l]| == |s|
    decreases |s|
  {
    var image := set l: nat | l in s :: place[l];
    if s == {} {
      assert image == {};
    } else {
      var x :| x in s;
      var rest := s - {x};
      InjectiveImage(rest, place);
      assert image == (set l: nat | l in rest :: place[l]) + {place[x]};
      assert place[x] !in set l: nat | l in rest :: place[l];
    }
  }

  lemma SubsetOfOneSize<T>(a: set<T>, b: set<T>)
    requires a <= b
    ensures |a| <= |b| && (|a| == |b| ==> a == b)
  {
    assert b == a + (b - a) && |b| == |a| + |b - a|;
  }

  /** The earlier opens of a saved RPC's tuple are earlier namings of its method, and all of them if none went unsaved. */
  lemma PlacesAmongNamings(session: FileSession, evs: seq<Observed>, saved: seq<SavedRpc>, o: CanonicalJson.StreamOpen,
                           service: string, method': string, typ: string, k: nat)
    requires Located(evs, saved) && OpenedApart(evs, saved) && OpenedByName(evs, saved) && k < |saved|
    requires (typ == CLIENT || typ == BIDI) && o == MethodOpen(session, service, method', typ)
    requires OneTuple(OpenOf(session, saved[k].rpc), o)
    ensures saved[k].rpc.service == service && saved[k].rpc.method' == method'
    ensures var namings := NamingsBefore(evs, service, method', OpenedAt(evs, saved[k]));
            var earlier := PlacedBefore(OpensSaved(session, saved), Places(evs, saved), k);
            && |earlier| <= |namings|
            && (|earlier| == |namings| <==> forall j :: j in namings ==> OpenedSaved(session, evs, saved, o, j))
  {
    hide OpenOf, MethodOpen, OpenedAt, Names, PlacedBefore, PlaceSet, NamingsBefore, OpenedSaved;
    var opens, place := OpensSaved(session, saved), Places(evs, saved);
    var namings, image := NamingsBefore(evs, service, method', OpenedAt(evs, saved[k])), PlaceSet(opens, place, k);
    TupleIsMethod(session, saved[k].rpc, service, method', typ);
    PlacesAreNamings(session, evs, saved, o, service, method', typ, k);
    PlacesCounted(opens, place, k);
    SubsetOfOneSize(image, namings);
    forall j | j in namings ensures j in image <==> OpenedSaved(session, evs, saved, o, j) {
      PlacedIffOpened(session, evs, saved, o, service, method', k, j);
    }
    SubsetIsAllIff(image, namings);
    assert |PlacedBefore(opens, place, k)| == |namings| <==> image == namings;
    if forall j :: j in namings ==> OpenedSaved(session, evs, saved, o, j) {
      forall x | x in namings ensures x in image {
        assert OpenedSaved(session, evs, saved, o, x);
      }
    }
    if image == namings {
      forall j | j in namings ensures OpenedSaved(session, evs, saved, o, j) {
        assert j in image;
      }
    }
  }

  lemma SubsetIsAllIff<T>(a: set<T>, b: set<T>)
    requires a <= b
    ensures a == b <==> forall x :: x in b ==> x in a
  {
    assert (forall x :: x in b ==> x in a) ==> b <= a;
  }

  lemma PlacesCounted(opens: seq<CanonicalJson.StreamOpen>, place: seq<int>, k: nat)
    requires k < |opens| == |place| && forall k, l :: 0 <= k < l < |place| ==> place[k] != place[l]
    ensures |PlaceSet(opens, place, k)| == |PlacedBefore(opens, place, k)|
  {
    InjectiveImage(PlacedBefore(opens, place, k), place);
  }

  lemma PlacesAreNamings(session: FileSession, evs: seq<Observed>, saved: seq<SavedRpc>, o: CanonicalJson.StreamOpen,
                         service: string, method': string, typ: string, k: nat)
    requires Located(evs, saved) && OpenedApart(evs, saved) && OpenedByName(evs, saved) && k < |saved|
    requires (typ == CLIENT || typ == BIDI) && o == MethodOpen(session, service, method', typ)
    requires OneTuple(OpenOf(session, saved[k].rpc), o)
    ensures PlaceSet(OpensSaved(session, saved), Places(evs, saved), k)
            <= NamingsBefore(evs, service, method', OpenedAt(evs, saved[k]))
  {
    hide OpenOf, MethodOpen, OpenedAt, Names;
    var opens, place := OpensSaved(session, saved), Places(evs, saved);
    forall l | l in PlacedBefore(opens, place, k) ensures place[l] in NamingsBefore(evs, service, method', OpenedAt(evs, saved[k])) {
      TupleIsMethod(session, saved[l].rpc, service, method', typ);
    }
  }

  lemma PlacedIffOpened(session: FileSession, evs: seq<Observed>, saved: seq<SavedRpc>, o: CanonicalJson.StreamOpen,
                        service: string, method': string, k: nat, j: int)
    requires Located(evs, saved) && OpenedApart(evs, saved) && k < |saved| && OneTuple(OpenOf(session, saved[k].rpc), o)
    requires j in NamingsBefore(evs, service, method', OpenedAt(evs, saved[k]))
    ensures j in PlaceSet(OpensSaved(session, saved), Places(evs, saved), k) <==> OpenedSaved(session, evs, saved, o, j)
  {
    hide OpenOf, OpenedAt, Names;
    var opens, place := OpensSaved(session, saved), Places(evs, saved);
    if OpenedSaved(session, evs, saved, o, j) {
      var l :| 0 <= l < |saved| && OneTuple(OpenOf(session, saved[l].rpc), o) && OpenedAt(evs, saved[l]) == j;
      assert l as nat in PlacedBefore(opens, place, k);
    }
    if j in PlaceSet(opens, place, k) {
      var l: nat :| l in PlacedBefore(opens, place, k) && place[l] == j;
    }
  }

  /** More namings come before a later one. */
  lemma NamingsGrow(evs: seq<Observed>, service: string, method': string, s: nat, t: nat)
    requires s <= t <= |evs|
    ensures |NamingsBefore(evs, service, method', s)| <= |NamingsBefore(evs, service, method', t)|
  {
    hide Names;
    SubsetIsNoLarger(NamingsBefore(evs, service, method', s), NamingsBefore(evs, service, method', t));
  }

  /** Numbering by namings puts the tuple's RPCs in the order they were opened. */
  lemma NamingsGiveOrder(session: FileSession, before: seq<CanonicalJson.StreamOpen>, evs: seq<Observed>, saved: seq<SavedRpc>,
                         o: CanonicalJson.StreamOpen, service: string, method': string, typ: string)
    requires Located(evs, saved) && OpenedApart(evs, saved)
    requires (typ == CLIENT || typ == BIDI) && o == MethodOpen(session, service, method', typ)
    requires NumberedByNamings(session, before, evs, saved, o)
    ensures EndAsOpened(session, evs, saved, o)
  {
    hide OpenOf, MethodOpen, OpenedAt, OpensOf, Assigned, NamingsBefore;
    var opens := OpensSaved(session, saved);
    MethodShape(session, service, method', typ);
    TypesDiffer();
    forall k, l | 0 <= k < l < |saved| && OneTuple(opens[k], o) && OneTuple(opens[l], o)
      ensures OpenedAt(evs, saved[k]) < OpenedAt(evs, saved[l])
    {
      TupleIsMethod(session, saved[k].rpc, service, method', typ);
      TupleIsMethod(session, saved[l].rpc, service, method', typ);
      GrpcShape(session, saved[k].rpc);
      GrpcShape(session, saved[l].rpc);
      LaterOrdinal(session, before, saved, k, l);
      if OpenedAt(evs, saved[l]) < OpenedAt(evs, saved[k]) {
        NamingsGrow(evs, service, method', OpenedAt(evs, saved[l]), OpenedAt(evs, saved[k]));
      }
    }
  }

  /** Within a tuple, later terminals get higher ordinals. */
  lemma LaterOrdinal(session: FileSession, before: seq<CanonicalJson.StreamOpen>, saved: seq<SavedRpc>, k: nat, l: nat)
    requires k < l < |saved|
    requires var opens := OpensSaved(session, saved); OneTuple(opens[k], opens[l]) && opens[k].counter && opens[l].counter
    ensures var opens := OpensSaved(session, saved);
            && Assigned(before + opens, |before| + k) < Assigned(before + opens, |before| + l)
            && OpensOf(before, opens[k]) == OpensOf(before, opens[l])
  {
    hide OpenOf, OpensOf, Assigned, IndexedBefore;
    var opens := OpensSaved(session, saved);
    OrdinalsFollowTerminals(session, before, saved, k);
    OrdinalsFollowTerminals(session, before, saved, l);
    SameTuple(before, opens[k], opens[l]);
    GrpcShape(session, saved[l].rpc);
    forall i | 0 <= i < |opens| && OneTuple(opens[i], opens[l]) ensures Counts(opens[i]) {
      GrpcShape(session, saved[i].rpc);
    }
    CountedByIndex(opens, k, opens[k]);
    CountedByIndex(opens, l, opens[l]);
    EarlierIndex(opens, k, l);
  }

  /**
   On any connection of a fresh tracker, for any counter-addressed method: each of its saved
   RPCs gets as ordinal the number of earlier namings of its method, which is how many opens
   of one stream type a client makes before it, exactly when they end in the order they were
   opened and no naming before one of them went unsaved (or was saved under another type).
   */
  lemma OrdinalsFollowNamingsIff(session: FileSession, before: seq<CanonicalJson.StreamOpen>, evs: seq<Observed>,
                                 service: string, method': string, typ: string)
    requires typ == CLIENT || typ == BIDI
    ensures Located(evs, SavedOver(NoTracks, evs, 0)) && OpenedApart(evs, SavedOver(NoTracks, evs, 0))
    ensures var o := MethodOpen(session, service, method', typ);
            NumberedByNamings(session, before, evs, SavedOver(NoTracks, evs, 0), o)
            <==> EndAsOpened(session, evs, SavedOver(NoTracks, evs, 0), o) && NoneUnsaved(session, evs, SavedOver(NoTracks, evs, 0), o)
  {
    hide NumberedByNamings, EndAsOpened, NoneUnsaved, Located, OpenedApart, OpenedByName, MethodOpen;
    PlacesDiffer(evs, 0);
    OpenedByTheirNames(evs, 0);
    NamingsIff(session, before, evs, SavedOver(NoTracks, evs, 0), MethodOpen(session, service, method', typ), service, method', typ);
  }

  lemma NamingsIff(session: FileSession, before: seq<CanonicalJson.StreamOpen>, evs: seq<Observed>, saved: seq<SavedRpc>,
                   o: CanonicalJson.StreamOpen, service: string, method': string, typ: string)
    requires Located(evs, saved) && OpenedApart(evs, saved) && OpenedByName(evs, saved)
    requires (typ == CLIENT || typ == BIDI) && o == MethodOpen(session, service, method', typ)
    ensures NumberedByNamings(session, before, evs, saved, o)
            <==> EndAsOpened(session, evs, saved, o) && NoneUnsaved(session, evs, saved, o)
  {
    hide OpenOf, MethodOpen, OpenedAt, OpensOf, Assigned, NamingsBefore, PlacedBefore, EndAsOpened, OpenedByName;
    if NumberedByNamings(session, before, evs, saved, o) {
      NamingsGiveOrder(session, before, evs, saved, o, service, method', typ);
    }
    if EndAsOpened(session, evs, saved, o) {
      MethodShape(session, service, method', typ);
      NumberedIff(session, before, evs, saved, o);
      forall k | 0 <= k < |saved| && OneTuple(OpenOf(session, saved[k].rpc), o)
        ensures var namings := NamingsBefore(evs, service, method', OpenedAt(evs, saved[k]));
                && saved[k].rpc.service == service && saved[k].rpc.method' == method'
                && (|PlacedBefore(OpensSaved(session, saved), Places(evs, saved), k)| == |namings|
                    <==> forall j :: j in namings ==> OpenedSaved(session, evs, saved, o, j))
      {
        PlacesAmongNamings(session, evs, saved, o, service, method', typ, k);
      }
    }
  }

  lemma MethodShape(session: FileSession, service: string, method': string, typ: string)
    requires typ == CLIENT || typ == BIDI
    ensures MethodOpen(session, service, method', typ).typ == typ
  {
  }

  // ---------------------------------------------------------------------------
  // A connection on which they do not
  // ---------------------------------------------------------------------------

  /** Streams 1 and 3 call one method; 1 opens first, 3 ends first. */
  const Crossed := [Opening(1), Opening(3), Closing(3), Closing(1)]

  lemma CrossedSaves()
    ensures SavedOver(NoTracks, Crossed, 0) == [SavedRpc(3, EmptyRpc, 2), SavedRpc(1, EmptyRpc, 3)]
  {
    hide SavedBy, TracksAfter;
    var open := Named([]);
    OpeningStep(NoTracks, 1);
    var t1 := NoTracks[1 := open];
    OpeningStep(t1, 3);
    var t2 := t1[3 := open];
    ClosingStep(t2, 3, []);
    ClosingStep(t2 - {3}, 1, []);
    SavedOverUnrolled(NoTracks, Crossed, 0);
    SavedOverUnrolled(t1, Crossed, 1);
    SavedOverUnrolled(t2, Crossed, 2);
    SavedOverUnrolled(t2 - {3}, Crossed, 3);
    NoEventsNoneSaved(t2 - {3} - {1}, Crossed);
  }

  /** The stream opened second gets ordinal 0, the one opened first gets ordinal 1. */
  lemma CrossedStreams(session: FileSession)
    ensures SavedOver(NoTracks, Crossed, 0) == [SavedRpc(3, EmptyRpc, 2), SavedRpc(1, EmptyRpc, 3)]
    ensures OpenedAt(Crossed, SavedRpc(1, EmptyRpc, 3)) == 0 && OpenedAt(Crossed, SavedRpc(3, EmptyRpc, 2)) == 1
    ensures var opens := OpensSaved(session, SavedOver(NoTracks, Crossed, 0));
            |opens| == 2 && opens[0] == opens[1] && opens[0].counter && Assigned(opens, 0) == 0 && Assigned(opens, 1) == 1
  {
    hide OpenOf, Assigned;
    CrossedSaves();
    CrossedOpens();
    InferredEmpty();
    GrpcShape(session, EmptyRpc);
    TwoSaves(session, SavedRpc(3, EmptyRpc, 2), SavedRpc(1, EmptyRpc, 3));
  }

  lemma InferredEmpty()
    ensures InferType([]) == CLIENT && CLIENT != SERVER
  {
    TypesDiffer();
  }

  lemma TwoSaves(session: FileSession, x: SavedRpc, y: SavedRpc)
    requires x.rpc == y.rpc && OpenOf(session, x.rpc).counter
    ensures var opens := OpensSaved(session, [x, y]);
            |opens| == 2 && opens[0] == opens[1] && opens[0].counter && Assigned(opens, 0) == 0 && Assigned(opens, 1) == 1
  {
    hide OpenOf, Assigned, OpensOf;
    var opens := OpensSaved(session, [x, y]);
    GrpcShape(session, x.rpc);
    assert [] + opens == opens && opens[..0] == [] && opens[..1] == [opens[0]];
    OrdinalsFollowTerminals(session, [], [x, y], 0);
    OrdinalsFollowTerminals(session, [], [x, y], 1);
    OneOpen(opens[0]);
  }

  lemma OneOpen(o: CanonicalJson.StreamOpen)
    requires Counts(o)
    ensures OpensOf([], o) == 0 && OpensOf([o], o) == 1
  {
    assert [o][..0] == [];
  }

  lemma CrossedOpens()
    ensures LastOpen(Crossed, 1, 3) == 0 && LastOpen(Crossed, 3, 2) == 1
  {
    hide SplitPath, HeaderValue;
    OpeningHeaders();
    assert LastOpen(Crossed, 1, 0) == -1 && LastOpen(Crossed, 1, 1) == 0;
    assert LastOpen(Crossed, 1, 2) == 0;
  }

  // ---------------------------------------------------------------------------
  // A connection on which an open goes unsaved
  // ---------------------------------------------------------------------------

  /** Streams 1 and 3 call one method; only 3 ends. */
  const Abandoned := [Opening(1), Opening(3), Closing(3)]

  lemma AbandonedSaves()
    ensures SavedOver(NoTracks, Abandoned, 0) == [SavedRpc(3, EmptyRpc, 2)]
  {
    hide SavedBy, TracksAfter;
    var open := Named([]);
    OpeningStep(NoTracks, 1);
    var t1 := NoTracks[1 := open];
    OpeningStep(t1, 3);
    var t2 := t1[3 := open];
    ClosingStep(t2, 3, []);
    SavedOverUnrolled(NoTracks, Abandoned, 0);
    SavedOverUnrolled(t1, Abandoned, 1);
    SavedOverUnrolled(t2, Abandoned, 2);
    NoEventsNoneSaved(t2 - {3}, Abandoned);
  }

  /** The method's second open gets ordinal 0, although the saved RPCs of every tuple end as they were opened. */
  lemma AbandonedStream(session: FileSession, o: CanonicalJson.StreamOpen)
    ensures SavedOver(NoTracks, Abandoned, 0) == [SavedRpc(3, EmptyRpc, 2)]
    ensures EndAsOpened(session, Abandoned, [SavedRpc(3, EmptyRpc, 2)], o)
    ensures OpenedAt(Abandoned, SavedRpc(3, EmptyRpc, 2)) == 1 && NamingsBefore(Abandoned, "S", "M", 1) == {0}
    ensures Assigned(OpensSaved(session, [SavedRpc(3, EmptyRpc, 2)]), 0) == 0
  {
    hide OpenOf, Assigned, OpensOf, SavedOver, LastOpen, NamingsBefore;
    AbandonedSaves();
    AbandonedNamings();
    var saved := [SavedRpc(3, EmptyRpc, 2)];
    var opens := OpensSaved(session, saved);
    InferredEmpty();
    GrpcShape(session, EmptyRpc);
    assert [] + opens == opens && opens[..0] == [];
    OrdinalsFollowTerminals(session, [], saved, 0);
    OneOpen(opens[0]);
  }

  lemma AbandonedNamings()
    ensures LastOpen(Abandoned, 3, 2) == 1 && NamingsBefore(Abandoned, "S", "M", 1) == {0}
  {
    hide SplitPath, HeaderValue;
    OpeningHeaders();
    assert Names(Abandoned[0], "S", "M");
  }
}
