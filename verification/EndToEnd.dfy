/**
 The streamed engine end to end: from the frames of a connection, through the tracker and
 the recording, to what a replaying client is served.
 */
module EndToEnd {
  import opened Prelude
  import opened Demux
  import opened Tracker
  import opened Projection
  import opened TransportRecorder
  import opened GrpcHeaders
  import opened Headers
  import opened Naming
  import opened StreamModel
  import opened Session
  import opened Samples
  import CanonicalTexts
  import Probe
  import CanonicalJson
  import Wire
  import R = Recording
  import P = Replay

  // ---------------------------------------------------------------------------
  // From frames to the log of a stream
  // ---------------------------------------------------------------------------

  function InDir(evs: seq<Observed>, dir: Dir): seq<WireEvent> {
    if evs == [] then [] else (if evs[0].dir == dir then [evs[0].ev] else []) + InDir(evs[1..], dir)
  }

  /**
   The handled events are an interleaving of what the two directions' decoders hand on, each
   of which may have stopped early.
   */
  ghost predicate Interleaves(evs: seq<Observed>, client: ConnRun, server: ConnRun) {
    InDir(evs, ClientToServer) <= client.events && InDir(evs, ServerToClient) <= server.events
  }

  lemma {:induction false} InDirConcat(a: seq<Observed>, b: seq<Observed>, dir: Dir)
    ensures InDir(a + b, dir) == InDir(a, dir) + InDir(b, dir)
  {
    if a == [] {
      assert a + b == b;
    } else {
      assert (a + b)[1..] == a[1..] + b;
      InDirConcat(a[1..], b, dir);
      AppendAssociates(if a[0].dir == dir then [a[0].ev] else [], InDir(a[1..], dir), InDir(b, dir));
    }
  }

  lemma {:induction false} OnStreamInDir(evs: seq<Observed>, id: StreamId, dir: Dir)
    ensures InDir(OnStream(evs, id), dir) == EventsFor(InDir(evs, dir), id)
  {
    hide EventOf;
    if evs != [] {
      var o := evs[0];
      OnStreamInDir(evs[1..], id, dir);
      InDirConcat(if EventOf(o.ev, id) then [o] else [], OnStream(evs[1..], id), dir);
      EventsForConcat(if o.dir == dir then [o.ev] else [], InDir(evs[1..], dir), id);
      assert EventsFor([o.ev], id) == if EventOf(o.ev, id) then [o.ev] else [];
      assert InDir([o], dir) == if o.dir == dir then [o.ev] else [];
    }
  }

  lemma ShowsMessages(o: Observed)
    ensures SendsIn(Shows(o)) == MessagesIn(InDir([o], ClientToServer))
    ensures RecvsIn(Shows(o)) == MessagesIn(InDir([o], ServerToClient))
  {
    hide SplitPath, HeaderValue, OpensRpc;
    assert forall e: RecEvent :: [e][..0] == [];
    if |Shows(o)| == 2 {
      LogSnoc([Shows(o)[0]], EvHalfClose);
    }
  }

  lemma {:induction false} ShownMessages(evs: seq<Observed>)
    ensures SendsIn(ShownBy(evs)) == MessagesIn(InDir(evs, ClientToServer))
    ensures RecvsIn(ShownBy(evs)) == MessagesIn(InDir(evs, ServerToClient))
  {
    hide Shows, SendsIn, RecvsIn, MessagesIn;
    if evs == [] {
      NoMessagesShown();
    } else {
      var o := evs[0];
      ShownMessages(evs[1..]);
      ShowsMessages(o);
      LogConcat(Shows(o), ShownBy(evs[1..]));
      assert evs == [o] + evs[1..];
      forall dir: Dir ensures MessagesIn(InDir(evs, dir)) == MessagesIn(InDir([o], dir)) + MessagesIn(InDir(evs[1..], dir)) {
        InDirConcat([o], evs[1..], dir);
        MessagesInConcat(InDir([o], dir), InDir(evs[1..], dir));
      }
    }
  }

  lemma NoMessagesShown()
    ensures SendsIn([]) == [] == RecvsIn([]) && MessagesIn([]) == []
  {
  }

  lemma PrefixMessages(a: seq<WireEvent>, b: seq<WireEvent>, id: StreamId)
    requires a <= b
    ensures EventsFor(a, id) <= EventsFor(b, id) && MessagesIn(a) <= MessagesIn(b)
  {
    var rest := b[|a|..];
    assert b == a + rest;
    EventsForConcat(a, rest, id);
    MessagesInConcat(a, rest);
  }

  /** The messages of a stream's first events, among those of a whole direction. */
  lemma MessagesOfDir(evs: seq<Observed>, run: ConnRun, id: StreamId, dir: Dir)
    requires InDir(evs, dir) <= run.events
    ensures MessagesOf(ShownBy(OnStream(evs, id)), dir) <= MessagesIn(EventsFor(run.events, id))
    ensures InDir(evs, dir) == run.events ==> MessagesOf(ShownBy(OnStream(evs, id)), dir) == MessagesIn(EventsFor(run.events, id))
  {
    hide EventsFor, MessagesIn, OnStream, ShownBy, SendsIn, RecvsIn;
    OnStreamInDir(evs, id, dir);
    ShownMessages(OnStream(evs, id));
    PrefixMessages(InDir(evs, dir), run.events, id);
    PrefixMessages(EventsFor(InDir(evs, dir), id), EventsFor(run.events, id), id);
  }

  /** The RPCs saved for a stream, over the events of a whole connection. */
  function SavedOn(evs: seq<Observed>, id: StreamId): seq<Rpc> {
    SavedFor(SavedOver(NoTracks, evs, 0), id)
  }

  /** One save per RPC that ends after it was opened, none for any other, whatever happens on other streams. */
  lemma StreamIsSavedOnce(evs: seq<Observed>, id: StreamId, h: nat)
    requires id != 0 && OpensOnceAt(OnStream(evs, id), h)
    ensures SavedOn(evs, id) == SavedFrom(OnStream(evs, id), h, h)
  {
    hide HandleOne, SavedOver, SavedFor, Alone, OnStream, SavedFrom;
    RecordingIsolation(NoTracks, evs, 0, id);
    assert evs[0..] == evs;
    SavedLog(OnStream(evs, id), h);
  }

  /** The stream is used for one RPC, named at position h without compression, and reaches a terminal after that. */
  ghost predicate EndsAfterOpen(own: seq<Observed>, h: nat) {
    OpensOnceAt(own, h) && !IsCompressed(own[h].ev.fields) && EndFrom(own, h) < |own|
  }

  /** The part follows the first `skip` of the whole, without a gap. */
  ghost predicate Segment<T>(part: seq<T>, skip: nat, whole: seq<T>) {
    skip + |part| <= |whole| && part == whole[skip..skip + |part|]
  }

  lemma SegmentOf<T>(before: seq<T>, part: seq<T>, after: seq<T>, whole: seq<T>)
    requires before + part + after <= whole
    ensures Segment(part, |before|, whole)
  {
    assert whole[|before|..|before| + |part|] == (before + part + after)[|before|..|before| + |part|];
  }

  /**
   What was recorded of one direction of a stream, against what its bytes hold: a segment
   without a gap, from behind what was handled before the stream was named. When everything
   decoded was handled, what is missing at the end is what was handled after the terminal,
   and nothing is missing exactly when no message fell outside the two.
   */
  ghost predicate ReadOff(log: seq<RecEvent>, own: seq<Observed>, h: nat, dir: Dir, held: seq<Bytes>, complete: bool)
    requires h <= |own|
  {
    var early, part := MessagesOf(ShownBy(own[..h]), dir), MessagesOf(log, dir);
    var late := MessagesOf(ShownBy(own[EndFrom(own, h)..]), dir);
    && Segment(part, |early|, held)
    && (complete ==>
          && held == early + part + late
          && (part == held <==> MessagesWithin(own, h, EndFrom(own, h), dir)))
  }

  lemma ReceivedAreHeld(log: seq<RecEvent>, own: seq<Observed>, h: nat, held: seq<Bytes>, complete: bool)
    requires h <= |own| && ReadOff(log, own, h, ServerToClient, held, complete)
    ensures var skip, n := |RecvsIn(ShownBy(own[..h]))|, |RecvsIn(log)|;
            && skip + n <= |held|
            && (forall j :: 0 <= j < n ==> RecvsIn(log)[j] == held[skip + j])
            && (complete ==> (skip == 0 && n == |held| <==> MessagesWithin(own, h, EndFrom(own, h), ServerToClient)))
  {
    hide RecvsIn, SendsIn, ShownBy, MessagesWithin, EndFrom;
    var skip, part := |RecvsIn(ShownBy(own[..h]))|, RecvsIn(log);
    if skip == 0 && |part| == |held| {
      assert held[0..|held|] == held;
    }
  }

  lemma SavedIsRead(sanitize: Fields -> Fields, clientFrames: seq<Frame>, serverFrames: seq<Frame>,
                    evs: seq<Observed>, id: StreamId, h: nat)
    requires Interleaves(evs, DecodeAll(sanitize, map[], clientFrames), DecodeAll(sanitize, map[], serverFrames))
    requires id != 0 && OpensOnceAt(OnStream(evs, id), h)
    ensures var client, server := DecodeAll(sanitize, map[], clientFrames), DecodeAll(sanitize, map[], serverFrames);
            forall rpc :: rpc in SavedOn(evs, id) ==>
              && ReadOff(rpc.log, OnStream(evs, id), h, ClientToServer,
                         ReadAll(Incarnations(clientFrames[..client.consumed], id)), InDir(evs, ClientToServer) == client.events)
              && ReadOff(rpc.log, OnStream(evs, id), h, ServerToClient,
                         ReadAll(Incarnations(serverFrames[..server.consumed], id)), InDir(evs, ServerToClient) == server.events)
  {
    hide DecodeAll, Incarnations, ReadAll, InDir, OnStream, SavedOn, IsCompressed, StatusOf, LogFrom, ReadOff, SplitPath, HeaderValue;
    StreamIsSavedOnce(evs, id, h);
    DirectionIsRead(sanitize, clientFrames, evs, id, h, ClientToServer);
    DirectionIsRead(sanitize, serverFrames, evs, id, h, ServerToClient);
  }

  lemma DirectionIsRead(sanitize: Fields -> Fields, frames: seq<Frame>, evs: seq<Observed>, id: StreamId, h: nat, dir: Dir)
    requires InDir(evs, dir) <= DecodeAll(sanitize, map[], frames).events && h <= |OnStream(evs, id)|
    ensures var run := DecodeAll(sanitize, map[], frames);
            ReadOff(LogFrom(OnStream(evs, id), h), OnStream(evs, id), h, dir, ReadAll(Incarnations(frames[..run.consumed], id)),
                    InDir(evs, dir) == run.events)
  {
    hide DecodeAll, Incarnations, ReadAll, InDir, OnStream, LogFrom, ShownBy, MessagesOf, EventsFor, MessagesIn, Segment, MessagesWithin;
    var own, run := OnStream(evs, id), DecodeAll(sanitize, map[], frames);
    var n := EndFrom(own, h);
    MessagesOfDir(evs, run, id, dir);
    DemultiplexedMessages(sanitize, frames, id);
    MessagesInParts(own, h, dir);
    AllMessagesIff(own, h, dir);
    SegmentOf(MessagesOf(ShownBy(own[..h]), dir), MessagesOf(LogFrom(own, h), dir), MessagesOf(ShownBy(own[n..]), dir),
              MessagesIn(EventsFor(run.events, id)));
  }

  // ---------------------------------------------------------------------------
  // The naming, from the client's frames
  // ---------------------------------------------------------------------------

  /** The client's HEADERS frames of a stream, among those consumed, that name an RPC. */
  ghost function Namings(sanitize: Fields -> Fields, clientFrames: seq<Frame>, id: StreamId): seq<Frame> {
    NamingFrames(sanitize, FramesFor(clientFrames[..DecodeAll(sanitize, map[], clientFrames).consumed], id))
  }

  lemma {:induction false} OpensAreNamings(own: seq<Observed>)
    ensures var opens, evs := OpensIn(own), NamingEvents(InDir(own, ClientToServer));
            |opens| == |evs| && forall i :: 0 <= i < |opens| ==> opens[i] == Observed(ClientToServer, evs[i])
  {
    hide OpensRpc, NamesAnRpc;
    if own != [] {
      OpensAreNamings(own[1..]);
      OpensIff(own[0]);
      InDirConcat([own[0]], own[1..], ClientToServer);
      assert own == [own[0]] + own[1..];
      NamingEventsConcat(InDir([own[0]], ClientToServer), InDir(own[1..], ClientToServer));
      assert InDir([own[0]], ClientToServer) == if own[0].dir.ClientToServer? then [own[0].ev] else [];
      SingleNaming(own[0].ev);
    }
  }

  lemma SingleNaming(ev: WireEvent)
    ensures NamingEvents([ev]) == (if ev.HeadersEvent? && NamesAnRpc(ev.fields) then [ev] else [])
    ensures NamingEvents([]) == []
  {
    hide NamesAnRpc;
    assert [ev][1..] == [];
  }

  /**
   The stream is named at position h of its events, by the decoded block of its one naming
   frame; or nowhere, which is position |own|.
   */
  ghost predicate NamedBy(naming: seq<Frame>, sanitize: Fields -> Fields, own: seq<Observed>, id: StreamId, h: nat) {
    && h <= |own|
    && (h == |own| ==> NoOpens(own))
    && (h < |own| ==>
          && OpensOnceAt(own, h)
          && |naming| == 1 && naming[0].Headers?
          && own[h] == Observed(ClientToServer, HeadersEvent(id, sanitize(naming[0].fields), naming[0].endStream)))
  }

  /** What a stream is used for is what its client's frames say, if it was handled. */
  lemma NamedByItsFrame(sanitize: Fields -> Fields, clientFrames: seq<Frame>, evs: seq<Observed>, id: StreamId) returns (h: nat)
    requires InDir(evs, ClientToServer) <= DecodeAll(sanitize, map[], clientFrames).events
    requires |Namings(sanitize, clientFrames, id)| <= 1
    ensures NamedBy(Namings(sanitize, clientFrames, id), sanitize, OnStream(evs, id), id, h)
    ensures InDir(evs, ClientToServer) == DecodeAll(sanitize, map[], clientFrames).events ==>
              (h < |OnStream(evs, id)| <==> Namings(sanitize, clientFrames, id) != [])
  {
    hide DecodeAll, InDir, OnStream, OpensIn, NamingEvents, NamingFrames, FramesFor, EventsFor, OpensRpc, NamesAnRpc;
    var run, own, naming := DecodeAll(sanitize, map[], clientFrames), OnStream(evs, id), Namings(sanitize, clientFrames, id);
    var read := clientFrames[..run.consumed];
    var all, seen := EventsFor(run.events, id), InDir(own, ClientToServer);
    OnStreamInDir(evs, id, ClientToServer);
    PrefixMessages(InDir(evs, ClientToServer), run.events, id);
    var rest := all[|seen|..];
    assert all == seen + rest;
    NamingEventsConcat(seen, rest);
    NamingsOfRun(sanitize, clientFrames, id);
    OpensAreNamings(own);
    NamingFramesAreFrames(sanitize, FramesFor(read, id));
    FramesAreOf(read, id);
    h := TheOpening(own);
    if h < |own| {
      assert own[h] == OpensIn(own)[0] == Observed(ClientToServer, NamingEvents(all)[0]);
      assert naming[0] in naming && Relays(sanitize, naming[0], NamingEvents(all)[0]);
    }
  }

  /** The events other than messages that were handled of a direction are decoded frames of it. */
  lemma {:induction false} HandledAreRelayed(evs: seq<Observed>, dir: Dir)
    ensures forall o :: o in evs && o.dir == dir ==> o.ev in InDir(evs, dir)
  {
    if evs != [] {
      HandledAreRelayed(evs[1..], dir);
    }
  }

  lemma {:induction false} ControlIsAmong(evs: seq<WireEvent>)
    ensures forall ev :: ev in evs && !ev.MessageEvent? ==> ev in ControlEvents(evs)
  {
    if evs != [] {
      ControlIsAmong(evs[1..]);
    }
  }

  lemma {:induction false} ControlIsOfFrames(frames: seq<Frame>)
    ensures forall f :: f in ControlFrames(frames) ==> f in frames
  {
    if frames != [] {
      ControlIsOfFrames(frames[1..]);
    }
  }

  /** A header or reset event of a stream was handled for a frame of it, in its own direction, with its sanitized fields. */
  lemma HandledForAFrame(sanitize: Fields -> Fields, frames: seq<Frame>, evs: seq<Observed>, id: StreamId, o: Observed)
    requires InDir(evs, o.dir) <= DecodeAll(sanitize, map[], frames).events
    requires o in OnStream(evs, id) && !o.ev.MessageEvent?
    ensures exists f :: f in FramesFor(frames[..DecodeAll(sanitize, map[], frames).consumed], id) && Relays(sanitize, f, o.ev)
  {
    hide DecodeAll, InDir, OnStream, FramesFor, EventsFor, ControlFrames, ControlEvents, Relays;
    var run, own := DecodeAll(sanitize, map[], frames), OnStream(evs, id);
    var read, all := FramesFor(frames[..run.consumed], id), EventsFor(run.events, id);
    OnStreamInDir(evs, id, o.dir);
    PrefixMessages(InDir(evs, o.dir), run.events, id);
    HandledAreRelayed(own, o.dir);
    assert InDir(own, o.dir) <= all;
    assert o.ev in all;
    ControlIsAmong(all);
    ControlIsRelayed(sanitize, frames, id);
    var i :| 0 <= i < |ControlEvents(all)| && ControlEvents(all)[i] == o.ev;
    ControlIsOfFrames(read);
    assert ControlFrames(read)[i] in ControlFrames(read);
  }

  lemma NotNamedNotSaved(evs: seq<Observed>, id: StreamId)
    requires id != 0 && NoOpens(OnStream(evs, id))
    ensures SavedOn(evs, id) == []
  {
    hide HandleOne, SavedOver, SavedFor, Alone, OnStream, OpensRpc;
    RecordingIsolation(NoTracks, evs, 0, id);
    assert evs[0..] == evs;
    NothingWithoutAnRpc(NewTrack, OnStream(evs, id));
  }

  /** The RPCs saved for a stream, in terms of the texts of its header blocks. */
  lemma SavedOnAsRead(evs: seq<Observed>, id: StreamId, h: nat)
    requires id != 0 && OpensOnceAt(OnStream(evs, id), h)
    ensures var own, saved := OnStream(evs, id), SavedOn(evs, id);
            if !Compresses(own[h].ev.fields) && exists e :: h < e < |own| && IsTerminal(own[e]) then
              |saved| == 1 && exists e :: h < e < |own| && ReadsAs(own, h, e, saved[0])
            else
              saved == []
  {
    hide HandleOne, SavedOver, SavedFor, Alone, OnStream, ReadsAs, OpensRpc, Compresses, IsTerminal;
    RecordingIsolation(NoTracks, evs, 0, id);
    assert evs[0..] == evs;
    SavedAsRead(OnStream(evs, id), h);
    assert OpensRpc(OnStream(evs, id)[h]);
    NamingBlock(OnStream(evs, id)[h]);
  }

  /**
   However frames of many streams are cut and interleaved, and however the two directions'
   handlers alternate: of a stream whose client names at most one RPC, a saved RPC was named
   by that frame, and its messages are read off the stream's own payload bytes; ReadOff says
   which of them.
   */
  lemma RecordedIsRead(sanitize: Fields -> Fields, clientFrames: seq<Frame>, serverFrames: seq<Frame>,
                       evs: seq<Observed>, id: StreamId) returns (h: nat)
    requires Interleaves(evs, DecodeAll(sanitize, map[], clientFrames), DecodeAll(sanitize, map[], serverFrames))
    requires id != 0 && |Namings(sanitize, clientFrames, id)| <= 1
    ensures var client, server := DecodeAll(sanitize, map[], clientFrames), DecodeAll(sanitize, map[], serverFrames);
            var own, naming := OnStream(evs, id), Namings(sanitize, clientFrames, id);
            && NamedBy(naming, sanitize, own, id, h)
            && (InDir(evs, ClientToServer) == client.events ==> (h < |own| <==> naming != []))
            && forall rpc :: rpc in SavedOn(evs, id) ==>
                 && h < |own| && Names(sanitize(naming[0].fields), rpc.service, rpc.method')
                 && ReadOff(rpc.log, own, h, ClientToServer,
                            ReadAll(Incarnations(clientFrames[..client.consumed], id)), InDir(evs, ClientToServer) == client.events)
                 && ReadOff(rpc.log, own, h, ServerToClient,
                            ReadAll(Incarnations(serverFrames[..server.consumed], id)), InDir(evs, ServerToClient) == server.events)
  {
    hide DecodeAll, Incarnations, ReadAll, InDir, OnStream, SavedOn, ReadOff, NamingFrames, FramesFor, Names, OpensRpc,
         Compresses, IsTerminal, EndsWith;
    h := NamedByItsFrame(sanitize, clientFrames, evs, id);
    if h == |OnStream(evs, id)| {
      NotNamedNotSaved(evs, id);
    } else {
      SavedIsRead(sanitize, clientFrames, serverFrames, evs, id, h);
      SavedOnAsRead(evs, id, h);
    }
  }

  // ---------------------------------------------------------------------------
  // What the alternation of the two directions can lose
  // ---------------------------------------------------------------------------

  /** Two orders in which the same two directions can be handled. */
  ghost predicate SameDirections(evs: seq<Observed>, evs': seq<Observed>) {
    forall dir :: InDir(evs, dir) == InDir(evs', dir)
  }

  lemma SwapDirections(a: Observed, b: Observed, rest: seq<Observed>)
    requires a.dir != b.dir
    ensures SameDirections([a, b] + rest, [b, a] + rest)
  {
    forall dir: Dir ensures InDir([a, b] + rest, dir) == InDir([b, a] + rest, dir) {
      InDirConcat([a, b], rest, dir);
      InDirConcat([b, a], rest, dir);
      assert [a, b][1..] == [b] && [b, a][1..] == [a];
      assert InDir([a], dir) == if a.dir == dir then [a.ev] else [];
      assert InDir([b], dir) == if b.dir == dir then [b.ev] else [];
    }
  }

  /** An answer handled before the opening header block is missing from the recording. */
  lemma LateOpenLosesMessage(m0: Bytes, m1: Bytes)
    ensures var rest := [Answer(1, m1), Closing(1)];
            var inTime, late := [Opening(1), Answer(1, m0)] + rest, [Answer(1, m0), Opening(1)] + rest;
            && SameDirections(inTime, late)
            && SavedOver(NoTracks, inTime, 0) == [SavedRpc(1, RpcWith([EvRecv(m0), EvRecv(m1)]), 3)]
            && SavedOver(NoTracks, late, 0) == [SavedRpc(1, RpcWith([EvRecv(m1)]), 3)]
  {
    hide SavedBy, TracksAfter;
    var rest := [Answer(1, m1), Closing(1)];
    SwapDirections(Opening(1), Answer(1, m0), rest);
    InTimeSaves(m0, m1);
    LateSaves(m0, m1);
  }

  lemma InTimeSaves(m0: Bytes, m1: Bytes)
    ensures SavedOver(NoTracks, [Opening(1), Answer(1, m0)] + [Answer(1, m1), Closing(1)], 0)
            == [SavedRpc(1, RpcWith([EvRecv(m0), EvRecv(m1)]), 3)]
  {
    hide SavedBy, TracksAfter;
    var evs := [Opening(1), Answer(1, m0)] + [Answer(1, m1), Closing(1)];
    var t1 := NoTracks[1 := Named([])];
    var t2, t3 := t1[1 := Named([EvRecv(m0)])], t1[1 := Named([EvRecv(m0), EvRecv(m1)])];
    OpeningStep(NoTracks, 1);
    AnswerStep(t1, 1, m0, []);
    AnswerStep(t2, 1, m1, [EvRecv(m0)]);
    ClosingStep(t3, 1, [EvRecv(m0), EvRecv(m1)]);
    assert [] + [EvRecv(m0)] == [EvRecv(m0)] && [EvRecv(m0)] + [EvRecv(m1)] == [EvRecv(m0), EvRecv(m1)];
    assert t2[1 := Named([EvRecv(m0), EvRecv(m1)])] == t3;
    SavedOverUnrolled(NoTracks, evs, 0);
    SavedOverUnrolled(t1, evs, 1);
    SavedOverUnrolled(t2, evs, 2);
    SavedOverUnrolled(t3, evs, 3);
    NoEventsNoneSaved(t3 - {1}, evs);
  }

  lemma LateSaves(m0: Bytes, m1: Bytes)
    ensures SavedOver(NoTracks, [Answer(1, m0), Opening(1)] + [Answer(1, m1), Closing(1)], 0)
            == [SavedRpc(1, RpcWith([EvRecv(m1)]), 3)]
  {
    hide SavedBy, TracksAfter;
    var evs := [Answer(1, m0), Opening(1)] + [Answer(1, m1), Closing(1)];
    var t1 := NoTracks[1 := NewTrack];
    var t2, t3 := t1[1 := Named([])], t1[1 := Named([EvRecv(m1)])];
    EarlyStep(NoTracks, 1, m0);
    OpeningStep(t1, 1);
    AnswerStep(t2, 1, m1, []);
    ClosingStep(t3, 1, [EvRecv(m1)]);
    assert [] + [EvRecv(m1)] == [EvRecv(m1)];
    assert t2[1 := Named([EvRecv(m1)])] == t3;
    SavedOverUnrolled(NoTracks, evs, 0);
    SavedOverUnrolled(t1, evs, 1);
    SavedOverUnrolled(t2, evs, 2);
    SavedOverUnrolled(t3, evs, 3);
    NoEventsNoneSaved(t3 - {1}, evs);
  }

  /** A terminal handled before the opening header block leaves no recording at all. */
  lemma LateOpenLosesRpc()
    ensures var inTime, late := [Opening(1), Closing(1)], [Closing(1), Opening(1)];
            && SameDirections(inTime, late)
            && SavedOver(NoTracks, inTime, 0) == [SavedRpc(1, EmptyRpc, 1)]
            && SavedOver(NoTracks, late, 0) == []
  {
    hide SavedBy, TracksAfter;
    var inTime, late := [Opening(1), Closing(1)], [Closing(1), Opening(1)];
    assert inTime + [] == inTime && late + [] == late;
    SwapDirections(Opening(1), Closing(1), []);
    var named, unnamed := NoTracks[1 := Named([])], NoTracks[1 := NewTrack];
    OpeningStep(NoTracks, 1);
    ClosingStep(named, 1, []);
    EarlyStep(NoTracks, 1, []);
    OpeningStep(unnamed, 1);
    SavedOverUnrolled(NoTracks, inTime, 0);
    SavedOverUnrolled(named, inTime, 1);
    NoEventsNoneSaved(named - {1}, inTime);
    SavedOverUnrolled(NoTracks, late, 0);
    SavedOverUnrolled(unnamed, late, 1);
    NoEventsNoneSaved(unnamed[1 := Named([])], late);
  }

  /** A request handled after the terminal is missing, and without it the RPC is filed as client streaming. */
  lemma EarlyEndLosesRequest(m: Bytes)
    ensures var inTime, early := [Opening(1)] + [Request(1, m, true), Closing(1)], [Opening(1)] + [Closing(1), Request(1, m, true)];
            && SameDirections(inTime, early)
            && OpensOnceAt(inTime, 0) && OpensOnceAt(early, 0) && Quiet([], Opening(1))
            && SavedOver(NoTracks, inTime, 0) == [SavedRpc(1, RpcWith([EvSend(m), EvHalfClose]), 2)]
            && SavedOver(NoTracks, early, 0) == [SavedRpc(1, EmptyRpc, 1)]
    ensures InferType([EvSend(m), EvHalfClose]) == SERVER && InferType([]) == CLIENT
  {
    hide SavedOver, OpensOnceAt, Quiet, InferType, HandleOne, SplitPath, HeaderValue;
    var opening, request, closing := Opening(1), Request(1, m, true), Closing(1);
    assert [request, closing] + [] == [request, closing] && [closing, request] + [] == [closing, request];
    SwapDirections(request, closing, []);
    forall dir: Dir ensures InDir([opening] + [request, closing], dir) == InDir([opening] + [closing, request], dir) {
      InDirConcat([opening], [request, closing], dir);
      InDirConcat([opening], [closing, request], dir);
    }
    OpenedByFirst(request, closing);
    OpenedByFirst(closing, request);
    RequestInTime(m);
    RequestTooLate(m);
    TypesOfWitness(m);
  }

  lemma OpenedByFirst(a: Observed, b: Observed)
    requires !OpensRpc(a) && !OpensRpc(b)
    ensures OpensOnceAt([Opening(1)] + [a, b], 0) && Quiet([], Opening(1))
  {
    hide SplitPath, HeaderValue;
    OpeningHeaders();
  }

  lemma RequestInTime(m: Bytes)
    ensures SavedOver(NoTracks, [Opening(1)] + [Request(1, m, true), Closing(1)], 0)
            == [SavedRpc(1, RpcWith([EvSend(m), EvHalfClose]), 2)]
  {
    hide SavedBy, TracksAfter;
    var evs := [Opening(1)] + [Request(1, m, true), Closing(1)];
    var named := NoTracks[1 := Named([])];
    var sent := named[1 := Named([EvSend(m), EvHalfClose])];
    OpeningStep(NoTracks, 1);
    OnlyRequestStep(named, 1, m);
    ClosingStep(sent, 1, [EvSend(m), EvHalfClose]);
    SavedOverUnrolled(NoTracks, evs, 0);
    SavedOverUnrolled(named, evs, 1);
    SavedOverUnrolled(sent, evs, 2);
    NoEventsNoneSaved(sent - {1}, evs);
  }

  lemma RequestTooLate(m: Bytes)
    ensures SavedOver(NoTracks, [Opening(1)] + [Closing(1), Request(1, m, true)], 0) == [SavedRpc(1, EmptyRpc, 1)]
  {
    hide SavedBy, TracksAfter;
    var evs := [Opening(1)] + [Closing(1), Request(1, m, true)];
    var named := NoTracks[1 := Named([])];
    OpeningStep(NoTracks, 1);
    ClosingStep(named, 1, []);
    LateRequestStep(named - {1}, 1, m, true);
    SavedOverUnrolled(NoTracks, evs, 0);
    SavedOverUnrolled(named, evs, 1);
    SavedOverUnrolled(named - {1}, evs, 2);
    NoEventsNoneSaved((named - {1})[1 := NewTrack], evs);
  }

  lemma TypesOfWitness(m: Bytes)
    ensures InferType([EvSend(m), EvHalfClose]) == SERVER && InferType([]) == CLIENT
  {
    InferredType([EvSend(m), EvHalfClose]);
    InferredType([]);
    TwoEvents(EvSend(m), EvHalfClose);
    NoMessagesShown();
  }

  // ---------------------------------------------------------------------------
  // From the log to the pair on file
  // ---------------------------------------------------------------------------

  /** The events of a log as a recording accepts them: every message through the hook once. */
  function LogEvents(cfg: R.RecConfig, log: seq<RecEvent>, i: nat, now: nat -> nat): seq<R.LogEvent>
    requires i <= |log|
    decreases |log| - i
  {
    if i == |log| then []
    else
      var info := R.ScrubInfo(cfg.adapterId, cfg.typ);
      [match log[i]
       case EvSend(msg) => R.Sent(match cfg.scrub case None => msg case Some(f) => f(R.SendDir, info, msg), Some(now(i)))
       case EvRecv(msg) => R.Received(match cfg.scrub case None => msg case Some(f) => f(R.RecvDir, info, msg), Some(now(i)))
       case EvHalfClose => R.HalfClosed(Some(now(i)))]
      + LogEvents(cfg, log, i + 1, now)
  }

  lemma CallsUnrolled(log: seq<RecEvent>, i: nat, now: nat -> nat, fin: R.Call)
    requires i <= |log|
    ensures var calls := CallsFrom(log, i, now) + [fin];
            if i == |log| then calls == [fin]
            else calls[0] == CallOf(log[i], now(i)) && calls[1..] == CallsFrom(log, i + 1, now) + [fin]
  {
  }

  lemma NoEarlierHalfClose(log: seq<RecEvent>, i: nat)
    requires i < |log| && log[i].EvHalfClose? && multiset(log)[EvHalfClose] <= 1
    ensures EvHalfClose !in log[..i]
  {
    assert log == log[..i] + ([log[i]] + log[i + 1..]);
    assert multiset(log) == multiset(log[..i]) + multiset{log[i]} + multiset(log[i + 1..]);
  }

  lemma {:induction false} LogIsAccepted(cfg: R.RecConfig, log: seq<RecEvent>, i: nat, now: nat -> nat, fin: R.Call)
    requires i <= |log| && fin.FinishCall? && multiset(log)[EvHalfClose] <= 1
    ensures R.Accepted(cfg, CallsFrom(log, i, now) + [fin], EvHalfClose in log[..i])
            == LogEvents(cfg, log, i, now) + [R.Ended(Some(fin.at))]
    decreases |log| - i
  {
    hide CallsFrom;
    CallsUnrolled(log, i, now, fin);
    if i < |log| {
      assert log[..i + 1] == log[..i] + [log[i]];
      LogIsAccepted(cfg, log, i + 1, now, fin);
      if log[i].EvHalfClose? {
        NoEarlierHalfClose(log, i);
      }
    }
  }

  /** Merging the saved pair by seq gives the log back, in observed order, then the end. */
  lemma PairKeepsTheLog(cfg: R.RecConfig, rpc: Rpc, own: seq<Observed>, h: nat, render: Render, now: nat -> nat)
    requires h <= |own| && rpc.log == LogFrom(own, h)
    ensures |R.Saved(cfg, R.Opened, CallsOf(rpc, render, now))| == 1
    ensures R.Arrival(R.Saved(cfg, R.Opened, CallsOf(rpc, render, now))[0])
            == R.Numbered(LogEvents(cfg, rpc.log, 0, now) + [R.Ended(Some(now(|rpc.log|)))], 0)
    ensures R.Saved(cfg, R.Opened, CallsOf(rpc, render, now))[0].respPayload == map["status_code" := Number(rpc.code)]
  {
    hide R.Saved, R.Accepted, R.Arrival, CallsFrom, LogEvents, ShownBy, FirstHalfCloseOnly;
    SavedPair(cfg, rpc, render, now);
    RpcReachesTerminal(rpc, render, now);
    R.ArrivalIsRecoverable(cfg, CallsOf(rpc, render, now));
    HalfCloseAtMostOnce(ShownBy(own[h..EndFrom(own, h)]));
    assert rpc.log[..0] == [];
    LogIsAccepted(cfg, rpc.log, 0, now, FinishOf(rpc, render, now));
  }

  lemma RpcReachesTerminal(rpc: Rpc, render: Render, now: nat -> nat)
    ensures R.ReachesTerminal(CallsOf(rpc, render, now))
  {
    assert CallsOf(rpc, render, now)[|rpc.log|].FinishCall?;
  }

  // ---------------------------------------------------------------------------
  // From the pair on file to the replaying client
  // ---------------------------------------------------------------------------

  lemma {:induction false} CallMessages(log: seq<RecEvent>, i: nat, now: nat -> nat, fin: R.Call)
    requires i <= |log| && fin.FinishCall?
    ensures P.Messages(CallsFrom(log, i, now) + [fin], R.SendDir) == SendsIn(log[i..])
    ensures P.Messages(CallsFrom(log, i, now) + [fin], R.RecvDir) == RecvsIn(log[i..])
    decreases |log| - i
  {
    hide CallsFrom, SendsIn, RecvsIn, P.Messages;
    var calls := CallsFrom(log, i, now) + [fin];
    CallsUnrolled(log, i, now, fin);
    if i == |log| {
      assert log[i..] == [];
      NoMessagesShown();
      NothingBeforeTheEnd(fin);
    } else {
      assert log[i..] == [log[i]] + log[i + 1..];
      CallMessages(log, i + 1, now, fin);
      LogConcat([log[i]], log[i + 1..]);
      LogSnoc([], log[i]);
      NoMessagesShown();
      assert [] + [log[i]] == [log[i]];
      P.MessagesUnrolled(calls, R.SendDir);
      P.MessagesUnrolled(calls, R.RecvDir);
    }
  }

  lemma NothingBeforeTheEnd(fin: R.Call)
    requires fin.FinishCall?
    ensures P.Messages([fin], R.SendDir) == [] == P.Messages([fin], R.RecvDir)
  {
  }

  lemma {:induction false} CallsTerminal(log: seq<RecEvent>, i: nat, now: nat -> nat, fin: R.Call)
    requires i <= |log| && fin.FinishCall?
    ensures R.ReachesTerminal(CallsFrom(log, i, now) + [fin])
    ensures P.TerminalOf(CallsFrom(log, i, now) + [fin]) == P.TerminalOf([fin])
    decreases |log| - i
  {
    assert (CallsFrom(log, i, now) + [fin])[|log| - i].FinishCall?;
    hide CallsFrom;
    CallsUnrolled(log, i, now, fin);
    if i < |log| {
      CallsTerminal(log, i + 1, now, fin);
    }
  }

  /** What a read reports when the recorded messages are used up: the error text on file, if there is one. */
  function TerminalFor(rpc: Rpc, render: Render): P.ReplayError {
    if rpc.code != OK_CODE && render(rpc.code, rpc.text) != "" then P.RecordedError(render(rpc.code, rpc.text)) else P.EndOfStream
  }

  /** go terminalOf: the status code and text of the trailers that a replay writes. */
  function StatusServed(err: P.ReplayError, respPayload: Payload, describe: P.Mismatch -> string): (nat, string) {
    if err.EndOfStream? then (OK_CODE, "")
    else
      var recorded := if "status_code" in respPayload && respPayload["status_code"].Number?
                      then respPayload["status_code"].number % 0x1_0000_0000 else UNKNOWN;
      (if recorded == OK_CODE then UNKNOWN else recorded, if err.RecordedError? then err.text else describe(err.m))
  }

  /** Whatever is on file, a recorded error and a mismatch are never served as OK, and each with its own text. */
  lemma FailuresAreServed(err: P.ReplayError, respPayload: Payload, describe: P.Mismatch -> string)
    requires !err.EndOfStream?
    ensures var served := StatusServed(err, respPayload, describe);
            && served.0 != 0
            && (err.RecordedError? ==> served.1 == err.text)
            && (err.StreamMismatch? ==> served.1 == describe(err.m))
            && (forall code: nat :: 0 < code < 0x1_0000_0000 && "status_code" in respPayload && respPayload["status_code"] == Number(code) ==>
                  served.0 == code)
            && ("status_code" !in respPayload ==> served.0 == 2)
  {
  }

  /** What a replay of a saved RPC serves as its status. */
  function ServedFor(cfg: R.RecConfig, rpc: Rpc, render: Render, now: nat -> nat, describe: P.Mismatch -> string): (nat, string) {
    StatusServed(TerminalFor(rpc, render), PairUnder(cfg, rpc, render, now).respPayload, describe)
  }

  lemma StatusServedFor(cfg: R.RecConfig, rpc: Rpc, render: Render, now: nat -> nat, describe: P.Mismatch -> string)
    requires rpc.code < 0x1_0000_0000
    ensures ServedFor(cfg, rpc, render, now, describe)
            == if rpc.code == OK_CODE || render(rpc.code, rpc.text) == "" then (OK_CODE, "") else (rpc.code, render(rpc.code, rpc.text))
  {
    hide R.Saved, CallsFrom, R.After;
    SavedPair(cfg, rpc, render, now);
  }

  /** The tracker records 32-bit codes. */
  lemma CodesFit(own: seq<Observed>, h: nat)
    requires OpensOnceAt(own, h) && EndFrom(own, h) < |own|
    ensures RpcFrom(own, h, h).code < 0x1_0000_0000
  {
    hide EndFrom, SplitPath, HeaderValue, Atoi;
  }

  /**
   The status recorded for a stream against the one its replay serves. The code is kept
   exactly when it is OK or its rendering is not empty; code and text are kept exactly when
   both are those of an OK status without text, or the rendering of a failure is its text.
   */
  lemma StatusIsServed(own: seq<Observed>, h: nat, cfg: R.RecConfig, render: Render, now: nat -> nat, describe: P.Mismatch -> string)
    requires EndsAfterOpen(own, h)
    ensures var rpc := RpcFrom(own, h, h);
            var served, rendered := ServedFor(cfg, rpc, render, now, describe), render(rpc.code, rpc.text);
            && (served.0 == rpc.code <==> rpc.code == OK_CODE || rendered != "")
            && (served.0 == rpc.code && CanonicalJson.Utf8All(served.1) == rpc.text
                <==> if rpc.code == OK_CODE then rpc.text == []
                     else rendered != "" && CanonicalJson.Utf8All(rendered) == rpc.text)
  {
    hide ServedFor, EndFrom, LogFrom, StatusOf, SplitPath, HeaderValue, CanonicalJson.Utf8All;
    CodesFit(own, h);
    StatusServedFor(cfg, RpcFrom(own, h, h), render, now, describe);
    NoText();
  }

  lemma NoText()
    ensures CanonicalJson.Utf8All("") == []
  {
  }

  /** A rendering that puts something before the text, as "rpc error: code = X desc = " is put. */
  const Prefixing: Render := (code: nat, text: Bytes) => "rpc error: " + seq(|text|, i requires 0 <= i < |text| => text[i] as char)

  lemma {:induction false} TextIsNoShorter(s: string)
    ensures |CanonicalJson.Utf8All(s)| >= |s|
  {
    if s != [] {
      TextIsNoShorter(s[1..]);
    }
  }

  /** Under it the code of every failure is kept and its text never is: the replay serves it nested. */
  lemma FailureTextNests(own: seq<Observed>, h: nat, cfg: R.RecConfig, now: nat -> nat, describe: P.Mismatch -> string)
    requires EndsAfterOpen(own, h) && RpcFrom(own, h, h).code != OK_CODE
    ensures var rpc := RpcFrom(own, h, h);
            var served := ServedFor(cfg, rpc, Prefixing, now, describe);
            && served.0 == rpc.code
            && served.1 == Prefixing(rpc.code, rpc.text)
            && CanonicalJson.Utf8All(served.1) != rpc.text
  {
    hide ServedFor, EndFrom, LogFrom, StatusOf, SplitPath, HeaderValue, CanonicalJson.Utf8All;
    var rpc := RpcFrom(own, h, h);
    CodesFit(own, h);
    StatusServedFor(cfg, rpc, Prefixing, now, describe);
    TextIsNoShorter(Prefixing(rpc.code, rpc.text));
    assert |Prefixing(rpc.code, rpc.text)| > |rpc.text|;
  }

  /**
   A client that sends what the log says was sent, and half-closes after it, gets the j-th
   message of the log on its j-th read and then the recorded status, wherever its reads fall.
   */
  lemma ReplayServesTheLog(cfg: R.RecConfig, rpc: Rpc, render: Render, now: nat -> nat, sha: Bytes -> string, ops: seq<P.Op>, k: nat)
    requires P.Follows(cfg, CallsOf(rpc, render, now), ops)
    requires k < |ops| && ops[k].RecvOp?
    ensures R.Saved(cfg, R.Opened, CallsOf(rpc, render, now)) != []
    ensures var j := P.RecvsIn(ops[..k]);
            P.OutcomeAt(P.ReplayOf(cfg, CallsOf(rpc, render, now), sha), ops, k)
            == if j < |RecvsIn(rpc.log)| then
                 P.Delivered(match cfg.scrub
                             case None => RecvsIn(rpc.log)[j]
                             case Some(f) => f(R.RecvDir, R.ScrubInfo(cfg.adapterId, cfg.typ), RecvsIn(rpc.log)[j]))
               else P.Failed(TerminalFor(rpc, render))
  {
    hide R.Saved, P.OutcomeAt, P.Follows, P.ReplayOf, CallsFrom;
    var fin := FinishOf(rpc, render, now);
    CallMessages(rpc.log, 0, now, fin);
    CallsTerminal(rpc.log, 0, now, fin);
    assert rpc.log[0..] == rpc.log;
    P.RecordThenReplay(cfg, CallsOf(rpc, render, now), sha, ops, k);
  }

  /** The scrub hook never makes a received message longer. */
  ghost predicate NeverLengthens(cfg: R.RecConfig) {
    match cfg.scrub
    case None => true
    case Some(f) => forall m: Bytes :: |f(R.RecvDir, R.ScrubInfo(cfg.adapterId, cfg.typ), m)| <= |m|
  }

  lemma {:induction false} ReadMessagesFit(incarnations: seq<Bytes>)
    ensures Wire.WithinCap(ReadAll(incarnations))
  {
    hide Wire.Parse;
    if incarnations != [] {
      var flags := Wire.ParseIsAReading(incarnations[0]);
      ReadMessagesFit(incarnations[1..]);
    }
  }

  /**
   The bytes a replay writes for a saved RPC read back as its scrubbed messages exactly when
   these are within the cap; and those the server's own bytes held are, unless the scrub hook
   lengthens one.
   */
  lemma ReplayedBytesReadBack(sanitize: Fields -> Fields, clientFrames: seq<Frame>, serverFrames: seq<Frame>,
                              evs: seq<Observed>, id: StreamId, h: nat, cfg: R.RecConfig, rpc: Rpc)
    requires Interleaves(evs, DecodeAll(sanitize, map[], clientFrames), DecodeAll(sanitize, map[], serverFrames))
    requires id != 0 && OpensOnceAt(OnStream(evs, id), h) && rpc in SavedOn(evs, id)
    ensures var served := P.ScrubAll(cfg, R.RecvDir, RecvsIn(rpc.log));
            && (Wire.FeedAll([], Wire.Written(served)) == Wire.FeedRun(served, [], false) <==> Wire.WithinCap(served))
            && (NeverLengthens(cfg) ==> Wire.WithinCap(served))
  {
    hide DecodeAll, Incarnations, ReadAll, OnStream, RecvsIn, SendsIn, Wire.FeedAll, Wire.Written, Interleaves, SavedOn, ShownBy,
         MessagesWithin, EndFrom, InDir, ReadOff;
    var received, server := RecvsIn(rpc.log), DecodeAll(sanitize, map[], serverFrames);
    var served := P.ScrubAll(cfg, R.RecvDir, received);
    var held, skip := ReadAll(Incarnations(serverFrames[..server.consumed], id)), |RecvsIn(ShownBy(OnStream(evs, id)[..h]))|;
    SavedIsRead(sanitize, clientFrames, serverFrames, evs, id, h);
    ReceivedAreHeld(rpc.log, OnStream(evs, id), h, held, InDir(evs, ServerToClient) == server.events);
    ReadMessagesFit(Incarnations(serverFrames[..server.consumed], id));
    Wire.WireRoundTrip(served);
    forall i | 0 <= i < |received| ensures |received[i]| <= Wire.MAX_MESSAGE_SIZE {
      assert received[i] == held[skip + i];
    }
  }

  /** The saved pair of an RPC, field by field. */
  lemma PairOfRpc(cfg: R.RecConfig, rpc: Rpc, render: Render, now: nat -> nat)
    ensures |R.Saved(cfg, R.Opened, CallsOf(rpc, render, now))| == 1
    ensures var p, info := R.Saved(cfg, R.Opened, CallsOf(rpc, render, now))[0], R.ScrubInfo(cfg.adapterId, cfg.typ);
            var sent, received := SendsIn(rpc.log), RecvsIn(rpc.log);
            && p.req.typ == cfg.typ && p.reqPayload == cfg.reqPayload
            && p.respPayload == map["status_code" := Number(rpc.code)]
            && p.recordedErr == (if rpc.code == 0 then "" else render(rpc.code, rpc.text))
            && |p.req.frames| == |sent| && |p.resp.frames| == |received|
            && (forall i :: 0 <= i < |sent| ==>
                  p.req.frames[i].message == match cfg.scrub case None => sent[i] case Some(f) => f(R.SendDir, info, sent[i]))
            && (forall i :: 0 <= i < |received| ==>
                  p.resp.frames[i].message == match cfg.scrub case None => received[i] case Some(f) => f(R.RecvDir, info, received[i]))
  {
    hide R.Saved, P.ReplayOf, CallsFrom, SendsIn, RecvsIn, P.Messages;
    var fin := FinishOf(rpc, render, now);
    SavedPair(cfg, rpc, render, now);
    RpcReachesTerminal(rpc, render, now);
    CallMessages(rpc.log, 0, now, fin);
    assert rpc.log[0..] == rpc.log;
    CallsDoNotFinish(rpc.log, now);
    R.FieldsOfSaved(cfg, R.Opened, CallsOf(rpc, render, now), |rpc.log|);
    P.RecordedLogs(cfg, CallsOf(rpc, render, now), _ => "");
  }

  /** What a client reads of a saved RPC, in terms of the messages its server's bytes held. */
  lemma ServedFromHeld(cfg: R.RecConfig, rpc: Rpc, render: Render, now: nat -> nat, sha: Bytes -> string, ops: seq<P.Op>, k: nat,
                       held: seq<Bytes>, skip: nat)
    requires P.Follows(cfg, CallsOf(rpc, render, now), ops) && k < |ops| && ops[k].RecvOp?
    requires skip + |RecvsIn(rpc.log)| <= |held| && forall j :: 0 <= j < |RecvsIn(rpc.log)| ==> RecvsIn(rpc.log)[j] == held[skip + j]
    ensures R.Saved(cfg, R.Opened, CallsOf(rpc, render, now)) != []
    ensures var j := P.RecvsIn(ops[..k]);
            P.OutcomeAt(P.ReplayOf(cfg, CallsOf(rpc, render, now), sha), ops, k)
            == if j < |RecvsIn(rpc.log)| then
                 P.Delivered(match cfg.scrub
                             case None => held[skip + j]
                             case Some(f) => f(R.RecvDir, R.ScrubInfo(cfg.adapterId, cfg.typ), held[skip + j]))
               else if rpc.code != 0 && render(rpc.code, rpc.text) != "" then
                 P.Failed(P.RecordedError(render(rpc.code, rpc.text)))
               else
                 P.Failed(P.EndOfStream)
  {
    hide R.Saved, P.OutcomeAt, P.Follows, P.ReplayOf, CallsOf, RecvsIn;
    ReplayServesTheLog(cfg, rpc, render, now, sha, ops, k);
  }

  /**
   The whole way, from the frames of a connection to what a replaying client is served, for a
   stream whose client names at most one RPC. An RPC is saved, once, exactly when that frame
   was handled, is not compressed, and a terminal was handled after it; and then it has the
   service and method of the frame's path and the code and text of the terminal's texts. A
   client that follows its replay gets on its j-th read the (skip + j)-th message that the
   server's payload bytes held, through the hook, and after the last recorded one the error
   text or the end of the stream; `skip` messages were handled before the naming. When all
   server events were handled, it gets every message they held exactly when none fell before
   the naming or after the terminal.
   */
  lemma WireToReplay(sanitize: Fields -> Fields, clientFrames: seq<Frame>, serverFrames: seq<Frame>, evs: seq<Observed>,
                     id: StreamId, cfg: R.RecConfig, render: Render, now: nat -> nat, sha: Bytes -> string,
                     ops: seq<P.Op>, k: nat) returns (h: nat)
    requires Interleaves(evs, DecodeAll(sanitize, map[], clientFrames), DecodeAll(sanitize, map[], serverFrames))
    requires id != 0 && |Namings(sanitize, clientFrames, id)| <= 1
    ensures var own, naming := OnStream(evs, id), Namings(sanitize, clientFrames, id);
            && NamedBy(naming, sanitize, own, id, h)
            && (InDir(evs, ClientToServer) == DecodeAll(sanitize, map[], clientFrames).events ==> (h < |own| <==> naming != []))
            && if h < |own| && !Compresses(sanitize(naming[0].fields)) && exists e :: h < e < |own| && IsTerminal(own[e]) then
                 |SavedOn(evs, id)| == 1 && exists e :: h < e < |own| && ReadsAs(own, h, e, SavedOn(evs, id)[0])
               else
                 SavedOn(evs, id) == []
    ensures var server := DecodeAll(sanitize, map[], serverFrames);
            var held := ReadAll(Incarnations(serverFrames[..server.consumed], id));
            var own, skip := OnStream(evs, id), |RecvsIn(ShownBy(OnStream(evs, id)[..h]))|;
            forall rpc :: rpc in SavedOn(evs, id) ==>
              var calls, n := CallsOf(rpc, render, now), |RecvsIn(rpc.log)|;
              && |R.Saved(cfg, R.Opened, calls)| == 1
              && R.Saved(cfg, R.Opened, calls)[0].respPayload == map["status_code" := Number(rpc.code)]
              && skip + n <= |held|
              && (InDir(evs, ServerToClient) == server.events ==>
                    (skip == 0 && n == |held| <==> MessagesWithin(own, h, EndFrom(own, h), ServerToClient)))
              && (P.Follows(cfg, calls, ops) && k < |ops| && ops[k].RecvOp? ==>
                    var j := P.RecvsIn(ops[..k]);
                    P.OutcomeAt(P.ReplayOf(cfg, calls, sha), ops, k)
                    == if j < n then
                         P.Delivered(match cfg.scrub
                                     case None => held[skip + j]
                                     case Some(f) => f(R.RecvDir, R.ScrubInfo(cfg.adapterId, cfg.typ), held[skip + j]))
                       else if rpc.code != 0 && render(rpc.code, rpc.text) != "" then
                         P.Failed(P.RecordedError(render(rpc.code, rpc.text)))
                       else
                         P.Failed(P.EndOfStream))
  {
    hide DecodeAll, Incarnations, ReadAll, OnStream, EndFrom, R.Saved, P.OutcomeAt, P.Follows, P.ReplayOf, CallsOf,
         SavedOn, RecvsIn, SendsIn, ShownBy, InDir, MessagesWithin, ReadOff, Namings, ReadsAs, Compresses, IsTerminal, OpensRpc;
    h := RecordedIsRead(sanitize, clientFrames, serverFrames, evs, id);
    var server, own := DecodeAll(sanitize, map[], serverFrames), OnStream(evs, id);
    var held, skip := ReadAll(Incarnations(serverFrames[..server.consumed], id)), |RecvsIn(ShownBy(own[..h]))|;
    if h == |own| {
      NotNamedNotSaved(evs, id);
    } else {
      SavedOnAsRead(evs, id, h);
    }
    if SavedOn(evs, id) != [] {
      var rpc := SavedOn(evs, id)[0];
      assert SavedOn(evs, id) == [rpc];
      PairOfRpc(cfg, rpc, render, now);
      ReceivedAreHeld(rpc.log, own, h, held, InDir(evs, ServerToClient) == server.events);
      if P.Follows(cfg, CallsOf(rpc, render, now), ops) && k < |ops| && ops[k].RecvOp? {
        ServedFromHeld(cfg, rpc, render, now, sha, ops, k, held, skip);
      }
    }
  }

  // ---------------------------------------------------------------------------
  // From one session to the next, through the cassette
  // ---------------------------------------------------------------------------

  /** A session that replays what another records: same cassette, hash and scrub hook. */
  ghost predicate Replays(replay: FileSession, record: FileSession) {
    && record.mode == RecordMode && replay.mode == ReplayMode && record != replay
    && record.cassette != null && replay.cassette == record.cassette
    && replay.hash == record.hash && replay.streamScrub == record.streamScrub
  }

  lemma SavedPairIsServable(session: FileSession, rpc: Rpc, n: int, render: Render, now: nat -> nat)
    ensures var open := OpenOf(session, rpc);
            Servable(R.Streamed(PairUnder(session.RecordConfig(open, n), rpc, render, now)), open.typ)
  {
    hide R.Saved, CallsOf, OpenOf, R.Consistent, Sequenced;
    var cfg := session.RecordConfig(OpenOf(session, rpc), n);
    GrpcShape(session, rpc);
    SavedPair(cfg, rpc, render, now);
    R.OpenedIsConsistent();
    R.SavedPairsAreValid(cfg, R.Opened, CallsOf(rpc, render, now));
    assert PairUnder(cfg, rpc, render, now) in R.Saved(cfg, R.Opened, CallsOf(rpc, render, now));
  }

  /** The next open of the k-th RPC's tuple, after the given opens, is the same occurrence of it as that RPC was. */
  predicate IsOccurrence(session: FileSession, saved: seq<SavedRpc>, earlier: seq<CanonicalJson.StreamOpen>, k: nat)
    requires k < |saved|
  {
    var opens := OpensSaved(session, saved);
    opens[k].counter ==> OpensOf(earlier, opens[k]) == OpensOf(opens[..k], opens[k])
  }

  /** No RPC saved after the k-th has its file name. */
  predicate StaysOnFile(session: FileSession, saved: seq<SavedRpc>, render: Render, clock: nat -> nat -> nat, k: nat)
    requires k < |saved|
  {
    var entries := EntriesOf(session, [], saved, render, clock);
    LastOf(entries, entries[k].name) == k
  }

  /** The name under which the k-th saved RPC is filed. */
  lemma NameOfEntry(session: FileSession, saved: seq<SavedRpc>, render: Render, clock: nat -> nat -> nat, k: nat)
    requires k < |saved|
    ensures var opens, entries := OpensSaved(session, saved), EntriesOf(session, [], saved, render, clock);
            && |entries| == |saved| == |opens| && opens[k].adapterId == "grpc" && entries[k].name.0 == "grpc"
            && FiledUnder(session.hash, opens, k, entries[k].name.1)
            && (!opens[k].counter ==> opens[k].typ == SERVER)
  {
    hide OpenOf, CountersAfter, CounterKey, CanonicalJson.Canonical, PairUnder;
    GrpcShape(session, saved[k].rpc);
    assert [] + OpensSaved(session, saved) == OpensSaved(session, saved);
  }

  /** How many of the RPCs are of a type, service and method. */
  function CountOfTuple(saved: seq<SavedRpc>, typ: string, service: string, method': string): nat {
    if saved == [] then 0
    else
      var last := saved[|saved| - 1].rpc;
      CountOfTuple(saved[..|saved| - 1], typ, service, method')
      + if InferType(last.log) == typ && last.service == service && last.method' == method' then 1 else 0
  }

  lemma SameIdentity(session: FileSession, rpc: Rpc, other: Rpc)
    requires InferType(rpc.log) != SERVER && InferType(rpc.log) == InferType(other.log)
    ensures OpenOf(session, rpc).identity == OpenOf(session, other).identity
            <==> rpc.service == other.service && rpc.method' == other.method'
  {
    hide InferType, SendsIn;
    var a, b := OpenOf(session, rpc).identity, OpenOf(session, other).identity;
    assert a["service"] == Text(rpc.service) && a["method"] == Text(rpc.method');
    assert b["service"] == Text(other.service) && b["method"] == Text(other.method');
  }

  lemma {:induction false} TupleIsCounted(session: FileSession, saved: seq<SavedRpc>, rpc: Rpc)
    requires InferType(rpc.log) != SERVER
    ensures OpensOf(OpensSaved(session, saved), OpenOf(session, rpc))
            == CountOfTuple(saved, InferType(rpc.log), rpc.service, rpc.method')
  {
    hide OpenOf, InferType, CanonicalJson.Acceptable;
    if saved != [] {
      var front, last := saved[..|saved| - 1], saved[|saved| - 1];
      var opens := OpensSaved(session, saved);
      assert opens[..|opens| - 1] == OpensSaved(session, front);
      TupleIsCounted(session, front, rpc);
      GrpcShape(session, last.rpc);
      GrpcShape(session, rpc);
      if InferType(last.rpc.log) == InferType(rpc.log) {
        SameIdentity(session, last.rpc, rpc);
      }
    }
  }

  lemma NumberOfRpc(session: FileSession, saved: seq<SavedRpc>, k: nat)
    requires k < |saved| && InferType(saved[k].rpc.log) != SERVER
    ensures var rpc := saved[k].rpc;
            Assigned(OpensSaved(session, saved), k) == CountOfTuple(saved[..k], InferType(rpc.log), rpc.service, rpc.method')
  {
    hide CountersAfter, OpensOf, OpenOf, CountOfTuple, InferType, Assigned, OpensSaved;
    var rpc, opens := saved[k].rpc, OpensSaved(session, saved);
    GrpcShape(session, rpc);
    OpensSavedUpTo(session, saved, k);
    OrdinalsFollowTerminals(session, [], saved, k);
    assert [] + opens == opens;
    NoOpensCounted(opens[k]);
    TupleIsCounted(session, saved[..k], rpc);
  }

  lemma OpensSavedUpTo(session: FileSession, saved: seq<SavedRpc>, k: nat)
    requires k < |saved|
    ensures |OpensSaved(session, saved)| == |saved| && OpensSaved(session, saved)[k] == OpenOf(session, saved[k].rpc)
    ensures OpensSaved(session, saved)[..k] == OpensSaved(session, saved[..k])
  {
    hide OpenOf;
  }

  /**
   The k-th saved RPC is filed under the hash of the text that the cassette format gives for
   it: with its number among those of its type, service and method saved before, or, for a
   server stream, with the hash of its one request as the hook leaves it.
   */
  lemma FiledAs(session: FileSession, saved: seq<SavedRpc>, render: Render, clock: nat -> nat -> nat, k: nat)
    requires k < |saved|
    ensures var rpc, entries := saved[k].rpc, EntriesOf(session, [], saved, render, clock);
            var typ := InferType(rpc.log);
            && |entries| == |saved| && entries[k].name.0 == "grpc"
            && if typ == "server" then
                 var request := FirstOrNil(SendsIn(rpc.log));
                 var shown := match session.streamScrub
                              case None => request
                              case Some(f) => f(R.SendDir, R.ScrubInfo("grpc", "server"), request);
                 && SendsIn(rpc.log) == [request]
                 && entries[k].name.1 == session.hash(CanonicalTexts.HashedForm(rpc.service, rpc.method', session.hash(shown)))
               else
                 var n := CountOfTuple(saved[..k], typ, rpc.service, rpc.method');
                 entries[k].name.1 == session.hash(CanonicalTexts.CountedForm(typ, rpc.service, rpc.method', n))
  {
    hide CanonicalTexts.HashedForm, CanonicalTexts.CountedForm, CanonicalJson.Canonical, PairUnder, CountersAfter, OpensOf, OpenOf,
         CountOfTuple, SendsIn, RecvsIn, SendsAtHalfClose, InferType;
    var rpc, opens := saved[k].rpc, OpensSaved(session, saved);
    var typ, request := InferType(rpc.log), FirstOrNil(SendsIn(rpc.log));
    GrpcShape(session, rpc);
    InferredType(rpc.log);
    assert [] + opens == opens;
    OpenOfRpc(session, rpc);
    if typ == "server" {
      CanonicalTexts.HashedText(session.streamScrub, session.hash, rpc.service, rpc.method', request);
    } else {
      NumberOfRpc(session, saved, k);
      CanonicalTexts.CountedText(session.streamScrub, session.hash, typ, rpc.service, rpc.method', request, Assigned(opens, k));
    }
  }

  lemma OpenOfRpc(session: FileSession, rpc: Rpc)
    ensures OpenOf(session, rpc)
            == Probe.StreamOpenFor(session.streamScrub, session.hash, InferType(rpc.log), rpc.service, rpc.method', FirstOrNil(SendsIn(rpc.log)))
  {
  }

  /**
   Under a hash that tells texts apart, the file of a counter-addressed RPC is never
   overwritten by a later one of its connection, and that of a server-streaming one exactly
   when a later one has the same identity: service, method and first message, as hashed.
   */
  lemma StaysOnFileIff(session: FileSession, saved: seq<SavedRpc>, render: Render, clock: nat -> nat -> nat, k: nat)
    requires k < |saved| && Injective(session.hash)
    ensures var opens := OpensSaved(session, saved);
            StaysOnFile(session, saved, render, clock, k)
            <==> opens[k].counter || forall i :: k < i < |saved| ==> opens[i].counter || opens[i].identity != opens[k].identity
  {
    hide FiledUnder, OpensSaved, EntriesOf, Injective;
    var opens, entries := OpensSaved(session, saved), EntriesOf(session, [], saved, render, clock);
    NameOfEntry(session, saved, render, clock, k);
    forall i | k < i < |saved|
      ensures entries[i].name == entries[k].name <==> !opens[k].counter && !opens[i].counter && opens[i].identity == opens[k].identity
    {
      NameOfEntry(session, saved, render, clock, i);
      FingerprintsDiffer(session.hash, opens, k, i, entries[k].name.1, entries[i].name.1);
    }
  }

  /** An open that is the same occurrence of its tuple in both sessions gets one name in both. */
  lemma SameOccurrence(session: FileSession, saved: seq<SavedRpc>, earlier: seq<CanonicalJson.StreamOpen>, k: nat)
    requires k < |saved| && IsOccurrence(session, saved, earlier, k)
    ensures var opens := OpensSaved(session, saved);
            Ordinal(CountersAfter(earlier), opens[k]) == Assigned(opens, k)
  {
    hide OpenOf, OpensOf, CountersAfter, CounterKey;
    var opens := OpensSaved(session, saved);
    GrpcShape(session, saved[k].rpc);
    assert [] + opens == opens;
    if opens[k].counter {
      CounterIsOpensOf(earlier, opens[k]);
      OrdinalsFollowTerminals(session, [], saved, k);
      NoOpensCounted(opens[k]);
    }
  }

  lemma NoOpensCounted(o: CanonicalJson.StreamOpen)
    ensures OpensOf([], o) == 0
  {
  }

  /** What a connection recorded in a fresh session leaves on file, entry by entry. */
  lemma FilesOfConnection(session: FileSession, st: Store, evs: seq<Observed>, render: Render, clock: nat -> nat -> nat,
                          k: nat)
    requires session.mode == RecordMode && session.cassette != null && st.counts == map[]
    requires k < |SavedOver(NoTracks, evs, 0)|
    ensures var entries := EntriesOf(session, [], SavedOver(NoTracks, evs, 0), render, clock);
            var after := StoreAfter(session, NoTracks, st, evs, 0, render, clock).files;
            LastOf(entries, entries[k].name) == k ==>
              entries[k].name in after && after[entries[k].name] == R.Streamed(entries[k].pair)
  {
    hide StoreAfter, OpenOf, EntryOf, Put;
    NothingCounted();
    FilesFollowTerminals(session, NoTracks, st, evs, 0, render, clock, []);
    var entries := EntriesOf(session, [], SavedOver(NoTracks, evs, 0), render, clock);
    LastWriteStays(st.files, entries, entries[k].name);
  }

  lemma NothingCounted()
    ensures CountersAfter([]) == map[]
  {
  }

  /**
   A connection is recorded in a fresh session; a replay session over the same cassette that
   has seen the same number of opens of the k-th RPC's tuple (`earlier` being its opens) opens
   that RPC and gets the pair of the tuple's terminal of that number, provided no RPC saved
   later has the same file name: as none has under a hash that tells texts apart, when the
   RPC is counter-addressed.
   */
  method RecordThenReopen(record: FileSession, replay: FileSession, render: Render, evs: seq<Observed>, clock: nat -> nat -> nat,
                          ghost earlier: seq<CanonicalJson.StreamOpen>, ghost k: nat, rpc: Rpc)
    returns (r: Result<P.StreamReplay, OpenFailure>)
    requires Replays(replay, record) && record.streamN == map[] && replay.streamN == CountersAfter(earlier)
    requires k < |SavedOver(NoTracks, evs, 0)| && rpc == SavedOver(NoTracks, evs, 0)[k].rpc
    modifies record, replay, CassetteOf(record)
    ensures var saved := SavedOver(NoTracks, evs, 0);
            var cfg := record.RecordConfig(OpenOf(record, rpc), Assigned(OpensSaved(record, saved), k));
            && IsOccurrence(record, saved, earlier, k)
            && (StaysOnFile(record, saved, render, clock, k) || (Injective(record.hash) && InferType(rpc.log) != SERVER)) ==>
              && R.Saved(cfg, R.Opened, CallsOf(rpc, render, clock(saved[k].at))) != []
              && r.Ok? && r.value.State() == P.Opened
              && r.value.cfg == P.ReplayOf(cfg, CallsOf(rpc, render, clock(saved[k].at)), replay.sha)
  {
    hide StoreAfter, OpenOf, CountersAfter, OpensOf, Assigned, R.Saved, CallsOf, LastOf, Fingerprint, StreamTracker.Valid;
    ghost var files := FilesOf(record);
    ghost var saved := SavedOver(NoTracks, evs, 0);
    ghost var n, x := Assigned(OpensSaved(record, saved), k), saved[k];
    SavedPair(record.RecordConfig(OpenOf(record, rpc), n), rpc, render, clock(x.at));
    FilesOfConnection(record, Store(map[], files), evs, render, clock, k);
    if IsOccurrence(record, saved, earlier, k) {
      SameOccurrence(record, saved, earlier, k);
    }
    CountedStay(record, saved, render, clock, k);
    SavedPairIsServable(record, rpc, n, render, clock(x.at));
    GrpcShape(record, rpc);
    var t := new StreamTracker(record, render);
    HandleAll(t, evs, clock);
    assert OpensSaved(record, saved)[k] == OpenOf(record, rpc);
    assert OpenOf(replay, rpc) == OpenOf(record, rpc) by { SameOpenOf(replay, record, rpc); }
    assert [] + OpensSaved(record, saved) == OpensSaved(record, saved);
    r := replay.OpenStreamReplay(OpenOf(replay, rpc));
  }

  lemma CountedStay(session: FileSession, saved: seq<SavedRpc>, render: Render, clock: nat -> nat -> nat, k: nat)
    requires k < |saved|
    ensures Injective(session.hash) && InferType(saved[k].rpc.log) != SERVER ==> StaysOnFile(session, saved, render, clock, k)
  {
    hide OpenOf, InferType, Injective, StaysOnFile;
    GrpcShape(session, saved[k].rpc);
    if Injective(session.hash) {
      StaysOnFileIff(session, saved, render, clock, k);
    }
  }

  lemma SameOpenOf(replay: FileSession, record: FileSession, rpc: Rpc)
    requires replay.hash == record.hash && replay.streamScrub == record.streamScrub
    ensures OpenOf(replay, rpc) == OpenOf(record, rpc)
  {
  }
}
