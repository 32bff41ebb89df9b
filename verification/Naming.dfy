/**
 Which RPC a stream is used for, read off the HEADERS frames of its client
 (go/adapters/grpctransport/demux.go, record.go).
 */
module Naming {
  import opened Prelude
  import opened Demux
  import opened Tracker
  import opened Headers

  /** The HEADERS frames whose sanitized block names an RPC. */
  ghost function NamingFrames(sanitize: Fields -> Fields, frames: seq<Frame>): seq<Frame> {
    if frames == [] then []
    else (if frames[0].Headers? && NamesAnRpc(sanitize(frames[0].fields)) then [frames[0]] else [])
         + NamingFrames(sanitize, frames[1..])
  }

  ghost function NamingEvents(evs: seq<WireEvent>): seq<WireEvent> {
    if evs == [] then []
    else (if evs[0].HeadersEvent? && NamesAnRpc(evs[0].fields) then [evs[0]] else []) + NamingEvents(evs[1..])
  }

  lemma {:induction false} NamingEventsConcat(a: seq<WireEvent>, b: seq<WireEvent>)
    ensures NamingEvents(a + b) == NamingEvents(a) + NamingEvents(b)
  {
    hide NamesAnRpc;
    if a == [] {
      assert a + b == b;
    } else {
      assert (a + b)[1..] == a[1..] + b;
      NamingEventsConcat(a[1..], b);
    }
  }

  lemma {:induction false} NamingsAreControl(sanitize: Fields -> Fields, frames: seq<Frame>, evs: seq<WireEvent>)
    ensures NamingFrames(sanitize, ControlFrames(frames)) == NamingFrames(sanitize, frames)
    ensures NamingEvents(ControlEvents(evs)) == NamingEvents(evs)
    decreases |frames| + |evs|
  {
    hide NamesAnRpc;
    if frames != [] {
      NamingsAreControl(sanitize, frames[1..], []);
      assert ControlFrames(frames) != ControlFrames(frames[1..]) ==> ControlFrames(frames)[1..] == ControlFrames(frames[1..]);
    }
    if evs != [] {
      NamingsAreControl(sanitize, [], evs[1..]);
      assert ControlEvents(evs) != ControlEvents(evs[1..]) ==> ControlEvents(evs)[1..] == ControlEvents(evs[1..]);
    }
  }

  lemma {:induction false} NamingsAreRelayed(sanitize: Fields -> Fields, frames: seq<Frame>, evs: seq<WireEvent>)
    requires RelayedInOrder(sanitize, frames, evs)
    ensures RelayedInOrder(sanitize, NamingFrames(sanitize, frames), NamingEvents(evs))
    decreases |frames|
  {
    hide NamesAnRpc;
    if frames != [] {
      assert Relays(sanitize, frames[0], evs[0]);
      NamingsAreRelayed(sanitize, frames[1..], evs[1..]);
    }
  }

  /** The frames consumed of a stream that name an RPC, and the events they come out as. */
  lemma NamingsOfRun(sanitize: Fields -> Fields, frames: seq<Frame>, id: StreamId)
    ensures var r := DecodeAll(sanitize, map[], frames);
            RelayedInOrder(sanitize, NamingFrames(sanitize, FramesFor(frames[..r.consumed], id)), NamingEvents(EventsFor(r.events, id)))
  {
    hide DecodeAll, RelayedInOrder, ControlFrames, ControlEvents, NamingFrames, NamingEvents, FramesFor, EventsFor;
    var r := DecodeAll(sanitize, map[], frames);
    var own, evs := FramesFor(frames[..r.consumed], id), EventsFor(r.events, id);
    ControlIsRelayed(sanitize, frames, id);
    NamingsAreRelayed(sanitize, ControlFrames(own), ControlEvents(evs));
    NamingsAreControl(sanitize, own, evs);
  }

  lemma {:induction false} FramesAreOf(frames: seq<Frame>, id: StreamId)
    ensures forall f :: f in FramesFor(frames, id) ==> FrameOf(f, id)
  {
    if frames != [] {
      FramesAreOf(frames[1..], id);
    }
  }

  lemma {:induction false} NamingFramesAreFrames(sanitize: Fields -> Fields, frames: seq<Frame>)
    ensures forall f :: f in NamingFrames(sanitize, frames) ==> f in frames && f.Headers? && NamesAnRpc(sanitize(f.fields))
  {
    hide NamesAnRpc;
    if frames != [] {
      NamingFramesAreFrames(sanitize, frames[1..]);
    }
  }

  // ---------------------------------------------------------------------------
  // The opening events of a stream
  // ---------------------------------------------------------------------------

  function OpensIn(own: seq<Observed>): seq<Observed> {
    if own == [] then [] else (if OpensRpc(own[0]) then [own[0]] else []) + OpensIn(own[1..])
  }

  /** The only opening event of a stream, if it has one. */
  lemma {:induction false} TheOpening(own: seq<Observed>) returns (h: nat)
    requires |OpensIn(own)| <= 1
    ensures h <= |own|
    ensures h == |own| ==> NoOpens(own) && OpensIn(own) == []
    ensures h < |own| ==> OpensOnceAt(own, h) && OpensIn(own) == [own[h]]
  {
    hide OpensRpc;
    if own == [] {
      h := 0;
    } else {
      var k := TheOpening(own[1..]);
      assert forall i :: 0 < i < |own| ==> own[i] == own[1..][i - 1];
      if OpensRpc(own[0]) {
        h := 0;
      } else {
        h := k + 1;
      }
    }
  }
}
