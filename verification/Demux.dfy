/**
 Demultiplexing one direction of an HTTP/2 connection into per-stream events
 (go/adapters/grpctransport/demux.go).
 */
module Demux {
  import opened Prelude
  import opened Wire

  type StreamId = nat
  type Fields = seq<(string, string)>

  /** Decoded HTTP/2 frames; Noise is every frame type the decoder drops. */
  datatype Frame =
    | Headers(id: StreamId, fields: Fields, endStream: bool)
    | Data(id: StreamId, payload: Bytes, endStream: bool)
    | RstStream(id: StreamId)
    | GoAway
    | Noise

  /** Message None is the message-less event of an END_STREAM frame. */
  datatype WireEvent =
    | HeadersEvent(id: StreamId, fields: Fields, endStream: bool)
    | MessageEvent(id: StreamId, message: Option<Bytes>, endStream: bool)
    | ResetEvent(id: StreamId)
    | GoAwayEvent

  datatype Pending = Pending(id: StreamId, msgs: seq<Bytes>, endStream: bool)

  // ---------------------------------------------------------------------------
  // Specification: what one frame means, what a frame sequence means
  // ---------------------------------------------------------------------------

  function BufferOf(bufs: map<StreamId, Bytes>, id: StreamId): Bytes {
    if id in bufs then bufs[id] else []
  }

  /** One event per message; END_STREAM goes with the last. */
  function MessageEvents(id: StreamId, msgs: seq<Bytes>, endStream: bool): seq<WireEvent> {
    if msgs == [] then []
    else [MessageEvent(id, Some(msgs[0]), |msgs| == 1 && endStream)] + MessageEvents(id, msgs[1..], endStream)
  }

  function DataEvents(id: StreamId, msgs: seq<Bytes>, endStream: bool): seq<WireEvent> {
    if msgs == [] && endStream then [MessageEvent(id, None, true)] else MessageEvents(id, msgs, endStream)
  }

  datatype ConnRun = ConnRun(events: seq<WireEvent>, consumed: nat, failed: bool)

  /** A frame that ends the run with an error. */
  predicate Rejects(bufs: map<StreamId, Bytes>, f: Frame) {
    f.Data? && OverCap(Parse(BufferOf(bufs, f.id) + f.payload).rest)
  }

  function EventsOf(sanitize: Fields -> Fields, bufs: map<StreamId, Bytes>, f: Frame): seq<WireEvent> {
    match f
    case Headers(id, fields, end) => [HeadersEvent(id, sanitize(fields), end)]
    case Data(id, payload, end) => DataEvents(id, Parse(BufferOf(bufs, id) + payload).msgs, end)
    case RstStream(id) => [ResetEvent(id)]
    case GoAway => [GoAwayEvent]
    case Noise => []
  }

  function BuffersAfter(bufs: map<StreamId, Bytes>, f: Frame): map<StreamId, Bytes> {
    match f
    case Data(id, payload, _) => bufs[id := Parse(BufferOf(bufs, id) + payload).rest]
    case RstStream(id) => bufs - {id}
    case _ => bufs
  }

  /** The events of a frame sequence; `consumed` counts the frames before the failing one. */
  function DecodeAll(sanitize: Fields -> Fields, bufs: map<StreamId, Bytes>, frames: seq<Frame>): (r: ConnRun)
    ensures r.consumed <= |frames|
    decreases |frames|
  {
    if frames == [] then ConnRun([], 0, false)
    else if Rejects(bufs, frames[0]) then ConnRun([], 0, true)
    else
      var r := DecodeAll(sanitize, BuffersAfter(bufs, frames[0]), frames[1..]);
      ConnRun(EventsOf(sanitize, bufs, frames[0]) + r.events, r.consumed + 1, r.failed)
  }

  lemma NoMessages(id: StreamId, endStream: bool)
    ensures MessageEvents(id, [], endStream) == []
  {
  }

  lemma DecodeUnrolled(sanitize: Fields -> Fields, bufs: map<StreamId, Bytes>, frames: seq<Frame>)
    ensures var r := DecodeAll(sanitize, bufs, frames);
            if frames == [] then r.events == [] && !r.failed
            else if Rejects(bufs, frames[0]) then r.events == [] && r.failed
            else var later := DecodeAll(sanitize, BuffersAfter(bufs, frames[0]), frames[1..]);
                 r.events == EventsOf(sanitize, bufs, frames[0]) + later.events && r.failed == later.failed
  {
  }

  lemma AppendAssociates<T>(a: seq<T>, b: seq<T>, c: seq<T>)
    ensures (a + b) + c == a + (b + c)
  {
  }

  // ---------------------------------------------------------------------------
  // The decoder object
  // ---------------------------------------------------------------------------

  datatype NextResult = Event(ev: WireEvent) | Eof | Failed(error: WireError)

  class ConnDecoder {
    const sanitize: Fields -> Fields
    /** The frames the framer has not read yet. */
    var input: seq<Frame>
    var streams: map<StreamId, StreamDecoder>
    var queued: Pending

    /** The bytes buffered per stream: the public view of `streams`. */
    ghost var buffers: map<StreamId, Bytes>
    ghost var decoders: set<StreamDecoder>

    ghost predicate Valid()
      reads this, decoders
    {
      && buffers.Keys == streams.Keys
      && (forall i :: i in streams ==> streams[i] in decoders && streams[i].buf == buffers[i])
      && (forall i, j :: i in streams && j in streams && i != j ==> streams[i] != streams[j])
    }

    /** All the events still to come, and whether an error ends them. */
    ghost function Remaining(): (seq<WireEvent>, bool)
      reads this
    {
      var r := DecodeAll(sanitize, buffers, input);
      (MessageEvents(queued.id, queued.msgs, queued.endStream) + r.events, r.failed)
    }

    constructor (input: seq<Frame>, sanitize: Fields -> Fields)
      ensures Valid() && fresh(this) && decoders == {} && this.sanitize == sanitize && this.input == input
      ensures Remaining() == (DecodeAll(sanitize, map[], input).events, DecodeAll(sanitize, map[], input).failed)
    {
      this.input := input;
      this.sanitize := sanitize;
      streams, buffers, decoders := map[], map[], {};
      queued := Pending(0, [], false);
      new;
      assert [] + DecodeAll(sanitize, map[], input).events == DecodeAll(sanitize, map[], input).events;
    }

    method DrainQueued() returns (r: Option<WireEvent>)
      modifies this`queued
      ensures var was := old(queued);
              var all := MessageEvents(was.id, was.msgs, was.endStream);
              var left := MessageEvents(queued.id, queued.msgs, queued.endStream);
              all == match r { case None => left case Some(ev) => [ev] + left }
      ensures r.None? <==> old(queued).msgs == []
      ensures r.None? ==> queued == old(queued)
      ensures r.Some? ==> |queued.msgs| == |old(queued).msgs| - 1
    {
      if queued.msgs == [] {
        return None;
      }
      var msg := queued.msgs[0];
      queued := queued.(msgs := queued.msgs[1..]);
      var last := queued.msgs == [];
      r := Some(MessageEvent(queued.id, Some(msg), last && queued.endStream));
    }

    /** The reassembly state of a stream, created on its first DATA frame. */
    method DecoderFor(id: StreamId) returns (sd: StreamDecoder)
      requires Valid()
      modifies this`streams, this`buffers, this`decoders
      ensures Valid() && fresh(decoders - old(decoders))
      ensures id in streams && streams[id] == sd
      ensures buffers == old(buffers)[id := BufferOf(old(buffers), id)]
      ensures sd in decoders
    {
      if id !in streams {
        var created := new StreamDecoder();
        streams := streams[id := created];
        buffers, decoders := buffers[id := []], decoders + {created};
      }
      sd := streams[id];
    }

    method FeedDecoder(id: StreamId, sd: StreamDecoder, payload: Bytes) returns (fed: Result<seq<Bytes>, WireError>)
      requires Valid() && id in streams && streams[id] == sd && id in buffers
      modifies this`buffers, sd
      ensures Valid()
      ensures var p := Parse(old(buffers)[id] + payload);
              && buffers == old(buffers)[id := p.rest]
              && fed == if OverCap(p.rest) then Err(MessageTooLong(Announced(p.rest))) else Ok(p.msgs)
    {
      hide Parse, OverCap, Announced;
      fed := sd.Feed(payload);
      buffers := buffers[id := sd.buf];
    }

    method FeedStream(id: StreamId, payload: Bytes) returns (fed: Result<seq<Bytes>, WireError>)
      requires Valid()
      modifies this`streams, this`buffers, this`decoders, decoders
      ensures Valid() && fresh(decoders - old(decoders))
      ensures var p := Parse(BufferOf(old(buffers), id) + payload);
              && buffers == old(buffers)[id := p.rest]
              && fed == if OverCap(p.rest) then Err(MessageTooLong(Announced(p.rest))) else Ok(p.msgs)
    {
      hide Parse, OverCap, Announced, BufferOf, Valid;
      var sd := DecoderFor(id);
      fed := FeedDecoder(id, sd, payload);
    }

    /** Called only when nothing is queued, so the assignment to `queued` never drops a message. */
    method FeedData(id: StreamId, payload: Bytes, endStream: bool) returns (r: Result<Option<WireEvent>, WireError>)
      requires Valid() && queued.msgs == []
      modifies this`streams, this`buffers, this`decoders, this`queued, decoders
      ensures Valid() && fresh(decoders - old(decoders))
      ensures var p := Parse(BufferOf(old(buffers), id) + payload);
              && buffers == old(buffers)[id := p.rest]
              && (if OverCap(p.rest) then
                    r == Err(MessageTooLong(Announced(p.rest)))
                  else if p.msgs == [] then
                    r == Ok(None) && queued == old(queued)
                  else
                    && r.Ok? && r.value.Some?
                    && MessageEvents(id, p.msgs, endStream)
                       == [r.value.value] + MessageEvents(queued.id, queued.msgs, queued.endStream))
    {
      hide Parse, OverCap, Announced;
      var fed := FeedStream(id, payload);
      if fed.Err? {
        return Err(fed.error);
      }
      var msgs := fed.value;
      if msgs == [] {
        return Ok(None);
      }
      queued := Pending(id, msgs[1..], endStream);
      r := Ok(Some(MessageEvent(id, Some(msgs[0]), |msgs| == 1 && endStream)));
    }

    /** One frame: its first event, if it has any, with the others left in the queue. */
    method Dispatch(f: Frame) returns (r: Option<NextResult>)
      requires Valid() && queued.msgs == []
      modifies this`streams, this`buffers, this`decoders, this`queued, decoders
      ensures Valid() && fresh(decoders - old(decoders))
      ensures if Rejects(old(buffers), f) then
                r.Some? && r.value.Failed?
              else
                && buffers == BuffersAfter(old(buffers), f)
                && (r.Some? ==> r.value.Event?)
                && (r.None? ==> queued == old(queued))
                && EventsOf(sanitize, old(buffers), f)
                   == (match r { case None => [] case Some(n) => [n.ev] })
                      + MessageEvents(queued.id, queued.msgs, queued.endStream)
    {
      hide Parse, OverCap, Announced;
      r := None;
      match f {
        case Headers(id, fields, end) =>
          r := Some(Event(HeadersEvent(id, sanitize(fields), end)));
        case Data(id, payload, end) =>
          var fed := FeedData(id, payload, end);
          if fed.Err? {
            r := Some(Failed(fed.error));
          } else if fed.value.Some? {
            r := Some(Event(fed.value.value));
          } else if end {
            r := Some(Event(MessageEvent(id, None, true)));
          }
        case RstStream(id) =>
          streams, buffers := streams - {id}, buffers - {id};
          r := Some(Event(ResetEvent(id)));
        case GoAway =>
          r := Some(Event(GoAwayEvent));
        case Noise =>
      }
    }

    /** The remaining events come out one per call, in order, and then the end or the error. */
    method Next() returns (r: NextResult)
      requires Valid()
      modifies this, decoders
      ensures Valid() && fresh(decoders - old(decoders))
      ensures match r
              case Event(ev) => old(Remaining()) == ([ev] + Remaining().0, Remaining().1)
              case Eof => old(Remaining()) == ([], false)
              case Failed(_) => old(Remaining()) == ([], true)
      ensures r.Event? ==> |input| < old(|input|) || (|input| == old(|input|) && |queued.msgs| < |old(queued).msgs|)
    {
      hide DecodeAll, EventsOf, Rejects, BuffersAfter, MessageEvents;
      while true
        invariant Valid() && fresh(decoders - old(decoders))
        invariant Remaining() == old(Remaining())
        invariant queued == old(queued) && |input| <= old(|input|)
        decreases |input|
      {
        ghost var bufs, rest := buffers, DecodeAll(sanitize, buffers, input).events;
        var ev := DrainQueued();
        if ev.Some? {
          AppendAssociates([ev.value], MessageEvents(queued.id, queued.msgs, queued.endStream), rest);
          return Event(ev.value);
        }
        NoMessages(queued.id, queued.endStream);
        assert [] + rest == rest;
        DecodeUnrolled(sanitize, bufs, input);
        if input == [] {
          return Eof;
        }
        var f := input[0];
        input := input[1..];
        var out := Dispatch(f);
        ghost var later := DecodeAll(sanitize, buffers, input).events;
        if out.Some? {
          if out.value.Event? {
            AppendAssociates([out.value.ev], MessageEvents(queued.id, queued.msgs, queued.endStream), later);
          }
          return out.value;
        }
      }
    }
  }

  /** One direction's decoder loop, with its events collected in the order they are handed on. */
  method Decode(frames: seq<Frame>, sanitize: Fields -> Fields) returns (events: seq<WireEvent>, failed: bool)
    ensures events == DecodeAll(sanitize, map[], frames).events
    ensures failed == DecodeAll(sanitize, map[], frames).failed
  {
    hide DecodeAll;
    var c := new ConnDecoder(frames, sanitize);
    ghost var all := c.Remaining();
    events := [];
    while true
      invariant c.Valid() && fresh(c) && fresh(c.decoders)
      invariant all == (events + c.Remaining().0, c.Remaining().1)
      decreases |c.input|, |c.queued.msgs|
    {
      ghost var before := events;
      var r := c.Next();
      match r {
        case Eof => return events, false;
        case Failed(_) => return events, true;
        case Event(ev) =>
          AppendAssociates(before, [ev], c.Remaining().0);
          events := events + [ev];
      }
    }
  }

  // ---------------------------------------------------------------------------
  // END_STREAM
  // ---------------------------------------------------------------------------

  lemma {:induction false} MessageEventsFlags(id: StreamId, msgs: seq<Bytes>, end: bool)
    ensures var evs := MessageEvents(id, msgs, end);
            && |evs| == |msgs|
            && forall i :: 0 <= i < |evs| ==>
                 evs[i] == MessageEvent(id, Some(msgs[i]), end && i == |evs| - 1)
  {
    if msgs != [] {
      MessageEventsFlags(id, msgs[1..], end);
    }
  }

  /** An END_STREAM DATA frame yields one flagged event, its last; any other DATA frame yields none. */
  lemma EndStreamOnce(sanitize: Fields -> Fields, bufs: map<StreamId, Bytes>, f: Frame)
    requires f.Data?
    ensures var evs := EventsOf(sanitize, bufs, f);
            && (f.endStream ==> evs != [])
            && forall i :: 0 <= i < |evs| ==>
                 evs[i].MessageEvent? && evs[i].id == f.id && (evs[i].endStream <==> f.endStream && i == |evs| - 1)
  {
    hide Parse;
    MessageEventsFlags(f.id, Parse(BufferOf(bufs, f.id) + f.payload).msgs, f.endStream);
  }

  // ---------------------------------------------------------------------------
  // Streams do not disturb each other
  // ---------------------------------------------------------------------------

  predicate EventOf(ev: WireEvent, id: StreamId) {
    !ev.GoAwayEvent? && ev.id == id
  }

  predicate FrameOf(f: Frame, id: StreamId) {
    !f.GoAway? && !f.Noise? && f.id == id
  }

  function EventsFor(evs: seq<WireEvent>, id: StreamId): seq<WireEvent> {
    if evs == [] then []
    else (if EventOf(evs[0], id) then [evs[0]] else []) + EventsFor(evs[1..], id)
  }

  function FramesFor(frames: seq<Frame>, id: StreamId): seq<Frame> {
    if frames == [] then []
    else (if FrameOf(frames[0], id) then [frames[0]] else []) + FramesFor(frames[1..], id)
  }

  lemma {:induction false} EventsForConcat(a: seq<WireEvent>, b: seq<WireEvent>, id: StreamId)
    ensures EventsFor(a + b, id) == EventsFor(a, id) + EventsFor(b, id)
  {
    if a == [] {
      assert a + b == b;
    } else {
      hide EventOf;
      assert (a + b)[1..] == a[1..] + b;
      EventsForConcat(a[1..], b, id);
      AppendAssociates(if EventOf(a[0], id) then [a[0]] else [], EventsFor(a[1..], id), EventsFor(b, id));
    }
  }

  lemma {:induction false} EventsForUniform(evs: seq<WireEvent>, id: StreamId, mine: bool)
    requires forall i :: 0 <= i < |evs| ==> EventOf(evs[i], id) == mine
    ensures EventsFor(evs, id) == if mine then evs else []
  {
    if evs != [] {
      EventsForUniform(evs[1..], id, mine);
    }
  }

  lemma EventsOfOneFrame(sanitize: Fields -> Fields, bufs: map<StreamId, Bytes>, f: Frame, id: StreamId)
    ensures EventsFor(EventsOf(sanitize, bufs, f), id) == if FrameOf(f, id) then EventsOf(sanitize, bufs, f) else []
  {
    hide Parse;
    if f.Data? {
      EndStreamOnce(sanitize, bufs, f);
    }
    EventsForUniform(EventsOf(sanitize, bufs, f), id, FrameOf(f, id));
  }

  /**
   The events of a stream are those of its own frames alone, whatever was interleaved
   with them and whatever state the other streams were in.
   */
  lemma {:induction false} Isolation(sanitize: Fields -> Fields, bufs: map<StreamId, Bytes>,
                                     own: map<StreamId, Bytes>, frames: seq<Frame>, id: StreamId)
    requires BufferOf(bufs, id) == BufferOf(own, id)
    requires !DecodeAll(sanitize, bufs, frames).failed
    ensures var alone := DecodeAll(sanitize, own, FramesFor(frames, id));
            !alone.failed && EventsFor(DecodeAll(sanitize, bufs, frames).events, id) == alone.events
    decreases |frames|
  {
    hide Parse, OverCap;
    if frames != [] {
      var f := frames[0];
      var later := DecodeAll(sanitize, BuffersAfter(bufs, f), frames[1..]).events;
      EventsForConcat(EventsOf(sanitize, bufs, f), later, id);
      EventsOfOneFrame(sanitize, bufs, f, id);
      if FrameOf(f, id) {
        Isolation(sanitize, BuffersAfter(bufs, f), BuffersAfter(own, f), frames[1..], id);
        assert FramesFor(frames, id)[1..] == FramesFor(frames[1..], id);
      } else {
        Isolation(sanitize, BuffersAfter(bufs, f), own, frames[1..], id);
        assert [] + FramesFor(frames[1..], id) == FramesFor(frames[1..], id);
        assert [] + EventsFor(later, id) == EventsFor(later, id);
      }
    }
  }

  // ---------------------------------------------------------------------------
  // What a stream's events are: one reading of its own payload bytes
  // ---------------------------------------------------------------------------

  function MessagesIn(evs: seq<WireEvent>): seq<Bytes> {
    if evs == [] then []
    else (if evs[0].MessageEvent? && evs[0].message.Some? then [evs[0].message.value] else []) + MessagesIn(evs[1..])
  }

  /** The payload bytes of a stream, cut at its resets. */
  function Incarnations(frames: seq<Frame>, id: StreamId): (r: seq<Bytes>)
    ensures r != []
  {
    if frames == [] then [[]]
    else
      var later := Incarnations(frames[1..], id);
      if frames[0].Data? && frames[0].id == id then [frames[0].payload + later[0]] + later[1..]
      else if frames[0].RstStream? && frames[0].id == id then [[]] + later
      else later
  }

  function ReadAll(incarnations: seq<Bytes>): seq<Bytes> {
    if incarnations == [] then [] else Parse(incarnations[0]).msgs + ReadAll(incarnations[1..])
  }

  /** An incarnation list continued from buffered bytes. */
  function Continuing(buf: Bytes, incarnations: seq<Bytes>): seq<Bytes>
    requires incarnations != []
  {
    [buf + incarnations[0]] + incarnations[1..]
  }

  lemma {:induction false} MessagesInConcat(a: seq<WireEvent>, b: seq<WireEvent>)
    ensures MessagesIn(a + b) == MessagesIn(a) + MessagesIn(b)
  {
    if a == [] {
      assert a + b == b;
    } else {
      assert (a + b)[1..] == a[1..] + b;
      MessagesInConcat(a[1..], b);
    }
  }

  lemma {:induction false} MessagesInMessageEvents(id: StreamId, msgs: seq<Bytes>, end: bool)
    ensures MessagesIn(MessageEvents(id, msgs, end)) == msgs
  {
    if msgs != [] {
      MessagesInMessageEvents(id, msgs[1..], end);
    }
  }

  predicate BuffersStuck(bufs: map<StreamId, Bytes>) {
    forall id :: id in bufs ==> Stuck(bufs[id]) && !OverCap(bufs[id])
  }

  lemma BuffersStayStuck(bufs: map<StreamId, Bytes>, f: Frame)
    requires BuffersStuck(bufs) && !Rejects(bufs, f)
    ensures BuffersStuck(BuffersAfter(bufs, f))
  {
    hide Parse, OverCap, Stuck;
    if f.Data? {
      ParseRestIsStuck(BufferOf(bufs, f.id) + f.payload);
    }
  }

  /** A DATA frame of the stream, folded into the reading of what follows it. */
  lemma DataStep(buf: Bytes, payload: Bytes, next: seq<Bytes>)
    requires next != [] && !OverCap(Parse(buf + payload).rest)
    ensures ReadAll([buf + (payload + next[0])] + next[1..])
            == Parse(buf + payload).msgs + ReadAll(Continuing(Parse(buf + payload).rest, next))
  {
    hide Parse, OverCap, Stuck;
    var p := Parse(buf + payload);
    assert buf + (payload + next[0]) == (buf + payload) + next[0];
    ParseExtends(buf + payload, next[0]);
    AppendAssociates(p.msgs, Parse(p.rest + next[0]).msgs, ReadAll(next[1..]));
  }

  /** A reset drops the buffered bytes, which held no complete message. */
  lemma ResetStep(buf: Bytes, next: seq<Bytes>)
    requires next != [] && Stuck(buf)
    ensures ReadAll(Continuing(buf, [[]] + next)) == ReadAll(Continuing([], next))
  {
    hide Parse, OverCap, Stuck;
    assert buf + [] == buf && [] + next[0] == next[0];
    assert Continuing([], next) == next;
    StuckReadsNothing(buf);
    assert ([[]] + next)[1..] == next && ([buf] + next)[1..] == next;
    assert [] + ReadAll(next) == ReadAll(next);
  }

  lemma IncarnationStep(sanitize: Fields -> Fields, bufs: map<StreamId, Bytes>, frames: seq<Frame>, id: StreamId)
    requires frames != [] && BuffersStuck(bufs) && !Rejects(bufs, frames[0])
    ensures var next := Incarnations(frames[1..], id);
            ReadAll(Continuing(BufferOf(bufs, id), Incarnations(frames, id)))
            == MessagesIn(EventsFor(EventsOf(sanitize, bufs, frames[0]), id))
               + ReadAll(Continuing(BufferOf(BuffersAfter(bufs, frames[0]), id), next))
  {
    hide Parse, OverCap, Stuck, ReadAll, EventsFor;
    var f := frames[0];
    var buf, next := BufferOf(bufs, id), Incarnations(frames[1..], id);
    EventsOfOneFrame(sanitize, bufs, f, id);
    if f.Data? && f.id == id {
      DataStep(buf, f.payload, next);
      MessagesInMessageEvents(id, Parse(buf + f.payload).msgs, f.endStream);
    } else {
      var kept := ReadAll(Continuing(BufferOf(BuffersAfter(bufs, f), id), next));
      assert [] + kept == kept;
      if f.RstStream? && f.id == id {
        EmptyIsStuck();
        ResetStep(buf, next);
      }
    }
  }

  lemma EmptyIsStuck()
    ensures Stuck([]) && !OverCap([])
  {
  }

  lemma {:induction false} MessagesAreTheReading(sanitize: Fields -> Fields, bufs: map<StreamId, Bytes>,
                                                 frames: seq<Frame>, id: StreamId)
    requires BuffersStuck(bufs) && !DecodeAll(sanitize, bufs, frames).failed
    ensures MessagesIn(EventsFor(DecodeAll(sanitize, bufs, frames).events, id))
            == ReadAll(Continuing(BufferOf(bufs, id), Incarnations(frames, id)))
    decreases |frames|
  {
    hide Parse, OverCap, Stuck, EventsOf, BuffersAfter;
    if frames == [] {
      var buf := BufferOf(bufs, id);
      assert buf + [] == buf;
      EmptyIsStuck();
      StuckReadsNothing(buf);
    } else {
      var f := frames[0];
      var evs, later := EventsOf(sanitize, bufs, f), DecodeAll(sanitize, BuffersAfter(bufs, f), frames[1..]).events;
      BuffersStayStuck(bufs, f);
      MessagesAreTheReading(sanitize, BuffersAfter(bufs, f), frames[1..], id);
      EventsForConcat(evs, later, id);
      MessagesInConcat(EventsFor(evs, id), EventsFor(later, id));
      IncarnationStep(sanitize, bufs, frames, id);
    }
  }

  /** A failed run is the run over the frames before the failing one. */
  lemma {:induction false} FailedRunIsAPrefixRun(sanitize: Fields -> Fields, bufs: map<StreamId, Bytes>, frames: seq<Frame>)
    ensures var r := DecodeAll(sanitize, bufs, frames);
            && (!r.failed ==> r.consumed == |frames|)
            && (r.failed ==> r.consumed < |frames| && frames[r.consumed].Data?)
            && DecodeAll(sanitize, bufs, frames[..r.consumed]) == ConnRun(r.events, r.consumed, false)
    decreases |frames|
  {
    hide Parse, OverCap, EventsOf, BuffersAfter;
    if frames == [] {
      assert frames[..0] == frames;
    } else if !Rejects(bufs, frames[0]) {
      FailedRunIsAPrefixRun(sanitize, BuffersAfter(bufs, frames[0]), frames[1..]);
      var k := DecodeAll(sanitize, bufs, frames).consumed;
      assert frames[..k][1..] == frames[1..][..k - 1];
    }
  }

  /**
   The messages emitted for a stream are the readings of its own payload bytes, one per
   incarnation, over the frames consumed: independent of the interleaving and of the cut into frames.
   */
  lemma DemultiplexedMessages(sanitize: Fields -> Fields, frames: seq<Frame>, id: StreamId)
    ensures var r := DecodeAll(sanitize, map[], frames);
            MessagesIn(EventsFor(r.events, id)) == ReadAll(Incarnations(frames[..r.consumed], id))
  {
    hide Parse, OverCap, Stuck, DecodeAll;
    FailedRunIsAPrefixRun(sanitize, map[], frames);
    var read := frames[..DecodeAll(sanitize, map[], frames).consumed];
    MessagesAreTheReading(sanitize, map[], read, id);
    var incs := Incarnations(read, id);
    assert [] + incs[0] == incs[0] && Continuing([], incs) == incs;
  }

  // ---------------------------------------------------------------------------
  // Frames without data: what is decoded of them
  // ---------------------------------------------------------------------------

  /** What a HEADERS, RST_STREAM or GOAWAY frame is decoded to. */
  ghost predicate Relays(sanitize: Fields -> Fields, f: Frame, ev: WireEvent) {
    || (f.Headers? && ev.HeadersEvent? && ev.id == f.id && ev.fields == sanitize(f.fields) && (ev.endStream <==> f.endStream))
    || (f.RstStream? && ev.ResetEvent? && ev.id == f.id)
    || (f.GoAway? && ev.GoAwayEvent?)
  }

  /** Frame by frame, and nothing else. */
  ghost predicate RelayedInOrder(sanitize: Fields -> Fields, frames: seq<Frame>, evs: seq<WireEvent>) {
    |evs| == |frames| && forall i :: 0 <= i < |evs| ==> Relays(sanitize, frames[i], evs[i])
  }

  function ControlFrames(frames: seq<Frame>): seq<Frame> {
    if frames == [] then []
    else (if frames[0].Headers? || frames[0].RstStream? || frames[0].GoAway? then [frames[0]] else []) + ControlFrames(frames[1..])
  }

  function ControlEvents(evs: seq<WireEvent>): seq<WireEvent> {
    if evs == [] then [] else (if evs[0].MessageEvent? then [] else [evs[0]]) + ControlEvents(evs[1..])
  }

  lemma {:induction false} ControlEventsConcat(a: seq<WireEvent>, b: seq<WireEvent>)
    ensures ControlEvents(a + b) == ControlEvents(a) + ControlEvents(b)
  {
    if a == [] {
      assert a + b == b;
    } else {
      assert (a + b)[1..] == a[1..] + b;
      ControlEventsConcat(a[1..], b);
    }
  }

  lemma {:induction false} NoControlAmongMessages(evs: seq<WireEvent>)
    requires forall i :: 0 <= i < |evs| ==> evs[i].MessageEvent?
    ensures ControlEvents(evs) == []
  {
    if evs != [] {
      NoControlAmongMessages(evs[1..]);
    }
  }

  lemma OneFrameRelayed(sanitize: Fields -> Fields, bufs: map<StreamId, Bytes>, f: Frame)
    ensures RelayedInOrder(sanitize, ControlFrames([f]), ControlEvents(EventsOf(sanitize, bufs, f)))
  {
    hide Parse;
    if f.Data? {
      EndStreamOnce(sanitize, bufs, f);
      NoControlAmongMessages(EventsOf(sanitize, bufs, f));
    }
  }

  lemma ControlFramesCons(frames: seq<Frame>)
    requires frames != []
    ensures ControlFrames(frames) == ControlFrames([frames[0]]) + ControlFrames(frames[1..])
  {
    assert [frames[0]][1..] == [];
  }

  lemma RelayedConcat(sanitize: Fields -> Fields, fs: seq<Frame>, es: seq<WireEvent>, fs': seq<Frame>, es': seq<WireEvent>)
    requires RelayedInOrder(sanitize, fs, es) && RelayedInOrder(sanitize, fs', es')
    ensures RelayedInOrder(sanitize, fs + fs', es + es')
  {
    hide Relays;
  }

  lemma {:induction false} RunIsRelayed(sanitize: Fields -> Fields, bufs: map<StreamId, Bytes>, frames: seq<Frame>)
    requires !DecodeAll(sanitize, bufs, frames).failed
    ensures RelayedInOrder(sanitize, ControlFrames(frames), ControlEvents(DecodeAll(sanitize, bufs, frames).events))
    decreases |frames|
  {
    hide Parse, OverCap, EventsOf, BuffersAfter, Relays, ControlEvents;
    if frames == [] {
      NoControlAmongMessages([]);
    } else {
      var f, next := frames[0], BuffersAfter(bufs, frames[0]);
      var evs, later := EventsOf(sanitize, bufs, f), DecodeAll(sanitize, next, frames[1..]).events;
      OneFrameRelayed(sanitize, bufs, f);
      RunIsRelayed(sanitize, next, frames[1..]);
      ControlEventsConcat(evs, later);
      ControlFramesCons(frames);
      RelayedConcat(sanitize, ControlFrames([f]), ControlEvents(evs), ControlFrames(frames[1..]), ControlEvents(later));
    }
  }

  /**
   Over the frames consumed, and over those of any one stream: the HEADERS, RST_STREAM and
   GOAWAY frames come out one event each, in order, and no other such event does.
   */
  lemma ControlIsRelayed(sanitize: Fields -> Fields, frames: seq<Frame>, id: StreamId)
    ensures var r := DecodeAll(sanitize, map[], frames);
            var read := frames[..r.consumed];
            && RelayedInOrder(sanitize, ControlFrames(read), ControlEvents(r.events))
            && RelayedInOrder(sanitize, ControlFrames(FramesFor(read, id)), ControlEvents(EventsFor(r.events, id)))
  {
    hide DecodeAll, RelayedInOrder;
    FailedRunIsAPrefixRun(sanitize, map[], frames);
    var read := frames[..DecodeAll(sanitize, map[], frames).consumed];
    RunIsRelayed(sanitize, map[], read);
    Isolation(sanitize, map[], map[], read, id);
    RunIsRelayed(sanitize, map[], FramesFor(read, id));
  }

  /** The events of the first k frames come first: so every event stands where its frame does. */
  lemma {:induction false} RunsExtend(sanitize: Fields -> Fields, bufs: map<StreamId, Bytes>, frames: seq<Frame>, k: nat)
    requires k <= DecodeAll(sanitize, bufs, frames).consumed
    ensures var r, first := DecodeAll(sanitize, bufs, frames), DecodeAll(sanitize, bufs, frames[..k]);
            first.events <= r.events && first.consumed == k && !first.failed
    decreases |frames|
  {
    hide Parse, OverCap, EventsOf, BuffersAfter;
    if k > 0 {
      RunsExtend(sanitize, BuffersAfter(bufs, frames[0]), frames[1..], k - 1);
      assert frames[..k][1..] == frames[1..][..k - 1];
    }
  }

  /** Some incarnation ends at an over-cap header. */
  predicate OverCapIn(incarnations: seq<Bytes>) {
    incarnations != [] && (OverCap(Parse(incarnations[0]).rest) || OverCapIn(incarnations[1..]))
  }

  lemma OverCapStep(bufs: map<StreamId, Bytes>, frames: seq<Frame>, id: StreamId)
    requires frames != [] && BuffersStuck(bufs) && !Rejects(bufs, frames[0])
    ensures OverCapIn(Continuing(BufferOf(bufs, id), Incarnations(frames, id)))
            <==> OverCapIn(Continuing(BufferOf(BuffersAfter(bufs, frames[0]), id), Incarnations(frames[1..], id)))
  {
    hide Parse, OverCap, Stuck;
    var f := frames[0];
    var buf, next := BufferOf(bufs, id), Incarnations(frames[1..], id);
    if f.Data? && f.id == id {
      assert buf + (f.payload + next[0]) == (buf + f.payload) + next[0];
      ParseExtends(buf + f.payload, next[0]);
    } else if f.RstStream? && f.id == id {
      EmptyIsStuck();
      StuckReadsNothing(buf);
      assert buf + [] == buf && [] + next[0] == next[0];
      assert Continuing(buf, [[]] + next)[1..] == next && Continuing([], next) == next;
    }
  }

  /** The direction fails exactly when some stream's own bytes, read alone, reach an over-cap header. */
  lemma {:induction false} FailsOnlyOnItsOwnBytes(sanitize: Fields -> Fields, bufs: map<StreamId, Bytes>, frames: seq<Frame>)
    requires BuffersStuck(bufs)
    ensures DecodeAll(sanitize, bufs, frames).failed
            <==> exists id: StreamId :: OverCapIn(Continuing(BufferOf(bufs, id), Incarnations(frames, id)))
    decreases |frames|
  {
    hide Parse, OverCap, Stuck, EventsOf;
    if frames == [] {
      forall id: StreamId ensures !OverCapIn(Continuing(BufferOf(bufs, id), Incarnations(frames, id))) {
        var buf := BufferOf(bufs, id);
        assert buf + [] == buf;
        EmptyIsStuck();
        StuckReadsNothing(buf);
      }
    } else if Rejects(bufs, frames[0]) {
      var f := frames[0];
      var buf, next := BufferOf(bufs, f.id), Incarnations(frames[1..], f.id);
      assert buf + (f.payload + next[0]) == (buf + f.payload) + next[0];
      ParseExtends(buf + f.payload, next[0]);
      assert OverCap(Parse(Continuing(buf, Incarnations(frames, f.id))[0]).rest);
    } else {
      BuffersStayStuck(bufs, frames[0]);
      FailsOnlyOnItsOwnBytes(sanitize, BuffersAfter(bufs, frames[0]), frames[1..]);
      forall id: StreamId
        ensures OverCapIn(Continuing(BufferOf(bufs, id), Incarnations(frames, id)))
                <==> OverCapIn(Continuing(BufferOf(BuffersAfter(bufs, frames[0]), id), Incarnations(frames[1..], id)))
      {
        OverCapStep(bufs, frames, id);
      }
    }
  }
}
