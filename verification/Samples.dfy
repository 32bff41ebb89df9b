/** Concrete events for the counterexamples: one method, opened, answered and ended with status 0. */
module Samples {
  import opened Prelude
  import opened Demux
  import opened GrpcHeaders
  import opened Tracker

  const OPENING: Fields := [(":path", "/S/M")]
  const TRAILERS: Fields := [("grpc-status", "0")]

  function Opening(id: StreamId): Observed {
    Observed(ClientToServer, HeadersEvent(id, OPENING, false))
  }

  function Closing(id: StreamId): Observed {
    Observed(ServerToClient, HeadersEvent(id, TRAILERS, true))
  }

  lemma OpeningHeaders()
    ensures SplitPath(HeaderValue(OPENING, ":path")) == Some(("S", "M")) && !IsCompressed(OPENING)
  {
    var path := "/S/M";
    assert HeaderValue(OPENING, ":path") == path;
    assert path[1..] == "S/M" && "S/M"[..2] == "S/" && "S/"[..1] == "S";
    assert LastIndex("S/", '/') == 1;
    assert LastIndex("S/M", '/') == 1;
    assert "S/M"[2..] == "M" && "S/M"[..1] == "S";
    OtherHeader(OPENING[0], "grpc-encoding");
  }

  lemma OtherHeader(field: (string, string), name: string)
    requires field.0 != name
    ensures HeaderValue([field], name) == "" && !HasHeader([field], name)
  {
    assert [field][1..] == [];
  }

  lemma ClosingHeaders()
    ensures GrpcStatus(TRAILERS) == Some((OK_CODE, [])) && !IsCompressed(TRAILERS)
  {
    assert HeaderValue(TRAILERS, "grpc-status") == "0";
    OtherHeader(TRAILERS[0], "grpc-message");
    OtherHeader(TRAILERS[0], "grpc-encoding");
    assert "0"[..0] == "" && DigitsValue("") == Some(0) && DigitsValue("0") == Some(0);
    assert Atoi("0") == Some(0);
  }

  function Answer(id: StreamId, msg: Bytes): Observed {
    Observed(ServerToClient, MessageEvent(id, Some(msg), false))
  }

  /** A request; with `end`, the client's last DATA frame. */
  function Request(id: StreamId, msg: Bytes, end: bool): Observed {
    Observed(ClientToServer, MessageEvent(id, Some(msg), end))
  }

  /** The track of the method once it is named. */
  function Named(log: seq<RecEvent>): Track {
    Track("S", "M", log, false)
  }

  function RpcWith(log: seq<RecEvent>): Rpc {
    Rpc("S", "M", log, OK_CODE, [])
  }

  const EmptyRpc := RpcWith([])

  lemma OpeningStep(tracks: Tracks, id: StreamId)
    requires id != 0 && TrackOf(tracks, id) == NewTrack
    ensures SavedBy(tracks, Opening(id)).None?
    ensures TracksAfter(tracks, Opening(id)) == tracks[id := Named([])]
  {
    hide SplitPath, HeaderValue, IsCompressed;
    OpeningHeaders();
  }

  lemma ClosingStep(tracks: Tracks, id: StreamId, log: seq<RecEvent>)
    requires id != 0 && id in tracks && tracks[id] == Named(log)
    ensures SavedBy(tracks, Closing(id)) == Some(RpcWith(log))
    ensures TracksAfter(tracks, Closing(id)) == tracks - {id}
  {
    hide SplitPath, HeaderValue, IsCompressed, GrpcStatus;
    ClosingHeaders();
  }

  lemma AnswerStep(tracks: Tracks, id: StreamId, msg: Bytes, log: seq<RecEvent>)
    requires id != 0 && id in tracks && tracks[id] == Named(log)
    ensures SavedBy(tracks, Answer(id, msg)).None?
    ensures TracksAfter(tracks, Answer(id, msg)) == tracks[id := Named(log + [EvRecv(msg)])]
  {
  }

  lemma OnlyRequestStep(tracks: Tracks, id: StreamId, msg: Bytes)
    requires id != 0 && id in tracks && tracks[id] == Named([])
    ensures SavedBy(tracks, Request(id, msg, true)).None?
    ensures TracksAfter(tracks, Request(id, msg, true)) == tracks[id := Named([EvSend(msg), EvHalfClose])]
  {
    assert [] + [EvSend(msg)] == [EvSend(msg)];
    LogSnoc([], EvSend(msg));
    assert [EvSend(msg)] + [EvHalfClose] == [EvSend(msg), EvHalfClose];
  }

  /** After its terminal a stream is unknown again, and its requests are forgotten. */
  lemma LateRequestStep(tracks: Tracks, id: StreamId, msg: Bytes, end: bool)
    requires id != 0 && TrackOf(tracks, id) == NewTrack
    ensures SavedBy(tracks, Request(id, msg, end)).None?
    ensures TracksAfter(tracks, Request(id, msg, end)) == tracks[id := NewTrack]
  {
  }

  /** Before the stream is named, its answers and its end are forgotten. */
  lemma EarlyStep(tracks: Tracks, id: StreamId, msg: Bytes)
    requires id != 0 && TrackOf(tracks, id) == NewTrack
    ensures SavedBy(tracks, Answer(id, msg)).None? && SavedBy(tracks, Closing(id)).None?
    ensures TracksAfter(tracks, Answer(id, msg)) == tracks[id := NewTrack] == TracksAfter(tracks, Closing(id))
  {
    hide HeaderValue, IsCompressed, GrpcStatus;
  }
}
