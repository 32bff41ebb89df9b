/**
 The recording side of a streamed interaction: one event log, split into two direction
 logs and two scalar events that only their seq numbers join (go/stream_session.go).
 */
module Recording {
  import opened Prelude
  import opened StreamModel

  datatype Direction = SendDir | RecvDir

  datatype ScrubInfo = ScrubInfo(adapterId: string, typ: string)

  type Scrub = (Direction, ScrubInfo, Bytes) -> Bytes

  function ScrubFrame(scrub: Option<Scrub>, dir: Direction, info: ScrubInfo, data: Bytes): Bytes {
    match scrub
    case None => data
    case Some(f) => f(dir, info, data)
  }

  // ---------------------------------------------------------------------------
  // The cassette
  // ---------------------------------------------------------------------------

  datatype Stored = Unary | Streamed(pair: StreamPair)

  datatype LoadError = CassetteMiss | ShapeMismatch | Malformed(error: ValidationError)

  /** A cassette directory: what is on file under (adapter id, fingerprint). */
  class FileCassette {
    var files: map<(string, string), Stored>

    constructor ()
      ensures files == map[]
    {
      files := map[];
    }

    method SaveStream(adapterId: string, fingerprint: string, pair: StreamPair) returns (err: Option<ValidationError>)
      modifies this
      ensures err.None? <==> ValidType(pair.req.typ) && Sequenced(pair)
      ensures err.Some? ==> Broken(pair, err.value)
      ensures files == if err.None? then old(files)[(adapterId, fingerprint) := Streamed(pair)] else old(files)
    {
      err := ValidateStreamPair(pair);
      if err.None? {
        files := files[(adapterId, fingerprint) := Streamed(pair)];
      }
    }

    method LoadStream(adapterId: string, fingerprint: string) returns (r: Result<StreamPair, LoadError>)
      ensures var name := (adapterId, fingerprint);
              match r
              case Ok(pair) => name in files && files[name] == Streamed(pair) && ValidType(pair.req.typ) && Sequenced(pair)
              case Err(CassetteMiss) => name !in files
              case Err(ShapeMismatch) => name in files && files[name].Unary?
              case Err(Malformed(e)) => name in files && files[name].Streamed? && Broken(files[name].pair, e)
    {
      var name := (adapterId, fingerprint);
      if name !in files {
        return Err(CassetteMiss);
      }
      if files[name].Unary? {
        return Err(ShapeMismatch);
      }
      var err := ValidateStreamPair(files[name].pair);
      r := if err.Some? then Err(Malformed(err.value)) else Ok(files[name].pair);
    }
  }

  // ---------------------------------------------------------------------------
  // Recording as a state machine
  // ---------------------------------------------------------------------------

  datatype RecConfig = RecConfig(
    adapterId: string, fingerprint: string, typ: string, reqPayload: Payload, scrub: Option<Scrub>)
  {
    function Scrubbed(dir: Direction, data: Bytes): Bytes {
      ScrubFrame(scrub, dir, ScrubInfo(adapterId, typ), data)
    }
  }

  datatype RecState = RecState(
    seqNo: nat, sends: seq<StreamFrame>, recvs: seq<StreamFrame>, halfClose: Option<StreamEvent>, finished: bool)

  const Opened := RecState(0, [], [], None, false)

  datatype Call =
    | SendCall(msg: Bytes, at: nat)
    | RecvCall(msg: Bytes, at: nat)
    | HalfCloseCall(at: nat)
    | FinishCall(payload: Option<Payload>, terminalErr: Option<string>, at: nat)

  function Step(cfg: RecConfig, st: RecState, c: Call): RecState {
    if st.finished then st
    else
      match c
      case SendCall(msg, at) =>
        var f := StreamFrame(st.seqNo, cfg.Scrubbed(SendDir, msg), false, Some(at));
        st.(sends := st.sends + [f], seqNo := st.seqNo + 1)
      case RecvCall(msg, at) =>
        var f := StreamFrame(st.seqNo, cfg.Scrubbed(RecvDir, msg), false, Some(at));
        st.(recvs := st.recvs + [f], seqNo := st.seqNo + 1)
      case HalfCloseCall(at) =>
        if st.halfClose.Some? then st
        else st.(halfClose := Some(StreamEvent(st.seqNo, Some(at))), seqNo := st.seqNo + 1)
      case FinishCall(_, _, _) => st.(finished := true, seqNo := st.seqNo + 1)
  }

  /** The pair that Finish builds. */
  function PairOf(cfg: RecConfig, st: RecState, c: Call): StreamPair
    requires c.FinishCall?
  {
    StreamPair(
      ReqStream(cfg.typ, st.sends, st.halfClose),
      RespStream(st.recvs, StreamEvent(st.seqNo, Some(c.at))),
      cfg.reqPayload,
      if c.payload.Some? then c.payload.value else map[],
      if c.terminalErr.Some? then c.terminalErr.value else "")
  }

  /** The pairs handed to the cassette by a call sequence. */
  function Saved(cfg: RecConfig, st: RecState, calls: seq<Call>): seq<StreamPair>
    decreases |calls|
  {
    if calls == [] then []
    else
      (if calls[0].FinishCall? && !st.finished then [PairOf(cfg, st, calls[0])] else [])
      + Saved(cfg, Step(cfg, st, calls[0]), calls[1..])
  }

  /** The state after calls that do not finish the recording. */
  function After(cfg: RecConfig, st: RecState, calls: seq<Call>): RecState
    decreases |calls|
  {
    if calls == [] then st else After(cfg, Step(cfg, st, calls[0]), calls[1..])
  }

  lemma {:induction false} SavedByLastCall(cfg: RecConfig, st: RecState, calls: seq<Call>, fin: Call)
    requires !st.finished && fin.FinishCall? && forall i :: 0 <= i < |calls| ==> !calls[i].FinishCall?
    ensures !After(cfg, st, calls).finished
    ensures Saved(cfg, st, calls + [fin]) == [PairOf(cfg, After(cfg, st, calls), fin)]
    decreases |calls|
  {
    hide PairOf;
    if calls == [] {
      assert calls + [fin] == [fin];
    } else {
      var next := Step(cfg, st, calls[0]);
      assert (calls + [fin])[1..] == calls[1..] + [fin];
      SavedByLastCall(cfg, next, calls[1..], fin);
      assert [] + Saved(cfg, next, calls[1..] + [fin]) == Saved(cfg, next, calls[1..] + [fin]);
    }
  }

  // ---------------------------------------------------------------------------
  // The recording object
  // ---------------------------------------------------------------------------

  datatype FinishError = AlreadyFinished | SaveFailed(error: ValidationError)

  class StreamRecording {
    const cassette: FileCassette
    const cfg: RecConfig
    var seqNo: nat
    var sends: seq<StreamFrame>
    var recvs: seq<StreamFrame>
    var halfClose: Option<StreamEvent>
    var finished: bool

    ghost function State(): RecState
      reads this
    {
      RecState(seqNo, sends, recvs, halfClose, finished)
    }

    ghost predicate Valid()
      reads this
    {
      Consistent(State())
    }

    constructor (cassette: FileCassette, cfg: RecConfig)
      ensures this.cassette == cassette && this.cfg == cfg && Valid() && State() == Opened
    {
      this.cassette, this.cfg := cassette, cfg;
      seqNo, sends, recvs, halfClose, finished := 0, [], [], None, false;
    }

    method RecordSend(message: Bytes, at: nat)
      requires Valid()
      modifies this
      ensures Valid() && State() == Step(cfg, old(State()), SendCall(message, at))
      ensures var stored := match cfg.scrub case None => message case Some(f) => f(SendDir, ScrubInfo(cfg.adapterId, cfg.typ), message);
              State() == if old(finished) then old(State())
                         else old(State()).(sends := old(sends) + [StreamFrame(old(seqNo), stored, false, Some(at))],
                                            seqNo := old(seqNo) + 1)
    {
      StepKeepsConsistent(cfg, State(), SendCall(message, at));
      if finished {
        return;
      }
      var msg := cfg.Scrubbed(SendDir, message);
      sends := sends + [StreamFrame(seqNo, msg, false, Some(at))];
      seqNo := seqNo + 1;
    }

    method RecordRecv(message: Bytes, at: nat)
      requires Valid()
      modifies this
      ensures Valid() && State() == Step(cfg, old(State()), RecvCall(message, at))
      ensures var stored := match cfg.scrub case None => message case Some(f) => f(RecvDir, ScrubInfo(cfg.adapterId, cfg.typ), message);
              State() == if old(finished) then old(State())
                         else old(State()).(recvs := old(recvs) + [StreamFrame(old(seqNo), stored, false, Some(at))],
                                            seqNo := old(seqNo) + 1)
    {
      StepKeepsConsistent(cfg, State(), RecvCall(message, at));
      if finished {
        return;
      }
      var msg := cfg.Scrubbed(RecvDir, message);
      recvs := recvs + [StreamFrame(seqNo, msg, false, Some(at))];
      seqNo := seqNo + 1;
    }

    method RecordHalfClose(at: nat)
      requires Valid()
      modifies this
      ensures Valid() && State() == Step(cfg, old(State()), HalfCloseCall(at))
      ensures State() == if old(finished) || old(halfClose).Some? then old(State())
                         else old(State()).(halfClose := Some(StreamEvent(old(seqNo), Some(at))), seqNo := old(seqNo) + 1)
    {
      StepKeepsConsistent(cfg, State(), HalfCloseCall(at));
      if finished || halfClose.Some? {
        return;
      }
      halfClose := Some(StreamEvent(seqNo, Some(at)));
      seqNo := seqNo + 1;
    }

    /** Saving can fail only for an unknown stream type. */
    method Finish(respPayload: Option<Payload>, terminalErr: Option<string>, at: nat) returns (err: Option<FinishError>)
      requires Valid()
      modifies this, cassette
      ensures var c := FinishCall(respPayload, terminalErr, at);
              && Valid() && State() == Step(cfg, old(State()), c)
              && err == (if old(finished) then Some(AlreadyFinished)
                         else if !ValidType(cfg.typ) then Some(SaveFailed(BadType))
                         else None)
              && cassette.files == if err.Some? then old(cassette.files)
                   else old(cassette.files)[(cfg.adapterId, cfg.fingerprint) := Streamed(PairOf(cfg, old(State()), c))]
      ensures err.None? ==>
                var name := (cfg.adapterId, cfg.fingerprint);
                && name in cassette.files
                && cassette.files[name] == Streamed(StreamPair(
                     ReqStream(cfg.typ, old(sends), old(halfClose)),
                     RespStream(old(recvs), StreamEvent(old(seqNo), Some(at))),
                     cfg.reqPayload,
                     if respPayload.None? then map[] else respPayload.value,
                     if terminalErr.None? then "" else terminalErr.value))
    {
      if finished {
        return Some(AlreadyFinished);
      }
      ghost var was := State();
      finished := true;
      var end := StreamEvent(seqNo, Some(at));
      seqNo := seqNo + 1;
      var errText := if terminalErr.Some? then terminalErr.value else "";
      var payload := if respPayload.Some? then respPayload.value else map[];
      var pair := StreamPair(ReqStream(cfg.typ, sends, halfClose), RespStream(recvs, end), cfg.reqPayload, payload, errText);
      FinishedPairIsValid(cfg, was, FinishCall(respPayload, terminalErr, at));
      var saveErr := cassette.SaveStream(cfg.adapterId, cfg.fingerprint, pair);
      err := if saveErr.Some? then Some(SaveFailed(saveErr.value)) else None;
    }
  }

  // ---------------------------------------------------------------------------
  // Numbering: every reachable recording is dense, and every pair it saves is valid
  // ---------------------------------------------------------------------------

  function UsedSeqs(st: RecState): seq<int> {
    SeqsOf(st.sends) + SeqsOf(st.recvs) + EventSeq(st.halfClose)
  }

  ghost predicate Below(s: seq<int>, n: int) {
    forall i :: 0 <= i < |s| ==> 0 <= s[i] < n
  }

  /** While recording, the numbers used are exactly 0..seqNo-1, each once. */
  ghost predicate Consistent(st: RecState) {
    !st.finished ==>
      && Ascending(SeqsOf(st.sends)) && Ascending(SeqsOf(st.recvs))
      && Distinct(UsedSeqs(st)) && Below(UsedSeqs(st), st.seqNo) && |UsedSeqs(st)| == st.seqNo
  }

  /** A number above all others can be put in anywhere. */
  lemma FreshNumber(a: seq<int>, b: seq<int>, n: nat)
    requires Distinct(a + b) && Below(a + b, n)
    ensures Distinct(a + [n] + b) && Below(a + [n] + b, n + 1)
  {
    assert forall i :: 0 <= i < |a| ==> a[i] == (a + b)[i];
    assert forall i :: 0 <= i < |b| ==> b[i] == (a + b)[|a| + i];
  }

  lemma FreshNumberAscends(a: seq<int>, b: seq<int>, c: seq<int>, n: nat)
    requires Ascending(b) && Below(a + b + c, n)
    ensures Ascending(b + [n])
  {
    assert forall i :: 0 <= i < |b| ==> b[i] == (a + b + c)[|a| + i];
  }

  lemma OpenedIsConsistent()
    ensures Consistent(Opened)
  {
  }

  lemma StepKeepsConsistent(cfg: RecConfig, st: RecState, c: Call)
    requires Consistent(st)
    ensures Consistent(Step(cfg, st, c))
  {
    if !st.finished && !c.FinishCall? {
      var next := Step(cfg, st, c);
      var a, b, c', n := SeqsOf(st.sends), SeqsOf(st.recvs), EventSeq(st.halfClose), st.seqNo;
      assert [] + a + (b + c') == a + (b + c') == a + b + c' == a + b + c' + [];
      match c {
        case SendCall(_, _) =>
          assert SeqsOf(next.sends) == a + [n] && UsedSeqs(next) == a + [n] + (b + c');
          FreshNumber(a, b + c', n);
          FreshNumberAscends([], a, b + c', n);
        case RecvCall(_, _) =>
          assert SeqsOf(next.recvs) == b + [n] && UsedSeqs(next) == a + b + [n] + c';
          FreshNumber(a + b, c', n);
          FreshNumberAscends(a, b, c', n);
        case HalfCloseCall(_) =>
          if st.halfClose.None? {
            assert UsedSeqs(next) == a + b + c' + [n] + [];
            FreshNumber(a + b + c', [], n);
          }
      }
    }
  }

  lemma FinishedPairIsValid(cfg: RecConfig, st: RecState, c: Call)
    requires Consistent(st) && !st.finished && c.FinishCall?
    ensures Sequenced(PairOf(cfg, st, c)) && Dense(AllSeqs(PairOf(cfg, st, c)))
  {
    var p := PairOf(cfg, st, c);
    assert AllSeqs(p) == UsedSeqs(st) + [st.seqNo];
    DenseByCounting(AllSeqs(p), st.seqNo) by {
      assert AllSeqs(p)[|AllSeqs(p)| - 1] == st.seqNo;
    }
  }

  /** Whatever is called on a recording, in any order: at most one pair is saved, and it is valid and dense. */
  lemma {:induction false} SavedPairsAreValid(cfg: RecConfig, st: RecState, calls: seq<Call>)
    requires Consistent(st)
    ensures |Saved(cfg, st, calls)| <= if st.finished then 0 else 1
    ensures forall p :: p in Saved(cfg, st, calls) ==> Sequenced(p) && Dense(AllSeqs(p)) && p.req.typ == cfg.typ
    decreases |calls|
  {
    if calls != [] {
      StepKeepsConsistent(cfg, st, calls[0]);
      SavedPairsAreValid(cfg, Step(cfg, st, calls[0]), calls[1..]);
      if calls[0].FinishCall? && !st.finished {
        FinishedPairIsValid(cfg, st, calls[0]);
      }
    }
  }

  // ---------------------------------------------------------------------------
  // Arrival order: merging the logs by seq gives back what was recorded
  // ---------------------------------------------------------------------------

  datatype LogEvent =
    | Sent(msg: Bytes, at: Option<int>)
    | Received(msg: Bytes, at: Option<int>)
    | HalfClosed(at: Option<int>)
    | Ended(at: Option<int>)

  datatype Tagged = Tagged(seqNo: int, ev: LogEvent)

  function SentLog(frames: seq<StreamFrame>): (r: seq<Tagged>)
    ensures |r| == |frames|
  {
    seq(|frames|, i requires 0 <= i < |frames| => Tagged(frames[i].seqNo, Sent(frames[i].message, frames[i].atMs)))
  }

  function ReceivedLog(frames: seq<StreamFrame>): (r: seq<Tagged>)
    ensures |r| == |frames|
  {
    seq(|frames|, i requires 0 <= i < |frames| => Tagged(frames[i].seqNo, Received(frames[i].message, frames[i].atMs)))
  }

  function HalfCloseLog(e: Option<StreamEvent>): seq<Tagged> {
    if e.Some? then [Tagged(e.value.seqNo, HalfClosed(e.value.atMs))] else []
  }

  /** Merge two logs by seq. */
  function Merge(a: seq<Tagged>, b: seq<Tagged>): seq<Tagged>
    decreases |a| + |b|
  {
    if a == [] then b
    else if b == [] then a
    else if a[0].seqNo < b[0].seqNo then [a[0]] + Merge(a[1..], b)
    else [b[0]] + Merge(a, b[1..])
  }

  /** The interaction as one log, recovered from the pair by seq alone. */
  function Arrival(p: StreamPair): seq<Tagged> {
    Merge(Merge(SentLog(p.req.frames), ReceivedLog(p.resp.frames)),
          HalfCloseLog(p.req.halfClose) + [Tagged(p.resp.end.seqNo, Ended(p.resp.end.atMs))])
  }

  /** The events a recording accepts: each message through the hook once, one half-close, nothing after the end. */
  function Accepted(cfg: RecConfig, calls: seq<Call>, halfClosed: bool): seq<LogEvent> {
    if calls == [] then []
    else
      var info := ScrubInfo(cfg.adapterId, cfg.typ);
      match calls[0]
      case SendCall(msg, at) =>
        [Sent(match cfg.scrub case None => msg case Some(f) => f(SendDir, info, msg), Some(at))] + Accepted(cfg, calls[1..], halfClosed)
      case RecvCall(msg, at) =>
        [Received(match cfg.scrub case None => msg case Some(f) => f(RecvDir, info, msg), Some(at))] + Accepted(cfg, calls[1..], halfClosed)
      case HalfCloseCall(at) => (if halfClosed then [] else [HalfClosed(Some(at))]) + Accepted(cfg, calls[1..], true)
      case FinishCall(_, _, at) => [Ended(Some(at))]
  }

  ghost predicate AllBelow(log: seq<Tagged>, n: int) {
    forall i :: 0 <= i < |log| ==> log[i].seqNo < n
  }

  lemma {:induction false} MergeAppend(a: seq<Tagged>, b: seq<Tagged>, x: Tagged)
    requires AllBelow(a, x.seqNo) && AllBelow(b, x.seqNo)
    ensures Merge(a + [x], b) == Merge(a, b) + [x]
    ensures Merge(a, b + [x]) == Merge(a, b) + [x]
    ensures AllBelow(Merge(a, b), x.seqNo)
    decreases |a| + |b|
  {
    if a == [] {
      assert a + [x] == [x];
      MergeOne(b, x);
    } else if b == [] {
      assert b + [x] == [x];
      MergeOne(a, x);
    } else {
      assert (a + [x])[1..] == a[1..] + [x] && (b + [x])[1..] == b[1..] + [x];
      if a[0].seqNo < b[0].seqNo {
        MergeAppend(a[1..], b, x);
      } else {
        MergeAppend(a, b[1..], x);
      }
    }
  }

  lemma {:induction false} MergeOne(a: seq<Tagged>, x: Tagged)
    requires AllBelow(a, x.seqNo)
    ensures Merge(a, [x]) == a + [x] == Merge([x], a)
    decreases |a|
  {
    if a != [] {
      MergeOne(a[1..], x);
    }
  }

  /** The log of a recording still open. */
  function OpenLog(st: RecState): seq<Tagged> {
    Merge(Merge(SentLog(st.sends), ReceivedLog(st.recvs)), HalfCloseLog(st.halfClose))
  }

  ghost predicate LogsBelow(st: RecState) {
    AllBelow(SentLog(st.sends), st.seqNo) && AllBelow(ReceivedLog(st.recvs), st.seqNo) && AllBelow(HalfCloseLog(st.halfClose), st.seqNo)
  }

  /** The event a call adds, if it adds one. */
  function Adds(cfg: RecConfig, st: RecState, c: Call): seq<LogEvent> {
    match c
    case SendCall(msg, at) => [Sent(cfg.Scrubbed(SendDir, msg), Some(at))]
    case RecvCall(msg, at) => [Received(cfg.Scrubbed(RecvDir, msg), Some(at))]
    case HalfCloseCall(at) => if st.halfClose.Some? then [] else [HalfClosed(Some(at))]
    case FinishCall(_, _, at) => [Ended(Some(at))]
  }

  function Numbered(evs: seq<LogEvent>, n: int): seq<Tagged> {
    seq(|evs|, i requires 0 <= i < |evs| => Tagged(n + i, evs[i]))
  }

  lemma StepAppendsToLog(cfg: RecConfig, st: RecState, c: Call)
    requires LogsBelow(st) && !st.finished && !c.FinishCall?
    ensures LogsBelow(Step(cfg, st, c))
    ensures OpenLog(Step(cfg, st, c)) == OpenLog(st) + Numbered(Adds(cfg, st, c), st.seqNo)
    ensures Step(cfg, st, c).seqNo == st.seqNo + |Adds(cfg, st, c)|
  {
    hide Merge;
    var next := Step(cfg, st, c);
    var s, r, h := SentLog(st.sends), ReceivedLog(st.recvs), HalfCloseLog(st.halfClose);
    if Adds(cfg, st, c) != [] {
      var x := Tagged(st.seqNo, Adds(cfg, st, c)[0]);
      MergeAppend(s, r, x);
      MergeAppend(Merge(s, r), h, x);
      assert Numbered(Adds(cfg, st, c), st.seqNo) == [x];
      match c {
        case SendCall(_, _) => assert SentLog(next.sends) == s + [x];
        case RecvCall(_, _) => assert ReceivedLog(next.recvs) == r + [x];
        case HalfCloseCall(_) => assert HalfCloseLog(next.halfClose) == h + [x];
      }
    } else {
      assert OpenLog(st) + [] == OpenLog(st);
    }
  }

  lemma FinishAppendsToLog(cfg: RecConfig, st: RecState, c: Call)
    requires LogsBelow(st) && c.FinishCall?
    ensures Arrival(PairOf(cfg, st, c)) == OpenLog(st) + Numbered(Adds(cfg, st, c), st.seqNo)
  {
    hide Merge;
    var x := Tagged(st.seqNo, Ended(Some(c.at)));
    MergeAppend(SentLog(st.sends), ReceivedLog(st.recvs), x);
    MergeAppend(Merge(SentLog(st.sends), ReceivedLog(st.recvs)), HalfCloseLog(st.halfClose), x);
    assert Numbered(Adds(cfg, st, c), st.seqNo) == [x];
  }

  lemma NumberedConcat(a: seq<LogEvent>, b: seq<LogEvent>, n: int)
    ensures Numbered(a + b, n) == Numbered(a, n) + Numbered(b, n + |a|)
  {
  }

  lemma SavedUnrolled(cfg: RecConfig, st: RecState, calls: seq<Call>)
    requires !st.finished && Saved(cfg, st, calls) != []
    ensures calls != []
    ensures if calls[0].FinishCall? then Saved(cfg, st, calls)[0] == PairOf(cfg, st, calls[0])
            else !Step(cfg, st, calls[0]).finished && Saved(cfg, st, calls) == Saved(cfg, Step(cfg, st, calls[0]), calls[1..])
  {
  }

  /** What the finishing call gives the saved pair, beside the open's own type and payload. */
  lemma {:induction false} FieldsOfSaved(cfg: RecConfig, st: RecState, calls: seq<Call>, k: nat)
    requires !st.finished && k < |calls| && calls[k].FinishCall? && forall i :: 0 <= i < k ==> !calls[i].FinishCall?
    ensures Saved(cfg, st, calls) != []
    ensures var p := Saved(cfg, st, calls)[0];
            && p.req.typ == cfg.typ && p.reqPayload == cfg.reqPayload
            && p.respPayload == (match calls[k].payload case None => map[] case Some(m) => m)
            && p.recordedErr == (match calls[k].terminalErr case None => "" case Some(text) => text)
            && p.resp.end.atMs == Some(calls[k].at)
    decreases k
  {
    if k > 0 {
      FieldsOfSaved(cfg, Step(cfg, st, calls[0]), calls[1..], k - 1);
    }
  }

  lemma AcceptedUnrolled(cfg: RecConfig, st: RecState, calls: seq<Call>)
    requires !st.finished && calls != []
    ensures Accepted(cfg, calls, st.halfClose.Some?)
            == if calls[0].FinishCall? then Adds(cfg, st, calls[0])
               else Adds(cfg, st, calls[0]) + Accepted(cfg, calls[1..], Step(cfg, st, calls[0]).halfClose.Some?)
  {
    var later := Accepted(cfg, calls[1..], Step(cfg, st, calls[0]).halfClose.Some?);
    assert [] + later == later;
  }

  lemma {:induction false} ArrivalFrom(cfg: RecConfig, st: RecState, calls: seq<Call>)
    requires LogsBelow(st) && !st.finished && Saved(cfg, st, calls) != []
    ensures Arrival(Saved(cfg, st, calls)[0])
            == OpenLog(st) + Numbered(Accepted(cfg, calls, st.halfClose.Some?), st.seqNo)
    decreases |calls|
  {
    hide Merge, Arrival, OpenLog, Saved, Accepted, Adds, Numbered, LogsBelow, Step;
    SavedUnrolled(cfg, st, calls);
    AcceptedUnrolled(cfg, st, calls);
    var c := calls[0];
    if c.FinishCall? {
      FinishAppendsToLog(cfg, st, c);
    } else {
      var next := Step(cfg, st, c);
      StepAppendsToLog(cfg, st, c);
      ArrivalFrom(cfg, next, calls[1..]);
      var later := Accepted(cfg, calls[1..], next.halfClose.Some?);
      NumberedConcat(Adds(cfg, st, c), later, st.seqNo);
    }
  }

  ghost predicate ReachesTerminal(calls: seq<Call>) {
    exists i :: 0 <= i < |calls| && calls[i].FinishCall?
  }

  lemma {:induction false} OnlyFinishSaves(cfg: RecConfig, st: RecState, calls: seq<Call>)
    requires !st.finished
    ensures Saved(cfg, st, calls) != [] <==> ReachesTerminal(calls)
    decreases |calls|
  {
    if calls != [] && !calls[0].FinishCall? {
      OnlyFinishSaves(cfg, Step(cfg, st, calls[0]), calls[1..]);
      if ReachesTerminal(calls) {
        var i :| 0 <= i < |calls| && calls[i].FinishCall?;
        assert calls[1..][i - 1].FinishCall?;
      }
    }
  }

  /**
   For every call sequence: a pair is saved exactly when a terminal is reached, and merging
   that one pair by seq gives back the accepted events in arrival order, numbered 0, 1, 2, ...
   */
  lemma ArrivalIsRecoverable(cfg: RecConfig, calls: seq<Call>)
    ensures if ReachesTerminal(calls) then
              && |Saved(cfg, Opened, calls)| == 1
              && Arrival(Saved(cfg, Opened, calls)[0]) == Numbered(Accepted(cfg, calls, false), 0)
            else
              Saved(cfg, Opened, calls) == []
  {
    hide Arrival, Saved, Accepted, ReachesTerminal, Consistent;
    OpenedIsConsistent();
    OnlyFinishSaves(cfg, Opened, calls);
    SavedPairsAreValid(cfg, Opened, calls);
    if ReachesTerminal(calls) {
      ArrivalFrom(cfg, Opened, calls);
      assert OpenLog(Opened) == [];
    }
  }
}
