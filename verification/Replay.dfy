/**
 The replay side: serving a recorded pair to a client whose operations may interleave
 differently (go/stream_session.go, rs/src/stream_session.rs).
 */
module Replay {
  import opened Prelude
  import opened StreamModel
  import R = Recording

  /** SHA-256 is an arbitrary function here: it only labels a mismatch. */
  datatype ReplayConfig = ReplayConfig(pair: StreamPair, scrub: Option<R.Scrub>, info: R.ScrubInfo, sha: Bytes -> string)
  {
    function Sends(): seq<StreamFrame> { pair.req.frames }

    function Recvs(): seq<StreamFrame> { pair.resp.frames }

    function Scrubbed(msg: Bytes): Bytes {
      R.ScrubFrame(scrub, R.SendDir, info, msg)
    }

    function Terminal(): ReplayError {
      if pair.recordedErr != "" then RecordedError(pair.recordedErr) else EndOfStream
    }
  }

  datatype Detail = Digests(want: string, got: string) | Counts(sent: nat, recorded: nat)

  datatype Mismatch = Mismatch(op: string, ordinal: nat, detail: Detail)

  datatype ReplayError = EndOfStream | RecordedError(text: string) | StreamMismatch(m: Mismatch)

  datatype Op = SendOp(msg: Bytes) | HalfCloseOp | RecvOp

  datatype Outcome = Accepted | Delivered(msg: Bytes) | Failed(err: ReplayError)

  datatype ReplayState = ReplayState(sendIdx: nat, recvIdx: nat, mismatch: Option<Mismatch>)

  const Opened := ReplayState(0, 0, None)

  function SendMismatch(cfg: ReplayConfig, i: nat, msg: Bytes): Mismatch
    requires i < |cfg.Sends()|
  {
    Mismatch("send", i, Digests(cfg.sha(cfg.Sends()[i].message), cfg.sha(cfg.Scrubbed(msg))))
  }

  function HalfCloseMismatch(cfg: ReplayConfig, i: nat): Mismatch {
    Mismatch("half_close", i, Counts(i, |cfg.Sends()|))
  }

  function Step(cfg: ReplayConfig, st: ReplayState, op: Op): (ReplayState, Outcome) {
    if st.mismatch.Some? then (st, Failed(StreamMismatch(st.mismatch.value)))
    else
      match op
      case SendOp(msg) =>
        if st.sendIdx >= |cfg.Sends()| then (st, Failed(cfg.Terminal()))
        else if cfg.Scrubbed(msg) != cfg.Sends()[st.sendIdx].message then
          var m := SendMismatch(cfg, st.sendIdx, msg);
          (st.(mismatch := Some(m)), Failed(StreamMismatch(m)))
        else (st.(sendIdx := st.sendIdx + 1), Accepted)
      case HalfCloseOp =>
        if st.sendIdx < |cfg.Sends()| then
          var m := HalfCloseMismatch(cfg, st.sendIdx);
          (st.(mismatch := Some(m)), Failed(StreamMismatch(m)))
        else (st, Accepted)
      case RecvOp =>
        if st.recvIdx >= |cfg.Recvs()| then (st, Failed(cfg.Terminal()))
        else (st.(recvIdx := st.recvIdx + 1), Delivered(cfg.Recvs()[st.recvIdx].message))
  }

  /** The state after a run, and the outcome of an operation after a run. */
  function StateAfter(cfg: ReplayConfig, ops: seq<Op>): ReplayState {
    if ops == [] then Opened
    else Step(cfg, StateAfter(cfg, ops[..|ops| - 1]), ops[|ops| - 1]).0
  }

  function OutcomeAt(cfg: ReplayConfig, ops: seq<Op>, k: nat): Outcome
    requires k < |ops|
  {
    Step(cfg, StateAfter(cfg, ops[..k]), ops[k]).1
  }

  // ---------------------------------------------------------------------------
  // The replay object
  // ---------------------------------------------------------------------------

  class StreamReplay {
    const cfg: ReplayConfig
    var sendIdx: nat
    var recvIdx: nat
    var mismatch: Option<Mismatch>

    ghost function State(): ReplayState
      reads this
    {
      ReplayState(sendIdx, recvIdx, mismatch)
    }

    constructor (cfg: ReplayConfig)
      ensures this.cfg == cfg && State() == Opened
    {
      this.cfg := cfg;
      sendIdx, recvIdx, mismatch := 0, 0, None;
    }

    method Send(message: Bytes) returns (r: Outcome)
      modifies this
      ensures (State(), r) == Step(cfg, old(State()), SendOp(message))
      ensures var i, shown := old(sendIdx), match cfg.scrub case None => message case Some(f) => f(R.SendDir, cfg.info, message);
              if old(mismatch).Some? then
                State() == old(State()) && r == Failed(StreamMismatch(old(mismatch).value))
              else if i >= |cfg.pair.req.frames| then
                State() == old(State()) && r == Failed(cfg.Terminal())
              else if shown == cfg.pair.req.frames[i].message then
                State() == old(State()).(sendIdx := i + 1) && r == Accepted
              else
                var m := Mismatch("send", i, Digests(cfg.sha(cfg.pair.req.frames[i].message), cfg.sha(shown)));
                State() == old(State()).(mismatch := Some(m)) && r == Failed(StreamMismatch(m))
    {
      if mismatch.Some? {
        return Failed(StreamMismatch(mismatch.value));
      }
      var i := sendIdx;
      if i >= |cfg.pair.req.frames| {
        return Failed(cfg.Terminal());
      }
      var scrubbed := R.ScrubFrame(cfg.scrub, R.SendDir, cfg.info, message);
      var recorded := cfg.pair.req.frames[i].message;
      if scrubbed != recorded {
        mismatch := Some(Mismatch("send", i, Digests(cfg.sha(recorded), cfg.sha(scrubbed))));
        return Failed(StreamMismatch(mismatch.value));
      }
      sendIdx := sendIdx + 1;
      r := Accepted;
    }

    method HalfClose() returns (r: Outcome)
      modifies this
      ensures (State(), r) == Step(cfg, old(State()), HalfCloseOp)
      ensures var i, recorded := old(sendIdx), |cfg.pair.req.frames|;
              if old(mismatch).Some? then
                State() == old(State()) && r == Failed(StreamMismatch(old(mismatch).value))
              else if i < recorded then
                var m := Mismatch("half_close", i, Counts(i, recorded));
                State() == old(State()).(mismatch := Some(m)) && r == Failed(StreamMismatch(m))
              else
                State() == old(State()) && r == Accepted
    {
      if mismatch.Some? {
        return Failed(StreamMismatch(mismatch.value));
      }
      var s := |cfg.pair.req.frames|;
      if sendIdx < s {
        mismatch := Some(Mismatch("half_close", sendIdx, Counts(sendIdx, s)));
        return Failed(StreamMismatch(mismatch.value));
      }
      r := Accepted;
    }

    method Recv() returns (r: Outcome)
      modifies this
      ensures (State(), r) == Step(cfg, old(State()), RecvOp)
    {
      if mismatch.Some? {
        return Failed(StreamMismatch(mismatch.value));
      }
      if recvIdx >= |cfg.pair.resp.frames| {
        return Failed(cfg.Terminal());
      }
      r := Delivered(cfg.pair.resp.frames[recvIdx].message);
      recvIdx := recvIdx + 1;
    }
  }

  // ---------------------------------------------------------------------------
  // What a run does, read off the operations alone
  // ---------------------------------------------------------------------------

  function SendsIn(ops: seq<Op>): nat {
    if ops == [] then 0 else SendsIn(ops[..|ops| - 1]) + if ops[|ops| - 1].SendOp? then 1 else 0
  }

  function RecvsIn(ops: seq<Op>): nat {
    if ops == [] then 0 else RecvsIn(ops[..|ops| - 1]) + if ops[|ops| - 1].RecvOp? then 1 else 0
  }

  function Min(a: nat, b: nat): nat {
    if a < b then a else b
  }

  /** The operation diverges from the recording: a send at i < S that differs, or a half-close before S sends. */
  predicate Diverges(cfg: ReplayConfig, before: seq<Op>, op: Op) {
    var i := SendsIn(before);
    match op
    case SendOp(msg) => i < |cfg.Sends()| && cfg.Scrubbed(msg) != cfg.Sends()[i].message
    case HalfCloseOp => i < |cfg.Sends()|
    case RecvOp => false
  }

  function MismatchOf(cfg: ReplayConfig, before: seq<Op>, op: Op): Mismatch
    requires Diverges(cfg, before, op)
  {
    match op
    case SendOp(msg) => SendMismatch(cfg, SendsIn(before), msg)
    case HalfCloseOp => HalfCloseMismatch(cfg, SendsIn(before))
  }

  ghost predicate Clean(cfg: ReplayConfig, ops: seq<Op>) {
    forall j :: 0 <= j < |ops| ==> !Diverges(cfg, ops[..j], ops[j])
  }

  /** What an operation gets while nothing has diverged. */
  function Served(cfg: ReplayConfig, before: seq<Op>, op: Op): Outcome {
    match op
    case SendOp(_) => if SendsIn(before) < |cfg.Sends()| then Accepted else Failed(cfg.Terminal())
    case HalfCloseOp => Accepted
    case RecvOp =>
      var j := RecvsIn(before);
      if j < |cfg.Recvs()| then Delivered(cfg.Recvs()[j].message) else Failed(cfg.Terminal())
  }

  lemma CleanPrefix(cfg: ReplayConfig, ops: seq<Op>, k: nat)
    requires k <= |ops| && Clean(cfg, ops)
    ensures Clean(cfg, ops[..k])
  {
    forall j | 0 <= j < k ensures !Diverges(cfg, ops[..k][..j], ops[..k][j]) {
      assert ops[..k][..j] == ops[..j];
    }
  }

  lemma {:induction false} CleanState(cfg: ReplayConfig, ops: seq<Op>)
    requires Clean(cfg, ops)
    ensures StateAfter(cfg, ops)
            == ReplayState(Min(SendsIn(ops), |cfg.Sends()|), Min(RecvsIn(ops), |cfg.Recvs()|), None)
  {
    if ops != [] {
      CleanPrefix(cfg, ops, |ops| - 1);
      CleanState(cfg, ops[..|ops| - 1]);
    }
  }

  /** Once a mismatch is set, nothing changes any more. */
  lemma {:induction false} Frozen(cfg: ReplayConfig, ops: seq<Op>, j: nat)
    requires j <= |ops| && StateAfter(cfg, ops[..j]).mismatch.Some?
    ensures StateAfter(cfg, ops) == StateAfter(cfg, ops[..j])
  {
    if j < |ops| {
      var front := ops[..|ops| - 1];
      assert front[..j] == ops[..j];
      Frozen(cfg, front, j);
    } else {
      assert ops[..j] == ops;
    }
  }

  lemma FirstDivergence(cfg: ReplayConfig, ops: seq<Op>, j: nat)
    requires j < |ops| && Clean(cfg, ops[..j]) && Diverges(cfg, ops[..j], ops[j])
    ensures var m := MismatchOf(cfg, ops[..j], ops[j]);
            && OutcomeAt(cfg, ops, j) == Failed(StreamMismatch(m))
            && StateAfter(cfg, ops[..j + 1]) == StateAfter(cfg, ops[..j]).(mismatch := Some(m))
  {
    CleanState(cfg, ops[..j]);
    assert ops[..j + 1][..j] == ops[..j];
  }

  /**
   Every outcome of every run. Until an operation diverges each gets what the recording
   says; from the first divergence on, every operation returns that same mismatch and the
   state no longer changes.
   */
  lemma ReplayOutcomes(cfg: ReplayConfig, ops: seq<Op>, k: nat)
    requires k < |ops|
    ensures Clean(cfg, ops[..k + 1]) ==> OutcomeAt(cfg, ops, k) == Served(cfg, ops[..k], ops[k])
    ensures forall j :: 0 <= j <= k && Clean(cfg, ops[..j]) && Diverges(cfg, ops[..j], ops[j]) ==>
              && OutcomeAt(cfg, ops, k) == Failed(StreamMismatch(MismatchOf(cfg, ops[..j], ops[j])))
              && StateAfter(cfg, ops[..k + 1]) == StateAfter(cfg, ops[..j + 1])
  {
    if Clean(cfg, ops[..k + 1]) {
      CleanPrefix(cfg, ops[..k + 1], k);
      assert ops[..k + 1][..k] == ops[..k] && ops[..k + 1][k] == ops[k];
      CleanState(cfg, ops[..k]);
    }
    forall j | 0 <= j <= k && Clean(cfg, ops[..j]) && Diverges(cfg, ops[..j], ops[j])
      ensures && OutcomeAt(cfg, ops, k) == Failed(StreamMismatch(MismatchOf(cfg, ops[..j], ops[j])))
              && StateAfter(cfg, ops[..k + 1]) == StateAfter(cfg, ops[..j + 1])
    {
      FirstDivergence(cfg, ops, j);
      if j < k {
        assert ops[..k][..j + 1] == ops[..j + 1] == ops[..k + 1][..j + 1];
        Frozen(cfg, ops[..k], j + 1);
        Frozen(cfg, ops[..k + 1], j + 1);
      }
    }
  }

  lemma {:induction false} FindDivergence(cfg: ReplayConfig, ops: seq<Op>) returns (j: nat)
    requires !Clean(cfg, ops)
    ensures j < |ops| && Clean(cfg, ops[..j]) && Diverges(cfg, ops[..j], ops[j])
  {
    var front := ops[..|ops| - 1];
    if Clean(cfg, front) {
      j := |ops| - 1;
      forall i | 0 <= i < |front| ensures !Diverges(cfg, ops[..i], ops[i]) {
        assert front[..i] == ops[..i];
      }
    } else {
      j := FindDivergence(cfg, front);
      assert front[..j] == ops[..j];
    }
  }

  /** A run mismatches exactly when some operation diverges. */
  lemma MismatchesIffDiverges(cfg: ReplayConfig, ops: seq<Op>)
    ensures StateAfter(cfg, ops).mismatch.Some? <==> !Clean(cfg, ops)
  {
    if Clean(cfg, ops) {
      CleanState(cfg, ops);
    } else {
      var j := FindDivergence(cfg, ops);
      FirstDivergence(cfg, ops, j);
      Frozen(cfg, ops, j + 1);
    }
  }

  // ---------------------------------------------------------------------------
  // Record, then replay
  // ---------------------------------------------------------------------------

  /** The messages a call sequence records in one direction, before its terminal. */
  function Messages(calls: seq<R.Call>, dir: R.Direction): seq<Bytes> {
    if calls == [] || calls[0].FinishCall? then []
    else
      (match calls[0]
       case SendCall(msg, _) => if dir.SendDir? then [msg] else []
       case RecvCall(msg, _) => if dir.RecvDir? then [msg] else []
       case _ => [])
      + Messages(calls[1..], dir)
  }

  /** Every message through the hook, if there is one. */
  function ScrubAll(cfg: R.RecConfig, dir: R.Direction, msgs: seq<Bytes>): (r: seq<Bytes>)
    ensures |r| == |msgs|
  {
    seq(|msgs|, i requires 0 <= i < |msgs| =>
        match cfg.scrub case None => msgs[i] case Some(f) => f(dir, R.ScrubInfo(cfg.adapterId, cfg.typ), msgs[i]))
  }

  function MessagesOf(frames: seq<StreamFrame>): (r: seq<Bytes>)
    ensures |r| == |frames|
  {
    seq(|frames|, i requires 0 <= i < |frames| => frames[i].message)
  }

  lemma {:induction false} RecordedMessages(cfg: R.RecConfig, st: R.RecState, calls: seq<R.Call>)
    requires !st.finished && R.Saved(cfg, st, calls) != []
    ensures var p := R.Saved(cfg, st, calls)[0];
            && MessagesOf(p.req.frames) == MessagesOf(st.sends) + ScrubAll(cfg, R.SendDir, Messages(calls, R.SendDir))
            && MessagesOf(p.resp.frames) == MessagesOf(st.recvs) + ScrubAll(cfg, R.RecvDir, Messages(calls, R.RecvDir))
    decreases |calls|
  {
    hide ScrubAll, MessagesOf, R.Saved;
    R.SavedUnrolled(cfg, st, calls);
    if calls[0].FinishCall? {
      assert ScrubAll(cfg, R.SendDir, []) == [] == ScrubAll(cfg, R.RecvDir, []);
    } else {
      RecordedMessages(cfg, R.Step(cfg, st, calls[0]), calls[1..]);
      StepMessages(cfg, st, calls, R.SendDir);
      StepMessages(cfg, st, calls, R.RecvDir);
    }
  }

  function FramesOf(st: R.RecState, dir: R.Direction): seq<StreamFrame> {
    if dir.SendDir? then st.sends else st.recvs
  }

  predicate Carries(c: R.Call, dir: R.Direction) {
    if dir.SendDir? then c.SendCall? else c.RecvCall?
  }

  lemma MessagesUnrolled(calls: seq<R.Call>, dir: R.Direction)
    requires calls != [] && !calls[0].FinishCall?
    ensures Messages(calls, dir)
            == if Carries(calls[0], dir) then [calls[0].msg] + Messages(calls[1..], dir) else Messages(calls[1..], dir)
  {
    assert [] + Messages(calls[1..], dir) == Messages(calls[1..], dir);
  }

  lemma StepAddsFrame(cfg: R.RecConfig, st: R.RecState, c: R.Call, dir: R.Direction)
    requires !st.finished && !c.FinishCall?
    ensures FramesOf(R.Step(cfg, st, c), dir)
            == if Carries(c, dir) then FramesOf(st, dir) + [StreamFrame(st.seqNo, cfg.Scrubbed(dir, c.msg), false, Some(c.at))]
               else FramesOf(st, dir)
  {
  }

  /** One call moves its message, scrubbed, from the calls to the log. */
  lemma StepMessages(cfg: R.RecConfig, st: R.RecState, calls: seq<R.Call>, dir: R.Direction)
    requires !st.finished && calls != [] && !calls[0].FinishCall?
    ensures MessagesOf(FramesOf(R.Step(cfg, st, calls[0]), dir)) + ScrubAll(cfg, dir, Messages(calls[1..], dir))
            == MessagesOf(FramesOf(st, dir)) + ScrubAll(cfg, dir, Messages(calls, dir))
  {
    hide ScrubAll, MessagesOf, Messages, FramesOf, R.Step;
    var c, later := calls[0], Messages(calls[1..], dir);
    MessagesUnrolled(calls, dir);
    StepAddsFrame(cfg, st, c, dir);
    if Carries(c, dir) {
      MessagesOfSnoc(FramesOf(st, dir), StreamFrame(st.seqNo, cfg.Scrubbed(dir, c.msg), false, Some(c.at)));
      ScrubAllCons(cfg, dir, c.msg, later);
    }
  }

  lemma MessagesOfSnoc(frames: seq<StreamFrame>, f: StreamFrame)
    ensures MessagesOf(frames + [f]) == MessagesOf(frames) + [f.message]
  {
  }

  lemma ScrubAllCons(cfg: R.RecConfig, dir: R.Direction, msg: Bytes, later: seq<Bytes>)
    ensures ScrubAll(cfg, dir, [msg] + later) == [cfg.Scrubbed(dir, msg)] + ScrubAll(cfg, dir, later)
  {
  }

  /** The recorded terminal: the error text of the finishing call, or the end of the stream. */
  function TerminalOf(calls: seq<R.Call>): ReplayError
    requires R.ReachesTerminal(calls)
  {
    if calls[0].FinishCall? then
      if calls[0].terminalErr.Some? && calls[0].terminalErr.value != "" then RecordedError(calls[0].terminalErr.value)
      else EndOfStream
    else
      assert R.ReachesTerminal(calls[1..]) by {
        var i :| 0 <= i < |calls| && calls[i].FinishCall?;
        assert calls[1..][i - 1].FinishCall?;
      }
      TerminalOf(calls[1..])
  }

  lemma {:induction false} RecordedTerminal(cfg: R.RecConfig, st: R.RecState, calls: seq<R.Call>, rcfg: ReplayConfig)
    requires !st.finished && R.Saved(cfg, st, calls) != [] && R.ReachesTerminal(calls)
    requires rcfg.pair == R.Saved(cfg, st, calls)[0]
    ensures rcfg.Terminal() == TerminalOf(calls)
    decreases |calls|
  {
    if !calls[0].FinishCall? {
      var next := R.Step(cfg, st, calls[0]);
      R.OnlyFinishSaves(cfg, next, calls[1..]);
      RecordedTerminal(cfg, next, calls[1..], rcfg);
    }
  }

  /** The client sends what was recorded, as far as the scrub can tell, and half-closes only after all of it. */
  ghost predicate Follows(cfg: R.RecConfig, calls: seq<R.Call>, ops: seq<Op>) {
    var raw := Messages(calls, R.SendDir);
    forall j :: 0 <= j < |ops| ==>
      var i := SendsIn(ops[..j]);
      match ops[j]
      case SendOp(msg) =>
        i < |raw| ==>
          (match cfg.scrub
           case None => msg == raw[i]
           case Some(f) => var info := R.ScrubInfo(cfg.adapterId, cfg.typ); f(R.SendDir, info, msg) == f(R.SendDir, info, raw[i]))
      case HalfCloseOp => i >= |raw|
      case RecvOp => true
  }

  /** The replay of what a call sequence recorded, under the same scrub hook. */
  function ReplayOf(cfg: R.RecConfig, calls: seq<R.Call>, sha: Bytes -> string): ReplayConfig
    requires R.Saved(cfg, R.Opened, calls) != []
  {
    ReplayConfig(R.Saved(cfg, R.Opened, calls)[0], cfg.scrub, R.ScrubInfo(cfg.adapterId, cfg.typ), sha)
  }

  lemma RecordedLogs(cfg: R.RecConfig, calls: seq<R.Call>, sha: Bytes -> string)
    requires R.ReachesTerminal(calls)
    ensures R.Saved(cfg, R.Opened, calls) != []
    ensures var rcfg := ReplayOf(cfg, calls, sha);
            && MessagesOf(rcfg.Sends()) == ScrubAll(cfg, R.SendDir, Messages(calls, R.SendDir))
            && MessagesOf(rcfg.Recvs()) == ScrubAll(cfg, R.RecvDir, Messages(calls, R.RecvDir))
            && rcfg.Terminal() == TerminalOf(calls)
    ensures var p, info := R.Saved(cfg, R.Opened, calls)[0], R.ScrubInfo(cfg.adapterId, cfg.typ);
            var sent, received := Messages(calls, R.SendDir), Messages(calls, R.RecvDir);
            && |p.req.frames| == |sent| && |p.resp.frames| == |received|
            && (forall i :: 0 <= i < |sent| ==>
                  p.req.frames[i].message == match cfg.scrub case None => sent[i] case Some(f) => f(R.SendDir, info, sent[i]))
            && (forall i :: 0 <= i < |received| ==>
                  p.resp.frames[i].message == match cfg.scrub case None => received[i] case Some(f) => f(R.RecvDir, info, received[i]))
  {
    hide R.Saved, R.ReachesTerminal, Messages, TerminalOf;
    R.OnlyFinishSaves(cfg, R.Opened, calls);
    RecordedMessages(cfg, R.Opened, calls);
    RecordedTerminal(cfg, R.Opened, calls, ReplayOf(cfg, calls, sha));
    assert MessagesOf(R.Opened.sends) == [] && MessagesOf(R.Opened.recvs) == [];
    var p := R.Saved(cfg, R.Opened, calls)[0];
    MessageAt(cfg, R.SendDir, p.req.frames, Messages(calls, R.SendDir));
    MessageAt(cfg, R.RecvDir, p.resp.frames, Messages(calls, R.RecvDir));
  }

  lemma MessageAt(cfg: R.RecConfig, dir: R.Direction, frames: seq<StreamFrame>, raw: seq<Bytes>)
    requires MessagesOf(frames) == ScrubAll(cfg, dir, raw)
    ensures |frames| == |raw|
    ensures forall i :: 0 <= i < |raw| ==>
              frames[i].message
              == match cfg.scrub case None => raw[i] case Some(f) => f(dir, R.ScrubInfo(cfg.adapterId, cfg.typ), raw[i])
  {
    assert |MessagesOf(frames)| == |ScrubAll(cfg, dir, raw)|;
    assert forall i :: 0 <= i < |raw| ==> frames[i].message == MessagesOf(frames)[i] == cfg.Scrubbed(dir, raw[i]);
  }

  lemma FollowsIffClean(cfg: R.RecConfig, calls: seq<R.Call>, rcfg: ReplayConfig, ops: seq<Op>)
    requires rcfg.scrub == cfg.scrub && rcfg.info == R.ScrubInfo(cfg.adapterId, cfg.typ)
    requires MessagesOf(rcfg.Sends()) == ScrubAll(cfg, R.SendDir, Messages(calls, R.SendDir))
    ensures Follows(cfg, calls, ops) <==> Clean(rcfg, ops)
  {
    var raw := Messages(calls, R.SendDir);
    assert |rcfg.Sends()| == |raw|;
    assert forall i :: 0 <= i < |raw| ==>
        rcfg.Sends()[i].message == MessagesOf(rcfg.Sends())[i] == cfg.Scrubbed(R.SendDir, raw[i]);
  }

  /** A replay of a recording mismatches exactly when the client does not follow it. */
  lemma ReplayMismatchesIffNotFollowing(cfg: R.RecConfig, calls: seq<R.Call>, sha: Bytes -> string, ops: seq<Op>)
    requires R.ReachesTerminal(calls)
    ensures R.Saved(cfg, R.Opened, calls) != []
    ensures StateAfter(ReplayOf(cfg, calls, sha), ops).mismatch.None? <==> Follows(cfg, calls, ops)
  {
    RecordedLogs(cfg, calls, sha);
    FollowsIffClean(cfg, calls, ReplayOf(cfg, calls, sha), ops);
    MismatchesIffDiverges(ReplayOf(cfg, calls, sha), ops);
  }

  /**
   While the client follows, wherever its reads fall among its sends: the j-th read gets the
   scrubbed j-th recorded message, and every later read the recorded terminal.
   */
  lemma RecordThenReplay(cfg: R.RecConfig, calls: seq<R.Call>, sha: Bytes -> string, ops: seq<Op>, k: nat)
    requires R.ReachesTerminal(calls) && Follows(cfg, calls, ops)
    requires k < |ops| && ops[k].RecvOp?
    ensures R.Saved(cfg, R.Opened, calls) != []
    ensures var raw, j := Messages(calls, R.RecvDir), RecvsIn(ops[..k]);
            OutcomeAt(ReplayOf(cfg, calls, sha), ops, k)
            == if j < |raw| then
                 Delivered(match cfg.scrub
                           case None => raw[j]
                           case Some(f) => f(R.RecvDir, R.ScrubInfo(cfg.adapterId, cfg.typ), raw[j]))
               else Failed(TerminalOf(calls))
  {
    hide OutcomeAt, R.Saved, Messages, TerminalOf, R.ReachesTerminal, Follows, Clean;
    RecordedLogs(cfg, calls, sha);
    var rcfg := ReplayOf(cfg, calls, sha);
    FollowsIffClean(cfg, calls, rcfg, ops);
    CleanPrefix(rcfg, ops, k + 1);
    ReplayOutcomes(rcfg, ops, k);
    var raw := Messages(calls, R.RecvDir);
    assert |rcfg.Recvs()| == |raw|;
    assert forall i :: 0 <= i < |raw| ==>
        rcfg.Recvs()[i].message == MessagesOf(rcfg.Recvs())[i] == cfg.Scrubbed(R.RecvDir, raw[i]);
  }
}
