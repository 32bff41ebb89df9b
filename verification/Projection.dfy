/**
 When the log recorded for a stream is all that the stream showed
 (go/adapters/grpctransport/record.go).
 */
module Projection {
  import opened Prelude
  import opened Demux
  import opened GrpcHeaders
  import opened Tracker

  /** What would be saved if the log were everything observed on the stream up to its first terminal. */
  function WholeProjection(own: seq<Observed>, h: nat): seq<Rpc>
    requires OpensOnceAt(own, h)
  {
    SavedFrom(own, h, 0)
  }

  /** Nothing before the open shows anything or ends the stream; a half-close may precede one that the open shows itself. */
  ghost predicate Quiet(before: seq<Observed>, open: Observed) {
    forall i :: 0 <= i < |before| ==>
      !Ends(before[i]) && (Shows(before[i]) == [] || (Shows(before[i]) == [EvHalfClose] && Shows(open) == [EvHalfClose]))
  }

  function Handling(before: seq<Observed>, open: Observed, after: seq<Observed>): seq<Observed> {
    before + ([open] + after)
  }

  lemma {:induction false} ShownByConcat(a: seq<Observed>, b: seq<Observed>)
    ensures ShownBy(a + b) == ShownBy(a) + ShownBy(b)
  {
    hide Shows;
    if a == [] {
      assert a + b == b;
    } else {
      assert (a + b)[1..] == a[1..] + b;
      ShownByConcat(a[1..], b);
    }
  }

  lemma {:induction false} NoEndIn(a: seq<Observed>, b: seq<Observed>)
    requires forall i :: 0 <= i < |a| ==> !Ends(a[i])
    ensures FirstEnd(a + b) == |a| + FirstEnd(b)
  {
    hide Ends;
    if a == [] {
      assert a + b == b;
    } else {
      assert (a + b)[0] == a[0] && (a + b)[1..] == a[1..] + b;
      NoEndIn(a[1..], b);
    }
  }

  /** Half-closes only. */
  predicate HalfClosesOnly(log: seq<RecEvent>) {
    forall i :: 0 <= i < |log| ==> log[i].EvHalfClose?
  }

  lemma {:induction false} OneHalfCloseLeft(log: seq<RecEvent>)
    requires HalfClosesOnly(log)
    ensures FirstHalfCloseOnly(log) == if log == [] then [] else [EvHalfClose]
  {
    if log != [] {
      var front := log[..|log| - 1];
      OneHalfCloseLeft(front);
      assert front != [] ==> front[0] == EvHalfClose;
    }
  }

  /** What follows is kept in the same way after either of two logs that reduce to the same. */
  lemma {:induction false} SameAfterReduction(a: seq<RecEvent>, b: seq<RecEvent>, later: seq<RecEvent>)
    requires FirstHalfCloseOnly(a) == FirstHalfCloseOnly(b)
    ensures FirstHalfCloseOnly(a + later) == FirstHalfCloseOnly(b + later)
    decreases |later|
  {
    if later == [] {
      assert a + later == a && b + later == b;
    } else {
      var front, last := later[..|later| - 1], later[|later| - 1];
      assert a + later == (a + front) + [last] && b + later == (b + front) + [last];
      SameAfterReduction(a, b, front);
      Snoc(a + front, last);
      Snoc(b + front, last);
    }
  }

  lemma {:induction false} QuietShows(before: seq<Observed>, open: Observed)
    requires Quiet(before, open)
    ensures HalfClosesOnly(ShownBy(before)) && (ShownBy(before) != [] ==> Shows(open) == [EvHalfClose])
  {
    hide Shows, Ends;
    if before != [] {
      assert Quiet(before[1..], open);
      QuietShows(before[1..], open);
    }
  }

  lemma QuietShown(before: seq<Observed>, open: Observed, after: seq<Observed>)
    requires OpensRpc(open) && Quiet(before, open)
    ensures FirstHalfCloseOnly(ShownBy(before + ([open] + after))) == FirstHalfCloseOnly(ShownBy([open] + after))
  {
    hide Shows, Ends, OpensRpc, FirstHalfCloseOnly;
    ShownByConcat(before, [open] + after);
    ShownByConcat([open], after);
    OneShown(open);
    OpenDoesNotEnd(open);
    QuietShows(before, open);
    QuietReduces(ShownBy(before), Shows(open));
    SameAfterReduction(ShownBy(before) + Shows(open), Shows(open), ShownBy(after));
    assert ShownBy(before) + (Shows(open) + ShownBy(after)) == ShownBy(before) + Shows(open) + ShownBy(after);
  }

  /** Without an end before the open, the end looked for from the start is the one after the open. */
  lemma JoinEnds(before: seq<Observed>, tail: seq<Observed>)
    requires forall i :: 0 <= i < |before| ==> !Ends(before[i])
    ensures var own, h, n := before + tail, |before|, FirstEnd(tail);
            && EndFrom(own, 0) == h + n == EndFrom(own, h)
            && own[0..h + n] == before + tail[..n] && own[h..h + n] == tail[..n]
            && (n < |tail| ==> own[h + n] == tail[n])
  {
    hide Ends, FirstEnd;
    var own := before + tail;
    assert own[|before|..] == tail && own[0..] == own;
    NoEndIn(before, tail);
    JoinSlices(before, tail, FirstEnd(tail));
  }

  lemma JoinSlices<T>(a: seq<T>, b: seq<T>, n: nat)
    requires n <= |b|
    ensures (a + b)[0..|a| + n] == a + b[..n] && (a + b)[|a|..|a| + n] == b[..n]
    ensures n < |b| ==> (a + b)[|a| + n] == b[n]
  {
  }

  lemma QuietKeepsAll(before: seq<Observed>, open: Observed, after: seq<Observed>)
    requires NoOpens(before) && NoOpens(after) && OpensRpc(open) && Quiet(before, open)
    ensures var own := Handling(before, open, after);
            OpensOnceAt(own, |before|) && SavedFrom(own, |before|, |before|) == WholeProjection(own, |before|)
  {
    hide Shows, Ends, OpensRpc, FirstHalfCloseOnly, IsCompressed, StatusOf, HeaderValue, SplitPath, EndFrom, FirstEnd, OpensOnceAt, NoOpens,
         ShownBy;
    var tail := [open] + after;
    OpensAtJoin(before, open, after);
    JoinEnds(before, tail);
    var n := FirstEnd(tail);
    if n < |tail| {
      OpenDoesNotEnd(open);
      FirstIsNoEnd(tail);
      assert tail[..n] == [open] + after[..n - 1];
      QuietShown(before, open, after[..n - 1]);
    }
  }

  lemma FirstIsNoEnd(evs: seq<Observed>)
    requires evs != [] && !Ends(evs[0])
    ensures FirstEnd(evs) > 0
  {
  }

  lemma OneShown(o: Observed)
    ensures ShownBy([o]) == Shows(o)
  {
    assert [o][1..] == [] && Shows(o) + [] == Shows(o);
  }

  lemma OpenDoesNotEnd(o: Observed)
    requires OpensRpc(o)
    ensures !Ends(o) && (Shows(o) == [] || Shows(o) == [EvHalfClose])
  {
    hide SplitPath, HeaderValue;
  }

  lemma QuietReduces(a: seq<RecEvent>, b: seq<RecEvent>)
    requires HalfClosesOnly(a) && HalfClosesOnly(b) && (a != [] ==> b != [])
    ensures FirstHalfCloseOnly(a + b) == FirstHalfCloseOnly(b)
  {
    OneHalfCloseLeft(a + b);
    OneHalfCloseLeft(b);
  }

  lemma OpensAtJoin(before: seq<Observed>, open: Observed, after: seq<Observed>)
    requires NoOpens(before) && NoOpens(after) && OpensRpc(open)
    ensures OpensOnceAt(Handling(before, open, after), |before|)
  {
    hide OpensRpc;
    var own, h := Handling(before, open, after), |before|;
    forall i | 0 <= i < |own| ensures OpensRpc(own[i]) <==> i == h {
      assert own[i] == if i < h then before[i] else if i == h then open else after[i - h - 1];
    }
  }

  lemma {:induction false} EarlyEnd(a: seq<Observed>, b: seq<Observed>, i: nat)
    requires i < |a| && Ends(a[i])
    ensures FirstEnd(a + b) < |a|
  {
    hide Ends;
    assert (a + b)[i] == a[i];
  }

  function Aborted(id: StreamId): Observed {
    Observed(ClientToServer, ResetEvent(id))
  }

  ghost predicate OwnEvents(evs: seq<Observed>, id: StreamId) {
    forall i :: 0 <= i < |evs| ==> EventOf(evs[i].ev, id)
  }

  /** What distinguishes the two: the end that was missed, or a reset right after the open. */
  lemma NotQuietLoses(id: StreamId, before: seq<Observed>, open: Observed) returns (after: seq<Observed>)
    requires NoOpens(before) && OpensRpc(open) && !IsCompressed(open.ev.fields) && !Quiet(before, open)
    ensures NoOpens(after) && OwnEvents(after, id)
    ensures var own := Handling(before, open, after);
            OpensOnceAt(own, |before|) && SavedFrom(own, |before|, |before|) != WholeProjection(own, |before|)
  {
    hide Shows, Ends, OpensRpc, FirstHalfCloseOnly, IsCompressed, StatusOf, HeaderValue, SplitPath;
    var h := |before|;
    OpenDoesNotEnd(open);
    if i :| 0 <= i < |before| && Ends(before[i]) {
      after := [];
      var own := Handling(before, open, after);
      OpensAtJoin(before, open, after);
      EarlyEnd(before, [open] + after, i);
      assert own[h..] == [open] && own[0..] == own;
    } else {
      after := [Aborted(id)];
      AbortEnds(id);
      OpensAtJoin(before, open, after);
      AbortLoses(id, before, open);
    }
  }

  lemma AbortLoses(id: StreamId, before: seq<Observed>, open: Observed)
    requires OpensOnceAt(Handling(before, open, [Aborted(id)]), |before|) && OpensRpc(open) && !IsCompressed(open.ev.fields)
    requires (forall i :: 0 <= i < |before| ==> !Ends(before[i])) && !Quiet(before, open)
    ensures var own := Handling(before, open, [Aborted(id)]);
            SavedFrom(own, |before|, |before|) != WholeProjection(own, |before|)
  {
    hide Shows, Ends, OpensRpc, FirstHalfCloseOnly, IsCompressed, StatusOf, HeaderValue, SplitPath, EndFrom, OpensOnceAt, Quiet;
    var tail := [open] + [Aborted(id)];
    AbortEnds(id);
    OpenDoesNotEnd(open);
    JoinEnds(before, tail);
    assert tail[1..] == [Aborted(id)] && tail[..1] == [open];
    assert FirstEnd(tail) == 1;
    ShownByConcat(before, [open]);
    OneShown(open);
    NotQuietShows(before, open);
  }

  lemma AbortEnds(id: StreamId)
    ensures Ends(Aborted(id)) && !OpensRpc(Aborted(id))
  {
  }

  lemma {:induction false} ShownByOf(evs: seq<Observed>, i: nat)
    requires i < |evs|
    ensures ShownBy(evs) == ShownBy(evs[..i]) + (Shows(evs[i]) + ShownBy(evs[i + 1..]))
  {
    hide Shows;
    assert evs == evs[..i] + ([evs[i]] + evs[i + 1..]);
    ShownByConcat(evs[..i], [evs[i]] + evs[i + 1..]);
    ShownByConcat([evs[i]], evs[i + 1..]);
    OneShown(evs[i]);
  }

  /** A message before the open, or a half-close that the open does not repeat, changes the log. */
  lemma NotQuietShows(before: seq<Observed>, open: Observed)
    requires (forall i :: 0 <= i < |before| ==> !Ends(before[i])) && !Quiet(before, open)
    requires Shows(open) == [] || Shows(open) == [EvHalfClose]
    ensures FirstHalfCloseOnly(ShownBy(before) + Shows(open)) != FirstHalfCloseOnly(Shows(open))
  {
    hide Shows, Ends, FirstHalfCloseOnly;
    var shown := ShownBy(before);
    OneHalfCloseLeft(Shows(open));
    if HalfClosesOnly(shown) {
      assert shown != [] by { SomethingShown(before, open); }
      OneHalfCloseLeft(shown + Shows(open));
      assert Shows(open) == [] by { HalfClosesAreNotQuiet(before, open); }
    } else {
      MessagesKept(shown + Shows(open));
      LogConcat(shown, Shows(open));
      SomeMessage(shown);
      ReducedHasNoMessage(Shows(open));
    }
  }

  lemma {:induction false} SomethingShown(before: seq<Observed>, open: Observed)
    requires (forall i :: 0 <= i < |before| ==> !Ends(before[i])) && !Quiet(before, open)
    ensures ShownBy(before) != []
  {
    hide Shows, Ends;
    var i :| 0 <= i < |before| && Shows(before[i]) != [];
    ShownByOf(before, i);
  }

  lemma ShowsOneHalfClose(o: Observed)
    ensures HalfClosesOnly(Shows(o)) ==> Shows(o) == [] || Shows(o) == [EvHalfClose]
  {
    hide SplitPath, HeaderValue;
    assert o.ev.MessageEvent? && o.ev.message.Some? ==> !Shows(o)[0].EvHalfClose?;
  }

  lemma HalfClosesInside(a: seq<RecEvent>, b: seq<RecEvent>, c: seq<RecEvent>)
    requires HalfClosesOnly(a + (b + c))
    ensures HalfClosesOnly(b)
  {
    assert forall k :: 0 <= k < |b| ==> b[k] == (a + (b + c))[|a| + k];
  }

  lemma HalfClosesAreNotQuiet(before: seq<Observed>, open: Observed)
    requires (forall i :: 0 <= i < |before| ==> !Ends(before[i])) && !Quiet(before, open) && HalfClosesOnly(ShownBy(before))
    requires Shows(open) == [] || Shows(open) == [EvHalfClose]
    ensures Shows(open) == []
  {
    hide Ends, Shows, ShownBy, HalfClosesOnly;
    forall i | 0 <= i < |before| ensures Shows(before[i]) == [] || Shows(before[i]) == [EvHalfClose] {
      ShownByOf(before, i);
      HalfClosesInside(ShownBy(before[..i]), Shows(before[i]), ShownBy(before[i + 1..]));
      ShowsOneHalfClose(before[i]);
    }
  }

  lemma {:induction false} SomeMessage(log: seq<RecEvent>)
    requires !HalfClosesOnly(log)
    ensures SendsIn(log) != [] || RecvsIn(log) != []
  {
    var front, last := log[..|log| - 1], log[|log| - 1];
    assert log == front + [last];
    LogSnoc(front, last);
    if last.EvHalfClose? {
      SomeMessage(front);
    }
  }

  lemma ReducedHasNoMessage(log: seq<RecEvent>)
    requires log == [] || log == [EvHalfClose]
    ensures SendsIn(FirstHalfCloseOnly(log)) == [] == RecvsIn(FirstHalfCloseOnly(log))
  {
    OneHalfCloseLeft(log);
    assert [EvHalfClose] == [] + [EvHalfClose];
    LogSnoc([], EvHalfClose);
  }

  /**
   The log is everything the stream showed up to its first terminal, whatever events of the
   stream follow the open, exactly when nothing handled before the open showed anything or
   ended the stream (a half-close apart that the open repeats).
   */
  lemma WholeLogIffQuiet(id: StreamId, before: seq<Observed>, open: Observed)
    requires NoOpens(before) && OpensRpc(open) && !IsCompressed(open.ev.fields)
    ensures (forall after :: NoOpens(after) && OwnEvents(after, id) ==>
               var own := Handling(before, open, after);
               OpensOnceAt(own, |before|) && Alone(NewTrack, own) == WholeProjection(own, |before|))
            <==> Quiet(before, open)
  {
    hide OpensRpc, IsCompressed, Alone, SavedFrom, Quiet, WholeProjection, NoOpens, OpensOnceAt, OwnEvents;
    if Quiet(before, open) {
      forall after | NoOpens(after) && OwnEvents(after, id)
        ensures var own := Handling(before, open, after);
                OpensOnceAt(own, |before|) && Alone(NewTrack, own) == WholeProjection(own, |before|)
      {
        QuietKeepsAll(before, open, after);
        SavedLog(Handling(before, open, after), |before|);
      }
    } else {
      var after := NotQuietLoses(id, before, open);
      SavedLog(Handling(before, open, after), |before|);
    }
  }

  // ---------------------------------------------------------------------------
  // When the log holds all messages of the stream
  // ---------------------------------------------------------------------------

  function MessagesOf(log: seq<RecEvent>, dir: Dir): seq<Bytes> {
    if dir.ClientToServer? then SendsIn(log) else RecvsIn(log)
  }

  predicate Carries(o: Observed, dir: Dir) {
    o.dir == dir && o.ev.MessageEvent? && o.ev.message.Some?
  }

  /** No message of a direction is handled before the h-th event, and none from the n-th on. */
  ghost predicate MessagesWithin(own: seq<Observed>, h: nat, n: nat, dir: Dir) {
    forall i :: 0 <= i < |own| && Carries(own[i], dir) ==> h <= i < n
  }

  lemma ShowsMessage(o: Observed, dir: Dir)
    ensures MessagesOf(Shows(o), dir) == if Carries(o, dir) then [o.ev.message.value] else []
  {
    hide SplitPath, HeaderValue, OpensRpc, SendsIn, RecvsIn;
    var shown := Shows(o);
    NoneShown();
    if shown != [] {
      LogSnoc([], shown[0]);
      assert [] + [shown[0]] == [shown[0]];
      if |shown| == 2 {
        LogSnoc([shown[0]], EvHalfClose);
        assert shown == [shown[0]] + [EvHalfClose];
      } else {
        assert shown == [shown[0]];
      }
    }
  }

  ghost predicate Silent(evs: seq<Observed>, dir: Dir) {
    forall i :: 0 <= i < |evs| ==> !Carries(evs[i], dir)
  }

  lemma {:induction false} NoneCarried(evs: seq<Observed>, dir: Dir)
    ensures MessagesOf(ShownBy(evs), dir) == [] <==> Silent(evs, dir)
  {
    hide Shows, SendsIn, RecvsIn, Carries;
    if evs == [] {
      NoneShown();
    } else {
      var rest := evs[1..];
      ShowsMessage(evs[0], dir);
      LogConcat(Shows(evs[0]), ShownBy(rest));
      NoneCarried(rest, dir);
      assert forall i :: 0 <= i < |rest| ==> rest[i] == evs[i + 1];
      assert forall i :: 0 < i < |evs| ==> evs[i] == rest[i - 1];
    }
  }

  lemma NoneShown()
    ensures SendsIn([]) == [] == RecvsIn([])
  {
  }

  /** What a stream shows of a direction: what is lost before the open, what is recorded, what is lost after the end. */
  lemma MessagesInParts(own: seq<Observed>, h: nat, dir: Dir)
    requires h <= |own|
    ensures MessagesOf(ShownBy(own), dir)
            == MessagesOf(ShownBy(own[..h]), dir) + MessagesOf(LogFrom(own, h), dir) + MessagesOf(ShownBy(own[EndFrom(own, h)..]), dir)
  {
    hide *;
    var n := EndFrom(own, h);
    ThreeParts(own, h, n);
    ShownInParts(own[..h], own[h..n], own[n..], dir);
    LoggedPart(own, h, dir);
  }

  lemma ThreeParts<T>(s: seq<T>, h: nat, n: nat)
    requires h <= n <= |s|
    ensures s[..h] + s[h..n] + s[n..] == s
  {
  }

  lemma LoggedPart(own: seq<Observed>, h: nat, dir: Dir)
    requires h <= |own|
    ensures MessagesOf(LogFrom(own, h), dir) == MessagesOf(ShownBy(own[h..EndFrom(own, h)]), dir)
  {
    hide MessagesOf, ShownBy, EndFrom, FirstHalfCloseOnly;
    MessagesOfReduced(ShownBy(own[h..EndFrom(own, h)]), dir);
  }

  lemma ShownInParts(a: seq<Observed>, b: seq<Observed>, c: seq<Observed>, dir: Dir)
    ensures MessagesOf(ShownBy(a + b + c), dir)
            == MessagesOf(ShownBy(a), dir) + MessagesOf(ShownBy(b), dir) + MessagesOf(ShownBy(c), dir)
  {
    hide ShownBy, MessagesOf;
    ShownByConcat(a + b, c);
    ShownByConcat(a, b);
    MessagesOfConcat(ShownBy(a) + ShownBy(b), ShownBy(c), dir);
    MessagesOfConcat(ShownBy(a), ShownBy(b), dir);
  }

  lemma MessagesOfConcat(a: seq<RecEvent>, b: seq<RecEvent>, dir: Dir)
    ensures MessagesOf(a + b, dir) == MessagesOf(a, dir) + MessagesOf(b, dir)
  {
    LogConcat(a, b);
  }

  lemma MessagesOfReduced(log: seq<RecEvent>, dir: Dir)
    ensures MessagesOf(FirstHalfCloseOnly(log), dir) == MessagesOf(log, dir)
  {
    MessagesKept(log);
  }

  /** The log holds all of a stream's messages exactly when none is handled before the open and none after the end. */
  lemma AllMessagesIff(own: seq<Observed>, h: nat, dir: Dir)
    requires h <= |own|
    ensures MessagesOf(LogFrom(own, h), dir) == MessagesOf(ShownBy(own), dir) <==> MessagesWithin(own, h, EndFrom(own, h), dir)
  {
    hide ShownBy, MessagesOf, LogFrom, Silent, MessagesWithin;
    var n := EndFrom(own, h);
    MessagesInParts(own, h, dir);
    NoneCarried(own[..h], dir);
    NoneCarried(own[n..], dir);
    WithinIffOutsideSilent(own, h, n, dir);
    MiddleIsAll(MessagesOf(ShownBy(own[..h]), dir), MessagesOf(LogFrom(own, h), dir), MessagesOf(ShownBy(own[n..]), dir));
  }

  lemma WithinIffOutsideSilent(own: seq<Observed>, h: nat, n: nat, dir: Dir)
    requires h <= n <= |own|
    ensures MessagesWithin(own, h, n, dir) <==> Silent(own[..h], dir) && Silent(own[n..], dir)
  {
    hide Carries;
    assert forall i :: 0 <= i < h ==> own[..h][i] == own[i];
    assert forall i :: n <= i < |own| ==> own[i] == own[n..][i - n];
  }

  lemma MiddleIsAll<T>(a: seq<T>, b: seq<T>, c: seq<T>)
    ensures b == a + b + c <==> a == [] && c == []
  {
    assert |a + b + c| == |a| + |b| + |c|;
  }
}
