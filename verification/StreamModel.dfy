/**
 The streamed-pair model, and the three ports' rules for accepting one
 (go/stream.go, rs/src/stream.rs, php/src/Stream/StreamParser.php).
 */
module StreamModel {
  import opened Prelude

  const SERVER := "server"
  const CLIENT := "client"
  const BIDI := "bidi"

  predicate ValidType(typ: string) {
    typ == SERVER || typ == CLIENT || typ == BIDI
  }

  datatype StreamFrame = StreamFrame(seqNo: int, message: Bytes, text: bool, atMs: Option<int>)

  datatype StreamEvent = StreamEvent(seqNo: int, atMs: Option<int>)

  datatype ReqStream = ReqStream(typ: string, frames: seq<StreamFrame>, halfClose: Option<StreamEvent>)

  datatype RespStream = RespStream(frames: seq<StreamFrame>, end: StreamEvent)

  type Payload = map<string, Value>

  datatype StreamPair = StreamPair(
    req: ReqStream, resp: RespStream, reqPayload: Payload, respPayload: Payload, recordedErr: string)

  // ---------------------------------------------------------------------------
  // The numbering rules
  // ---------------------------------------------------------------------------

  function SeqsOf(frames: seq<StreamFrame>): (s: seq<int>)
    ensures |s| == |frames| && forall i :: 0 <= i < |s| ==> s[i] == frames[i].seqNo
  {
    seq(|frames|, i requires 0 <= i < |frames| => frames[i].seqNo)
  }

  function EventSeq(e: Option<StreamEvent>): seq<int> {
    if e.Some? then [e.value.seqNo] else []
  }

  /** Every seq of the pair: frames, half_close, end. */
  function AllSeqs(p: StreamPair): seq<int> {
    SeqsOf(p.req.frames) + SeqsOf(p.resp.frames) + EventSeq(p.req.halfClose) + [p.resp.end.seqNo]
  }

  ghost predicate Distinct(s: seq<int>) {
    forall i, j :: 0 <= i < j < |s| ==> s[i] != s[j]
  }

  ghost predicate Ascending(s: seq<int>) {
    forall i, j :: 0 <= i < j < |s| ==> s[i] < s[j]
  }

  ghost predicate NonNegative(s: seq<int>) {
    forall i :: 0 <= i < |s| ==> s[i] >= 0
  }

  ghost predicate EndIsMaximal(p: StreamPair) {
    forall s :: s in AllSeqs(p) ==> s <= p.resp.end.seqNo
  }

  ghost predicate Sequenced(p: StreamPair) {
    && Ascending(SeqsOf(p.req.frames)) && Ascending(SeqsOf(p.resp.frames))
    && Distinct(AllSeqs(p)) && NonNegative(AllSeqs(p)) && EndIsMaximal(p)
  }

  /** The same, said of the frames and events of the pair themselves. */
  ghost predicate WellNumbered(p: StreamPair) {
    var sent, received, last := p.req.frames, p.resp.frames, p.resp.end.seqNo;
    && (forall i, j :: 0 <= i < j < |sent| ==> sent[i].seqNo < sent[j].seqNo)
    && (forall i, j :: 0 <= i < j < |received| ==> received[i].seqNo < received[j].seqNo)
    && (forall i, j :: 0 <= i < |sent| && 0 <= j < |received| ==> sent[i].seqNo != received[j].seqNo)
    && (forall i :: 0 <= i < |sent| ==> 0 <= sent[i].seqNo < last)
    && (forall i :: 0 <= i < |received| ==> 0 <= received[i].seqNo < last)
    && last >= 0
    && (p.req.halfClose.Some? ==>
          var h := p.req.halfClose.value.seqNo;
          && 0 <= h < last
          && (forall i :: 0 <= i < |sent| ==> sent[i].seqNo != h)
          && (forall i :: 0 <= i < |received| ==> received[i].seqNo != h))
  }

  /** Where each number of the pair stands among all. */
  lemma SeqsByPlace(p: StreamPair)
    ensures var s, a, b, h := AllSeqs(p), |p.req.frames|, |p.resp.frames|, if p.req.halfClose.Some? then 1 else 0;
            && |s| == a + b + h + 1
            && (forall i :: 0 <= i < a ==> s[i] == p.req.frames[i].seqNo)
            && (forall i :: a <= i < a + b ==> s[i] == p.resp.frames[i - a].seqNo)
            && (forall i :: 0 <= i < b ==> s[a + i] == p.resp.frames[i].seqNo)
            && (p.req.halfClose.Some? ==> s[a + b] == p.req.halfClose.value.seqNo)
            && s[a + b + h] == p.resp.end.seqNo
  {
  }

  lemma SequencedIsWellNumbered(p: StreamPair)
    requires Sequenced(p)
    ensures WellNumbered(p)
  {
    hide AllSeqs, SeqsOf;
    var s, a, b := AllSeqs(p), |p.req.frames|, |p.resp.frames|;
    SeqsByPlace(p);
    var n := |s| - 1;
    forall i | 0 <= i < n ensures 0 <= s[i] < s[n] {
      assert s[i] in s && s[i] != s[n];
    }
    assert forall i :: 0 <= i < a ==> SeqsOf(p.req.frames)[i] == s[i];
    assert forall i :: 0 <= i < b ==> SeqsOf(p.resp.frames)[i] == s[a + i];
    assert s[n] in s;
  }

  lemma WellNumberedIsSequenced(p: StreamPair)
    requires WellNumbered(p)
    ensures Sequenced(p)
  {
    hide AllSeqs;
    SeqsByPlace(p);
  }

  lemma SequencedIff(p: StreamPair)
    ensures Sequenced(p) <==> WellNumbered(p)
  {
    hide Sequenced, WellNumbered;
    if Sequenced(p) {
      SequencedIsWellNumbered(p);
    }
    if WellNumbered(p) {
      WellNumberedIsSequenced(p);
    }
  }

  /** The numbers are exactly 0..N-1. */
  ghost predicate Dense(s: seq<int>) {
    forall k :: k in s <==> 0 <= k < |s|
  }

  // ---------------------------------------------------------------------------
  // Go: one pass over a duplicate table, a running maximum and a previous seq
  // ---------------------------------------------------------------------------

  datatype ValidationError = BadType | NegativeSeq | DuplicateSeq | NotAscending | EndNotMaximal

  ghost predicate Broken(p: StreamPair, e: ValidationError) {
    match e
    case BadType => !ValidType(p.req.typ)
    case NegativeSeq => !NonNegative(AllSeqs(p))
    case DuplicateSeq => !Distinct(AllSeqs(p))
    case NotAscending => !Ascending(SeqsOf(p.req.frames)) || !Ascending(SeqsOf(p.resp.frames))
    case EndNotMaximal => !EndIsMaximal(p)
  }

  lemma BrokenIsNotValid(p: StreamPair, e: ValidationError)
    requires Broken(p, e)
    ensures !(ValidType(p.req.typ) && Sequenced(p))
  {
  }

  class SeqTable {
    var seen: set<int>
    var maxSeq: int
    /** What has been added, in order. */
    ghost var added: seq<int>

    ghost predicate Valid()
      reads this
    {
      && (forall x :: x in seen <==> x in added)
      && Distinct(added) && NonNegative(added)
      && (forall x :: x in added ==> x <= maxSeq)
      && (if added == [] then maxSeq == -1 else maxSeq in added)
    }

    lemma Facts()
      requires Valid()
      ensures Distinct(added) && NonNegative(added) && (forall x :: x in added ==> x <= maxSeq) && (added != [] ==> maxSeq in added)
    {
    }

    constructor ()
      ensures Valid() && added == []
    {
      seen, maxSeq, added := {}, -1, [];
    }

    method Add(s: int) returns (err: Option<ValidationError>)
      requires Valid()
      modifies this
      ensures Valid()
      ensures err == if s < 0 then Some(NegativeSeq) else if s in old(added) then Some(DuplicateSeq) else None
      ensures added == if err.None? then old(added) + [s] else old(added)
    {
      if s < 0 {
        return Some(NegativeSeq);
      }
      if s in seen {
        return Some(DuplicateSeq);
      }
      seen, added := seen + {s}, added + [s];
      if s > maxSeq {
        maxSeq := s;
      }
      err := None;
    }

    method AddFrames(frames: seq<StreamFrame>) returns (err: Option<ValidationError>)
      requires Valid()
      modifies this
      ensures Valid()
      ensures match err
              case None => added == old(added) + SeqsOf(frames) && Ascending(SeqsOf(frames))
              case Some(e) => BrokenBy(old(added), SeqsOf(frames), e)
    {
      hide NonNegative, Distinct;
      ghost var start, s := added, SeqsOf(frames);
      var prev := -1;
      for i := 0 to |frames|
        invariant Valid() && added == start + s[..i]
        invariant Ascending(s[..i]) && prev == if i == 0 then -1 else s[i - 1]
      {
        err := Add(frames[i].seqNo);
        if err.Some? {
          BrokenAt(start, s, i, err.value);
          return err;
        }
        if frames[i].seqNo <= prev {
          BrokenAt(start, s, i, NotAscending) by { FirstIsNonNegative(added, |start| + i); }
          return Some(NotAscending);
        }
        prev := frames[i].seqNo;
        assert s[..i + 1] == s[..i] + [s[i]];
      }
      assert s[..|frames|] == s;
      err := None;
    }
  }

  lemma FirstIsNonNegative(s: seq<int>, i: nat)
    requires NonNegative(s) && i < |s|
    ensures s[i] >= 0
  {
  }

  /** Adding `part` after `before` breaks the rule e. */
  ghost predicate BrokenBy(before: seq<int>, part: seq<int>, e: ValidationError) {
    match e
    case NegativeSeq => !NonNegative(part)
    case DuplicateSeq => !Distinct(before + part)
    case NotAscending => !Ascending(part)
    case _ => false
  }

  lemma BrokenAt(before: seq<int>, part: seq<int>, i: nat, e: ValidationError)
    requires i < |part|
    requires match e
             case NegativeSeq => part[i] < 0
             case DuplicateSeq => part[i] in before + part[..i]
             case NotAscending => i > 0 && part[i] <= part[i - 1]
             case _ => false
    ensures BrokenBy(before, part, e)
  {
    if e.DuplicateSeq? {
      var k :| 0 <= k < |before + part[..i]| && (before + part[..i])[k] == part[i];
      assert (before + part)[k] == (before + part)[|before| + i];
    }
  }

  /** A rule broken by one part of the pair's numbers is broken by the pair. */
  lemma BrokenByPart(p: StreamPair, e: ValidationError, before: seq<int>, part: seq<int>, after: seq<int>)
    requires AllSeqs(p) == before + part + after && BrokenBy(before, part, e)
    requires e.NotAscending? ==> part == SeqsOf(p.req.frames) || part == SeqsOf(p.resp.frames)
    ensures Broken(p, e) && !Sequenced(p)
  {
    match e {
      case NegativeSeq =>
        var i :| 0 <= i < |part| && part[i] < 0;
        assert AllSeqs(p)[|before| + i] < 0;
      case DuplicateSeq =>
        var i, j :| 0 <= i < j < |before + part| && (before + part)[i] == (before + part)[j];
        assert AllSeqs(p)[i] == AllSeqs(p)[j];
      case NotAscending =>
    }
  }

  /** The pair's numbers, split before each part in turn. */
  lemma Split(p: StreamPair)
    ensures var a, b, c, d := SeqsOf(p.req.frames), SeqsOf(p.resp.frames), EventSeq(p.req.halfClose), [p.resp.end.seqNo];
            AllSeqs(p) == [] + a + (b + c + d) == a + b + (c + d) == (a + b) + c + d == (a + b + c) + d + []
  {
  }

  /** go/stream.go: accepts exactly the well-typed, properly numbered pairs, and names a broken rule. */
  method ValidateStreamPair(p: StreamPair) returns (err: Option<ValidationError>)
    ensures err.None? <==> ValidType(p.req.typ) && Sequenced(p)
    ensures err.None? <==> p.req.typ in {"server", "client", "bidi"} && WellNumbered(p)
    ensures err.Some? ==> Broken(p, err.value)
  {
    hide WellNumbered;
    SequencedIff(p);
    hide NonNegative, Distinct, Ascending, BrokenBy, AllSeqs, EndIsMaximal, SeqsOf, Sequenced, SeqTable.Valid;
    if !ValidType(p.req.typ) {
      return Some(BadType);
    }
    ghost var a, b, c, d := SeqsOf(p.req.frames), SeqsOf(p.resp.frames), EventSeq(p.req.halfClose), [p.resp.end.seqNo];
    Split(p);
    var table := new SeqTable();
    err := table.AddFrames(p.req.frames);
    if err.Some? {
      BrokenByPart(p, err.value, [], a, b + c + d);
      return err;
    }
    assert table.added == [] + a == a;
    err := table.AddFrames(p.resp.frames);
    if err.Some? {
      BrokenByPart(p, err.value, a, b, c + d);
      return err;
    }
    if p.req.halfClose.Some? {
      err := table.Add(p.req.halfClose.value.seqNo);
      if err.Some? {
        BrokenAt(a + b, c, 0, err.value);
        BrokenByPart(p, err.value, a + b, c, d);
        return err;
      }
    }
    assert table.added == a + b + c;
    err := table.Add(p.resp.end.seqNo);
    if err.Some? {
      BrokenAt(a + b + c, d, 0, err.value);
      BrokenByPart(p, err.value, a + b + c, d, []);
      return err;
    }
    table.Facts();
    Accepted(p, table.added, table.maxSeq);
    if p.resp.end.seqNo != table.maxSeq {
      err := Some(EndNotMaximal);
    }
  }

  lemma Accepted(p: StreamPair, added: seq<int>, max: int)
    requires added == AllSeqs(p) && Distinct(added) && NonNegative(added) && max in added && forall x :: x in added ==> x <= max
    requires Ascending(SeqsOf(p.req.frames)) && Ascending(SeqsOf(p.resp.frames))
    ensures Sequenced(p) <==> p.resp.end.seqNo == max
    ensures p.resp.end.seqNo != max ==> Broken(p, EndNotMaximal)
  {
    hide NonNegative, Distinct, Ascending, AllSeqs;
    MaximalIff(p, max);
  }

  lemma MaximalIff(p: StreamPair, max: int)
    requires max in AllSeqs(p) && forall x :: x in AllSeqs(p) ==> x <= max
    ensures p.resp.end.seqNo == max <==> EndIsMaximal(p)
  {
    assert AllSeqs(p)[|AllSeqs(p)| - 1] == p.resp.end.seqNo && p.resp.end.seqNo in AllSeqs(p);
    if EndIsMaximal(p) {
      assert max <= p.resp.end.seqNo;
    }
  }

  // ---------------------------------------------------------------------------
  // Rust: windows per list, then collect everything, a hash set, a maximum
  // ---------------------------------------------------------------------------

  method FramesAscend(frames: seq<StreamFrame>) returns (ok: bool)
    ensures ok == Ascending(SeqsOf(frames))
  {
    ghost var s := SeqsOf(frames);
    var i := 1;
    while i < |frames|
      invariant 1 <= i && forall a, b :: 0 <= a < b < i && b < |s| ==> s[a] < s[b]
    {
      if frames[i].seqNo <= frames[i - 1].seqNo {
        assert s[i] <= s[i - 1];
        return false;
      }
      i := i + 1;
    }
    ok := true;
  }

  method ValidateSeqs(p: StreamPair) returns (ok: bool)
    ensures ok <==> Distinct(AllSeqs(p)) && EndIsMaximal(p)
  {
    var all := AllSeqs(p);
    var seen: set<int> := {};
    var max := all[0];
    for i := 0 to |all|
      invariant forall x :: x in seen <==> x in all[..i]
      invariant Distinct(all[..i])
      invariant max in all && forall x :: x in all[..i] ==> x <= max
    {
      if all[i] in seen {
        ghost var k :| 0 <= k < |all[..i]| && all[..i][k] == all[i];
        assert all[k] == all[i];
        return false;
      }
      seen := seen + {all[i]};
      if all[i] > max {
        max := all[i];
      }
      assert all[..i + 1] == all[..i] + [all[i]];
    }
    assert all[..|all|] == all;
    MaximalIff(p, max);
    ok := p.resp.end.seqNo == max;
  }

  /** rs/src/stream.rs accepts a typed pair exactly when Go's rules do; seq is unsigned there. */
  method ParseAndValidate(p: StreamPair) returns (ok: bool)
    requires NonNegative(AllSeqs(p))
    ensures ok <==> Sequenced(p)
    ensures ok <==> WellNumbered(p)
  {
    SequencedIff(p);
    ok := FramesAscend(p.req.frames);
    if ok {
      ok := FramesAscend(p.resp.frames);
    }
    if ok {
      ok := ValidateSeqs(p);
    }
  }

  // ---------------------------------------------------------------------------
  // PHP: a count, a uniqueness test and a maximum decide density
  // ---------------------------------------------------------------------------

  ghost function SetOf(s: seq<int>): set<int> {
    set x | x in s
  }

  ghost function UpTo(n: nat): (r: set<int>)
    ensures forall k :: k in r <==> 0 <= k < n
  {
    if n == 0 then {} else UpTo(n - 1) + {n - 1}
  }

  lemma {:induction false} UpToSize(n: nat)
    ensures |UpTo(n)| == n
  {
    if n > 0 {
      UpToSize(n - 1);
    }
  }

  lemma {:induction false} DistinctIffCounted(s: seq<int>)
    ensures |SetOf(s)| <= |s|
    ensures |SetOf(s)| == |s| <==> Distinct(s)
  {
    if s != [] {
      var front, last := s[..|s| - 1], s[|s| - 1];
      DistinctIffCounted(front);
      assert SetOf(s) == SetOf(front) + {last};
      if last in front {
        var k :| 0 <= k < |front| && front[k] == last;
        assert s[k] == s[|s| - 1];
      }
    }
  }

  lemma SubsetOfSameSize(a: set<int>, b: set<int>)
    requires a <= b && |a| == |b|
    ensures a == b
  {
    assert b == a + (b - a) && |b - a| == |b| - |a|;
    assert b - a == {};
  }

  /** Unique non-negative numbers with maximum N-1 are exactly 0..N-1, and conversely. */
  lemma DenseByCounting(s: seq<int>, max: int)
    requires NonNegative(s) && max in s && forall x :: x in s ==> x <= max
    ensures Distinct(s) && max == |s| - 1 <==> Dense(s)
  {
    UpToSize(|s|);
    DistinctIffCounted(s);
    if Distinct(s) && max == |s| - 1 {
      assert SetOf(s) <= UpTo(|s|);
      SubsetOfSameSize(SetOf(s), UpTo(|s|));
      assert forall k :: k in s <==> k in UpTo(|s|);
    }
    if Dense(s) {
      assert SetOf(s) == UpTo(|s|);
      assert |s| - 1 in s;
    }
  }

  method Maximum(s: seq<int>) returns (max: int)
    requires s != []
    ensures max in s && forall x :: x in s ==> x <= max
  {
    max := s[0];
    for i := 0 to |s|
      invariant max in s && forall x :: x in s[..i] ==> x <= max
    {
      if s[i] > max {
        max := s[i];
      }
      assert s[..i + 1] == s[..i] + [s[i]];
    }
    assert s[..|s|] == s;
  }

  /** php StreamParser::validateSeqDomain, after parseFrames has checked the order of each list. */
  method ValidateSeqDomain(p: StreamPair) returns (ok: bool)
    requires NonNegative(AllSeqs(p))
    ensures ok <==> Dense(AllSeqs(p)) && EndIsMaximal(p)
  {
    var seqs := SeqsOf(p.req.frames) + EventSeq(p.req.halfClose) + SeqsOf(p.resp.frames) + [p.resp.end.seqNo];
    SameNumbers(p, seqs);
    var unique := set x | x in seqs;
    assert unique == SetOf(AllSeqs(p));
    DistinctIffCounted(AllSeqs(p));
    var max := Maximum(seqs);
    DenseByCounting(AllSeqs(p), max);
    MaximalIff(p, max);
    ok := |unique| == |seqs| && p.resp.end.seqNo == max && max == |seqs| - 1;
  }

  lemma SameNumbers(p: StreamPair, seqs: seq<int>)
    requires seqs == SeqsOf(p.req.frames) + EventSeq(p.req.halfClose) + SeqsOf(p.resp.frames) + [p.resp.end.seqNo]
    ensures |seqs| == |AllSeqs(p)| && forall x :: x in seqs <==> x in AllSeqs(p)
  {
    var a, b, c, d := SeqsOf(p.req.frames), EventSeq(p.req.halfClose), SeqsOf(p.resp.frames), [p.resp.end.seqNo];
    assert forall x :: x in a + b + c + d <==> x in a || x in b || x in c || x in d;
    assert forall x :: x in a + c + b + d <==> x in a || x in b || x in c || x in d;
  }

  lemma DenseIsDistinct(s: seq<int>)
    requires Dense(s)
    ensures Distinct(s)
  {
    UpToSize(|s|);
    DistinctIffCounted(s);
    assert SetOf(s) == UpTo(|s|);
  }

  /** A well-numbered pair is dense exactly when the end's number is the number of the other events. */
  lemma DenseIff(p: StreamPair)
    ensures Sequenced(p) <==> WellNumbered(p)
    ensures Sequenced(p) ==>
              (Dense(AllSeqs(p))
               <==> p.resp.end.seqNo == |p.req.frames| + |p.resp.frames| + if p.req.halfClose.Some? then 1 else 0)
  {
    hide WellNumbered, AllSeqs, Dense;
    SequencedIff(p);
    SeqsByPlace(p);
    if Sequenced(p) {
      assert p.resp.end.seqNo == AllSeqs(p)[|AllSeqs(p)| - 1] && p.resp.end.seqNo in AllSeqs(p);
      DenseByCounting(AllSeqs(p), p.resp.end.seqNo);
    }
  }

  /** php StreamParser::parsePair on a typed pair: Go's rules, and numbering dense from 0. */
  method ParsePair(p: StreamPair) returns (ok: bool)
    requires NonNegative(AllSeqs(p))
    ensures ok <==> Sequenced(p) && Dense(AllSeqs(p))
    ensures ok <==> WellNumbered(p) && p.resp.end.seqNo == |p.req.frames| + |p.resp.frames| + if p.req.halfClose.Some? then 1 else 0
  {
    DenseIff(p);
    ok := FramesAscend(p.req.frames);
    if ok {
      ok := FramesAscend(p.resp.frames);
    }
    if ok {
      ok := ValidateSeqDomain(p);
    }
    if Dense(AllSeqs(p)) {
      DenseIsDistinct(AllSeqs(p));
    }
  }
}
