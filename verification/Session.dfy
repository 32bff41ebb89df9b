/**
 Sessions: opening streams for recording or replay, and the occurrence counters that
 address repeated opens (go/stream_session.go, rs/src/stream_fingerprint.rs).
 */
module Session {
  import opened Prelude
  import opened StreamModel
  import opened CanonicalJson
  import EscapeRepair
  import R = Recording
  import P = Replay

  datatype Mode = RecordMode | ReplayMode | PassthroughMode

  datatype OpenFailure =
    | WrongMode
    | NoCassette
    | NoAdapterId
    | BadOpen(error: OpenError)
    | NotLoaded(cause: R.LoadError)
    | TypeMismatch

  // ---------------------------------------------------------------------------
  // Addressing
  // ---------------------------------------------------------------------------

  type Counters = map<Bytes, nat>

  /** Adapter id, NUL, canonical identity without the ordinal. */
  function CounterKey(open: StreamOpen): Bytes {
    Utf8All(open.adapterId) + [0] + Canonical(open, -1)
  }

  function CountOf<K>(counts: map<K, nat>, key: K): nat {
    if key in counts then counts[key] else 0
  }

  predicate Counts(open: StreamOpen) {
    Acceptable(open) && open.counter
  }

  function Consume(counts: Counters, open: StreamOpen): Counters {
    if Counts(open) then counts[CounterKey(open) := CountOf(counts, CounterKey(open)) + 1] else counts
  }

  /** The ordinal an open gets; -1 when it is content-addressed. */
  function Ordinal(counts: Counters, open: StreamOpen): int {
    if open.counter then CountOf(counts, CounterKey(open)) else -1
  }

  /** The hash is an arbitrary function; what takes it to tell all texts apart says so. */
  function Fingerprint(hash: Bytes -> string, open: StreamOpen, n: int): string {
    hash(Canonical(open, if open.counter then n else -1))
  }

  method StreamFingerprint(hash: Bytes -> string, open: StreamOpen, n: int) returns (r: Result<string, OpenError>)
    ensures r == if open.counter && n < 0 then Err(MissingOrdinal)
                 else if !ValidType(open.typ) then Err(BadStreamType)
                 else if !Acceptable(open) then Err(ReservedKey)
                 else if open.counter then Ok(hash(Canonical(open, n)))
                 else Ok(hash(Canonical(open, -1)))
  {
    var ordinal := -1;
    if open.counter {
      if n < 0 {
        return Err(MissingOrdinal);
      }
      ordinal := n;
    }
    var text := EscapeRepair.StreamCanonical(open, ordinal);
    if text.Err? {
      return Err(text.error);
    }
    r := Ok(hash(text.value));
  }

  // ---------------------------------------------------------------------------
  // The session object
  // ---------------------------------------------------------------------------

  /** What an open of the given type can be served from. */
  ghost predicate Servable(stored: R.Stored, typ: string) {
    stored.Streamed? && ValidType(stored.pair.req.typ) && Sequenced(stored.pair) && stored.pair.req.typ == typ
  }

  class FileSession {
    const mode: Mode
    const cassette: R.FileCassette?
    const streamScrub: Option<R.Scrub>
    const hash: Bytes -> string
    const sha: Bytes -> string
    var streamN: Counters

    constructor (mode: Mode, cassette: R.FileCassette?, scrub: Option<R.Scrub>, hash: Bytes -> string, sha: Bytes -> string)
      ensures this.mode == mode && this.cassette == cassette && streamScrub == scrub && this.hash == hash && this.sha == sha
      ensures streamN == map[]
    {
      this.mode, this.cassette, streamScrub, this.hash, this.sha := mode, cassette, scrub, hash, sha;
      streamN := map[];
    }

    method NextStreamN(key: Bytes) returns (n: nat)
      modifies this
      ensures n == CountOf(old(streamN), key) && streamN == old(streamN)[key := n + 1]
    {
      n := if key in streamN then streamN[key] else 0;
      streamN := streamN[key := n + 1];
    }

    method StreamOpenFingerprint(open: StreamOpen) returns (r: Result<(string, int), OpenError>)
      modifies this
      ensures streamN == Consume(old(streamN), open)
      ensures streamN == if r.Ok? && open.counter
                         then old(streamN)[CounterKey(open) := CountOf(old(streamN), CounterKey(open)) + 1] else old(streamN)
      ensures r == if !ValidType(open.typ) then Err(BadStreamType)
                   else if !Acceptable(open) then Err(ReservedKey)
                   else if open.counter then
                     var n: int := CountOf(old(streamN), CounterKey(open)); Ok((hash(Canonical(open, n)), n))
                   else Ok((hash(Canonical(open, -1)), -1))
    {
      hide Canonical, ValidType;
      var n: int := -1;
      if open.counter {
        var base := EscapeRepair.StreamCanonical(open, -1);
        if base.Err? {
          return Err(base.error);
        }
        n := NextStreamN(Utf8All(open.adapterId) + [0] + base.value);
      }
      var fp := StreamFingerprint(hash, open, n);
      r := if fp.Err? then Err(fp.error) else Ok((fp.value, n));
    }

    function CheckStreamOpen(open: StreamOpen, want: Mode): Option<OpenFailure> {
      if mode != want then Some(WrongMode)
      else if cassette == null then Some(NoCassette)
      else if open.adapterId == "" then Some(NoAdapterId)
      else None
    }

    /** The recording configuration of an open that gets ordinal n. */
    function RecordConfig(open: StreamOpen, n: int): R.RecConfig {
      R.RecConfig(open.adapterId, Fingerprint(hash, open, n), open.typ,
                  if n >= 0 then open.payload[ORDINAL_KEY := Number(n)] else open.payload, streamScrub)
    }

    method OpenStreamRecord(open: StreamOpen) returns (r: Result<R.StreamRecording, OpenFailure>)
      modifies this
      ensures r.Err? && r.error.WrongMode? <==> mode != RecordMode
      ensures r.Err? && r.error.NoCassette? <==> mode == RecordMode && cassette == null
      ensures r.Err? && r.error.NoAdapterId? <==> mode == RecordMode && cassette != null && open.adapterId == ""
      ensures r.Ok? <==> mode == RecordMode && cassette != null && open.adapterId != "" && open.typ in {"server", "client", "bidi"}
                         && "stream" !in open.identity && "n" !in open.identity
      ensures r.Ok? ==>
                var n := CountOf(old(streamN), CounterKey(open));
                r.value.cfg == if open.counter
                               then R.RecConfig(open.adapterId, hash(Canonical(open, n)), open.typ, open.payload["n" := Number(n)], streamScrub)
                               else R.RecConfig(open.adapterId, hash(Canonical(open, -1)), open.typ, open.payload, streamScrub)
      ensures CheckStreamOpen(open, RecordMode).Some? ==>
                r == Err(CheckStreamOpen(open, RecordMode).value) && streamN == old(streamN)
      ensures CheckStreamOpen(open, RecordMode).None? ==>
                && streamN == Consume(old(streamN), open)
                && (r.Ok? <==> Acceptable(open))
                && (r.Ok? ==> && fresh(r.value) && r.value.cassette == cassette
                              && r.value.State() == R.Opened && r.value.Valid()
                              && r.value.cfg == RecordConfig(open, Ordinal(old(streamN), open)))
    {
      var refused := CheckStreamOpen(open, RecordMode);
      if refused.Some? {
        return Err(refused.value);
      }
      var address := StreamOpenFingerprint(open);
      if address.Err? {
        return Err(BadOpen(address.error));
      }
      var (fp, n) := address.value;
      var payload := if n >= 0 then open.payload[ORDINAL_KEY := Number(n)] else open.payload;
      var recording := new R.StreamRecording(cassette, R.RecConfig(open.adapterId, fp, open.typ, payload, streamScrub));
      r := Ok(recording);
    }

    /** Hit or miss, the counter is consumed as in record mode. */
    method OpenStreamReplay(open: StreamOpen) returns (r: Result<P.StreamReplay, OpenFailure>)
      modifies this
      ensures r.Err? && r.error.WrongMode? <==> mode != ReplayMode
      ensures r.Err? && r.error.NoCassette? <==> mode == ReplayMode && cassette == null
      ensures r.Err? && r.error.NoAdapterId? <==> mode == ReplayMode && cassette != null && open.adapterId == ""
      ensures r.Ok? ==>
                var n := CountOf(old(streamN), CounterKey(open));
                var name := (open.adapterId, if open.counter then hash(Canonical(open, n)) else hash(Canonical(open, -1)));
                && name in cassette.files && cassette.files[name] == R.Streamed(r.value.cfg.pair)
                && r.value.cfg.scrub == streamScrub && r.value.cfg.info == R.ScrubInfo(open.adapterId, open.typ)
      ensures CheckStreamOpen(open, ReplayMode).Some? ==>
                r == Err(CheckStreamOpen(open, ReplayMode).value) && streamN == old(streamN)
      ensures CheckStreamOpen(open, ReplayMode).None? ==>
                var name := (open.adapterId, Fingerprint(hash, open, Ordinal(old(streamN), open)));
                && streamN == Consume(old(streamN), open)
                && (r.Err? && r.error.BadOpen? <==> !Acceptable(open))
                && (Acceptable(open) ==>
                      match r
                      case Ok(replay) =>
                        && fresh(replay) && replay.State() == P.Opened && replay.cfg.sha == sha
                        && name in cassette.files
                        && cassette.files[name] == R.Streamed(replay.cfg.pair)
                        && replay.cfg.pair.req.typ == open.typ
                        && replay.cfg.scrub == streamScrub && replay.cfg.info == R.ScrubInfo(open.adapterId, open.typ)
                      case Err(NotLoaded(CassetteMiss)) => name !in cassette.files
                      case Err(_) => name in cassette.files)
                && (Acceptable(open) ==> (r.Ok? <==> name in cassette.files && Servable(cassette.files[name], open.typ)))
    {
      hide Sequenced, Canonical, ValidType, Broken;
      var refused := CheckStreamOpen(open, ReplayMode);
      if refused.Some? {
        return Err(refused.value);
      }
      var address := StreamOpenFingerprint(open);
      if address.Err? {
        return Err(BadOpen(address.error));
      }
      var loaded := cassette.LoadStream(open.adapterId, address.value.0);
      if loaded.Err? {
        if loaded.error.Malformed? {
          BrokenIsNotValid(cassette.files[(open.adapterId, address.value.0)].pair, loaded.error.error);
        }
        return Err(NotLoaded(loaded.error));
      }
      if loaded.value.req.typ != open.typ {
        return Err(TypeMismatch);
      }
      var replay := new P.StreamReplay(P.ReplayConfig(loaded.value, streamScrub, R.ScrubInfo(open.adapterId, open.typ), sha));
      r := Ok(replay);
    }
  }

  // ---------------------------------------------------------------------------
  // The counter key is the identifying tuple
  // ---------------------------------------------------------------------------

  lemma EarlierSplitHoldsNul(a: Bytes, s: Bytes, b: Bytes, t: Bytes)
    requires a + [0] + s == b + [0] + t && |a| < |b|
    ensures !NoNul(s)
  {
    var k := |b| - |a| - 1;
    assert s[k] == (a + [0] + s)[|b|] == (b + [0] + t)[|b|];
  }

  lemma SplitAtLastNul(a: Bytes, s: Bytes, b: Bytes, t: Bytes)
    requires a + [0] + s == b + [0] + t && NoNul(s) && NoNul(t)
    ensures a == b && s == t
  {
    hide NoNul;
    if |a| < |b| {
      EarlierSplitHoldsNul(a, s, b, t);
    } else if |b| < |a| {
      EarlierSplitHoldsNul(b, t, a, s);
    }
    SplitSame(a + [0], s, b + [0], t);
    SplitSame(a, [0], b, [0]);
  }

  /** Opens share a counter exactly when adapter, stream type and identity agree: canonical JSON holds no raw NUL. */
  lemma CounterKeyIdentifies(o: StreamOpen, o': StreamOpen)
    requires Acceptable(o) && Acceptable(o')
    ensures CounterKey(o) == CounterKey(o')
            <==> o.adapterId == o'.adapterId && o.typ == o'.typ && o.identity == o'.identity
  {
    hide Canonical, Acceptable;
    CanonicalIdentifies(o, -1, o', -1);
    if CounterKey(o) == CounterKey(o') {
      CanonicalHasNoNul(o, -1);
      CanonicalHasNoNul(o', -1);
      SplitAtLastNul(Utf8All(o.adapterId), Canonical(o, -1), Utf8All(o'.adapterId), Canonical(o', -1));
      Utf8AllInjective(o.adapterId, o'.adapterId);
    }
  }

  // ---------------------------------------------------------------------------
  // Rust: counters of their own, and a gRPC shorthand that shares them
  // ---------------------------------------------------------------------------

  /** The open of a counter-addressed gRPC stream, as far as addressing goes. */
  function GrpcOpen(service: string, method': string, typ: string): StreamOpen {
    StreamOpen("grpc", typ, map[SERVICE_KEY := Text(service), METHOD_KEY := Text(method')], true, map[])
  }

  /** The text that the shorthand writes out by hand. */
  function HandWritten(service: string, method': string, typ: string): Bytes {
    [OPEN_BRACE] + JsonString(METHOD_KEY) + [COLON] + JsonString(method') + [COMMA]
    + JsonString(SERVICE_KEY) + [COLON] + JsonString(service) + [COMMA]
    + JsonString(STREAM_KEY) + [COLON] + ([QUOTE] + Utf8All(typ) + [QUOTE]) + [CLOSE_BRACE]
  }

  lemma {:induction false} PlainEscape(s: string)
    requires forall i :: 0 <= i < |s| ==> 0x20 <= s[i] as int < 0x7F && s[i] != '"' && s[i] != '\\'
    ensures Escape(s) == Utf8All(s)
  {
    if s != [] {
      PlainEscape(s[1..]);
    }
  }

  lemma JoinedThree(a: Bytes, b: Bytes, c: Bytes)
    ensures Joined([a, b, c]) == a + [COMMA] + (b + [COMMA] + c)
  {
    assert [a, b, c][1..] == [b, c] && [b, c][1..] == [c];
    assert Joined([c]) == c && Joined([b, c]) == b + [COMMA] + c;
  }

  lemma GrpcEntries(service: string, method': string, typ: string)
    ensures Entries(InputsOf(GrpcOpen(service, method', typ), -1))
            == [Entry(METHOD_KEY, Text(method')), Entry(SERVICE_KEY, Text(service)), Entry(STREAM_KEY, Text(typ))]
  {
    hide SortedKeys, Entries;
    GrpcKeysInOrder();
    var m := InputsOf(GrpcOpen(service, method', typ), -1);
    KeysDiffer();
    ThreeKeys(SERVICE_KEY, Text(service), METHOD_KEY, Text(method'), STREAM_KEY, Text(typ));
    ThreeEntries(m, METHOD_KEY, SERVICE_KEY, STREAM_KEY);
  }

  lemma ThreeKeys(a: string, u: Value, b: string, v: Value, c: string, w: Value)
    requires a != b && a != c && b != c
    ensures var m: Inputs := map[a := u, b := v][c := w];
            m.Keys == {b, a, c} && m[a] == u && m[b] == v && m[c] == w
  {
  }

  lemma ThreeEntries(m: Inputs, a: string, b: string, c: string)
    requires m.Keys == {a, b, c} && SortedKeys({a, b, c}) == [a, b, c]
    ensures Entries(m) == [Entry(a, m[a]), Entry(b, m[b]), Entry(c, m[c])]
  {
    hide SortedKeys, Entries;
    EntryAt(m, 0);
    EntryAt(m, 1);
    EntryAt(m, 2);
  }

  lemma HandWrittenIsCanonical(service: string, method': string, typ: string)
    requires ValidType(typ)
    ensures HandWritten(service, method', typ) == Canonical(GrpcOpen(service, method', typ), -1)
  {
    hide Escape, Utf8All, Entries, InputsOf, Canonical, GrpcOpen;
    PlainEscape(typ);
    GrpcEntries(service, method', typ);
    ThreeEntryObject(GrpcOpen(service, method', typ), METHOD_KEY, Text(method'), SERVICE_KEY, Text(service), STREAM_KEY, Text(typ));
  }

  lemma ThreeEntryObject(open: StreamOpen, a: string, u: Value, b: string, v: Value, c: string, w: Value)
    requires Entries(InputsOf(open, -1)) == [Entry(a, u), Entry(b, v), Entry(c, w)]
    ensures Canonical(open, -1)
            == [OPEN_BRACE] + JsonString(a) + [COLON] + JsonValue(u) + [COMMA] + JsonString(b) + [COLON] + JsonValue(v) + [COMMA]
               + JsonString(c) + [COLON] + JsonValue(w) + [CLOSE_BRACE]
  {
    hide Entries, InputsOf, JsonString, JsonValue, Joined, EntryTexts;
    ThreeTexts(Entry(a, u), Entry(b, v), Entry(c, w));
    JoinedThree(EntryText(Entry(a, u)), EntryText(Entry(b, v)), EntryText(Entry(c, w)));
    Assembled(JsonString(a), JsonValue(u), JsonString(b), JsonValue(v), JsonString(c), JsonValue(w));
  }

  lemma Assembled(k: Bytes, u: Bytes, l: Bytes, v: Bytes, m: Bytes, w: Bytes)
    ensures [OPEN_BRACE] + ((k + [COLON] + u) + [COMMA] + ((l + [COLON] + v) + [COMMA] + (m + [COLON] + w))) + [CLOSE_BRACE]
            == [OPEN_BRACE] + k + [COLON] + u + [COMMA] + l + [COLON] + v + [COMMA] + m + [COLON] + w + [CLOSE_BRACE]
  {
  }

  lemma ThreeTexts(a: Entry, b: Entry, c: Entry)
    ensures EntryTexts([a, b, c]) == [EntryText(a), EntryText(b), EntryText(c)]
  {
    hide EntryText;
    assert [a, b, c][1..] == [b, c] && [b, c][1..] == [c] && [c][1..] == [];
    assert EntryTexts([c]) == [EntryText(c)] && EntryTexts([b, c]) == [EntryText(b), EntryText(c)];
  }

  class StreamCounters {
    var counts: Counters

    constructor ()
      ensures counts == map[]
    {
      counts := map[];
    }

    method NextKey(key: Bytes) returns (n: nat)
      modifies this
      ensures n == CountOf(old(counts), key) && counts == old(counts)[key := n + 1]
    {
      if key !in counts {
        counts := counts[key := 0];
      }
      n := counts[key];
      counts := counts[key := n + 1];
    }

    method NextOpen(open: StreamOpen) returns (r: Result<nat, OpenError>)
      requires ValidType(open.typ)
      modifies this
      ensures if Acceptable(open) then
                r == Ok(CountOf(old(counts), CounterKey(open))) && counts == old(counts)[CounterKey(open) := r.value + 1]
              else
                r == Err(ReservedKey) && counts == old(counts)
    {
      hide ObjectText;
      var inputs := CollectInputs(open, -1);
      if inputs.Err? {
        return Err(inputs.error);
      }
      var n := NextKey(Utf8All(open.adapterId) + [0] + ObjectText(inputs.value));
      r := Ok(n);
    }

    /** Counts exactly as the open of the same tuple does. */
    method Next(service: string, method': string, typ: string) returns (n: nat)
      requires ValidType(typ)
      modifies this
      ensures var key := CounterKey(GrpcOpen(service, method', typ));
              n == CountOf(old(counts), key) && counts == old(counts)[key := n + 1]
    {
      hide HandWritten, Canonical, Utf8All;
      HandWrittenIsCanonical(service, method', typ);
      n := NextKey(Utf8All("grpc") + [0] + HandWritten(service, method', typ));
    }
  }

  // ---------------------------------------------------------------------------
  // Ordinals over a whole session
  // ---------------------------------------------------------------------------

  function CountersAfter(opens: seq<StreamOpen>): Counters {
    if opens == [] then map[] else Consume(CountersAfter(opens[..|opens| - 1]), opens[|opens| - 1])
  }

  /** The ordinal that the i-th open of a session gets. */
  function Assigned(opens: seq<StreamOpen>, i: nat): int
    requires i < |opens|
  {
    Ordinal(CountersAfter(opens[..i]), opens[i])
  }

  /** How many opens of a tuple there are. */
  function OpensOf(opens: seq<StreamOpen>, o: StreamOpen): nat {
    if opens == [] then 0
    else
      var last := opens[|opens| - 1];
      OpensOf(opens[..|opens| - 1], o)
      + if last.counter && Acceptable(last) && last.adapterId == o.adapterId && last.typ == o.typ && last.identity == o.identity then 1 else 0
  }

  lemma {:induction false} CounterIsOpensOf(opens: seq<StreamOpen>, o: StreamOpen)
    requires Acceptable(o)
    ensures CountOf(CountersAfter(opens), CounterKey(o)) == OpensOf(opens, o)
  {
    hide CounterKey, Acceptable;
    if opens != [] {
      var last := opens[|opens| - 1];
      CounterIsOpensOf(opens[..|opens| - 1], o);
      if Counts(last) {
        CounterKeyIdentifies(last, o);
      }
    }
  }

  /**
   Counter determinism: the ordinal of an open is the number of earlier opens of its own
   tuple, whatever opens of other tuples came between; so two sessions in which it is the
   same occurrence of the same tuple give it the same ordinal and the same fingerprint.
   */
  lemma CounterDeterminism(hash: Bytes -> string, a: seq<StreamOpen>, i: nat, b: seq<StreamOpen>, j: nat)
    requires i < |a| && j < |b| && Counts(a[i]) && Counts(b[j])
    requires a[i].adapterId == b[j].adapterId && a[i].typ == b[j].typ && a[i].identity == b[j].identity
    ensures Assigned(a, i) == OpensOf(a[..i], a[i])
    ensures OpensOf(a[..i], a[i]) == OpensOf(b[..j], b[j]) ==>
              && Assigned(a, i) == Assigned(b, j)
              && Fingerprint(hash, a[i], Assigned(a, i)) == Fingerprint(hash, b[j], Assigned(b, j))
  {
    hide CounterKey, Canonical, CountersAfter, OpensOf;
    CounterIsOpensOf(a[..i], a[i]);
    CounterIsOpensOf(b[..j], b[j]);
    if Assigned(a, i) == Assigned(b, j) {
      CanonicalIdentifies(a[i], Assigned(a, i), b[j], Assigned(b, j));
    }
  }

  lemma {:induction false} OpensOfGrows(opens: seq<StreamOpen>, i: nat, o: StreamOpen)
    requires i <= |opens|
    ensures OpensOf(opens[..i], o) <= OpensOf(opens, o)
  {
    if i < |opens| {
      assert opens[..|opens| - 1][..i] == opens[..i];
      OpensOfGrows(opens[..|opens| - 1], i, o);
    } else {
      assert opens[..i] == opens;
    }
  }

  /** Within a session, a counter-addressed open never shares its address text with another accepted open of the same adapter. */
  lemma AddressesAreDistinct(opens: seq<StreamOpen>, i: nat, j: nat)
    requires i < j < |opens| && Acceptable(opens[i]) && Acceptable(opens[j]) && opens[i].adapterId == opens[j].adapterId
    requires opens[i].counter || opens[j].counter
    ensures Canonical(opens[i], Assigned(opens, i)) != Canonical(opens[j], Assigned(opens, j))
  {
    hide CounterKey, Canonical, CountersAfter, Acceptable;
    var o, p := opens[i], opens[j];
    CanonicalIdentifies(o, Assigned(opens, i), p, Assigned(opens, j));
    if o.counter && p.counter && o.typ == p.typ && o.identity == p.identity {
      CounterIsOpensOf(opens[..i], o);
      CounterIsOpensOf(opens[..j], p);
      CounterKeyIdentifies(o, p);
      assert opens[..j][..i + 1] == opens[..i + 1];
      OpensOfGrows(opens[..j], i + 1, o);
      assert opens[..i + 1][..i] == opens[..i];
      SameTuple(opens[..j], o, p);
    }
  }

  /** The hash tells all texts apart. */
  ghost predicate Injective(hash: Bytes -> string) {
    forall a: Bytes, b: Bytes :: hash(a) == hash(b) ==> a == b
  }

  /** As the i-th open of its session an open is filed under this, and refused opens under nothing. */
  ghost predicate FiledUnder(hash: Bytes -> string, opens: seq<StreamOpen>, i: nat, fingerprint: string)
    requires i < |opens|
  {
    var o := opens[i];
    Acceptable(o) && fingerprint == if o.counter then hash(Canonical(o, CountOf(CountersAfter(opens[..i]), CounterKey(o))))
                                    else hash(Canonical(o, -1))
  }

  /**
   Under a hash that tells texts apart, two opens of one adapter in a session get one
   fingerprint exactly when both are addressed by content and have the same type and identity.
   */
  lemma FingerprintsDiffer(hash: Bytes -> string, opens: seq<StreamOpen>, i: nat, j: nat, fp: string, fp': string)
    requires Injective(hash) && i < j < |opens| && opens[i].adapterId == opens[j].adapterId
    requires FiledUnder(hash, opens, i, fp) && FiledUnder(hash, opens, j, fp')
    ensures fp == fp' <==> !opens[i].counter && !opens[j].counter && opens[i].typ == opens[j].typ && opens[i].identity == opens[j].identity
    ensures fp == Fingerprint(hash, opens[i], Assigned(opens, i)) && fp' == Fingerprint(hash, opens[j], Assigned(opens, j))
  {
    hide CounterKey, Canonical, CountersAfter, Acceptable;
    if opens[i].counter || opens[j].counter {
      AddressesAreDistinct(opens, i, j);
    } else {
      CanonicalIdentifies(opens[i], -1, opens[j], -1);
    }
  }

  lemma {:induction false} SameTuple(opens: seq<StreamOpen>, o: StreamOpen, p: StreamOpen)
    requires o.adapterId == p.adapterId && o.typ == p.typ && o.identity == p.identity
    ensures OpensOf(opens, o) == OpensOf(opens, p)
  {
    if opens != [] {
      SameTuple(opens[..|opens| - 1], o, p);
    }
  }
}
