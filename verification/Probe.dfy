/**
 The replay connection's shadow counter: asking whether the cassette of the next open
 exists without consuming the session's counter (go/adapters/grpctransport/replay.go, record.go).
 */
module Probe {
  import opened Prelude
  import opened StreamModel
  import opened CanonicalJson
  import opened Session
  import R = Recording
  import P = Replay

  const ADAPTER_ID := "grpc"

  /** Server streams are addressed by the scrubbed open message, the others by the counter. */
  function StreamOpenFor(scrub: Option<R.Scrub>, hash: Bytes -> string, typ: string, service: string, method': string,
                         openMsg: Bytes): StreamOpen
  {
    var payload: Payload := map["service" := Text(service), "method" := Text(method')];
    if typ == SERVER then
      var scrubbed := R.ScrubFrame(scrub, R.SendDir, R.ScrubInfo(ADAPTER_ID, typ), openMsg);
      StreamOpen(ADAPTER_ID, typ, payload["msg_hash" := Text(hash(scrubbed))], false, payload)
    else
      StreamOpen(ADAPTER_ID, typ, payload, true, payload)
  }

  const METHOD_FIELD := "\0method="
  const SERVICE_FIELD := "\0service="

  /** counterKey of a counter-addressed gRPC open: its identity keys in order are method and service. */
  function ShadowKey(typ: string, service: string, method': string): string {
    ADAPTER_ID + "\0" + typ + METHOD_FIELD + method' + SERVICE_FIELD + service
  }

  /** fmt's %v of an identity value. */
  function Shown(v: Value): string {
    match v
    case Text(text) => text
    case Number(n) => if n < 0 then "-" + Decimal(-n) else Decimal(n)
  }

  /** The identity fields under the given keys. */
  function FieldsText(keys: seq<string>, identity: Inputs): string
    requires forall k :: k in keys ==> k in identity
  {
    if keys == [] then ""
    else
      var last := keys[|keys| - 1];
      FieldsText(keys[..|keys| - 1], identity) + "\0" + last + "=" + Shown(identity[last])
  }

  lemma NoFields(identity: Inputs)
    ensures FieldsText([], identity) == ""
  {
  }

  lemma FieldsStep(head: string, keys: seq<string>, i: nat, identity: Inputs)
    requires i < |keys| && forall k :: k in keys ==> k in identity
    ensures head + FieldsText(keys[..i + 1], identity)
            == head + FieldsText(keys[..i], identity) + "\0" + keys[i] + "=" + Shown(identity[keys[i]])
  {
    hide Shown;
    var before, x, nul, eq := FieldsText(keys[..i], identity), Shown(identity[keys[i]]), "\0", "=";
    assert keys[..i + 1][..i] == keys[..i];
    assert FieldsText(keys[..i + 1], identity) == before + nul + keys[i] + eq + x;
    assert head + (before + nul + keys[i] + eq + x) == head + before + nul + keys[i] + eq + x;
  }

  /** go counterKey: adapter id, type, then the identity in key order. */
  method CounterKeyOf(open: StreamOpen) returns (key: string)
    ensures key == open.adapterId + "\0" + open.typ + FieldsText(SortedKeys(open.identity.Keys), open.identity)
  {
    hide SortedKeys, Shown, FieldsText;
    var keys := SortedKeys(open.identity.Keys);
    assert forall k :: k in keys ==> k in open.identity.Keys;
    key := open.adapterId + "\0" + open.typ;
    ghost var head := key;
    NoFields(open.identity);
    assert keys[..0] == [] && head + "" == head;
    for i := 0 to |keys|
      invariant key == head + FieldsText(keys[..i], open.identity)
    {
      FieldsStep(head, keys, i, open.identity);
      key := key + "\0" + keys[i] + "=" + Shown(open.identity[keys[i]]);
    }
    assert keys[..|keys|] == keys;
  }

  lemma GrpcCounterKey(open: StreamOpen, service: string, method': string)
    requires open.adapterId == ADAPTER_ID && open.identity == map["service" := Text(service), "method" := Text(method')]
    ensures open.adapterId + "\0" + open.typ + FieldsText(SortedKeys(open.identity.Keys), open.identity)
            == ShadowKey(open.typ, service, method')
  {
    hide SortedKeys, FieldsText;
    GrpcKeysInOrder();
    KeysDiffer();
    assert open.identity.Keys == {METHOD_KEY, SERVICE_KEY};
    TwoFields(METHOD_KEY, method', SERVICE_KEY, service, open.identity);
    FieldNames();
    RegroupKey(open.adapterId + "\0" + open.typ, METHOD_FIELD, method', SERVICE_FIELD, service);
  }

  lemma FieldNames()
    ensures "\0" + METHOD_KEY + "=" == METHOD_FIELD && "\0" + SERVICE_KEY + "=" == SERVICE_FIELD
  {
  }

  lemma RegroupKey(head: string, a: string, b: string, c: string, d: string)
    ensures head + (a + b + (c + d)) == head + a + b + c + d
  {
  }

  lemma TwoFields(a: string, u: string, b: string, v: string, identity: Inputs)
    requires a in identity && identity[a] == Text(u) && b in identity && identity[b] == Text(v)
    ensures FieldsText([a, b], identity) == ("\0" + a + "=") + u + (("\0" + b + "=") + v)
  {
    var nul, eq := "\0", "=";
    assert [a, b][..1] == [a] && [a][..0] == [];
    assert FieldsText([a], identity) == "" + nul + a + eq + u;
    assert FieldsText([a, b], identity) == FieldsText([a], identity) + nul + b + eq + v;
  }

  predicate CounterType(typ: string) {
    typ == CLIENT || typ == BIDI
  }

  // ---------------------------------------------------------------------------
  // When the shadow key identifies its tuple
  // ---------------------------------------------------------------------------

  predicate SeparatorAt(s: string, i: nat) {
    i + |SERVICE_FIELD| <= |s| && s[i..i + |SERVICE_FIELD|] == SERVICE_FIELD
  }

  /** s holds the text that separates method from service. */
  ghost predicate HoldsSeparator(s: string) {
    exists i: nat :: SeparatorAt(s, i)
  }

  ghost predicate Plain(service: string, method': string) {
    !HoldsSeparator(service) && !HoldsSeparator(method')
  }

  /** NUL occurs in the separator only at its start, so two occurrences never overlap. */
  lemma SeparatorsApart(s: string, i: nat, j: nat)
    requires i < j && SeparatorAt(s, i) && SeparatorAt(s, j)
    ensures i + |SERVICE_FIELD| <= j
  {
    SeparatorChars(s, i);
    SeparatorChars(s, j);
    assert s[j] == '\0';
  }

  lemma SeparatorChars(s: string, i: nat)
    requires SeparatorAt(s, i)
    ensures forall k :: i <= k < i + |SERVICE_FIELD| ==> (s[k] == '\0' <==> k == i)
  {
    forall k | i <= k < i + |SERVICE_FIELD| ensures s[k] == '\0' <==> k == i {
      assert s[k] == s[i..i + |SERVICE_FIELD|][k - i];
    }
  }

  lemma SeparatorInside(a: string, b: string)
    ensures SeparatorAt(a + SERVICE_FIELD + b, |a|)
  {
    assert (a + SERVICE_FIELD + b)[|a|..|a| + |SERVICE_FIELD|] == SERVICE_FIELD;
  }

  /** Two ways to split one text at a separator: the longer left part holds a separator, and so does the longer right part. */
  lemma TwoSplits(m: string, s: string, m': string, s': string)
    requires m + SERVICE_FIELD + s == m' + SERVICE_FIELD + s' && |m| < |m'|
    ensures HoldsSeparator(m') && HoldsSeparator(s)
  {
    var text, n := m + SERVICE_FIELD + s, |SERVICE_FIELD|;
    SeparatorInside(m, s);
    SeparatorInside(m', s');
    SeparatorsApart(text, |m|, |m'|);
    var k := |m'| - |m| - n;
    assert m'[|m|..|m| + n] == text[|m|..|m| + n] && s[k..k + n] == text[|m'|..|m'| + n];
    assert SeparatorAt(m', |m|) && SeparatorAt(s, k);
  }

  lemma SameKeyParts(typ: string, service: string, method': string, typ': string, service': string, method'': string)
    requires CounterType(typ) && CounterType(typ')
    requires ShadowKey(typ, service, method') == ShadowKey(typ', service', method'')
    ensures typ == typ' && method' + SERVICE_FIELD + service == method'' + SERVICE_FIELD + service'
  {
    var head := ADAPTER_ID + "\0";
    var a, b := ShadowKey(typ, service, method'), ShadowKey(typ', service', method'');
    assert a == head + typ + METHOD_FIELD + (method' + SERVICE_FIELD + service);
    assert b == head + typ' + METHOD_FIELD + (method'' + SERVICE_FIELD + service');
    assert a[|head|] == typ[0] && b[|head|] == typ'[0];
    SplitSame(head + typ + METHOD_FIELD, method' + SERVICE_FIELD + service,
              head + typ' + METHOD_FIELD, method'' + SERVICE_FIELD + service');
  }

  /** A plain tuple shares its shadow key with no other tuple. */
  lemma PlainKeyIsUnique(typ: string, service: string, method': string, typ': string, service': string, method'': string)
    requires CounterType(typ) && CounterType(typ') && Plain(service, method')
    requires ShadowKey(typ, service, method') == ShadowKey(typ', service', method'')
    ensures typ == typ' && service == service' && method' == method''
  {
    hide ShadowKey, HoldsSeparator;
    SameKeyParts(typ, service, method', typ', service', method'');
    if |method'| < |method''| {
      TwoSplits(method', service, method'', service');
    } else if |method''| < |method'| {
      TwoSplits(method'', service', method', service);
    } else {
      SplitSame(method' + SERVICE_FIELD, service, method'' + SERVICE_FIELD, service');
      SplitSame(method', SERVICE_FIELD, method'', SERVICE_FIELD);
    }
  }

  /** Names without NUL, and so all that an HTTP/2 field value can carry (section 8.2.1 of RFC 9113), are plain. */
  lemma NamesWithoutNulArePlain(service: string, method': string)
    requires '\0' !in service && '\0' !in method'
    ensures Plain(service, method')
  {
    forall i: nat ensures !SeparatorAt(service, i) && !SeparatorAt(method', i) {
      NulAtSeparator(service, i);
      NulAtSeparator(method', i);
    }
  }

  lemma NulAtSeparator(s: string, i: nat)
    ensures SeparatorAt(s, i) ==> '\0' in s
  {
    if SeparatorAt(s, i) {
      SeparatorChars(s, i);
      assert s[i] == '\0';
    }
  }

  /** Any other tuple shares it with a different one, so there the condition is exact. */
  lemma OtherKeysCollide(typ: string, service: string, method': string) returns (service': string, method'': string)
    requires !Plain(service, method')
    ensures ShadowKey(typ, service, method') == ShadowKey(typ, service', method'')
    ensures service != service' || method' != method''
  {
    var n := |SERVICE_FIELD|;
    if HoldsSeparator(method') {
      var i: nat :| SeparatorAt(method', i);
      method'', service' := method'[..i], method'[i + n..] + SERVICE_FIELD + service;
      assert method' == method'[..i] + SERVICE_FIELD + method'[i + n..];
    } else {
      var i: nat :| SeparatorAt(service, i);
      method'', service' := method' + SERVICE_FIELD + service[..i], service[i + n..];
      assert service == service[..i] + SERVICE_FIELD + service[i + n..];
    }
  }

  // ---------------------------------------------------------------------------
  // The connection
  // ---------------------------------------------------------------------------

  class ReplayConn {
    const session: FileSession
    /** The cassette directory probed; null for the empty path. */
    const dir: R.FileCassette?
    var probeN: map<string, nat>

    /** In step from the start exactly when no plain tuple has been opened in the session before. */
    constructor (session: FileSession, dir: R.FileCassette?)
      ensures this.session == session && this.dir == dir && probeN == map[]
      ensures Lockstep() <==> forall typ, service, method' :: CounterType(typ) && Plain(service, method') ==>
                CountOf(session.streamN, CounterKey(OpenFor(typ, service, method', []))) == 0
    {
      this.session, this.dir, probeN := session, dir, map[];
      new;
      assert forall typ, service, method' ::
          InStep(typ, service, method') <==> CountOf(session.streamN, CounterKey(OpenFor(typ, service, method', []))) == 0;
    }

    function OpenFor(typ: string, service: string, method': string, openMsg: Bytes): StreamOpen {
      StreamOpenFor(session.streamScrub, session.hash, typ, service, method', openMsg)
    }

    /** The shadow count of every plain tuple is the session's. */
    ghost predicate Lockstep()
      reads this, session
    {
      forall typ, service, method' :: CounterType(typ) && Plain(service, method') ==> InStep(typ, service, method')
    }

    ghost predicate InStep(typ: string, service: string, method': string)
      reads this, session
    {
      CountOf(probeN, ShadowKey(typ, service, method'))
      == CountOf(session.streamN, CounterKey(OpenFor(typ, service, method', [])))
    }

    /** Whether the pair of the next open of this tuple is on file; nothing is consumed. */
    method CassetteExists(typ: string, service: string, method': string, openMsg: Bytes) returns (exists': bool)
      requires ValidType(typ)
      ensures Lockstep() && (typ == SERVER || Plain(service, method')) ==>
                var open := OpenFor(typ, service, method', openMsg);
                var fp := Fingerprint(session.hash, open, Ordinal(session.streamN, open));
                exists' <==> dir != null && (ADAPTER_ID, fp) in dir.files
    {
      hide Plain, ShadowKey, CounterKey, StreamOpenFor, Canonical;
      OpenForShape(session.streamScrub, session.hash, typ, service, method', openMsg);
      if dir == null {
        return false;
      }
      var open := OpenFor(typ, service, method', openMsg);
      var n: int := -1;
      if open.counter {
        var key := CounterKeyOf(open);
        GrpcCounterKey(open, service, method');
        n := CountOf(probeN, key);
        SameOpen(session.streamScrub, session.hash, typ, service, method', openMsg);
        assert Lockstep() && Plain(service, method') ==> InStep(typ, service, method');
      }
      var fp := StreamFingerprint(session.hash, open, n);
      exists' := fp.Ok? && (ADAPTER_ID, fp.value) in dir.files;
    }

    /** The open that `advance` performs once the stream type is chosen. */
    method OpenReal(typ: string, service: string, method': string, openMsg: Bytes)
      returns (r: Result<P.StreamReplay, OpenFailure>)
      requires ValidType(typ)
      modifies this, session
      ensures var open := OpenFor(typ, service, method', openMsg);
              session.CheckStreamOpen(open, ReplayMode).None? ==>
                && session.streamN == Consume(old(session.streamN), open)
                && (old(Lockstep()) ==> Lockstep())
                && (r == Err(NotLoaded(R.CassetteMiss)) <==>
                    (ADAPTER_ID, Fingerprint(session.hash, open, Ordinal(old(session.streamN), open))) !in session.cassette.files)
      ensures old(Lockstep()) && CounterType(typ) && Plain(service, method') ==>
                (Lockstep() <==> session.CheckStreamOpen(OpenFor(typ, service, method', openMsg), ReplayMode).None?)
    {
      hide Plain, ShadowKey, CounterKey, StreamOpenFor;
      var open := OpenFor(typ, service, method', openMsg);
      ghost var counts, shadow := session.streamN, probeN;
      OpenForShape(session.streamScrub, session.hash, typ, service, method', openMsg);
      if open.counter {
        var key := CounterKeyOf(open);
        GrpcCounterKey(open, service, method');
        probeN := probeN[key := CountOf(probeN, key) + 1];
      }
      r := session.OpenStreamReplay(open);
      if old(Lockstep()) {
        if session.CheckStreamOpen(open, ReplayMode).None? {
          forall typ', service', method'' | CounterType(typ') && Plain(service', method'')
            ensures InStep(typ', service', method'')
          {
            assert CountOf(shadow, ShadowKey(typ', service', method''))
                == CountOf(counts, CounterKey(OpenFor(typ', service', method'', []))) by {
              assert old(InStep(typ', service', method''));
            }
            KeysAgree(session.streamScrub, session.hash, typ, service, method', openMsg, typ', service', method'');
          }
        } else if CounterType(typ) && Plain(service, method') {
          assert old(InStep(typ, service, method'));
          SameOpen(session.streamScrub, session.hash, typ, service, method', openMsg);
          assert !InStep(typ, service, method');
        }
      }
    }
  }

  lemma OpenForShape(scrub: Option<R.Scrub>, hash: Bytes -> string, typ: string, service: string, method': string, msg: Bytes)
    requires ValidType(typ)
    ensures var o := StreamOpenFor(scrub, hash, typ, service, method', msg);
            && Acceptable(o) && o.adapterId == ADAPTER_ID && o.typ == typ && (o.counter <==> CounterType(typ))
            && (o.counter ==> o.identity == map["service" := Text(service), "method" := Text(method')])
  {
  }

  lemma SameOpen(scrub: Option<R.Scrub>, hash: Bytes -> string, typ: string, service: string, method': string, msg: Bytes)
    requires CounterType(typ)
    ensures StreamOpenFor(scrub, hash, typ, service, method', msg) == StreamOpenFor(scrub, hash, typ, service, method', [])
  {
  }

  /** The shorthand that names service, method and type counts as the open of such a stream does. */
  lemma ShorthandSharesCounter(scrub: Option<R.Scrub>, hash: Bytes -> string, typ: string, service: string, method': string,
                               msg: Bytes, typ': string, service': string, method'': string)
    requires CounterType(typ) && CounterType(typ')
    ensures CounterKey(GrpcOpen(service', method'', typ')) == CounterKey(StreamOpenFor(scrub, hash, typ, service, method', msg))
            <==> typ' == typ && service' == service && method'' == method'
  {
    hide CounterKey;
    var shorthand, open := GrpcOpen(service', method'', typ'), StreamOpenFor(scrub, hash, typ, service, method', msg);
    KeysDiffer();
    CounterKeyIdentifies(shorthand, open);
    assert shorthand.identity["service"] == Text(service') && shorthand.identity["method"] == Text(method'');
    assert open.identity["service"] == Text(service) && open.identity["method"] == Text(method');
  }

  /** Against a plain tuple the two keys identify the same open. */
  lemma KeysAgree(scrub: Option<R.Scrub>, hash: Bytes -> string, typ: string, service: string, method': string, msg: Bytes,
                  typ': string, service': string, method'': string)
    requires ValidType(typ) && CounterType(typ') && Plain(service', method'')
    ensures var o := StreamOpenFor(scrub, hash, typ, service, method', msg);
            var o' := StreamOpenFor(scrub, hash, typ', service', method'', []);
            o.counter ==> (CounterKey(o) == CounterKey(o') <==> ShadowKey(typ, service, method') == ShadowKey(typ', service', method''))
  {
    hide ShadowKey, CounterKey, Plain;
    var o := StreamOpenFor(scrub, hash, typ, service, method', msg);
    var o' := StreamOpenFor(scrub, hash, typ', service', method'', []);
    if o.counter {
      CounterKeyIdentifies(o, o');
      if CounterKey(o) == CounterKey(o') {
        assert o.identity["service"] == o'.identity["service"] && o.identity["method"] == o'.identity["method"];
      }
      if ShadowKey(typ, service, method') == ShadowKey(typ', service', method'') {
        PlainKeyIsUnique(typ', service', method'', typ, service, method');
      }
    }
  }
}
