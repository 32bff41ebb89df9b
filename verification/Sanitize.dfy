/**
 The header sanitizer of a recorded connection: header fields as the redactor leaves them
 (go/adapters/grpctransport/headers.go).
 */
module Sanitize {
  import opened Prelude
  import opened Demux
  import opened Headers
  import opened Redact
  import opened Naming

  predicate IsPseudo(name: string) {
    name != "" && name[0] == ':'
  }

  function SanitizedField(r: Redactor, f: (string, string)): (string, string) {
    if IsPseudo(f.0) then f else (f.0, r.RedactField(f.0, f.1).0)
  }

  function Sanitized(r: Redactor, fields: Fields): (out: Fields)
    ensures |out| == |fields|
  {
    seq(|fields|, i requires 0 <= i < |fields| => SanitizedField(r, fields[i]))
  }

  /** The value of a field is replaced, under the rule for scalars. */
  ghost predicate Replaced(r: Redactor, name: string, value: string) {
    && !r.disabled && value != "" && r.NormalizeKey(name) !in r.allow
    && (r.rules.matchesPattern(value) || SecretName(r, name))
  }

  lemma FieldReplacedIff(r: Redactor, name: string, value: string)
    ensures r.RedactField(name, value)
            == if Replaced(r, name, value) then (r.Placeholder(name), true) else (value, false)
  {
    hide SecretName, Words;
    if !r.disabled {
      SecretKeyIff(r, name);
    }
  }

  /** Names, order and pseudo-headers stay; any other value is kept or gives way to a placeholder that its name determines. */
  method SanitizeHeaders(r: Redactor, fields: Fields) returns (out: Fields)
    ensures out == Sanitized(r, fields)
    ensures |out| == |fields|
    ensures forall i :: 0 <= i < |out| ==>
              && out[i].0 == fields[i].0
              && out[i].1 == if !(fields[i].0 != "" && fields[i].0[0] == ':') && Replaced(r, fields[i].0, fields[i].1)
                             then r.Placeholder(fields[i].0) else fields[i].1
  {
    hide Replaced, r.RedactField, r.Placeholder;
    out := [];
    for i := 0 to |fields|
      invariant out == Sanitized(r, fields)[..i]
      invariant forall j :: 0 <= j < i ==>
          && out[j].0 == fields[j].0
          && out[j].1 == if !(fields[j].0 != "" && fields[j].0[0] == ':') && Replaced(r, fields[j].0, fields[j].1)
                         then r.Placeholder(fields[j].0) else fields[j].1
    {
      var f := fields[i];
      FieldReplacedIff(r, f.0, f.1);
      if !IsPseudo(f.0) {
        var (value, redacted) := r.RedactField(f.0, f.1);
        if redacted {
          f := (f.0, value);
        }
      }
      assert SanitizedField(r, fields[i]) == f;
      out := out + [f];
    }
  }

  lemma SameFirst(r: Redactor, fields: Fields, name: string, i: nat)
    ensures FirstAt(Sanitized(r, fields), name, i) <==> FirstAt(fields, name, i)
  {
    hide r.RedactField, SanitizedField;
    NamesAreKept(r, fields);
  }

  lemma NamesAreKept(r: Redactor, fields: Fields)
    ensures forall i :: 0 <= i < |fields| ==> Sanitized(r, fields)[i].0 == fields[i].0
  {
    hide r.RedactField;
    assert forall i :: 0 <= i < |fields| ==> Sanitized(r, fields)[i] == SanitizedField(r, fields[i]);
  }

  /** What names an RPC names the same one after sanitizing. */
  lemma NamingSurvives(r: Redactor, fields: Fields, service: string, method': string)
    ensures Names(Sanitized(r, fields), service, method') <==> Names(fields, service, method')
  {
    hide Sanitized, PathOf, FirstAt;
    forall i: nat ensures FirstAt(Sanitized(r, fields), ":path", i) <==> FirstAt(fields, ":path", i) {
      SameFirst(r, fields, ":path", i);
    }
    forall i: nat | FirstAt(fields, ":path", i) ensures i < |fields| && Sanitized(r, fields)[i] == fields[i] {
      PathIsKept(r, fields, i);
    }
  }

  lemma NamesAnRpcSurvives(r: Redactor, fields: Fields)
    ensures NamesAnRpc(Sanitized(r, fields)) <==> NamesAnRpc(fields)
  {
    hide Names, Sanitized;
    forall service, method' ensures Names(Sanitized(r, fields), service, method') <==> Names(fields, service, method') {
      NamingSurvives(r, fields, service, method');
    }
  }

  lemma PathIsKept(r: Redactor, fields: Fields, i: nat)
    requires FirstAt(fields, ":path", i)
    ensures i < |fields| && Sanitized(r, fields)[i] == fields[i]
  {
    hide r.RedactField;
    assert ":path"[0] == ':';
  }

  /** So the naming frames of a recorded direction are those of the frames as they came. */
  lemma {:induction false} NamingFramesSurvive(r: Redactor, frames: seq<Frame>)
    ensures NamingFrames((fields: Fields) => Sanitized(r, fields), frames) == NamingFrames((fields: Fields) => fields, frames)
  {
    hide Sanitized, NamesAnRpc;
    if frames != [] {
      NamingFramesSurvive(r, frames[1..]);
      if frames[0].Headers? {
        NamesAnRpcSurvives(r, frames[0].fields);
      }
    }
  }

  /** The first field of a name keeps its value unless that is replaced, which leaves it the same only by chance. */
  lemma ValueSurvives(r: Redactor, fields: Fields, name: string, i: nat)
    requires FirstAt(fields, name, i)
    ensures Sanitized(r, fields)[i] == fields[i]
            <==> (name != "" && name[0] == ':') || !Replaced(r, name, fields[i].1) || fields[i].1 == r.Placeholder(name)
  {
    hide Replaced, r.Placeholder;
    FieldReplacedIff(r, name, fields[i].1);
  }

  /** The fields of a name that the redactor lets stand. */
  ghost predicate Stands(r: Redactor, fields: Fields, name: string) {
    forall i: nat :: FirstAt(fields, name, i) ==> !Replaced(r, name, fields[i].1)
  }

  lemma FirstStands(r: Redactor, fields: Fields, name: string, i: nat)
    requires Stands(r, fields, name)
    ensures FirstAt(Sanitized(r, fields), name, i) <==> FirstAt(fields, name, i)
    ensures FirstAt(fields, name, i) ==> Sanitized(r, fields)[i] == fields[i]
    ensures Absent(Sanitized(r, fields), name) <==> Absent(fields, name)
  {
    hide Replaced, r.Placeholder;
    SameFirst(r, fields, name, i);
    assert forall j :: 0 <= j < |fields| ==> Sanitized(r, fields)[j].0 == fields[j].0;
    if FirstAt(fields, name, i) {
      ValueSurvives(r, fields, name, i);
    }
  }

  /** A status that the redactor lets stand is recorded as the server sent it. */
  lemma StatusSurvives(r: Redactor, fields: Fields, code: nat, text: Bytes)
    requires Stands(r, fields, "grpc-status") && Stands(r, fields, "grpc-message")
    ensures StatusReads(Sanitized(r, fields), code, text) <==> StatusReads(fields, code, text)
  {
    hide Sanitized, Stands, FirstAt, Absent, Denotes;
    forall i: nat
      ensures FirstAt(Sanitized(r, fields), "grpc-status", i) <==> FirstAt(fields, "grpc-status", i)
      ensures FirstAt(fields, "grpc-status", i) ==> i < |fields| && Sanitized(r, fields)[i] == fields[i]
    {
      FirstStands(r, fields, "grpc-status", i);
      FirstIsInside(fields, "grpc-status", i);
    }
    forall raw: Bytes ensures MessageIs(Sanitized(r, fields), raw) <==> MessageIs(fields, raw) {
      MessageSurvives(r, fields, raw);
    }
  }

  lemma FirstIsInside(fields: Fields, name: string, i: nat)
    ensures FirstAt(fields, name, i) ==> i < |fields|
  {
  }

  lemma MessageSurvives(r: Redactor, fields: Fields, raw: Bytes)
    requires Stands(r, fields, "grpc-message")
    ensures MessageIs(Sanitized(r, fields), raw) <==> MessageIs(fields, raw)
  {
    hide Sanitized, Stands, FirstAt, Absent;
    FirstStands(r, fields, "grpc-message", 0);
    forall i: nat
      ensures FirstAt(Sanitized(r, fields), "grpc-message", i) <==> FirstAt(fields, "grpc-message", i)
      ensures FirstAt(fields, "grpc-message", i) ==> i < |fields| && Sanitized(r, fields)[i] == fields[i]
    {
      FirstStands(r, fields, "grpc-message", i);
      FirstIsInside(fields, "grpc-message", i);
    }
  }
}
