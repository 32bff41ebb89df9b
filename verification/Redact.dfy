/**
 Redaction of a decoded YAML tree, in place (go/redact.go).
 Character classes and the credential patterns are arbitrary functions.
 */
module Redact {
  import opened Prelude

  // ---------------------------------------------------------------------------
  // Classifying names and values
  // ---------------------------------------------------------------------------

  const SECRET_WORDS: set<string> := {
    "TOKEN", "SECRET", "PASSWORD", "PASSWD", "PASSPHRASE", "CREDENTIAL", "CREDENTIALS", "APIKEY", "KEY",
    "AUTH", "AUTHORIZATION", "COOKIE", "SESSION", "SIGNATURE", "PRIVATE", "ACCESS", "BEARER", "OTP"
  }

  const SECRET_EXACT: set<string> := {
    "AUTHORIZATION", "PROXY_AUTHORIZATION", "COOKIE", "SET_COOKIE",
    "AWS_ACCESS_KEY_ID", "AWS_SECRET_ACCESS_KEY", "AWS_SESSION_TOKEN"
  }

  const SECRET_PREFIX := "AWS_"

  const BENIGN: set<string> := {
    "XRR_MODE", "XRR_CASSETTE_DIR", "XRR_REDACT_ALLOW", "XRR_REDACT_DENY", "XRR_REDACT_DISABLE",
    "AWS_REGION", "AWS_DEFAULT_REGION", "AWS_PROFILE", "SSH_AUTH_SOCK", "KEYBOARD_LAYOUT", "ACCESS_LOG",
    "ACCESS_LOG_FORMAT", "PRIVATE_NETWORK", "SESSION_MANAGER", "GPG_TTY", "AUTHORIZED_KEYS_FILE"
  }

  const ENVELOPE_META: set<string> := {"xrr", "adapter", "fingerprint", "recorded_at", "error"}

  datatype TextRules = TextRules(upper: char -> char, isSpace: char -> bool, matchesPattern: string -> bool)

  function TrimLeft(rules: TextRules, s: string): string {
    if s != [] && rules.isSpace(s[0]) then TrimLeft(rules, s[1..]) else s
  }

  function TrimSpace(rules: TextRules, s: string): string {
    TrimRight(rules, TrimLeft(rules, s))
  }

  function TrimRight(rules: TextRules, s: string): string {
    if s != [] && rules.isSpace(s[|s| - 1]) then TrimRight(rules, s[..|s| - 1]) else s
  }

  function ToUpper(rules: TextRules, s: string): string {
    seq(|s|, i requires 0 <= i < |s| => rules.upper(s[i]))
  }

  function DashToUnderscore(s: string): string {
    seq(|s|, i requires 0 <= i < |s| => if s[i] == '-' then '_' else s[i])
  }

  /** The underscore-delimited words of a name. */
  function Words(s: string): seq<string> {
    if s == [] then [[]]
    else
      var rest := Words(s[1..]);
      if s[0] == '_' then [[]] + rest else if rest == [] then [[s[0]]] else [[s[0]] + rest[0]] + rest[1..]
  }

  datatype Redactor = Redactor(disabled: bool, allow: set<string>, deny: set<string>, rules: TextRules)
  {
    function NormalizeKey(k: string): string {
      ToUpper(rules, DashToUnderscore(TrimSpace(rules, k)))
    }

    predicate IsSecretKey(name: string) {
      var n := NormalizeKey(name);
      if disabled then false
      else if n in allow then false
      else if n in deny then true
      else if n in BENIGN then false
      else n in SECRET_EXACT || SECRET_PREFIX <= n || exists w :: w in Words(n) && w in SECRET_WORDS
    }

    predicate IsSecretValue(v: string) {
      !disabled && v != "" && rules.matchesPattern(v)
    }

    function Placeholder(name: string): string {
      "<redacted:" + ToUpper(rules, TrimSpace(rules, name)) + ">"
    }

    function RedactField(name: string, value: string): (string, bool) {
      if disabled || value == "" then (value, false)
      else if NormalizeKey(name) in allow then (value, false)
      else if IsSecretKey(name) || IsSecretValue(value) then (Placeholder(name), true)
      else (value, false)
    }
  }

  // ---------------------------------------------------------------------------
  // Trees as values, and what redaction makes of them
  // ---------------------------------------------------------------------------

  datatype Kind = Document | Mapping | Sequence | Scalar | Alias

  datatype Tree = Tree(kind: Kind, tag: string, value: string, content: seq<Tree>)

  const STRING_TAG := "!!str"

  predicate IsString(t: Tree) {
    t.kind.Scalar? && (t.tag == "" || t.tag == STRING_TAG)
  }

  predicate IsMetaKey(parent: string, key: string) {
    parent == "" && key in ENVELOPE_META
  }

  function RedactedScalar(r: Redactor, t: Tree, key: string): Tree {
    if IsString(t) && r.RedactField(key, t.value).1
    then t.(tag := STRING_TAG, value := r.RedactField(key, t.value).0)
    else t
  }

  /** The key a child is judged by; None when the walk does not enter it. */
  function KeyFor(t: Tree, key: string, i: nat): Option<string>
    requires i < |t.content|
  {
    match t.kind
    case Document => Some(key)
    case Sequence => Some(key)
    case Mapping => if i % 2 == 1 && !IsMetaKey(key, t.content[i - 1].value) then Some(t.content[i - 1].value) else None
    case _ => None
  }

  function Redacted(r: Redactor, t: Tree, key: string): Tree
    decreases t
  {
    if r.disabled then t
    else if t.kind.Scalar? then RedactedScalar(r, t, key)
    else
      t.(content := seq(|t.content|, i requires 0 <= i < |t.content| =>
          var k := KeyFor(t, key, i);
          if k.Some? then Redacted(r, t.content[i], k.value) else t.content[i]))
  }

  // ---------------------------------------------------------------------------
  // The tree in memory
  // ---------------------------------------------------------------------------

  class YamlNode {
    const kind: Kind
    var tag: string
    var value: string
    const content: seq<YamlNode>
    ghost const Repr: set<YamlNode>

    /** A tree: no node is reached twice. */
    ghost predicate Valid()
      decreases Repr
    {
      && this in Repr
      && (forall i :: 0 <= i < |content| ==> content[i].Repr <= Repr && this !in content[i].Repr && content[i].Valid())
      && (forall i, j :: 0 <= i < j < |content| ==> content[i].Repr !! content[j].Repr)
    }

    ghost function Model(): Tree
      requires Valid()
      reads Repr
      decreases Repr, 1
    {
      Tree(kind, tag, value, Children())
    }

    ghost function Children(): (r: seq<Tree>)
      requires Valid()
      reads Repr
      ensures |r| == |content| && forall i :: 0 <= i < |r| ==> r[i] == content[i].Model()
      decreases Repr, 0
    {
      seq(|content|, i requires 0 <= i < |content| && Valid() reads Repr => content[i].Model())
    }

    constructor (kind: Kind, tag: string, value: string, content: seq<YamlNode>)
      requires forall i :: 0 <= i < |content| ==> content[i].Valid()
      requires forall i, j :: 0 <= i < j < |content| ==> content[i].Repr !! content[j].Repr
      ensures Valid() && this.kind == kind && this.tag == tag && this.value == value && this.content == content
    {
      this.kind, this.tag, this.value, this.content := kind, tag, value, content;
      Repr := {this} + set i, n | 0 <= i < |content| && n in content[i].Repr :: n;
    }

    method SetString(s: string)
      modifies this
      ensures tag == STRING_TAG && value == s
    {
      tag, value := STRING_TAG, s;
    }
  }

  method RedactScalar(n: YamlNode, r: Redactor, key: string)
    requires n.Valid() && n.kind.Scalar?
    modifies n
    ensures n.Model() == RedactedScalar(r, old(n.Model()), key)
  {
    ghost var was := n.Model();
    if n.tag != "" && n.tag != STRING_TAG {
      return;
    }
    var (redacted, changed) := r.RedactField(key, n.value);
    if !changed {
      return;
    }
    n.SetString(redacted);
    assert forall i :: 0 <= i < |n.content| ==> n.content[i].Model() == was.content[i];
  }

  method RedactNode(n: YamlNode, r: Redactor, key: string)
    requires n.Valid()
    modifies n.Repr
    ensures n.Model() == Redacted(r, old(n.Model()), key)
    decreases n.Repr
  {
    if r.disabled {
      return;
    }
    match n.kind {
      case Scalar =>
        RedactScalar(n, r, key);
      case Alias =>
        assert n.Model() == Redacted(r, n.Model(), key);
      case _ =>
        RedactChildren(n, r, key);
    }
  }

  /** One child: redacted under the key it is judged by, or skipped. */
  method RedactChild(n: YamlNode, i: nat, r: Redactor, key: string)
    requires n.Valid() && !r.disabled && i < |n.content|
    requires n.kind.Document? || n.kind.Mapping? || n.kind.Sequence?
    modifies n.content[i].Repr
    ensures n.tag == old(n.tag) && n.value == old(n.value)
    ensures var k := KeyFor(old(n.Model()), key, i);
            n.Children() == if k.Some? then old(n.Children())[i := Redacted(r, old(n.Children())[i], k.value)] else old(n.Children())
    decreases n.Repr, 0
  {
    hide Redacted;
    ghost var was := n.Children();
    var child := n.content[i];
    if !n.kind.Mapping? {
      RedactNode(child, r, key);
    } else if i % 2 == 1 {
      var name := n.content[i - 1].value;
      assert name == was[i - 1].value;
      if !IsMetaKey(key, name) {
        RedactNode(child, r, name);
      }
    }
    forall j | 0 <= j < |was| && j != i ensures n.Children()[j] == was[j] {
      assert n.content[j].Repr !! child.Repr;
    }
  }

  /** The walk over the children of a document, mapping or sequence. */
  method RedactChildren(n: YamlNode, r: Redactor, key: string)
    requires n.Valid() && !r.disabled && (n.kind.Document? || n.kind.Mapping? || n.kind.Sequence?)
    modifies n.Repr
    ensures n.Model() == Redacted(r, old(n.Model()), key)
    decreases n.Repr, 1
  {
    hide Redacted, KeyFor;
    ghost var was := n.Model();
    ghost var goal := Redacted(r, was, key);
    ChildrenOfRedacted(r, was, key);
    for i := 0 to |n.content|
      invariant n.tag == was.tag && n.value == was.value
      invariant n.Children() == goal.content[..i] + was.content[i..]
    {
      ghost var now := n.Model();
      RedactChild(n, i, r, key);
      WalkStep(r, was, now, key, i);
    }
  }

  lemma WalkStep(r: Redactor, was: Tree, now: Tree, key: string, i: nat)
    requires !r.disabled && !was.kind.Scalar? && i < |was.content| == |now.content|
    requires now.kind == was.kind && now.content == Redacted(r, was, key).content[..i] + was.content[i..]
    ensures var k, goal := KeyFor(now, key, i), Redacted(r, was, key).content;
            (if k.Some? then now.content[i := Redacted(r, now.content[i], k.value)] else now.content)
            == goal[..i + 1] + was.content[i + 1..]
  {
    hide Redacted, KeyFor;
    ChildrenOfRedacted(r, was, key);
    KeysAreKept(r, was, now, key, i);
  }

  /** Half-way through the walk, each child is still judged by the key it had at the start. */
  lemma KeysAreKept(r: Redactor, was: Tree, now: Tree, key: string, i: nat)
    requires !r.disabled && !was.kind.Scalar? && i < |was.content|
    requires now.kind == was.kind && now.content == Redacted(r, was, key).content[..i] + was.content[i..]
    ensures KeyFor(now, key, i) == KeyFor(was, key, i)
  {
    if was.kind.Mapping? && i % 2 == 1 {
      assert KeyFor(was, key, i - 1).None?;
      assert now.content[i - 1] == was.content[i - 1];
    }
  }

  lemma ChildrenOfRedacted(r: Redactor, t: Tree, key: string)
    requires !r.disabled && !t.kind.Scalar?
    ensures var u := Redacted(r, t, key);
            && u == t.(content := u.content) && |u.content| == |t.content|
            && forall i :: 0 <= i < |t.content| ==>
                 u.content[i] == if KeyFor(t, key, i).Some? then Redacted(r, t.content[i], KeyFor(t, key, i).value) else t.content[i]
  {
  }

  // ---------------------------------------------------------------------------
  // What redaction keeps
  // ---------------------------------------------------------------------------

  /** Same shape, keys, order and non-string scalars; string scalars stay strings. */
  ghost predicate OnlyStringsDiffer(a: Tree, b: Tree)
    decreases a
  {
    && a.kind == b.kind && |a.content| == |b.content|
    && (if IsString(a) then IsString(b) else a.tag == b.tag && a.value == b.value)
    && forall i :: 0 <= i < |a.content| ==>
         if a.kind.Mapping? && i % 2 == 0 then a.content[i] == b.content[i] else OnlyStringsDiffer(a.content[i], b.content[i])
  }

  lemma {:induction false} SameTreeDiffersNowhere(t: Tree)
    ensures OnlyStringsDiffer(t, t)
  {
    forall i | 0 <= i < |t.content| ensures OnlyStringsDiffer(t.content[i], t.content[i]) {
      SameTreeDiffersNowhere(t.content[i]);
    }
  }

  lemma {:induction false} RedactionKeepsShape(r: Redactor, t: Tree, key: string)
    ensures OnlyStringsDiffer(t, Redacted(r, t, key))
    decreases t
  {
    var u := Redacted(r, t, key);
    forall i | 0 <= i < |t.content| ensures OnlyStringsDiffer(t.content[i], u.content[i]) {
      SameTreeDiffersNowhere(t.content[i]);
      if !t.kind.Scalar? && KeyFor(t, key, i).Some? {
        RedactionKeepsShape(r, t.content[i], KeyFor(t, key, i).value);
      }
    }
  }

  lemma ScalarIsIdempotent(r: Redactor, t: Tree, key: string)
    requires t.kind.Scalar?
    ensures Redacted(r, Redacted(r, t, key), key) == Redacted(r, t, key)
  {
    hide r.NormalizeKey, r.IsSecretKey, r.IsSecretValue, r.Placeholder;
  }

  /** A child is judged by the same key in two trees whose mapping keys agree. */
  lemma SameKey(a: Tree, b: Tree, key: string, i: nat)
    requires a.kind == b.kind && i < |a.content| == |b.content|
    requires forall j :: 0 <= j < |a.content| && KeyFor(a, key, j).None? ==> a.content[j] == b.content[j]
    ensures KeyFor(a, key, i) == KeyFor(b, key, i)
  {
    if a.kind.Mapping? && i % 2 == 1 {
      assert KeyFor(a, key, i - 1).None?;
    }
  }

  lemma {:induction false} RedactionIsIdempotent(r: Redactor, t: Tree, key: string)
    ensures Redacted(r, Redacted(r, t, key), key) == Redacted(r, t, key)
    decreases t
  {
    var u := Redacted(r, t, key);
    if !r.disabled && t.kind.Scalar? {
      ScalarIsIdempotent(r, t, key);
    } else if !r.disabled {
      hide Redacted;
      ChildrenOfRedacted(r, t, key);
      ChildrenOfRedacted(r, u, key);
      forall i | 0 <= i < |t.content| ensures Redacted(r, u, key).content[i] == u.content[i] {
        SameKey(t, u, key, i);
        if KeyFor(t, key, i).Some? {
          RedactionIsIdempotent(r, t.content[i], KeyFor(t, key, i).value);
        }
      }
      assert Redacted(r, u, key).content == u.content;
    }
  }

  /** No mapping below: everything in the tree is judged by one key. */
  predicate OneField(t: Tree)
    decreases t
  {
    !t.kind.Mapping? && forall i :: 0 <= i < |t.content| ==> OneField(t.content[i])
  }

  lemma {:induction false} AllowedFieldsAreVerbatim(r: Redactor, t: Tree, key: string)
    requires OneField(t) && r.NormalizeKey(key) in r.allow
    ensures Redacted(r, t, key) == t
    decreases t
  {
    if !r.disabled && !t.kind.Scalar? {
      forall i | 0 <= i < |t.content| ensures Redacted(r, t, key).content[i] == t.content[i] {
        AllowedFieldsAreVerbatim(r, t.content[i], key);
      }
      assert Redacted(r, t, key).content == t.content;
    }
  }

  // ---------------------------------------------------------------------------
  // Which names are secret, by position
  // ---------------------------------------------------------------------------

  /** The part of n from i to j stands between underscores or ends of n. */
  predicate WordAt(n: string, i: int, j: int) {
    0 <= i <= j <= |n| && (i == 0 || n[i - 1] == '_') && (j == |n| || n[j] == '_')
  }

  /** The first word of a name, and what is left. */
  lemma {:induction false} FirstWord(n: string) returns (k: nat)
    ensures k <= |n| && '_' !in n[..k] && (k == |n| || n[k] == '_')
    ensures Words(n) == [n[..k]] + if k == |n| then [] else Words(n[k + 1..])
  {
    if n == [] {
      k := 0;
    } else if n[0] == '_' {
      k := 0;
      assert n[..0] == [];
    } else {
      var m := FirstWord(n[1..]);
      k := m + 1;
      assert n[..k] == [n[0]] + n[1..][..m];
      if m < |n[1..]| {
        assert n[1..][m + 1..] == n[k + 1..];
      }
    }
  }

  lemma {:induction false} WordsByPosition(n: string, w: string)
    requires '_' !in w
    ensures w in Words(n) <==> exists i, j :: WordAt(n, i, j) && n[i..j] == w
    decreases |n|
  {
    hide Words;
    var k := FirstWord(n);
    assert WordAt(n, 0, k) && n[0..k] == n[..k];
    if k < |n| {
      var rest := n[k + 1..];
      WordsByPosition(rest, w);
      if i, j :| WordAt(rest, i, j) && rest[i..j] == w {
        assert WordAt(n, k + 1 + i, k + 1 + j) && n[k + 1 + i..k + 1 + j] == w;
      }
    }
    if i, j :| WordAt(n, i, j) && n[i..j] == w {
      WordIsFirstOrLater(n, k, i, j);
    }
  }

  /** A word without underscores is the first, or lies behind it. */
  lemma WordIsFirstOrLater(n: string, k: nat, i: int, j: int)
    requires k <= |n| && '_' !in n[..k] && (k == |n| || n[k] == '_')
    requires WordAt(n, i, j) && '_' !in n[i..j]
    ensures || (i == 0 && j == k)
            || (k < |n| && k + 1 <= i
                && WordAt(n[k + 1..], i - k - 1, j - k - 1) && n[k + 1..][i - k - 1..j - k - 1] == n[i..j])
  {
    forall p | 0 <= p < k ensures n[p] != '_' {
      assert n[p] == n[..k][p];
    }
    forall p | i <= p < j ensures n[p] != '_' {
      assert n[p] == n[i..j][p - i];
    }
  }

  lemma SecretWordsAreWords()
    ensures forall w :: w in SECRET_WORDS ==> '_' !in w
  {
  }

  /** Denied; or not known to be benign, and secret as a whole, by its first four characters, or by a word of it. */
  ghost predicate SecretName(r: Redactor, key: string) {
    var n := r.NormalizeKey(key);
    || n in r.deny
    || (n !in BENIGN
        && (|| n in SECRET_EXACT
            || (|n| >= 4 && n[..4] == "AWS_")
            || exists i, j :: WordAt(n, i, j) && n[i..j] in SECRET_WORDS))
  }

  lemma SecretKeyIff(r: Redactor, key: string)
    requires !r.disabled
    ensures r.IsSecretKey(key) <==> r.NormalizeKey(key) !in r.allow && SecretName(r, key)
  {
    hide Words, r.NormalizeKey;
    var n := r.NormalizeKey(key);
    SecretWordsAreWords();
    forall w | w in SECRET_WORDS ensures w in Words(n) <==> exists i, j :: WordAt(n, i, j) && n[i..j] == w {
      WordsByPosition(n, w);
    }
  }

  /** What is left of a text without the spaces at its ends: the part from i to j. */
  ghost predicate TrimmedAt(rules: TextRules, s: string, i: int, j: int) {
    && 0 <= i <= j <= |s|
    && (forall p :: 0 <= p < i || j <= p < |s| ==> rules.isSpace(s[p]))
    && (i < j ==> !rules.isSpace(s[i]) && !rules.isSpace(s[j - 1]))
  }

  lemma {:induction false} TrimmedRight(rules: TextRules, s: string) returns (j: nat)
    ensures j <= |s| && TrimRight(rules, s) == s[..j] && (forall p :: j <= p < |s| ==> rules.isSpace(s[p]))
    ensures j > 0 ==> !rules.isSpace(s[j - 1])
  {
    if s != [] && rules.isSpace(s[|s| - 1]) {
      j := TrimmedRight(rules, s[..|s| - 1]);
    } else {
      j := |s|;
    }
  }

  lemma {:induction false} TrimmedLeft(rules: TextRules, s: string) returns (i: nat)
    ensures i <= |s| && TrimLeft(rules, s) == s[i..] && (forall p :: 0 <= p < i ==> rules.isSpace(s[p]))
    ensures i < |s| ==> !rules.isSpace(s[i])
  {
    if s != [] && rules.isSpace(s[0]) {
      var k := TrimmedLeft(rules, s[1..]);
      i := k + 1;
      assert forall p :: 0 < p < i ==> s[p] == s[1..][p - 1];
    } else {
      i := 0;
    }
  }

  /**
   Names are compared, and shown, without the spaces at their ends and in upper case;
   compared with dashes as underscores, shown with the dashes.
   */
  lemma NormalizedByPosition(r: Redactor, key: string) returns (i: int, j: int)
    ensures TrimmedAt(r.rules, key, i, j)
    ensures r.NormalizeKey(key) == seq(j - i, p requires 0 <= p < j - i => r.rules.upper(if key[i + p] == '-' then '_' else key[i + p]))
    ensures r.Placeholder(key) == "<redacted:" + seq(j - i, p requires 0 <= p < j - i => r.rules.upper(key[i + p])) + ">"
  {
    i := TrimmedLeft(r.rules, key);
    var k := TrimmedRight(r.rules, key[i..]);
    j := i + k;
    assert TrimSpace(r.rules, key) == key[i..][..k] == key[i..j];
    assert forall p :: j <= p < |key| ==> key[p] == key[i..][p - i];
  }

  /**
   A string scalar is replaced exactly when it is not empty, its name is not allowed, and its
   value matches a pattern or its name is secret; and then by the name alone.
   */
  lemma ScalarIff(r: Redactor, t: Tree, key: string)
    requires t.kind.Scalar?
    ensures Redacted(r, t, key)
            == if !r.disabled && t.tag in {"", "!!str"} && t.value != "" && r.NormalizeKey(key) !in r.allow
                  && (r.rules.matchesPattern(t.value) || SecretName(r, key))
               then Tree(Scalar, "!!str", "<redacted:" + ToUpper(r.rules, TrimSpace(r.rules, key)) + ">", t.content)
               else t
  {
    hide SecretName, Words;
    if !r.disabled {
      SecretKeyIff(r, key);
    }
  }

  /** What the walk enters, and under which name. */
  lemma ChildrenByKind(r: Redactor, t: Tree, key: string, i: nat)
    requires !r.disabled && !t.kind.Scalar? && i < |t.content|
    ensures var u := Redacted(r, t, key);
            && u.kind == t.kind && u.tag == t.tag && u.value == t.value && |u.content| == |t.content|
            && match t.kind
               case Document => u.content[i] == Redacted(r, t.content[i], key)
               case Sequence => u.content[i] == Redacted(r, t.content[i], key)
               case Mapping =>
                 if i % 2 == 0 || (key == "" && t.content[i - 1].value in {"xrr", "adapter", "fingerprint", "recorded_at", "error"})
                 then u.content[i] == t.content[i]
                 else u.content[i] == Redacted(r, t.content[i], t.content[i - 1].value)
               case _ => u == t
  {
    ChildrenOfRedacted(r, t, key);
    if t.kind.Alias? {
      assert Redacted(r, t, key).content == t.content;
    }
  }

  const AsciiRules := TextRules(c => if 'a' <= c <= 'z' then c - 32 as char else c, c => c == ' ', _ => false)

  /** For instance: without lists and patterns, `password: hunter2`. */
  lemma PasswordIsHidden()
    ensures var r := Redactor(false, {}, {}, AsciiRules);
            var t := Tree(Mapping, "", "", [Tree(Scalar, "", "password", []), Tree(Scalar, "", "hunter2", [])]);
            Redacted(r, t, "").content == [t.content[0], Tree(Scalar, "!!str", "<redacted:PASSWORD>", [])]
  {
    hide Redacted, SecretName;
    var r := Redactor(false, {}, {}, AsciiRules);
    var t := Tree(Mapping, "", "", [Tree(Scalar, "", "password", []), Tree(Scalar, "", "hunter2", [])]);
    ChildrenByKind(r, t, "", 0);
    ChildrenByKind(r, t, "", 1);
    PasswordIsSecret();
    ScalarIff(r, t.content[1], "password");
    assert t.content[0].value == "password";
    assert "<redacted:" + "PASSWORD" + ">" == "<redacted:PASSWORD>";
    var u := Redacted(r, t, "").content;
    assert u == [u[0], u[1]];
  }

  lemma PasswordIsSecret()
    ensures var r := Redactor(false, {}, {}, AsciiRules);
            SecretName(r, "password") && ToUpper(r.rules, TrimSpace(r.rules, "password")) == "PASSWORD"
  {
    var rules := AsciiRules;
    assert TrimSpace(rules, "password") == "password";
    assert DashToUnderscore("password") == "password";
    assert ToUpper(rules, "password") == "PASSWORD";
    assert WordAt("PASSWORD", 0, 8) && "PASSWORD"[0..8] == "PASSWORD";
    assert "PASSWORD" in SECRET_WORDS;
  }

  // ---------------------------------------------------------------------------
  // What redaction hides
  // ---------------------------------------------------------------------------

  /** Hidden whatever its value is: the name is not allowed, and it is secret. */
  ghost predicate Hidden(r: Redactor, key: string) {
    r.NormalizeKey(key) !in r.allow && SecretName(r, key)
  }

  /** The trees differ only in non-empty string scalars whose nearest key is hidden, outside skipped fields. */
  ghost predicate DifferOnlyInSecrets(r: Redactor, a: Tree, b: Tree, key: string)
    decreases a
  {
    && a.kind == b.kind && |a.content| == |b.content|
    && (if a.kind.Scalar? && a.tag in {"", "!!str"} && b.tag in {"", "!!str"} && a.value != "" && b.value != "" && Hidden(r, key) then
          a.content == b.content
        else
          && a.tag == b.tag && a.value == b.value
          && forall i {:trigger b.content[i]} :: 0 <= i < |a.content| ==>
               if a.kind.Document? || a.kind.Sequence? then
                 DifferOnlyInSecrets(r, a.content[i], b.content[i], key)
               else if a.kind.Mapping? && i % 2 == 1 && (key != "" || a.content[i - 1].value !in ENVELOPE_META) then
                 DifferOnlyInSecrets(r, a.content[i], b.content[i], a.content[i - 1].value)
               else
                 a.content[i] == b.content[i])
  }

  lemma DifferingChild(r: Redactor, a: Tree, b: Tree, key: string, i: nat)
    requires DifferOnlyInSecrets(r, a, b, key) && i < |a.content|
    ensures |a.content| == |b.content| && a.kind == b.kind
    ensures if !a.kind.Scalar? && KeyFor(a, key, i).Some?
            then DifferOnlyInSecrets(r, a.content[i], b.content[i], KeyFor(a, key, i).value)
            else a.content[i] == b.content[i]
  {
    hide Hidden;
  }

  lemma SecretScalarsLeaveNoTrace(r: Redactor, a: Tree, b: Tree, key: string)
    requires !r.disabled && a.kind.Scalar? && DifferOnlyInSecrets(r, a, b, key)
    ensures Redacted(r, a, key) == Redacted(r, b, key)
  {
    hide SecretName;
    forall i | 0 <= i < |a.content| ensures a.content[i] == b.content[i] {
      DifferingChild(r, a, b, key, i);
    }
    assert a.content == b.content;
    SecretKeyIff(r, key);
    assert a.tag == b.tag && a.value == b.value ==> a == b;
  }

  /** The secrets cannot be told apart from the redacted tree. */
  lemma {:induction false} SecretsLeaveNoTrace(r: Redactor, a: Tree, b: Tree, key: string)
    requires !r.disabled && DifferOnlyInSecrets(r, a, b, key)
    ensures Redacted(r, a, key) == Redacted(r, b, key)
    decreases a
  {
    if a.kind.Scalar? {
      SecretScalarsLeaveNoTrace(r, a, b, key);
    } else {
      hide Redacted, SecretName;
      ChildrenOfRedacted(r, a, key);
      ChildrenOfRedacted(r, b, key);
      forall i | 0 <= i < |a.content| ensures KeyFor(a, key, i).None? ==> a.content[i] == b.content[i] {
        DifferingChild(r, a, b, key, i);
      }
      forall i | 0 <= i < |a.content|
        ensures Redacted(r, a, key).content[i] == Redacted(r, b, key).content[i]
      {
        SameKey(a, b, key, i);
        DifferingChild(r, a, b, key, i);
        if KeyFor(a, key, i).Some? {
          SecretsLeaveNoTrace(r, a.content[i], b.content[i], KeyFor(a, key, i).value);
        }
      }
      assert Redacted(r, a, key).content == Redacted(r, b, key).content;
    }
  }
}
