/** Package specifications: validation, the one-line form stored in job metadata, and
    reading it back. */
module PackageSpec {
  import opened Bytes
  import opened Text

  datatype Ecosystem = Pypi | Npm | Crates
  datatype Spec = Spec(ecosystem: Ecosystem, name: string, version: Option<string>)

  predicate NameChar(c: char) {
    IsAsciiAlphanumeric(c) || c in {'-', '_', '.', '/', '@'}
  }

  predicate VersionChar(c: char) {
    IsAsciiAlphanumeric(c) || c in {'-', '_', '.', '+'}
  }

  predicate ValidName(name: string) {
    && name != [] && |name| <= 256
    && Find(name, 0, "..") == None
    && forall i :: 0 <= i < |name| ==> NameChar(name[i])
  }

  predicate ValidVersion(version: string) {
    |version| <= 128 && forall i :: 0 <= i < |version| ==> VersionChar(version[i])
  }

  function NonEmpty(value: string): (r: Option<string>) {
    var trimmed := Trim(value);
    if trimmed == [] then None else Some(trimmed)
  }

  function ParseEcosystem(s: string): (e: Option<Ecosystem>) {
    var lowered := Lower(s);
    if lowered == "pypi" || lowered == "pip" then Some(Pypi)
    else if lowered == "npm" then Some(Npm)
    else if lowered == "crates" || lowered == "cargo" then Some(Crates)
    else None
  }

  function ParseFields(e: Ecosystem, name: string, version: string): (r: Option<Spec>) {
    var v := NonEmpty(version);
    if !ValidName(name) then None
    else if v.Some? && !ValidVersion(v.value) then None
    else if e == Crates && v == None then None
    else Some(Spec(e, name, v))
  }

  /** None stands for any of the source's validation errors. */
  function Parse(ecosystem: string, name: string, version: string): (r: Option<Spec>) {
    match ParseEcosystem(ecosystem)
    case None => None
    case Some(e) => ParseFields(e, name, version)
  }

  function EcosystemName(e: Ecosystem): (s: string)
    ensures ':' !in s
  {
    match e
    case Pypi => "pypi"
    case Npm => "npm"
    case Crates => "crates"
  }

  function Encode(spec: Spec): (s: string) {
    var named := EcosystemName(spec.ecosystem) + ":" + spec.name;
    if spec.version.Some? then named + "@" + spec.version.value else named
  }

  /** Split name and version at the last `@`, unless it is the scope mark of the name. */
  function SplitVersion(rest: string): (r: (string, string)) {
    match FindLastChar(rest, '@')
    case Some(at) => if at > 0 then (rest[..at], rest[at + 1..]) else (rest, "")
    case None => (rest, "")
  }

  function Decode(encoded: string): (r: Option<Spec>) {
    match FindChar(encoded, ':')
    case None => None
    case Some(colon) =>
      var (name, version) := SplitVersion(encoded[colon + 1..]);
      Parse(encoded[..colon], name, version)
  }

  // ---- what parsing promises ----------------------------------------------------------

  /** A spec that parsing can produce. */
  ghost predicate Accepted(spec: Spec) {
    exists e, n, v :: Parse(e, n, v) == Some(spec)
  }

  lemma AcceptedShape(spec: Spec)
    requires Accepted(spec)
    ensures ValidName(spec.name)
    ensures spec.version.Some? ==> spec.version.value != [] && ValidVersion(spec.version.value)
    ensures spec.ecosystem == Crates ==> spec.version.Some?
  {
    var e, n, v :| Parse(e, n, v) == Some(spec);
  }

  lemma {:induction false} NoDots(name: string, from: nat)
    requires from <= |name|
    ensures Find(name, from, "..") == None
            <==> forall i :: from <= i < |name| - 1 ==> name[i] != '.' || name[i + 1] != '.'
    decreases |name| - from
  {
    if from < |name| {
      NoDots(name, from + 1);
      assert ".." <= name[from..] <==> from + 1 < |name| && name[from] == '.' && name[from + 1] == '.';
    }
  }

  predicate LetterOrDigit(c: char) {
    'a' <= c <= 'z' || 'A' <= c <= 'Z' || '0' <= c <= '9'
  }

  /** Exactly these names are accepted. */
  lemma NamesAccepted(name: string)
    ensures ValidName(name) <==>
              && 1 <= |name| <= 256
              && (forall i :: 0 <= i < |name| ==> LetterOrDigit(name[i]) || name[i] in "-_./@")
              && forall i :: 0 <= i < |name| - 1 ==> name[i] != '.' || name[i + 1] != '.'
  {
    NoDots(name, 0);
  }

  lemma VersionsAccepted(version: string)
    ensures ValidVersion(version) <==>
              |version| <= 128 && forall i :: 0 <= i < |version| ==> LetterOrDigit(version[i]) || version[i] in "-_.+"
  {
  }

  /** What an ecosystem is called, in any letter case. */
  function CalledBy(e: Ecosystem): (names: seq<string>) {
    match e
    case Pypi => ["pypi", "pip"]
    case Npm => ["npm"]
    case Crates => ["crates", "cargo"]
  }

  lemma EcosystemCalled(e: Ecosystem, s: string)
    requires Lower(s) in CalledBy(e)
    ensures ParseEcosystem(s) == Some(e)
  {
  }

  lemma EcosystemUnknown(s: string)
    requires forall e :: Lower(s) !in CalledBy(e)
    ensures ParseEcosystem(s) == None
  {
    assert "pypi" == CalledBy(Pypi)[0] && "pip" == CalledBy(Pypi)[1] && "npm" == CalledBy(Npm)[0];
    assert "crates" == CalledBy(Crates)[0] && "cargo" == CalledBy(Crates)[1];
  }

  lemma FieldsAccepted(e: Ecosystem, name: string, version: string, v: string)
    requires v == Trim(version)
    ensures ParseFields(e, name, version)
         == if ValidName(name) && ValidVersion(v) && (e == Crates ==> v != "")
            then Some(Spec(e, name, if v == "" then None else Some(v))) else None
  {
  }

  /** A specification is accepted exactly for a known ecosystem, a valid name and a valid version,
      which crates must have; and the white space around the version goes. */
  lemma {:induction false} ParseAccepts(e: Ecosystem, ecosystem: string, name: string, version: string)
    ensures Lower(ecosystem) in CalledBy(e) ==>
              Parse(ecosystem, name, version)
              == if ValidName(name) && ValidVersion(Trim(version)) && (e == Crates ==> Trim(version) != "")
                 then Some(Spec(e, name, if Trim(version) == "" then None else Some(Trim(version)))) else None
    ensures (forall other :: Lower(ecosystem) !in CalledBy(other)) ==> Parse(ecosystem, name, version) == None
  {
    if Lower(ecosystem) in CalledBy(e) {
      EcosystemCalled(e, ecosystem);
      FieldsAccepted(e, name, version, Trim(version));
    } else if forall other :: Lower(ecosystem) !in CalledBy(other) {
      EcosystemUnknown(ecosystem);
    }
  }

  lemma EcosystemRoundTrip(e: Ecosystem)
    ensures ParseEcosystem(EcosystemName(e)) == Some(e)
  {
    var s := EcosystemName(e);
    assert Lower(s) == s;
  }

  lemma VersionIsTrimmed(version: string)
    requires version != [] && ValidVersion(version)
    ensures NonEmpty(version) == Some(version) && '@' !in version
  {
    assert VersionChar(version[0]) && VersionChar(version[|version| - 1]);
    TrimOfTrimmed(version);
  }

  /** The colon that `decode` splits at is the one `encode` wrote. */
  lemma DecodeAfterColon(e: Ecosystem, rest: string)
    ensures Decode(EcosystemName(e) + ":" + rest) == ParseFields(e, SplitVersion(rest).0, SplitVersion(rest).1)
  {
    var eco := EcosystemName(e);
    var s := eco + ":" + rest;
    assert s[..|eco|] == eco && s[|eco|] == ':' && s[|eco| + 1..] == rest;
    FirstIs(s, ':', |eco|);
    EcosystemRoundTrip(e);
  }

  lemma SplitsAtVersion(name: string, version: string)
    requires name != [] && '@' !in version
    ensures SplitVersion(name + "@" + version) == (name, version)
  {
    var s := name + "@" + version;
    assert s[..|name|] == name && s[|name|] == '@' && s[|name| + 1..] == version;
    LastIs(s, '@', |name|);
  }

  /** Without a version, the name is kept whole exactly when no later `@` invites a split. */
  lemma SplitsBareName(name: string)
    requires name != []
    ensures SplitVersion(name).0 == name <==> '@' !in name[1..]
    ensures SplitVersion(name).0 == name ==> SplitVersion(name).1 == ""
  {
    var at := FindLastChar(name, '@');
    if at.Some? && at.value > 0 {
      assert name[1..][at.value - 1] == '@';
      assert |name[..at.value]| < |name|;
    } else if at.Some? {
      assert name[0 + 1..] == name[1..];
    } else {
      assert forall k :: 0 <= k < |name| - 1 ==> name[1..][k] == name[k + 1];
    }
  }

  lemma EncodeVersioned(eco: string, name: string, version: string)
    ensures eco + ":" + name + "@" + version == eco + ":" + (name + "@" + version)
  {
  }

  lemma DecodeVersioned(spec: Spec)
    requires Accepted(spec) && spec.version.Some?
    ensures Decode(Encode(spec)) == Some(spec)
  {
    AcceptedShape(spec);
    var version := spec.version.value;
    var rest := spec.name + "@" + version;
    EncodeVersioned(EcosystemName(spec.ecosystem), spec.name, version);
    DecodeAfterColon(spec.ecosystem, rest);
    VersionIsTrimmed(version);
    SplitsAtVersion(spec.name, version);
  }

  lemma NoVersion()
    ensures NonEmpty("") == None
  {
  }

  lemma FieldsKeepName(e: Ecosystem, name: string, version: string)
    requires ParseFields(e, name, version).Some?
    ensures ParseFields(e, name, version).value.name == name
  {
  }

  lemma DecodeUnversioned(spec: Spec)
    requires Accepted(spec) && spec.version == None
    ensures Decode(Encode(spec)) == Some(spec) <==> '@' !in spec.name[1..]
  {
    AcceptedShape(spec);
    DecodeAfterColon(spec.ecosystem, spec.name);
    SplitsBareName(spec.name);
    NoVersion();
    var (name, version) := SplitVersion(spec.name);
    if name != spec.name && ParseFields(spec.ecosystem, name, version).Some? {
      FieldsKeepName(spec.ecosystem, name, version);
    }
  }

  /** For every spec that parsing accepts, decoding its encoding gives it back exactly when
      it has a version or its name has no `@` after the first position. */
  lemma SpecRoundTrip(spec: Spec)
    requires Accepted(spec)
    ensures Decode(Encode(spec)) == Some(spec) <==> spec.version.Some? || '@' !in spec.name[1..]
  {
    if spec.version.Some? {
      DecodeVersioned(spec);
    } else {
      DecodeUnversioned(spec);
    }
  }

  /** The failing family does not fail loudly: a name that contains a valid name, `@` and a
      valid version reads back as that other package at a version nobody asked for. */
  lemma ReadsAsAnother(spec: Spec, name: string, version: string)
    requires Accepted(spec) && spec.version == None && spec.name == name + "@" + version
    requires ValidName(name) && version != [] && ValidVersion(version)
    ensures Decode(Encode(spec)) == Some(Spec(spec.ecosystem, name, Some(version)))
  {
    DecodeAfterColon(spec.ecosystem, spec.name);
    VersionIsTrimmed(version);
    SplitsAtVersion(name, version);
  }
}
