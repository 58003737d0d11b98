/** Names that become directory names, digests and registry references. */
module Naming {

  datatype Option<+T> = None | Some(value: T)

  /** Why a value is refused as a directory name. */
  datatype PathError = EmptyName | NullByte | Separator | ParentReference | BadCharacter

  predicate PathChar(c: char) {
    'a' <= c <= 'z' || 'A' <= c <= 'Z' || '0' <= c <= '9' || c == '.' || c == '_' || c == '-'
  }

  predicate HasParentReference(s: string) {
    exists i :: 0 <= i < |s| - 1 && s[i] == '.' && s[i + 1] == '.'
  }

  predicate SafeName(s: string) {
    s != "" && !HasParentReference(s) && forall c :: c in s ==> PathChar(c)
  }

  /** The checks in the order the source makes them. */
  function ValidatePathComponent(value: string): (r: Option<PathError>)
    ensures r.None? <==> SafeName(value)
  {
    if value == "" then Some(EmptyName)
    else if '\0' in value then Some(NullByte)
    else if '/' in value || '\\' in value then Some(Separator)
    else if HasParentReference(value) then Some(ParentReference)
    else if exists c :: c in value && !PathChar(c) then Some(BadCharacter)
    else None
  }

  predicate NameCharacter(c: char) {
    c in "abcdefghijklmnopqrstuvwxyz" || c in "ABCDEFGHIJKLMNOPQRSTUVWXYZ" || c in "0123456789" || c in "._-"
  }

  /** The names accepted, written out: non-empty, of these characters, without two dots in a row. */
  lemma AcceptedIff(value: string)
    ensures ValidatePathComponent(value).None?
      <==> (&& value != "" && (forall c :: c in value ==> NameCharacter(c))
            && forall before, after :: value != before + ".." + after)
  {
    forall c ensures PathChar(c) <==> NameCharacter(c) {
      PathCharIff(c);
    }
    if i :| 0 <= i < |value| - 1 && value[i] == '.' && value[i + 1] == '.' {
      assert value == value[..i] + ".." + value[i + 2..];
    }
    if before, after :| value == before + ".." + after {
      assert value[|before|] == '.' && value[|before| + 1] == '.';
    }
  }

  lemma PathCharIff(c: char)
    ensures PathChar(c) <==> NameCharacter(c)
  {
    LowerIff(c);
    UpperIff(c);
    DigitIff(c);
  }

  lemma LowerIff(c: char)
    ensures 'a' <= c <= 'z' <==> c in "abcdefghijklmnopqrstuvwxyz"
  {
    var all := "abcdefghijklmnopqrstuvwxyz";
    if 'a' <= c <= 'z' {
      assert all[c as int - 'a' as int] == c;
    }
  }

  lemma UpperIff(c: char)
    ensures 'A' <= c <= 'Z' <==> c in "ABCDEFGHIJKLMNOPQRSTUVWXYZ"
  {
    var all := "ABCDEFGHIJKLMNOPQRSTUVWXYZ";
    if 'A' <= c <= 'Z' {
      assert all[c as int - 'A' as int] == c;
    }
  }

  lemma DigitIff(c: char)
    ensures '0' <= c <= '9' <==> c in "0123456789"
  {
    var all := "0123456789";
    if '0' <= c <= '9' {
      assert all[c as int - '0' as int] == c;
    }
  }

  /** Entries the directory scan and the eviction skip. */
  predicate Hidden(name: string) {
    name != "" && name[0] == '.'
  }

  const TMP_PREFIX := ".complypack-tmp-"

  lemma TmpNamesAreHidden(suffix: string)
    ensures Hidden(TMP_PREFIX + suffix)
  {
  }

  /** What joining path components keeps: empty and "." components vanish. */
  function JoinedPath(parts: seq<string>): seq<string> {
    if parts == [] then []
    else (if parts[0] == "" || parts[0] == "." then [] else [parts[0]]) + JoinedPath(parts[1..])
  }

  /** Validation lets "." through, and exactly then {evaluator}/{version} is not a directory of its own. */
  lemma OwnDirectoryIffNotDot(evaluator: string, version: string)
    requires SafeName(evaluator) && SafeName(version)
    ensures SafeName(".")
    ensures JoinedPath([evaluator, version]) == [evaluator, version] <==> evaluator != "." && version != "."
  {
    assert JoinedPath([evaluator, version][1..]) == if version == "." then [] else [version] by {
      assert [evaluator, version][1..] == [version];
      assert [version][1..] == [];
    }
    if evaluator == "." && version == "." {
      assert |JoinedPath([evaluator, version])| == 0;
    }
  }

  predicate LowerHex(s: string) {
    forall c :: c in s ==> 'a' <= c <= 'f' || '0' <= c <= '9'
  }

  /** A well-formed OCI content digest: supported algorithm, lower-case hex of the right length. */
  predicate ParsesAsDigest(s: string) {
    || ("sha256:" <= s && |s| == 7 + 64 && LowerHex(s[7..]))
    || ("sha384:" <= s && |s| == 7 + 96 && LowerHex(s[7..]))
    || ("sha512:" <= s && |s| == 7 + 128 && LowerHex(s[7..]))
  }

  /** Written out: an algorithm, a colon, and that algorithm's number of hexadecimal digits. */
  lemma DigestForm(s: string)
    ensures ParsesAsDigest(s) <==> exists algorithm: string, hex: string ::
              s == algorithm + ":" + hex && HexOf(algorithm, hex)
    ensures ValidDigest(s) <==> s == "" || ParsesAsDigest(s)
  {
    if ParsesAsDigest(s) {
      var algorithm, hex := s[..6], s[7..];
      assert s == algorithm + ":" + hex;
      forall c | c in hex ensures c in "0123456789abcdef" {
        HexDigitIff(c);
      }
      assert HexOf(algorithm, hex);
    }
    if algorithm, hex :| s == algorithm + ":" + hex && HexOf(algorithm, hex) {
      assert s[7..] == hex && s[..7] == algorithm + ":";
      forall c | c in hex ensures 'a' <= c <= 'f' || '0' <= c <= '9' {
        HexDigitIff(c);
      }
    }
  }

  predicate HexOf(algorithm: string, hex: string) {
    && ((algorithm == "sha256" && |hex| == 64) || (algorithm == "sha384" && |hex| == 96)
        || (algorithm == "sha512" && |hex| == 128))
    && forall c :: c in hex ==> c in "0123456789abcdef"
  }

  lemma HexDigitIff(c: char)
    ensures 'a' <= c <= 'f' || '0' <= c <= '9' <==> c in "0123456789abcdef"
  {
    var all := "0123456789abcdef";
    if '0' <= c <= '9' {
      assert all[c as int - '0' as int] == c;
    } else if 'a' <= c <= 'f' {
      assert all[10 + c as int - 'a' as int] == c;
    }
  }

  /** The empty digest stands for "not synced yet" and is allowed. */
  predicate ValidDigest(s: string) {
    s == "" || ParsesAsDigest(s)
  }

  function ClassifyVersion(version: string): (string, string) {
    if ParsesAsDigest(version) then ("", version) else (version, "")
  }

  function TrimSlashes(s: string): (r: string)
    ensures r <= s
    ensures r == "" || r[|r| - 1] != '/'
  {
    if s != "" && s[|s| - 1] == '/' then TrimSlashes(s[..|s| - 1]) else s
  }

  function TrimPrefix(s: string, prefix: string): string {
    if prefix <= s then s[|prefix|..] else s
  }

  function NormalizeHost(host: string): string {
    var bare := TrimPrefix(TrimPrefix(host, "http://"), "https://");
    if bare != "" && bare[|bare| - 1] == '/' then bare[..|bare| - 1] else bare
  }

  /** With or without a scheme and a trailing slash, a registry is known by one host. */
  lemma HostIsBare(scheme: string, host: string, slash: string)
    requires scheme in {"", "http://", "https://"} && slash in {"", "/"}
    requires host != "" && host[|host| - 1] != '/' && !("http://" <= host) && !("https://" <= host)
    ensures NormalizeHost(scheme + host + slash) == host
  {
    Regroup(scheme, host, slash);
    NoScheme(host, slash);
    BareOf(scheme, host + slash);
    NormalizeOf(scheme + (host + slash), host + slash);
    LastSlash(host, slash);
  }

  lemma NormalizeOf(all: string, rest: string)
    requires TrimPrefix(TrimPrefix(all, "http://"), "https://") == rest && rest != ""
    ensures NormalizeHost(all) == if rest[|rest| - 1] == '/' then rest[..|rest| - 1] else rest
  {
  }

  lemma Regroup(a: string, b: string, c: string)
    ensures a + b + c == a + (b + c)
  {
  }

  lemma LastSlash(host: string, slash: string)
    requires host != "" && host[|host| - 1] != '/' && slash in {"", "/"}
    ensures var rest := host + slash; host == if rest[|rest| - 1] == '/' then rest[..|rest| - 1] else rest
  {
  }

  lemma NoScheme(host: string, slash: string)
    requires host != "" && host[|host| - 1] != '/' && slash in {"", "/"}
    requires !("http://" <= host) && !("https://" <= host)
    ensures !("http://" <= host + slash) && !("https://" <= host + slash)
  {
    if "http://" <= host + slash {
      SchemeOf("http://", host, slash);
    }
    if "https://" <= host + slash {
      SchemeOf("https://", host, slash);
    }
  }

  lemma BareOf(scheme: string, rest: string)
    requires scheme in {"", "http://", "https://"} && !("http://" <= rest) && !("https://" <= rest)
    ensures TrimPrefix(TrimPrefix(scheme + rest, "http://"), "https://") == rest
  {
    var all := scheme + rest;
    if scheme == "" {
      assert all == rest;
    } else if scheme == "http://" {
      assert all[7..] == rest;
    } else {
      assert all[4] == 's' && all[8..] == rest;
    }
  }

  lemma SchemeOf(scheme: string, host: string, slash: string)
    requires |scheme| >= 2 && scheme[|scheme| - 2] == '/' && scheme <= host + slash && slash in {"", "/"}
    requires host != "" && host[|host| - 1] != '/'
    ensures scheme <= host
  {
    assert host[|host| - 1] == (host + slash)[|host| - 1];
    assert |scheme| <= |host| ==> (host + slash)[..|scheme|] == host[..|scheme|];
  }

  function BuildLookupRef(host: string, repository: string, tag: string, digest: string): string {
    var ref := Base(host, repository);
    if digest != "" then ref + "@" + digest
    else if tag == "" || tag == "latest" then ref
    else ref + ":" + tag
  }

  /** The reference of a requested version, as handed to the registry (empty host) and to the verifier. */
  function ReferenceFor(host: string, repository: string, version: string): string {
    var (tag, digest) := ClassifyVersion(version);
    BuildLookupRef(host, repository, tag, digest)
  }

  /**
   * Two version strings of one repository share a reference only if both mean "latest":
   * the verifier is never shown a reference that stands for another pinned version.
   */
  lemma ReferencePinsTheVersion(host: string, repository: string, v1: string, v2: string)
    ensures ReferenceFor(host, repository, v1) == ReferenceFor(host, repository, v2)
      <==> v1 == v2 || (v1 in {"", "latest"} && v2 in {"", "latest"})
  {
    ReferenceIsSuffixed(host, repository, v1);
    ReferenceIsSuffixed(host, repository, v2);
    if ReferenceFor(host, repository, v1) == ReferenceFor(host, repository, v2) {
      var base := Base(host, repository);
      assert Suffix(v1) == (base + Suffix(v1))[|base|..] == (base + Suffix(v2))[|base|..] == Suffix(v2);
      assert v1 !in {"", "latest"} ==> Suffix(v1)[1..] == v1;
      assert v2 !in {"", "latest"} ==> Suffix(v2)[1..] == v2;
    }
  }

  /** With a host the reference is the host-qualified repository, followed by nothing, a tag or a digest. */
  lemma ReferenceIsHostQualified(host: string, repository: string, version: string)
    requires host != "" && host[|host| - 1] != '/'
    ensures ParsesAsDigest(version) ==>
              ReferenceFor(host, repository, version) == host + "/" + repository + "@" + version
    ensures version in {"", "latest"} ==> ReferenceFor(host, repository, version) == host + "/" + repository
    ensures !ParsesAsDigest(version) && version !in {"", "latest"} ==>
              ReferenceFor(host, repository, version) == host + "/" + repository + ":" + version
    ensures host + "/" + repository <= ReferenceFor(host, repository, version)
  {
  }

  /** Without a host it is the repository alone, and slashes at the end of a host do not matter. */
  lemma ReferenceOtherwise(host: string, repository: string, version: string)
    ensures ParsesAsDigest(version) ==> ReferenceFor("", repository, version) == repository + "@" + version
    ensures version in {"", "latest"} ==> ReferenceFor("", repository, version) == repository
    ensures !ParsesAsDigest(version) && version !in {"", "latest"} ==>
              ReferenceFor("", repository, version) == repository + ":" + version
    ensures host != "" ==> ReferenceFor(host + "/", repository, version) == ReferenceFor(host, repository, version)
  {
    assert (host + "/")[..|host + "/"| - 1] == host;
  }

  lemma ReferenceIsSuffixed(host: string, repository: string, version: string)
    ensures ReferenceFor(host, repository, version) == Base(host, repository) + Suffix(version)
  {
    assert ParsesAsDigest(version) ==> version != "";
  }

  function Base(host: string, repository: string): string {
    if host != "" then TrimSlashes(host) + "/" + repository else repository
  }

  /** The part of a reference that follows the repository. */
  function Suffix(version: string): string {
    if ParsesAsDigest(version) then "@" + version
    else if version == "" || version == "latest" then ""
    else ":" + version
  }
}
