/**
 * Kleene's three-valued logic and the value of a single build tag under the canonical
 * profile (backend/app/graph/go_variants.py:389-461).
 */
module GoTruth {

  datatype Truth = TRUE | FALSE | UNKNOWN

  function Not(v: Truth): Truth {
    match v
    case TRUE => FALSE
    case FALSE => TRUE
    case UNKNOWN => UNKNOWN
  }

  function And(l: Truth, r: Truth): Truth {
    if l.FALSE? || r.FALSE? then FALSE
    else if l.TRUE? && r.TRUE? then TRUE
    else UNKNOWN
  }

  function Or(l: Truth, r: Truth): Truth {
    if l.TRUE? || r.TRUE? then TRUE
    else if l.FALSE? && r.FALSE? then FALSE
    else UNKNOWN
  }

  function Decide(b: bool): Truth {
    if b then TRUE else FALSE
  }

  /** Among decided values the three operations are the classical ones. */
  lemma DecidedLogic(a: bool, b: bool)
    ensures Not(Decide(a)) == Decide(!a)
    ensures And(Decide(a), Decide(b)) == Decide(a && b)
    ensures Or(Decide(a), Decide(b)) == Decide(a || b)
  {
  }

  // ---- The canonical profile ----

  datatype Profile = Profile(goos: string, goarch: string, cgo: bool, major: nat, minor: nat)

  const SUPPORTED_GOOS: set<string> := {"linux", "darwin", "windows"}
  const SUPPORTED_GOARCH: set<string> := {"amd64", "arm64"}
  const KNOWN_GOOS: set<string> := {
    "aix", "android", "darwin", "dragonfly", "freebsd", "illumos", "ios", "js",
    "linux", "netbsd", "openbsd", "plan9", "solaris", "wasip1", "windows" }
  const KNOWN_GOARCH: set<string> := {
    "386", "amd64", "arm", "arm64", "loong64", "mips", "mips64", "mips64le",
    "mipsle", "ppc64", "ppc64le", "riscv64", "s390x", "wasm" }

  predicate IsDigit(c: char) {
    '0' <= c <= '9'
  }

  function DigitValue(c: char): nat
    requires IsDigit(c)
  {
    c as int - '0' as int
  }

  /** Length of the leading run of digits. */
  function DigitRun(s: string): (n: nat)
    ensures n <= |s|
    ensures forall i :: 0 <= i < n ==> IsDigit(s[i])
    ensures n < |s| ==> !IsDigit(s[n])
  {
    if s != "" && IsDigit(s[0]) then 1 + DigitRun(s[1..]) else 0
  }

  function ToNat(digits: string): nat
    requires forall i :: 0 <= i < |digits| ==> IsDigit(digits[i])
  {
    if digits == "" then 0
    else 10 * ToNat(digits[..|digits| - 1]) + DigitValue(digits[|digits| - 1])
  }

  function AfterGo(value: string): string {
    if "go" <= value then value[2..] else value
  }

  predicate PatchOrNothing(tail: string) {
    tail == "" || (tail[0] == '.' && 2 <= |tail| && DigitRun(tail[1..]) == |tail| - 1)
  }

  /** What follows the first dot. */
  function WithMinor(major: nat, rest: string): (nat, nat) {
    var n := DigitRun(rest);
    if n == 0 || !PatchOrNothing(rest[n..]) then (1, 22) else (major, ToNat(rest[..n]))
  }

  /** `[go]MAJOR.MINOR[.PATCH]`, or 1.22 for anything else. */
  function VersionKey(value: string): (nat, nat) {
    var s := AfterGo(value);
    var m := DigitRun(s);
    if m == 0 || m == |s| || s[m] != '.' then (1, 22) else WithMinor(ToNat(s[..m]), s[m + 1..])
  }

  predicate VersionAtMost(a: (nat, nat), major: nat, minor: nat) {
    a.0 < major || (a.0 == major && a.1 <= minor)
  }

  /** The part of an identifier before its first dot. */
  function BeforeDot(s: string): string {
    if s == "" || s[0] == '.' then "" else [s[0]] + BeforeDot(s[1..])
  }

  predicate KnownUnsupported(id: string) {
    id in KNOWN_GOOS || id in KNOWN_GOARCH || id in {"unix", "gc", "gccgo"} || BeforeDot(id) in KNOWN_GOARCH
  }

  /** A tag the profile does not model is UNKNOWN; a tag nobody passes is absent, hence FALSE. */
  function EvaluateIdentifier(id: string, p: Profile): Truth {
    if id in SUPPORTED_GOOS then Decide(id == p.goos)
    else if id in SUPPORTED_GOARCH then Decide(id == p.goarch)
    else if id == "cgo" then Decide(p.cgo)
    else if id == "nocgo" then Decide(!p.cgo)
    else if "go1." <= id then Decide(VersionAtMost(VersionKey(id), p.major, p.minor))
    else if KnownUnsupported(id) then UNKNOWN
    else FALSE
  }

  // ---- What version texts and tags mean ----

  predicate AllDigits(s: string) {
    forall i :: 0 <= i < |s| ==> IsDigit(s[i])
  }

  /** The usual way to write a number. */
  function Decimal(n: nat): (s: string)
    ensures s != "" && AllDigits(s)
  {
    var last := [('0' as int + n % 10) as char];
    if n < 10 then last else Decimal(n / 10) + last
  }

  lemma {:induction false} DecimalReadBack(n: nat)
    ensures ToNat(Decimal(n)) == n
  {
    var s, last := Decimal(n), ('0' as int + n % 10) as char;
    assert s[|s| - 1] == last && DigitValue(last) == n % 10;
    if n < 10 {
      assert s[..|s| - 1] == "";
    } else {
      assert s[..|s| - 1] == Decimal(n / 10);
      DecimalReadBack(n / 10);
    }
  }

  lemma {:induction false} DigitRunOf(digits: string, rest: string)
    requires AllDigits(digits) && (rest != "" ==> !IsDigit(rest[0]))
    ensures DigitRun(digits + rest) == |digits|
  {
    if digits == "" {
      assert digits + rest == rest;
    } else {
      assert (digits + rest)[1..] == digits[1..] + rest;
      DigitRunOf(digits[1..], rest);
    }
  }

  ghost predicate IsPatch(patch: string) {
    patch == "" || (|patch| > 1 && patch[0] == '.' && AllDigits(patch[1..]))
  }

  /** `[go]MAJOR.MINOR[.PATCH]` */
  ghost predicate VersionText(value: string, go: string, major: string, minor: string, patch: string) {
    && go in {"", "go"} && value == go + (major + ("." + (minor + patch)))
    && major != "" && AllDigits(major) && minor != "" && AllDigits(minor) && IsPatch(patch)
  }

  lemma PatchRun(patch: string)
    ensures PatchOrNothing(patch) <==> IsPatch(patch)
  {
    if |patch| > 1 {
      var digits := patch[1..];
      assert digits + "" == digits;
      if AllDigits(digits) {
        DigitRunOf(digits, "");
      }
    }
  }

  lemma VersionTextBody(value: string, go: string, major: string, minor: string, patch: string)
    requires VersionText(value, go, major, minor, patch)
    ensures AfterGo(value) == major + ("." + (minor + patch))
  {
    var body := major + ("." + (minor + patch));
    assert body[0] == major[0] && IsDigit(body[0]);
    if go == "" {
      assert value == body;
    } else {
      assert value[..2] == "go" && value[2..] == body;
    }
  }

  lemma WithMinorOf(major: nat, minor: string, patch: string)
    requires minor != "" && AllDigits(minor) && IsPatch(patch)
    ensures WithMinor(major, minor + patch) == (major, ToNat(minor))
  {
    hide ToNat, PatchOrNothing;
    var rest := minor + patch;
    DigitRunOf(minor, patch);
    assert rest[|minor|..] == patch && rest[..|minor|] == minor;
    PatchRun(patch);
  }

  /** A version text is read as its major and minor numbers, whatever precedes or follows them. */
  lemma VersionKeyOf(value: string, go: string, major: string, minor: string, patch: string)
    requires VersionText(value, go, major, minor, patch)
    ensures VersionKey(value) == (ToNat(major), ToNat(minor))
  {
    hide ToNat, WithMinor, AfterGo, DigitRun;
    VersionTextBody(value, go, major, minor, patch);
    var s, rest := major + ("." + (minor + patch)), minor + patch;
    DigitRunOf(major, "." + rest);
    assert s[|major|] == '.' && s[|major| + 1..] == rest && s[..|major|] == major;
    WithMinorOf(ToNat(major), minor, patch);
  }

  /** `M.N`, with or without `go` and a patch level, is version (M, N). */
  lemma VersionRoundTrip(go: string, major: nat, minor: nat, patch: string)
    requires go in {"", "go"} && IsPatch(patch)
    ensures VersionKey(go + (Decimal(major) + ("." + (Decimal(minor) + patch)))) == (major, minor)
  {
    hide VersionKey;
    VersionKeyOf(go + (Decimal(major) + ("." + (Decimal(minor) + patch))), go, Decimal(major), Decimal(minor), patch);
    DecimalReadBack(major);
    DecimalReadBack(minor);
  }

  lemma RestIsMinor(major: nat, rest: string)
    ensures WithMinor(major, rest) == (1, 22)
            || exists minor, patch :: rest == minor + patch && minor != "" && AllDigits(minor) && IsPatch(patch)
  {
    hide ToNat, PatchOrNothing;
    var n := DigitRun(rest);
    PatchRun(rest[n..]);
    assert rest == rest[..n] + rest[n..];
    assert AllDigits(rest[..n]);
  }

  /** Anything that is no version text counts as 1.22. */
  lemma OtherVersionText(value: string)
    requires forall go, major, minor, patch :: !VersionText(value, go, major, minor, patch)
    ensures VersionKey(value) == (1, 22)
  {
    hide ToNat, WithMinor, IsPatch;
    var go := if "go" <= value then "go" else "";
    var s := AfterGo(value);
    assert value == go + s;
    var m := DigitRun(s);
    if m != 0 && m != |s| && s[m] == '.' {
      var major, rest := s[..m], s[m + 1..];
      assert s == major + ("." + rest);
      RestIsMinor(ToNat(major), rest);
      if minor, patch :| rest == minor + patch && minor != "" && AllDigits(minor) && IsPatch(patch) {
        assert VersionText(value, go, major, minor, patch);
      }
    }
  }

  lemma GoTagIsNoOther(minor: string)
    ensures var id := "go1." + minor;
            && id !in SUPPORTED_GOOS && id !in SUPPORTED_GOARCH && id != "cgo" && id != "nocgo" && "go1." <= id
  {
    var id := "go1." + minor;
    assert id[0] == 'g' && id[2] == '1';
  }

  /** The tag `go1.N` holds exactly in versions from 1.N on. */
  lemma GoTagMeans(minor: nat, p: Profile)
    ensures EvaluateIdentifier("go1." + Decimal(minor), p)
            == Decide(1 < p.major || (1 == p.major && minor <= p.minor))
  {
    hide VersionKey;
    GoTagIsNoOther(Decimal(minor));
    assert "go1." + Decimal(minor) == "go" + ("1" + ("." + (Decimal(minor) + "")));
    assert Decimal(1) == "1";
    VersionRoundTrip("go", 1, minor, "");
  }

  /** Of the systems and of the architectures, exactly the profile's own hold; `cgo` and `nocgo` are opposites. */
  lemma ProfileTagsMean(p: Profile)
    requires p.goos in SUPPORTED_GOOS && p.goarch in SUPPORTED_GOARCH
    ensures forall id :: id in SUPPORTED_GOOS ==> EvaluateIdentifier(id, p) == if id == p.goos then TRUE else FALSE
    ensures forall id :: id in SUPPORTED_GOARCH ==> EvaluateIdentifier(id, p) == if id == p.goarch then TRUE else FALSE
    ensures EvaluateIdentifier("cgo", p) == if p.cgo then TRUE else FALSE
    ensures EvaluateIdentifier("nocgo", p) == Not(EvaluateIdentifier("cgo", p))
  {
    assert forall id :: id in SUPPORTED_GOARCH ==> id[0] == 'a';
    assert forall id :: id in SUPPORTED_GOOS ==> id[0] != 'a' && id[0] != 'n' && id[0] != 'c';
  }

  lemma {:induction false} BeforeDotOf(arch: string, rest: string)
    requires '.' !in arch
    ensures BeforeDot(arch + "." + rest) == arch
  {
    if arch != "" {
      assert (arch + "." + rest)[1..] == arch[1..] + "." + rest;
      BeforeDotOf(arch[1..], rest);
    }
  }

  lemma ArchNames(id: string)
    requires id in KNOWN_GOARCH
    ensures id != "" && id[0] != 'g' && '.' !in id
  {
  }

  lemma SystemNames(id: string)
    requires id in KNOWN_GOOS || id == "unix"
    ensures id != "" && id[0] != 'g' && '.' !in id
  {
  }

  lemma CompilerNames(id: string)
    requires id in {"gc", "gccgo"}
    ensures |id| > 1 && id[1] != 'o' && '.' !in id
  {
  }

  lemma SupportedNames(id: string)
    requires id in SUPPORTED_GOOS || id in SUPPORTED_GOARCH || id == "cgo" || id == "nocgo"
    ensures '.' !in id
  {
  }

  lemma NoGoTag(id: string)
    requires |id| < 2 || id[0] != 'g' || id[1] != 'o'
    ensures !("go1." <= id)
  {
  }

  /** A system or architecture that Go knows and the profile does not support is left open. */
  lemma OpenTags(id: string, p: Profile)
    requires id in KNOWN_GOOS || id in KNOWN_GOARCH || id in {"unix", "gc", "gccgo"}
    requires id !in SUPPORTED_GOOS && id !in SUPPORTED_GOARCH
    ensures EvaluateIdentifier(id, p) == UNKNOWN
  {
    hide VersionKey, KNOWN_GOOS, KNOWN_GOARCH, SUPPORTED_GOOS, SUPPORTED_GOARCH;
    if id in KNOWN_GOARCH {
      ArchNames(id);
      NoCgo(id);
    } else if id in KNOWN_GOOS {
      SystemNames(id);
      NoCgo(id);
    } else if id == "unix" {
      SystemNames(id);
    } else {
      CompilerNames(id);
    }
    NoGoTag(id);
  }

  lemma NoCgo(id: string)
    requires id in KNOWN_GOOS || id in KNOWN_GOARCH
    ensures id != "cgo" && id != "nocgo"
  {
  }

  /** So is an architecture followed by a dot and anything. */
  lemma OpenFeatureTags(arch: string, rest: string, p: Profile)
    requires arch in KNOWN_GOARCH
    ensures EvaluateIdentifier(arch + "." + rest, p) == UNKNOWN
  {
    hide VersionKey, KNOWN_GOOS, KNOWN_GOARCH, SUPPORTED_GOOS, SUPPORTED_GOARCH;
    var id := arch + "." + rest;
    assert id[|arch|] == '.';
    ArchNames(arch);
    assert id[0] == arch[0];
    NoGoTag(id);
    BeforeDotOf(arch, rest);
    if id in SUPPORTED_GOOS || id in SUPPORTED_GOARCH || id == "cgo" || id == "nocgo" {
      SupportedNames(id);
    }
  }

  /** A tag that names none of these is absent. */
  lemma OtherTags(id: string, p: Profile)
    requires id !in SUPPORTED_GOOS + SUPPORTED_GOARCH + KNOWN_GOOS + KNOWN_GOARCH
                      + {"unix", "gc", "gccgo", "cgo", "nocgo"}
    requires !("go1." <= id) && '.' !in id
    ensures EvaluateIdentifier(id, p) == FALSE
  {
    hide VersionKey, KNOWN_GOOS, KNOWN_GOARCH, SUPPORTED_GOOS, SUPPORTED_GOARCH;
    BeforeNoDot(id);
  }

  lemma {:induction false} BeforeNoDot(id: string)
    requires '.' !in id
    ensures BeforeDot(id) == id
  {
    if id != "" {
      BeforeNoDot(id[1..]);
    }
  }
}
