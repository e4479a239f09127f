/** Release numbers: reading them out of version strings, printing them, comparing them (tools/versions.py). */
module ReleaseNumbers {
  import opened Wrappers
  import Text

  datatype Release = Release(major: nat, minor: nat, patch: nat)

  predicate Less(a: Release, b: Release) {
    a.major < b.major || (a.major == b.major && (a.minor < b.minor || (a.minor == b.minor && a.patch < b.patch)))
  }

  predicate AtMost(a: Release, b: Release) {
    a == b || Less(a, b)
  }

  /** `f"{major}.{minor}.{patch}"`. */
  function Show(v: Release): string {
    Text.Decimal(v.major) + "." + Text.Decimal(v.minor) + "." + Text.Decimal(v.patch)
  }

  /** The length of the run of digits that starts the string. */
  function Run(s: string): (n: nat)
    ensures n <= |s| && (forall i :: 0 <= i < n ==> Text.IsDigit(s[i])) && (n < |s| ==> !Text.IsDigit(s[n]))
  {
    if s == "" || !Text.IsDigit(s[0]) then 0 else 1 + Run(s[1..])
  }

  /** An optional dot and number: its value or zero, and what follows it. */
  function Dotted(s: string): (nat, string) {
    if s != "" && s[0] == '.' && Run(s[1..]) > 0
    then var n := Run(s[1..]); (Text.Number(s[1..][..n]), s[1..][n..])
    else (0, s)
  }

  /** The release a version string starts with, padded with zeros; `None` is the raised error. */
  function Parts(s: string): Option<Release> {
    var n := Run(s);
    if n == 0 then None
    else
      var (minor, rest) := Dotted(s[n..]);
      var (patch, _) := Dotted(rest);
      Some(Release(Text.Number(s[..n]), minor, patch))
  }

  lemma {:induction false} RunOf(digits: string, rest: string)
    requires forall i :: 0 <= i < |digits| ==> Text.IsDigit(digits[i])
    requires rest != "" ==> !Text.IsDigit(rest[0])
    ensures Run(digits + rest) == |digits|
  {
    if digits == "" {
      assert digits + rest == rest;
    } else {
      assert (digits + rest)[1..] == digits[1..] + rest;
      RunOf(digits[1..], rest);
    }
  }

  lemma DottedOf(n: nat, rest: string)
    requires rest != "" ==> !Text.IsDigit(rest[0])
    ensures Dotted("." + Text.Decimal(n) + rest) == (n, rest)
  {
    var digits := Text.Decimal(n);
    var s := "." + digits + rest;
    assert s[1..] == digits + rest;
    RunOf(digits, rest);
    assert (digits + rest)[..|digits|] == digits && (digits + rest)[|digits|..] == rest;
    Text.NumberDecimal(n);
  }

  /** A printed release reads back, and a pre-release or development suffix does not change which release it is. */
  lemma PartsShow(v: Release, suffix: string)
    requires suffix != "" ==> !Text.IsDigit(suffix[0])
    ensures Parts(Show(v) + suffix) == Some(v)
  {
    var major := Text.Decimal(v.major);
    var patch := "." + Text.Decimal(v.patch) + suffix;
    var minor := "." + Text.Decimal(v.minor) + patch;
    assert Show(v) + suffix == major + minor;
    RunOf(major, minor);
    assert (major + minor)[..|major|] == major && (major + minor)[|major|..] == minor;
    Text.NumberDecimal(v.major);
    DottedOf(v.minor, patch);
    DottedOf(v.patch, suffix);
  }

  lemma ShowReadsBack(v: Release)
    ensures Parts(Show(v)) == Some(v)
  {
    PartsShow(v, "");
    assert Show(v) + "" == Show(v);
  }

  /** What follows a number and is neither part of it nor a further number. */
  predicate Ends(suffix: string) {
    (suffix != "" ==> !Text.IsDigit(suffix[0])) &&
    (|suffix| > 1 && suffix[0] == '.' ==> !Text.IsDigit(suffix[1]))
  }

  lemma NothingDotted(suffix: string)
    requires Ends(suffix)
    ensures Dotted(suffix) == (0, suffix)
  {
    if suffix != "" {
      assert Run(suffix[1..]) > 0 ==> suffix[1..][0] == suffix[1];
    }
  }

  /** A version that gives fewer than three numbers, like `0.1.dev7`, is read with zeros for the rest. */
  lemma TruncatedParts(major: nat, minor: nat, suffix: string)
    requires Ends(suffix)
    ensures Parts(Text.Decimal(major) + suffix) == Some(Release(major, 0, 0))
    ensures Parts(Text.Decimal(major) + ("." + Text.Decimal(minor) + suffix)) == Some(Release(major, minor, 0))
  {
    NothingDotted(suffix);
    LeadingNumber(major, suffix);
    LeadingNumber(major, "." + Text.Decimal(minor) + suffix);
    DottedOf(minor, suffix);
  }

  lemma LeadingNumber(n: nat, rest: string)
    requires rest != "" ==> !Text.IsDigit(rest[0])
    ensures var s := Text.Decimal(n) + rest;
      Run(s) == |Text.Decimal(n)| && Text.Number(s[..Run(s)]) == n && s[Run(s)..] == rest
  {
    RunOf(Text.Decimal(n), rest);
    var s := Text.Decimal(n) + rest;
    assert s[..|Text.Decimal(n)|] == Text.Decimal(n);
    Text.NumberDecimal(n);
  }

  /** Only a text that starts with a digit names a release. */
  lemma PartsNeedsDigit(s: string)
    ensures Parts(s).Some? <==> s != "" && Text.IsDigit(s[0])
  {
  }
}
