/** Semantic versions, as far as the release flow looks inside them.

    Parsing, formatting and incrementing belong to a library the model does
    not see; they are passed in as a `SemVerLib` record of functions. Only the
    choice of the prerelease identifier for the default post-release version
    is the tool's own logic. */
module SemVer {
  import opened Results
  import opened Text

  /** One dot-separated prerelease component: a word or a number. */
  datatype Identifier = Alphanumeric(text: string) | Numeric(value: nat)

  /** A parsed version; an empty `prerelease` stands for an absent one. */
  datatype SemVer = SemVer(major: nat, minor: nat, patch: nat,
                           prerelease: seq<Identifier>, build: seq<string>)

  datatype SemVerLib = SemVerLib(
    /** `parse`: `None` where the library throws */
    parse: string -> Option<SemVer>,
    format: SemVer -> string,
    /** `increment(v, "prerelease", identifier)` */
    incrementPrerelease: (SemVer, string) -> SemVer)

  /** `toString()` of a prerelease component. */
  function IdentifierText(id: Identifier): (s: string)
    ensures id.Numeric? ==> IsDecimal(s) && DecimalValue(s) == id.value && (s[0] == '0' ==> |s| == 1)
    ensures id.Alphanumeric? ==> s == id.text
  {
    match id
    case Alphanumeric(t) => t
    case Numeric(n) => DecimalRoundTrip(n); NatToDecimal(n)
  }

  /** The identifier the default post-release version increments under:
      the text of the release's first prerelease component, else "dev". */
  function PostReleaseIdentifier(v: SemVer): (id: string)
    ensures |v.prerelease| == 0 ==> id == "dev"
    ensures |v.prerelease| > 0 && v.prerelease[0].Alphanumeric? ==> id == v.prerelease[0].text
    ensures |v.prerelease| > 0 && v.prerelease[0].Numeric? ==>
              && IsDecimal(id) && DecimalValue(id) == v.prerelease[0].value
              && (id[0] == '0' ==> |id| == 1)
    ensures id == "dev" <==> |v.prerelease| == 0 || v.prerelease[0] == Alphanumeric("dev")
  {
    if |v.prerelease| == 0 then "dev" else IdentifierText(v.prerelease[0])
  }

  /** A numeric first prerelease component gives exactly the digits
      `toString()` writes for it, e.g. "1" for `2.0.0-1`. */
  lemma NumericPostReleaseIdentifier(v: SemVer)
    requires |v.prerelease| > 0 && v.prerelease[0].Numeric?
    ensures PostReleaseIdentifier(v) == NatToDecimal(v.prerelease[0].value)
  {
    DecimalCanonical(PostReleaseIdentifier(v), v.prerelease[0].value);
  }

  /** The post-release version offered when none is given. */
  function DefaultPostRelease(lib: SemVerLib, release: SemVer): string {
    lib.format(lib.incrementPrerelease(release, PostReleaseIdentifier(release)))
  }
}
