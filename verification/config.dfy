/** The config-file version store: locating the config file, reading the
    version out of it, and rewriting that version in place. */
module Config {
  import opened Results
  import opened Effects
  import opened FileSystem
  import opened Json
  import opened SemVer
  import opened Text
  import VersionPattern

  /** The files tried, in order. */
  const Candidates: seq<string> := ["jsr.json", "deno.json", "deno.jsonc"]

  datatype ConfigFile = ConfigFile(filename: string, contents: string)

  /** What `getVersionFromConfig` hands back: `None` for a config file with
      no `version` key. */
  datatype VersionInfo = VersionInfo(filename: string, version: Option<SemVer>)

  /** One read attempt per name, in order. */
  function ReadAttempts(names: seq<string>): seq<Effect> {
    seq(|names|, i requires 0 <= i < |names| => ReadFile(names[i]))
  }

  /** `Candidates[m]` exists and no earlier candidate does. */
  predicate IsFirstCandidate(fs: Files, m: int) {
    && 0 <= m < |Candidates|
    && Candidates[m] in fs
    && forall j :: 0 <= j < m ==> Candidates[j] !in fs
  }

  predicate NoCandidate(fs: Files) {
    forall j :: 0 <= j < |Candidates| ==> Candidates[j] !in fs
  }

  ghost predicate IsFirstExisting(fs: Files, name: string) {
    exists m :: IsFirstCandidate(fs, m) && Candidates[m] == name
  }

  /** The outcome of reading one existing file. */
  function ReadEntry(name: string, e: FileEntry): Result<ConfigFile> {
    match e
    case Readable(c) => Ok(ConfigFile(name, c))
    case Unreadable(cause) => Err(ReadFailed(name, cause))
  }

  /** Trying `names` in order: a missing file moves on to the next name, an
      existing one ends the search with its contents or its read error. */
  function ReadFirst(fs: Files, names: seq<string>, notFound: Error): (r: Run<ConfigFile>)
    ensures |r.trace| <= |names|
    ensures r.trace == ReadAttempts(names[..|r.trace|])
    ensures forall i :: 0 <= i < |r.trace| - 1 ==> names[i] !in fs
    ensures |r.trace| < |names| ==> |r.trace| > 0 && names[|r.trace| - 1] in fs
    ensures r.result.Ok? ==>
              && |r.trace| > 0
              && names[|r.trace| - 1] in fs
              && r.result.value.filename == names[|r.trace| - 1]
              && fs[names[|r.trace| - 1]] == Readable(r.result.value.contents)
    decreases |names|
  {
    if |names| == 0 then Run(Err(notFound), [])
    else if names[0] !in fs then
      var rest := ReadFirst(fs, names[1..], notFound);
      Run(rest.result, [ReadFile(names[0])] + rest.trace)
    else Run(ReadEntry(names[0], fs[names[0]]), [ReadFile(names[0])])
  }

  /** When none of the names exists, every one is tried and the search fails. */
  lemma {:induction false} ReadFirstNoneExists(fs: Files, names: seq<string>, notFound: Error)
    requires forall j :: 0 <= j < |names| ==> names[j] !in fs
    ensures ReadFirst(fs, names, notFound) == Run(Err(notFound), ReadAttempts(names))
    decreases |names|
  {
    if |names| > 0 {
      ReadFirstNoneExists(fs, names[1..], notFound);
      assert ReadAttempts(names) == [ReadFile(names[0])] + ReadAttempts(names[1..]);
    }
  }

  /** The search reads exactly the names up to the first existing one and
      returns what reading that one yields. */
  lemma {:induction false} ReadFirstStopsAtFirst(fs: Files, names: seq<string>, notFound: Error, m: nat)
    requires m < |names| && names[m] in fs
    requires forall j :: 0 <= j < m ==> names[j] !in fs
    ensures ReadFirst(fs, names, notFound) == Run(ReadEntry(names[m], fs[names[m]]), ReadAttempts(names[..m + 1]))
    decreases m
  {
    if m > 0 {
      ReadFirstStopsAtFirst(fs, names[1..], notFound, m - 1);
      assert names[1..][..m] == names[1..m + 1];
      assert ReadAttempts(names[..m + 1]) == [ReadFile(names[0])] + ReadAttempts(names[1..m + 1]);
    } else {
      assert ReadAttempts(names[..1]) == [ReadFile(names[0])];
    }
  }

  /** The error raised when no candidate exists lists all candidates. */
  const NotFoundMessage: string := "No config file found: " + Join(Candidates, ", ")

  lemma NotFoundMessageNamesAll()
    ensures NotFoundMessage == "No config file found: jsr.json, deno.json, deno.jsonc"
  {
    assert Candidates[1..][1..] == ["deno.jsonc"];
    assert Join(Candidates, ", ") == "jsr.json, deno.json, deno.jsonc";
  }

  /** `readConfigFile`: the first candidate that exists, read in full. A
      missing file moves on to the next candidate; any other read error
      stops the search. */
  function ReadConfigFile(fs: Files): (r: Run<ConfigFile>)
    ensures NoCandidate(fs) ==>
              r.result == Err(Failed("No config file found: jsr.json, deno.json, deno.jsonc"))
    ensures r.result == Err(Failed("No config file found: jsr.json, deno.json, deno.jsonc")) ==> NoCandidate(fs)
    ensures NoCandidate(fs) ==> r.trace == [ReadFile("jsr.json"), ReadFile("deno.json"), ReadFile("deno.jsonc")]
    ensures forall m :: IsFirstCandidate(fs, m) ==>
              && r.result == ReadEntry(Candidates[m], fs[Candidates[m]])
              && r.trace == ReadAttempts(Candidates[..m + 1])
    ensures r.result.Ok? ==>
              && IsFirstExisting(fs, r.result.value.filename)
              && fs[r.result.value.filename] == Readable(r.result.value.contents)
    ensures forall i :: 0 <= i < |r.trace| ==> r.trace[i].ReadFile?
  {
    var notFound := Failed(NotFoundMessage);
    NotFoundMessageNamesAll();
    assert forall m | IsFirstCandidate(fs, m) ::
      ReadFirst(fs, Candidates, notFound) == Run(ReadEntry(Candidates[m], fs[Candidates[m]]), ReadAttempts(Candidates[..m + 1])) by {
      forall m | IsFirstCandidate(fs, m) {
        ReadFirstStopsAtFirst(fs, Candidates, notFound, m);
      }
    }
    assert NoCandidate(fs) ==> ReadFirst(fs, Candidates, notFound) == Run(Err(notFound), ReadAttempts(Candidates)) by {
      if NoCandidate(fs) {
        ReadFirstNoneExists(fs, Candidates, notFound);
      }
    }
    assert !NoCandidate(fs) ==> ReadFirst(fs, Candidates, notFound).result != Err(notFound) by {
      if !NoCandidate(fs) {
        var first := if Candidates[0] in fs then 0 else if Candidates[1] in fs then 1 else 2;
        assert IsFirstCandidate(fs, first);
      }
    }
    ReadFirst(fs, Candidates, notFound)
  }

  /** Storing new text in the file that was found keeps it the file found. */
  lemma RereadAfterStore(fs: Files, name: string, text: string)
    requires IsFirstExisting(fs, name)
    ensures ReadConfigFile(fs[name := Readable(text)]).result == Ok(ConfigFile(name, text))
    ensures ReadConfigFile(fs[name := Readable(text)]).trace == ReadConfigFile(fs).trace
  {
    var m :| IsFirstCandidate(fs, m) && Candidates[m] == name;
    assert IsFirstCandidate(fs[name := Readable(text)], m);
  }

  /** A document passes the gates of `getVersionFromConfig`: it parsed, its
      root is an object, and a `version` key, if present, holds a string the
      semantic-version parser accepts. */
  predicate IsValidConfig(doc: Option<JsonValue>, parse: string -> Option<SemVer>) {
    && doc.Some?
    && doc.value.JObject?
    && ("version" in doc.value.fields ==>
          doc.value.fields["version"].JString? && parse(doc.value.fields["version"].text).Some?)
  }

  /** The gates `getVersionFromConfig` applies to the parsed text of `filename`. */
  function VersionOfDocument(filename: string, doc: Option<JsonValue>,
                             parse: string -> Option<SemVer>): (r: Result<VersionInfo>)
    ensures r.Ok? <==> IsValidConfig(doc, parse)
    ensures r.Ok? ==> r.value.filename == filename
    ensures r.Ok? ==> (r.value.version.None? <==> "version" !in doc.value.fields)
    ensures r.Ok? && r.value.version.Some? ==>
              r.value.version == parse(doc.value.fields["version"].text)
    ensures doc.None? ==> r == Err(Failed("Could not parse " + filename))
    ensures doc.Some? && !doc.value.JObject? ==> r == Err(Failed("Invalid config file " + filename))
    ensures doc.Some? && doc.value.JObject? && "version" in doc.value.fields
            && !doc.value.fields["version"].JString? ==>
              r == Err(Failed("Invalid \"version\" field in " + filename))
    ensures doc.Some? && doc.value.JObject? && "version" in doc.value.fields
            && doc.value.fields["version"].JString?
            && parse(doc.value.fields["version"].text).None? ==>
              r == Err(Failed("Invalid version " + Stringify(doc.value.fields["version"].text)
                              + " in " + filename))
  {
    match doc
    case None => Err(Failed("Could not parse " + filename))
    case Some(data) =>
      if !data.JObject? then Err(Failed("Invalid config file " + filename))
      else if "version" !in data.fields then Ok(VersionInfo(filename, None))
      else
        match data.fields["version"]
        case JString(s) =>
          (match parse(s)
           case Some(v) => Ok(VersionInfo(filename, Some(v)))
           case None => Err(Failed("Invalid version " + Stringify(s) + " in " + filename)))
        case _ => Err(Failed("Invalid \"version\" field in " + filename))
  }

  /** `getVersionFromConfig`: read the config file found first, parse it with
      the comment-tolerant parser, and apply the gates. */
  function GetVersionFromConfig(fs: Files, parseJsonc: JsoncParser,
                                parse: string -> Option<SemVer>): (r: Run<VersionInfo>)
    ensures NoCandidate(fs) ==> r.result == Err(Failed("No config file found: jsr.json, deno.json, deno.jsonc"))
    ensures forall m :: IsFirstCandidate(fs, m) ==> r.trace == ReadAttempts(Candidates[..m + 1])
    ensures forall m :: IsFirstCandidate(fs, m) && fs[Candidates[m]].Unreadable? ==>
              r.result == Err(ReadFailed(Candidates[m], fs[Candidates[m]].cause))
    ensures forall m :: IsFirstCandidate(fs, m) && fs[Candidates[m]].Readable? ==>
              r.result == VersionOfDocument(Candidates[m], parseJsonc(fs[Candidates[m]].contents), parse)
    ensures r.result.Ok? ==>
              IsFirstExisting(fs, r.result.value.filename) && fs[r.result.value.filename].Readable?
    ensures forall i :: 0 <= i < |r.trace| ==> r.trace[i].ReadFile?
  {
    var read := ReadConfigFile(fs);
    match read.result
    case Err(e) => Run(Err(e), read.trace)
    case Ok(file) => Run(VersionOfDocument(file.filename, parseJsonc(file.contents), parse), read.trace)
  }

  /** `setConfigVersion`: re-read the config file, substitute the first
      `"version": "<cur>"` by `"version": "<next>"`, refuse if nothing changed,
      store the result and check it by reading the file back. */
  function SetConfigVersion(fs: Files, write: Writer, cur: string, next: string): (r: Run<Files>)
    ensures FileAccessOnly(r.trace)
  {
    var read := ReadConfigFile(fs);
    match read.result
    case Err(e) => Run(Err(e), read.trace)
    case Ok(file) =>
      var newContents := VersionPattern.Substitute(file.contents, cur, next);
      if newContents == file.contents then
        Run(Err(Failed("Version " + cur + " not found in " + file.filename)), read.trace)
      else
        var written := read.trace + [WriteFile(file.filename, newContents)];
        match write(file.filename, newContents)
        case Rejected(cause) => Run(Err(WriteFailed(file.filename, cause)), written)
        case Stored(stored) =>
          var fs' := fs[file.filename := Readable(stored)];
          var back := ReadConfigFile(fs');
          RereadAfterStore(fs, file.filename, stored);
          if back.result.value.contents == newContents then Run(Ok(fs'), written + back.trace)
          else Run(Err(Failed("Failed to update version in " + file.filename)), written + back.trace)
  }

  /** Without a config file to read, nothing is written and the read error
      is the outcome. */
  lemma SetConfigVersionReadFails(fs: Files, write: Writer, cur: string, next: string)
    requires ReadConfigFile(fs).result.Err?
    ensures SetConfigVersion(fs, write, cur, next) == Run(Err(ReadConfigFile(fs).result.error), ReadConfigFile(fs).trace)
  {
  }

  /** The outcome of a rewrite of the file found first (`Candidates[m]`, holding
      text `c`), by what the substitution and the storage do:
      - no change: "not found", and no write;
      - stored as sent: the file now holds the substituted text, and nothing
        else in the directory changed;
      - stored otherwise: the read-back check fails;
      - rejected: the write error. */
  lemma SetConfigVersionOutcome(fs: Files, write: Writer, cur: string, next: string, m: int)
    requires IsFirstCandidate(fs, m) && fs[Candidates[m]].Readable?
    ensures var name := Candidates[m];
            var c := fs[name].contents;
            var c' := VersionPattern.Substitute(c, cur, next);
            var attempts := ReadAttempts(Candidates[..m + 1]);
            var r := SetConfigVersion(fs, write, cur, next);
            && (c' == c ==> r == Run(Err(Failed("Version " + cur + " not found in " + name)), attempts))
            && (c' != c && write(name, c').Rejected? ==>
                  r == Run(Err(WriteFailed(name, write(name, c').cause)), attempts + [WriteFile(name, c')]))
            && (c' != c && write(name, c').Stored? ==>
                  r.trace == attempts + [WriteFile(name, c')] + attempts)
            && (c' != c && write(name, c') == Stored(c') ==> r.result == Ok(fs[name := Readable(c')]))
            && (c' != c && write(name, c').Stored? && write(name, c').contents != c' ==>
                  r.result == Err(Failed("Failed to update version in " + name)))
            && (r.result.Ok? <==> c' != c && write(name, c') == Stored(c'))
  {
    var name := Candidates[m];
    var c := fs[name].contents;
    var c' := VersionPattern.Substitute(c, cur, next);
    if c' != c && write(name, c').Stored? {
      RereadAfterStore(fs, name, write(name, c').contents);
    }
  }

  /** With storage that keeps what it is sent, a rewrite of the file found
      first succeeds exactly when the text has a match for the current
      version that does not already read `"version": "<next>"`, and then the
      file holds the substituted text. */
  lemma FaithfulRewrite(fs: Files, write: Writer, cur: string, next: string, m: int)
    requires IsFaithful(write)
    requires IsFirstCandidate(fs, m) && fs[Candidates[m]].Readable?
    ensures var c := fs[Candidates[m]].contents;
            var found := VersionPattern.FirstMatch(c, cur);
            var r := SetConfigVersion(fs, write, cur, next);
            && (r.result.Ok? <==>
                  found.Some? && c[found.value.start..found.value.end] != VersionPattern.Replacement(next))
            && (r.result.Ok? ==>
                  r.result.value == fs[Candidates[m] := Readable(VersionPattern.Substitute(c, cur, next))])
  {
    var name := Candidates[m];
    var c := fs[name].contents;
    var c' := VersionPattern.Substitute(c, cur, next);
    assert write(name, c') == Stored(c');
    SetConfigVersionOutcome(fs, write, cur, next, m);
    VersionPattern.SubstituteUnchanged(c, cur, next);
  }
}
