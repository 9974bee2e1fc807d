# git-release in Dafny

A model of the release flow of `git-release`, a small Deno command-line helper that cuts a release of a project: it reads the project's version from its config file, asks for the release version and the next development ("post-release") version, writes the release version, commits, tags and pushes, and then writes and pushes the post-release version.

The model covers the two parts of the tool that have invariants:

- **The config-file version store** (`src/config.ts`).
  - Finding the config file among `jsr.json`, `deno.json` and `deno.jsonc`, in that order.
  - Reading the `version` field out of it, with each of the tool's error cases.
  - The in-place text rewrite of that field: the first `"version":` key, optional white space, then the quoted current version, replaced by `"version": "<new>"`. The rewrite is refused when the text does not change, and is checked by reading the file back.
- **The release orchestration** (`src/release.ts`).
  - The dirty-tree and branch gate.
  - Version resolution: the `(unknown)` fallback for a missing version, the release and post-release prompts, and the default post-release version.
  - The confirmation gate.
  - The dry-run switch.
  - The fixed order of file writes and git operations: write, add, commit, tag, push, push the tag to `origin`; then write, add, commit, push.

A run is a pure function of its inputs. It returns its outcome (`Results.Result`) together with the trace of the calls it made (`Effects.Effect`):

- git status;
- file reads, including one per candidate tried;
- prompts and confirmations;
- file writes;
- git add, commit, tag and push.

Properties of the run are stated over that trace. `Effects.Mutations` picks out the writes and the mutating git operations.

The collaborators the tool calls but does not implement are passed in as values:

- the repository status is a `RepoStatus`;
- the working directory is a map from file names to what reading them yields (`FileSystem.Files`);
- the storage's answer to a write is a `FileSystem.Writer`;
- the operator's answers are a `Script`;
- the comment-tolerant JSON parser is a `Json.JsoncParser`;
- the semantic-version library's `parse`, `format` and `increment` are a `SemVer.SemVerLib`.

Modules, leaves first:

| module | file | what it holds |
|---|---|---|
| `Results` | results.dfy | `Option`, `Result` and the tool's errors |
| `Text` | text.dfy | JavaScript's `\s` class, `Array.join`, `JSON.stringify` of a string and a decoder for it, decimal digits |
| `Json` | json.dfy | the parsed document the JSONC parser hands back |
| `SemVer` | semver.dfy | parsed versions, the library interface, the post-release identifier |
| `FileSystem` | filesystem.dfy | the working directory and the storage's write outcome |
| `Effects` | effects.dfy | the trace of a run and its mutating part |
| `VersionPattern` | version_pattern.dfy | the `"version": "<current>"` search and substitution |
| `VersionRegex` | version_regex.dfy | the same search as the tool writes it, with the version read as a regular expression |
| `Config` | config.dfy | `readConfigFile`, `getVersionFromConfig`, `setConfigVersion` |
| `ReleaseFlow` | release.dfy | the gates, version resolution and the publishing steps |
| `ResolutionProperties` | resolution_properties.dfy | where each version comes from |
| `ReleaseProperties` | release_properties.dfy | dry runs, aborts, the commit/tag/push order, the single tag |

### Behaviour worth knowing

- **What the rewrite replaces.** The whole match is replaced, key and white space included, by `"version": "<new>"`. So the white space between key and value becomes one space (`VersionPattern.RewriteExample`).
- **When the rewrite refuses.** The rewrite is refused whenever the text does not change. That includes a match that already reads `"version": "<new>"`, not only a missing match (`VersionPattern.SubstituteUnchanged`).
- **The default post-release identifier.** It is `toString()` of the first prerelease component of the release version, or "dev" when there is none. For a numeric first component, that is its decimal digits (`SemVer.PostReleaseIdentifier`).
- **The current version searched for.** The first rewrite searches for the *formatted* parse of the config's version, `format(parse(version))`. That is not necessarily the text in the file (`ResolutionProperties.CurrentVersionShown`).
- **The confirmation prompt.** The confirmation asks "Continue?" and names no version.
- **Errors.** Every failure is thrown. The tool's own checks carry its messages, and the model keeps those verbatim. Read, write and version-parse failures propagate unchanged from the collaborator that raised them; the model keeps them apart as `ReadFailed`, `WriteFailed` and `InvalidSemVer`.
- **Versions with build metadata.** The tool pastes the version into a regular expression without escaping it. A release version with a `+` therefore cannot be found again by the post-release rewrite, which fails after the release has been tagged and pushed (see Findings).

## Model

| member | source | states |
|---|---|---|
| Config.ReadConfigFile | src/config.ts:7-23 | The first existing candidate, in the order jsr.json, deno.json, deno.jsonc, is the file read, and no later candidate is tried. Another read error of that file is the outcome. With none present, the error names all three. Only reads happen, one per candidate up to the one found. |
| Config.ReadFirst | src/config.ts:10-22 | The search reads the names in order, one attempt each, and stops only at the first name that exists or after the last name. Every name tried before the last one was missing. A file it returns is the last name tried, holding the text returned. |
| Config.ReadFirstStopsAtFirst | src/config.ts:10-19 | The candidate loop returns the first existing file and tries exactly the names before it. |
| Config.ReadFirstNoneExists | src/config.ts:10-22 | When no candidate exists, every name is tried and the not-found error is the outcome. |
| Config.NotFoundMessageNamesAll | src/config.ts:21-22 | The not-found message is "No config file found: jsr.json, deno.json, deno.jsonc". |
| Config.VersionOfDocument | src/config.ts:32-62 | A document is accepted exactly when it parsed, its root is an object, and a `version` key, if present, holds a string the parser accepts. An absent key gives no version. Each rejection carries its own message, the last with the JSON-quoted offending string. |
| Config.GetVersionFromConfig | src/config.ts:25-63 | The version is read from the first existing candidate. Missing or unreadable files give the read errors, and the reads are those of the file search. |
| Config.SetConfigVersion | src/config.ts:65-86 | A rewrite only reads candidate files and writes. |
| Config.SetConfigVersionReadFails | src/config.ts:69 | Without a readable config file the rewrite writes nothing and fails with the read error. |
| Config.SetConfigVersionOutcome | src/config.ts:65-86 | The outcome for each case. Unchanged text gives "Version X not found in F" with no write. A rejected write gives the write error. A write stored as sent leaves the file holding the substituted text and nothing else changed. A write stored otherwise gives "Failed to update version in F". The rewrite succeeds exactly when the text changed and was stored as sent. |
| Config.RereadAfterStore | src/config.ts:79-81 | Reading back after the write finds the same file, holding the stored text, with the same reads as before. |
| Config.FaithfulRewrite | src/config.ts:71-85 | With storage that keeps what it is sent, a rewrite succeeds exactly when there is a first match that does not already read `"version": "<new>"`. The file then holds the substituted text. |
| VersionPattern.MatchAt | src/config.ts:72 | The match starting at a position is found exactly when one exists. |
| VersionPattern.MatchEndUnique | src/config.ts:72 | A match is determined by where it starts, because the white-space run is greedy and a quote is not white space. |
| VersionPattern.FindFrom | src/config.ts:72 | The search from a position returns the leftmost match at or after it, or reports there is none. |
| VersionPattern.FirstMatch | src/config.ts:72 | The search reports nothing exactly when the text has no match. Otherwise it reports the leftmost match. |
| VersionPattern.FirstMatchUnique | src/config.ts:72 | There is only one leftmost match, and the search reports it. |
| VersionPattern.Substitute | src/config.ts:71-74 | The first match is replaced by `"version": "<new>"` and every other character is kept, in order. Without a match the text is unchanged. |
| VersionPattern.SubstituteUnchanged | src/config.ts:71-78 | The substitution leaves the text unchanged exactly when there is no match or the match already reads `"version": "<new>"`. |
| VersionPattern.SubstitutedIsFound | src/config.ts:71-74 | After a substitution the new version is found where the old match was, or earlier. |
| VersionPattern.ReplacementMatchesOnlyItself | src/config.ts:72-73 | A match for `cur` that reads `"version": "<new>"` has `cur` equal to `new`. |
| VersionPattern.SecondRewriteChanges | src/release.ts:85-111 | With versions matched literally, rewriting cur to R and then R to P, with R different from P, changes the text the second time whenever it did the first time. The tool's own pattern keeps this only for an R without `+`; see Findings. |
| VersionPattern.RewriteExample | src/config.ts:71-74 | `{"version":"1.0.0"}` rewritten from 1.0.0 to 1.0.1 is `{"version": "1.0.1"}`. |
| VersionRegex.PatternMatches | src/config.ts:72 | The version pasted into the regular expression reads `.` as any character but a line terminator, `+` as one or more repeats of the character before it, and everything else as itself. Its contract states that the empty pattern matches only the empty text and that a match starts with the first pattern character matching the first text character; the whole reading is characterised by `PlainVersionMatchesItself` and `LiteralVersionPattern`. |
| VersionRegex.PlainVersionMatchesItself | src/config.ts:72 | The pattern of a version without `+` matches the version's own text. |
| VersionRegex.LiteralVersionPattern | src/config.ts:72 | The pattern of a version without `.` and `+` matches exactly its own text. |
| VersionRegex.LiteralMatchIsFound | src/config.ts:71-74 | For a version without `+`, the tool's search finds a match wherever the literal search does. |
| VersionRegex.BuildMetadataDoesNotMatchItself | src/config.ts:72 | The pattern of `1.0.1+build.1` does not match the text `1.0.1+build.1`. |
| VersionRegex.BuildMetadataNotFound | src/release.ts:85-111 | From `{"version":"1.0.0"}`, the release rewrite to `1.0.1+build.1` is found by the tool and writes `{"version": "1.0.1+build.1"}`. In that text the literal search finds the release version, but the tool's pattern for it matches nowhere, so the tool's post-release rewrite fails. |
| Text.EscapeChar | src/config.ts:59 | `JSON.stringify` writes a character as itself exactly when it is not a quote, a backslash or a control character. Otherwise it writes a backslash escape. |
| Text.Stringify | src/config.ts:59 | The quoted literal starts and ends with a quote. It is the text in quotes when nothing needs escaping. |
| Text.StringifyRoundTrip | src/config.ts:59 | Decoding the JSON literal of a string gives the string back, so different versions are reported differently. |
| Text.DecimalRoundTrip | src/release.ts:59 | A numeric identifier's decimal text reads back as the number. |
| SemVer.IdentifierText | src/release.ts:59 | `toString()` of a prerelease component is its word, or the decimal digits of its number, with no leading zero. |
| Text.DecimalCanonical | src/release.ts:59 | Decimal digits without a leading zero are determined by the number they denote: they are the digits `toString()` writes for it. |
| SemVer.PostReleaseIdentifier | src/release.ts:56-60 | The default post-release identifier is "dev" without a prerelease part, the first component's text otherwise. For a numeric first component it is that number's decimal digits, with no leading zero. It is "dev" exactly in those cases or when that component is "dev". |
| SemVer.NumericPostReleaseIdentifier | src/release.ts:59 | For a numeric first component the identifier is exactly the digits `toString()` writes for it, e.g. "1" for `2.0.0-1`. |
| ReleaseFlow.Prompt | src/util.ts:10-14 | A prompt asks once. It yields the typed text, or the default on an empty line, and fails with "Not interactive" exactly when there is no terminal. |
| ReleaseFlow.DirtyCheck | src/release.ts:31-42 | The gate passes exactly when dirty trees are allowed or the tree is clean on `main`. It checks cleanliness first, with its message, and calls `git status` only when dirty trees are not allowed. |
| ReleaseFlow.ResolveVersions | src/release.ts:44-64 | Resolution only reads and asks. When it succeeds the config file is the one found, the release and post-release versions both parse, and supplied versions are used verbatim. |
| ReleaseFlow.ConfirmGate | src/release.ts:74-78 | With confirmation enabled the operator is asked "Continue?", and declining fails with "Release cancelled". Disabled, nothing is asked. |
| ReleaseFlow.ReleaseTag | src/release.ts:89 | The tag is the prefix followed by the release version. |
| ReleaseFlow.Publish | src/release.ts:80-125 | A dry run makes no call and leaves the directory as it was. A real run starts with the release rewrite's calls. It creates the release tag exactly when that rewrite succeeded, whether or not the bump after it succeeds. It succeeds only if the release rewrite did. A failed release rewrite ends the run with that rewrite's error and calls, before any git command. |
| ReleaseFlow.PostRelease | src/release.ts:104-125 | The bump ends as its rewrite does: it succeeds with the directory the rewrite left exactly when the rewrite succeeded, and otherwise fails with the rewrite's error. It pushes exactly when it succeeds, and never tags. A failed rewrite ends the bump with the rewrite's calls alone, before `git add`. |
| ReleaseFlow.ParamsDefaults | src/release.ts:19-27 | `Params.DryRun`, `Params.ConfirmEnabled` and `Params.DirtyAllowed`: an option not given is no dry run, confirmation on and a dirty tree refused; a given option is used as given. |
| ReleaseFlow.Gates | src/release.ts:31-78 | The gates never write or run a mutating git command. They pass exactly when all three pass, handing on the resolved versions. |
| ReleaseFlow.Release | src/release.ts:19-126 | A run starts with the gates' calls, none of which writes or runs a mutating git command. A failing gate ends the run with its error and no further call. A run succeeds only if the gates pass. A successful dry run makes no call after the gates and leaves the directory as it was. |
| ReleaseProperties.GatesIgnoreDryRun | src/release.ts:31-78 | The gates behave the same in a dry run. |
| ReleaseProperties.DirtyTreeStopsFirst | src/release.ts:31-42 | A dirty tree or another branch stops the run after `git status` alone, with the matching message. |
| ReleaseProperties.DeclinedConfirmationStops | src/release.ts:74-78 | Declining stops the run with nothing written or pushed. Once the earlier gates have passed, "Release cancelled" after the confirmation is the last call. |
| ReleaseProperties.DryRunMutatesNothing | src/release.ts:80-125 | A dry run never writes or runs a mutating git command, and on success leaves the directory as it was. |
| ReleaseProperties.DryRunIsPrefixOfRealRun | src/release.ts:80-125 | The dry run's calls are a prefix of the real run's. A failing dry run fails the real run identically. Every mutation of the real run comes after the dry run's calls. |
| ReleaseProperties.SetConfigVersionMutations | src/config.ts:71-79 | A rewrite's only mutation is the single write of the substituted text, or none when nothing changed. |
| ReleaseProperties.SetConfigVersionSucceeded | src/config.ts:65-86 | A successful rewrite changed the text, wrote it once, and left the file holding it and still the file found. |
| ReleaseProperties.PostReleaseSucceeded | src/release.ts:104-125 | A successful bump writes the substituted text once, then adds, commits "chore: bump version to P" and pushes. |
| ReleaseProperties.VersionNotFoundAborts | src/release.ts:80-86 | A real run whose current version, "(unknown)" included, does not occur literally in the config file fails with "Version X not found in F" and changes nothing. This is stated for the literal reading; the tool's own pattern can also match texts that differ from the version (see Left out). |
| ReleaseProperties.PublishChoreography | src/release.ts:80-125 | A successful publish makes exactly ten mutations in order: write, add, commit, tag, push, push the tag to origin, write, add, commit, push. It ends with the file holding the second substitution. |
| ReleaseProperties.RealRunChoreography | src/release.ts:19-125 | A successful real run makes exactly those ten mutations, the two writes being the two literal substitutions of the config file found. |
| ReleaseProperties.PublishTags | src/release.ts:88-102 | The publishing steps create at most one tag, and tag and push only the prefix followed by the release version. |
| ReleaseProperties.OneTagNamedByPrefix | src/release.ts:88-101 | A whole run creates at most one tag. Any tag created or pushed is the prefix followed by the resolved release version. |
| ReleaseProperties.FaithfulPublish | src/release.ts:104-112 | With versions matched literally, storage that keeps what it is sent, and distinct release and post-release versions, a real publish fails only if its first rewrite fails. The tool's own pattern keeps this only for a release version without `+`; see Findings. |
| ResolutionProperties.CurrentVersionShown | src/release.ts:45-49 | The current version (`ReleaseFlow.CurrentVersionText`) is "(unknown)" when the config has no version, and the formatted parsed version otherwise. |
| ResolutionProperties.ReleaseVersionSource | src/release.ts:54 | A supplied release version is used verbatim and not asked for. Otherwise "Release version:" is asked with no default, and the typed text (or "" for an empty line) is used. |
| ResolutionProperties.PostReleaseVersionSource | src/release.ts:56-64 | A supplied post-release version is used verbatim. Otherwise the last call asks "Post-release version:" offering the default (`SemVer.DefaultPostRelease`): the release version incremented under its post-release identifier, formatted. An empty line takes that default, and typed text is used verbatim. |
| ResolutionProperties.NoTerminalStops | src/release.ts:54 | With no terminal and no release version supplied, the run stops with "Not interactive". |
| ResolutionProperties.InvalidReleaseVersionStops | src/release.ts:55 | A release version the parser rejects stops resolution before anything is asked. |

## Findings

| source | as written | input that shows it | evidently intended | confidence | as-written member | corrected member |
|---|---|---|---|---|---|---|
| src/config.ts:72 | The current version is pasted into `new RegExp(...)` unescaped, so the `+` of build metadata repeats the character before it. The second rewrite (src/release.ts:111) searches for the release version the first one wrote. | Config `{"version":"1.0.0"}`, release version `1.0.1+build.1`. The release rewrite writes `{"version": "1.0.1+build.1"}`, and the release is committed, tagged and pushed. The post-release rewrite's pattern then matches nowhere, and the run fails with "Version 1.0.1+build.1 not found in jsr.json". | The version matched as literal text, so the post-release rewrite finds what the release rewrite wrote. | high; not executed | VersionRegex.BuildMetadataNotFound | VersionPattern.SecondRewriteChanges |

## Left out

- VersionPattern.Substitute: the current version is matched as literal text, while the source pastes it into a regular expression without escaping. The two readings part in both directions. The source finds more: `.` matches any character, and `(unknown)` is a group that matches the text `unknown`. The source also finds less: `+` in build metadata is a quantifier, so the pattern of a version such as `1.0.1+build.1` does not match that version's own text. Where the model's post-release rewrite succeeds on such a release version, the source's fails with "Version … not found" after the release has been tagged and pushed (see Findings). `VersionRegex` models the source's reading for `.` and `+`; groups and the other metacharacters are not modelled.
- ReleaseProperties.FaithfulPublish: stated for the literal reading. It holds of the source only for release versions without `+` (Findings).
- VersionPattern.SecondRewriteChanges: stated for the literal reading. It holds of the source only for release versions without `+` (Findings).
- ReleaseProperties.RealRunChoreography: the two writes are the literal substitutions. The source's `.` may match, and rewrite, an earlier text than the literal match; a release version with `+` makes the source's run fail after the release steps (Findings). A current version whose formatted text keeps a `+` (a config reading `"version": "1.0.0+b"`, if the library's format keeps build metadata) makes the source's first rewrite fail with "Version 1.0.0+b not found" before any change, where the lemma states ten changes.
- ReleaseProperties.VersionNotFoundAborts: stated for the literal reading. The source's pattern can match where the literal text does not occur: the group `(unknown)` matches `"version": "unknown"`, and the `.` of `1.0.0` matches `"1x0x0"`. There the source rewrites and goes on, where the lemma says the run aborts.
- VersionPattern.Substitute: a `$` in the new version is written as is. The source's `String.prototype.replace` would read `$&`, `$1` and the like as replacement patterns.
- Text.Unescape: Dafny characters are Unicode scalar values. So a `\u` escape naming a lone surrogate decodes to nothing, and JavaScript's UTF-16 strings with unpaired surrogates are not represented.
- The JSONC parser, and semantic-version parsing, formatting and incrementing: external libraries, passed in as functions. A parse failure is `None`, reported as the tool reports it; the library's own messages are not modelled. Numbers in a parsed document are kept as their literal text.
- Git operations are trace entries that always succeed. A failing `git` command, such as a rejected push, is not modelled. Like the source, the model rolls nothing back after a later failure, and does not re-check the tree before the second push.
- File reads and writes: the directory is a map, and writes go through the `Writer` parameter. A write that stores something other than what was sent stands for partial or concurrent writes. Concurrency itself is not modelled.
- The Deno `prompt`/`confirm` environment is an `Answer` script: typed text, an empty line, or no terminal. `confirm` without a terminal is a declined confirmation.
- Logging (`src/log.ts`), the command-line entry point (`src/cli.ts`) and the module re-exports (`src/mod.ts`) are not part of this model. They only print or forward arguments.
