/** Properties of version resolution: how the current version is shown, how
    the release and post-release versions are taken from the parameters or
    the operator, and what a missing terminal does. */
module ResolutionProperties {
  import opened Results
  import opened Effects
  import opened FileSystem
  import opened SemVer
  import opened Config
  import opened ReleaseFlow

  /** The current version is the formatted parse of the config's `version`
      field, or "(unknown)" when the field is absent; the config file is the
      one `getVersionFromConfig` read. */
  lemma CurrentVersionShown(p: Params, fs: Files, script: Script, env: Collaborators)
    requires ResolveVersions(p, fs, script, env).result.Ok?
    ensures var info := GetVersionFromConfig(fs, env.parseJsonc, env.semver.parse);
            var plan := ResolveVersions(p, fs, script, env).result.value;
            && info.result.Ok?
            && plan.configFile == info.result.value.filename
            && (info.result.value.version.None? ==> plan.currentVersion == "(unknown)")
            && (info.result.value.version.Some? ==>
                  plan.currentVersion == env.semver.format(info.result.value.version.value))
  {
  }

  /** A release version given as a parameter is used verbatim and nobody is
      asked for it; otherwise the operator is asked "Release version:" with
      no default, and the typed text, or the empty string for an empty line,
      becomes the release version. */
  lemma ReleaseVersionSource(p: Params, fs: Files, script: Script, env: Collaborators)
    requires ResolveVersions(p, fs, script, env).result.Ok?
    ensures var r := ResolveVersions(p, fs, script, env);
            var plan := r.result.value;
            && (p.releaseVersion.Some? ==>
                  plan.releaseVersion == p.releaseVersion.value && Ask("Release version:", None) !in r.trace)
            && (p.releaseVersion.None? ==>
                  && Ask("Release version:", None) in r.trace
                  && script.releaseAnswer != NoTerminal
                  && (script.releaseAnswer.Typed? ==> plan.releaseVersion == script.releaseAnswer.text)
                  && (script.releaseAnswer == EmptyInput ==> plan.releaseVersion == ""))
  {
    var info := GetVersionFromConfig(fs, env.parseJsonc, env.semver.parse);
    var rel := if p.releaseVersion.Some? then Run(Ok(p.releaseVersion.value), [])
               else Prompt("Release version:", None, script.releaseAnswer);
    var parsed := env.semver.parse(rel.result.value).value;
    var suggested := DefaultPostRelease(env.semver, parsed);
    var post := if p.postReleaseVersion.Some? then Run(Ok(p.postReleaseVersion.value), [])
                else Prompt("Post-release version:", Some(suggested), script.postReleaseAnswer);
    var r := ResolveVersions(p, fs, script, env);
    assert r.trace == info.trace + rel.trace + post.trace;
    if p.releaseVersion.Some? {
      assert Ask("Release version:", None) !in info.trace;
      assert Ask("Release version:", None) !in post.trace;
    } else {
      assert r.trace[|info.trace|] == Ask("Release version:", None);
    }
  }

  /** A post-release version given as a parameter is used verbatim; otherwise
      the operator is asked "Post-release version:" with the default offered,
      which is the release version with its prerelease number incremented
      under its first prerelease identifier, or "dev". An empty line takes
      that default; typed text is taken verbatim. The question is the last
      call of version resolution. */
  lemma PostReleaseVersionSource(p: Params, fs: Files, script: Script, env: Collaborators)
    requires ResolveVersions(p, fs, script, env).result.Ok?
    ensures var r := ResolveVersions(p, fs, script, env);
            var plan := r.result.value;
            var released := env.semver.parse(plan.releaseVersion).value;
            var suggested := DefaultPostRelease(env.semver, released);
            && (p.postReleaseVersion.Some? ==> plan.postReleaseVersion == p.postReleaseVersion.value)
            && (p.postReleaseVersion.None? ==>
                  && |r.trace| > 0
                  && r.trace[|r.trace| - 1] == Ask("Post-release version:", Some(suggested))
                  && script.postReleaseAnswer != NoTerminal
                  && (script.postReleaseAnswer.Typed? ==> plan.postReleaseVersion == script.postReleaseAnswer.text)
                  && (script.postReleaseAnswer == EmptyInput ==> plan.postReleaseVersion == suggested))
  {
  }

  /** Without a terminal, a release version that was not given stops the run
      with "Not interactive" once the config file has been read. */
  lemma NoTerminalStops(p: Params, fs: Files, script: Script, env: Collaborators)
    requires p.releaseVersion.None? && script.releaseAnswer == NoTerminal
    requires GetVersionFromConfig(fs, env.parseJsonc, env.semver.parse).result.Ok?
    ensures ResolveVersions(p, fs, script, env).result == Err(Failed("Not interactive"))
  {
  }

  /** A release version the semantic-version parser rejects stops the run
      before the post-release version is resolved. */
  lemma InvalidReleaseVersionStops(p: Params, fs: Files, script: Script, env: Collaborators)
    requires p.releaseVersion.Some? && env.semver.parse(p.releaseVersion.value).None?
    requires GetVersionFromConfig(fs, env.parseJsonc, env.semver.parse).result.Ok?
    ensures var r := ResolveVersions(p, fs, script, env);
            && r.result == Err(InvalidSemVer(p.releaseVersion.value))
            && r.trace == GetVersionFromConfig(fs, env.parseJsonc, env.semver.parse).trace
  {
  }
}
