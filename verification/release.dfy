/** The release flow: a straight line of gates (repository state, version
    resolution, confirmation) followed by a fixed order of file writes and
    git operations, each of which a dry run skips.

    The run is a pure function of the repository status, the working
    directory, the operator's scripted answers, the parameters and the
    collaborators; it returns the outcome and the trace of calls made. */
module ReleaseFlow {
  import opened Results
  import opened Effects
  import opened FileSystem
  import opened Json
  import opened SemVer
  import opened Config

  /** The options of a run; `None` means "not given", and takes the
      default the flow destructures it with. */
  datatype Params = Params(
    dryRun: Option<bool>,
    releaseVersion: Option<string>,
    postReleaseVersion: Option<string>,
    enableConfirm: Option<bool>,
    allowDirty: Option<bool>,
    gitTagPrefix: string)
  {
    function DryRun(): bool { dryRun.GetOr(false) }
    function ConfirmEnabled(): bool { enableConfirm.GetOr(true) }
    function DirtyAllowed(): bool { allowDirty.GetOr(false) }
  }

  /** The defaults of the options: a run is real, asks for confirmation and
      refuses a dirty tree unless told otherwise. */
  lemma ParamsDefaults(p: Params)
    ensures p.DryRun() <==> p.dryRun == Some(true)
    ensures p.ConfirmEnabled() <==> p.enableConfirm != Some(false)
    ensures p.DirtyAllowed() <==> p.allowDirty == Some(true)
  {
  }

  /** `git status`: whether the tree is clean, and the checked-out branch
      (`None` when detached). */
  datatype RepoStatus = RepoStatus(isClean: bool, current: Option<string>)

  /** What the operator does at a text prompt: type an answer, submit an
      empty line, or there is no terminal to ask on. */
  datatype Answer = Typed(text: string) | EmptyInput | NoTerminal

  /** The operator's answers, in the order the flow asks. */
  datatype Script = Script(releaseAnswer: Answer, postReleaseAnswer: Answer, confirmed: bool)

  datatype Collaborators = Collaborators(parseJsonc: JsoncParser, semver: SemVerLib, write: Writer)

  /** What version resolution settles before anything is written. */
  datatype Plan = Plan(configFile: string, currentVersion: string,
                       releaseVersion: string, postReleaseVersion: string)

  const TrunkBranch: string := "main"

  /** Shown, and searched for, when the config file has no version. */
  const UnknownVersion: string := "(unknown)"

  /** A text prompt. An empty line yields the default, or the empty string
      when there is none; with no terminal the prompt yields nothing and the
      flow stops with "Not interactive". */
  function Prompt(message: string, default: Option<string>, answer: Answer): (r: Run<string>)
    ensures r.trace == [Ask(message, default)]
    ensures r.result.Err? <==> answer == NoTerminal
    ensures r.result.Err? ==> r.result.error == Failed("Not interactive")
    ensures answer.Typed? ==> r.result == Ok(answer.text)
    ensures answer == EmptyInput && default.Some? ==> r.result == Ok(default.value)
  {
    var result := match answer
      case Typed(t) => Ok(t)
      case EmptyInput => Ok(default.GetOr(""))
      case NoTerminal => Err(Failed("Not interactive"));
    Run(result, [Ask(message, default)])
  }

  /** The repository gate: unless dirty trees are allowed, the tree must be
      clean and the branch must be the trunk, checked in that order. */
  function DirtyCheck(allowDirty: bool, status: RepoStatus): (r: Run<()>)
    ensures r.result.Ok? <==> allowDirty || (status.isClean && status.current == Some(TrunkBranch))
    ensures r.trace == (if allowDirty then [] else [GitStatus])
    ensures Inert(r.trace)
    ensures !allowDirty && !status.isClean ==> r.result == Err(Failed("Aborting due to uncommitted changes"))
    ensures !allowDirty && status.isClean && status.current != Some(TrunkBranch) ==>
              r.result == Err(Failed("Aborting due to non-main branch"))
  {
    if allowDirty then Run(Ok(()), [])
    else if !status.isClean then Run(Err(Failed("Aborting due to uncommitted changes")), [GitStatus])
    else if status.current != Some(TrunkBranch) then Run(Err(Failed("Aborting due to non-main branch")), [GitStatus])
    else Run(Ok(()), [GitStatus])
  }

  /** How the current version is shown and later searched for. */
  function CurrentVersionText(lib: SemVerLib, version: Option<SemVer>): string {
    match version
    case Some(v) => lib.format(v)
    case None => UnknownVersion
  }

  /** A trace of file reads and prompts only. */
  predicate ReadsAndAsks(t: seq<Effect>) {
    forall i :: 0 <= i < |t| ==> t[i].ReadFile? || t[i].Ask?
  }

  lemma ReadsAndAsksAppend(a: seq<Effect>, b: seq<Effect>)
    requires ReadsAndAsks(a) && ReadsAndAsks(b)
    ensures ReadsAndAsks(a + b)
  {
    forall i | 0 <= i < |a + b|
      ensures (a + b)[i].ReadFile? || (a + b)[i].Ask?
    {
      if i < |a| {
        assert (a + b)[i] == a[i];
      } else {
        assert (a + b)[i] == b[i - |a|];
      }
    }
  }

  /** Proof step: reads and questions change nothing. */
  lemma ReadsAndAsksAreInert(t: seq<Effect>)
    requires ReadsAndAsks(t)
    ensures Inert(t)
  {
  }

  /** Version resolution: read the current version, take the release version
      from the parameters or a prompt and parse it, offer a default
      post-release version, take the post-release version from the
      parameters or a prompt and check that it parses. */
  function ResolveVersions(p: Params, fs: Files, script: Script, env: Collaborators): (r: Run<Plan>)
    ensures ReadsAndAsks(r.trace)
    ensures r.result.Ok? ==>
              && IsFirstExisting(fs, r.result.value.configFile)
              && fs[r.result.value.configFile].Readable?
              && env.semver.parse(r.result.value.releaseVersion).Some?
              && env.semver.parse(r.result.value.postReleaseVersion).Some?
    ensures r.result.Ok? && p.releaseVersion.Some? ==> r.result.value.releaseVersion == p.releaseVersion.value
    ensures r.result.Ok? && p.postReleaseVersion.Some? ==>
              r.result.value.postReleaseVersion == p.postReleaseVersion.value
  {
    var info := GetVersionFromConfig(fs, env.parseJsonc, env.semver.parse);
    match info.result
    case Err(e) => Run(Err(e), info.trace)
    case Ok(vi) =>
      var current := CurrentVersionText(env.semver, vi.version);
      var rel := if p.releaseVersion.Some? then Run(Ok(p.releaseVersion.value), [])
                 else Prompt("Release version:", None, script.releaseAnswer);
      var t1 := info.trace + rel.trace;
      ReadsAndAsksAppend(info.trace, rel.trace);
      match rel.result
      case Err(e) => Run(Err(e), t1)
      case Ok(releaseVersion) =>
        match env.semver.parse(releaseVersion)
        case None => Run(Err(InvalidSemVer(releaseVersion)), t1)
        case Some(parsed) =>
          var suggested := DefaultPostRelease(env.semver, parsed);
          var post := if p.postReleaseVersion.Some? then Run(Ok(p.postReleaseVersion.value), [])
                      else Prompt("Post-release version:", Some(suggested), script.postReleaseAnswer);
          var t2 := t1 + post.trace;
          ReadsAndAsksAppend(t1, post.trace);
          match post.result
          case Err(e) => Run(Err(e), t2)
          case Ok(postReleaseVersion) =>
            if env.semver.parse(postReleaseVersion).None? then Run(Err(InvalidSemVer(postReleaseVersion)), t2)
            else Run(Ok(Plan(vi.filename, current, releaseVersion, postReleaseVersion)), t2)
  }

  /** The confirmation gate. */
  function ConfirmGate(enabled: bool, confirmed: bool): (r: Run<()>)
    ensures r.result.Ok? <==> !enabled || confirmed
    ensures r.result.Err? ==> r.result.error == Failed("Release cancelled")
    ensures r.trace == (if enabled then [Confirm("Continue?")] else [])
    ensures Inert(r.trace)
  {
    if !enabled then Run(Ok(()), [])
    else if confirmed then Run(Ok(()), [Confirm("Continue?")])
    else Run(Err(Failed("Release cancelled")), [Confirm("Continue?")])
  }

  /** The tag a release creates. */
  function ReleaseTag(prefix: string, releaseVersion: string): (tag: string)
    ensures |tag| == |prefix| + |releaseVersion|
    ensures tag[..|prefix|] == prefix && tag[|prefix|..] == releaseVersion
  {
    prefix + releaseVersion
  }

  /** Committing, tagging and pushing the release. */
  function ReleaseGitSteps(configFile: string, releaseVersion: string, tag: string): seq<Effect> {
    [GitAdd(configFile), GitCommit("chore: release version " + releaseVersion),
     GitTag(tag), GitPush, GitPushRef("origin", tag)]
  }

  /** Committing and pushing the post-release bump. */
  function BumpGitSteps(configFile: string, postReleaseVersion: string): seq<Effect> {
    [GitAdd(configFile), GitCommit("chore: bump version to " + postReleaseVersion), GitPush]
  }

  /** File accesses followed by the bump's git steps: a push at the end and
      no tag anywhere. */
  lemma FileAccessThenBump(t: seq<Effect>, configFile: string, postReleaseVersion: string)
    requires FileAccessOnly(t)
    ensures GitPush !in t && GitPush in t + BumpGitSteps(configFile, postReleaseVersion)
    ensures forall tag :: GitTag(tag) !in t && GitTag(tag) !in t + BumpGitSteps(configFile, postReleaseVersion)
  {
    FileAccessHasNoGit(t);
    var steps := BumpGitSteps(configFile, postReleaseVersion);
    assert (t + steps)[|t| + 2] == GitPush;
    forall tag
      ensures GitTag(tag) !in t + steps
    {
      assert GitTag(tag) !in steps;
    }
  }

  /** The release git steps between the first rewrite's file accesses and
      an untagging bump: the rewrite's trace comes first, and the release
      tag is created. */
  lemma ReleaseStepsBetween(t1: seq<Effect>, configFile: string, releaseVersion: string, tag: string, t2: seq<Effect>)
    requires forall x :: GitTag(x) !in t2
    ensures var t := t1 + ReleaseGitSteps(configFile, releaseVersion, tag) + t2;
            && |t1| <= |t|
            && t[..|t1|] == t1
            && GitTag(tag) in t
  {
    var steps := ReleaseGitSteps(configFile, releaseVersion, tag);
    var t := t1 + steps + t2;
    assert t[|t1| + 2] == GitTag(tag);
    assert t[..|t1|] == t1;
  }

  /** Everything after the gates: in a dry run nothing at all; otherwise
      rewrite the version to the release version, commit, tag and push, then
      bump to the post-release version. */
  function Publish(dryRun: bool, prefix: string, plan: Plan, fs: Files, write: Writer): (r: Run<Files>)
    ensures dryRun ==> r == Run(Ok(fs), [])
    ensures var first := SetConfigVersion(fs, write, plan.currentVersion, plan.releaseVersion);
            && (!dryRun ==> |first.trace| <= |r.trace| && r.trace[..|first.trace|] == first.trace)
            && (GitTag(ReleaseTag(prefix, plan.releaseVersion)) in r.trace <==> !dryRun && first.result.Ok?)
            && (r.result.Ok? && !dryRun ==> first.result.Ok?)
            && (!dryRun && first.result.Err? ==> r == Run(first.result, first.trace))
  {
    if dryRun then Run(Ok(fs), [])
    else
      var first := SetConfigVersion(fs, write, plan.currentVersion, plan.releaseVersion);
      FileAccessHasNoGit(first.trace);
      match first.result
      case Err(e) => Run(Err(e), first.trace)
      case Ok(fs1) =>
        var bump := PostRelease(plan, fs1, write);
        var tag := ReleaseTag(prefix, plan.releaseVersion);
        ReleaseStepsBetween(first.trace, plan.configFile, plan.releaseVersion, tag, bump.trace);
        Run(bump.result, first.trace + ReleaseGitSteps(plan.configFile, plan.releaseVersion, tag) + bump.trace)
  }

  /** The post-release bump: rewrite the version to the post-release version,
      searching for the release version just written, then commit and push. */
  function PostRelease(plan: Plan, fs: Files, write: Writer): (r: Run<Files>)
    ensures GitPush in r.trace <==> r.result.Ok?
    ensures forall tag :: GitTag(tag) !in r.trace
    ensures r.result == SetConfigVersion(fs, write, plan.releaseVersion, plan.postReleaseVersion).result
    ensures var second := SetConfigVersion(fs, write, plan.releaseVersion, plan.postReleaseVersion);
            second.result.Err? ==> r.trace == second.trace
  {
    var second := SetConfigVersion(fs, write, plan.releaseVersion, plan.postReleaseVersion);
    FileAccessThenBump(second.trace, plan.configFile, plan.postReleaseVersion);
    match second.result
    case Err(e) => Run(Err(e), second.trace)
    case Ok(fs2) => Run(Ok(fs2), second.trace + BumpGitSteps(plan.configFile, plan.postReleaseVersion))
  }

  /** The gates, in order: the repository check, version resolution and the
      confirmation. They only query, read and ask. */
  function Gates(p: Params, status: RepoStatus, fs: Files, script: Script, env: Collaborators): (r: Run<Plan>)
    ensures Inert(r.trace)
    ensures r.result.Ok? ==> r.result == ResolveVersions(p, fs, script, env).result
    ensures r.result.Ok? <==>
              && DirtyCheck(p.DirtyAllowed(), status).result.Ok?
              && ResolveVersions(p, fs, script, env).result.Ok?
              && ConfirmGate(p.ConfirmEnabled(), script.confirmed).result.Ok?
  {
    var gate := DirtyCheck(p.DirtyAllowed(), status);
    match gate.result
    case Err(e) => Run(Err(e), gate.trace)
    case Ok(_) =>
      var resolved := ResolveVersions(p, fs, script, env);
      var t1 := gate.trace + resolved.trace;
      ReadsAndAsksAreInert(resolved.trace);
      InertAppend(gate.trace, resolved.trace);
      match resolved.result
      case Err(e) => Run(Err(e), t1)
      case Ok(plan) =>
        var confirmation := ConfirmGate(p.ConfirmEnabled(), script.confirmed);
        var t2 := t1 + confirmation.trace;
        InertAppend(t1, confirmation.trace);
        match confirmation.result
        case Err(e) => Run(Err(e), t2)
        case Ok(_) => Run(Ok(plan), t2)
  }

  /** `release`: the gates, then the publishing steps. */
  function Release(p: Params, status: RepoStatus, fs: Files, script: Script, env: Collaborators): (r: Run<Files>)
    ensures var gates := Gates(p, status, fs, script, env);
            && |gates.trace| <= |r.trace|
            && Inert(r.trace[..|gates.trace|])
            && r.trace[..|gates.trace|] == gates.trace
            && (gates.result.Err? ==> r == Run(Err(gates.result.error), gates.trace))
            && (r.result.Ok? ==> gates.result.Ok?)
            && (r.result.Ok? && p.DryRun() ==> r.result.value == fs && r.trace == gates.trace)
  {
    var gates := Gates(p, status, fs, script, env);
    match gates.result
    case Err(e) => Run(Err(e), gates.trace)
    case Ok(plan) =>
      var published := Publish(p.DryRun(), p.gitTagPrefix, plan, fs, env.write);
      PrefixOfAppend(gates.trace, published.trace);
      assert p.DryRun() ==> gates.trace + published.trace == gates.trace;
      Run(published.result, gates.trace + published.trace)
  }
}
