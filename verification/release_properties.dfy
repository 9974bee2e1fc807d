/** Properties of the release flow, stated over the trace of a run. */
module ReleaseProperties {
  import opened Results
  import opened Effects
  import opened FileSystem
  import opened SemVer
  import opened Config
  import opened ReleaseFlow
  import VersionPattern

  /** A trace that creates no tag and pushes no ref. */
  predicate TagFree(t: seq<Effect>) {
    forall i :: 0 <= i < |t| ==> !t[i].GitTag? && !t[i].GitPushRef?
  }

  /** Proof step: a tag-free trace counts no tag. */
  lemma TagFreeTrace(t: seq<Effect>)
    requires TagFree(t)
    ensures TagCount(t) == 0
    ensures forall e :: e in t ==> !e.GitTag? && !e.GitPushRef?
  {
  }

  /** An inert trace has no mutations, so in particular no tag. */
  lemma InertTrace(t: seq<Effect>)
    requires Inert(t)
    ensures Mutations(t) == []
    ensures TagFree(t)
    ensures TagCount(t) == 0
    ensures forall e :: e in t ==> !e.GitTag? && !e.GitPushRef?
  {
    MutationsEmpty(t);
  }

  /** The mutations of one version rewrite of the file found first: the
      single write of the substituted text, or nothing when the substitution
      changed nothing. */
  lemma SetConfigVersionMutations(fs: Files, write: Writer, cur: string, next: string, m: int)
    requires IsFirstCandidate(fs, m) && fs[Candidates[m]].Readable?
    ensures var c := fs[Candidates[m]].contents;
            var c' := VersionPattern.Substitute(c, cur, next);
            Mutations(SetConfigVersion(fs, write, cur, next).trace)
              == (if c' == c then [] else [WriteFile(Candidates[m], c')])
  {
    var name := Candidates[m];
    var c := fs[name].contents;
    var c' := VersionPattern.Substitute(c, cur, next);
    var attempts := ReadAttempts(Candidates[..m + 1]);
    SetConfigVersionOutcome(fs, write, cur, next, m);
    assert Mutations(attempts) == [] by {
      MutationsEmpty(attempts);
    }
    if c' != c {
      WriteBetweenReads(attempts, WriteFile(name, c'));
    }
  }

  /** Reads, one write, and reads again: the write is the only mutation. */
  lemma WriteBetweenReads(attempts: seq<Effect>, w: Effect)
    requires Mutations(attempts) == [] && w.WriteFile?
    ensures Mutations(attempts + [w]) == [w]
    ensures Mutations(attempts + [w] + attempts) == [w]
  {
    MutationsOfMutating([w]);
    MutationsAppend(attempts, [w]);
    MutationsAppend(attempts + [w], attempts);
  }

  /** A rewrite that succeeds wrote the substituted text once and left the
      file holding it. */
  lemma SetConfigVersionSucceeded(fs: Files, write: Writer, cur: string, next: string, m: int)
    requires IsFirstCandidate(fs, m) && fs[Candidates[m]].Readable?
    requires SetConfigVersion(fs, write, cur, next).result.Ok?
    ensures var c' := VersionPattern.Substitute(fs[Candidates[m]].contents, cur, next);
            var r := SetConfigVersion(fs, write, cur, next);
            && c' != fs[Candidates[m]].contents
            && r.result.value == fs[Candidates[m] := Readable(c')]
            && Mutations(r.trace) == [WriteFile(Candidates[m], c')]
            && IsFirstCandidate(r.result.value, m)
  {
    SetConfigVersionOutcome(fs, write, cur, next, m);
    SetConfigVersionMutations(fs, write, cur, next, m);
  }

  /** The gates do not look at the dry-run flag. */
  lemma GatesIgnoreDryRun(p: Params, dryRun: Option<bool>, status: RepoStatus, fs: Files,
                          script: Script, env: Collaborators)
    ensures Gates(p.(dryRun := dryRun), status, fs, script, env) == Gates(p, status, fs, script, env)
  {
    var p' := p.(dryRun := dryRun);
    assert p'.DirtyAllowed() == p.DirtyAllowed() && p'.ConfirmEnabled() == p.ConfirmEnabled();
    ResolveIgnoresDryRun(p, dryRun, fs, script, env);
  }

  lemma ResolveIgnoresDryRun(p: Params, dryRun: Option<bool>, fs: Files, script: Script, env: Collaborators)
    ensures ResolveVersions(p.(dryRun := dryRun), fs, script, env) == ResolveVersions(p, fs, script, env)
  {
    var p' := p.(dryRun := dryRun);
    assert p'.releaseVersion == p.releaseVersion && p'.postReleaseVersion == p.postReleaseVersion;
  }

  /** A dry run writes nothing and runs no mutating git command, whatever
      the gates decide, and on success leaves the directory as it was. */
  lemma DryRunMutatesNothing(p: Params, status: RepoStatus, fs: Files, script: Script, env: Collaborators)
    requires p.DryRun()
    ensures Mutations(Release(p, status, fs, script, env).trace) == []
    ensures Release(p, status, fs, script, env).result.Ok? ==>
              Release(p, status, fs, script, env).result.value == fs
  {
    var gates := Gates(p, status, fs, script, env);
    assert Release(p, status, fs, script, env).trace == gates.trace + [] == gates.trace;
    InertTrace(gates.trace);
  }

  /** A dry run makes exactly the calls a real run makes before its first
      write: when the dry run fails the real run fails the same way, and when
      it succeeds its trace is a prefix of the real run's, all of whose writes
      and mutating git operations come after that prefix. */
  lemma DryRunIsPrefixOfRealRun(p: Params, status: RepoStatus, fs: Files, script: Script, env: Collaborators)
    ensures var dry := Release(p.(dryRun := Some(true)), status, fs, script, env);
            var wet := Release(p.(dryRun := Some(false)), status, fs, script, env);
            && Mutations(dry.trace) == []
            && (dry.result.Err? ==> wet == dry)
            && (dry.result.Ok? ==>
                  && dry.result.value == fs
                  && dry.trace <= wet.trace
                  && Mutations(wet.trace) == Mutations(wet.trace[|dry.trace|..]))
  {
    var pd := p.(dryRun := Some(true));
    var pw := p.(dryRun := Some(false));
    var gates := Gates(p, status, fs, script, env);
    GatesIgnoreDryRun(p, Some(true), status, fs, script, env);
    GatesIgnoreDryRun(p, Some(false), status, fs, script, env);
    DryRunMutatesNothing(pd, status, fs, script, env);
    if gates.result.Ok? {
      var published := Publish(false, p.gitTagPrefix, gates.result.value, fs, env.write);
      var wet := Release(pw, status, fs, script, env);
      assert Release(pd, status, fs, script, env).trace == gates.trace + [] == gates.trace;
      assert wet.trace == gates.trace + published.trace;
      assert wet.trace[|gates.trace|..] == published.trace;
      InertTrace(gates.trace);
      MutationsAppend(gates.trace, published.trace);
    }
  }

  /** With dirty trees not allowed, an unclean tree or a branch other than
      `main` stops the run after `git status` alone: nothing is read, asked or
      changed. */
  lemma DirtyTreeStopsFirst(p: Params, status: RepoStatus, fs: Files, script: Script, env: Collaborators)
    requires !p.DirtyAllowed()
    requires !status.isClean || status.current != Some("main")
    ensures var r := Release(p, status, fs, script, env);
            && r.trace == [GitStatus]
            && r.result == Err(Failed(if !status.isClean then "Aborting due to uncommitted changes"
                                      else "Aborting due to non-main branch"))
  {
  }

  /** Declining the confirmation stops the run before any write or mutating
      git operation; once the earlier gates have passed, it is the
      confirmation that stops it, as the run's last call. */
  lemma DeclinedConfirmationStops(p: Params, status: RepoStatus, fs: Files, script: Script, env: Collaborators)
    requires p.ConfirmEnabled() && !script.confirmed
    ensures var r := Release(p, status, fs, script, env);
            && r.result.Err?
            && Mutations(r.trace) == []
            && (DirtyCheck(p.DirtyAllowed(), status).result.Ok? && ResolveVersions(p, fs, script, env).result.Ok? ==>
                  r.result.error == Failed("Release cancelled") && r.trace[|r.trace| - 1] == Confirm("Continue?"))
  {
    InertTrace(Gates(p, status, fs, script, env).trace);
  }

  /** The mutations of a successful post-release bump: one write of the
      substituted text, then add, commit and push. */
  lemma PostReleaseSucceeded(plan: Plan, fs: Files, write: Writer, m: int)
    requires IsFirstCandidate(fs, m) && Candidates[m] == plan.configFile && fs[plan.configFile].Readable?
    requires PostRelease(plan, fs, write).result.Ok?
    ensures var f := plan.configFile;
            var c := VersionPattern.Substitute(fs[f].contents, plan.releaseVersion, plan.postReleaseVersion);
            var r := PostRelease(plan, fs, write);
            && Mutations(r.trace) == [WriteFile(f, c)] + BumpGitSteps(f, plan.postReleaseVersion)
            && r.result.value == fs[f := Readable(c)]
  {
    var f := plan.configFile;
    var second := SetConfigVersion(fs, write, plan.releaseVersion, plan.postReleaseVersion);
    SetConfigVersionSucceeded(fs, write, plan.releaseVersion, plan.postReleaseVersion, m);
    var g2 := BumpGitSteps(f, plan.postReleaseVersion);
    assert PostRelease(plan, fs, write).trace == second.trace + g2;
    MutationsThenBump(second.trace, f, plan.postReleaseVersion);
  }

  /** The bump's git steps are all mutations. */
  lemma MutationsThenBump(t: seq<Effect>, f: string, postReleaseVersion: string)
    ensures Mutations(t + BumpGitSteps(f, postReleaseVersion)) == Mutations(t) + BumpGitSteps(f, postReleaseVersion)
  {
    var steps := BumpGitSteps(f, postReleaseVersion);
    MutationsOfMutating(steps);
    MutationsAppend(t, steps);
  }

  /** The ten mutations of a real run, from a single write before the release
      git steps and the bump's mutations after them. */
  lemma PublishMutations(t1: seq<Effect>, t2: seq<Effect>, f: string, c1: string, c2: string,
                         releaseVersion: string, postReleaseVersion: string, tag: string)
    requires Mutations(t1) == [WriteFile(f, c1)]
    requires Mutations(t2) == [WriteFile(f, c2)] + BumpGitSteps(f, postReleaseVersion)
    ensures Mutations(t1 + ReleaseGitSteps(f, releaseVersion, tag) + t2) == [
              WriteFile(f, c1), GitAdd(f), GitCommit("chore: release version " + releaseVersion),
              GitTag(tag), GitPush, GitPushRef("origin", tag),
              WriteFile(f, c2), GitAdd(f), GitCommit("chore: bump version to " + postReleaseVersion),
              GitPush]
  {
    var g1 := ReleaseGitSteps(f, releaseVersion, tag);
    assert Mutations(t1 + g1) == [WriteFile(f, c1)] + g1 by {
      MutationsOfMutating(g1);
      MutationsAppend(t1, g1);
    }
    assert Mutations(t1 + g1 + t2) == [WriteFile(f, c1)] + g1 + Mutations(t2) by {
      MutationsAppend(t1 + g1, t2);
    }
  }

  /** Proof step: a second write to a file replaces the first. */
  lemma OverwriteTwice(fs: Files, name: string, a: FileEntry, b: FileEntry)
    ensures fs[name := a][name := b] == fs[name := b]
  {
  }

  /** A successful real publish is a successful release rewrite, the
      release git steps, and a successful post-release bump. */
  lemma PublishSucceeded(prefix: string, plan: Plan, fs: Files, write: Writer)
    requires Publish(false, prefix, plan, fs, write).result.Ok?
    ensures var first := SetConfigVersion(fs, write, plan.currentVersion, plan.releaseVersion);
            && first.result.Ok?
            && var bump := PostRelease(plan, first.result.value, write);
               && bump.result.Ok?
               && Publish(false, prefix, plan, fs, write)
                    == Run(bump.result, first.trace + ReleaseGitSteps(plan.configFile, plan.releaseVersion,
                                                                      ReleaseTag(prefix, plan.releaseVersion)) + bump.trace)
  {
  }

  /** Inert calls followed by read attempts change nothing. */
  lemma InertThenReads(t: seq<Effect>, names: seq<string>)
    requires Inert(t)
    ensures Mutations(t + ReadAttempts(names)) == []
  {
    InertTrace(t);
    MutationsEmpty(ReadAttempts(names));
    MutationsAppend(t, ReadAttempts(names));
  }

  /** A real run whose current version does not occur, as
      `"version": "<current>"` read literally, in the config file fails on the
      first rewrite with "Version <current> not found in <file>" and changes
      nothing. With no `version` field the current version is "(unknown)";
      the literal search finds it only where the file holds that text, while
      the tool's own pattern, in which the parentheses form a group, finds
      `"version": "unknown"` instead. */
  lemma VersionNotFoundAborts(p: Params, status: RepoStatus, fs: Files, script: Script, env: Collaborators)
    requires !p.DryRun()
    requires Gates(p, status, fs, script, env).result.Ok?
    requires var plan := Gates(p, status, fs, script, env).result.value;
             VersionPattern.HasNoMatch(fs[plan.configFile].contents, plan.currentVersion)
    ensures var plan := Gates(p, status, fs, script, env).result.value;
            var r := Release(p, status, fs, script, env);
            && r.result == Err(Failed("Version " + plan.currentVersion + " not found in " + plan.configFile))
            && Mutations(r.trace) == []
  {
    var gates := Gates(p, status, fs, script, env);
    var plan := gates.result.value;
    var f := plan.configFile;
    var m :| IsFirstCandidate(fs, m) && Candidates[m] == f;
    var attempts := ReadAttempts(Candidates[..m + 1]);
    var notFound := Err(Failed("Version " + plan.currentVersion + " not found in " + f));
    assert Publish(false, p.gitTagPrefix, plan, fs, env.write) == Run(notFound, attempts) by {
      SetConfigVersionOutcome(fs, env.write, plan.currentVersion, plan.releaseVersion, m);
    }
    assert Release(p, status, fs, script, env) == Run(notFound, gates.trace + attempts);
    InertThenReads(gates.trace, Candidates[..m + 1]);
  }

  /** The steps after the gates, in a real run that succeeds: two writes of
      substituted text, each followed by its git operations. */
  lemma PublishChoreography(prefix: string, plan: Plan, fs: Files, write: Writer, m: int)
    requires IsFirstCandidate(fs, m) && Candidates[m] == plan.configFile && fs[plan.configFile].Readable?
    requires Publish(false, prefix, plan, fs, write).result.Ok?
    ensures var f := plan.configFile;
            var c1 := VersionPattern.Substitute(fs[f].contents, plan.currentVersion, plan.releaseVersion);
            var c2 := VersionPattern.Substitute(c1, plan.releaseVersion, plan.postReleaseVersion);
            var tag := prefix + plan.releaseVersion;
            var r := Publish(false, prefix, plan, fs, write);
            && Mutations(r.trace) == [
                 WriteFile(f, c1), GitAdd(f), GitCommit("chore: release version " + plan.releaseVersion),
                 GitTag(tag), GitPush, GitPushRef("origin", tag),
                 WriteFile(f, c2), GitAdd(f), GitCommit("chore: bump version to " + plan.postReleaseVersion),
                 GitPush]
            && r.result.value == fs[f := Readable(c2)]
  {
    var f := plan.configFile;
    var c1 := VersionPattern.Substitute(fs[f].contents, plan.currentVersion, plan.releaseVersion);
    var c2 := VersionPattern.Substitute(c1, plan.releaseVersion, plan.postReleaseVersion);
    var tag := prefix + plan.releaseVersion;
    var first := SetConfigVersion(fs, write, plan.currentVersion, plan.releaseVersion);
    var fs1 := fs[f := Readable(c1)];
    var bump := PostRelease(plan, fs1, write);
    var t := first.trace + ReleaseGitSteps(f, plan.releaseVersion, tag) + bump.trace;
    assert Mutations(first.trace) == [WriteFile(f, c1)] && first.result == Ok(fs1) by {
      PublishSucceeded(prefix, plan, fs, write);
      SetConfigVersionSucceeded(fs, write, plan.currentVersion, plan.releaseVersion, m);
    }
    assert Publish(false, prefix, plan, fs, write) == Run(bump.result, t) by {
      PublishSucceeded(prefix, plan, fs, write);
      assert ReleaseTag(prefix, plan.releaseVersion) == tag;
    }
    assert Mutations(bump.trace) == [WriteFile(f, c2)] + BumpGitSteps(f, plan.postReleaseVersion)
        && bump.result == Ok(fs[f := Readable(c2)]) by {
      PostReleaseSucceeded(plan, fs1, write, m);
      OverwriteTwice(fs, f, Readable(c1), Readable(c2));
    }
    PublishMutations(first.trace, bump.trace, f, c1, c2, plan.releaseVersion, plan.postReleaseVersion, tag);
  }

  /** The file writes and git operations of a successful real run, in order:
      write the release version, add, commit, tag, push the branch, push the
      tag to origin, write the post-release version, add, commit, push. The
      two writes are text substitutions on the config file found, and the
      directory ends holding the second one. */
  lemma RealRunChoreography(p: Params, status: RepoStatus, fs: Files, script: Script, env: Collaborators)
    requires !p.DryRun()
    requires Release(p, status, fs, script, env).result.Ok?
    ensures ResolveVersions(p, fs, script, env).result.Ok?
    ensures var plan := ResolveVersions(p, fs, script, env).result.value;
            var f := plan.configFile;
            var c1 := VersionPattern.Substitute(fs[f].contents, plan.currentVersion, plan.releaseVersion);
            var c2 := VersionPattern.Substitute(c1, plan.releaseVersion, plan.postReleaseVersion);
            var tag := p.gitTagPrefix + plan.releaseVersion;
            var r := Release(p, status, fs, script, env);
            && Mutations(r.trace) == [
                 WriteFile(f, c1), GitAdd(f), GitCommit("chore: release version " + plan.releaseVersion),
                 GitTag(tag), GitPush, GitPushRef("origin", tag),
                 WriteFile(f, c2), GitAdd(f), GitCommit("chore: bump version to " + plan.postReleaseVersion),
                 GitPush]
            && r.result.value == fs[f := Readable(c2)]
  {
    var gates := Gates(p, status, fs, script, env);
    var plan := gates.result.value;
    var published := Publish(false, p.gitTagPrefix, plan, fs, env.write);
    var m :| IsFirstCandidate(fs, m) && Candidates[m] == plan.configFile;
    PublishChoreography(p.gitTagPrefix, plan, fs, env.write, m);
    InertTrace(gates.trace);
    MutationsAppend(gates.trace, published.trace);
  }

  /** The tag effects of the publishing steps' trace shapes. */
  lemma TagsAroundReleaseSteps(t1: seq<Effect>, t2: seq<Effect>, f: string, v: string, tag: string)
    requires TagFree(t1) && TagFree(t2)
    ensures var t := t1 + ReleaseGitSteps(f, v, tag) + t2;
            && TagCount(t) == 1
            && forall e :: e in t && (e.GitTag? || e.GitPushRef?) ==> (e == GitTag(tag) || e == GitPushRef("origin", tag))
  {
    var g1 := ReleaseGitSteps(f, v, tag);
    TagFreeTrace(t1);
    TagFreeTrace(t2);
    ReleaseStepsTagCount(f, v, tag);
    TagCountAppend(t1, g1);
    TagCountAppend(t1 + g1, t2);
    assert forall e :: e in t1 + g1 + t2 ==> e in t1 || e in g1 || e in t2;
  }

  /** The release git steps create one tag. */
  lemma ReleaseStepsTagCount(f: string, v: string, tag: string)
    ensures TagCount(ReleaseGitSteps(f, v, tag)) == 1
  {
    var g1 := ReleaseGitSteps(f, v, tag);
    assert TagCount(g1[4..]) == 0;
    assert TagCount(g1[3..]) == 0;
    assert TagCount(g1[2..]) == 1;
    assert TagCount(g1[1..]) == 1;
  }

  /** A version rewrite only reads and writes files. */
  lemma RewriteIsTagFree(fs: Files, write: Writer, cur: string, next: string)
    ensures TagFree(SetConfigVersion(fs, write, cur, next).trace)
  {
    var t := SetConfigVersion(fs, write, cur, next).trace;
    assert forall i :: 0 <= i < |t| ==> t[i].ReadFile? || t[i].WriteFile?;
  }

  /** The post-release bump creates no tag and pushes no ref. */
  lemma PostReleaseIsTagFree(plan: Plan, fs: Files, write: Writer)
    ensures TagFree(PostRelease(plan, fs, write).trace)
  {
    var second := SetConfigVersion(fs, write, plan.releaseVersion, plan.postReleaseVersion);
    RewriteIsTagFree(fs, write, plan.releaseVersion, plan.postReleaseVersion);
    if second.result.Ok? {
      BumpThenTagFree(second.trace, plan.configFile, plan.postReleaseVersion);
    }
  }

  /** Proof step: the bump's git steps keep a trace tag-free. */
  lemma BumpThenTagFree(t: seq<Effect>, configFile: string, postReleaseVersion: string)
    requires TagFree(t)
    ensures TagFree(t + BumpGitSteps(configFile, postReleaseVersion))
  {
  }

  /** The publishing steps create at most the one release tag. */
  lemma PublishTags(dryRun: bool, prefix: string, plan: Plan, fs: Files, write: Writer)
    ensures var r := Publish(dryRun, prefix, plan, fs, write);
            var tag := prefix + plan.releaseVersion;
            && TagCount(r.trace) <= 1
            && forall e :: e in r.trace && (e.GitTag? || e.GitPushRef?) ==> (e == GitTag(tag) || e == GitPushRef("origin", tag))
  {
    if !dryRun {
      var first := SetConfigVersion(fs, write, plan.currentVersion, plan.releaseVersion);
      RewriteIsTagFree(fs, write, plan.currentVersion, plan.releaseVersion);
      TagFreeTrace(first.trace);
      if first.result.Ok? {
        var bump := PostRelease(plan, first.result.value, write);
        PostReleaseIsTagFree(plan, first.result.value, write);
        TagsAroundReleaseSteps(first.trace, bump.trace, plan.configFile, plan.releaseVersion,
                               ReleaseTag(prefix, plan.releaseVersion));
      }
    }
  }

  /** A run creates at most one tag, named by the prefix followed by the
      release version exactly as resolved, and pushes that tag, and only that
      ref, to `origin`. */
  lemma OneTagNamedByPrefix(p: Params, status: RepoStatus, fs: Files, script: Script, env: Collaborators)
    ensures var r := Release(p, status, fs, script, env);
            && TagCount(r.trace) <= 1
            && (forall e :: e in r.trace && (e.GitTag? || e.GitPushRef?) ==>
                  && ResolveVersions(p, fs, script, env).result.Ok?
                  && var tag := p.gitTagPrefix + ResolveVersions(p, fs, script, env).result.value.releaseVersion;
                     (e == GitTag(tag) || e == GitPushRef("origin", tag)))
  {
    var gates := Gates(p, status, fs, script, env);
    InertTrace(gates.trace);
    if gates.result.Ok? {
      var published := Publish(p.DryRun(), p.gitTagPrefix, gates.result.value, fs, env.write);
      PublishTags(p.DryRun(), p.gitTagPrefix, gates.result.value, fs, env.write);
      TagCountAppend(gates.trace, published.trace);
    }
  }

  /** With storage that keeps what it is sent and a post-release version
      different from the release version, a real publish fails only when its
      first rewrite does: the bump always finds the release version the first
      rewrite wrote, and always changes it. */
  lemma FaithfulPublish(prefix: string, plan: Plan, fs: Files, write: Writer, m: int)
    requires IsFaithful(write)
    requires IsFirstCandidate(fs, m) && Candidates[m] == plan.configFile && fs[plan.configFile].Readable?
    requires plan.releaseVersion != plan.postReleaseVersion
    ensures Publish(false, prefix, plan, fs, write).result.Ok? <==>
            SetConfigVersion(fs, write, plan.currentVersion, plan.releaseVersion).result.Ok?
  {
    var first := SetConfigVersion(fs, write, plan.currentVersion, plan.releaseVersion);
    if first.result.Ok? {
      var f := plan.configFile;
      var c := fs[f].contents;
      var c1 := VersionPattern.Substitute(c, plan.currentVersion, plan.releaseVersion);
      SetConfigVersionSucceeded(fs, write, plan.currentVersion, plan.releaseVersion, m);
      var fs1 := fs[f := Readable(c1)];
      assert fs1[f].contents == c1;
      VersionPattern.SecondRewriteChanges(c, plan.currentVersion, plan.releaseVersion, plan.postReleaseVersion);
      assert SetConfigVersion(fs1, write, plan.releaseVersion, plan.postReleaseVersion).result.Ok? by {
        SetConfigVersionOutcome(fs1, write, plan.releaseVersion, plan.postReleaseVersion, m);
        var c2 := VersionPattern.Substitute(c1, plan.releaseVersion, plan.postReleaseVersion);
        assert write(f, c2) == Stored(c2);
      }
      assert PostRelease(plan, fs1, write).result.Ok?;
    }
  }
}
