/** The calls a release run makes to its collaborators, in order.

    A run is modelled as a pure function that returns its outcome together
    with the trace of the calls it made; properties of the run become
    properties of that trace. */
module Effects {
  import opened Results

  datatype Effect =
      /** `git status` */
    | GitStatus
      /** one attempt to read a file as text */
    | ReadFile(filename: string)
      /** an interactive prompt, with its pre-filled default */
    | Ask(message: string, default: Option<string>)
      /** an interactive yes/no confirmation */
    | Confirm(message: string)
      /** storing new text in a file */
    | WriteFile(filename: string, contents: string)
    | GitAdd(path: string)
    | GitCommit(message: string)
    | GitTag(name: string)
      /** `git push` of the current branch */
    | GitPush
      /** `git push <remote> <ref>` */
    | GitPushRef(remote: string, ref: string)

  /** The effects that change the config file or the repository. */
  predicate IsMutating(e: Effect) {
    e.WriteFile? || e.GitAdd? || e.GitCommit? || e.GitTag? || e.GitPush? || e.GitPushRef?
  }

  /** A trace without a file write or a mutating git operation. */
  predicate Inert(t: seq<Effect>) {
    forall i :: 0 <= i < |t| ==> !IsMutating(t[i])
  }

  lemma InertAppend(a: seq<Effect>, b: seq<Effect>)
    requires Inert(a) && Inert(b)
    ensures Inert(a + b)
  {
    forall i | 0 <= i < |a + b|
      ensures !IsMutating((a + b)[i])
    {
      if i < |a| {
        assert (a + b)[i] == a[i];
      } else {
        assert (a + b)[i] == b[i - |a|];
      }
    }
  }

  /** Proof step: the calls of a first stage stay at the head of the trace. */
  lemma PrefixOfAppend(a: seq<Effect>, b: seq<Effect>)
    ensures |a| <= |a + b| && (a + b)[..|a|] == a
  {
  }

  /** A trace of file reads and writes only. */
  predicate FileAccessOnly(t: seq<Effect>) {
    forall i :: 0 <= i < |t| ==> t[i].ReadFile? || t[i].WriteFile?
  }

  /** Proof step: a trace of file accesses holds no git call. */
  lemma FileAccessHasNoGit(t: seq<Effect>)
    requires FileAccessOnly(t)
    ensures forall e :: e in t ==> !e.GitTag? && !e.GitPush? && !e.GitPushRef?
  {
  }

  /** The outcome of a step together with the calls it made. */
  datatype Run<+T> = Run(result: Result<T>, trace: seq<Effect>)

  /** The mutating effects of a trace, in their order. */
  function Mutations(trace: seq<Effect>): (m: seq<Effect>)
    ensures |m| <= |trace|
  {
    if |trace| == 0 then []
    else (if IsMutating(trace[0]) then [trace[0]] else []) + Mutations(trace[1..])
  }

  /** Filtering distributes over concatenation, so the mutations of a run
      are the mutations of its stages, stage by stage. */
  lemma {:induction false} MutationsAppend(a: seq<Effect>, b: seq<Effect>)
    ensures Mutations(a + b) == Mutations(a) + Mutations(b)
    decreases |a|
  {
    if |a| == 0 {
      assert a + b == b;
    } else {
      var head := if IsMutating(a[0]) then [a[0]] else [];
      assert (a + b)[0] == a[0];
      assert (a + b)[1..] == a[1..] + b;
      assert Mutations(a + b) == head + Mutations(a[1..] + b);
      MutationsAppend(a[1..], b);
      assert Mutations(a) == head + Mutations(a[1..]);
    }
  }

  /** A trace keeps no mutating effect exactly when none of its effects mutates. */
  lemma {:induction false} MutationsEmpty(trace: seq<Effect>)
    ensures Mutations(trace) == [] <==> forall i :: 0 <= i < |trace| ==> !IsMutating(trace[i])
    decreases |trace|
  {
    if |trace| > 0 {
      MutationsEmpty(trace[1..]);
      assert forall i :: 1 <= i < |trace| ==> trace[i] == trace[1..][i - 1];
    }
  }

  /** A trace of mutating effects only is its own list of mutations. */
  lemma {:induction false} MutationsOfMutating(trace: seq<Effect>)
    requires forall i :: 0 <= i < |trace| ==> IsMutating(trace[i])
    ensures Mutations(trace) == trace
    decreases |trace|
  {
    if |trace| > 0 {
      MutationsOfMutating(trace[1..]);
    }
  }

  /** Number of tags a trace creates. */
  function TagCount(trace: seq<Effect>): (n: nat)
    ensures n <= |trace|
    ensures n == 0 <==> forall i :: 0 <= i < |trace| ==> !trace[i].GitTag?
  {
    if |trace| == 0 then 0
    else (if trace[0].GitTag? then 1 else 0) + TagCount(trace[1..])
  }

  lemma {:induction false} TagCountAppend(a: seq<Effect>, b: seq<Effect>)
    ensures TagCount(a + b) == TagCount(a) + TagCount(b)
    decreases |a|
  {
    if |a| == 0 {
      assert a + b == b;
    } else {
      assert (a + b)[1..] == a[1..] + b;
      TagCountAppend(a[1..], b);
    }
  }
}
