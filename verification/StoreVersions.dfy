// Optimistic locking: versions of one file over a stretch of a run in which nobody deletes
// it, no merge brings a change of it, and no Apply takes it for missing.
module StoreVersions {
  import opened Wrappers
  import opened Documents
  import opened Keyrings
  import opened Git
  import opened Store
  import opened StoreSafety

  predicate Parses(cfg: Config, raw: string) {
    ParseEnvelope(cfg.codec, raw).Ok?
  }

  function VersionOf(cfg: Config, raw: string): int
    requires Parses(cfg, raw)
  {
    ParseEnvelope(cfg.codec, raw).value.metadata.version
  }

  // b is a, or a later version of it.
  predicate Follows(cfg: Config, a: Option<string>, b: Option<string>) {
    || a == b
    || (b.Some? && Parses(cfg, b.value)
        && (a.Some? ==> Parses(cfg, a.value) && VersionOf(cfg, a.value) < VersionOf(cfg, b.value)))
  }

  function Ceiling(cfg: Config, a: Option<string>): int {
    if a.Some? && Parses(cfg, a.value) && VersionOf(cfg, a.value) > 0 then VersionOf(cfg, a.value) else 0
  }

  // An Apply that takes an existing file it cannot read for a missing one, and writes.
  predicate Misreads(r: Repo, op: Op, p: string) {
    && op.ApplyOp? && GitPath(op.args.path) == p && p in r.worktree
    && op.faults.unreadable && op.args.expected <= 1 && !op.faults.prepare
  }

  // Only an Apply to p moves its file, and none misreads it.
  predicate Steady(cfg: Config, r: Repo, op: Op, p: string) {
    && !Misreads(r, op, p)
    && (!(op.ApplyOp? && GitPath(op.args.path) == p) ==>
          At(RepoStep(cfg, r, op).0.worktree, p) == At(r.worktree, p))
  }

  // Moreover no merged commit changes p, not even to change it back, and a Delete of p is
  // refused before it changes anything.
  predicate Quiet(cfg: Config, r: Repo, op: Op, p: string) {
    && !Misreads(r, op, p)
    && (op.DeleteOp? && GitPath(op.path) == p ==> RepoStep(cfg, r, op).0 == r)
    && (op.PollOp? ==>
          var r' := RepoStep(cfg, r, op).0;
          forall k :: |r.local| <= k < |r'.local| ==> At(r'.local[k].tree, p) == At(Head(r), p))
  }

  // Versions start below the point where they would wrap.
  ghost predicate SteadyRun(cfg: Config, run: Run, p: string) {
    && Lawful(cfg) && IsRun(cfg, run)
    && (forall i :: 0 <= i < |run.ops| ==> Steady(cfg, run.states[i].repo, run.ops[i], p))
    && Ceiling(cfg, At(run.states[0].repo.worktree, p)) + |run.ops| <= MAX_INT
  }

  ghost predicate QuietRun(cfg: Config, run: Run, p: string) {
    && Lawful(cfg) && IsRun(cfg, run)
    && (forall i :: 0 <= i < |run.ops| ==> Quiet(cfg, run.states[i].repo, run.ops[i], p))
    && Ceiling(cfg, At(run.states[0].repo.worktree, p)) + |run.ops| <= MAX_INT
  }

  lemma WriteFollows(cfg: Config, before: Option<string>, args: ApplyArgs, version: int, nonce: Nonce)
    requires Lawful(cfg) && Ceiling(cfg, before) < MAX_INT
    requires VersionFor(cfg, before, args.expected) == Ok(version)
    ensures
      var after := Some(Marshal(cfg.codec, Stored(cfg, args, version, nonce)));
      Follows(cfg, before, after) && Ceiling(cfg, after) <= Ceiling(cfg, before) + 1
  {
    MarshalParse(cfg.codec, Stored(cfg, args, version, nonce));
  }

  lemma FollowsItself(cfg: Config, a: Option<string>)
    ensures Follows(cfg, a, a)
  {
  }

  lemma SteadyApply(cfg: Config, r: Repo, args: ApplyArgs, nonce: Nonce, f: Faults)
    requires Lawful(cfg) && Ceiling(cfg, At(r.worktree, GitPath(args.path))) < MAX_INT
    requires !Misreads(r, ApplyOp(args, nonce, f), GitPath(args.path))
    ensures
      var p := GitPath(args.path);
      var before, after := At(r.worktree, p), At(ApplyRepo(cfg, r, args, nonce, f).0.worktree, p);
      Follows(cfg, before, after) && Ceiling(cfg, after) <= Ceiling(cfg, before) + 1
  {
    hide ApplyRepo, MakeCommit, Push, Follows, Ceiling, Stored;
    ApplyStops(cfg, r, args, nonce, f);
    var before, seen := At(r.worktree, GitPath(args.path)), Seen(r, GitPath(args.path), f.unreadable);
    var version := VersionFor(cfg, seen, args.expected);
    FollowsItself(cfg, before);
    if version.Ok? && !f.prepare {
      assert seen == before;
      WriteFollows(cfg, before, args, version.value, nonce);
      var r2 := Add(Written(cfg, r, args, version.value, nonce), GitPath(args.path), f.stage).repo;
      CommitAndPushLeaveFiles(r2, f.stamp, f.commit, f.push);
    }
  }

  lemma SteadyFile(cfg: Config, r: Repo, op: Op, p: string)
    requires Lawful(cfg) && Steady(cfg, r, op, p)
    requires Ceiling(cfg, At(r.worktree, p)) < MAX_INT
    ensures
      var before, after := At(r.worktree, p), At(RepoStep(cfg, r, op).0.worktree, p);
      Follows(cfg, before, after) && Ceiling(cfg, after) <= Ceiling(cfg, before) + 1
  {
    hide ApplyRepo, DeleteRepo, PollRepo;
    if op.ApplyOp? && GitPath(op.args.path) == p { SteadyApply(cfg, r, op.args, op.nonce, op.faults); }
  }

  lemma QuietIsSteady(cfg: Config, r: Repo, op: Op, p: string)
    requires Quiet(cfg, r, op, p)
    ensures Steady(cfg, r, op, p)
  {
    hide RepoStep, Misreads;
    if op.PollOp? {
      QuietMerge(cfg, r, op, p);
    } else if !Targets(op, p) {
      FileStaysInStep(cfg, r, op, p);
    }
  }

  lemma QuietRunIsSteady(cfg: Config, run: Run, p: string)
    requires QuietRun(cfg, run, p)
    ensures SteadyRun(cfg, run, p)
  {
    hide Quiet, Steady, Step;
    forall i | 0 <= i < |run.ops| ensures Steady(cfg, run.states[i].repo, run.ops[i], p) {
      QuietIsSteady(cfg, run.states[i].repo, run.ops[i], p);
    }
  }

  lemma QuietMerge(cfg: Config, r: Repo, op: Op, p: string)
    requires Quiet(cfg, r, op, p) && op.PollOp?
    ensures
      var r' := RepoStep(cfg, r, op).0;
      && At(Head(r'), p) == At(Head(r), p)
      && At(r'.staged, p) == At(r.staged, p)
      && At(r'.worktree, p) == At(r.worktree, p)
  {
    var r' := RepoStep(cfg, r, op).0;
    HistoriesGrow(cfg, r, op);
    if |r.local| == |r'.local| {
      assert r.local == r'.local;
    } else {
      assert At(r'.local[|r'.local| - 1].tree, p) == At(Head(r), p);
    }
  }

  // Over a steady run the file only moves to later versions, by one at a time.
  lemma {:induction false} FileFollows(cfg: Config, run: Run, p: string, i: nat, j: nat)
    requires SteadyRun(cfg, run, p) && i <= j < |run.states|
    ensures Follows(cfg, At(run.states[i].repo.worktree, p), At(run.states[j].repo.worktree, p))
    ensures Ceiling(cfg, At(run.states[j].repo.worktree, p)) <= Ceiling(cfg, At(run.states[0].repo.worktree, p)) + j
    decreases j, i
  {
    hide RepoStep, Refreshed, Steady;
    if j > 0 {
      var s, op, s' := run.states[j - 1], run.ops[j - 1], run.states[j];
      StepRepo(cfg, s, op, s', run.results[j - 1]);
      FileFollows(cfg, run, p, 0, j - 1);
      SteadyFile(cfg, s.repo, op, p);
      if i < j { FileFollows(cfg, run, p, i, j - 1); }
    }
  }

  // ---------- Compare-and-swap ----------

  predicate Swaps(run: Run, i: nat, p: string, expected: int)
    requires i < |run.ops| && i < |run.results|
  {
    && run.ops[i].ApplyOp? && GitPath(run.ops[i].args.path) == p
    && run.ops[i].args.expected == expected && run.results[i].Ok?
  }

  lemma SuccessWrites(cfg: Config, s: State, op: Op, s': State, res: Result<Option<Envelope>>)
    requires Step(cfg, s, op, s', res) && op.ApplyOp? && res.Ok?
    ensures !op.faults.prepare
  {
    hide PublishRepo, VersionFor, Refreshed;
  }

  // What a successful conditional Apply saw and left.
  lemma SwapStep(cfg: Config, run: Run, i: nat, p: string, expected: int)
    requires Lawful(cfg) && IsRun(cfg, run) && i < |run.ops| && !Misreads(run.states[i].repo, run.ops[i], p)
    requires Swaps(run, i, p, expected) && expected > 0
    ensures run.results[i].value.Some?
    ensures
      var before, after := At(run.states[i].repo.worktree, p), At(run.states[i + 1].repo.worktree, p);
      var version := run.results[i].value.value.metadata.version;
      && after.Some? && Parses(cfg, after.value) && VersionOf(cfg, after.value) == version
      && (before.None? ==> expected == 1 && version == 1)
      && (before.Some? ==> Parses(cfg, before.value) && VersionOf(cfg, before.value) == expected
                           && version == Increment(expected))
  {
    hide RepoStep, Refreshed, Step;
    var op, s := run.ops[i], run.states[i];
    SuccessWrites(cfg, s, op, run.states[i + 1], run.results[i]);
    AcknowledgedApply(cfg, run.states[i], op, run.states[i + 1], run.results[i]);
    var version := VersionFor(cfg, Seen(s.repo, p, op.faults.unreadable), expected).value;
    MarshalParse(cfg.codec, Stored(cfg, op.args, version, op.nonce));
  }

  // Of two successes with the same expected version, the first can only have created the file.
  lemma SecondSwapFollowsCreation(cfg: Config, run: Run, p: string, i: nat, j: nat, expected: int)
    requires SteadyRun(cfg, run, p) && i < j < |run.ops| && expected > 0
    requires Swaps(run, i, p, expected) && Swaps(run, j, p, expected)
    ensures expected == 1 && p !in run.states[i].repo.worktree && p in run.states[j].repo.worktree
  {
    hide RepoStep, Refreshed, Misreads;
    SwapStep(cfg, run, i, p, expected);
    SwapStep(cfg, run, j, p, expected);
    FileFollows(cfg, run, p, 0, i);
    FileFollows(cfg, run, p, i + 1, j);
  }

  // At most one conditional Apply with a given expected version above 1 succeeds, whatever
  // else fails in between.
  lemma AtMostOneSwap(cfg: Config, run: Run, p: string, i: nat, j: nat, expected: int)
    requires SteadyRun(cfg, run, p) && i < |run.ops| && j < |run.ops|
    requires expected > 1 && Swaps(run, i, p, expected) && Swaps(run, j, p, expected)
    ensures i == j
  {
    hide RepoStep, Refreshed, Steady;
    if i < j { SecondSwapFollowsCreation(cfg, run, p, i, j, expected); }
    if j < i { SecondSwapFollowsCreation(cfg, run, p, j, i, expected); }
  }

  // For expected version 1 there can be two: creating the file, then replacing version 1.
  lemma AtMostTwoSwapsOfOne(cfg: Config, run: Run, p: string, i: nat, j: nat, k: nat)
    requires SteadyRun(cfg, run, p) && i < j < |run.ops| && j <= k < |run.ops|
    requires Swaps(run, i, p, 1) && Swaps(run, j, p, 1) && Swaps(run, k, p, 1)
    ensures j == k
  {
    hide RepoStep, Refreshed, Steady;
    SecondSwapFollowsCreation(cfg, run, p, i, j, 1);
    if j < k { SecondSwapFollowsCreation(cfg, run, p, j, k, 1); }
  }

  // A conditional Apply replaces the very file a reader of that version saw.
  lemma SwapReplacesWhatWasRead(cfg: Config, run: Run, p: string, i: nat, j: nat, expected: int, seen: string)
    requires SteadyRun(cfg, run, p) && i <= j < |run.ops| && expected > 0
    requires At(run.states[i].repo.worktree, p) == Some(seen)
    requires Parses(cfg, seen) && VersionOf(cfg, seen) == expected
    requires Swaps(run, j, p, expected)
    ensures At(run.states[j].repo.worktree, p) == Some(seen)
    ensures run.results[j].value.Some? && run.results[j].value.value.metadata.version == expected + 1
  {
    hide RepoStep, Refreshed, Misreads;
    FileFollows(cfg, run, p, 0, j);
    FileFollows(cfg, run, p, i, j);
    SwapStep(cfg, run, j, p, expected);
  }

  // ---------- Versions along the branch ----------

  // From commit n on, each commit of the branch has p as before or in a later version, up to
  // the staging area and then the worktree.
  predicate InOrder(cfg: Config, r: Repo, p: string, n: nat) {
    && (forall a, b :: n <= a <= b < |r.local| ==> Follows(cfg, At(r.local[a].tree, p), At(r.local[b].tree, p)))
    && (forall a :: n <= a < |r.local| ==> Follows(cfg, At(r.local[a].tree, p), At(r.staged, p)))
    && (forall a :: n <= a < |r.local| ==> Follows(cfg, At(r.local[a].tree, p), At(r.worktree, p)))
    && Follows(cfg, At(r.staged, p), At(r.worktree, p))
  }

  lemma CommitInOrder(cfg: Config, r: Repo, stamp: nat, f: Fault, p: string, n: nat)
    requires InOrder(cfg, r, p, n)
    ensures InOrder(cfg, MakeCommit(r, stamp, f).repo, p, n)
  {
  }

  lemma WriteInOrder(cfg: Config, r: Repo, p: string, n: nat, worktree: Tree)
    requires InOrder(cfg, r, p, n)
    requires Follows(cfg, At(r.worktree, p), At(worktree, p))
    ensures InOrder(cfg, r.(worktree := worktree), p, n)
  {
  }

  lemma AddInOrder(cfg: Config, r: Repo, q: string, f: Fault, p: string, n: nat)
    requires InOrder(cfg, r, p, n) && q in r.worktree
    ensures InOrder(cfg, Add(r, q, f).repo, p, n)
  {
  }

  lemma ApplyInOrder(cfg: Config, r: Repo, args: ApplyArgs, nonce: Nonce, f: Faults, p: string, n: nat)
    requires Lawful(cfg) && InOrder(cfg, r, p, n) && !Misreads(r, ApplyOp(args, nonce, f), p)
    requires Ceiling(cfg, At(r.worktree, p)) < MAX_INT
    ensures InOrder(cfg, ApplyRepo(cfg, r, args, nonce, f).0, p, n)
  {
    hide ApplyRepo, InOrder, Follows;
    ApplyStops(cfg, r, args, nonce, f);
    var q := GitPath(args.path);
    var version := VersionFor(cfg, Seen(r, q, f.unreadable), args.expected);
    if version.Ok? && !f.prepare {
      if p == q { WriteFollows(cfg, At(r.worktree, q), args, version.value, nonce); }
      var r1 := Written(cfg, r, args, version.value, nonce);
      WriteInOrder(cfg, r, p, n, r1.worktree);
      AddInOrder(cfg, r1, q, f.stage, p, n);
      var r2 := Add(r1, q, f.stage).repo;
      CommitInOrder(cfg, r2, f.stamp, f.commit, p, n);
      PushInOrder(cfg, MakeCommit(r2, f.stamp, f.commit).repo, f.push, p, n);
    }
  }

  lemma RemoveInOrder(cfg: Config, r: Repo, q: string, f: Fault, p: string, n: nat)
    requires InOrder(cfg, r, p, n) && q != p
    ensures InOrder(cfg, Remove(r, q, f).repo, p, n)
  {
  }

  lemma PushInOrder(cfg: Config, r: Repo, f: Fault, p: string, n: nat)
    requires InOrder(cfg, r, p, n)
    ensures InOrder(cfg, Push(r, f).repo, p, n)
  {
  }

  lemma DeleteInOrder(cfg: Config, r: Repo, path: string, expected: int, f: Faults, p: string, n: nat)
    requires InOrder(cfg, r, p, n) && GitPath(path) != p
    ensures InOrder(cfg, DeleteRepo(cfg, r, path, expected, f).0, p, n)
  {
    hide DeleteRepo, InOrder;
    DeleteStops(cfg, r, path, expected, f);
    var r1 := Remove(r, GitPath(path), f.stage).repo;
    RemoveInOrder(cfg, r, GitPath(path), f.stage, p, n);
    CommitInOrder(cfg, r1, f.stamp, f.commit, p, n);
    PushInOrder(cfg, MakeCommit(r1, f.stamp, f.commit).repo, f.push, p, n);
  }

  lemma ExternalInOrder(cfg: Config, r: Repo, commits: seq<Commit>, p: string, n: nat)
    requires InOrder(cfg, r, p, n)
    ensures InOrder(cfg, r.(remote := r.remote + commits), p, n)
  {
  }

  lemma PollInOrder(cfg: Config, r: Repo, op: Op, p: string, n: nat)
    requires InOrder(cfg, r, p, n) && n < |r.local|
    requires op.PollOp? && Quiet(cfg, r, op, p)
    ensures InOrder(cfg, RepoStep(cfg, r, op).0, p, n)
  {
    var r' := RepoStep(cfg, r, op).0;
    HistoriesGrow(cfg, r, op);
    QuietMerge(cfg, r, op, p);
    forall a | n <= a < |r'.local|
      ensures At(r'.local[a].tree, p) == At(r.local[if a < |r.local| then a else |r.local| - 1].tree, p)
    {
    }
  }

  // Successive commits of the branch that change p carry strictly increasing versions of it,
  // if that was so when the run began (in particular if p was clean).
  lemma {:induction false} BranchVersionsIncrease(cfg: Config, run: Run, p: string, j: nat, n: nat)
    requires QuietRun(cfg, run, p) && j < |run.states|
    requires n < |run.states[0].repo.local| && InOrder(cfg, run.states[0].repo, p, n)
    ensures InOrder(cfg, run.states[j].repo, p, n)
  {
    hide ApplyRepo, DeleteRepo, PollRepo, Refreshed, InOrder;
    QuietRunIsSteady(cfg, run, p);
    if j > 0 {
      var s, op := run.states[j - 1], run.ops[j - 1];
      BranchVersionsIncrease(cfg, run, p, j - 1, n);
      BranchesOnlyGrow(cfg, run, 0, j - 1);
      FileFollows(cfg, run, p, 0, j - 1);
      StepRepo(cfg, s, op, run.states[j], run.results[j - 1]);
      match op
      case ApplyOp(args, nonce, f) => ApplyInOrder(cfg, s.repo, args, nonce, f, p, n);
      case DeleteOp(path, expected, f) =>
        if GitPath(path) != p { DeleteInOrder(cfg, s.repo, path, expected, f, p, n); }
      case PollOp(_, _, _, _) => PollInOrder(cfg, s.repo, op, p, n);
      case ExternalOp(commits) => ExternalInOrder(cfg, s.repo, commits, p, n);
    }
  }

  lemma CleanStartsInOrder(cfg: Config, r: Repo, p: string)
    requires r.local != [] && CleanAt(r, p)
    ensures InOrder(cfg, r, p, |r.local| - 1)
  {
  }

  // Deleting restarts the numbering: the next Apply makes version 1, so an expected version
  // from before a Delete says nothing after it.
  lemma DeleteRestartsVersions(cfg: Config, run: Run, i: nat, j: nat)
    requires IsRun(cfg, run) && i < j < |run.ops|
    requires run.ops[i].DeleteOp? && run.results[i].Ok?
    requires run.ops[j].ApplyOp? && GitPath(run.ops[j].args.path) == GitPath(run.ops[i].path) && run.results[j].Ok?
    requires forall k :: i < k < j ==> LeavesAlone(cfg, run.states[k].repo, run.ops[k], GitPath(run.ops[i].path))
    ensures run.results[j].value.Some? && run.results[j].value.value.metadata.version == 1
    ensures run.ops[j].args.expected <= 1
  {
    hide RepoStep, Refreshed;
    AcknowledgedDelete(cfg, run.states[i], run.ops[i], run.states[i + 1], run.results[i]);
    FileStays(cfg, run, i + 1, j, GitPath(run.ops[i].path));
    AcknowledgedApply(cfg, run.states[j], run.ops[j], run.states[j + 1], run.results[j]);
  }

  // A misread overwrites the file with version 1, whatever version it had; when nothing else
  // breaks in a clean store, Apply even returns nil and publishes it.
  lemma MisreadRestartsVersions(cfg: Config, r: Repo, args: ApplyArgs, nonce: Nonce, f: Faults)
    requires Lawful(cfg) && Misreads(r, ApplyOp(args, nonce, f), GitPath(args.path))
    ensures
      var (r', res) := ApplyRepo(cfg, r, args, nonce, f);
      var after := At(r'.worktree, GitPath(args.path));
      && after.Some? && Parses(cfg, after.value) && VersionOf(cfg, after.value) == 1
      && (Clean(r) && r.remote <= r.local && NoFault(ApplyOp(args, nonce, f.(unreadable := false))) ==>
            res == Ok(Returned(args, 1)) && r'.remote == r'.local && At(Head(r'), GitPath(args.path)) == after)
  {
    hide Stored, Clean, Parses, VersionOf;
    var p := GitPath(args.path);
    ApplyStops(cfg, r, args, nonce, f);
    var r1 := Written(cfg, r, args, 1, nonce);
    CommitAndPushLeaveFiles(Add(r1, p, f.stage).repo, f.stamp, f.commit, f.push);
    MisreadParses(cfg, args, nonce);
    if Clean(r) && r.remote <= r.local && NoFault(ApplyOp(args, nonce, f.(unreadable := false))) {
      MisreadPublishes(cfg, r, args, nonce, f);
    }
  }

  lemma MisreadParses(cfg: Config, args: ApplyArgs, nonce: Nonce)
    requires Lawful(cfg)
    ensures
      var raw := Marshal(cfg.codec, Stored(cfg, args, 1, nonce));
      Parses(cfg, raw) && VersionOf(cfg, raw) == 1
  {
    MarshalParse(cfg.codec, Stored(cfg, args, 1, nonce));
  }

  lemma MisreadPublishes(cfg: Config, r: Repo, args: ApplyArgs, nonce: Nonce, f: Faults)
    requires Misreads(r, ApplyOp(args, nonce, f), GitPath(args.path))
    requires Clean(r) && r.remote <= r.local && NoFault(ApplyOp(args, nonce, f.(unreadable := false)))
    ensures
      var (r', res) := ApplyRepo(cfg, r, args, nonce, f);
      && res == Ok(Returned(args, 1)) && r'.remote == r'.local
      && At(Head(r'), GitPath(args.path)) == At(r'.worktree, GitPath(args.path))
  {
    hide Stored, Returned;
    var r2 := Add(Written(cfg, r, args, 1, nonce), GitPath(args.path), f.stage).repo;
    assert r2.worktree == r2.staged;
  }
}
