// What every run of the store keeps, whatever fails: growth of the branches, durability of
// acknowledged writes, absorption of divergence, where dirty files and bodies come from.
module StoreSafety {
  import opened Wrappers
  import opened Documents
  import opened Keyrings
  import opened Git
  import opened Store

  // ---------- Branches only grow ----------

  predicate Grows(r: Repo, r': Repo) {
    r.local <= r'.local && r.remote <= r'.remote
  }

  lemma CommitGrows(r: Repo, stamp: nat, f: Fault)
    ensures Grows(r, MakeCommit(r, stamp, f).repo)
  {
  }

  lemma PushGrows(r: Repo, f: Fault)
    ensures Grows(r, Push(r, f).repo)
  {
  }

  lemma MergeGrows(r: Repo, theirs: History, f: Fault)
    ensures Grows(r, Merge(r, theirs, f).repo)
  {
    hide Mergeable, Changed, Overlay;
  }

  lemma ApplyGrows(cfg: Config, r: Repo, args: ApplyArgs, nonce: Nonce, f: Faults)
    ensures Grows(r, ApplyRepo(cfg, r, args, nonce, f).0)
  {
    hide ApplyRepo, VersionFor, Stored, MakeCommit, Push;
    ApplyStops(cfg, r, args, nonce, f);
    var version := VersionFor(cfg, Seen(r, GitPath(args.path), f.unreadable), args.expected);
    if version.Ok? {
      var r2 := Add(Written(cfg, r, args, version.value, nonce), GitPath(args.path), f.stage).repo;
      CommitGrows(r2, f.stamp, f.commit);
      PushGrows(MakeCommit(r2, f.stamp, f.commit).repo, f.push);
    }
  }

  lemma DeleteGrows(cfg: Config, r: Repo, path: string, expected: int, f: Faults)
    ensures Grows(r, DeleteRepo(cfg, r, path, expected, f).0)
  {
    hide DeleteRepo, Removable, MakeCommit, Push;
    DeleteStops(cfg, r, path, expected, f);
    var r1 := Remove(r, GitPath(path), f.stage).repo;
    CommitGrows(r1, f.stamp, f.commit);
    PushGrows(MakeCommit(r1, f.stamp, f.commit).repo, f.push);
  }

  lemma HistoriesGrow(cfg: Config, r: Repo, op: Op)
    ensures Grows(r, RepoStep(cfg, r, op).0)
  {
    hide ApplyRepo, DeleteRepo, Merge;
    match op
    case ApplyOp(args, nonce, f) => ApplyGrows(cfg, r, args, nonce, f);
    case DeleteOp(path, expected, f) => DeleteGrows(cfg, r, path, expected, f);
    case PollOp(_, _, merge, _) => MergeGrows(r, r.remote, merge);
    case ExternalOp(_) =>
  }

  lemma {:induction false} BranchesOnlyGrow(cfg: Config, run: Run, i: nat, j: nat)
    requires IsRun(cfg, run) && i <= j < |run.states|
    ensures run.states[i].repo.local <= run.states[j].repo.local
    ensures run.states[i].repo.remote <= run.states[j].repo.remote
    decreases j
  {
    hide RepoStep, Refreshed;
    if i < j {
      BranchesOnlyGrow(cfg, run, i, j - 1);
      StepRepo(cfg, run.states[j - 1], run.ops[j - 1], run.states[j], run.results[j - 1]);
      HistoriesGrow(cfg, run.states[j - 1].repo, run.ops[j - 1]);
    }
  }

  // ---------- Acknowledged writes ----------

  // A nil Apply: local tip, remote tip and served commit agree, and hold the new envelope;
  // this covers the commit that had nothing to commit.
  lemma AcknowledgedApply(cfg: Config, s: State, op: Op, s': State, res: Result<Option<Envelope>>)
    requires Step(cfg, s, op, s', res) && op.ApplyOp? && res.Ok?
    ensures s'.repo.local == s'.repo.remote == s'.served
    ensures
      var p := GitPath(op.args.path);
      var version := VersionFor(cfg, Seen(s.repo, p, op.faults.unreadable), op.args.expected);
      && version.Ok?
      && res.value == Some(Returned(op.args, version.value))
      && At(Tip(s'.served), p) == Some(Marshal(cfg.codec, Stored(cfg, op.args, version.value, op.nonce)))
      && At(s'.repo.worktree, p) == At(Tip(s'.served), p)
  {
    hide ApplyRepo, VersionFor, Stored, Returned;
    ApplySucceeds(cfg, s.repo, op.args, op.nonce, op.faults);
    StepRepo(cfg, s, op, s', res);
  }

  lemma AcknowledgedDelete(cfg: Config, s: State, op: Op, s': State, res: Result<Option<Envelope>>)
    requires Step(cfg, s, op, s', res) && op.DeleteOp? && res.Ok?
    ensures s'.repo.local == s'.repo.remote == s'.served
    ensures GitPath(op.path) !in Tip(s'.served) && GitPath(op.path) !in s'.repo.worktree
    ensures GitPath(op.path) in Head(s.repo)
  {
    hide DeleteRepo;
    DeleteSucceeds(cfg, s.repo, op.path, op.expected, op.faults);
    StepRepo(cfg, s, op, s', res);
  }

  lemma AcknowledgedStays(cfg: Config, run: Run, i: nat, j: nat)
    requires IsRun(cfg, run) && i < j < |run.states|
    requires run.results[i].Ok? && (run.ops[i].ApplyOp? || run.ops[i].DeleteOp?)
    ensures run.states[i + 1].served <= run.states[j].repo.remote
    ensures run.states[i + 1].served <= run.states[j].repo.local
  {
    hide RepoStep, Refreshed;
    var s, op, s', res := run.states[i], run.ops[i], run.states[i + 1], run.results[i];
    if op.ApplyOp? { AcknowledgedApply(cfg, s, op, s', res); } else { AcknowledgedDelete(cfg, s, op, s', res); }
    BranchesOnlyGrow(cfg, run, i + 1, j);
  }

  lemma CommitPublishesStaged(r: Repo, stamp: nat, f: Fault)
    requires MakeCommit(r, stamp, f).ok || MakeCommit(r, stamp, f).said
    ensures Head(MakeCommit(r, stamp, f).repo) == r.staged
    ensures MakeCommit(r, stamp, f).repo.worktree == r.worktree
  {
  }

  // The published tree is the staging area with this one path set or removed: a body staged
  // by an earlier failed Apply to another path goes out with it.
  lemma SuccessPublishesTheStagingArea(cfg: Config, r: Repo, op: Op)
    requires RepoStep(cfg, r, op).1.Ok?
    ensures op.ApplyOp? ==>
      var r', p := RepoStep(cfg, r, op).0, GitPath(op.args.path);
      p in r'.worktree && Tip(r'.remote) == r.staged[p := r'.worktree[p]]
    ensures op.DeleteOp? ==>
      Tip(RepoStep(cfg, r, op).0.remote) == r.staged - {GitPath(op.path)}
  {
    hide ApplyRepo, DeleteRepo, PollRepo, VersionFor, Stored, MakeCommit;
    match op
    case ApplyOp(args, nonce, f) =>
      ApplySucceeds(cfg, r, args, nonce, f);
      var version := VersionFor(cfg, Seen(r, GitPath(args.path), f.unreadable), args.expected).value;
      var r2 := Add(Written(cfg, r, args, version, nonce), GitPath(args.path), f.stage).repo;
      CommitPublishesStaged(r2, f.stamp, f.commit);
    case DeleteOp(path, expected, f) =>
      DeleteSucceeds(cfg, r, path, expected, f);
      CommitPublishesStaged(Remove(r, GitPath(path), f.stage).repo, f.stamp, f.commit);
    case PollOp(_, _, _, _) =>
    case ExternalOp(_) =>
  }

  // ---------- Divergence ----------

  predicate Comparable(a: History, b: History) {
    a <= b || b <= a
  }

  lemma DivergedGrowth(a: History, b: History, a': History, b': History)
    requires !Comparable(a, b) && a <= a' && b <= b'
    ensures !Comparable(a', b')
  {
    var n := if |a| <= |b| then |a| else |b|;
    assert a[..n] != b[..n] by {
      assert a == a[..|a|] && b == b[..|b|];
    }
    var k :| 0 <= k < n && a[k] != b[k];
    assert a'[k] == a[k] && b'[k] == b[k];
  }

  // An Apply or Delete that succeeds finds the remote behind what it commits, so comparable.
  lemma DivergedStepFails(cfg: Config, r: Repo, op: Op)
    requires !Comparable(r.local, r.remote) && !op.ExternalOp?
    ensures RepoStep(cfg, r, op).1.Err?
  {
    hide ApplyRepo, DeleteRepo, Mergeable, FastForward;
    var r' := RepoStep(cfg, r, op).0;
    HistoriesGrow(cfg, r, op);
    DivergedGrowth(r.local, r.remote, r'.local, r'.remote);
    match op
    case ApplyOp(args, nonce, f) =>
      if ApplyRepo(cfg, r, args, nonce, f).1.Ok? { ApplySucceeds(cfg, r, args, nonce, f); }
    case DeleteOp(path, expected, f) =>
      if DeleteRepo(cfg, r, path, expected, f).1.Ok? { DeleteSucceeds(cfg, r, path, expected, f); }
    case PollOp(_, _, _, _) =>
  }

  // Once neither branch extends the other, no operation of the store succeeds any more.
  lemma {:induction false} DivergenceIsAbsorbing(cfg: Config, run: Run, i: nat)
    requires IsRun(cfg, run) && i < |run.ops|
    requires !Comparable(run.states[0].repo.local, run.states[0].repo.remote)
    ensures !run.ops[i].ExternalOp? ==> run.results[i].Err?
    ensures !Comparable(run.states[i + 1].repo.local, run.states[i + 1].repo.remote)
  {
    hide RepoStep, Refreshed;
    BranchesOnlyGrow(cfg, run, 0, i);
    BranchesOnlyGrow(cfg, run, 0, i + 1);
    var first, now, next := run.states[0].repo, run.states[i].repo, run.states[i + 1].repo;
    DivergedGrowth(first.local, first.remote, now.local, now.remote);
    DivergedGrowth(first.local, first.remote, next.local, next.remote);
    if !run.ops[i].ExternalOp? { DivergedStepFails(cfg, now, run.ops[i]); }
  }

  // The commit an operation of the store will make, if it gets that far.
  function NewCommit(cfg: Config, r: Repo, op: Op): Option<Commit> {
    match op
    case ApplyOp(args, nonce, f) =>
      var p := GitPath(args.path);
      var version := VersionFor(cfg, Seen(r, p, f.unreadable), args.expected);
      if version.Err? || f.prepare || (!cfg.useSSH && f.pat) || !f.stage.Works? || f.commit.FailsBefore? then None
      else
        var staged := r.staged[p := Marshal(cfg.codec, Stored(cfg, args, version.value, nonce))];
        if staged == Head(r) then None else Some(Commit(f.stamp, staged))
    case DeleteOp(path, expected, f) =>
      var p := GitPath(path);
      if Seen(r, p, f.unreadable).None? || VersionFor(cfg, At(r.worktree, p), expected).Err? then None
      else if (!cfg.useSSH && f.pat) || !Removable(r, p) || !f.stage.Works? || f.commit.FailsBefore? then None
      else Some(Commit(f.stamp, r.staged - {p}))
    case _ => None
  }

  lemma CommitAndPush(r: Repo, stamp: nat, f: Fault, g: Fault)
    ensures
      var committed := MakeCommit(r, stamp, f);
      var pushed := Push(committed.repo, g).repo;
      && committed.repo.local ==
           (if r.staged == Head(r) || f.FailsBefore? then r.local else r.local + [Commit(stamp, r.staged)])
      && committed.repo.remote == r.remote
      && pushed.local == committed.repo.local && (pushed.remote == r.remote || pushed.remote == pushed.local)
  {
  }

  lemma ApplyCommits(cfg: Config, r: Repo, args: ApplyArgs, nonce: Nonce, f: Faults)
    ensures
      var r', c := ApplyRepo(cfg, r, args, nonce, f).0, NewCommit(cfg, r, ApplyOp(args, nonce, f));
      && r'.local == (if c.Some? then r.local + [c.value] else r.local)
      && (r'.remote == r.remote || r'.remote == r'.local)
  {
    hide VersionFor, Stored, MakeCommit, Push;
    var version := VersionFor(cfg, Seen(r, GitPath(args.path), f.unreadable), args.expected);
    if version.Ok? {
      CommitAndPush(Add(Written(cfg, r, args, version.value, nonce), GitPath(args.path), f.stage).repo,
                    f.stamp, f.commit, f.push);
    }
  }

  lemma DeleteCommits(cfg: Config, r: Repo, path: string, expected: int, f: Faults)
    ensures
      var r', c := DeleteRepo(cfg, r, path, expected, f).0, NewCommit(cfg, r, DeleteOp(path, expected, f));
      && r'.local == (if c.Some? then r.local + [c.value] else r.local)
      && (r'.remote == r.remote || r'.remote == r'.local)
  {
    hide VersionFor, ParseEnvelope, MakeCommit, Push;
    var p := GitPath(path);
    DeleteChecksVersion(cfg, r, path, expected, f);
    if Removable(r, p) { assert p in Head(r) && p !in r.staged - {p}; }
    CommitAndPush(Remove(r, p, f.stage).repo, f.stamp, f.commit, f.push);
  }

  lemma PollCommitsNothing(cfg: Config, r: Repo, op: Op)
    requires op.PollOp?
    ensures NewCommit(cfg, r, op) == None
  {
  }

  // Delete makes the same check of the version as Apply, once the file is there.
  lemma DeleteChecksVersion(cfg: Config, r: Repo, path: string, expected: int, f: Faults)
    ensures
      var raw := Seen(r, GitPath(path), f.unreadable);
      var existing := if raw.Some? then ParseEnvelope(cfg.codec, raw.value) else Err(NotFound);
      raw.Some? ==>
        raw == At(r.worktree, GitPath(path)) &&
        (VersionFor(cfg, raw, expected).Err? <==>
           existing.Err? || (expected > 0 && existing.value.metadata.version != expected))
  {
  }

  // The step drives comparable branches apart: the store commits while it is behind the
  // remote, or another writer while the store has commits to push, and not the same.
  predicate Diverges(cfg: Config, r: Repo, op: Op) {
    if op.ExternalOp? then r.remote < r.local && !Comparable(r.local[|r.remote|..], op.commits)
    else
      var c := NewCommit(cfg, r, op);
      r.local < r.remote && c.Some? && c.value != r.remote[|r.local|]
  }

  lemma SamePrefix(a: History, b: History, c: History)
    ensures a + b <= a + c <==> b <= c
  {
    assert (a + b)[|a|..] == b && (a + c)[|a|..] == c;
    if b <= c { assert a + c == a + b + c[|b|..]; }
    if a + b <= a + c {
      forall i | 0 <= i < |b| ensures b[i] == c[i] {
        assert (a + b)[|a| + i] == (a + c)[|a| + i];
      }
    }
  }

  lemma CommitBehind(local: History, remote: History, c: Commit)
    requires Comparable(local, remote)
    ensures Comparable(local + [c], remote) <==> !(local < remote && c != remote[|local|])
  {
    if local < remote {
      assert (local + [c])[|local|] == c;
      if c == remote[|local|] { assert local + [c] == remote[..|local| + 1]; }
    } else {
      assert remote <= local <= local + [c];
    }
  }

  // Exactly when comparable branches diverge.
  lemma DivergingStep(cfg: Config, r: Repo, op: Op)
    requires Comparable(r.local, r.remote)
    ensures var r' := RepoStep(cfg, r, op).0; !Comparable(r'.local, r'.remote) <==> Diverges(cfg, r, op)
  {
    hide ApplyRepo, DeleteRepo, NewCommit, Mergeable, FastForward;
    match op
    case ApplyOp(_, _, _) => WritingDiverges(cfg, r, op);
    case DeleteOp(_, _, _) => WritingDiverges(cfg, r, op);
    case PollOp(_, _, merge, _) =>
      PollCommitsNothing(cfg, r, op);
      MergeComparable(r, merge);
    case ExternalOp(commits) =>
      if r.remote < r.local {
        var ahead := r.local[|r.remote|..];
        assert r.local == r.remote + ahead;
        SamePrefix(r.remote, ahead, commits);
        SamePrefix(r.remote, commits, ahead);
      } else {
        assert r.local <= r.remote <= r.remote + commits;
      }
  }

  lemma MergeComparable(r: Repo, f: Fault)
    requires Comparable(r.local, r.remote)
    ensures
      var r' := Merge(r, r.remote, f).repo;
      Comparable(r'.local, r'.remote)
  {
    hide Mergeable, Changed, Overlay;
  }

  lemma WritingDiverges(cfg: Config, r: Repo, op: Op)
    requires Comparable(r.local, r.remote) && (op.ApplyOp? || op.DeleteOp?)
    ensures var r' := RepoStep(cfg, r, op).0; !Comparable(r'.local, r'.remote) <==> Diverges(cfg, r, op)
  {
    hide ApplyRepo, DeleteRepo, NewCommit;
    if op.ApplyOp? { ApplyCommits(cfg, r, op.args, op.nonce, op.faults); }
    if op.DeleteOp? { DeleteCommits(cfg, r, op.path, op.expected, op.faults); }
    HistoriesGrow(cfg, r, op);
    var r', c := RepoStep(cfg, r, op).0, NewCommit(cfg, r, op);
    if c.Some? {
      CommitBehind(r.local, r.remote, c.value);
      if r'.remote == r'.local && r.local < r.remote {
        assert r.remote <= r.local + [c.value];
        assert (r.local + [c.value])[|r.local|] == r.remote[|r.local|];
      }
    }
  }

  // The branches of a run have diverged exactly when a step drove them apart.
  lemma {:induction false} DivergenceStarts(cfg: Config, run: Run, n: nat)
    requires IsRun(cfg, run) && n < |run.states|
    requires Comparable(run.states[0].repo.local, run.states[0].repo.remote)
    ensures !Comparable(run.states[n].repo.local, run.states[n].repo.remote) <==>
            exists i :: 0 <= i < n && Diverges(cfg, run.states[i].repo, run.ops[i])
  {
    hide RepoStep, Refreshed, NewCommit;
    if n > 0 {
      var before, after := run.states[n - 1].repo, run.states[n].repo;
      DivergenceStarts(cfg, run, n - 1);
      StepRepo(cfg, run.states[n - 1], run.ops[n - 1], run.states[n], run.results[n - 1]);
      if Comparable(before.local, before.remote) {
        DivergingStep(cfg, before, run.ops[n - 1]);
      } else {
        BranchesOnlyGrow(cfg, run, n - 1, n);
        DivergedGrowth(before.local, before.remote, after.local, after.remote);
      }
    }
  }

  // A nil Poll: the fetched tip is HEAD or an ancestor of it, and HEAD is served.
  lemma NilPollIsCaughtUp(cfg: Config, s: State, op: Op, s': State, res: Result<Option<Envelope>>)
    requires Step(cfg, s, op, s', res) && op.PollOp? && res.Ok?
    ensures s.repo.remote <= s'.repo.local == s'.served
    ensures s'.repo.local == s.repo.local || s'.repo.local == s.repo.remote
    ensures s'.repo.remote == s.repo.remote
  {
    hide Announces, Mergeable, Changed, Overlay;
  }

  // A nil Apply is served and reads back at once.
  lemma AppliedIsServed(cfg: Config, s: State, op: Op, s': State, res: Result<Option<Envelope>>)
    requires Lawful(cfg) && Step(cfg, s, op, s', res) && op.ApplyOp? && res.Ok?
    ensures res.value.Some? && GetDocument(cfg, s'.repo, op.args.path) == Ok(res.value.value)
  {
    hide Step, GetDocument, VersionFor, Stored, Returned;
    AcknowledgedApply(cfg, s, op, s', res);
    var version := VersionFor(cfg, Seen(s.repo, GitPath(op.args.path), op.faults.unreadable), op.args.expected).value;
    StoredReadsBack(cfg, cfg.keys, op.args, version, op.nonce, s'.repo);
    assert cfg.(keys := cfg.keys) == cfg;
  }

  // ---------- Dirty files ----------

  predicate CleanAt(r: Repo, p: string) {
    At(r.worktree, p) == At(r.staged, p) == At(Head(r), p)
  }

  predicate Targets(op: Op, p: string) {
    || (op.ApplyOp? && GitPath(op.args.path) == p)
    || (op.DeleteOp? && GitPath(op.path) == p)
  }

  lemma CommitKeepsClean(r: Repo, stamp: nat, f: Fault, p: string)
    requires At(r.worktree, p) == At(r.staged, p)
    ensures
      var c := MakeCommit(r, stamp, f);
      CleanAt(r, p) || c.ok || c.said ==> CleanAt(c.repo, p)
  {
  }

  lemma MergeKeepsClean(r: Repo, theirs: History, f: Fault, p: string)
    requires CleanAt(r, p)
    ensures CleanAt(Merge(r, theirs, f).repo, p)
  {
  }

  lemma ApplyCleans(cfg: Config, r: Repo, args: ApplyArgs, nonce: Nonce, f: Faults, p: string)
    requires CleanAt(r, p) || GitPath(args.path) == p
    requires GitPath(args.path) == p ==> ApplyRepo(cfg, r, args, nonce, f).1.Ok?
    ensures CleanAt(ApplyRepo(cfg, r, args, nonce, f).0, p)
  {
    hide ApplyRepo, VersionFor, Stored, MakeCommit;
    var q := GitPath(args.path);
    var version := VersionFor(cfg, Seen(r, q, f.unreadable), args.expected);
    if q == p {
      ApplySucceeds(cfg, r, args, nonce, f);
    } else {
      ApplyStops(cfg, r, args, nonce, f);
    }
    if version.Ok? {
      CommitKeepsClean(Add(Written(cfg, r, args, version.value, nonce), q, f.stage).repo, f.stamp, f.commit, p);
    }
  }

  lemma DeleteCleans(cfg: Config, r: Repo, path: string, expected: int, f: Faults, p: string)
    requires CleanAt(r, p) || GitPath(path) == p
    requires GitPath(path) == p ==> DeleteRepo(cfg, r, path, expected, f).1.Ok?
    ensures CleanAt(DeleteRepo(cfg, r, path, expected, f).0, p)
  {
    hide DeleteRepo, MakeCommit;
    if GitPath(path) == p {
      DeleteSucceeds(cfg, r, path, expected, f);
    } else {
      DeleteStops(cfg, r, path, expected, f);
    }
    var r1 := Remove(r, GitPath(path), f.stage).repo;
    CommitKeepsClean(r1, f.stamp, f.commit, p);
  }

  lemma CleanStep(cfg: Config, r: Repo, op: Op, p: string)
    requires CleanAt(r, p) || Targets(op, p)
    requires Targets(op, p) ==> RepoStep(cfg, r, op).1.Ok?
    ensures CleanAt(RepoStep(cfg, r, op).0, p)
  {
    hide ApplyRepo, DeleteRepo, Merge;
    match op
    case ApplyOp(args, nonce, f) => ApplyCleans(cfg, r, args, nonce, f, p);
    case DeleteOp(path, expected, f) => DeleteCleans(cfg, r, path, expected, f, p);
    case PollOp(_, _, merge, _) => MergeKeepsClean(r, r.remote, merge, p);
    case ExternalOp(_) =>
  }

  // The last of the first n operations that Apply or Delete p.
  function LastOn(ops: seq<Op>, n: nat, p: string): (k: int)
    requires n <= |ops|
    ensures -1 <= k < n
    ensures k >= 0 ==> Targets(ops[k], p)
    ensures forall i :: k < i < n ==> !Targets(ops[i], p)
  {
    if n == 0 then -1 else if Targets(ops[n - 1], p) then n - 1 else LastOn(ops, n - 1, p)
  }

  // A file differs from HEAD, in the worktree or the staging area, only if the last Apply or
  // Delete of it returned an error or, without any, if it did when the run began. Fast-forward
  // merges and commits made for other paths never dirty it.
  lemma {:induction false} DirtyOnlyAfterAnError(cfg: Config, run: Run, n: nat, p: string)
    requires IsRun(cfg, run) && n < |run.states|
    requires !CleanAt(run.states[n].repo, p)
    ensures
      var k := LastOn(run.ops, n, p);
      if k >= 0 then run.results[k].Err? else !CleanAt(run.states[0].repo, p)
  {
    hide RepoStep, Refreshed;
    if n > 0 {
      var s, op := run.states[n - 1], run.ops[n - 1];
      StepRepo(cfg, s, op, run.states[n], run.results[n - 1]);
      if Targets(op, p) {
        if run.results[n - 1].Ok? { CleanStep(cfg, s.repo, op, p); }
      } else {
        if CleanAt(s.repo, p) { CleanStep(cfg, s.repo, op, p); }
        DirtyOnlyAfterAnError(cfg, run, n - 1, p);
      }
    }
  }

  // ---------- Progress ----------

  predicate Clean(r: Repo) {
    r.worktree == r.staged == Head(r)
  }

  predicate NoFault(op: Op) {
    match op
    case ApplyOp(_, _, f) =>
      !f.unreadable && !f.prepare && !f.pat && f.stage.Works? && f.commit.Works? && f.push.Works?
    case DeleteOp(_, _, f) => !f.unreadable && !f.pat && f.stage.Works? && f.commit.Works? && f.push.Works?
    case PollOp(pat, fetch, merge, _) => !pat && !fetch && merge.Works?
    case ExternalOp(_) => true
  }

  // In a clean store whose branches have not diverged, and when nothing breaks, an Apply
  // succeeds when the version check does and the remote is not ahead. If it is, then the Apply
  // that passes the check drives the branches apart (DivergenceIsAbsorbing tells the rest).
  lemma CleanStoreApplies(cfg: Config, r: Repo, args: ApplyArgs, nonce: Nonce, f: Faults)
    requires Clean(r) && Comparable(r.local, r.remote) && NoFault(ApplyOp(args, nonce, f))
    requires r.local < r.remote ==> Lawful(cfg) && f.stamp != r.remote[|r.local|].stamp
    ensures
      var (r', res) := ApplyRepo(cfg, r, args, nonce, f);
      var passes := VersionFor(cfg, At(r.worktree, GitPath(args.path)), args.expected).Ok?;
      && (res.Ok? <==> passes && r.remote <= r.local)
      && (!Comparable(r'.local, r'.remote) <==> passes && r.local < r.remote)
      && Clean(r')
  {
    hide VersionFor, Stored, MakeCommit, Push;
    var version := VersionFor(cfg, Seen(r, GitPath(args.path), f.unreadable), args.expected);
    if version.Ok? {
      var r2 := Add(Written(cfg, r, args, version.value, nonce), GitPath(args.path), f.stage).repo;
      assert r2.worktree == r2.staged;
      CommitCleanly(r2, f.stamp, f.commit);
      PushAfterCommit(MakeCommit(r2, f.stamp, f.commit).repo, f.push);
      if r.local < r.remote {
        ApplyChangesFile(cfg, r, args, version.value, nonce);
        CommitBehind(r.local, r.remote, Commit(f.stamp, r2.staged));
      }
    }
  }

  lemma CommitCleanly(r: Repo, stamp: nat, f: Fault)
    requires r.worktree == r.staged && f.Works?
    ensures
      var c := MakeCommit(r, stamp, f);
      && (c.ok <==> r.staged != Head(r)) && (c.ok || c.said) && Clean(c.repo) && c.repo.remote == r.remote
      && c.repo.local == if r.staged == Head(r) then r.local else r.local + [Commit(stamp, r.staged)]
  {
  }

  lemma PushAfterCommit(r: Repo, f: Fault)
    requires f.Works?
    ensures
      var pushed := Push(r, f);
      && (pushed.ok <==> r.remote <= r.local) && pushed.repo.local == r.local
      && pushed.repo.remote == (if r.remote <= r.local then r.local else r.remote)
      && (Clean(r) ==> Clean(pushed.repo))
  {
  }

  // The version goes up, so the written file is never the one that was there.
  lemma ApplyChangesFile(cfg: Config, r: Repo, args: ApplyArgs, version: int, nonce: Nonce)
    requires Lawful(cfg) && VersionFor(cfg, At(r.worktree, GitPath(args.path)), args.expected) == Ok(version)
    ensures At(r.worktree, GitPath(args.path)) != Some(Marshal(cfg.codec, Stored(cfg, args, version, nonce)))
  {
    MarshalParse(cfg.codec, Stored(cfg, args, version, nonce));
  }

  lemma CleanStoreDeletes(cfg: Config, r: Repo, path: string, expected: int, f: Faults)
    requires Clean(r) && Comparable(r.local, r.remote) && NoFault(DeleteOp(path, expected, f))
    requires r.local < r.remote ==> f.stamp != r.remote[|r.local|].stamp
    ensures
      var (r', res) := DeleteRepo(cfg, r, path, expected, f);
      var passes := GitPath(path) in r.worktree && VersionFor(cfg, At(r.worktree, GitPath(path)), expected).Ok?;
      && (res.Ok? <==> passes && r.remote <= r.local)
      && (!Comparable(r'.local, r'.remote) <==> passes && r.local < r.remote)
      && Clean(r')
  {
    hide VersionFor, MakeCommit, Push;
    var p := GitPath(path);
    DeleteChecksVersion(cfg, r, path, expected, f);
    if p in r.worktree && VersionFor(cfg, At(r.worktree, p), expected).Ok? {
      var r1 := Remove(r, p, f.stage).repo;
      assert Removable(r, p);
      assert r1 == r.(worktree := r.worktree - {p}, staged := r.staged - {p});
      assert r1.worktree == r1.staged && p in Head(r1) && p !in r1.staged;
      CommitCleanly(r1, f.stamp, f.commit);
      PushAfterCommit(MakeCommit(r1, f.stamp, f.commit).repo, f.push);
      if r.local < r.remote { CommitBehind(r.local, r.remote, Commit(f.stamp, r1.staged)); }
    }
  }

  // One faultless write to a clean store that is behind is the last thing it does: that write
  // and every later operation of the store return an error.
  lemma WritingBehindIsFatal(cfg: Config, run: Run, i: nat)
    requires Lawful(cfg) && IsRun(cfg, run) && i < |run.ops| && !run.ops[i].ExternalOp?
    requires var r := run.states[0].repo; Clean(r) && r.local < r.remote
    requires run.ops[0].ApplyOp? && NoFault(run.ops[0])
    requires run.ops[0].faults.stamp != run.states[0].repo.remote[|run.states[0].repo.local|].stamp
    requires
      var args := run.ops[0].args;
      VersionFor(cfg, At(run.states[0].repo.worktree, GitPath(args.path)), args.expected).Ok?
    ensures run.results[i].Err?
  {
    hide ApplyRepo, VersionFor, Refreshed;
    var s, op := run.states[0], run.ops[0];
    CleanStoreApplies(cfg, s.repo, op.args, op.nonce, op.faults);
    StepRepo(cfg, s, op, run.states[1], run.results[0]);
    assert Step(cfg, s, op, run.states[1], run.results[0]);
    if i > 0 {
      var now, later := run.states[1].repo, run.states[i].repo;
      BranchesOnlyGrow(cfg, run, 1, i);
      DivergedGrowth(now.local, now.remote, later.local, later.remote);
      DivergedStepFails(cfg, later, run.ops[i]);
      assert Step(cfg, run.states[i], run.ops[i], run.states[i + 1], run.results[i]);
    }
  }

  // Without faults a clean store catches up with the remote exactly when the branches have
  // not diverged, and is left clean.
  lemma CleanStorePolls(cfg: Config, r: Repo, merge: Fault)
    requires Clean(r) && merge.Works?
    ensures
      var (r', res) := PollRepo(cfg, r, false, false, merge);
      && (res.Ok? <==> Comparable(r.local, r.remote))
      && (res.Ok? ==> r'.local == if r.remote <= r.local then r.local else r.remote)
      && Clean(r')
  {
    var r' := PollRepo(cfg, r, false, false, merge).0;
    forall p ensures At(r'.worktree, p) == At(r'.staged, p) == At(Head(r'), p) {
      assert CleanAt(r, p);
      MergeKeepsClean(r, r.remote, merge, p);
    }
    SameTree(r'.worktree, r'.staged);
    SameTree(r'.staged, Head(r'));
  }

  lemma SameTree(a: Tree, b: Tree)
    requires forall p :: At(a, p) == At(b, p)
    ensures a == b
  {
    forall p ensures p in a <==> p in b {
      assert At(a, p) == At(b, p);
    }
    forall p | p in a ensures a[p] == b[p] {
      assert At(a, p) == At(b, p);
    }
  }

  // ---------- Provenance ----------

  ghost predicate InHistory(h: History, p: string, raw: string) {
    exists k :: 0 <= k < |h| && At(h[k].tree, p) == Some(raw)
  }

  // `raw` is at p in the worktree, the staging area or a commit of either branch.
  ghost predicate Holds(r: Repo, p: string, raw: string) {
    || At(r.worktree, p) == Some(raw)
    || At(r.staged, p) == Some(raw)
    || InHistory(r.local, p, raw)
    || InHistory(r.remote, p, raw)
  }

  // An Apply to p with this very body and metadata, or another writer's commit.
  ghost predicate Writes(cfg: Config, op: Op, p: string, raw: string) {
    || (op.ApplyOp? && GitPath(op.args.path) == p
        && exists version :: raw == Marshal(cfg.codec, Stored(cfg, op.args, version, op.nonce)))
    || (op.ExternalOp? && InHistory(op.commits, p, raw))
  }

  lemma TipIsInHistory(h: History, p: string, raw: string)
    requires At(Tip(h), p) == Some(raw)
    ensures InHistory(h, p, raw)
  {
    assert At(h[|h| - 1].tree, p) == Some(raw);
  }

  lemma HistoryStep(h: History, more: History, p: string, raw: string)
    requires InHistory(h + more, p, raw)
    ensures InHistory(h, p, raw) || InHistory(more, p, raw)
  {
    var k :| 0 <= k < |h + more| && At((h + more)[k].tree, p) == Some(raw);
    if k < |h| { assert At(h[k].tree, p) == Some(raw); } else { assert At(more[k - |h|].tree, p) == Some(raw); }
  }

  // A commit adds the staged tree, nothing else.
  lemma CommitProvenance(r: Repo, stamp: nat, f: Fault, p: string, raw: string)
    requires Holds(MakeCommit(r, stamp, f).repo, p, raw)
    ensures Holds(r, p, raw)
  {
    var c := [Commit(stamp, r.staged)];
    if InHistory(r.local + c, p, raw) { HistoryStep(r.local, c, p, raw); }
  }

  lemma MergeProvenance(r: Repo, f: Fault, p: string, raw: string)
    requires Holds(Merge(r, r.remote, f).repo, p, raw)
    ensures Holds(r, p, raw)
  {
    if At(Tip(r.remote), p) == Some(raw) { TipIsInHistory(r.remote, p, raw); }
  }

  lemma PushProvenance(r: Repo, f: Fault, p: string, raw: string)
    requires Holds(Push(r, f).repo, p, raw)
    ensures Holds(r, p, raw)
  {
  }

  lemma ApplyProvenance(cfg: Config, r: Repo, args: ApplyArgs, nonce: Nonce, f: Faults, p: string, raw: string)
    requires Holds(ApplyRepo(cfg, r, args, nonce, f).0, p, raw)
    ensures Holds(r, p, raw) || Writes(cfg, ApplyOp(args, nonce, f), p, raw)
  {
    hide ApplyRepo, VersionFor, Stored, MakeCommit, Push;
    ApplyStops(cfg, r, args, nonce, f);
    var version := VersionFor(cfg, Seen(r, GitPath(args.path), f.unreadable), args.expected);
    if version.Ok? && !f.prepare {
      var r1 := Written(cfg, r, args, version.value, nonce);
      var r2 := Add(r1, GitPath(args.path), f.stage).repo;
      var r3 := MakeCommit(r2, f.stamp, f.commit).repo;
      if Holds(Push(r3, f.push).repo, p, raw) { PushProvenance(r3, f.push, p, raw); }
      if Holds(r3, p, raw) { CommitProvenance(r2, f.stamp, f.commit, p, raw); }
      assert Holds(r1, p, raw);
    }
  }

  lemma DeleteProvenance(cfg: Config, r: Repo, path: string, expected: int, f: Faults, p: string, raw: string)
    requires Holds(DeleteRepo(cfg, r, path, expected, f).0, p, raw)
    ensures Holds(r, p, raw)
  {
    hide DeleteRepo, MakeCommit, Push;
    DeleteStops(cfg, r, path, expected, f);
    var r1 := Remove(r, GitPath(path), f.stage).repo;
    var r2 := MakeCommit(r1, f.stamp, f.commit).repo;
    if Holds(Push(r2, f.push).repo, p, raw) { PushProvenance(r2, f.push, p, raw); }
    if Holds(r2, p, raw) { CommitProvenance(r1, f.stamp, f.commit, p, raw); }
  }

  lemma StepProvenance(cfg: Config, r: Repo, op: Op, p: string, raw: string)
    requires Holds(RepoStep(cfg, r, op).0, p, raw)
    ensures Holds(r, p, raw) || Writes(cfg, op, p, raw)
  {
    hide ApplyRepo, DeleteRepo, Merge, InHistory;
    match op
    case ApplyOp(args, nonce, f) => ApplyProvenance(cfg, r, args, nonce, f, p, raw);
    case DeleteOp(path, expected, f) => DeleteProvenance(cfg, r, path, expected, f, p, raw);
    case PollOp(pat, fetch, merge, _) =>
      if (cfg.useSSH || !pat) && !fetch { MergeProvenance(r, merge, p, raw); }
    case ExternalOp(commits) =>
      if InHistory(r.remote + commits, p, raw) { HistoryStep(r.remote, commits, p, raw); }
  }

  // Whatever any copy holds at p was there at the start, or was written to p by an Apply of
  // the run (failed ones included) or by a commit of another writer.
  lemma {:induction false} Provenance(cfg: Config, run: Run, n: nat, p: string, raw: string)
    requires IsRun(cfg, run) && n < |run.states|
    requires Holds(run.states[n].repo, p, raw)
    ensures Holds(run.states[0].repo, p, raw) || exists i :: 0 <= i < n && Writes(cfg, run.ops[i], p, raw)
  {
    hide RepoStep, Refreshed;
    if n > 0 {
      StepRepo(cfg, run.states[n - 1], run.ops[n - 1], run.states[n], run.results[n - 1]);
      StepProvenance(cfg, run.states[n - 1].repo, run.ops[n - 1], p, raw);
      if Holds(run.states[n - 1].repo, p, raw) { Provenance(cfg, run, n - 1, p, raw); }
    }
  }

  // ---------- Reading back ----------

  // The operation is not about p, and a merge it makes brings no change of p.
  predicate LeavesAlone(cfg: Config, r: Repo, op: Op, p: string) {
    !Targets(op, p) && (op.PollOp? ==> At(Head(RepoStep(cfg, r, op).0), p) == At(Head(r), p))
  }

  lemma CommitAndPushLeaveFiles(r: Repo, stamp: nat, f: Fault, g: Fault)
    ensures MakeCommit(r, stamp, f).repo.worktree == r.worktree
    ensures Push(MakeCommit(r, stamp, f).repo, g).repo.worktree == r.worktree
  {
  }

  lemma ApplyLeavesOthers(cfg: Config, r: Repo, args: ApplyArgs, nonce: Nonce, f: Faults, p: string)
    requires GitPath(args.path) != p
    ensures At(ApplyRepo(cfg, r, args, nonce, f).0.worktree, p) == At(r.worktree, p)
  {
    hide ApplyRepo, VersionFor, Stored, MakeCommit, Push;
    ApplyStops(cfg, r, args, nonce, f);
    var version := VersionFor(cfg, Seen(r, GitPath(args.path), f.unreadable), args.expected);
    if version.Ok? {
      var r2 := Add(Written(cfg, r, args, version.value, nonce), GitPath(args.path), f.stage).repo;
      CommitAndPushLeaveFiles(r2, f.stamp, f.commit, f.push);
    }
  }

  lemma DeleteLeavesOthers(cfg: Config, r: Repo, path: string, expected: int, f: Faults, p: string)
    requires GitPath(path) != p
    ensures At(DeleteRepo(cfg, r, path, expected, f).0.worktree, p) == At(r.worktree, p)
  {
    hide DeleteRepo, MakeCommit, Push;
    DeleteStops(cfg, r, path, expected, f);
    CommitAndPushLeaveFiles(Remove(r, GitPath(path), f.stage).repo, f.stamp, f.commit, f.push);
  }

  lemma MergeLeavesUnchanged(r: Repo, theirs: History, f: Fault, p: string)
    requires At(Head(Merge(r, theirs, f).repo), p) == At(Head(r), p)
    ensures At(Merge(r, theirs, f).repo.worktree, p) == At(r.worktree, p)
  {
  }

  lemma FileStaysInStep(cfg: Config, r: Repo, op: Op, p: string)
    requires LeavesAlone(cfg, r, op, p)
    ensures At(RepoStep(cfg, r, op).0.worktree, p) == At(r.worktree, p)
  {
    hide ApplyRepo, DeleteRepo, Merge;
    match op
    case ApplyOp(args, nonce, f) => ApplyLeavesOthers(cfg, r, args, nonce, f, p);
    case DeleteOp(path, expected, f) => DeleteLeavesOthers(cfg, r, path, expected, f, p);
    case PollOp(pat, fetch, merge, _) =>
      if (cfg.useSSH || !pat) && !fetch { MergeLeavesUnchanged(r, r.remote, merge, p); }
    case ExternalOp(_) =>
  }

  lemma {:induction false} FileStays(cfg: Config, run: Run, i: nat, j: nat, p: string)
    requires IsRun(cfg, run) && i <= j < |run.states|
    requires forall k :: i <= k < j ==> LeavesAlone(cfg, run.states[k].repo, run.ops[k], p)
    ensures At(run.states[j].repo.worktree, p) == At(run.states[i].repo.worktree, p)
    decreases j
  {
    hide RepoStep, Refreshed;
    if i < j {
      FileStays(cfg, run, i, j - 1, p);
      StepRepo(cfg, run.states[j - 1], run.ops[j - 1], run.states[j], run.results[j - 1]);
      FileStaysInStep(cfg, run.states[j - 1].repo, run.ops[j - 1], p);
    }
  }

  lemma StoredReadsBack(cfg: Config, reading: KeyRing, args: ApplyArgs, version: int, nonce: Nonce, r: Repo)
    requires Lawful(cfg)
    requires At(r.worktree, GitPath(args.path)) == Some(Marshal(cfg.codec, Stored(cfg, args, version, nonce)))
    ensures GetDocument(cfg.(keys := reading), r, args.path) ==
            if args.encrypt && cfg.keys[0] !in reading then Err(Undecryptable) else Ok(Returned(args, version))
  {
    MarshalParse(cfg.codec, Stored(cfg, args, version, nonce));
    DecryptAfterRotation(cfg.aead, cfg.keys, reading, nonce, args.body);
  }

  // After a nil Apply and any operations that leave its file alone, a reader gets the very
  // envelope Apply returned, with every ring that still holds the sealing key (and a plain
  // document with any ring); without that key an encrypted one is refused.
  lemma RoundTrip(cfg: Config, reading: KeyRing, run: Run, i: nat, j: nat)
    requires Lawful(cfg) && IsRun(cfg, run) && i < j < |run.states|
    requires run.ops[i].ApplyOp? && run.results[i].Ok?
    requires forall k :: i < k < j ==>
      LeavesAlone(cfg, run.states[k].repo, run.ops[k], GitPath(run.ops[i].args.path))
    ensures run.results[i].value.Some?
    ensures
      var args := run.ops[i].args;
      GetDocument(cfg.(keys := reading), run.states[j].repo, args.path) ==
      if args.encrypt && cfg.keys[0] !in reading then Err(Undecryptable) else Ok(run.results[i].value.value)
  {
    hide RepoStep, Refreshed;
    var args, p := run.ops[i].args, GitPath(run.ops[i].args.path);
    AcknowledgedApply(cfg, run.states[i], run.ops[i], run.states[i + 1], run.results[i]);
    FileStays(cfg, run, i + 1, j, p);
    var version := VersionFor(cfg, Seen(run.states[i].repo, p, run.ops[i].faults.unreadable), args.expected).value;
    StoredReadsBack(cfg, reading, args, version, run.ops[i].nonce, run.states[j].repo);
  }
}
