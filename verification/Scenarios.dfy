// Inputs on which the store does not do what one might expect, each reached by operations
// that succeed or fail as the source lets them.
module Scenarios {
  import opened Wrappers
  import opened Documents
  import opened Keyrings
  import opened Text
  import opened Git
  import opened Indexes
  import opened Changes
  import opened Store
  import opened StoreSafety
  import opened StoreVersions
  import opened StoreCache

  // ---------- Versions ----------

  // What a fault-free Apply does to a clean store that is not behind.
  lemma CleanApply(cfg: Config, r: Repo, args: ApplyArgs, nonce: Nonce, f: Faults)
    requires Lawful(cfg) && Clean(r) && r.remote <= r.local && NoFault(ApplyOp(args, nonce, f))
    requires VersionFor(cfg, At(r.worktree, GitPath(args.path)), args.expected).Ok?
    ensures
      var (r', res) := ApplyRepo(cfg, r, args, nonce, f);
      var version := VersionFor(cfg, At(r.worktree, GitPath(args.path)), args.expected).value;
      var raw := Marshal(cfg.codec, Stored(cfg, args, version, nonce));
      && res == Ok(Returned(args, version)) && Clean(r') && r'.remote == r'.local
      && r'.worktree == r.worktree[GitPath(args.path) := raw]
      && Parses(cfg, raw) && VersionOf(cfg, raw) == version
  {
    hide ApplyRepo, VersionFor, MakeCommit;
    CleanStoreApplies(cfg, r, args, nonce, f);
    ApplySucceeds(cfg, r, args, nonce, f);
    var version := VersionFor(cfg, At(r.worktree, GitPath(args.path)), args.expected).value;
    MarshalParse(cfg.codec, Stored(cfg, args, version, nonce));
    var r2 := Add(Written(cfg, r, args, version, nonce), GitPath(args.path), f.stage).repo;
    CommitPublishesStaged(r2, f.stamp, f.commit);
  }

  // Expected version 1 succeeds twice: it creates the document, and then replaces it.
  lemma ExpectedOneSucceedsTwice(cfg: Config, r: Repo, first: ApplyArgs, second: ApplyArgs, nonce: Nonce, f: Faults)
    requires Lawful(cfg) && Clean(r) && r.remote <= r.local && NoFault(ApplyOp(first, nonce, f))
    requires first.expected == second.expected == 1
    requires GitPath(first.path) == GitPath(second.path) && GitPath(first.path) !in r.worktree
    ensures
      var (r1, res1) := ApplyRepo(cfg, r, first, nonce, f);
      var (r2, res2) := ApplyRepo(cfg, r1, second, nonce, f);
      res1 == Ok(Returned(first, 1)) && res2 == Ok(Returned(second, 2))
  {
    hide ApplyRepo, Stored, Clean;
    CleanApply(cfg, r, first, nonce, f);
    var r1 := ApplyRepo(cfg, r, first, nonce, f).0;
    CleanApply(cfg, r1, second, nonce, f);
  }

  lemma CleanDelete(cfg: Config, r: Repo, path: string, f: Faults)
    requires Clean(r) && r.remote <= r.local && NoFault(DeleteOp(path, 0, f))
    requires GitPath(path) in r.worktree && Parses(cfg, r.worktree[GitPath(path)])
    ensures
      var (r', res) := DeleteRepo(cfg, r, path, 0, f);
      res.Ok? && Clean(r') && r'.remote == r'.local && GitPath(path) !in r'.worktree
  {
    CleanStoreDeletes(cfg, r, path, 0, f);
    DeleteSucceeds(cfg, r, path, 0, f);
  }

  // A reader sees version 1; another client deletes the document and makes a new one; the
  // reader's conditional Apply then succeeds and overwrites what it never saw.
  lemma DeletionHidesTheChange(cfg: Config, r: Repo, seen: string, other: ApplyArgs, mine: ApplyArgs,
                               nonce: Nonce, f: Faults)
    requires Lawful(cfg) && Clean(r) && r.remote <= r.local && NoFault(ApplyOp(mine, nonce, f))
    requires At(r.worktree, GitPath(mine.path)) == Some(seen) && Parses(cfg, seen) && VersionOf(cfg, seen) == 1
    requires GitPath(other.path) == GitPath(mine.path) && other.expected == 0 && mine.expected == 1
    requires Marshal(cfg.codec, Stored(cfg, other, 1, nonce)) != seen
    ensures
      var r1 := DeleteRepo(cfg, r, mine.path, 0, f).0;
      var (r2, res2) := ApplyRepo(cfg, r1, other, nonce, f);
      && res2 == Ok(Returned(other, 1))
      && At(r2.worktree, GitPath(mine.path)).Some? && At(r2.worktree, GitPath(mine.path)) != Some(seen)
      && ApplyRepo(cfg, r2, mine, nonce, f).1 == Ok(Returned(mine, 2))
  {
    hide ApplyRepo, DeleteRepo, Stored, Clean;
    CleanDelete(cfg, r, mine.path, f);
    var r1 := DeleteRepo(cfg, r, mine.path, 0, f).0;
    CleanApply(cfg, r1, other, nonce, f);
    CleanApply(cfg, ApplyRepo(cfg, r1, other, nonce, f).0, mine, nonce, f);
  }

  // ---------- A store that was just opened ----------

  const ARGS := ApplyArgs("a", "x", "text/plain", false, 0, "o")
  const NONCE: Nonce := "000000000000"
  const FILE := "data/a"

  function Meta(version: int): Metadata {
    Metadata(version, "text/plain", false, map[], "o")
  }

  function Raw(cfg: Config, version: int): string {
    Marshal(cfg.codec, Returned(ARGS, version))
  }

  function TreeAt(cfg: Config, version: int): Tree {
    map[FILE := Raw(cfg, version)]
  }

  function IndexAt(cfg: Config, version: int): Entries {
    map["a" := DocEntry("a", Raw(cfg, version), Meta(version))]
  }

  // A clean store with these commits, all pushed.
  function RepoAt(history: History): Repo
    requires history != []
  {
    Repo(Tip(history), Tip(history), history, history)
  }

  function First(cfg: Config): History {
    [Commit(0, TreeAt(cfg, 1))]
  }

  function Second(cfg: Config): History {
    First(cfg) + [Commit(1, TreeAt(cfg, 2))]
  }

  function Start(cfg: Config): State {
    State(RepoAt(First(cfg)), First(cfg), IndexAt(cfg, 1), [Event(1, Upsert, "a", Meta(1))])
  }

  lemma FilePath()
    ensures DATA + "a" == FILE && GitPath("a") == FILE
  {
    assert "a"[0] != '/' && |SYSTEM| > |"a"|;
    assert TrimPrefix("a", "/") == "a";
  }

  lemma ProjectOne(cfg: Config, version: int)
    requires Lawful(cfg)
    ensures Project(cfg.codec, TreeAt(cfg, version)) == IndexAt(cfg, version)
    ensures ParseEnvelope(cfg.codec, Raw(cfg, version)) == Ok(Returned(ARGS, version))
  {
    MarshalParse(cfg.codec, Returned(ARGS, version));
    var index, tree := IndexAt(cfg, version), TreeAt(cfg, version);
    FilePath();
    forall p ensures p in Project(cfg.codec, tree) <==> p in index {
      ProjectedPath(cfg.codec, tree, p);
      TrimPrefixInverse(p, DATA);
      if DATA + p == FILE { assert p == TrimPrefix(FILE, DATA) == "a"; }
    }
    ProjectedPath(cfg.codec, tree, "a");
  }

  lemma AnnounceOne(before: Entries, after: Entries, base: nat)
    requires before == map[] && after.Keys == {"a"}
    ensures Announces(before, after, base, [Event(base + 1, Upsert, "a", after["a"].metadata)])
  {
    var events := [Event(base + 1, Upsert, "a", after["a"].metadata)];
    assert events[0] in events;
    assert PathsOf(events, Upsert) == {"a"} && PathsOf(events, Kind.Delete) == {};
  }

  lemma StartIsOpened(cfg: Config)
    requires Lawful(cfg)
    ensures Opened(cfg, Start(cfg), AllRead) && LogOk(Start(cfg)) && CacheOk(cfg, Start(cfg))
    ensures Told(Start(cfg).log) == Metas(Start(cfg).index)
  {
    ProjectOne(cfg, 1);
    AnnounceOne(map[], IndexAt(cfg, 1), 0);
    assert Opened(cfg, Start(cfg), AllRead);
    OpenedStore(cfg, Start(cfg), AllRead);
    var log := Start(cfg).log;
    assert log[..0] == [];
    assert Told(log) == map["a" := Meta(1)];
  }

  function Update(refresh: RefreshFault): Op {
    ApplyOp(ARGS, NONCE, Faults(false, false, false, Works, Works, 1, Works, refresh))
  }

  lemma UpdateCommits(cfg: Config, refresh: RefreshFault)
    requires Lawful(cfg)
    ensures RepoStep(cfg, Start(cfg).repo, Update(refresh)) ==
            (RepoAt(Second(cfg)), Ok(Some(Returned(ARGS, 2))))
  {
    ProjectOne(cfg, 1);
    ProjectOne(cfg, 2);
    var r := Start(cfg).repo;
    FilePath();
    assert VersionFor(cfg, At(r.worktree, FILE), 0) == Ok(2);
    assert Stored(cfg, ARGS, 2, NONCE) == Returned(ARGS, 2);
    var r1 := Written(cfg, r, ARGS, 2, NONCE);
    assert r1.worktree == TreeAt(cfg, 2);
    assert TreeAt(cfg, 2)[FILE] != TreeAt(cfg, 1)[FILE];
    var r2 := r1.(staged := r1.staged[FILE := r1.worktree[FILE]]);
    assert r2.staged == TreeAt(cfg, 2) && r2.staged != Head(r2);
  }

  // Another writer commits, and before the next Poll the store takes an Apply in which nothing
  // breaks.
  lemma WriteBehindDiverges(cfg: Config)
    requires Lawful(cfg)
    ensures
      var r := Start(cfg).repo.(remote := First(cfg) + [Commit(2, map[])]);
      var (r', res) := RepoStep(cfg, r, Update(AllRead));
      Clean(r) && res.Err? && !Comparable(r'.local, r'.remote)
  {
    hide ApplyRepo;
    var r, op := Start(cfg).repo.(remote := First(cfg) + [Commit(2, map[])]), Update(AllRead);
    ProjectOne(cfg, 1);
    FilePath();
    assert VersionFor(cfg, At(r.worktree, FILE), 0) == Ok(2);
    assert r.local < r.remote && r.remote[|r.local|].stamp == 2;
    CleanStoreApplies(cfg, r, op.args, op.nonce, op.faults);
  }

  // An Apply that succeeds in every step leaves a reader of the log with the old metadata.
  lemma UpdateLeavesLogBehind(cfg: Config)
    requires Lawful(cfg)
    ensures
      var s, s' := Start(cfg), State(RepoAt(Second(cfg)), Second(cfg), IndexAt(cfg, 2), Start(cfg).log);
      && Step(cfg, s, Update(AllRead), s', Ok(Some(Returned(ARGS, 2))))
      && Told(s.log) == Metas(s.index) && Told(s'.log) != Metas(s'.index)
  {
    hide RepoStep, Told;
    StartIsOpened(cfg);
    UpdateCommits(cfg, AllRead);
    ProjectOne(cfg, 2);
    var s, s' := Start(cfg), State(RepoAt(Second(cfg)), Second(cfg), IndexAt(cfg, 2), Start(cfg).log);
    assert s'.log[|s.log|..] == [] && PathsOf([], Upsert) == {} && PathsOf([], Kind.Delete) == {};
    assert Refreshed(cfg, BeforeRefresh(cfg, s, Update(AllRead)), false, AllRead, s', true);
    assert Metas(s'.index)["a"] != Metas(s.index)["a"];
  }

  // The same Apply when its commit cannot be read back, and then a faultless Poll.
  lemma UnreadableCommitIsAnnouncedAgain(cfg: Config)
    requires Lawful(cfg)
    ensures
      var s := Start(cfg);
      var s1 := State(RepoAt(Second(cfg)), First(cfg), map[], s.log);
      var s2 := State(s1.repo, Second(cfg), IndexAt(cfg, 2), s.log + [Event(2, Upsert, "a", Meta(2))]);
      && Opened(cfg, s, AllRead) && Alternates(s.log)
      && Step(cfg, s, Update(ObjectFails), s1, Err(Failed("refresh")))
      && Step(cfg, s1, PollOp(false, false, Works, AllRead), s2, Ok(None))
      && !CacheOk(cfg, s1) && !LogOk(s1) && !Alternates(s2.log)
  {
    NothingCached(cfg);
    hide Alternates, Told;
    StartIsOpened(cfg);
    FirstRefresh(cfg);
    var s := Start(cfg);
    var s1 := State(RepoAt(Second(cfg)), First(cfg), map[], s.log);
    var s2 := State(s1.repo, Second(cfg), IndexAt(cfg, 2), s.log + [Event(2, Upsert, "a", Meta(2))]);
    hide Refreshed, Step;
    SecondRefresh(cfg, s, s1, s2);
    EmptiedIndexIsAnnouncedAgain(cfg, s1, s2, "a");
  }

  lemma NothingCached(cfg: Config)
    requires Lawful(cfg)
    ensures !CacheOk(cfg, State(RepoAt(Second(cfg)), First(cfg), map[], Start(cfg).log))
    ensures !LogOk(State(RepoAt(Second(cfg)), First(cfg), map[], Start(cfg).log))
  {
    StartIsOpened(cfg);
    ProjectOne(cfg, 1);
    assert "a" in IndexAt(cfg, 1);
    assert "a" in Live(Start(cfg).log);
  }

  lemma FirstRefresh(cfg: Config)
    requires Lawful(cfg)
    ensures
      var s := Start(cfg);
      var s1 := State(RepoAt(Second(cfg)), First(cfg), map[], s.log);
      Step(cfg, s, Update(ObjectFails), s1, Err(Failed("refresh")))
  {
    hide RepoStep;
    UpdateCommits(cfg, ObjectFails);
    assert |First(cfg)| != |Second(cfg)|;
  }

  lemma SecondRefresh(cfg: Config, s: State, s1: State, s2: State)
    requires Lawful(cfg) && s == Start(cfg)
    requires s1 == State(RepoAt(Second(cfg)), First(cfg), map[], s.log)
    requires s2 == State(s1.repo, Second(cfg), IndexAt(cfg, 2), s.log + [Event(2, Upsert, "a", Meta(2))])
    ensures Refreshed(cfg, s1, false, AllRead, s2, true) && Reads(s1, false)
    ensures Step(cfg, s1, PollOp(false, false, Works, AllRead), s2, Ok(None))
  {
    ProjectOne(cfg, 2);
    AnnounceOne(map[], IndexAt(cfg, 2), 1);
    assert s2.log[|s.log|..] == [Event(2, Upsert, "a", Meta(2))];
    assert |First(cfg)| != |Second(cfg)|;
    assert RepoStep(cfg, s1.repo, PollOp(false, false, Works, AllRead)) == (s1.repo, Ok(None));
  }
}
