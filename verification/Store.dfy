// pkg/store/gitstore.go as a state machine: what each operation may do to the four copies
// of the data (worktree, staging area, local branch, remote branch), to the cached index
// and to the event log, for every way its steps can fail.
module Store {
  import opened Wrappers
  import opened Documents
  import opened Keyrings
  import opened Text
  import opened Git
  import opened Indexes
  import opened Changes

  const MAX_INT := 0x7FFF_FFFF_FFFF_FFFF

  // Go's int wraps.
  function Increment(v: int): int {
    if v == MAX_INT then -MAX_INT - 1 else v + 1
  }

  datatype Config = Config(codec: Codec, aead: Aead, keys: KeyRing, useSSH: bool)

  ghost predicate Lawful(cfg: Config) {
    Inverse(cfg.codec) && Ideal(cfg.aead)
  }

  datatype ApplyArgs = ApplyArgs(path: string, body: string, contentType: string, encrypt: bool,
                                 expected: int, owner: string)

  // Reading the objects of a commit: HEAD may be unreadable, then the commit or its tree,
  // then a file; in the last case `visited` holds the files read before it.
  datatype RefreshFault = AllRead | HeadFails | ObjectFails | FileFails(visited: set<string>)

  // `unreadable`: the worktree file cannot be read. `prepare`: sealing, marshalling, making
  // the directory or writing the file fails.
  datatype Faults = Faults(unreadable: bool, prepare: bool, pat: bool, stage: Fault, commit: Fault,
                           stamp: nat, push: Fault, refresh: RefreshFault)

  datatype Op =
    | ApplyOp(args: ApplyArgs, nonce: Nonce, faults: Faults)
    | DeleteOp(path: string, expected: int, faults: Faults)
    | PollOp(pat: bool, fetch: bool, merge: Fault, refresh: RefreshFault)
    | ExternalOp(commits: seq<Commit>)     // other writers push to the remote branch

  datatype State = State(repo: Repo, served: History, index: Entries, log: seq<Event>)

  // ---------- Operations on the repository ----------

  // What reading the worktree file tells: every read error counts as a missing file.
  function Seen(r: Repo, p: string, unreadable: bool): Option<string> {
    if unreadable then None else At(r.worktree, p)
  }

  function VersionFor(cfg: Config, current: Option<string>, expected: int): Result<int> {
    match current
    case None => if expected > 1 then Err(Conflict) else Ok(1)
    case Some(raw) =>
      match ParseEnvelope(cfg.codec, raw)
      case Err(e) => Err(e)
      case Ok(existing) =>
        if expected > 0 && existing.metadata.version != expected then Err(Conflict)
        else Ok(Increment(existing.metadata.version))
  }

  // The envelope a nil Apply returns.
  function Returned(args: ApplyArgs, version: int): Envelope {
    var contentType := if args.contentType == "" then "application/yaml" else args.contentType;
    Envelope(SCHEMA_VERSION, Metadata(version, contentType, false, map[], args.owner), args.body)
  }

  // The envelope it writes.
  function Stored(cfg: Config, args: ApplyArgs, version: int, nonce: Nonce): Envelope {
    var e := Returned(args, version);
    if args.encrypt then
      Envelope(e.schema, e.metadata.(encrypted := true), Encrypt(cfg.aead, cfg.keys, nonce, args.body))
    else e
  }

  function Written(cfg: Config, r: Repo, args: ApplyArgs, version: int, nonce: Nonce): Repo {
    r.(worktree := r.worktree[GitPath(args.path) := Marshal(cfg.codec, Stored(cfg, args, version, nonce))])
  }

  // From the written file to the push.
  function PublishRepo(cfg: Config, written: Repo, p: string, f: Faults): (Repo, Result<()>)
    requires p in written.worktree
  {
    if !cfg.useSSH && f.pat then (written, Err(Failed("pat")))
    else
      var staged := Add(written, p, f.stage);
      if !staged.ok then (staged.repo, Err(Failed("git add")))
      else
        var committed := MakeCommit(staged.repo, f.stamp, f.commit);
        if !committed.ok && !committed.said then (committed.repo, Err(Failed("git commit")))
        else
          var pushed := Push(committed.repo, f.push);
          if !pushed.ok then (pushed.repo, Err(Failed("git push"))) else (pushed.repo, Ok(()))
  }

  function ApplyRepo(cfg: Config, r: Repo, args: ApplyArgs, nonce: Nonce, f: Faults): (Repo, Result<Envelope>) {
    var p := GitPath(args.path);
    var version := VersionFor(cfg, Seen(r, p, f.unreadable), args.expected);
    if version.Err? then (r, Err(version.error))
    else if f.prepare then (r, Err(Failed("write")))
    else
      var (r', res) := PublishRepo(cfg, Written(cfg, r, args, version.value, nonce), p, f);
      (r', if res.Ok? then Ok(Returned(args, version.value)) else Err(res.error))
  }

  function DeleteRepo(cfg: Config, r: Repo, path: string, expected: int, f: Faults): (Repo, Result<()>) {
    var p := GitPath(path);
    var raw := Seen(r, p, f.unreadable);
    if raw.None? then (r, Err(NotFound))
    else
      var existing := ParseEnvelope(cfg.codec, raw.value);
      if existing.Err? then (r, Err(existing.error))
      else if expected > 0 && existing.value.metadata.version != expected then (r, Err(Conflict))
      else if !cfg.useSSH && f.pat then (r, Err(Failed("pat")))
      else
        var removed := Remove(r, p, f.stage);
        if !removed.ok then (removed.repo, Err(Failed("git rm")))
        else
          var committed := MakeCommit(removed.repo, f.stamp, f.commit);
          if !committed.ok then (committed.repo, Err(Failed("git commit")))
          else
            var pushed := Push(committed.repo, f.push);
            if !pushed.ok then (pushed.repo, Err(Failed("git push"))) else (pushed.repo, Ok(()))
  }

  // Git never prints "Already up to date" when a fetch fails, so a failed fetch ends a poll.
  function PollRepo(cfg: Config, r: Repo, pat: bool, fetch: bool, merge: Fault): (Repo, Result<()>) {
    if !cfg.useSSH && pat then (r, Err(Failed("pat")))
    else if fetch then (r, Err(Failed("fetch")))
    else
      var merged := Merge(r, r.remote, merge);
      if !merged.ok && !merged.said then (merged.repo, Err(Failed("merge"))) else (merged.repo, Ok(()))
  }

  // The repository after an operation, and the operation's result up to the index refresh;
  // the envelope is there for Apply only.
  function RepoStep(cfg: Config, r: Repo, op: Op): (Repo, Result<Option<Envelope>>) {
    match op
    case ApplyOp(args, nonce, f) =>
      var (r', res) := ApplyRepo(cfg, r, args, nonce, f);
      (r', if res.Ok? then Ok(Some(res.value)) else Err(res.error))
    case DeleteOp(path, expected, f) =>
      var (r', res) := DeleteRepo(cfg, r, path, expected, f);
      (r', if res.Ok? then Ok(None) else Err(res.error))
    case PollOp(pat, fetch, merge, _) =>
      var (r', res) := PollRepo(cfg, r, pat, fetch, merge);
      (r', if res.Ok? then Ok(None) else Err(res.error))
    case ExternalOp(commits) =>
      (r.(remote := r.remote + commits), Ok(None))
  }

  // Where an operation can stop, and what a success went through.
  lemma ApplyStops(cfg: Config, r: Repo, args: ApplyArgs, nonce: Nonce, f: Faults)
    ensures
      var (r', res) := ApplyRepo(cfg, r, args, nonce, f);
      var p := GitPath(args.path);
      var version := VersionFor(cfg, Seen(r, p, f.unreadable), args.expected);
      if version.Err? || f.prepare then r' == r && res.Err?
      else
        var r1 := Written(cfg, r, args, version.value, nonce);
        var r2 := Add(r1, p, f.stage).repo;
        var r3 := MakeCommit(r2, f.stamp, f.commit).repo;
        r' == r1 || r' == r2 || r' == r3 || r' == Push(r3, f.push).repo
  {
  }

  lemma ApplySucceeds(cfg: Config, r: Repo, args: ApplyArgs, nonce: Nonce, f: Faults)
    requires ApplyRepo(cfg, r, args, nonce, f).1.Ok?
    ensures
      var (r', res) := ApplyRepo(cfg, r, args, nonce, f);
      var p := GitPath(args.path);
      var version := VersionFor(cfg, Seen(r, p, f.unreadable), args.expected);
      && version.Ok? && res.value == Returned(args, version.value)
      && var r1 := Written(cfg, r, args, version.value, nonce);
         var r2 := Add(r1, p, f.stage).repo;
         var committed := MakeCommit(r2, f.stamp, f.commit);
         && r2 == r1.(staged := r1.staged[p := r1.worktree[p]])
         && (committed.ok || committed.said)
         && committed.repo.remote <= committed.repo.local
         && r' == committed.repo.(remote := committed.repo.local)
  {
  }

  lemma DeleteStops(cfg: Config, r: Repo, path: string, expected: int, f: Faults)
    ensures
      var r' := DeleteRepo(cfg, r, path, expected, f).0;
      var r1 := Remove(r, GitPath(path), f.stage).repo;
      var r2 := MakeCommit(r1, f.stamp, f.commit).repo;
      r' == r || r' == r1 || r' == r2 || r' == Push(r2, f.push).repo
  {
  }

  lemma DeleteSucceeds(cfg: Config, r: Repo, path: string, expected: int, f: Faults)
    requires DeleteRepo(cfg, r, path, expected, f).1.Ok?
    ensures
      var r1 := Remove(r, GitPath(path), f.stage);
      var committed := MakeCommit(r1.repo, f.stamp, f.commit);
      && r1.ok && committed.ok
      && committed.repo.remote <= committed.repo.local
      && DeleteRepo(cfg, r, path, expected, f).0 == committed.repo.(remote := committed.repo.local)
  {
  }

  // ---------- The index and its refresh ----------

  function DataPaths(tree: Tree): set<string> {
    set f | f in tree.Keys && HasPrefix(f, DATA) :: TrimPrefix(f, DATA)
  }

  // The parseable files under data/, keyed by trimmed path.
  ghost function Project(codec: Codec, tree: Tree): Entries {
    map p | p in DataPaths(tree) && DATA + p in tree && ParseEnvelope(codec, tree[DATA + p]).Ok? ::
      DocEntry(p, tree[DATA + p], ParseEnvelope(codec, tree[DATA + p]).value.metadata)
  }

  function Readable(tree: Tree, f: RefreshFault): Tree {
    if f.FileFails? then map k | k in tree && k in f.visited :: tree[k] else tree
  }

  ghost function PathsOf(events: seq<Event>, kind: Kind): set<string> {
    set e | e in events && e.kind == kind :: e.path
  }

  // A log segment numbered from `base` that announces the paths `added` and then `removed`,
  // each once, each group in any order.
  ghost predicate AnnouncesPaths(after: Entries, added: set<string>, removed: set<string>, base: nat,
                                 events: seq<Event>)
  {
    && (forall i :: 0 <= i < |events| ==> events[i].revision == base + i + 1)
    && (forall i, j :: 0 <= i < j < |events| ==> events[i].path != events[j].path)
    && (forall i, j :: 0 <= i < j < |events| && events[i].kind.Delete? ==> events[j].kind.Delete?)
    && PathsOf(events, Upsert) == added
    && PathsOf(events, Delete) == removed
    && (forall e :: e in events && e.kind.Upsert? ==> e.path in after && e.metadata == after[e.path].metadata)
    && (forall e :: e in events && e.kind.Delete? ==> e.metadata == Metadata(0, "", false, map[], ""))
  }

  // The events of one refresh: an upsert with its metadata for each new path, and a deletion
  // without any for each lost one.
  // A path that stays makes no event.
  ghost predicate Announces(before: Entries, after: Entries, base: nat, events: seq<Event>) {
    AnnouncesPaths(after, after.Keys - before.Keys, before.Keys - after.Keys, base, events)
  }

  ghost predicate Refreshed(cfg: Config, s: State, initial: bool, f: RefreshFault, s': State, ok: bool) {
    var head := s.repo.local;
    if head == [] || f.HeadFails? then s' == s && !ok
    else if head == s.served && !initial then s' == s && ok
    else if f.ObjectFails? then s' == s.(index := map[]) && !ok
    else
      && ok
      && s'.repo == s.repo && s'.served == head
      && s'.index == Project(cfg.codec, Readable(Tip(head), f))
      && s.log <= s'.log
      && Announces(s.index, s'.index, |s.log|, s'.log[|s.log|..])
  }

  function RefreshOf(op: Op): RefreshFault
    requires !op.ExternalOp?
  {
    match op
    case ApplyOp(_, _, f) => f.refresh
    case DeleteOp(_, _, f) => f.refresh
    case PollOp(_, _, _, f) => f
  }

  // ---------- Runs ----------

  ghost predicate Step(cfg: Config, s: State, op: Op, s': State, res: Result<Option<Envelope>>) {
    var (r, done) := RepoStep(cfg, s.repo, op);
    var mid := s.(repo := r);
    if op.ExternalOp? || done.Err? then s' == mid && res == done
    else
      && Refreshed(cfg, mid, false, RefreshOf(op), s', res.Ok?)
      && res == if res.Ok? then done else Err(Failed("refresh"))
  }

  // A state in which the store has just been opened.
  ghost predicate Opened(cfg: Config, s: State, f: RefreshFault) {
    Refreshed(cfg, State(s.repo, [], map[], []), true, f, s, true)
  }

  datatype Run = Run(states: seq<State>, ops: seq<Op>, results: seq<Result<Option<Envelope>>>)

  ghost predicate IsRun(cfg: Config, run: Run) {
    && |run.states| == |run.ops| + 1 == |run.results| + 1
    && forall i :: 0 <= i < |run.ops| ==>
         Step(cfg, run.states[i], run.ops[i], run.states[i + 1], run.results[i])
  }

  lemma StepRepo(cfg: Config, s: State, op: Op, s': State, res: Result<Option<Envelope>>)
    requires Step(cfg, s, op, s', res)
    ensures s'.repo == RepoStep(cfg, s.repo, op).0
    ensures res.Ok? ==> RepoStep(cfg, s.repo, op).1 == res
    ensures res.Ok? && !op.ExternalOp? ==> s'.served == s'.repo.local
  {
  }

  // ---------- Reading ----------

  function GetDocument(cfg: Config, r: Repo, path: string): Result<Envelope> {
    match At(r.worktree, GitPath(path))
    case None => Err(NotFound)
    case Some(raw) =>
      match ParseEnvelope(cfg.codec, raw)
      case Err(e) => Err(e)
      case Ok(env) =>
        if !env.metadata.encrypted then Ok(env)
        else
          match Decrypted(cfg.aead, cfg.keys, env.document)
          case Err(e) => Err(e)
          case Ok(plain) => Ok(env.(document := plain, metadata := env.metadata.(encrypted := false)))
  }
}
