// What each operation of pkg/store/gitstore.go returns and leaves, said flatly: for every
// repository, every argument and every combination of faults.
module StoreOutcomes {
  import opened Wrappers
  import opened Documents
  import opened Keyrings
  import opened Text
  import opened Git
  import opened Store
  import opened StoreSafety

  // ---------- The version check ----------

  function After(version: int): int {
    if version == 0x7FFF_FFFF_FFFF_FFFF then -0x8000_0000_0000_0000 else version + 1
  }

  // The check passes and the document gets this version: 1 for a new document, and one more
  // (in 64 bits) than the file says otherwise. An expected version of 0 or less asks for none.
  ghost predicate Gives(codec: Codec, file: Option<string>, expected: int, version: int) {
    match file
    case None => expected <= 1 && version == 1
    case Some(raw) =>
      exists e :: FileHolds(codec, raw, e) && (expected > 0 ==> e.metadata.version == expected)
               && version == After(e.metadata.version)
  }

  // The client expects another version than there is.
  ghost predicate Stale(codec: Codec, file: Option<string>, expected: int) {
    match file
    case None => expected > 1
    case Some(raw) => exists e :: FileHolds(codec, raw, e) && expected > 0 && e.metadata.version != expected
  }

  lemma VersionOutcome(cfg: Config, file: Option<string>, expected: int)
    ensures forall version ::
      VersionFor(cfg, file, expected) == Ok(version) <==> Gives(cfg.codec, file, expected, version)
    ensures VersionFor(cfg, file, expected) == Err(Conflict) <==> Stale(cfg.codec, file, expected)
    ensures VersionFor(cfg, file, expected) == Err(Malformed) <==>
            file.Some? && forall e :: !FileHolds(cfg.codec, file.value, e)
    ensures VersionFor(cfg, file, expected).Err? ==> VersionFor(cfg, file, expected).error in {Conflict, Malformed}
  {
    hide ParseEnvelope, FileHolds;
    if file.Some? {
      forall e ensures ParseEnvelope(cfg.codec, file.value) == Ok(e) <==> FileHolds(cfg.codec, file.value, e) {
        ParsedHolds(cfg.codec, file.value, e);
      }
      ParsedHolds(cfg.codec, file.value, Envelope(1, Metadata(0, "", false, map[], ""), ""));
    }
  }

  // ---------- Apply ----------

  // The file holds this envelope, with the body as it is or as what only a ring with the first
  // key turns back into it.
  ghost predicate Kept(cfg: Config, file: Option<string>, env: Envelope, encrypted: bool) {
    file.Some? && exists e ::
      && cfg.codec.unmarshal(file.value) == Some(e)
      && e.schema == 1 && e.metadata == env.metadata.(encrypted := encrypted)
      && (if encrypted
          then forall ring: KeyRing :: Decrypted(cfg.aead, ring, e.document) ==
                                       if cfg.keys[0] in ring then Ok(env.document) else Err(Undecryptable)
          else e.document == env.document)
  }

  // The document as it was given.
  predicate Given(env: Envelope, document: string, contentType: string, owner: string) {
    && env.schema == 1 && env.document == document && env.metadata.owner == owner
    && env.metadata.contentType == (if contentType == "" then "application/yaml" else contentType)
    && env.metadata.labels == map[] && !env.metadata.encrypted
  }

  lemma StoredDocument(cfg: Config, args: ApplyArgs, version: int, nonce: Nonce)
    requires Lawful(cfg)
    ensures
      var raw := Marshal(cfg.codec, Stored(cfg, args, version, nonce));
      Kept(cfg, Some(raw), Returned(args, version), args.encrypt)
    ensures Given(Returned(args, version), args.body, args.contentType, args.owner)
    ensures Returned(args, version).metadata.version == version
  {
    var e := Stored(cfg, args, version, nonce);
    MarshalParse(cfg.codec, e);
    if args.encrypt {
      forall ring: KeyRing ensures Decrypted(cfg.aead, ring, e.document) ==
                                   if cfg.keys[0] in ring then Ok(args.body) else Err(Undecryptable) {
        DecryptAfterRotation(cfg.aead, cfg.keys, ring, nonce, args.body);
      }
    }
  }

  // A nil Apply returns the document it was given, with the version that was due; a read gives
  // the same, and the file keeps it.
  lemma AppliedDocument(cfg: Config, s: State, op: Op, s': State, res: Result<Option<Envelope>>)
    requires Lawful(cfg) && Step(cfg, s, op, s', res) && op.ApplyOp? && res.Ok?
    ensures res.value.Some?
    ensures
      var env, args := res.value.value, op.args;
      && Given(env, args.body, args.contentType, args.owner)
      && Gives(cfg.codec, if op.faults.unreadable then None else At(s.repo.worktree, GitPath(args.path)),
               args.expected, env.metadata.version)
      && GetDocument(cfg, s'.repo, args.path) == Ok(env)
      && Kept(cfg, At(s'.repo.worktree, GitPath(args.path)), env, args.encrypt)
  {
    hide Step, GetDocument, VersionFor, Stored, Gives, Given, Kept, Returned;
    var args := op.args;
    AcknowledgedApply(cfg, s, op, s', res);
    AppliedIsServed(cfg, s, op, s', res);
    var file := Seen(s.repo, GitPath(args.path), op.faults.unreadable);
    VersionOutcome(cfg, file, args.expected);
    StoredDocument(cfg, args, VersionFor(cfg, file, args.expected).value, op.nonce);
  }

  // An Apply is a conflict exactly when its client expects another version, and then changes
  // nothing.
  lemma ApplyConflicts(cfg: Config, s: State, op: Op, s': State, res: Result<Option<Envelope>>)
    requires Step(cfg, s, op, s', res) && op.ApplyOp?
    ensures res == Err(Conflict) <==>
            Stale(cfg.codec, if op.faults.unreadable then None else At(s.repo.worktree, GitPath(op.args.path)),
                  op.args.expected)
    ensures res == Err(Conflict) ==> s' == s
  {
    hide ApplyRepo, VersionFor, Stale, Refreshed, Returned, Stored;
    ApplyOutcome(cfg, s.repo, op.args, op.nonce, op.faults);
    VersionOutcome(cfg, Seen(s.repo, GitPath(op.args.path), op.faults.unreadable), op.args.expected);
  }

  // A Delete finds nothing exactly when it can read no file, and is a conflict exactly when its
  // client expects another version than the file has.
  lemma DeleteConflicts(cfg: Config, s: State, op: Op, s': State, res: Result<Option<Envelope>>)
    requires Step(cfg, s, op, s', res) && op.DeleteOp?
    ensures
      var file := if op.faults.unreadable then None else At(s.repo.worktree, GitPath(op.path));
      && (res == Err(NotFound) <==> file == None)
      && (res == Err(Conflict) <==> file.Some? && Stale(cfg.codec, file, op.expected))
      && (res.Err? && res.error in {NotFound, Conflict} ==> s' == s)
  {
    hide DeleteRepo, VersionFor, Stale, Refreshed;
    DeleteOutcome(cfg, s.repo, op.path, op.expected, op.faults);
    VersionOutcome(cfg, At(s.repo.worktree, GitPath(op.path)), op.expected);
  }

  // Where an Apply gets to once its file is written, and what it leaves there.
  lemma PublishOutcome(cfg: Config, written: Repo, p: string, f: Faults)
    requires p in written.worktree
    ensures
      var (r', res) := PublishRepo(cfg, written, p, f);
      var staged := written.staged[p := written.worktree[p]];
      var toAdd := cfg.useSSH || !f.pat;
      var toCommit := toAdd && f.stage.Works?;
      var news := staged != Head(written);
      var commits := toCommit && news && !f.commit.FailsBefore?;
      var local := if commits then written.local + [Commit(f.stamp, staged)] else written.local;
      var nothing := !news && !f.commit.FailsBefore? && written.worktree == staged;
      var accepted := toCommit && (if news then f.commit.Works? else nothing) && written.remote <= local;
      && r'.worktree == written.worktree
      && r'.staged == (if toAdd && !f.stage.FailsBefore? then staged else written.staged)
      && r'.local == local
      && r'.remote == (if accepted && !f.push.FailsBefore? then local else written.remote)
      && (if accepted && f.push.Works? then res == Ok(()) else res.Err? && res.error.Failed?)
  {
    hide MakeCommit, Push;
    var added := Add(written, p, f.stage).repo;
    CommitOutcome(added, f.stamp, f.commit);
    PushOutcome(MakeCommit(added, f.stamp, f.commit).repo, f.push);
  }

  lemma CommitOutcome(r: Repo, stamp: nat, f: Fault)
    ensures
      var c := MakeCommit(r, stamp, f);
      var news := r.staged != Tip(r.local);
      && c.repo == (if news && !f.FailsBefore? then r.(local := r.local + [Commit(stamp, r.staged)]) else r)
      && (c.ok <==> news && f.Works?)
      && (c.said <==> !news && !f.FailsBefore? && r.worktree == r.staged)
  {
  }

  lemma PushOutcome(r: Repo, f: Fault)
    ensures
      var pushed := Push(r, f);
      && pushed.repo == (if r.remote <= r.local && !f.FailsBefore? then r.(remote := r.local) else r)
      && (pushed.ok <==> r.remote <= r.local && f.Works?)
  {
  }

  // An Apply whose version check fails, or which cannot write, changes nothing; any other
  // writes its file and goes on as above.
  lemma ApplyOutcome(cfg: Config, r: Repo, args: ApplyArgs, nonce: Nonce, f: Faults)
    ensures
      var (r', res) := ApplyRepo(cfg, r, args, nonce, f);
      var p := GitPath(args.path);
      var version := VersionFor(cfg, if f.unreadable then None else At(r.worktree, p), args.expected);
      if version.Err? then r' == r && res == Err(version.error)
      else if f.prepare then r' == r && res.Err? && res.error.Failed?
      else
        var raw := Marshal(cfg.codec, Stored(cfg, args, version.value, nonce));
        var (published, done) := PublishRepo(cfg, r.(worktree := r.worktree[p := raw]), p, f);
        && r' == published
        && (if done.Ok? then res == Ok(Returned(args, version.value)) else res.Err? && res.error.Failed?)
  {
    hide VersionFor, Stored, Returned, PublishRepo;
    var p := GitPath(args.path);
    var version := VersionFor(cfg, Seen(r, p, f.unreadable), args.expected);
    if version.Ok? { PublishOutcome(cfg, Written(cfg, r, args, version.value, nonce), p, f); }
  }

  // ---------- Delete ----------

  // A Delete does something only to a file that is there, says the expected version, and is as
  // in HEAD in the worktree and the staging area: it never takes away what no commit holds.
  lemma DeleteOutcome(cfg: Config, r: Repo, path: string, expected: int, f: Faults)
    ensures
      var (r', res) := DeleteRepo(cfg, r, path, expected, f);
      var p := GitPath(path);
      var version := VersionFor(cfg, At(r.worktree, p), expected);
      if f.unreadable || p !in r.worktree then r' == r && res == Err(NotFound)
      else if version.Err? then r' == r && res == Err(version.error)
      else
        var toRemove := (cfg.useSSH || !f.pat) && CleanAt(r, p);
        var toCommit := toRemove && f.stage.Works?;
        var commits := toCommit && !f.commit.FailsBefore?;
        var local := if commits then r.local + [Commit(f.stamp, r.staged - {p})] else r.local;
        var accepted := toCommit && f.commit.Works? && r.remote <= local;
        && r'.worktree == (if toRemove && !f.stage.FailsBefore? then r.worktree - {p} else r.worktree)
        && r'.staged == (if toRemove && !f.stage.FailsBefore? then r.staged - {p} else r.staged)
        && r'.local == local
        && r'.remote == (if accepted && !f.push.FailsBefore? then local else r.remote)
        && (if accepted && f.push.Works? then res == Ok(()) else res.Err? && res.error.Failed?)
  {
    hide VersionFor, ParseEnvelope;
    var p := GitPath(path);
    if !f.unreadable && p in r.worktree { DeleteErrors(cfg, r, path, expected, f); }
    if Removable(r, p) { assert p in Head(r) && p !in r.staged - {p}; }
  }

  lemma DeleteErrors(cfg: Config, r: Repo, path: string, expected: int, f: Faults)
    requires !f.unreadable && GitPath(path) in r.worktree
    ensures
      var version := VersionFor(cfg, At(r.worktree, GitPath(path)), expected);
      var existing := ParseEnvelope(cfg.codec, r.worktree[GitPath(path)]);
      && (existing.Err? ==> version == Err(existing.error))
      && (existing.Ok? ==>
            if expected > 0 && existing.value.metadata.version != expected then version == Err(Conflict)
            else version.Ok?)
  {
  }

  // ---------- Poll ----------

  // The remote's change of p meets a file that is neither as in HEAD nor staged as there.
  predicate Blocks(r: Repo, p: string) {
    && At(Head(r), p) != At(Tip(r.remote), p)
    && !CleanAt(r, p) && At(r.staged, p) != At(Tip(r.remote), p)
  }

  // A Poll moves the branch to the remote's tip if it is ahead and no file blocks it, and then
  // exactly the files that differ between the two.
  lemma PollOutcome(cfg: Config, r: Repo, pat: bool, fetch: bool, merge: Fault)
    ensures
      var (r', res) := PollRepo(cfg, r, pat, fetch, merge);
      var theirs := Tip(r.remote);
      var toMerge := (cfg.useSSH || !pat) && !fetch;
      var merges := toMerge && r.local < r.remote && forall p :: !Blocks(r, p);
      var moved := merges && !merge.FailsBefore?;
      && r'.remote == r.remote && r'.local == (if moved then r.remote else r.local)
      && (forall p :: At(r'.worktree, p) ==
            if moved && At(Head(r), p) != At(theirs, p) && At(r.staged, p) == At(Head(r), p)
            then At(theirs, p) else At(r.worktree, p))
      && (forall p :: At(r'.staged, p) ==
            if moved && At(Head(r), p) != At(theirs, p) then At(theirs, p) else At(r.staged, p))
      && (res.Ok? <==> toMerge && (if r.remote <= r.local then !merge.FailsBefore? else merges && merge.Works?))
      && (res.Err? ==> res.error.Failed?)
  {
    BlocksMerge(r);
    assert r.local <= r.remote && r.remote != r.local ==> r.local < r.remote;
    hide Mergeable, Blocks;
  }

  lemma BlocksMerge(r: Repo)
    ensures Mergeable(r, Tip(r.remote)) <==> forall p :: !Blocks(r, p)
    ensures forall p :: p in Changed(Head(r), Tip(r.remote)) <==> At(Head(r), p) != At(Tip(r.remote), p)
  {
    forall p ensures p in Changed(Head(r), Tip(r.remote)) <==> At(Head(r), p) != At(Tip(r.remote), p) {
    }
    forall p ensures Blocks(r, p) <==>
      p in Changed(Head(r), Tip(r.remote))
      && !(At(r.staged, p) == At(Head(r), p) && At(r.worktree, p) == At(r.staged, p))
      && At(r.staged, p) != At(Tip(r.remote), p)
    {
    }
  }

  // So it overwrites or drops no file that differs from HEAD.
  lemma PollKeepsDirtyFiles(cfg: Config, r: Repo, pat: bool, fetch: bool, merge: Fault, p: string)
    ensures
      var r' := PollRepo(cfg, r, pat, fetch, merge).0;
      At(r'.worktree, p) != At(r.worktree, p) || At(r'.staged, p) != At(r.staged, p) ==> CleanAt(r, p)
  {
    hide PollRepo;
    PollOutcome(cfg, r, pat, fetch, merge);
    assert Blocks(r, p) || !Blocks(r, p);
  }

  // ---------- Reading ----------

  // A read gives what the file holds, opened if it is encrypted.
  lemma ReadOutcome(cfg: Config, r: Repo, path: string)
    ensures
      var file, res := At(r.worktree, GitPath(path)), GetDocument(cfg, r, path);
      && (res == Err(NotFound) <==> file.None?)
      && (res == Err(Malformed) <==> file.Some? && forall e :: !FileHolds(cfg.codec, file.value, e))
      && (forall env :: res == Ok(env) <==>
            file.Some? && !env.metadata.encrypted && exists e ::
              && FileHolds(cfg.codec, file.value, e)
              && env == e.(document := env.document, metadata := e.metadata.(encrypted := false))
              && (if e.metadata.encrypted then Decrypted(cfg.aead, cfg.keys, e.document) == Ok(env.document)
                  else env.document == e.document))
      && (res.Err? ==> res.error in {NotFound, Malformed, Undecryptable})
  {
    hide ParseEnvelope, FileHolds, FirstOpening;
    var file := At(r.worktree, GitPath(path));
    if file.Some? {
      forall e ensures ParseEnvelope(cfg.codec, file.value) == Ok(e) <==> FileHolds(cfg.codec, file.value, e) {
        ParsedHolds(cfg.codec, file.value, e);
      }
      ParsedHolds(cfg.codec, file.value, Envelope(1, Metadata(0, "", false, map[], ""), ""));
    }
  }
}
