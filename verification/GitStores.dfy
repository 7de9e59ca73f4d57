// pkg/store/gitstore.go: the store itself. Each method does what the source does, in its
// order, and takes one step of the state machine of Store.
module GitStores {
  import opened Wrappers
  import opened Documents
  import opened Keyrings
  import opened Text
  import opened Git
  import opened Indexes
  import opened Changes
  import opened Store
  import opened StoreSafety
  import opened StoreCache
  import opened StoreOutcomes
  import Listings

  // ---------- Publishing a difference, event by event ----------

  lemma AnnounceMore(after: Entries, added: set<string>, removed: set<string>, base: nat, events: seq<Event>, e: Event)
    requires AnnouncesPaths(after, added, removed, base, events)
    requires e.revision == base + |events| + 1 && e.path !in added && e.path !in removed
    requires e.kind.Delete? ==> e.metadata == Metadata(0, "", false, map[], "")
    requires e.kind.Upsert? ==> removed == {} && e.path in after && e.metadata == after[e.path].metadata
    ensures e.kind.Upsert? ==> AnnouncesPaths(after, added + {e.path}, removed, base, events + [e])
    ensures e.kind.Delete? ==> AnnouncesPaths(after, added, removed + {e.path}, base, events + [e])
  {
    var more := events + [e];
    forall i | 0 <= i < |events|
      ensures events[i].path in added + removed && (removed == {} ==> events[i].kind.Upsert?) {
      assert events[i] in events;
      assert events[i].path in PathsOf(events, events[i].kind);
    }
    PathsOfMore(events, e, Upsert);
    PathsOfMore(events, e, Kind.Delete);
  }

  lemma NothingAnnounced(after: Entries, base: nat)
    ensures AnnouncesPaths(after, {}, {}, base, [])
  {
  }

  lemma PathsOfMore(events: seq<Event>, e: Event, kind: Kind)
    ensures PathsOf(events + [e], kind) == PathsOf(events, kind) + (if e.kind == kind then {e.path} else {})
  {
    assert e in events + [e];
    forall p ensures p in PathsOf(events, kind) ==> p in PathsOf(events + [e], kind) {
      if p in PathsOf(events, kind) {
        var d :| d in events && d.kind == kind && d.path == p;
        assert d in events + [e];
      }
    }
  }

  function Outward(res: Result<Envelope>): Result<Option<Envelope>> {
    if res.Ok? then Ok(Some(res.value)) else Err(res.error)
  }

  function Plain(res: Result<()>): Result<Option<Envelope>> {
    if res.Ok? then Ok(None) else Err(res.error)
  }

  lemma ProjectIsKeyed(codec: Codec, tree: Tree)
    ensures KeyedByPath(Project(codec, tree))
  {
  }

  class GitStore {
    const cfg: Config
    var repo: Repo            // what git holds on disk, and the remote branch
    var index: Index
    var broker: Broker
    var servedSHA: History
    var ready: bool

    ghost predicate Valid()
      reads this, index, broker
    {
      broker.Valid() && KeyedByPath(index.entries)
    }

    ghost function Now(): State
      reads this, index, broker
    {
      State(repo, servedSHA, index.entries, broker.log)
    }

    constructor (cfg: Config, repo: Repo, broker: Broker)
      requires broker.Valid()
      ensures Valid() && !ready && fresh(index) && this.broker == broker && this.cfg == cfg
      ensures Now() == State(repo, [], map[], broker.log)
    {
      this.cfg, this.repo, this.broker := cfg, repo, broker;
      servedSHA, ready := [], false;
      index := new Index();
    }

    // The end of OpenOrClone.
    method Open(f: RefreshFault) returns (ok: bool)
      requires Valid()
      modifies this, broker
      ensures Valid() && broker == old(broker) && (index == old(index) || fresh(index))
      ensures Refreshed(cfg, old(Now()), true, f, Now(), ok)
      ensures ready == (old(ready) || ok)
    {
      ok := RefreshIndex(true, f);
      if ok { ready := true; }
    }

    // The index a reader may hold is never written again: a refresh fills a new one.
    method RefreshIndex(initial: bool, f: RefreshFault) returns (ok: bool)
      requires Valid()
      modifies this`index, this`servedSHA, broker
      ensures Valid() && (index == old(index) || fresh(index))
      ensures Refreshed(cfg, old(Now()), initial, f, Now(), ok)
    {
      hide Project, Announces, Numbered, Trim, Listings.Fills;
      if repo.local == [] || f.HeadFails? { return false; }
      var sha := repo.local;
      if sha == servedSHA && !initial { return true; }
      var before := index.Snapshot();
      index := new Index();
      if f.ObjectFails? { return false; }
      ghost var visits := FillIndex(Readable(Tip(sha), f));
      ProjectIsKeyed(cfg.codec, Readable(Tip(sha), f));
      servedSHA := sha;
      var after := index.Snapshot();
      PublishDifference(before, after);
      return true;
    }

    // `visits`: the files in the order they were visited; the index goes through the states
    // a concurrent List may see.
    method FillIndex(tree: Tree) returns (ghost visits: seq<Listings.Act>)
      requires index.entries == map[]
      modifies index
      ensures index.entries == Project(cfg.codec, tree)
      ensures Listings.Fills(cfg.codec, tree, visits, index.entries)
    {
      hide Project, ParseEnvelope, Listings.Fills;
      var files := tree.Keys;
      assert tree - files == map[] && tree.Keys - files == {};
      ProjectNothing(cfg.codec);
      visits := [];
      Listings.NothingFilled(cfg.codec, tree);
      while files != {}
        invariant files <= tree.Keys
        invariant index.entries == Project(cfg.codec, tree - files)
        invariant Listings.FillsTo(cfg.codec, tree, visits, index.entries, tree.Keys - files)
        decreases files
      {
        var name :| name in files;
        ProjectMore(cfg.codec, tree - files, name, tree[name]);
        OneFileLess(tree, files, name);
        Listings.FillsOneMore(cfg.codec, tree, visits, index.entries, tree.Keys - files, name);
        assert tree.Keys - (files - {name}) == (tree.Keys - files) + {name};
        files := files - {name};
        visits := visits + [Listings.Visit(name)];
        IndexFile(name, tree[name]);
      }
      assert tree - files == tree && tree.Keys - files == tree.Keys;
      Listings.FilledAll(cfg.codec, tree, visits, index.entries);
    }

    method IndexFile(name: string, raw: string)
      modifies index
      ensures index.entries == Listings.Filled(cfg.codec, old(index.entries), name, raw)
    {
      if !HasPrefix(name, DATA) { return; }
      var apiPath := TrimPrefix(name, DATA);
      var env := ParseEnvelope(cfg.codec, raw);
      if env.Err? { return; }
      index.Set(apiPath, DocEntry(apiPath, raw, env.value.metadata));
    }

    method PublishDifference(before: Entries, after: Entries)
      requires broker.Valid()
      modifies broker
      ensures broker.Valid() && old(broker.log) <= broker.log
      ensures Announces(before, after, |old(broker.log)|, broker.log[|old(broker.log)|..])
    {
      hide AnnouncesPaths;
      ghost var log := broker.log;
      ghost var upserts := PublishNew(before, after);
      ghost var events := PublishLost(before, after, |log|, upserts);
      assert broker.log == log + events;
    }

    method PublishNew(before: Entries, after: Entries) returns (ghost events: seq<Event>)
      requires broker.Valid()
      modifies broker
      ensures broker.Valid() && broker.log == old(broker.log) + events
      ensures AnnouncesPaths(after, after.Keys - before.Keys, {}, |old(broker.log)|, events)
    {
      hide AnnouncesPaths;
      ghost var log := broker.log;
      events := [];
      NothingAnnounced(after, |log|);
      var pending := after.Keys;
      assert (after.Keys - pending) - before.Keys == {};
      while pending != {}
        invariant pending <= after.Keys
        invariant broker.Valid() && broker.log == log + events
        invariant AnnouncesPaths(after, (after.Keys - pending) - before.Keys, {}, |log|, events)
        decreases pending
      {
        var p :| p in pending;
        ghost var added := (after.Keys - pending) - before.Keys;
        pending := pending - {p};
        assert (after.Keys - pending) - before.Keys == if p in before then added else added + {p};
        if p !in before {
          broker.Publish(Upsert, p, after[p].metadata);
          ghost var e := Event(broker.revision, Upsert, p, after[p].metadata);
          AnnounceMore(after, added, {}, |log|, events, e);
          events := events + [e];
        }
      }
      assert (after.Keys - pending) - before.Keys == after.Keys - before.Keys;
    }

    method PublishLost(before: Entries, after: Entries, ghost base: nat, ghost upserts: seq<Event>)
      returns (ghost events: seq<Event>)
      requires broker.Valid() && |broker.log| == base + |upserts|
      requires AnnouncesPaths(after, after.Keys - before.Keys, {}, base, upserts)
      modifies broker
      ensures broker.Valid() && upserts <= events && broker.log == old(broker.log) + events[|upserts|..]
      ensures Announces(before, after, base, events)
    {
      hide AnnouncesPaths;
      ghost var log := broker.log;
      events := upserts;
      var pending := before.Keys;
      assert (before.Keys - pending) - after.Keys == {};
      while pending != {}
        invariant pending <= before.Keys
        invariant broker.Valid() && upserts <= events && broker.log == log + events[|upserts|..]
        invariant AnnouncesPaths(after, after.Keys - before.Keys, (before.Keys - pending) - after.Keys, base, events)
        decreases pending
      {
        var p :| p in pending;
        ghost var removed := (before.Keys - pending) - after.Keys;
        pending := pending - {p};
        assert (before.Keys - pending) - after.Keys == if p in after then removed else removed + {p};
        if p !in after {
          broker.Publish(Kind.Delete, p, Metadata(0, "", false, map[], ""));
          ghost var e := Event(broker.revision, Kind.Delete, p, Metadata(0, "", false, map[], ""));
          AnnounceMore(after, after.Keys - before.Keys, removed, base, events, e);
          events := events + [e];
        }
      }
      assert (before.Keys - pending) - after.Keys == before.Keys - after.Keys;
    }

    method Apply(args: ApplyArgs, nonce: Nonce, f: Faults) returns (res: Result<Envelope>)
      requires Valid()
      modifies this, broker
      ensures Valid() && (index == old(index) || fresh(index)) && broker == old(broker) && ready == old(ready)
      ensures Step(cfg, old(Now()), ApplyOp(args, nonce, f), Now(), Outward(res))
      ensures res.Ok? ==> repo.local == repo.remote == servedSHA
      ensures res.Ok? && Lawful(cfg) ==>
        && GetDocument(cfg, repo, args.path) == res
        && Given(res.value, args.body, args.contentType, args.owner)
        && Kept(cfg, At(repo.worktree, GitPath(args.path)), res.value, args.encrypt)
    {
      hide Step, GetDocument, Given, Kept, Gives;
      ghost var s := Now();
      res := ApplyLocked(args, nonce, f);
      if res.Ok? {
        AcknowledgedApply(cfg, s, ApplyOp(args, nonce, f), Now(), Outward(res));
        if Lawful(cfg) { AppliedDocument(cfg, s, ApplyOp(args, nonce, f), Now(), Outward(res)); }
      }
    }

    method ApplyLocked(args: ApplyArgs, nonce: Nonce, f: Faults) returns (res: Result<Envelope>)
      requires Valid()
      modifies this, broker
      ensures Valid() && (index == old(index) || fresh(index)) && broker == old(broker) && ready == old(ready)
      ensures Step(cfg, old(Now()), ApplyOp(args, nonce, f), Now(), Outward(res))
    {
      hide Refreshed, GetDocument, PublishRepo, VersionFor, Marshal, ParseEnvelope, Encrypt, MakeCommit, Push;
      ghost var s := Now();
      var p := GitPath(args.path);
      var next := NextVersion(p, args.expected, f.unreadable);
      if next.Err? { return Err(next.error); }
      var version := next.value;
      if f.prepare { return Err(Failed("write")); }
      var contentType := args.contentType;
      if contentType == "" { contentType := "application/yaml"; }
      var docBody := args.body;
      if args.encrypt { docBody := Encrypt(cfg.aead, cfg.keys, nonce, args.body); }
      var env := Envelope(SCHEMA_VERSION, Metadata(version, contentType, args.encrypt, map[], args.owner), docBody);
      assert env == Stored(cfg, args, version, nonce);
      repo := repo.(worktree := repo.worktree[p := Marshal(cfg.codec, env)]);
      var published := CommitAndPush(p, f);
      if published.Err? { return Err(published.error); }
      var refreshed := RefreshIndex(false, f.refresh);
      if !refreshed { return Err(Failed("refresh")); }
      var out := env;
      if args.encrypt {
        out := out.(document := args.body, metadata := out.metadata.(encrypted := false));
      }
      res := Ok(out);
    }

    method NextVersion(p: string, expected: int, unreadable: bool) returns (res: Result<int>)
      ensures res == VersionFor(cfg, Seen(repo, p, unreadable), expected)
    {
      var version := 1;
      var raw := Seen(repo, p, unreadable);
      if raw.Some? {
        var existing := ParseEnvelope(cfg.codec, raw.value);
        if existing.Err? { return Err(existing.error); }
        if expected > 0 && existing.value.metadata.version != expected { return Err(Conflict); }
        version := Increment(existing.value.metadata.version);
      } else if expected > 1 {
        return Err(Conflict);
      }
      res := Ok(version);
    }

    // The git half of Apply.
    method CommitAndPush(p: string, f: Faults) returns (res: Result<()>)
      requires p in repo.worktree
      modifies this`repo
      ensures (repo, res) == PublishRepo(cfg, old(repo), p, f)
    {
      if !cfg.useSSH {
        if f.pat { return Err(Failed("pat")); }
      }
      var added := Add(repo, p, f.stage);
      repo := added.repo;
      if !added.ok { return Err(Failed("git add")); }
      var committed := MakeCommit(repo, f.stamp, f.commit);
      repo := committed.repo;
      if !committed.ok {
        if !committed.said { return Err(Failed("git commit")); }
      }
      var pushed := Push(repo, f.push);
      repo := pushed.repo;
      if !pushed.ok { return Err(Failed("git push")); }
      res := Ok(());
    }

    method Delete(path: string, expected: int, f: Faults) returns (res: Result<()>)
      requires Valid()
      modifies this, broker
      ensures Valid() && (index == old(index) || fresh(index)) && broker == old(broker) && ready == old(ready)
      ensures Step(cfg, old(Now()), DeleteOp(path, expected, f), Now(), Plain(res))
      ensures res.Ok? ==> repo.local == repo.remote == servedSHA
      ensures res.Ok? ==> GetDocument(cfg, repo, path) == Err(NotFound)
    {
      hide Refreshed, Remove, MakeCommit, Push, ParseEnvelope;
      ghost var s := Now();
      var p := GitPath(path);
      var raw := Seen(repo, p, f.unreadable);
      if raw.None? { return Err(NotFound); }
      var existing := ParseEnvelope(cfg.codec, raw.value);
      if existing.Err? { return Err(existing.error); }
      if expected > 0 && existing.value.metadata.version != expected { return Err(Conflict); }
      if !cfg.useSSH {
        if f.pat { return Err(Failed("pat")); }
      }
      var removed := Remove(repo, p, f.stage);
      repo := removed.repo;
      if !removed.ok { return Err(Failed("git rm")); }
      var committed := MakeCommit(repo, f.stamp, f.commit);
      repo := committed.repo;
      if !committed.ok { return Err(Failed("git commit")); }
      var pushed := Push(repo, f.push);
      repo := pushed.repo;
      if !pushed.ok { return Err(Failed("git push")); }
      assert (repo, Ok(())) == DeleteRepo(cfg, s.repo, path, expected, f);
      var refreshed := RefreshIndex(false, f.refresh);
      if !refreshed { return Err(Failed("refresh")); }
      res := Ok(());
      AcknowledgedDelete(cfg, s, DeleteOp(path, expected, f), Now(), Plain(res));
    }

    method Poll(pat: bool, fetch: bool, merge: Fault, refresh: RefreshFault) returns (res: Result<()>)
      requires Valid()
      modifies this, broker
      ensures Valid() && (index == old(index) || fresh(index)) && broker == old(broker) && ready == old(ready)
      ensures Step(cfg, old(Now()), PollOp(pat, fetch, merge, refresh), Now(), Plain(res))
      ensures res.Ok? ==> repo.remote <= repo.local == servedSHA
    {
      hide Refreshed, Merge;
      ghost var s := Now();
      if !cfg.useSSH {
        if pat { return Err(Failed("pat")); }
      }
      if fetch { return Err(Failed("fetch")); }
      var merged := Merge(repo, repo.remote, merge);
      repo := merged.repo;
      if !merged.ok && !merged.said { return Err(Failed("merge")); }
      assert (repo, Ok(())) == PollRepo(cfg, s.repo, pat, fetch, merge);
      var refreshed := RefreshIndex(false, refresh);
      if !refreshed { return Err(Failed("refresh")); }
      res := Ok(());
      NilPollIsCaughtUp(cfg, s, PollOp(pat, fetch, merge, refresh), Now(), Plain(res));
    }

    method ReadDocument(path: string, unreadable: bool) returns (res: Result<Envelope>)
      ensures res == if !ready then Err(NotReady)
                     else if unreadable then Err(NotFound)
                     else GetDocument(cfg, repo, path)
    {
      if !ready { return Err(NotReady); }
      var raw := Seen(repo, GitPath(path), unreadable);
      if raw.None? { return Err(NotFound); }
      var parsed := ParseEnvelope(cfg.codec, raw.value);
      if parsed.Err? { return parsed; }
      var env := parsed.value;
      if env.metadata.encrypted {
        var plain := Decrypt(cfg.aead, cfg.keys, env.document);
        if plain.Err? { return Err(plain.error); }
        env := env.(document := plain.value, metadata := env.metadata.(encrypted := false));
      }
      res := Ok(env);
    }

    method List(prefix: string, labelKey: string, labelVal: string) returns (out: seq<DocEntry>)
      requires Valid()
      ensures IsListing(out, index.entries, prefix, labelKey, labelVal)
    {
      out := index.List(prefix, labelKey, labelVal);
    }
  }
}
