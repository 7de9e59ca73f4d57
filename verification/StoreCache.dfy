// The cached index and the event log against the tree they stand for.
module StoreCache {
  import opened Wrappers
  import opened Documents
  import opened Text
  import opened Git
  import opened Indexes
  import opened Changes
  import opened Store
  import opened StoreSafety

  // ---------- Replaying the log ----------

  // The paths a reader of the whole log believes in.
  ghost function Live(log: seq<Event>): set<string> {
    if log == [] then {}
    else
      var last, before := log[|log| - 1], Live(log[..|log| - 1]);
      if last.kind.Upsert? then before + {last.path} else before - {last.path}
  }

  ghost predicate Alternates(log: seq<Event>) {
    forall i :: 0 <= i < |log| ==> (log[i].kind.Upsert? <==> log[i].path !in Live(log[..i]))
  }

  ghost predicate LogOk(s: State) {
    Numbered(s.log) && Alternates(s.log) && Live(s.log) == s.index.Keys
  }

  ghost predicate CacheOk(cfg: Config, s: State) {
    s.index == Project(cfg.codec, Tip(s.served))
  }

  lemma {:induction false} LiveUnchanged(log: seq<Event>, i: nat, j: nat, p: string)
    requires i <= j <= |log| && forall k :: i <= k < j ==> log[k].path != p
    ensures p in Live(log[..i]) <==> p in Live(log[..j])
    decreases j
  {
    if i < j {
      LiveUnchanged(log, i, j - 1, p);
      assert log[..j][..j - 1] == log[..j - 1];
    }
  }

  // Per path the events go upsert, delete, upsert, and so on.
  lemma AlternationPerPath(log: seq<Event>, i: int, j: nat)
    requires Alternates(log) && -1 <= i < j < |log|
    requires i >= 0 ==> log[i].path == log[j].path
    requires forall k :: i < k < j ==> log[k].path != log[j].path
    ensures i >= 0 ==> log[i].kind != log[j].kind
    ensures i < 0 ==> log[j].kind.Upsert?
  {
    LiveUnchanged(log, i + 1, j, log[j].path);
    if i >= 0 { assert log[..i + 1][..i] == log[..i]; }
  }

  lemma EventDecides(log: seq<Event>, i: nat)
    requires i < |log|
    ensures log[i].path in Live(log[..i + 1]) <==> log[i].kind.Upsert?
  {
    assert log[..i + 1][..i] == log[..i];
  }

  // Each event of a refresh is about a path no earlier event of it touched.
  lemma AnnouncedEvent(log: seq<Event>, before: Entries, after: Entries, events: seq<Event>, n: nat)
    requires Live(log) == before.Keys && Announces(before, after, |log|, events) && n < |events|
    ensures events[n].kind.Upsert? <==> events[n].path !in Live((log + events)[..|log| + n])
    ensures events[n].kind.Upsert? <==> events[n].path in after
  {
    hide Live;
    var full, e := log + events, events[n];
    assert e.path in PathsOf(events, e.kind);
    assert full[..|log|] == log;
    LiveUnchanged(full, |log|, |log| + n, e.path);
  }

  lemma AnnouncedPath(log: seq<Event>, before: Entries, after: Entries, events: seq<Event>, p: string)
    requires Live(log) == before.Keys && Announces(before, after, |log|, events)
    ensures p in Live(log + events) <==> p in after
  {
    hide Live;
    var full := log + events;
    assert full[..|log|] == log && full[..|full|] == full;
    if n :| 0 <= n < |events| && events[n].path == p {
      assert full[|log| + n] == events[n];
      AnnouncedEvent(log, before, after, events, n);
      EventDecides(full, |log| + n);
      LiveUnchanged(full, |log| + n + 1, |full|, p);
    } else {
      assert p !in PathsOf(events, Upsert) && p !in PathsOf(events, Delete);
      LiveUnchanged(full, |log|, |full|, p);
    }
  }

  lemma AnnouncedLog(log: seq<Event>, before: Entries, after: Entries, events: seq<Event>)
    requires Numbered(log) && Alternates(log) && Live(log) == before.Keys
    requires Announces(before, after, |log|, events)
    ensures Numbered(log + events) && Alternates(log + events) && Live(log + events) == after.Keys
  {
    hide Live;
    var full := log + events;
    forall p ensures p in Live(full) <==> p in after.Keys {
      AnnouncedPath(log, before, after, events, p);
    }
    forall i | 0 <= i < |full| ensures full[i].kind.Upsert? <==> full[i].path !in Live(full[..i]) {
      if i < |log| {
        assert full[..i] == log[..i];
      } else {
        AnnouncedEvent(log, before, after, events, i - |log|);
      }
    }
  }

  // ---------- One refresh ----------

  // Whether the refresh gets as far as the objects of the commit.
  predicate Reads(s: State, initial: bool) {
    s.repo.local != [] && (s.repo.local != s.served || initial)
  }

  // Replay and alternation survive a refresh exactly unless it finds the commit unreadable
  // while the index is not empty.
  lemma RefreshKeepsLog(cfg: Config, s: State, initial: bool, f: RefreshFault, s': State, ok: bool)
    requires Refreshed(cfg, s, initial, f, s', ok) && LogOk(s)
    ensures LogOk(s') <==> !(f.ObjectFails? && Reads(s, initial) && s.index != map[])
  {
    if s'.log != s.log || s'.index != s.index {
      var events := s'.log[|s.log|..];
      assert s'.log == s.log + events;
      if !f.ObjectFails? { AnnouncedLog(s.log, s.index, s'.index, events); }
    }
  }

  predicate AllDataVisited(codec: Codec, tree: Tree, visited: set<string>) {
    forall p :: p in DataPaths(tree) && DATA + p in tree && ParseEnvelope(codec, tree[DATA + p]).Ok? ==>
      DATA + p in visited
  }

  // When the cache is the served tree after a refresh, whatever it was before. The
  // unchanged-hash early return keeps it as it is; a refresh that reads everything makes it
  // right; an unreadable commit empties it, which is right only if the tree still served
  // holds no document; and an unreadable file leaves it right if it came after them all.
  lemma RefreshDecidesCache(cfg: Config, s: State, initial: bool, f: RefreshFault, s': State, ok: bool)
    requires Refreshed(cfg, s, initial, f, s', ok)
    ensures CacheOk(cfg, s') <==>
            if !Reads(s, initial) then CacheOk(cfg, s)
            else match f
                 case AllRead => true
                 case HeadFails => CacheOk(cfg, s)
                 case ObjectFails => Project(cfg.codec, Tip(s.served)) == map[]
                 case FileFails(visited) => AllDataVisited(cfg.codec, Tip(s.repo.local), visited)
  {
    if Reads(s, initial) && f.FileFails? {
      PartialProjection(cfg.codec, Tip(s.repo.local), f);
    }
  }

  lemma PartialProjection(codec: Codec, tree: Tree, f: RefreshFault)
    requires f.FileFails?
    ensures Project(codec, Readable(tree, f)) == Project(codec, tree) <==> AllDataVisited(codec, tree, f.visited)
    ensures Project(codec, Readable(tree, f)).Keys <= Project(codec, tree).Keys
  {
    var part := Readable(tree, f);
    forall p ensures p in Project(codec, part) <==> p in Project(codec, tree) && DATA + p in f.visited {
      TrimPrefixInverse(p, DATA);
    }
    if AllDataVisited(codec, tree, f.visited) {
      assert Project(codec, part) == Project(codec, tree);
    } else {
      var p :| p in DataPaths(tree) && DATA + p in tree && ParseEnvelope(codec, tree[DATA + p]).Ok?
                && DATA + p !in f.visited;
      assert p in Project(codec, tree) && p !in Project(codec, part);
    }
  }

  // After an unreadable commit emptied the index, the next good refresh announces every
  // document again, although a reader of the log already believes in it.
  lemma EmptiedIndexIsAnnouncedAgain(cfg: Config, s: State, s': State, p: string)
    requires Refreshed(cfg, s, false, AllRead, s', true) && Reads(s, false)
    requires s.index == map[] && p in Live(s.log) && p in s'.index
    ensures !Alternates(s'.log)
  {
    var events := s'.log[|s.log|..];
    assert s'.log == s.log + events;
    assert p in PathsOf(events, Upsert);
    var n :| 0 <= n < |events| && events[n].kind == Upsert && events[n].path == p;
    AgainInLog(s.log, events, n);
  }

  lemma AgainInLog(log: seq<Event>, events: seq<Event>, n: nat)
    requires n < |events| && events[n].kind.Upsert? && events[n].path in Live(log)
    requires forall i, j :: 0 <= i < j < |events| ==> events[i].path != events[j].path
    ensures !Alternates(log + events)
  {
    hide Live;
    var full := log + events;
    assert full[..|log|] == log;
    LiveUnchanged(full, |log|, |log| + n, events[n].path);
    assert full[|log| + n] == events[n];
  }

  // ---------- What the log cannot tell ----------

  // The metadata a reader of the whole log believes in.
  ghost function Told(log: seq<Event>): map<string, Metadata> {
    if log == [] then map[]
    else
      var last, before := log[|log| - 1], Told(log[..|log| - 1]);
      if last.kind.Upsert? then before[last.path := last.metadata] else before - {last.path}
  }

  function Metas(index: Entries): map<string, Metadata> {
    map p | p in index :: index[p].metadata
  }

  function Lookup<T>(m: map<string, T>, p: string): Option<T> {
    if p in m then Some(m[p]) else None
  }

  lemma {:induction false} ToldUnchanged(log: seq<Event>, i: nat, j: nat, p: string)
    requires i <= j <= |log| && forall k :: i <= k < j ==> log[k].path != p
    ensures Lookup(Told(log[..i]), p) == Lookup(Told(log[..j]), p)
    decreases j
  {
    if i < j {
      ToldUnchanged(log, i, j - 1, p);
      assert log[..j][..j - 1] == log[..j - 1];
    }
  }

  lemma EventTells(log: seq<Event>, i: nat)
    requires i < |log|
    ensures Lookup(Told(log[..i + 1]), log[i].path) == if log[i].kind.Upsert? then Some(log[i].metadata) else None
  {
    assert log[..i + 1][..i] == log[..i];
  }

  lemma ToldAfterRefresh(log: seq<Event>, before: Entries, after: Entries, events: seq<Event>, p: string)
    requires Announces(before, after, |log|, events)
    ensures Lookup(Told(log + events), p) ==
            if p in before && p in after then Lookup(Told(log), p)
            else if p in after then Some(after[p].metadata)
            else if p in before then None
            else Lookup(Told(log), p)
  {
    hide Told;
    var full := log + events;
    assert full[..|log|] == log && full[..|full|] == full;
    if n :| 0 <= n < |events| && events[n].path == p {
      assert full[|log| + n] == events[n];
      assert p in PathsOf(events, events[n].kind);
      EventTells(full, |log| + n);
      ToldUnchanged(full, |log| + n + 1, |full|, p);
    } else {
      assert p !in PathsOf(events, Upsert) && p !in PathsOf(events, Delete);
      ToldUnchanged(full, |log|, |full|, p);
    }
  }

  // What a refresh tells: each path that came into the index once, with its metadata, and then
  // each path that left it once, without any.
  lemma RefreshTells(cfg: Config, s: State, initial: bool, f: RefreshFault, s': State, p: string)
    requires Refreshed(cfg, s, initial, f, s', true)
    ensures s.log <= s'.log
    ensures
      var came, left := p in s'.index && p !in s.index, p in s.index && p !in s'.index;
      && (forall i :: |s.log| <= i < |s'.log| && s'.log[i].path == p ==>
            s'.log[i] == if came then Event(i + 1, Upsert, p, s'.index[p].metadata)
                         else Event(i + 1, Kind.Delete, p, Metadata(0, "", false, map[], "")))
      && (came || left <==> exists i :: |s.log| <= i < |s'.log| && s'.log[i].path == p)
    ensures forall i, j :: |s.log| <= i < j < |s'.log| ==>
      && s'.log[i].path != s'.log[j].path
      && (s'.log[i].path in s.index ==> s'.log[j].path in s.index)
  {
    hide Project;
    if s' != s {
      EventsTell(s.index, s'.index, s.log, s'.log[|s.log|..]);
      assert s'.log == s.log + s'.log[|s.log|..];
    }
  }

  lemma EventsTell(before: Entries, after: Entries, log: seq<Event>, events: seq<Event>)
    requires Announces(before, after, |log|, events)
    ensures
      var all := log + events;
      && (forall i :: |log| <= i < |all| ==>
            var p := all[i].path;
            if p in after && p !in before then all[i] == Event(i + 1, Upsert, p, after[p].metadata)
            else p in before && p !in after
                 && all[i] == Event(i + 1, Kind.Delete, p, Metadata(0, "", false, map[], "")))
      && (forall p :: (p in after) != (p in before) ==> exists i :: |log| <= i < |all| && all[i].path == p)
      && (forall i, j :: |log| <= i < j < |all| ==>
            && all[i].path != all[j].path && (all[i].path in before ==> all[j].path in before))
  {
    var all := log + events;
    forall i | |log| <= i < |all|
      ensures all[i] == events[i - |log|] && all[i].path in PathsOf(events, all[i].kind) {
      assert events[i - |log|] in events;
    }
    forall p | (p in after) != (p in before) ensures exists i :: |log| <= i < |all| && all[i].path == p {
      var kind := if p in after then Upsert else Kind.Delete;
      assert p in PathsOf(events, kind);
      var k :| 0 <= k < |events| && events[k].kind == kind && events[k].path == p;
      assert all[|log| + k] == events[k];
    }
  }

  // When replaying the log recovers the metadata after a refresh, whatever it told before. An
  // update of a path that stays publishes nothing, so a replay that was right stays so exactly
  // as long as no such path changes its metadata and the index is not emptied.
  lemma UpdatesAreSilent(cfg: Config, s: State, initial: bool, f: RefreshFault, s': State, ok: bool)
    requires Refreshed(cfg, s, initial, f, s', ok)
    ensures
      var after := Project(cfg.codec, Readable(Tip(s.repo.local), f));
      && (Told(s'.log) == Metas(s'.index) <==>
            if !Reads(s, initial) || f.HeadFails? then Told(s.log) == Metas(s.index)
            else if f.ObjectFails? then Told(s.log) == map[]
            else forall p :: (p in s.index && p in after ==> Lookup(Told(s.log), p) == Some(after[p].metadata))
                          && (p !in s.index && p !in after ==> p !in Told(s.log)))
      && (Told(s.log) == Metas(s.index) ==>
            (Told(s'.log) == Metas(s'.index) <==>
               || !Reads(s, initial) || f.HeadFails?
               || (if f.ObjectFails? then s.index == map[]
                   else forall p :: p in s.index && p in after ==> after[p].metadata == s.index[p].metadata)))
  {
    hide Told, Project;
    SameKeys(s.index);
    if Reads(s, initial) && ok {
      var events := s'.log[|s.log|..];
      assert s'.log == s.log + events;
      forall p ensures Lookup(Told(s'.log), p) == Lookup(Metas(s'.index), p) <==>
        && (p in s.index && p in s'.index ==> Lookup(Told(s.log), p) == Some(s'.index[p].metadata))
        && (p !in s.index && p !in s'.index ==> p !in Told(s.log))
      {
        ToldAfterRefresh(s.log, s.index, s'.index, events, p);
      }
      SameLookups(Told(s'.log), Metas(s'.index));
    }
  }

  lemma SameKeys(index: Entries)
    ensures Metas(index) == map[] <==> index == map[]
  {
    assert Metas(index).Keys == index.Keys;
  }

  lemma SameLookups<T>(a: map<string, T>, b: map<string, T>)
    ensures a == b <==> forall p :: Lookup(a, p) == Lookup(b, p)
  {
    if forall p :: Lookup(a, p) == Lookup(b, p) {
      forall p ensures p in a <==> p in b {
        assert Lookup(a, p) == Lookup(b, p);
      }
      forall p | p in a ensures a[p] == b[p] {
        assert Lookup(a, p) == Lookup(b, p);
      }
    }
  }

  // ---------- Runs ----------

  // The operation got past its git half, so it refreshes this state.
  ghost predicate Refreshes(cfg: Config, s: State, op: Op) {
    !op.ExternalOp? && RepoStep(cfg, s.repo, op).1.Ok?
  }

  ghost function BeforeRefresh(cfg: Config, s: State, op: Op): State {
    s.(repo := RepoStep(cfg, s.repo, op).0)
  }

  lemma StepRefreshes(cfg: Config, s: State, op: Op, s': State, res: Result<Option<Envelope>>)
    requires Step(cfg, s, op, s', res)
    ensures if Refreshes(cfg, s, op) then Refreshed(cfg, BeforeRefresh(cfg, s, op), false, RefreshOf(op), s', res.Ok?)
            else s' == BeforeRefresh(cfg, s, op)
  {
    hide RepoStep, Refreshed;
  }

  // Opening a store always makes a log that replays to the index, metadata included, and a cache equal to HEAD's
  // tree exactly when no parseable document comes after a file that could not be read.
  lemma OpenedStore(cfg: Config, s: State, f: RefreshFault)
    requires Opened(cfg, s, f)
    ensures LogOk(s) && Told(s.log) == Metas(s.index) && s.served == s.repo.local != []
    ensures CacheOk(cfg, s) <==> f.FileFails? ==> AllDataVisited(cfg.codec, Tip(s.repo.local), f.visited)
  {
    var blank := State(s.repo, [], map[], []);
    RefreshKeepsLog(cfg, blank, true, f, s, true);
    RefreshDecidesCache(cfg, blank, true, f, s, true);
    UpdatesAreSilent(cfg, blank, true, f, s, true);
  }

  // The refresh of this operation finds the commit unreadable while the index is not empty.
  ghost predicate BreaksLog(cfg: Config, s: State, op: Op) {
    && Refreshes(cfg, s, op) && RefreshOf(op).ObjectFails?
    && Reads(BeforeRefresh(cfg, s, op), false) && s.index != map[]
  }

  // The log can no longer be repaired: it does not alternate, or it has a live path that is
  // missing from the index and will be announced again or never taken back.
  ghost predicate Broken(s: State) {
    !Alternates(s.log) || exists p :: p in Live(s.log) && p !in s.index
  }

  lemma PrefixAlternates(log: seq<Event>, events: seq<Event>)
    requires Alternates(log + events)
    ensures Alternates(log)
  {
    hide Live;
    var full := log + events;
    forall i | 0 <= i < |log| ensures log[i].kind.Upsert? <==> log[i].path !in Live(log[..i]) {
      assert full[i] == log[i] && full[..i] == log[..i];
    }
  }

  lemma StrayPathStays(log: seq<Event>, before: Entries, after: Entries, events: seq<Event>, p: string)
    requires Announces(before, after, |log|, events) && p in Live(log) && p !in before
    ensures !Alternates(log + events) || (p in Live(log + events) && p !in after)
  {
    hide Live, Alternates;
    if p in after {
      assert p in PathsOf(events, Upsert);
      var n :| 0 <= n < |events| && events[n].kind == Upsert && events[n].path == p;
      AgainInLog(log, events, n);
    } else {
      var full := log + events;
      assert full[..|log|] == log && full[..|full|] == full;
      assert p !in PathsOf(events, Upsert) && p !in PathsOf(events, Delete);
      forall k | |log| <= k < |full| ensures full[k].path != p {
        assert full[k] == events[k - |log|] && events[k - |log|] in events;
      }
      LiveUnchanged(full, |log|, |full|, p);
    }
  }

  lemma BrokenStays(cfg: Config, s: State, initial: bool, f: RefreshFault, s': State, ok: bool)
    requires Refreshed(cfg, s, initial, f, s', ok) && Broken(s)
    ensures Broken(s')
  {
    hide Live, Alternates, Project, Announces;
    if s'.log != s.log || s'.index != s.index {
      if !f.ObjectFails? {
        var events := s'.log[|s.log|..];
        assert s'.log == s.log + events;
        if Alternates(s'.log) {
          PrefixAlternates(s.log, events);
          var p :| p in Live(s.log) && p !in s.index;
          StrayPathStays(s.log, s.index, s'.index, events, p);
        }
      }
    }
  }

  lemma BreakingBreaks(cfg: Config, s: State, op: Op, s': State, res: Result<Option<Envelope>>)
    requires Step(cfg, s, op, s', res) && LogOk(s) && BreaksLog(cfg, s, op)
    ensures Broken(s')
  {
    hide RepoStep, Live, Alternates;
    StepRefreshes(cfg, s, op, s', res);
    var p :| p in s.index;
    assert p in Live(s'.log) && p !in s'.index;
  }

  // Replaying the whole log yields the key set of the index, with the events of each path
  // alternating, for any order the maps are walked in: at every point of a run exactly until
  // a refresh finds its commit unreadable while the index is not empty, and never after.
  lemma {:induction false} LogReplaysToIndex(cfg: Config, run: Run, n: nat)
    requires IsRun(cfg, run) && n < |run.states| && LogOk(run.states[0])
    ensures LogOk(run.states[n]) <==> forall i :: 0 <= i < n ==> !BreaksLog(cfg, run.states[i], run.ops[i])
    ensures !LogOk(run.states[n]) ==> Broken(run.states[n])
  {
    hide RepoStep, Refreshed, Alternates, Live, Numbered, BreaksLog;
    if n > 0 {
      LogReplaysToIndex(cfg, run, n - 1);
      LogStep(cfg, run.states[n - 1], run.ops[n - 1], run.states[n], run.results[n - 1]);
    }
  }

  lemma LogStep(cfg: Config, s: State, op: Op, s': State, res: Result<Option<Envelope>>)
    requires Step(cfg, s, op, s', res)
    ensures LogOk(s) ==> (LogOk(s') <==> !BreaksLog(cfg, s, op))
    ensures LogOk(s) && BreaksLog(cfg, s, op) ==> Broken(s')
    ensures Broken(s) ==> Broken(s') && !LogOk(s')
  {
    hide RepoStep, Refreshed, Alternates, Live, Numbered;
    StepRefreshes(cfg, s, op, s', res);
    var mid := BeforeRefresh(cfg, s, op);
    if Refreshes(cfg, s, op) {
      if LogOk(s) {
        RefreshKeepsLog(cfg, mid, false, RefreshOf(op), s', res.Ok?);
        if BreaksLog(cfg, s, op) { BreakingBreaks(cfg, s, op, s', res); }
      }
      if Broken(s) { BrokenStays(cfg, mid, false, RefreshOf(op), s', res.Ok?); }
    }
  }

  // The first of the states up to n from which on p has been in the index, or out of it.
  ghost function PresenceSince(run: Run, n: nat, p: string): (m: nat)
    requires n < |run.states|
    ensures m <= n && forall i :: m <= i <= n ==> (p in run.states[i].index <==> p in run.states[n].index)
    ensures m > 0 ==> (p in run.states[m - 1].index <==> p !in run.states[n].index)
  {
    if n == 0 || (p in run.states[n - 1].index <==> p !in run.states[n].index) then n else PresenceSince(run, n - 1, p)
  }

  // p is out of the index because a refresh found its commit unreadable.
  ghost predicate Forgotten(cfg: Config, run: Run, n: nat, p: string)
    requires IsRun(cfg, run) && n < |run.states|
  {
    var m := PresenceSince(run, n, p);
    p !in run.states[n].index && m > 0 && BreaksLog(cfg, run.states[m - 1], run.ops[m - 1])
  }

  lemma StepTells(cfg: Config, s: State, op: Op, s': State, res: Result<Option<Envelope>>, p: string)
    requires Step(cfg, s, op, s', res)
    ensures Lookup(Told(s'.log), p) ==
            if p in s.index <==> p in s'.index then Lookup(Told(s.log), p)
            else if p in s'.index then Some(s'.index[p].metadata)
            else if BreaksLog(cfg, s, op) then Lookup(Told(s.log), p)
            else None
  {
    hide RepoStep, Told, Project, Announces;
    StepRefreshes(cfg, s, op, s', res);
    if s'.log != s.log || s'.index != s.index {
      if !RefreshOf(op).ObjectFails? {
        assert s'.log == s.log + s'.log[|s.log|..];
        ToldAfterRefresh(s.log, s.index, s'.index, s'.log[|s.log|..], p);
      }
    }
  }

  // The metadata a reader of the log believes in, in any run: that of the moment the path last
  // entered the index, even after an unreadable commit took it out.
  lemma {:induction false} LogTellsEntry(cfg: Config, run: Run, n: nat, p: string)
    requires IsRun(cfg, run) && n < |run.states| && Told(run.states[0].log) == Metas(run.states[0].index)
    ensures
      var m := PresenceSince(run, n, p);
      Lookup(Told(run.states[n].log), p) ==
      if p in run.states[n].index then Some(run.states[m].index[p].metadata)
      else if Forgotten(cfg, run, n, p) then Some(run.states[PresenceSince(run, m - 1, p)].index[p].metadata)
      else None
  {
    hide Step, Told, BreaksLog;
    if n > 0 {
      LogTellsEntry(cfg, run, n - 1, p);
      StepTells(cfg, run.states[n - 1], run.ops[n - 1], run.states[n], run.results[n - 1], p);
    }
  }

  // Replaying the log recovers the index's metadata at a point of a run exactly when no path
  // of the index has other metadata than when it last entered, and an unreadable commit took
  // out no path that has not come back.
  lemma LogTellsMetadata(cfg: Config, run: Run, n: nat)
    requires IsRun(cfg, run) && n < |run.states| && Told(run.states[0].log) == Metas(run.states[0].index)
    ensures Told(run.states[n].log) == Metas(run.states[n].index) <==>
            forall p ::
              && (p in run.states[n].index ==>
                    run.states[n].index[p].metadata == run.states[PresenceSince(run, n, p)].index[p].metadata)
              && !Forgotten(cfg, run, n, p)
  {
    hide Step, Told, BreaksLog;
    var s := run.states[n];
    forall p ensures Lookup(Told(s.log), p) == Lookup(Metas(s.index), p) <==>
      && (p in s.index ==> s.index[p].metadata == run.states[PresenceSince(run, n, p)].index[p].metadata)
      && !Forgotten(cfg, run, n, p)
    {
      LogTellsEntry(cfg, run, n, p);
    }
    SameLookups(Told(s.log), Metas(s.index));
  }

  // The refresh of this operation reads the objects of a commit.
  ghost predicate ReadsObjects(cfg: Config, s: State, op: Op) {
    Refreshes(cfg, s, op) && !RefreshOf(op).HeadFails? && Reads(BeforeRefresh(cfg, s, op), false)
  }

  // The last of the first n operations whose refresh read objects.
  ghost function LastReading(cfg: Config, run: Run, n: nat): (k: int)
    requires IsRun(cfg, run) && n < |run.states|
    ensures -1 <= k < n
    ensures k >= 0 ==> ReadsObjects(cfg, run.states[k], run.ops[k])
    ensures forall i :: k < i < n ==> !ReadsObjects(cfg, run.states[i], run.ops[i])
  {
    if n == 0 then -1
    else if ReadsObjects(cfg, run.states[n - 1], run.ops[n - 1]) then n - 1
    else LastReading(cfg, run, n - 1)
  }

  // At every release of the lock the index is the projection of the served tree exactly when
  // the last refresh that read objects read all documents (or found a commit unreadable while
  // the tree still served holds none), and, without one, when it was so at the start.
  lemma {:induction false} CacheIsServedTree(cfg: Config, run: Run, n: nat)
    requires IsRun(cfg, run) && n < |run.states|
    ensures
      var k := LastReading(cfg, run, n);
      CacheOk(cfg, run.states[n]) <==>
        if k < 0 then CacheOk(cfg, run.states[0])
        else match RefreshOf(run.ops[k])
             case ObjectFails => Project(cfg.codec, Tip(run.states[k].served)) == map[]
             case FileFails(visited) =>
               AllDataVisited(cfg.codec, Tip(run.states[k + 1].repo.local), visited)
             case _ => true
  {
    hide RepoStep, Project, AllDataVisited, Announces;
    if n > 0 {
      var s, op, s', res := run.states[n - 1], run.ops[n - 1], run.states[n], run.results[n - 1];
      CacheIsServedTree(cfg, run, n - 1);
      StepRefreshes(cfg, s, op, s', res);
      StepRepo(cfg, s, op, s', res);
      if Refreshes(cfg, s, op) {
        RefreshDecidesCache(cfg, BeforeRefresh(cfg, s, op), false, RefreshOf(op), s', res.Ok?);
      }
    }
  }

  // ---------- Building an index, file by file ----------

  lemma ProjectMore(codec: Codec, tree: Tree, name: string, raw: string)
    requires name !in tree
    ensures
      var env := ParseEnvelope(codec, raw);
      var p := TrimPrefix(name, DATA);
      Project(codec, tree[name := raw]) ==
      if HasPrefix(name, DATA) && env.Ok? then Project(codec, tree)[p := DocEntry(p, raw, env.value.metadata)]
      else Project(codec, tree)
  {
    hide Project, ParseEnvelope;
    var more, env, p := tree[name := raw], ParseEnvelope(codec, raw), TrimPrefix(name, DATA);
    var expected :=
      if HasPrefix(name, DATA) && env.Ok? then Project(codec, tree)[p := DocEntry(p, raw, env.value.metadata)]
      else Project(codec, tree);
    TrimPrefixInverse(name, DATA);
    forall q ensures (q in Project(codec, more) <==> q in expected) &&
                     (q in expected ==> Project(codec, more)[q] == expected[q])
    {
      TrimPrefixInverse(q, DATA);
      ProjectedPath(codec, tree, q);
      ProjectedPath(codec, more, q);
    }
  }

  lemma ProjectNothing(codec: Codec)
    ensures Project(codec, map[]) == map[]
  {
  }

  lemma OneFileLess(tree: Tree, files: set<string>, name: string)
    requires files <= tree.Keys && name in files
    ensures tree - (files - {name}) == (tree - files)[name := tree[name]]
  {
  }

  // ---------- Listing against reading ----------

  // The index describes the document: same version, content type, owner and labels.
  predicate Describes(e: DocEntry, env: Envelope) {
    env.metadata == e.metadata.(encrypted := false)
  }

  lemma ProjectedPath(codec: Codec, tree: Tree, p: string)
    ensures p in Project(codec, tree) <==> DATA + p in tree && ParseEnvelope(codec, tree[DATA + p]).Ok?
    ensures p in Project(codec, tree) ==>
      Project(codec, tree)[p] == DocEntry(p, tree[DATA + p], ParseEnvelope(codec, tree[DATA + p]).value.metadata)
  {
    TrimPrefixInverse(p, DATA);
    if DATA + p in tree { assert TrimPrefix(DATA + p, DATA) in DataPaths(tree); }
  }

  // When HEAD is served and the cache is right (CacheIsServedTree says when), an API path whose
  // file has no failed operation behind it is listed exactly when it can be read, up to
  // decryption, and the listing tells the version, content type and owner that are read.
  lemma ListedIsReadable(cfg: Config, run: Run, n: nat, p: string)
    requires IsRun(cfg, run) && n < |run.states| && CacheOk(cfg, run.states[n])
    requires run.states[n].served == run.states[n].repo.local
    requires !HasPrefix(p, SYSTEM) && !HasPrefix(p, "/")
    requires
      var k := LastOn(run.ops, n, GitPath(p));
      if k >= 0 then run.results[k].Ok? else CleanAt(run.states[0].repo, GitPath(p))
    ensures
      var s := run.states[n];
      match GetDocument(cfg, s.repo, p)
      case Ok(env) => p in s.index && Describes(s.index[p], env)
      case Err(e) => p in s.index ==> e == Undecryptable && s.index[p].metadata.encrypted
  {
    hide Step, Project, LastOn;
    if !CleanAt(run.states[n].repo, GitPath(p)) { DirtyOnlyAfterAnError(cfg, run, n, GitPath(p)); }
    ProjectedPath(cfg.codec, Tip(run.states[n].served), p);
  }
}
