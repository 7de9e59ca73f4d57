// What a watcher knows of the index: the store's log, seen through polling or a stream.
module Watchers {
  import opened Seqs
  import opened Changes
  import opened Store
  import opened StoreCache
  import opened Polling
  import opened Streams

  function OnPath(keep: string -> bool): Event -> bool {
    (ev: Event) => keep(ev.path)
  }

  // Replaying only the events of some paths yields those of the live paths.
  lemma {:induction false} LiveOfSome(log: seq<Event>, keep: string -> bool)
    ensures StoreCache.Live(Filter(log, OnPath(keep))) == set p | p in StoreCache.Live(log) && keep(p)
  {
    if log != [] {
      var front, last := log[..|log| - 1], log[|log| - 1];
      LiveOfSome(front, keep);
      var some := Filter(front, OnPath(keep));
      if keep(last.path) {
        assert Filter(log, OnPath(keep)) == some + [last] && (some + [last])[..|some|] == some;
      } else {
        assert Filter(log, OnPath(keep)) == some;
      }
    }
  }

  function Scope(prefix: string, may: string -> bool): string -> bool {
    (path: string) => InScope(path, prefix) && may(path)
  }

  // A client that polls from 0 and replays the replies knows exactly the indexed paths in
  // scope that it may read, if the log replays to the index (LogReplaysToIndex says when) and
  // the session misses nothing (SessionMissesExactly says when).
  lemma PollingClientKnowsIndex(s: State, polls: seq<Poll>, prefix: string, may: string -> bool)
    requires LogOk(s) && polls != [] && LastLog(polls) == s.log
    requires Tracks(polls, 0)
    requires WindowKeeps(polls, 0, prefix, OnPath(may)) && GapsHidden(polls, prefix, OnPath(may))
    ensures StoreCache.Live(Session(polls, 0, prefix, OnPath(may))) ==
            set p | p in s.index && InScope(p, prefix) && may(p)
  {
    hide StoreCache.Live;
    SessionMissesExactly(polls, 0, prefix, OnPath(may));
    FilterSame(s.log, Visible(0, prefix, OnPath(may)), OnPath(Scope(prefix, may)));
    LiveOfSome(s.log, Scope(prefix, may));
  }

  lemma {:induction false} SameRising(xs: seq<Event>, ys: seq<Event>)
    requires Rising(xs) && Rising(ys)
    requires forall e :: e in xs <==> e in ys
    ensures xs == ys
  {
    assert |ys| > 0 ==> ys[0] in ys;
    if xs != [] {
      assert xs[0] in ys && ys[0] in xs;
      assert xs[0] == ys[0];
      forall e ensures e in xs[1..] <==> e in ys[1..] {
        RisingTail(xs, e);
        RisingTail(ys, e);
      }
      SameRising(xs[1..], ys[1..]);
      assert xs == [xs[0]] + xs[1..] && ys == [ys[0]] + ys[1..];
    }
  }

  lemma RisingTail(xs: seq<Event>, e: Event)
    requires Rising(xs) && xs != []
    ensures e in xs[1..] <==> e in xs && e != xs[0]
  {
    assert xs == [xs[0]] + xs[1..];
    if e in xs[1..] {
      var i :| 0 <= i < |xs| - 1 && xs[1..][i] == e;
      assert xs[i + 1] == e;
    }
  }

  // Nothing is missing from the stream: it asked from the start, the whole log was in the
  // window, nothing was published between Since and Subscribe, nothing was lost or is still
  // on its way, and the two filters agree on the paths there are.
  ghost predicate Complete(since: int, prefix: string, t: Sys) {
    && t.handler.Live? && since <= 0 && t.sinceLen <= MAX_HISTORY && t.subLen == t.sinceLen
    && t.lost == {} && Pending(t) == []
    && forall e :: e in t.log ==> LiveFilter(e.path, prefix) == InScope(e.path, prefix)
  }

  lemma CompleteStream(since: int, prefix: string, may: string -> bool, s: Sys, acts: seq<Act>)
    requires Arrival(s) && Honest(since, prefix, s, acts, may)
    requires Complete(since, prefix, After(since, prefix, s, acts))
    ensures
      var t := After(since, prefix, s, acts);
      t.emitted == Filter(t.log, OnPath(Scope(prefix, may)))
  {
    hide After, InScope, LiveFilter, Inv;
    var t, keep := After(since, prefix, s, acts), OnPath(Scope(prefix, may));
    AlwaysHolds(since, prefix, s, acts);
    NumberedRises(since, prefix, t);
    StreamIsOrdered(since, prefix, s, acts);
    FilterRises(t.log, keep);
    forall e ensures e in t.emitted <==> e in Filter(t.log, keep) {
      FilterMember(t.log, keep, e);
      if e in t.log { StreamIsExact(since, prefix, s, acts, may, e); }
    }
    SameRising(t.emitted, Filter(t.log, keep));
  }

  lemma NumberedRises(since: int, prefix: string, t: Sys)
    requires Inv(since, prefix, t)
    ensures Rising(t.log) && forall e :: e in t.log ==> 1 <= e.revision <= |t.log|
  {
  }

  // A client that replays such a stream knows exactly the indexed paths in scope that it may
  // read.
  lemma StreamingClientKnowsIndex(st: State, since: int, prefix: string, may: string -> bool, s: Sys, acts: seq<Act>)
    requires LogOk(st) && Arrival(s) && Honest(since, prefix, s, acts, may)
    requires Complete(since, prefix, After(since, prefix, s, acts))
    requires After(since, prefix, s, acts).log == st.log
    ensures StoreCache.Live(After(since, prefix, s, acts).emitted) ==
            set p | p in st.index && InScope(p, prefix) && may(p)
  {
    hide StoreCache.Live, After, Complete;
    CompleteStream(since, prefix, may, s, acts);
    LiveOfSome(st.log, Scope(prefix, may));
  }
}
