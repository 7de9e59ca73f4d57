// JSON polling of pkg/api/server.go: each reply carries the events since the revision the
// client sends and the revision to send next.
module Polling {
  import opened Documents
  import opened Seqs
  import opened Changes

  // What one reply saw: the log when `Since` ran and the counter when `Revision` ran after it.
  datatype Poll = Poll(log: seq<Event>, counter: nat)

  function Visible(since: int, prefix: string, allow: Event -> bool): Event -> bool {
    Both(Wanted(since, prefix), allow)
  }

  function Reply(log: seq<Event>, since: int, prefix: string, allow: Event -> bool): seq<Event> {
    Filter(Filter(Trim(log), Wanted(since, prefix)), allow)
  }

  // A client that sends each reply's revision back.
  function Session(polls: seq<Poll>, since: int, prefix: string, allow: Event -> bool): seq<Event> {
    if polls == [] then []
    else Reply(polls[0].log, since, prefix, allow) + Session(polls[1..], polls[0].counter, prefix, allow)
  }

  // Polls of one broker. A counter may run ahead of the log its poll saw: an event landed
  // between the two reads, or was numbered before `Since` and appended after it.
  ghost predicate Tracks(polls: seq<Poll>, since: int) {
    polls == [] ||
    (var p := polls[0];
     && Numbered(p.log) && since <= |p.log|
     && (|polls| > 1 ==>
          p.log <= polls[1].log && |p.log| <= p.counter <= |polls[1].log| && Tracks(polls[1..], p.counter)))
  }

  // Whether a client may ever be told of an event.
  function Matching(prefix: string, allow: Event -> bool): Event -> bool {
    (ev: Event) => InScope(ev.path, prefix) && allow(ev)
  }

  // No event for the client had left the window before the poll that asked for it.
  ghost predicate WindowKeeps(polls: seq<Poll>, since: int, prefix: string, allow: Event -> bool) {
    polls != [] ==>
      && (forall i :: 0 <= i < |polls[0].log| - MAX_HISTORY && since <= i ==>
            !Matching(prefix, allow)(polls[0].log[i]))
      && WindowKeeps(polls[1..], polls[0].counter, prefix, allow)
  }

  // No event that a counter ran ahead by is for the client. The last counter is not sent back.
  ghost predicate GapsHidden(polls: seq<Poll>, prefix: string, allow: Event -> bool) {
    |polls| > 1 ==>
      && (forall i :: |polls[0].log| <= i < polls[0].counter && i < |polls[1].log| ==>
            !Matching(prefix, allow)(polls[1].log[i]))
      && GapsHidden(polls[1..], prefix, allow)
  }

  // The events a log has lost to the window.
  function Dropped(log: seq<Event>): seq<Event> {
    if |log| > MAX_HISTORY then log[..|log| - MAX_HISTORY] else []
  }

  lemma ReplyIsFilter(log: seq<Event>, since: int, prefix: string, allow: Event -> bool)
    ensures Filter(log, Visible(since, prefix, allow)) ==
            Filter(Dropped(log), Visible(since, prefix, allow)) + Reply(log, since, prefix, allow)
  {
    assert log == Dropped(log) + Trim(log);
    FilterAppend(Dropped(log), Trim(log), Visible(since, prefix, allow));
    FilterTwice(Trim(log), Wanted(since, prefix), allow);
  }

  lemma DroppedIsHidden(log: seq<Event>, since: int, prefix: string, allow: Event -> bool)
    requires Numbered(log)
    ensures Filter(Dropped(log), Visible(since, prefix, allow)) == [] <==>
            forall i :: 0 <= i < |log| - MAX_HISTORY && since <= i ==> !Matching(prefix, allow)(log[i])
  {
    var n, visible := |Dropped(log)|, Visible(since, prefix, allow);
    FilterNothing(Dropped(log), visible);
    assert log[0..n] == Dropped(log);
    NoneInSlice(log, 0, n, visible);
    assert forall i :: 0 <= i < n ==> (visible(log[i]) <==> since <= i && Matching(prefix, allow)(log[i]));
  }

  lemma EarlyIsOld(log: seq<Event>, n: nat, prefix: string, allow: Event -> bool)
    requires Numbered(log) && n <= |log|
    ensures forall e :: e in log[..n] ==> !Visible(n, prefix, allow)(e)
  {
    forall e | e in log[..n] ensures e.revision <= n {
      var i :| 0 <= i < n && log[..n][i] == e;
      assert log[i] == e;
    }
  }

  lemma LateIsNew(log: seq<Event>, n: nat, since: int, prefix: string, allow: Event -> bool)
    requires Numbered(log) && since <= n <= |log|
    ensures forall e :: e in log[n..] ==> Visible(since, prefix, allow)(e) == Visible(n, prefix, allow)(e)
  {
    forall e | e in log[n..] ensures e.revision > n {
      var i :| 0 <= i < |log| - n && log[n..][i] == e;
      assert log[n + i] == e;
    }
  }

  lemma SinceSplits(log: seq<Event>, n: nat, since: int, prefix: string, allow: Event -> bool)
    requires Numbered(log) && since <= n <= |log|
    ensures Filter(log, Visible(since, prefix, allow)) ==
            Filter(log[..n], Visible(since, prefix, allow)) + Filter(log, Visible(n, prefix, allow))
  {
    hide Filter, Visible, Numbered;
    var early, late := Visible(since, prefix, allow), Visible(n, prefix, allow);
    assert log == log[..n] + log[n..];
    FilterAppend(log[..n], log[n..], early);
    FilterAppend(log[..n], log[n..], late);
    EarlyIsOld(log, n, prefix, allow);
    FilterNothing(log[..n], late);
    LateIsNew(log, n, since, prefix, allow);
    FilterSame(log[n..], early, late);
    assert [] + Filter(log[n..], late) == Filter(log[n..], late);
  }

  function LastLog(polls: seq<Poll>): seq<Event>
    requires polls != []
  {
    polls[|polls| - 1].log
  }

  lemma {:induction false} LogsGrow(polls: seq<Poll>, since: int)
    requires polls != [] && Tracks(polls, since)
    ensures polls[0].log <= LastLog(polls) && Numbered(LastLog(polls))
  {
    if |polls| > 1 {
      LogsGrow(polls[1..], polls[0].counter);
      assert LastLog(polls[1..]) == LastLog(polls);
    }
  }

  // A session that misses `lost` and `middle` and ends in `back` instead of `tail`.
  lemma NothingMissed<T>(lost: seq<T>, front: seq<T>, middle: seq<T>, back: seq<T>, tail: seq<T>)
    requires |back| <= |tail|
    ensures front + back == lost + front + middle + tail <==> lost == [] && middle == [] && back == tail
    ensures |front + back| <= |lost + front + middle + tail|
  {
    if front + back == lost + front + middle + tail {
      assert |lost| == |middle| == 0;
      assert back == (front + back)[|front|..] && tail == (lost + front + middle + tail)[|front|..];
    }
    if lost == [] && middle == [] { assert lost + front + middle == front; }
  }

  lemma NoneInSlice<T>(xs: seq<T>, n: nat, m: nat, p: T -> bool)
    requires n <= m <= |xs|
    ensures (forall x :: x in xs[n..m] ==> !p(x)) <==> forall i :: n <= i < m ==> !p(xs[i])
  {
    assert forall i :: n <= i < m ==> xs[n..m][i - n] == xs[i];
  }

  lemma PrefixIsNumbered(log: seq<Event>, more: seq<Event>)
    requires Numbered(more) && log <= more
    ensures Numbered(log) && more[..|log|] == log
  {
    assert forall i :: 0 <= i < |log| ==> log[i] == more[i];
  }

  // The log a session ends with, split at what the first reply saw and at what the second
  // poll asks from.
  lemma ThreeParts(last: seq<Event>, n: nat, c: nat, since: int, prefix: string, allow: Event -> bool)
    requires Numbered(last) && since <= n <= c <= |last|
    ensures Filter(last, Visible(since, prefix, allow)) ==
            Filter(last[..n], Visible(since, prefix, allow)) + Filter(last[n..c], Visible(since, prefix, allow))
            + Filter(last, Visible(c, prefix, allow))
  {
    hide Filter, Visible, Numbered;
    SinceSplits(last, c, since, prefix, allow);
    assert last[..c] == last[..n] + last[n..c];
    FilterAppend(last[..n], last[n..c], Visible(since, prefix, allow));
  }

  lemma GapIsEmpty(last: seq<Event>, n: nat, c: nat, since: int, prefix: string, allow: Event -> bool)
    requires Numbered(last) && since <= n <= c <= |last|
    ensures Filter(last[n..c], Visible(since, prefix, allow)) == [] <==>
            forall i :: n <= i < c ==> !Matching(prefix, allow)(last[i])
  {
    GapIsNew(last, n, c, since, prefix, allow);
    hide Filter, Visible, Numbered, Matching;
    FilterNothing(last[n..c], Visible(since, prefix, allow));
    NoneInSlice(last, n, c, Visible(since, prefix, allow));
  }

  lemma GapIsNew(last: seq<Event>, n: nat, c: nat, since: int, prefix: string, allow: Event -> bool)
    requires Numbered(last) && since <= n <= c <= |last|
    ensures forall i :: n <= i < c ==> (Visible(since, prefix, allow)(last[i]) <==> Matching(prefix, allow)(last[i]))
  {
  }

  // Polling tells a client each event meant for it once and in order, exactly when none had
  // left the window and no counter ran ahead by one; it never tells too much.
  lemma {:induction false} SessionMissesExactly(polls: seq<Poll>, since: int, prefix: string, allow: Event -> bool)
    requires polls != [] && Tracks(polls, since)
    ensures Session(polls, since, prefix, allow) == Filter(LastLog(polls), Visible(since, prefix, allow)) <==>
            WindowKeeps(polls, since, prefix, allow) && GapsHidden(polls, prefix, allow)
    ensures |Session(polls, since, prefix, allow)| <= |Filter(LastLog(polls), Visible(since, prefix, allow))|
  {
    hide Filter, Visible, Numbered, Matching, Reply, Dropped;
    var log, c, visible := polls[0].log, polls[0].counter, Visible(since, prefix, allow);
    var lost, reply := Filter(Dropped(log), visible), Reply(log, since, prefix, allow);
    ReplyIsFilter(log, since, prefix, allow);
    DroppedIsHidden(log, since, prefix, allow);
    if |polls| == 1 {
      assert polls[1..] == [] && WindowKeeps(polls[1..], c, prefix, allow);
      assert WindowKeeps(polls, since, prefix, allow) <==> lost == [];
      assert LastLog(polls) == log && Session(polls, since, prefix, allow) == reply + [];
      assert lost + reply + [] + [] == lost + reply;
      NothingMissed(lost, reply, [], [], []);
    } else {
      var last, n := LastLog(polls), |log|;
      SessionMissesExactly(polls[1..], c, prefix, allow);
      assert LastLog(polls[1..]) == last;
      LogsGrow(polls, since);
      LogsGrow(polls[1..], c);
      PrefixIsNumbered(log, last);
      ThreeParts(last, n, c, since, prefix, allow);
      GapIsEmpty(last, n, c, since, prefix, allow);
      assert forall i :: n <= i < c ==> last[i] == polls[1].log[i];
      NothingMissed(lost, reply, Filter(last[n..c], visible), Session(polls[1..], c, prefix, allow),
                    Filter(last, Visible(c, prefix, allow)));
    }
  }

  ghost predicate Tight(polls: seq<Poll>) {
    forall k :: 0 <= k < |polls| ==> polls[k].counter == |polls[k].log|
  }

  // When every counter is the length of the log seen, the window alone decides.
  lemma {:induction false} PollingIsExact(polls: seq<Poll>, since: int, prefix: string, allow: Event -> bool)
    requires polls != [] && Tracks(polls, since) && Tight(polls)
    ensures Session(polls, since, prefix, allow) == Filter(LastLog(polls), Visible(since, prefix, allow)) <==>
            WindowKeeps(polls, since, prefix, allow)
  {
    SessionMissesExactly(polls, since, prefix, allow);
    TightHidesNothing(polls, prefix, allow);
  }

  lemma {:induction false} TightHidesNothing(polls: seq<Poll>, prefix: string, allow: Event -> bool)
    requires Tight(polls)
    ensures GapsHidden(polls, prefix, allow)
  {
    if |polls| > 1 { TightHidesNothing(polls[1..], prefix, allow); }
  }

  // A client that never falls more than the window behind loses nothing to it, whoever it is.
  ghost predicate Keeping(polls: seq<Poll>, since: int) {
    polls != [] ==> |polls[0].log| <= since + MAX_HISTORY && Keeping(polls[1..], polls[0].counter)
  }

  lemma {:induction false} KeepingUp(polls: seq<Poll>, since: int, prefix: string, allow: Event -> bool)
    requires Keeping(polls, since)
    ensures WindowKeeps(polls, since, prefix, allow)
  {
    if polls != [] { KeepingUp(polls[1..], polls[0].counter, prefix, allow); }
  }

  // The first event is numbered between the two reads of a poll: the session never gets it,
  // though the client may see everything.
  lemma EventBetweenReads(e: Event)
    requires e.revision == 1
    ensures
      var polls, all := [Poll([], 1), Poll([e], 1)], (ev: Event) => true;
      && Tracks(polls, 0) && Keeping(polls, 0) && !GapsHidden(polls, "", all)
      && Session(polls, 0, "", all) == [] && Filter(LastLog(polls), Visible(0, "", all)) == [e]
  {
    var polls, all := [Poll([], 1), Poll([e], 1)], (ev: Event) => true;
    assert polls[1..] == [Poll([e], 1)] && polls[1..][1..] == [];
    assert [] <= [e] && Numbered([e]);
    assert Trim([e]) == [e];
    assert Visible(0, "", all)(e) && !Wanted(1, "")(e);
    FilterNothing([e], Wanted(1, ""));
    assert Reply([], 0, "", all) == [] && Reply([e], 1, "", all) == [];
    assert [e][..0] == [] && Filter([e], Visible(0, "", all)) == [e];
    assert LastLog(polls) == [e];
    assert Session(polls[1..], 0 + 1, "", all) == [];
    assert Matching("", all)(polls[1].log[0]);
  }

  // 513 events between two polls whose counters are right: the session misses the first.
  lemma WindowOverflows(metadata: Metadata)
    ensures
      var log := seq(MAX_HISTORY + 1, i requires i >= 0 => Event(i + 1, Upsert, "a", metadata));
      var polls, all := [Poll([], 0), Poll(log, |log|)], (ev: Event) => true;
      && Tracks(polls, 0) && Tight(polls)
      && Session(polls, 0, "", all) != Filter(LastLog(polls), Visible(0, "", all))
  {
    var log := seq(MAX_HISTORY + 1, i requires i >= 0 => Event(i + 1, Upsert, "a", metadata));
    var polls, all := [Poll([], 0), Poll(log, |log|)], (ev: Event) => true;
    assert polls[1..] == [Poll(log, |log|)] && polls[1..][1..] == [];
    assert [] <= log && Numbered(log);
    assert Tracks(polls[1..], 0);
    PollingIsExact(polls, 0, "", all);
    assert Matching("", all)(polls[1..][0].log[0]);
    assert !WindowKeeps(polls[1..], 0, "", all);
  }
}
