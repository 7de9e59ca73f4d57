// The event stream of pkg/api/server.go against the publisher of pkg/changes/broker.go, one
// critical section at a time. Publishers are serialised by the store's lock, so there is one.
module Streams {
  import opened Wrappers
  import opened Documents
  import opened Seqs
  import opened Text
  import opened Changes

  const CAPACITY := 32

  // Publish: bump the revision; under the lock append and copy the subscriber set (`toUs`:
  // this handler's channel is in the copy); then send.
  datatype Publisher = Idle | Bumped(ev: Event) | Appended(ev: Event, toUs: bool)

  // The handler: before `Since`, writing the backlog, or subscribed.
  datatype Handler = Starting | Replaying(rest: seq<Event>) | Live

  // sinceLen, subLen: how many events were in the log at `Since` and at `Subscribe`.
  // refused: revisions whose authorization failed when the handler looked at them.
  // lost: revisions that met a full buffer.
  datatype Sys = Sys(revision: nat, log: seq<Event>, publisher: Publisher, handler: Handler, channel: Channel,
                     emitted: seq<Event>, sinceLen: nat, subLen: nat, refused: set<nat>, lost: set<nat>)

  datatype Act =
    | Bump(kind: Kind, path: string, metadata: Metadata)
    | Append
    | Send
    | TakeBacklog
    | WriteBacklog(authorized: bool)
    | Subscribe
    | Receive(authorized: bool)

  // The live filter: a raw string prefix.
  predicate LiveFilter(path: string, prefix: string) {
    prefix == "" || HasPrefix(path, prefix) || path == prefix
  }

  function Publishing(s: Sys, act: Act): Sys
    requires act.Bump? || act.Append? || act.Send?
  {
    match (act, s.publisher)
    case (Bump(kind, path, metadata), Idle) =>
      s.(revision := s.revision + 1, publisher := Bumped(Event(s.revision + 1, kind, path, metadata)))
    case (Append, Bumped(ev)) =>
      s.(log := s.log + [ev], publisher := Appended(ev, s.handler.Live?))
    case (Send, Appended(ev, toUs)) =>
      var sent := s.(publisher := Idle);
      if !toUs then sent
      else if |s.channel.buffer| < s.channel.capacity then sent.(channel := Offer(s.channel, ev))
      else sent.(lost := s.lost + {ev.revision})
    case _ => s
  }

  function Examined(s: Sys, ev: Event, authorized: bool): Sys {
    if authorized then s.(emitted := s.emitted + [ev]) else s.(refused := s.refused + {ev.revision})
  }

  function Handling(since: int, prefix: string, s: Sys, act: Act): Sys
    requires !(act.Bump? || act.Append? || act.Send?)
  {
    match (act, s.handler)
    case (TakeBacklog, Starting) =>
      s.(handler := Replaying(Filter(Trim(s.log), Wanted(since, prefix))), sinceLen := |s.log|)
    case (WriteBacklog(authorized), Replaying(rest)) =>
      if rest == [] then s else Examined(s.(handler := Replaying(rest[1..])), rest[0], authorized)
    case (Subscribe, Replaying(rest)) =>
      if rest != [] then s else s.(handler := Live, channel := Channel([], CAPACITY), subLen := |s.log|)
    case (Receive(authorized), Live) =>
      if s.channel.buffer == [] then s
      else
        var ev := s.channel.buffer[0];
        var taken := s.(channel := s.channel.(buffer := s.channel.buffer[1..]));
        if LiveFilter(ev.path, prefix) then Examined(taken, ev, authorized) else taken
    case _ => s
  }

  function Do(since: int, prefix: string, s: Sys, act: Act): Sys {
    if act.Bump? || act.Append? || act.Send? then Publishing(s, act) else Handling(since, prefix, s, act)
  }

  function After(since: int, prefix: string, s: Sys, acts: seq<Act>): Sys {
    if acts == [] then s
    else Do(since, prefix, After(since, prefix, s, acts[..|acts| - 1]), acts[|acts| - 1])
  }

  // A request arrives at any moment of a publication.
  ghost predicate Arrival(s: Sys) {
    && Counted(s)
    && s.handler == Starting && s.emitted == [] && s.refused == {} && s.lost == {} && s.channel == Channel([], CAPACITY)
    && (s.publisher.Appended? ==> !s.publisher.toUs)
  }

  // ---------- What holds in every interleaving ----------

  ghost predicate Counted(s: Sys) {
    && Numbered(s.log)
    && s.revision == |s.log| + (if s.publisher.Bumped? then 1 else 0)
    && (s.publisher.Bumped? ==> s.publisher.ev.revision == s.revision)
    && (s.publisher.Appended? ==> s.log != [] && s.publisher.ev == s.log[|s.log| - 1])
  }

  ghost predicate OfLog(xs: seq<Event>, log: seq<Event>) {
    forall i :: 0 <= i < |xs| ==> 1 <= xs[i].revision <= |log| && log[xs[i].revision - 1] == xs[i]
  }

  ghost predicate Rising(xs: seq<Event>) {
    forall i, j :: 0 <= i < j < |xs| ==> xs[i].revision < xs[j].revision
  }

  // Events on their way to the handler.
  function Pending(s: Sys): seq<Event> {
    match s.handler
    case Starting => []
    case Replaying(rest) => rest
    case Live => s.channel.buffer + (if s.publisher.Appended? && s.publisher.toUs then [s.publisher.ev] else [])
  }

  // The events the handler has to write: the backlog filter decides up to sinceLen, the live
  // filter after subLen, and nothing in between is due.
  predicate Due(since: int, prefix: string, s: Sys, ev: Event) {
    || (!s.handler.Starting? && s.sinceLen - MAX_HISTORY < ev.revision <= s.sinceLen
        && ev.revision > since && InScope(ev.path, prefix))
    || (s.handler.Live? && ev.revision > s.subLen && LiveFilter(ev.path, prefix))
  }

  // An event is written exactly when it is due and was neither refused nor lost nor is
  // still on its way.
  ghost predicate Settled(since: int, prefix: string, s: Sys, ev: Event) {
    ev in s.emitted <==>
      Due(since, prefix, s, ev) && ev.revision !in s.refused && ev.revision !in s.lost && ev !in Pending(s)
  }

  ghost predicate Exact(since: int, prefix: string, s: Sys) {
    forall e :: e in s.log ==> Settled(since, prefix, s, e)
  }

  ghost predicate Ordered(s: Sys) {
    OfLog(s.emitted + Pending(s), s.log) && Rising(s.emitted + Pending(s))
  }

  ghost predicate Phased(since: int, prefix: string, s: Sys) {
    && (s.handler.Starting? ==> s.emitted == [] && s.refused == {})
    && (s.handler.Replaying? ==> s.sinceLen <= |s.log| && forall e :: e in s.handler.rest ==> Due(since, prefix, s, e))
    && (s.handler.Live? ==> s.sinceLen <= s.subLen <= |s.log| && forall e :: e in Pending(s) ==> e.revision > s.subLen)
    && (!s.handler.Live? ==> s.lost == {} && (s.publisher.Appended? ==> !s.publisher.toUs))
    && (!s.handler.Live? ==> forall e :: e in s.emitted ==> e.revision <= s.sinceLen)
    && (forall r :: r in s.refused + s.lost ==> r <= |s.log|)
    && (forall e :: e in Pending(s) ==> e.revision !in s.refused + s.lost)
  }

  ghost predicate Inv(since: int, prefix: string, s: Sys) {
    Counted(s) && Ordered(s) && Phased(since, prefix, s) && Exact(since, prefix, s)
  }

  // ---------- Each action keeps it ----------

  lemma {:induction false} FilterRises(xs: seq<Event>, keep: Event -> bool)
    requires Rising(xs)
    ensures Rising(Filter(xs, keep))
  {
    if xs != [] {
      var front, last := xs[..|xs| - 1], xs[|xs| - 1];
      FilterRises(front, keep);
      forall e | e in Filter(front, keep) ensures e.revision < last.revision {
        FilterMember(front, keep, e);
        var i :| 0 <= i < |front| && front[i] == e;
        assert xs[i] == e;
      }
    }
  }

  lemma BumpKeeps(since: int, prefix: string, s: Sys, act: Act)
    requires Inv(since, prefix, s) && act.Bump?
    ensures Inv(since, prefix, Do(since, prefix, s, act))
  {
    hide OfLog, Rising, InScope, LiveFilter;
    var s' := Do(since, prefix, s, act);
    assert Pending(s') == Pending(s);
    forall e | e in s.log ensures Settled(since, prefix, s', e) {
      assert Settled(since, prefix, s, e);
    }
  }

  lemma InLine(xs: seq<Event>, ys: seq<Event>, log: seq<Event>)
    requires Numbered(log) && OfLog(xs + ys, log)
    ensures forall e :: e in xs || e in ys ==> 1 <= e.revision <= |log| && e in log
  {
    forall e | e in xs || e in ys ensures e in xs + ys {}
  }

  lemma LineGrows(line: seq<Event>, log: seq<Event>, ev: Event)
    requires Numbered(log) && OfLog(line, log) && Rising(line) && ev.revision == |log| + 1
    ensures Numbered(log + [ev]) && OfLog(line, log + [ev]) && OfLog(line + [ev], log + [ev]) && Rising(line + [ev])
  {
    var grown := log + [ev];
    assert grown[|log|] == ev;
    forall i | 0 <= i < |line| ensures grown[line[i].revision - 1] == line[i] {}
  }

  lemma AppendOrders(s: Sys, s': Sys)
    requires Counted(s) && Ordered(s) && s.publisher.Bumped?
    requires s' == s.(log := s.log + [s.publisher.ev], publisher := Appended(s.publisher.ev, s.handler.Live?))
    ensures Counted(s') && Ordered(s')
    ensures Pending(s') == if s.handler.Live? then Pending(s) + [s.publisher.ev] else Pending(s)
  {
    hide OfLog, Rising, Numbered;
    var line, ev := s.emitted + Pending(s), s.publisher.ev;
    LineGrows(line, s.log, ev);
    assert Pending(s') == if s.handler.Live? then Pending(s) + [ev] else Pending(s);
    assert s'.emitted + Pending(s') == if s.handler.Live? then line + [ev] else line;
  }

  lemma AppendKeeps(since: int, prefix: string, s: Sys)
    requires Inv(since, prefix, s) && s.publisher.Bumped?
    ensures Inv(since, prefix, Do(since, prefix, s, Append))
  {
    hide OfLog, Rising;
    var s', ev := Do(since, prefix, s, Append), s.publisher.ev;
    AppendOrders(s, s');
    InLine(s.emitted, Pending(s), s.log);
    forall e | e in s'.log ensures Settled(since, prefix, s', e) {
      if e in s.log { assert Settled(since, prefix, s, e); } else { assert e == ev; }
    }
  }

  lemma SendOrders(s: Sys, line: seq<Event>, line': seq<Event>, ev: Event)
    requires OfLog(line, s.log) && Rising(line) && line == line' + [ev]
    ensures OfLog(line', s.log) && Rising(line') && ev !in line'
    ensures forall e :: e in line' ==> e.revision != ev.revision
  {
    forall i | 0 <= i < |line'| ensures line'[i] == line[i] {}
    assert line[|line'|] == ev;
  }

  lemma SendKeeps(since: int, prefix: string, s: Sys)
    requires Inv(since, prefix, s) && s.publisher.Appended?
    ensures Inv(since, prefix, Do(since, prefix, s, Send))
  {
    hide OfLog, Rising;
    var s', ev := Do(since, prefix, s, Send), s.publisher.ev;
    if s.handler.Live? && s.publisher.toUs && |s.channel.buffer| >= s.channel.capacity {
      assert s.emitted + Pending(s) == (s.emitted + Pending(s')) + [ev];
      SendOrders(s, s.emitted + Pending(s), s.emitted + Pending(s'), ev);
      assert forall x :: x in s.emitted || x in Pending(s') ==> x in s.emitted + Pending(s');
      assert Pending(s) == Pending(s') + [ev];
    } else {
      assert Pending(s') == Pending(s);
    }
    forall e | e in s.log ensures Settled(since, prefix, s', e) {
      assert Settled(since, prefix, s, e);
      assert e.revision == ev.revision ==> e == ev;
    }
  }

  // What `Since` returns, as a set of revisions.
  lemma BacklogMembers(log: seq<Event>, since: int, prefix: string, e: Event)
    requires Numbered(log)
    ensures e in Filter(Trim(log), Wanted(since, prefix)) <==>
            e in log && |log| - MAX_HISTORY < e.revision && e.revision > since && InScope(e.path, prefix)
  {
    hide Filter, Trim, InScope;
    FilterMember(Trim(log), Wanted(since, prefix), e);
    WindowMembers(log, e);
  }

  lemma BacklogIsOrdered(log: seq<Event>, since: int, prefix: string)
    requires Numbered(log)
    ensures OfLog(Filter(Trim(log), Wanted(since, prefix)), log) && Rising(Filter(Trim(log), Wanted(since, prefix)))
  {
    hide Filter, InScope;
    var rest := Filter(Trim(log), Wanted(since, prefix));
    FilterRises(Trim(log), Wanted(since, prefix));
    forall i | 0 <= i < |rest| ensures 1 <= rest[i].revision <= |log| && log[rest[i].revision - 1] == rest[i] {
      BacklogMembers(log, since, prefix, rest[i]);
    }
  }

  lemma TakeBacklogKeeps(since: int, prefix: string, s: Sys)
    requires Inv(since, prefix, s) && s.handler.Starting?
    ensures Inv(since, prefix, Do(since, prefix, s, TakeBacklog))
  {
    hide Filter, Trim, InScope, OfLog, Rising;
    var s', rest := Do(since, prefix, s, TakeBacklog), Filter(Trim(s.log), Wanted(since, prefix));
    BacklogIsOrdered(s.log, since, prefix);
    assert s'.emitted + Pending(s') == rest;
    forall e ensures e in rest <==> e in s.log && Due(since, prefix, s', e) {
      BacklogMembers(s.log, since, prefix, e);
    }
    forall e | e in s.log ensures Settled(since, prefix, s', e) {
    }
  }

  // Taking the first pending event and passing, refusing or skipping it.
  lemma HeadTaken(xs: seq<Event>, ys: seq<Event>, log: seq<Event>)
    requires ys != [] && OfLog(xs + ys, log) && Rising(xs + ys)
    ensures OfLog((xs + [ys[0]]) + ys[1..], log) && Rising((xs + [ys[0]]) + ys[1..])
    ensures OfLog(xs + ys[1..], log) && Rising(xs + ys[1..])
    ensures ys[0] !in xs && ys[0] !in ys[1..]
    ensures forall e :: e in ys <==> e == ys[0] || e in ys[1..]
    ensures forall e :: e in ys[1..] ==> e.revision != ys[0].revision
  {
    var line := xs + ys;
    assert (xs + [ys[0]]) + ys[1..] == line;
    assert ys == [ys[0]] + ys[1..];
    var k := |xs|;
    assert line[k] == ys[0];
    forall i | 0 <= i < |xs| + |ys| - 1
      ensures (xs + ys[1..])[i] == line[if i < k then i else i + 1]
    {
    }
    forall i | 0 <= i < k ensures xs[i] == line[i] {}
    forall i | 1 <= i < |ys| ensures ys[i] == line[k + i] {}
  }

  // The head of the pending events was written, refused, or skipped because it is not due.
  lemma TakenSettles(since: int, prefix: string, s: Sys, s': Sys, ev: Event, e: Event)
    requires Settled(since, prefix, s, e) && Due(since, prefix, s', e) == Due(since, prefix, s, e)
    requires ev in Pending(s) && ev !in Pending(s') && (e != ev ==> (e in Pending(s) <==> e in Pending(s')))
    requires ev !in s.emitted && ev.revision !in s.refused && ev.revision !in s.lost && s'.lost == s.lost
    requires e.revision == ev.revision ==> e == ev
    requires
      || (s'.emitted == s.emitted + [ev] && s'.refused == s.refused && Due(since, prefix, s', ev))
      || (s'.emitted == s.emitted && s'.refused == s.refused + {ev.revision})
      || (s'.emitted == s.emitted && s'.refused == s.refused && !Due(since, prefix, s', ev))
    ensures Settled(since, prefix, s', e)
  {
    hide Due, Pending;
  }

  lemma WriteBacklogKeeps(since: int, prefix: string, s: Sys, authorized: bool)
    requires Inv(since, prefix, s) && s.handler.Replaying? && s.handler.rest != []
    ensures Inv(since, prefix, Do(since, prefix, s, WriteBacklog(authorized)))
  {
    hide OfLog, Rising, InScope, LiveFilter;
    var s', ev := Do(since, prefix, s, WriteBacklog(authorized)), s.handler.rest[0];
    HeadTaken(s.emitted, s.handler.rest, s.log);
    InLine(s.emitted, s.handler.rest, s.log);
    forall e | e in s.log ensures Settled(since, prefix, s', e) {
      hide Settled;
      TakenSettles(since, prefix, s, s', ev, e);
    }
  }

  lemma SubscribeKeeps(since: int, prefix: string, s: Sys)
    requires Inv(since, prefix, s) && s.handler == Replaying([])
    ensures Inv(since, prefix, Do(since, prefix, s, Subscribe))
  {
    var s' := Do(since, prefix, s, Subscribe);
    assert Pending(s') == Pending(s) == [];
    forall e | e in s.log ensures Settled(since, prefix, s', e) {
      assert Settled(since, prefix, s, e);
    }
  }

  lemma ReceiveOrders(since: int, prefix: string, s: Sys, authorized: bool)
    requires Counted(s) && Ordered(s) && Phased(since, prefix, s) && s.handler.Live? && s.channel.buffer != []
    ensures
      var s', ev := Do(since, prefix, s, Receive(authorized)), s.channel.buffer[0];
      && Counted(s') && Ordered(s') && Phased(since, prefix, s') && Pending(s) == [ev] + Pending(s')
      && ev !in Pending(s') && ev !in s.emitted && ev in s.log && ev.revision > s.subLen >= s.sinceLen
      && ev.revision !in s.refused && ev.revision !in s.lost
  {
    hide OfLog, Rising, InScope, LiveFilter, Numbered;
    var s', ev := Do(since, prefix, s, Receive(authorized)), s.channel.buffer[0];
    assert Pending(s) == [ev] + Pending(s');
    var line := Pending(s);
    assert line[1..] == Pending(s');
    HeadTaken(s.emitted, line, s.log);
    InLine(s.emitted, line, s.log);
  }

  lemma ReceiveKeeps(since: int, prefix: string, s: Sys, authorized: bool)
    requires Inv(since, prefix, s) && s.handler.Live? && s.channel.buffer != []
    ensures Inv(since, prefix, Do(since, prefix, s, Receive(authorized)))
  {
    hide InScope, LiveFilter, Ordered, Phased, Pending;
    var s', ev := Do(since, prefix, s, Receive(authorized)), s.channel.buffer[0];
    ReceiveOrders(since, prefix, s, authorized);
    assert forall e :: e in s.log && e.revision == ev.revision ==> e == ev;
    forall e | e in s.log ensures Settled(since, prefix, s', e) {
      hide Settled;
      TakenSettles(since, prefix, s, s', ev, e);
    }
  }

  lemma DoKeeps(since: int, prefix: string, s: Sys, act: Act)
    requires Inv(since, prefix, s)
    ensures Inv(since, prefix, Do(since, prefix, s, act))
  {
    hide Inv;
    match (act, s.publisher, s.handler)
    case (Bump(_, _, _), _, _) => BumpKeeps(since, prefix, s, act);
    case (Append, Bumped(_), _) => AppendKeeps(since, prefix, s);
    case (Send, Appended(_, _), _) => SendKeeps(since, prefix, s);
    case (TakeBacklog, _, Starting) => TakeBacklogKeeps(since, prefix, s);
    case (WriteBacklog(a), _, Replaying(rest)) => if rest != [] { WriteBacklogKeeps(since, prefix, s, a); }
    case (Subscribe, _, Replaying(rest)) => if rest == [] { SubscribeKeeps(since, prefix, s); }
    case (Receive(a), _, Live) => if s.channel.buffer != [] { ReceiveKeeps(since, prefix, s, a); }
    case _ =>
  }

  lemma ArrivalHolds(since: int, prefix: string, s: Sys)
    requires Arrival(s)
    ensures Inv(since, prefix, s)
  {
  }

  lemma {:induction false} AlwaysHolds(since: int, prefix: string, s: Sys, acts: seq<Act>)
    requires Arrival(s)
    ensures Inv(since, prefix, After(since, prefix, s, acts))
  {
    if acts == [] {
      ArrivalHolds(since, prefix, s);
    } else {
      AlwaysHolds(since, prefix, s, acts[..|acts| - 1]);
      DoKeeps(since, prefix, After(since, prefix, s, acts[..|acts| - 1]), acts[|acts| - 1]);
    }
  }

  // ---------- The guarantees ----------

  // In every interleaving with the publisher a stream is written in strictly increasing
  // revision order, across the boundary of backlog and live events, and only with events
  // that were published.
  lemma StreamIsOrdered(since: int, prefix: string, s: Sys, acts: seq<Act>)
    requires Arrival(s)
    ensures
      var t := After(since, prefix, s, acts);
      Rising(t.emitted) && forall e :: e in t.emitted ==> e in t.log
  {
    AlwaysHolds(since, prefix, s, acts);
    var t := After(since, prefix, s, acts);
    InLine(t.emitted, Pending(t), t.log);
    forall i, j | 0 <= i < j < |t.emitted| ensures t.emitted[i].revision < t.emitted[j].revision {
      var line := t.emitted + Pending(t);
      assert line[i] == t.emitted[i] && line[j] == t.emitted[j];
    }
  }

  // The event an action asks the authorization of, and the answer.
  function Answer(prefix: string, s: Sys, act: Act): Option<(Event, bool)> {
    match (act, s.handler)
    case (WriteBacklog(authorized), Replaying(rest)) => if rest == [] then None else Some((rest[0], authorized))
    case (Receive(authorized), Live) =>
      if s.channel.buffer != [] && (prefix == "" || prefix <= s.channel.buffer[0].path)
      then Some((s.channel.buffer[0], authorized))
      else None
    case _ => None
  }

  // The answer of the i-th action.
  function AnswerAt(since: int, prefix: string, s: Sys, acts: seq<Act>, i: nat): Option<(Event, bool)>
    requires i < |acts|
  {
    Answer(prefix, After(since, prefix, s, acts[..i]), acts[i])
  }

  // Some action asked about this event and was given this answer.
  ghost predicate Answered(since: int, prefix: string, s: Sys, acts: seq<Act>, e: Event, authorized: bool) {
    exists i :: 0 <= i < |acts| && AnswerAt(since, prefix, s, acts, i) == Some((e, authorized))
  }

  ghost predicate TurnedAway(since: int, prefix: string, s: Sys, acts: seq<Act>, revision: nat) {
    exists e: Event :: e.revision == revision && Answered(since, prefix, s, acts, e, false)
  }

  lemma AnswerActs(since: int, prefix: string, s: Sys, act: Act)
    ensures
      var t, ans := Do(since, prefix, s, act), Answer(prefix, s, act);
      && (forall e :: e in t.emitted <==> e in s.emitted || ans == Some((e, true)))
      && (forall r: nat :: r in t.refused <==>
            r in s.refused || (ans.Some? && ans.value.0.revision == r && !ans.value.1))
  {
  }

  lemma AnsweredNext(since: int, prefix: string, s: Sys, acts: seq<Act>, e: Event, authorized: bool)
    requires acts != []
    ensures Answered(since, prefix, s, acts, e, authorized) <==>
            || Answered(since, prefix, s, acts[..|acts| - 1], e, authorized)
            || AnswerAt(since, prefix, s, acts, |acts| - 1) == Some((e, authorized))
  {
    hide Answer, After;
    var front := acts[..|acts| - 1];
    forall i | 0 <= i < |front|
      ensures AnswerAt(since, prefix, s, acts, i) == AnswerAt(since, prefix, s, front, i) {
      assert front[..i] == acts[..i] && front[i] == acts[i];
    }
  }

  // Written is what was asked about and authorized at that moment, and refused what was asked
  // about and not authorized.
  lemma {:induction false} AuthorizationDecides(since: int, prefix: string, s: Sys, acts: seq<Act>)
    requires Arrival(s)
    ensures
      var t := After(since, prefix, s, acts);
      && (forall e :: e in t.emitted <==> Answered(since, prefix, s, acts, e, true))
      && (forall r :: r in t.refused <==> TurnedAway(since, prefix, s, acts, r))
  {
    hide Do, Answer, Answered;
    if acts == [] {
      NothingAnswered(since, prefix, s);
    } else {
      var front := acts[..|acts| - 1];
      AuthorizationDecides(since, prefix, s, front);
      AnswerActs(since, prefix, After(since, prefix, s, front), acts[|acts| - 1]);
      forall e, authorized { AnsweredNext(since, prefix, s, acts, e, authorized); }
      var last := AnswerAt(since, prefix, s, acts, |acts| - 1);
      forall r: nat ensures TurnedAway(since, prefix, s, acts, r) <==>
        TurnedAway(since, prefix, s, front, r) || (last.Some? && last.value.0.revision == r && !last.value.1)
      {
        if TurnedAway(since, prefix, s, front, r) {
          var e: Event :| e.revision == r && Answered(since, prefix, s, front, e, false);
          assert Answered(since, prefix, s, acts, e, false);
        } else if last.Some? && last.value.0.revision == r && !last.value.1 {
          assert Answered(since, prefix, s, acts, last.value.0, false);
        }
      }
    }
  }

  lemma NothingAnswered(since: int, prefix: string, s: Sys)
    ensures forall e, authorized :: !Answered(since, prefix, s, [], e, authorized)
  {
  }

  // Every answer is what the rules say of the path; they do not change meanwhile.
  ghost predicate Honest(since: int, prefix: string, s: Sys, acts: seq<Act>, may: string -> bool) {
    forall e, authorized :: Answered(since, prefix, s, acts, e, authorized) ==> (authorized <==> may(e.path))
  }

  lemma LogGrows(since: int, prefix: string, s: Sys, act: Act)
    ensures s.log <= Do(since, prefix, s, act).log
  {
  }

  lemma {:induction false} LogsGrow(since: int, prefix: string, s: Sys, acts: seq<Act>, i: nat)
    requires i <= |acts|
    ensures After(since, prefix, s, acts[..i]).log <= After(since, prefix, s, acts).log
    decreases |acts|
  {
    if i < |acts| {
      var front := acts[..|acts| - 1];
      LogsGrow(since, prefix, s, front, i);
      assert front[..i] == acts[..i];
      LogGrows(since, prefix, After(since, prefix, s, front), acts[|acts| - 1]);
    } else {
      assert acts[..i] == acts;
    }
  }

  lemma AnsweredIsLogged(since: int, prefix: string, s: Sys, acts: seq<Act>, e: Event, authorized: bool)
    requires Arrival(s) && Answered(since, prefix, s, acts, e, authorized)
    ensures e in After(since, prefix, s, acts).log
  {
    hide After, Do;
    var i :| 0 <= i < |acts| && AnswerAt(since, prefix, s, acts, i) == Some((e, authorized));
    var now := After(since, prefix, s, acts[..i]);
    AlwaysHolds(since, prefix, s, acts[..i]);
    InLine(now.emitted, Pending(now), now.log);
    LogsGrow(since, prefix, s, acts, i);
    assert e in now.log;
  }

  // A stream tells its client only what the client may read, and refuses only what it may not.
  lemma OnlyWhatMayBeRead(since: int, prefix: string, s: Sys, acts: seq<Act>, may: string -> bool, e: Event)
    requires Arrival(s) && Honest(since, prefix, s, acts, may)
    requires e in After(since, prefix, s, acts).log
    ensures e in After(since, prefix, s, acts).emitted ==> may(e.path)
    ensures e.revision in After(since, prefix, s, acts).refused ==> !may(e.path)
  {
    hide After, Answered, Ordered, Phased, Exact;
    AuthorizationDecides(since, prefix, s, acts);
    AlwaysHolds(since, prefix, s, acts);
    if other: Event :| other.revision == e.revision && Answered(since, prefix, s, acts, other, false) {
      AnsweredIsLogged(since, prefix, s, acts, other, false);
      assert other == e;
    }
  }

  lemma StreamSettles(since: int, prefix: string, s: Sys, acts: seq<Act>, e: Event)
    requires Arrival(s)
    requires var t := After(since, prefix, s, acts); t.handler.Live? && e in t.log
    ensures
      var t := After(since, prefix, s, acts);
      e in t.emitted <==>
        && (if e.revision <= t.sinceLen then
              e.revision > t.sinceLen - 512 && e.revision > since && InScope(e.path, prefix)
            else
              e.revision > t.subLen && LiveFilter(e.path, prefix))
        && e.revision !in t.refused && e.revision !in t.lost && e !in Pending(t)
  {
    AlwaysHolds(since, prefix, s, acts);
    assert Settled(since, prefix, After(since, prefix, s, acts), e);
  }

  // Exactly which events are missing from a live stream: those outside the window when the
  // backlog was taken, those between Since and Subscribe, those their filter rejects, those
  // the client may not read, those that met a full buffer, and those still on their way.
  lemma StreamIsExact(since: int, prefix: string, s: Sys, acts: seq<Act>, may: string -> bool, e: Event)
    requires Arrival(s) && Honest(since, prefix, s, acts, may)
    requires var t := After(since, prefix, s, acts); t.handler.Live? && e in t.log
    ensures
      var t := After(since, prefix, s, acts);
      e in t.emitted <==>
        && (if e.revision <= t.sinceLen then
              e.revision > t.sinceLen - 512 && e.revision > since && InScope(e.path, prefix)
            else
              e.revision > t.subLen && LiveFilter(e.path, prefix))
        && may(e.path) && e.revision !in t.lost && e !in Pending(t)
  {
    hide After, Honest, InScope, LiveFilter;
    StreamSettles(since, prefix, s, acts, e);
    OnlyWhatMayBeRead(since, prefix, s, acts, may, e);
  }

  // ---------- Losses ----------

  ghost predicate Buffered(s: Sys) {
    if s.handler.Live? then s.channel.capacity == 32 && |s.channel.buffer| <= 32
    else s.publisher.Appended? ==> !s.publisher.toUs
  }

  // An event is lost only when 32 are waiting for the handler, and it is the newest one.
  lemma LossNeedsFullBuffer(since: int, prefix: string, s: Sys, act: Act)
    requires Buffered(s)
    ensures Buffered(Do(since, prefix, s, act))
    ensures
      var t := Do(since, prefix, s, act);
      t.lost != s.lost ==>
        s.publisher.Appended? && |s.channel.buffer| == 32 && t.lost == s.lost + {s.publisher.ev.revision}
  {
  }

  // A stream in which never 32 events wait loses none.
  lemma {:induction false} KeepingPaceLosesNothing(since: int, prefix: string, s: Sys, acts: seq<Act>)
    requires Arrival(s)
    requires forall i :: 0 <= i < |acts| ==> |After(since, prefix, s, acts[..i]).channel.buffer| < 32
    ensures After(since, prefix, s, acts).lost == {} && Buffered(After(since, prefix, s, acts))
  {
    hide Do;
    if acts != [] {
      var front := acts[..|acts| - 1];
      forall i | 0 <= i < |front| ensures front[..i] == acts[..i] {}
      KeepingPaceLosesNothing(since, prefix, s, front);
      LossNeedsFullBuffer(since, prefix, After(since, prefix, s, front), acts[|acts| - 1]);
    }
  }

  // The three sections run without a break do to this subscriber what Broker.Publish does.
  lemma UninterruptedPublish(since: int, prefix: string, s: Sys, kind: Kind, path: string, metadata: Metadata)
    requires Counted(s) && s.publisher.Idle?
    ensures
      var bumped := Do(since, prefix, s, Bump(kind, path, metadata));
      var t := Do(since, prefix, Do(since, prefix, bumped, Append), Send);
      var ev := Event(|s.log| + 1, kind, path, metadata);
      && t.log == s.log + [ev] && t.revision == |t.log| && t.publisher.Idle?
      && t.channel == (if s.handler.Live? then Offer(s.channel, ev) else s.channel)
      && t.handler == s.handler && t.emitted == s.emitted
  {
  }

  // The live filter lets through all that the backlog filter does, and they differ exactly on
  // the paths that go on after a nonempty prefix with something other than a slash.
  lemma LiveFilterIsWider(path: string, prefix: string)
    ensures InScope(path, prefix) ==> LiveFilter(path, prefix)
    ensures LiveFilter(path, prefix) == InScope(path, prefix) <==>
            !(prefix != "" && |path| > |prefix| && HasPrefix(path, prefix) && path[|prefix|] != '/')
  {
    var dir := prefix + "/";
    assert dir[|prefix|] == '/' && dir[..|prefix|] == prefix;
    if |path| > |prefix| && HasPrefix(path, prefix) {
      assert path[..|prefix| + 1] == prefix + [path[|prefix|]];
      assert HasPrefix(path, dir) <==> path[|prefix|] == '/';
    }
  }

  // A longer name, and any name under a prefix that ends in a slash.
  lemma FiltersDiffer()
    ensures LiveFilter("ab", "a") && !InScope("ab", "a")
    ensures LiveFilter("a/b", "a/") && !InScope("a/b", "a/")
  {
    LiveFilterIsWider("ab", "a");
    LiveFilterIsWider("a/b", "a/");
    assert "a/" <= "a/b" && "a/b"[2] == 'b';
  }
}
