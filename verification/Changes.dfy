// pkg/changes/broker.go
module Changes {
  import opened Documents
  import opened Seqs
  import opened Text

  const MAX_HISTORY := 512

  datatype Kind = Upsert | Delete

  datatype Event = Event(revision: nat, kind: Kind, path: string, metadata: Metadata)

  // A buffered channel of events; a send that would block is dropped.
  datatype Channel = Channel(buffer: seq<Event>, capacity: nat)

  function Offer(ch: Channel, ev: Event): Channel {
    if |ch.buffer| < ch.capacity then ch.(buffer := ch.buffer + [ev]) else ch
  }

  predicate InScope(path: string, prefix: string) {
    prefix == "" || Under(path, prefix)
  }

  function Wanted(rev: int, prefix: string): Event -> bool {
    (ev: Event) => ev.revision > rev && InScope(ev.path, prefix)
  }

  // The full log of a broker, of which it keeps only the end.
  ghost predicate Numbered(log: seq<Event>) {
    forall i :: 0 <= i < |log| ==> log[i].revision == i + 1
  }

  function Trim(history: seq<Event>): seq<Event> {
    if |history| > MAX_HISTORY then history[|history| - MAX_HISTORY..] else history
  }

  lemma TrimTwice(log: seq<Event>, ev: Event)
    ensures Trim(Trim(log) + [ev]) == Trim(log + [ev])
  {
  }

  // What `Since` returns is the filter of the whole log exactly when no wanted event has
  // left the window.
  lemma WindowIsEnough(log: seq<Event>, rev: int, prefix: string)
    requires Numbered(log)
    ensures Filter(Trim(log), Wanted(rev, prefix)) == Filter(log, Wanted(rev, prefix)) <==>
            forall i :: 0 <= i < |log| - MAX_HISTORY && i + 1 > rev ==> !InScope(log[i].path, prefix)
    ensures rev >= |log| - MAX_HISTORY ==> Filter(Trim(log), Wanted(rev, prefix)) == Filter(log, Wanted(rev, prefix))
  {
    if |log| > MAX_HISTORY {
      var n, wanted := |log| - MAX_HISTORY, Wanted(rev, prefix);
      var lost := log[..n];
      assert log == lost + Trim(log);
      FilterAppend(lost, Trim(log), wanted);
      FilterNothing(lost, wanted);
      LostEvents(log, n, rev, prefix);
    }
  }

  lemma LostEvents(log: seq<Event>, n: nat, rev: int, prefix: string)
    requires Numbered(log) && n <= |log|
    ensures (forall ev :: ev in log[..n] ==> !Wanted(rev, prefix)(ev)) <==>
            forall i :: 0 <= i < n && i + 1 > rev ==> !InScope(log[i].path, prefix)
  {
    forall i | 0 <= i < n ensures log[i] in log[..n] {
      assert log[..n][i] == log[i];
    }
  }

  lemma WindowMembers(log: seq<Event>, e: Event)
    requires Numbered(log)
    ensures e in Trim(log) <==> e in log && e.revision > |log| - 512
  {
    var window, low := Trim(log), |log| - |Trim(log)|;
    assert forall i :: 0 <= i < |window| ==> window[i] == log[low + i];
    if e in log && e.revision > |log| - 512 {
      var i :| 0 <= i < |log| && log[i] == e;
      assert window[i - low] == e;
    }
  }

  class Broker {
    var revision: nat
    var history: seq<Event>
    var subs: map<nat, Channel>   // keyed by the identity of the channel
    var closed: map<nat, Channel> // closed: a receiver drains the buffer and then ends its loop
    var nextId: nat               // identities given out so far
    ghost var log: seq<Event>     // every event ever published

    ghost predicate Valid()
      reads this
    {
      && revision == |log| && Numbered(log) && history == Trim(log)
      && subs.Keys !! closed.Keys && (forall c :: c in subs || c in closed ==> c < nextId)
    }

    constructor ()
      ensures Valid() && log == [] && subs == map[] && closed == map[]
    {
      revision, history, subs, closed, nextId, log := 0, [], map[], map[], 0, [];
    }

    // A closed channel gets nothing more.
    method Publish(kind: Kind, path: string, metadata: Metadata)
      requires Valid()
      modifies this`revision, this`history, this`log, this`subs
      ensures Valid()
      ensures log == old(log) + [Event(|old(log)| + 1, kind, path, metadata)]
      ensures subs == map c | c in old(subs) :: Offer(old(subs)[c], log[|log| - 1])
    {
      revision := revision + 1;
      var ev := Event(revision, kind, path, metadata);
      TrimTwice(log, ev);
      history := history + [ev];
      if |history| > MAX_HISTORY {
        history := history[|history| - MAX_HISTORY..];
      }
      log := log + [ev];
      FanOut(ev);
    }

    // The sends happen after the lock is released, in map order.
    method FanOut(ev: Event)
      modifies this`subs
      ensures subs == map c | c in old(subs) :: Offer(old(subs)[c], ev)
    {
      var pending := subs.Keys;
      while pending != {}
        invariant pending <= old(subs).Keys == subs.Keys
        invariant forall c :: c in subs ==>
          subs[c] == if c in pending then old(subs)[c] else Offer(old(subs)[c], ev)
        decreases pending
      {
        var c :| c in pending;
        subs := subs[c := Offer(subs[c], ev)];
        pending := pending - {c};
      }
    }

    method Subscribe(capacity: nat) returns (c: nat)
      requires Valid()
      modifies this`subs, this`nextId
      ensures Valid() && c !in old(subs) && c !in closed && subs == old(subs)[c := Channel([], capacity)]
    {
      c := nextId;
      nextId := nextId + 1;
      subs := subs[c := Channel([], capacity)];
    }

    // What is in the buffer can still be received. A second close of a channel panics, so a
    // caller gives its own live channel.
    method Unsubscribe(c: nat)
      requires Valid() && c in subs
      modifies this`subs, this`closed
      ensures Valid() && subs == old(subs) - {c} && closed == old(closed)[c := old(subs)[c]]
    {
      subs, closed := subs - {c}, closed[c := subs[c]];
    }

    method Since(rev: int, prefix: string) returns (out: seq<Event>)
      requires Valid()
      ensures out == Filter(Trim(log), Wanted(rev, prefix))
      ensures rev >= revision - MAX_HISTORY ==> out == Filter(log, Wanted(rev, prefix))
      ensures forall ev :: ev in out <==>
        ev in log && ev.revision > |log| - 512 && ev.revision > rev && (prefix == "" || Under(ev.path, prefix))
    {
      out := [];
      for i := 0 to |history|
        invariant out == Filter(history[..i], Wanted(rev, prefix))
      {
        FilterSnoc(history, i, Wanted(rev, prefix));
        var ev := history[i];
        if ev.revision <= rev { continue; }
        if prefix != "" && !Under(ev.path, prefix) { continue; }
        out := out + [ev];
      }
      assert history[..|history|] == history;
      hide Filter, Trim;
      WindowIsEnough(log, rev, prefix);
      forall ev ensures ev in out <==> ev in log && ev.revision > |log| - 512 && Wanted(rev, prefix)(ev) {
        FilterMember(history, Wanted(rev, prefix), ev);
        WindowMembers(log, ev);
      }
    }
  }
}
