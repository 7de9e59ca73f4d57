// operator/internal/controller/watch_manager.go: one event stream per HubPull.
module Operator {
  import opened Wrappers
  import opened Seqs
  import opened Text
  import opened Changes
  import opened Streams
  import Client

  // strings.LastIndex(path, "/"), looking at the first n bytes.
  function LastSlashBefore(path: string, n: nat): (i: int)
    requires n <= |path|
    ensures -1 <= i < n
    ensures i >= 0 ==> path[i] == '/'
    ensures forall j :: i < j < n ==> path[j] != '/'
  {
    if n == 0 then -1 else if path[n - 1] == '/' then n - 1 else LastSlashBefore(path, n - 1)
  }

  function LastSlash(path: string): (i: int)
    ensures -1 <= i < |path|
    ensures i >= 0 ==> path[i] == '/'
    ensures forall j :: i < j < |path| ==> path[j] != '/'
  {
    LastSlashBefore(path, |path|)
  }

  function ParentPrefix(path: string): string {
    var i := LastSlash(path);
    if i >= 0 then path[..i] else path
  }

  lemma AtLastSlash(path: string) returns (dir: string, name: string)
    requires LastSlash(path) >= 0
    ensures path == dir + "/" + name && '/' !in name && ParentPrefix(path) == dir
  {
    var i := LastSlash(path);
    hide LastSlash;
    dir, name := path[..i], path[i + 1..];
    assert path == path[..i] + [path[i]] + path[i + 1..];
  }

  lemma DropLast(segments: seq<string>, name: string)
    ensures (segments + [name])[..|segments + [name]| - 1] == segments
  {
  }

  // The prefix is the parent directory, and both filters of the server let the document pass.
  lemma ParentAdmits(path: string)
    ensures InScope(path, ParentPrefix(path)) && LiveFilter(path, ParentPrefix(path))
    ensures
      var segments := Split(path);
      Split(ParentPrefix(path)) == if |segments| > 1 then segments[..|segments| - 1] else segments
  {
    hide Split, LiveFilter, LastSlash;
    if LastSlash(path) >= 0 {
      var dir, name := AtLastSlash(path);
      hide ParentPrefix;
      assert HasPrefix(path, dir + "/");
      SplitSnoc(dir, name);
      DropLast(Split(dir), name);
    } else {
      assert path[0..] == path;
      SplitName(path);
    }
    LiveFilterIsWider(path, ParentPrefix(path));
  }

  function About(path: string): Event -> bool {
    (ev: Event) => ev.path == path
  }

  // The stream's callback: Reconcile runs for events about the document; `fails(n)` is
  // whether its n-th run returns an error, which ends the stream.
  function Callback(path: string, fails: nat -> bool): seq<Event> -> bool {
    (got: seq<Event>) => got != [] && got[|got| - 1].path == path && fails(|Filter(got, About(path))|)
  }

  // The runs of Reconcile are those for the events about the document, up to and including
  // the first that fails.
  lemma {:induction false} RunsUpToFailure(path: string, fails: nat -> bool, got: seq<Event>, rest: seq<Event>)
    returns (m: nat)
    requires forall j :: 0 < j <= |Filter(got, About(path))| ==> !fails(j)
    ensures
      var all := Filter(got + rest, About(path));
      var (delivered, stopped) := Client.Deliver(got, rest, Callback(path, fails));
      && m <= |all| && Filter(delivered, About(path)) == all[..m]
      && (forall j :: 0 < j < m ==> !fails(j))
      && (if stopped then m > 0 && fails(m) else m == |all| && forall j :: 0 < j <= m ==> !fails(j))
    decreases |rest|
  {
    var about := About(path);
    if rest == [] {
      assert got + rest == got;
      m := |Filter(got, about)|;
    } else {
      hide Filter;
      var more := got + [rest[0]];
      assert more + rest[1..] == got + rest;
      FilterAppend(got, [rest[0]], about);
      FilterOne(rest[0], about);
      if Callback(path, fails)(more) {
        m := |Filter(more, about)|;
        FilterAppend(more, rest[1..], about);
      } else {
        m := RunsUpToFailure(path, fails, more, rest[1..]);
      }
    }
  }

  lemma FilterOne(ev: Event, keep: Event -> bool)
    ensures Filter([ev], keep) == if keep(ev) then [ev] else []
  {
  }

  // From the server's handler to Reconcile: whatever the server wrote, wherever the
  // connection broke and however the bytes were split, Reconcile runs once for each event
  // about the document among the k events that arrived whole, in order, and stops only after
  // a run that failed.
  method RunStream(codec: Client.EventCodec, chunks: seq<Client.Read>, path: string, fails: nat -> bool,
                   ghost written: seq<Event>)
    returns (runs: seq<Event>, ending: Client.Ending, ghost k: nat, ghost n: nat)
    requires Client.Faithful(codec)
    requires Client.Joined(chunks) <= Client.Written(codec, written)
    ensures n <= |chunks| && Client.CutAfter(codec, written, Client.Joined(chunks[..n]), k)
    ensures ending.Waiting? ==> n == |chunks|
    ensures k <= |written| && |runs| <= |Filter(written[..k], About(path))|
    ensures runs == Filter(written[..k], About(path))[..|runs|]
    ensures forall j :: 0 < j < |runs| ==> !fails(j)
    ensures |runs| < |Filter(written[..k], About(path))| ==> |runs| > 0 && fails(|runs|)
    ensures ending.Refused? <==> |runs| > 0 && fails(|runs|)
    ensures forall e :: e in runs ==> e.path == path
    ensures !ending.Refused? ==> forall e :: e in written[..k] && e.path == path ==> e in runs
    ensures ending.Waiting? ==> forall i :: 0 <= i < n ==> chunks[i].end.More? && !chunks[i].cancelled
    ensures !ending.Refused? && n > 0 ==>
      && (ending.AtEof? <==> chunks[n - 1].end.Eof?)
      && (ending.AtError? <==> chunks[n - 1].end.Broken?)
      && (ending.Cancelled? <==> chunks[n - 1].end.More? && chunks[n - 1].cancelled)
  {
    hide Client.Cut, Client.CutAfter, Client.Written, Client.Joined, Client.Deliver, Client.Events, Filter;
    var got, end, made := Client.Watch(codec, chunks, Callback(path, fails));
    n := made;
    ending := end;
    runs := Filter(got, About(path));
    Client.JoinedPrefix(chunks, n);
    k := Client.WrittenReadsBack(codec, written, Client.Joined(chunks[..n]));
    FilterEmpty(About(path));
    assert [] + written[..k] == written[..k];
    ghost var m := RunsUpToFailure(path, fails, [], written[..k]);
    forall e ensures e in runs ==> e.path == path { FilterMember(got, About(path), e); }
    forall e ensures e in Filter(written[..k], About(path)) <==> e in written[..k] && e.path == path {
      FilterMember(written[..k], About(path), e);
    }
  }

  lemma FilterEmpty(keep: Event -> bool)
    ensures Filter([], keep) == []
  {
  }

  datatype Stream = Stream(key: string, prefix: string, cancelled: bool)

  class WatchManager {
    var cancel: map<string, nat>     // the stream to cancel, by HubPull
    var streams: seq<Stream>         // every stream ever started

    // At most one stream per HubPull has not been cancelled, and it is the recorded one.
    ghost predicate Valid()
      reads this
    {
      && (forall key :: key in cancel ==>
            cancel[key] < |streams| && streams[cancel[key]].key == key && !streams[cancel[key]].cancelled)
      && (forall i :: 0 <= i < |streams| && !streams[i].cancelled ==>
            streams[i].key in cancel && cancel[streams[i].key] == i)
    }

    constructor ()
      ensures Valid() && cancel == map[] && streams == []
    {
      cancel, streams := map[], [];
    }

    method Sync(key: string, wanted: Option<bool>, documentPath: string)
      requires Valid()
      modifies this
      ensures Valid()
      ensures wanted == Some(false) ==>
        && cancel == old(cancel) - {key} && |streams| == |old(streams)|
        && forall i :: 0 <= i < |streams| ==>
             streams[i] == if old(streams)[i].key == key then old(streams)[i].(cancelled := true) else old(streams)[i]
      ensures wanted != Some(false) && key in old(cancel) ==> cancel == old(cancel) && streams == old(streams)
      ensures wanted != Some(false) && key !in old(cancel) ==>
        && streams == old(streams) + [Stream(key, ParentPrefix(documentPath), false)]
        && cancel == old(cancel)[key := |old(streams)|]
    {
      hide ParentPrefix;
      var watch := true;
      if wanted.Some? { watch := wanted.value; }
      if !watch {
        if key in cancel {
          var c := cancel[key];
          streams := streams[c := streams[c].(cancelled := true)];
          cancel := cancel - {key};
        }
        return;
      }
      if key in cancel { return; }
      cancel := cancel[key := |streams|];
      streams := streams + [Stream(key, ParentPrefix(documentPath), false)];
    }
  }
}
