// pkg/client/client.go, Watch: a subset of event streams (section 9.2 of the WHATWG HTML
// Living Standard), parsed as the bytes come in.
module Client {
  import opened Wrappers
  import opened Text
  import opened Changes

  const DATA_FIELD := "data: "

  // The JSON library: `decode` is None where it reports an error.
  datatype EventCodec = EventCodec(encode: Event -> string, decode: string -> Option<Event>)

  // Encoding is undone by decoding and escapes line feeds.
  ghost predicate Faithful(codec: EventCodec) {
    forall ev :: codec.decode(codec.encode(ev)) == Some(ev) && '\n' !in codec.encode(ev)
  }

  // ---------- The one-shot parser ----------

  predicate BlankAt(buf: string, i: nat) {
    i + 1 < |buf| && buf[i] == '\n' && buf[i + 1] == '\n'
  }

  // bytes.Index(buf, "\n\n")
  function IndexFrom(buf: string, i: nat): (k: int)
    requires forall j :: 0 <= j < i ==> !BlankAt(buf, j)
    ensures k == -1 || (0 <= k && BlankAt(buf, k))
    ensures forall j :: 0 <= j < (if k == -1 then |buf| else k) ==> !BlankAt(buf, j)
    decreases |buf| - i
  {
    if i >= |buf| then -1 else if BlankAt(buf, i) then i else IndexFrom(buf, i + 1)
  }

  function Index(buf: string): (k: int)
    ensures k == -1 || (0 <= k && BlankAt(buf, k))
    ensures forall j :: 0 <= j < (if k == -1 then |buf| else k) ==> !BlankAt(buf, j)
  {
    IndexFrom(buf, 0)
  }

  // The frames of a byte stream, and the incomplete tail.
  function Cut(buf: string): (seq<string>, string)
    decreases |buf|
  {
    var k := Index(buf);
    if k < 0 then ([], buf)
    else var (frames, tail) := Cut(buf[k + 2..]); ([buf[..k]] + frames, tail)
  }

  lemma CutStep(buf: string)
    ensures
      var k := Index(buf);
      if k < 0 then Cut(buf) == ([], buf)
      else Cut(buf) == ([buf[..k]] + Cut(buf[k + 2..]).0, Cut(buf[k + 2..]).1)
  {
  }

  function EventOf(codec: EventCodec, frame: string): Option<Event> {
    if HasPrefix(frame, DATA_FIELD) then codec.decode(TrimPrefix(frame, DATA_FIELD)) else None
  }

  function Events(codec: EventCodec, frames: seq<string>): seq<Event> {
    if frames == [] then []
    else
      var ev := EventOf(codec, frames[0]);
      (if ev.Some? then [ev.value] else []) + Events(codec, frames[1..])
  }

  function Joins(frames: seq<string>): string {
    if frames == [] then "" else frames[0] + "\n\n" + Joins(frames[1..])
  }

  // No blank line begins among the first n bytes.
  predicate Unbroken(s: string, n: nat) {
    forall j :: 0 <= j < n && j <= |s| ==> !HasPrefix(s[j..], "\n\n")
  }

  // The frames and the tail are the buffer, each frame ended by the first blank line after its
  // start, and the tail without one.
  lemma {:induction false} CutIsLeftmost(buf: string)
    ensures buf == Joins(Cut(buf).0) + Cut(buf).1
    ensures forall frame :: frame in Cut(buf).0 ==> Unbroken(frame + "\n\n", |frame|)
    ensures Unbroken(Cut(buf).1, |Cut(buf).1|)
    decreases |buf|
  {
    hide Cut, Index;
    CutStep(buf);
    var k := Index(buf);
    if k < 0 {
      BlankIsBreak(buf);
    } else {
      var rest, frame := buf[k + 2..], buf[..k];
      CutIsLeftmost(rest);
      assert buf == frame + "\n\n" + rest by { assert buf[k..k + 2] == "\n\n"; }
      assert Cut(buf).0 == [frame] + Cut(rest).0 && Cut(buf).0[1..] == Cut(rest).0;
      BlankIsBreak(frame + "\n\n");
      forall j | 0 <= j < k ensures !BlankAt(frame + "\n\n", j) {
        assert !BlankAt(buf, j);
        assert (frame + "\n\n")[j] == buf[j] && (frame + "\n\n")[j + 1] == buf[j + 1];
      }
    }
  }

  lemma BlankIsBreak(s: string)
    ensures forall j :: 0 <= j <= |s| ==> (HasPrefix(s[j..], "\n\n") <==> BlankAt(s, j))
  {
    forall j | 0 <= j <= |s| ensures HasPrefix(s[j..], "\n\n") <==> BlankAt(s, j) {
      if BlankAt(s, j) { assert s[j..][..2] == "\n\n"; }
      if HasPrefix(s[j..], "\n\n") { assert s[j] == s[j..][0] && s[j + 1] == s[j..][1]; }
    }
  }

  // One event for each frame that is a data field with the JSON of an event; others are skipped.
  lemma {:induction false} EventsOfDataFrames(codec: EventCodec, frames: seq<string>, frame: string)
    ensures Events(codec, frames + [frame]) ==
            if "data: " <= frame && codec.decode(frame[6..]).Some?
            then Events(codec, frames) + [codec.decode(frame[6..]).value] else Events(codec, frames)
  {
    EventsAppend(codec, frames, [frame]);
    assert [frame][1..] == [];
    assert TrimPrefix(frame, DATA_FIELD) == if "data: " <= frame then frame[6..] else frame;
  }

  // Deliveries to a callback that may refuse one, given all it has had; a refusal is the last.
  function Deliver(got: seq<Event>, rest: seq<Event>, refuses: seq<Event> -> bool): (seq<Event>, bool)
    decreases |rest|
  {
    if rest == [] then (got, false)
    else
      var more := got + [rest[0]];
      if refuses(more) then (more, true) else Deliver(more, rest[1..], refuses)
  }

  // ---------- The incremental parser ----------

  datatype ReadEnd = More | Eof | Broken

  // One Read of the body, and whether the context is done after it.
  datatype Read = Read(data: string, end: ReadEnd, cancelled: bool)

  datatype Ending = AtEof | AtError | Cancelled | Refused | Waiting

  function Joined(chunks: seq<Read>): string {
    if chunks == [] then "" else Joined(chunks[..|chunks| - 1]) + chunks[|chunks| - 1].data
  }

  lemma {:induction false} CutAppend(a: string, b: string)
    ensures
      var (front, tail) := Cut(a);
      var (back, rest) := Cut(tail + b);
      Cut(a + b) == (front + back, rest)
    decreases |a|
  {
    hide Cut, Index;
    var k := Index(a);
    CutStep(a);
    if k < 0 {
      assert [] + Cut(a + b).0 == Cut(a + b).0;
    } else {
      forall j | 0 <= j <= k ensures BlankAt(a + b, j) <==> BlankAt(a, j) {}
      assert Index(a + b) == k;
      CutAppend(a[k + 2..], b);
      CutStep(a + b);
      assert (a + b)[k + 2..] == a[k + 2..] + b && (a + b)[..k] == a[..k];
      var (front, tail) := Cut(a[k + 2..]);
      var (back, rest) := Cut(tail + b);
      assert [a[..k]] + (front + back) == ([a[..k]] + front) + back;
    }
  }

  lemma {:induction false} EventsAppend(codec: EventCodec, a: seq<string>, b: seq<string>)
    ensures Events(codec, a + b) == Events(codec, a) + Events(codec, b)
  {
    if a == [] {
      assert a + b == b;
    } else {
      EventsAppend(codec, a[1..], b);
      assert (a + b)[1..] == a[1..] + b;
    }
  }

  lemma {:induction false} DeliverAppend(got: seq<Event>, a: seq<Event>, b: seq<Event>, refuses: seq<Event> -> bool)
    ensures
      var (mid, refused) := Deliver(got, a, refuses);
      Deliver(got, a + b, refuses) == if refused then (mid, true) else Deliver(mid, b, refuses)
    decreases |a|
  {
    if a == [] {
      assert a + b == b;
    } else {
      assert (a + b)[1..] == a[1..] + b;
      DeliverAppend(got + [a[0]], a[1..], b, refuses);
    }
  }

  // The callback gets a first part of the rest, up to the first event it refuses.
  lemma {:induction false} DeliversUpToRefusal(got: seq<Event>, rest: seq<Event>, refuses: seq<Event> -> bool)
    returns (m: nat)
    ensures
      var (all, refused) := Deliver(got, rest, refuses);
      && m <= |rest| && all == got + rest[..m]
      && (forall j :: 0 < j < m ==> !refuses(got + rest[..j]))
      && (if refused then m > 0 && refuses(all) else m == |rest| && (m > 0 ==> !refuses(all)))
    decreases |rest|
  {
    m := 0;
    if rest != [] {
      var more := got + [rest[0]];
      forall j | 0 < j <= |rest| ensures more + rest[1..][..j - 1] == got + rest[..j] {}
      if refuses(more) {
        m := 1;
      } else {
        var n := DeliversUpToRefusal(more, rest[1..], refuses);
        m := n + 1;
        forall j | 0 < j < m ensures !refuses(got + rest[..j]) {
          assert got + rest[..j] == more + rest[1..][..j - 1];
          assert j == 1 ==> got + rest[..j] == more;
        }
      }
    }
  }

  // What a parse of the whole stream at once delivers.
  function OneShot(codec: EventCodec, stream: string, refuses: seq<Event> -> bool): (seq<Event>, bool) {
    Deliver([], Events(codec, Cut(stream).0), refuses)
  }

  // The inner loop: deliver all frames completed in buf.
  method Drain(codec: EventCodec, buf0: string, got0: seq<Event>, refuses: seq<Event> -> bool)
    returns (buf: string, got: seq<Event>, refused: bool)
    ensures (got, refused) == Deliver(got0, Events(codec, Cut(buf0).0), refuses)
    ensures !refused ==> buf == Cut(buf0).1
  {
    hide Cut, Events, Deliver, Index;
    buf, got := buf0, got0;
    while true
      invariant Deliver(got0, Events(codec, Cut(buf0).0), refuses) == Deliver(got, Events(codec, Cut(buf).0), refuses)
      invariant Cut(buf0).1 == Cut(buf).1
      decreases |buf|
    {
      CutStep(buf);
      var idx := Index(buf);
      if idx < 0 {
        NothingMore(codec, got, refuses);
        return buf, got, false;
      }
      var frame := buf[..idx];
      buf := buf[idx + 2..];
      DeliverFrame(codec, got, frame, Cut(buf).0, refuses);
      if HasPrefix(frame, DATA_FIELD) {
        var ev := codec.decode(TrimPrefix(frame, DATA_FIELD));
        if ev.Some? {
          got := got + [ev.value];
          if refuses(got) { return buf, got, true; }
        }
      }
    }
  }

  lemma NothingMore(codec: EventCodec, got: seq<Event>, refuses: seq<Event> -> bool)
    ensures Deliver(got, Events(codec, []), refuses) == (got, false)
  {
  }

  lemma DeliverFrame(codec: EventCodec, got: seq<Event>, frame: string, frames: seq<string>,
                     refuses: seq<Event> -> bool)
    ensures
      var ev := EventOf(codec, frame);
      Deliver(got, Events(codec, [frame] + frames), refuses) ==
      if ev.None? then Deliver(got, Events(codec, frames), refuses)
      else if refuses(got + [ev.value]) then (got + [ev.value], true)
      else Deliver(got + [ev.value], Events(codec, frames), refuses)
  {
    assert ([frame] + frames)[1..] == frames;
    var ev, rest := EventOf(codec, frame), Events(codec, frames);
    if ev.Some? {
      assert ([ev.value] + rest)[1..] == rest;
    } else {
      assert [] + rest == rest;
    }
  }

  // However the stream is split into reads, the callback gets what a one-shot parse of the
  // bytes read delivers. `n` reads were made.
  method Watch(codec: EventCodec, chunks: seq<Read>, refuses: seq<Event> -> bool)
    returns (got: seq<Event>, ending: Ending, n: nat)
    ensures n <= |chunks|
    ensures got == OneShot(codec, Joined(chunks[..n]), refuses).0
    ensures ending == Refused <==> OneShot(codec, Joined(chunks[..n]), refuses).1
    ensures forall i :: 0 <= i < n - 1 ==> chunks[i].end.More? && !chunks[i].cancelled
    ensures ending == Waiting ==> n == |chunks|
    ensures ending == AtEof ==> n > 0 && chunks[n - 1].end.Eof?
    ensures ending == AtError ==> n > 0 && chunks[n - 1].end.Broken?
    ensures ending == Cancelled ==> n > 0 && chunks[n - 1].cancelled
    ensures ending == Waiting ==> forall i :: 0 <= i < n ==> chunks[i].end.More? && !chunks[i].cancelled
    ensures ending != Refused && n > 0 ==>
      && (ending == AtEof <==> chunks[n - 1].end.Eof?)
      && (ending == AtError <==> chunks[n - 1].end.Broken?)
      && (ending == Cancelled <==> chunks[n - 1].end.More? && chunks[n - 1].cancelled)
  {
    hide Cut, Events, Deliver, Index;
    var buf := "";
    got, n := [], 0;
    CutStep("");
    NothingMore(codec, [], refuses);
    assert chunks[..0] == [];
    while n < |chunks|
      invariant n <= |chunks|
      invariant buf == Cut(Joined(chunks[..n])).1
      invariant (got, false) == OneShot(codec, Joined(chunks[..n]), refuses)
      invariant forall i :: 0 <= i < n ==> chunks[i].end.More? && !chunks[i].cancelled
    {
      var read := chunks[n];
      ghost var before := Joined(chunks[..n]);
      n := n + 1;
      JoinedStep(chunks, n);
      OneShotStep(codec, before, read.data, refuses);
      var refused := false;
      if |read.data| > 0 {
        buf, got, refused := Drain(codec, buf + read.data, got, refuses);
        if refused { return got, Refused, n; }
      } else {
        assert before + read.data == before;
      }
      if read.end.Eof? { return got, AtEof, n; }
      if read.end.Broken? { return got, AtError, n; }
      if read.cancelled { return got, Cancelled, n; }
    }
    assert chunks[..|chunks|] == chunks;
    ending := Waiting;
  }

  lemma JoinedStep(chunks: seq<Read>, n: nat)
    requires 0 < n <= |chunks|
    ensures Joined(chunks[..n]) == Joined(chunks[..n - 1]) + chunks[n - 1].data
  {
    assert chunks[..n][..n - 1] == chunks[..n - 1];
  }

  lemma {:induction false} JoinedPrefix(chunks: seq<Read>, n: nat)
    requires n <= |chunks|
    ensures Joined(chunks[..n]) <= Joined(chunks)
    decreases |chunks|
  {
    if n == |chunks| {
      assert chunks[..n] == chunks;
    } else {
      var front := chunks[..|chunks| - 1];
      JoinedPrefix(front, n);
      assert front[..n] == chunks[..n];
    }
  }

  // Parsing more bytes goes on from the tail.
  lemma OneShotStep(codec: EventCodec, before: string, more: string, refuses: seq<Event> -> bool)
    ensures
      var (got, refused) := OneShot(codec, before, refuses);
      var (frames, tail) := Cut(Cut(before).1 + more);
      && Cut(before + more).1 == tail
      && OneShot(codec, before + more, refuses) ==
         if refused then (got, true) else Deliver(got, Events(codec, frames), refuses)
  {
    hide Cut, Events, Deliver;
    var frames := Cut(Cut(before).1 + more).0;
    CutAppend(before, more);
    EventsAppend(codec, Cut(before).0, frames);
    DeliverAppend([], Events(codec, Cut(before).0), Events(codec, frames), refuses);
  }

  // ---------- The server's writer ----------

  function Frame(codec: EventCodec, ev: Event): string {
    DATA_FIELD + codec.encode(ev) + "\n\n"
  }

  function Written(codec: EventCodec, events: seq<Event>): string {
    if events == [] then "" else Frame(codec, events[0]) + Written(codec, events[1..])
  }

  lemma {:induction false} WrittenSnoc(codec: EventCodec, events: seq<Event>, ev: Event)
    ensures Written(codec, events + [ev]) == Written(codec, events) + Frame(codec, ev)
    ensures Frame(codec, ev) == "data: " + codec.encode(ev) + "\n\n"
  {
    if events == [] {
      assert [ev][1..] == [] && events + [ev] == [ev];
    } else {
      WrittenSnoc(codec, events[1..], ev);
      assert (events + [ev])[1..] == events[1..] + [ev];
    }
  }

  lemma FirstFrame(codec: EventCodec, ev: Event, rest: string)
    requires Faithful(codec)
    ensures Cut(Frame(codec, ev) + rest).0 == [DATA_FIELD + codec.encode(ev)] + Cut(rest).0
    ensures Cut(Frame(codec, ev) + rest).1 == Cut(rest).1
    ensures EventOf(codec, DATA_FIELD + codec.encode(ev)) == Some(ev)
  {
    var line := DATA_FIELD + codec.encode(ev);
    var buf := Frame(codec, ev) + rest;
    NoLineFeed(codec, ev);
    forall j | 0 <= j < |line| ensures !BlankAt(buf, j) {
      assert buf[j] == line[j] && line[j] in line;
    }
    assert BlankAt(buf, |line|);
    assert Index(buf) == |line|;
    assert buf[..|line|] == line && buf[|line| + 2..] == rest;
    TrimPrefixInverse(codec.encode(ev), DATA_FIELD);
    assert HasPrefix(line, DATA_FIELD);
  }

  lemma NoLineFeed(codec: EventCodec, ev: Event)
    requires Faithful(codec)
    ensures '\n' !in DATA_FIELD + codec.encode(ev)
    ensures codec.decode(codec.encode(ev)) == Some(ev)
  {
  }

  lemma ShortFrame(codec: EventCodec, ev: Event, part: string)
    requires Faithful(codec) && part <= Frame(codec, ev) && |part| < |Frame(codec, ev)|
    ensures Cut(part) == ([], part)
  {
    var line := DATA_FIELD + codec.encode(ev);
    NoLineFeed(codec, ev);
    forall j | 0 <= j < |part| ensures !BlankAt(part, j) {
      assert j < |line| ==> part[j] == line[j] && line[j] in line;
    }
  }

  // Where a cut of the written stream falls: k whole frames are before it.
  ghost predicate CutAfter(codec: EventCodec, events: seq<Event>, part: string, k: nat) {
    && k <= |events|
    && Written(codec, events[..k]) <= part
    && (k < |events| ==> |part| < |Written(codec, events[..k + 1])|)
  }

  lemma CutAfterFirst(codec: EventCodec, events: seq<Event>, rest: string, m: nat)
    requires events != [] && CutAfter(codec, events[1..], rest, m)
    ensures CutAfter(codec, events, Frame(codec, events[0]) + rest, m + 1)
  {
    hide Frame;
    WrittenFirst(codec, events, m + 1);
    if m + 1 < |events| { WrittenFirst(codec, events, m + 2); }
  }

  lemma WrittenFirst(codec: EventCodec, events: seq<Event>, k: nat)
    requires 0 < k <= |events|
    ensures Written(codec, events[..k]) == Frame(codec, events[0]) + Written(codec, events[1..][..k - 1])
  {
    hide Frame;
    assert events[..k][1..] == events[1..][..k - 1];
  }

  // Reading back what the server wrote, cut off anywhere: the events whose frames are
  // complete, in order, and nothing else.
  lemma {:induction false} WrittenReadsBack(codec: EventCodec, events: seq<Event>, part: string) returns (k: nat)
    requires Faithful(codec) && part <= Written(codec, events)
    ensures k <= |events| && CutAfter(codec, events, part, k)
    ensures Events(codec, Cut(part).0) == events[..k]
    ensures part == Written(codec, events) ==> k == |events| && Cut(part).1 == ""
    decreases |events|
  {
    hide Frame, Cut, CutAfter;
    if events == [] {
      k := NothingWritten(codec);
    } else {
      var first := Frame(codec, events[0]);
      assert part == Written(codec, events)[..|part|];
      if |part| < |first| {
        assert part <= first;
        k := FirstCut(codec, events, part);
      } else {
        var rest := part[|first|..];
        assert part == first + rest;
        assert rest <= Written(codec, events[1..]);
        var m := WrittenReadsBack(codec, events[1..], rest);
        CutAfterFirst(codec, events, rest, m);
        FirstFrame(codec, events[0], rest);
        k := m + 1;
        assert events[..k] == [events[0]] + events[1..][..m];
        assert Cut(part).0[1..] == Cut(rest).0;
      }
    }
  }

  lemma NothingWritten(codec: EventCodec) returns (k: nat)
    ensures k == 0 && CutAfter(codec, [], "", k) && Cut("") == ([], "")
  {
    k := 0;
  }

  lemma FirstCut(codec: EventCodec, events: seq<Event>, part: string) returns (k: nat)
    requires Faithful(codec) && events != [] && part <= Frame(codec, events[0]) && |part| < |Frame(codec, events[0])|
    ensures k == 0 && CutAfter(codec, events, part, k) && Cut(part) == ([], part)
    ensures part != Written(codec, events)
  {
    k := 0;
    ShortFrame(codec, events[0], part);
    WrittenFirst(codec, events, 1);
  }
}
