// pkg/store/index.go
module Indexes {
  import opened Documents
  import opened Text

  datatype DocEntry = DocEntry(path: string, blob: string, metadata: Metadata)

  type Entries = map<string, DocEntry>

  ghost predicate KeyedByPath(entries: Entries) {
    forall p :: p in entries ==> entries[p].path == p
  }

  // Go reads a missing label as "".
  function Label(m: Metadata, key: string): string {
    if key in m.labels then m.labels[key] else ""
  }

  predicate Passes(e: DocEntry, prefix: string, labelKey: string, labelVal: string) {
    && HasPrefix(e.path, prefix)
    && (labelKey != "" ==> Label(e.metadata, labelKey) == labelVal)
  }

  ghost predicate Ascending(xs: seq<DocEntry>) {
    forall i, j :: 0 <= i < j < |xs| ==> Less(xs[i].path, xs[j].path)
  }

  // The sorted, duplicate-free selection of `entries`.
  ghost predicate IsListing(xs: seq<DocEntry>, entries: Entries, prefix: string, labelKey: string, labelVal: string) {
    && Ascending(xs)
    && forall e :: e in xs <==> e.path in entries && entries[e.path] == e && Passes(e, prefix, labelKey, labelVal)
  }

  lemma TailElements(xs: seq<DocEntry>, e: DocEntry)
    requires Ascending(xs) && xs != []
    ensures e in xs[1..] <==> e in xs && e != xs[0]
  {
    assert xs == [xs[0]] + xs[1..];
    if e in xs[1..] {
      var i :| 0 <= i < |xs| - 1 && xs[1..][i] == e;
      assert Less(xs[0].path, xs[i + 1].path);
      LessIsIrreflexive(e.path);
    }
  }

  // There is one such sequence, whatever order the map was walked in.
  lemma {:induction false} SameElementsSameOrder(xs: seq<DocEntry>, ys: seq<DocEntry>)
    requires Ascending(xs) && Ascending(ys)
    requires forall e :: e in xs <==> e in ys
    ensures xs == ys
  {
    assert |ys| > 0 ==> ys[0] in ys;
    if xs == [] {
    } else {
      assert xs[0] in ys;
      var x, y := xs[0], ys[0];
      if x != y {
        assert y in xs;
        assert Less(x.path, y.path) && Less(y.path, x.path);
        LessIsTransitive(x.path, y.path, x.path);
        LessIsIrreflexive(x.path);
      }
      forall e ensures e in xs[1..] <==> e in ys[1..] {
        TailElements(xs, e);
        TailElements(ys, e);
      }
      SameElementsSameOrder(xs[1..], ys[1..]);
      assert xs == [x] + xs[1..] && ys == [x] + ys[1..];
    }
  }

  lemma ListingIsUnique(xs: seq<DocEntry>, ys: seq<DocEntry>, entries: Entries,
                        prefix: string, labelKey: string, labelVal: string)
    requires IsListing(xs, entries, prefix, labelKey, labelVal)
    requires IsListing(ys, entries, prefix, labelKey, labelVal)
    ensures xs == ys
  {
    SameElementsSameOrder(xs, ys);
  }

  // sort.Slice by path, on entries of distinct paths.
  method InsertByPath(xs: seq<DocEntry>, e: DocEntry) returns (ys: seq<DocEntry>)
    requires Ascending(xs) && forall x :: x in xs ==> x.path != e.path
    ensures Ascending(ys) && forall x :: x in ys <==> x in xs || x == e
  {
    var i := 0;
    while i < |xs| && Less(xs[i].path, e.path)
      invariant 0 <= i <= |xs|
      invariant forall j :: 0 <= j < i ==> Less(xs[j].path, e.path)
    {
      i := i + 1;
    }
    if i < |xs| {
      LessIsTotal(xs[i].path, e.path);
      forall j | i < j < |xs| ensures Less(e.path, xs[j].path) {
        LessIsTransitive(e.path, xs[i].path, xs[j].path);
      }
    }
    ys := xs[..i] + [e] + xs[i..];
    assert xs == xs[..i] + xs[i..];
  }

  class Index {
    var entries: Entries

    constructor ()
      ensures entries == map[]
    {
      entries := map[];
    }

    method Set(path: string, e: DocEntry)
      modifies this
      ensures entries == old(entries)[path := e]
    {
      entries := entries[path := e];
    }

    method Snapshot() returns (copy: Entries)
      ensures copy == entries
    {
      copy := map[];
      var rest := entries.Keys;
      while rest != {}
        invariant rest <= entries.Keys
        invariant copy == entries - rest
        decreases rest
      {
        var p :| p in rest;
        copy := copy[p := entries[p]];
        rest := rest - {p};
      }
    }

    // Set is only ever given an entry under its own path.
    method List(prefix: string, labelKey: string, labelVal: string) returns (out: seq<DocEntry>)
      requires KeyedByPath(entries)
      ensures IsListing(out, entries, prefix, labelKey, labelVal)
      ensures forall e :: e in out <==>
        && e.path in entries && entries[e.path] == e && prefix <= e.path
        && (labelKey == "" || (if labelKey in e.metadata.labels then e.metadata.labels[labelKey] else "") == labelVal)
    {
      out := [];
      var rest := entries.Keys;
      while rest != {}
        invariant rest <= entries.Keys
        invariant IsListing(out, entries - rest, prefix, labelKey, labelVal)
        decreases rest
      {
        var p :| p in rest;
        var e := entries[p];
        ghost var seen := entries - rest;
        rest := rest - {p};
        assert entries - rest == seen[p := e];
        if prefix != "" && !HasPrefix(p, prefix) { continue; }
        if labelKey != "" {
          if Label(e.metadata, labelKey) != labelVal { continue; }
        }
        out := InsertByPath(out, e);
      }
      assert entries - rest == entries;
    }
  }
}
