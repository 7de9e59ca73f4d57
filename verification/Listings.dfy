// A List reads the pointer to the current index without the store's lock, and the entries
// under the lock of that index alone, while a refresh swaps in an empty index and fills it.
module Listings {
  import Text
  import opened Documents
  import opened Git
  import opened Indexes
  import opened Store
  import opened StoreCache

  // All indexes made so far, the last one current, each with the tree it is filled from and
  // the files of it already visited.
  datatype Memory = Memory(objects: seq<Entries>, trees: seq<Tree>, visited: seq<set<string>>)

  datatype Act = Swap(tree: Tree) | Visit(name: string)

  predicate WellFormed(m: Memory) {
    |m.objects| == |m.trees| == |m.visited|
  }

  function Filled(codec: Codec, entries: Entries, name: string, raw: string): Entries {
    var env, p := ParseEnvelope(codec, raw), Text.TrimPrefix(name, DATA);
    if Text.HasPrefix(name, DATA) && env.Ok? then entries[p := DocEntry(p, raw, env.value.metadata)] else entries
  }

  function Do(codec: Codec, m: Memory, act: Act): (m': Memory)
    requires WellFormed(m)
    ensures WellFormed(m') && |m'.objects| >= |m.objects|
  {
    match act
    case Swap(tree) => Memory(m.objects + [map[]], m.trees + [tree], m.visited + [{}])
    case Visit(name) =>
      var i := |m.objects| - 1;
      if i < 0 || name !in m.trees[i] || name in m.visited[i] then m
      else Memory(m.objects[i := Filled(codec, m.objects[i], name, m.trees[i][name])], m.trees,
                  m.visited[i := m.visited[i] + {name}])
  }

  function After(codec: Codec, m: Memory, acts: seq<Act>): (m': Memory)
    requires WellFormed(m)
    ensures WellFormed(m') && |m'.objects| >= |m.objects|
    decreases |acts|
  {
    if acts == [] then m else After(codec, Do(codec, m, acts[0]), acts[1..])
  }

  function Part(tree: Tree, visited: set<string>): Tree {
    Readable(tree, FileFails(visited))
  }

  ghost predicate Faithful(codec: Codec, m: Memory) {
    WellFormed(m) && forall i :: 0 <= i < |m.objects| ==> m.objects[i] == Project(codec, Part(m.trees[i], m.visited[i]))
  }

  lemma DoIsFaithful(codec: Codec, m: Memory, act: Act)
    requires Faithful(codec, m)
    ensures Faithful(codec, Do(codec, m, act))
  {
    hide Project, ParseEnvelope, Text.HasPrefix, Text.TrimPrefix;
    match act
    case Swap(tree) =>
      assert Part(tree, {}) == map[];
      ProjectNothing(codec);
    case Visit(name) =>
      var i := |m.objects| - 1;
      if i >= 0 && name in m.trees[i] && name !in m.visited[i] {
        var part, raw := Part(m.trees[i], m.visited[i]), m.trees[i][name];
        assert Part(m.trees[i], m.visited[i] + {name}) == part[name := raw];
        ProjectMore(codec, part, name, raw);
      }
  }

  // ---------- A refresh is a Swap and then Visits ----------

  // From a fresh index over `tree` these acts reach `entries`, having visited `seen`.
  ghost predicate FillsTo(codec: Codec, tree: Tree, visits: seq<Act>, entries: Entries, seen: set<string>) {
    && (forall i :: 0 <= i < |visits| ==> visits[i].Visit?)
    && After(codec, Memory([map[]], [tree], [{}]), visits) == Memory([entries], [tree], [seen])
  }

  ghost predicate Fills(codec: Codec, tree: Tree, visits: seq<Act>, entries: Entries) {
    FillsTo(codec, tree, visits, entries, tree.Keys)
  }

  lemma NothingFilled(codec: Codec, tree: Tree)
    ensures FillsTo(codec, tree, [], map[], {})
  {
  }

  lemma FilledAll(codec: Codec, tree: Tree, visits: seq<Act>, entries: Entries)
    requires FillsTo(codec, tree, visits, entries, tree.Keys)
    ensures Fills(codec, tree, visits, entries)
  {
  }

  lemma {:induction false} AfterSnoc(codec: Codec, m: Memory, acts: seq<Act>, act: Act)
    requires WellFormed(m)
    ensures After(codec, m, acts + [act]) == Do(codec, After(codec, m, acts), act)
    decreases |acts|
  {
    hide Do;
    if acts == [] {
      assert [act][1..] == [] && acts + [act] == [act];
    } else {
      assert (acts + [act])[1..] == acts[1..] + [act];
      AfterSnoc(codec, Do(codec, m, acts[0]), acts[1..], act);
    }
  }

  lemma FillsOneMore(codec: Codec, tree: Tree, visits: seq<Act>, entries: Entries, seen: set<string>, name: string)
    requires FillsTo(codec, tree, visits, entries, seen) && name in tree && name !in seen
    ensures FillsTo(codec, tree, visits + [Visit(name)], Filled(codec, entries, name, tree[name]), seen + {name})
  {
    hide Filled;
    AfterSnoc(codec, Memory([map[]], [tree], [{}]), visits, Visit(name));
  }

  // `m` with one more index.
  function Plus(m: Memory, entries: Entries, tree: Tree, seen: set<string>): (m': Memory)
    requires WellFormed(m)
    ensures WellFormed(m')
  {
    Memory(m.objects + [entries], m.trees + [tree], m.visited + [seen])
  }

  lemma VisitLast(codec: Codec, m: Memory, entries: Entries, tree: Tree, seen: set<string>, name: string)
    requires WellFormed(m)
    ensures
      var one := Do(codec, Memory([entries], [tree], [seen]), Visit(name));
      Do(codec, Plus(m, entries, tree, seen), Visit(name)) == Plus(m, one.objects[0], one.trees[0], one.visited[0])
  {
    hide Filled;
    var big, i := Plus(m, entries, tree, seen), |m.objects|;
    assert big.objects[i] == entries && big.trees[i] == tree && big.visited[i] == seen;
  }

  // What the visits do to an index alone they do to the current one among others.
  lemma {:induction false} VisitsFillTheLast(codec: Codec, m: Memory, entries: Entries, tree: Tree, seen: set<string>,
                                             visits: seq<Act>)
    requires WellFormed(m) && forall i :: 0 <= i < |visits| ==> visits[i].Visit?
    ensures
      var one := After(codec, Memory([entries], [tree], [seen]), visits);
      && |one.objects| == 1
      && After(codec, Plus(m, entries, tree, seen), visits) == Plus(m, one.objects[0], one.trees[0], one.visited[0])
    decreases |visits|
  {
    if visits != [] {
      var one := Do(codec, Memory([entries], [tree], [seen]), visits[0]);
      VisitLast(codec, m, entries, tree, seen, visits[0].name);
      assert one == Memory([one.objects[0]], [one.trees[0]], [one.visited[0]]);
      VisitsFillTheLast(codec, m, one.objects[0], one.trees[0], one.visited[0], visits[1..]);
    }
  }

  // So a refresh, whose visits FillIndex returns, is a Swap and then those visits; it ends with
  // a complete new current index, the others as they were.
  lemma RefreshIsSwapThenVisits(codec: Codec, m: Memory, tree: Tree, visits: seq<Act>, entries: Entries)
    requires WellFormed(m) && Fills(codec, tree, visits, entries)
    ensures After(codec, m, [Swap(tree)] + visits) == Plus(m, entries, tree, tree.Keys)
  {
    assert ([Swap(tree)] + visits)[1..] == visits;
    VisitsFillTheLast(codec, m, map[], tree, {}, visits);
  }

  // ---------- What a List sees ----------

  // An index keeps its tree, only gains visited files while it is current, and is left alone
  // once it is complete or replaced.
  lemma DoKeepsOthers(codec: Codec, m: Memory, act: Act, i: nat)
    requires Faithful(codec, m) && i < |m.objects|
    ensures
      var m' := Do(codec, m, act);
      && m'.trees[i] == m.trees[i]
      && m.visited[i] <= m'.visited[i]
      && (i < |m.objects| - 1 || m.trees[i].Keys <= m.visited[i] ==>
            m'.objects[i] == m.objects[i] && m'.visited[i] == m.visited[i])
  {
  }

  // Whatever happens between reading the pointer and reading the entries, a List sees the
  // projection of a part of one tree, never a mix of two; all of it if the index was complete
  // when the pointer was read; and an index already replaced looks as it did when it was.
  lemma {:induction false} ListSeesOneTree(codec: Codec, m: Memory, i: nat, acts: seq<Act>)
    requires Faithful(codec, m) && i < |m.objects|
    ensures
      var m' := After(codec, m, acts);
      && Faithful(codec, m')
      && m'.objects[i] == Project(codec, Part(m.trees[i], m'.visited[i]))
      && m'.objects[i].Keys <= Project(codec, m.trees[i]).Keys
      && m.visited[i] <= m'.visited[i]
      && (m.trees[i].Keys <= m.visited[i] ==> m'.objects[i] == Project(codec, m.trees[i]))
      && (i < |m.objects| - 1 ==> m'.objects[i] == m.objects[i])
    decreases |acts|
  {
    hide Do, Project;
    if acts == [] {
      PartialProjection(codec, m.trees[i], FileFails(m.visited[i]));
      if m.trees[i].Keys <= m.visited[i] { assert Part(m.trees[i], m.visited[i]) == m.trees[i]; }
    } else {
      DoIsFaithful(codec, m, acts[0]);
      DoKeepsOthers(codec, m, acts[0], i);
      ListSeesOneTree(codec, Do(codec, m, acts[0]), i, acts[1..]);
    }
  }
}
