// The git commands the store runs, as pkg/store/gitstore.go runs them: each may be refused
// by git's own rules, may fail before it does anything, and may fail after it took effect.
module Git {
  import opened Wrappers

  // Path from the repository root to file contents.
  type Tree = map<string, string>

  // `stamp` stands for all that sets two commits of one tree apart (author, time, message).
  datatype Commit = Commit(stamp: nat, tree: Tree)

  // A branch, oldest commit first: `a <= b` says that the tip of `a` is an ancestor of, or
  // is, the tip of `b`. A hash names its whole ancestry, so a history also serves as one.
  type History = seq<Commit>

  datatype Repo = Repo(worktree: Tree, staged: Tree, local: History, remote: History)

  datatype Fault = Works | FailsBefore | FailsAfter

  // `said`: the output holds the phrase the caller looks for.
  datatype Outcome = Outcome(repo: Repo, ok: bool, said: bool)

  function At(tree: Tree, path: string): Option<string> {
    if path in tree then Some(tree[path]) else None
  }

  function Tip(h: History): Tree {
    if h == [] then map[] else h[|h| - 1].tree
  }

  function Head(r: Repo): Tree {
    Tip(r.local)
  }

  function Settle(f: Fault, before: Repo, after: Repo): Outcome {
    match f
    case Works => Outcome(after, true, false)
    case FailsBefore => Outcome(before, false, false)
    case FailsAfter => Outcome(after, false, false)
  }

  // git add path, where the file exists.
  function Add(r: Repo, path: string, f: Fault): Outcome
    requires path in r.worktree
  {
    Settle(f, r, r.(staged := r.staged[path := r.worktree[path]]))
  }

  // git rm path: the entry must equal HEAD, and the file, if there, must equal the entry.
  predicate Removable(r: Repo, path: string) {
    && path in r.staged
    && At(Head(r), path) == At(r.staged, path)
    && (path in r.worktree ==> r.worktree[path] == r.staged[path])
  }

  function Remove(r: Repo, path: string, f: Fault): Outcome {
    if !Removable(r, path) then Outcome(r, false, false)
    else Settle(f, r, r.(worktree := r.worktree - {path}, staged := r.staged - {path}))
  }

  // git commit: refused when nothing is staged; it says "nothing to commit" only when the
  // worktree is clean as well.
  function MakeCommit(r: Repo, stamp: nat, f: Fault): Outcome {
    if r.staged == Head(r) then Outcome(r, false, !f.FailsBefore? && r.worktree == r.staged)
    else Settle(f, r, r.(local := r.local + [Commit(stamp, r.staged)]))
  }

  // git push: only a fast-forward of the remote branch is accepted.
  function Push(r: Repo, f: Fault): Outcome {
    if r.remote <= r.local then Settle(f, r, r.(remote := r.local)) else Outcome(r, false, false)
  }

  function Changed(ours: Tree, theirs: Tree): set<string> {
    set p | p in ours.Keys + theirs.Keys && At(ours, p) != At(theirs, p)
  }

  function Overlay(base: Tree, top: Tree, paths: set<string>): (t: Tree)
    ensures forall p :: At(t, p) == if p in paths then At(top, p) else At(base, p)
  {
    (base - paths) + (map p | p in top && p in paths :: top[p])
  }

  // git read-tree's two-tree rule: a path that differs between the tips must be clean, or
  // be staged with the new contents already.
  predicate Mergeable(r: Repo, theirs: Tree) {
    forall p :: p in Changed(Head(r), theirs) ==>
      || (At(r.staged, p) == At(Head(r), p) && At(r.worktree, p) == At(r.staged, p))
      || At(r.staged, p) == At(theirs, p)
  }

  function FastForward(r: Repo, theirs: History): Repo {
    var changed := Changed(Head(r), Tip(theirs));
    var moved := set p | p in changed && At(r.staged, p) == At(Head(r), p);
    Repo(Overlay(r.worktree, Tip(theirs), moved), Overlay(r.staged, Tip(theirs), changed), theirs, r.remote)
  }

  // git merge --ff-only FETCH_HEAD; it says "Already up to date" when there is nothing to do.
  function Merge(r: Repo, theirs: History, f: Fault): Outcome {
    if theirs <= r.local then Outcome(r, f.Works?, !f.FailsBefore?)
    else if r.local <= theirs && Mergeable(r, Tip(theirs)) then Settle(f, r, FastForward(r, theirs))
    else Outcome(r, false, false)
  }
}
