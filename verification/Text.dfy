// String tests of the Go standard library that the code relies on. A Go string is a
// string of bytes: one `char` stands for one byte.
module Text {
  predicate HasPrefix(s: string, prefix: string) {
    prefix <= s
  }

  predicate HasSuffix(s: string, suffix: string) {
    |suffix| <= |s| && s[|s| - |suffix|..] == suffix
  }

  function TrimPrefix(s: string, prefix: string): string {
    if HasPrefix(s, prefix) then s[|prefix|..] else s
  }

  function TrimSuffix(s: string, suffix: string): string {
    if HasSuffix(s, suffix) then s[..|s| - |suffix|] else s
  }

  lemma TrimPrefixInverse(s: string, prefix: string)
    ensures TrimPrefix(prefix + s, prefix) == s
    ensures HasPrefix(s, prefix) ==> prefix + TrimPrefix(s, prefix) == s
    ensures !HasPrefix(s, prefix) ==> TrimPrefix(s, prefix) == s
  {
    assert (prefix + s)[|prefix|..] == s;
  }

  // Go's `<` on strings.
  predicate Less(a: string, b: string) {
    if b == [] then false
    else if a == [] then true
    else a[0] < b[0] || (a[0] == b[0] && Less(a[1..], b[1..]))
  }

  lemma {:induction false} LessIsIrreflexive(a: string)
    ensures !Less(a, a)
  {
    if a != [] { LessIsIrreflexive(a[1..]); }
  }

  lemma {:induction false} LessIsTotal(a: string, b: string)
    ensures Less(a, b) || a == b || Less(b, a)
  {
    if a != [] && b != [] {
      LessIsTotal(a[1..], b[1..]);
      assert a == [a[0]] + a[1..] && b == [b[0]] + b[1..];
    }
  }

  lemma {:induction false} LessIsTransitive(a: string, b: string, c: string)
    requires Less(a, b) && Less(b, c)
    ensures Less(a, c)
  {
    if a != [] && a[0] == b[0] && b[0] == c[0] {
      LessIsTransitive(a[1..], b[1..], c[1..]);
    }
  }

  // They agree on n bytes, and there a ends or has the smaller byte.
  predicate LessAt(a: string, b: string, n: nat) {
    n <= |a| && n < |b| && a[..n] == b[..n] && (n < |a| ==> a[n] < b[n])
  }

  lemma LessAtNext(a: string, b: string, n: nat)
    requires a != [] && b != []
    ensures LessAt(a, b, n + 1) <==> a[0] == b[0] && LessAt(a[1..], b[1..], n)
  {
    if n < |a| && n < |b| {
      assert a[..n + 1] == [a[0]] + a[1..][..n] && b[..n + 1] == [b[0]] + b[1..][..n];
      assert a[..n + 1] == b[..n + 1] ==> a[0] == a[..n + 1][0] == b[0] && a[1..][..n] == a[..n + 1][1..];
      assert a[..n + 1] == b[..n + 1] ==> b[1..][..n] == b[..n + 1][1..];
    }
  }

  // The order of Go's strings is lexicographic in the bytes.
  lemma {:induction false} LessIsLexicographic(a: string, b: string)
    ensures Less(a, b) <==> exists n :: LessAt(a, b, n)
  {
    if a != [] && b != [] {
      LessIsLexicographic(a[1..], b[1..]);
      forall n: nat ensures LessAt(a, b, n) <==>
        if n == 0 then a[0] < b[0] else a[0] == b[0] && LessAt(a[1..], b[1..], n - 1)
      {
        if n > 0 { LessAtNext(a, b, n - 1); }
      }
      if n :| LessAt(a[1..], b[1..], n) { LessAtNext(a, b, n); }
      assert LessAt(a, b, 0) <==> a[0] < b[0];
    } else if b != [] {
      assert LessAt(a, b, 0);
    }
  }

  // `strings.Split(s, "/")`: never empty.
  function Split(s: string): (segments: seq<string>)
    ensures |segments| > 0
  {
    if s == "" then [""]
    else if s[0] == '/' then [""] + Split(s[1..])
    else var rest := Split(s[1..]); [[s[0]] + rest[0]] + rest[1..]
  }

  // `path` is `dir` itself or lies below it.
  predicate Under(path: string, dir: string) {
    path == dir || HasPrefix(path, dir + "/")
  }

  lemma FirstSegment(s: string)
    ensures Split(s)[0] == "" <==> s == "" || s[0] == '/'
    ensures s != "" && s[0] != '/' ==> Split(s)[0][0] == s[0]
  {
    if s != "" && s[0] != '/' {
      assert Split(s)[0] == [s[0]] + Split(s[1..])[0];
    }
  }

  // The string test agrees with the order of paths as lists of segments.
  lemma {:induction false} UnderIsSegmentPrefix(path: string, dir: string)
    ensures Under(path, dir) <==> Split(dir) <= Split(path)
  {
    if dir == "" {
      assert dir + "/" == "/";
      FirstSegment(path);
    } else if path == "" {
      FirstSegment(dir);
    } else {
      UnderIsSegmentPrefix(path[1..], dir[1..]);
      var d, p := Split(dir[1..]), Split(path[1..]);
      assert dir + "/" == [dir[0]] + (dir[1..] + "/");
      assert dir == [dir[0]] + dir[1..] && path == [path[0]] + path[1..];
      if dir[0] == path[0] {
        assert Under(path, dir) <==> Under(path[1..], dir[1..]);
        if dir[0] == '/' {
          assert Split(dir)[1..] == d && Split(path)[1..] == p;
          assert Split(dir) <= Split(path) <==> d <= p;
        } else {
          SameHead(dir[0], d, p);
        }
      } else {
        FirstSegment(dir);
        FirstSegment(path);
        assert Split(dir)[0] != Split(path)[0];
      }
    }
  }

  lemma SameHead(c: char, d: seq<string>, p: seq<string>)
    requires |d| > 0 && |p| > 0
    ensures [[c] + d[0]] + d[1..] <= [[c] + p[0]] + p[1..] <==> d <= p
  {
    var x, y := [[c] + d[0]] + d[1..], [[c] + p[0]] + p[1..];
    if d <= p {
      assert x == y[..|x|];
    }
    if x <= y {
      assert x[0][1..] == d[0] && y[0][1..] == p[0];
      forall i | 0 <= i < |d| ensures d[i] == p[i] {
        assert x[i] == y[i];
        if i > 0 { assert x[i] == d[i] && y[i] == p[i]; }
      }
      assert d == p[..|d|];
    }
  }

  lemma {:induction false} SplitSnoc(dir: string, name: string)
    requires '/' !in name
    ensures Split(dir + "/" + name) == Split(dir) + [name]
  {
    var s := dir + "/" + name;
    if dir == "" {
      assert s[1..] == name;
      SplitName(name);
    } else {
      assert s[1..] == dir[1..] + "/" + name;
      SplitSnoc(dir[1..], name);
      var d := Split(dir[1..]);
      if dir[0] != '/' {
        assert (d + [name])[1..] == d[1..] + [name];
      }
    }
  }

  lemma {:induction false} SplitName(name: string)
    requires '/' !in name
    ensures Split(name) == [name]
  {
    if name != "" {
      SplitName(name[1..]);
      assert name == [name[0]] + name[1..];
    }
  }

  lemma {:induction false} SplitCons(name: string, rest: string)
    requires '/' !in name
    ensures Split(name + "/" + rest) == [name] + Split(rest)
  {
    var s := name + "/" + rest;
    if name == "" {
      assert s[1..] == rest;
    } else {
      assert s[1..] == name[1..] + "/" + rest;
      SplitCons(name[1..], rest);
      assert name == [name[0]] + name[1..];
    }
  }

  lemma {:induction false} HeadSegment(s: string)
    requires |Split(s)| > 1
    ensures '/' !in Split(s)[0] && HasPrefix(s, Split(s)[0] + "/")
  {
    if s[0] != '/' {
      HeadSegment(s[1..]);
      var name := Split(s[1..])[0];
      assert Split(s)[0] == [s[0]] + name;
      assert s == [s[0]] + s[1..] && [s[0]] + name + "/" == [s[0]] + (name + "/");
    }
  }

  // A prefix that ends in a slash is a first segment that others follow; trimming it drops
  // that segment.
  lemma PrefixIsSegment(s: string, name: string)
    requires '/' !in name
    ensures HasPrefix(s, name + "/") <==> |Split(s)| > 1 && Split(s)[0] == name
    ensures Split(TrimPrefix(s, name + "/")) ==
            if |Split(s)| > 1 && Split(s)[0] == name then Split(s)[1..] else Split(s)
  {
    if HasPrefix(s, name + "/") {
      var rest := TrimPrefix(s, name + "/");
      assert s == name + "/" + rest;
      SplitCons(name, rest);
    } else if |Split(s)| > 1 {
      HeadSegment(s);
    }
  }

  lemma {:induction false} SplitInjective(a: string, b: string)
    requires Split(a) == Split(b)
    ensures a == b
  {
    FirstSegment(a);
    FirstSegment(b);
    if a != "" && b != "" {
      assert a == [a[0]] + a[1..] && b == [b[0]] + b[1..];
      var x, y := Split(a[1..]), Split(b[1..]);
      assert a[0] == b[0];
      if a[0] == '/' {
        assert x == Split(a)[1..] && y == Split(b)[1..];
      } else {
        assert x[0] == Split(a)[0][1..] && y[0] == Split(b)[0][1..];
        assert x == [x[0]] + Split(a)[1..] && y == [y[0]] + Split(b)[1..];
      }
      SplitInjective(a[1..], b[1..]);
    }
  }
}
