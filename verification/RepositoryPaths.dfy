// POSIX path arithmetic on segments, as link resolution uses it.
module RepositoryPaths {
  import opened Splitting

  type Segments = seq<string>

  predicate Contains(s: string, c: char) {
    exists i :: 0 <= i < |s| && s[i] == c
  }

  function Split(s: string): (r: Segments)
    ensures |r| > 0
  {
    SplitOn(s, '/')
  }

  function Join(segments: Segments): string {
    JoinWith(segments, "/")
  }

  predicate IsName(segment: string) {
    segment != "" && segment != "." && segment != ".."
  }

  ghost predicate AllNames(segments: Segments) {
    forall i :: 0 <= i < |segments| ==> IsName(segments[i]) && !Contains(segments[i], '/')
  }

  // One segment of a path that is being normalized.
  function Enter(at: Segments, segment: string): Segments {
    if segment == "" || segment == "." then at
    else if segment == ".." then
      if at != [] && at[|at| - 1] != ".." then at[..|at| - 1] else at + [".."]
    else at + [segment]
  }

  // The normal form of `path` continued from the directory `at`.
  function Walk(at: Segments, path: Segments): Segments
    decreases |path|
  {
    if path == [] then at else Walk(Enter(at, path[0]), path[1..])
  }

  function CommonPrefix(a: Segments, b: Segments): (n: nat)
    ensures n <= |a| && n <= |b| && a[..n] == b[..n]
    ensures n < |a| && n < |b| ==> a[n] != b[n]
  {
    if a == [] || b == [] || a[0] != b[0] then 0
    else
      var n := CommonPrefix(a[1..], b[1..]);
      assert a[..n + 1] == [a[0]] + a[1..][..n] && b[..n + 1] == [b[0]] + b[1..][..n];
      n + 1
  }

  function Ups(n: nat): (r: Segments)
    ensures |r| == n
  {
    if n == 0 then [] else [".."] + Ups(n - 1)
  }

  function Relative(from: Segments, to: Segments): Segments {
    var n := CommonPrefix(from, to);
    Ups(|from| - n) + to[n..]
  }

  lemma {:induction false} SplitAppend(s: string, t: string)
    requires !Contains(t, '/')
    ensures Split(s + t) == ExtendLast(Split(s), t)
  {
    if s == "" {
      SplitWhole(t);
      assert "" + t == t && ExtendLast([""], t) == [t];
    } else {
      SplitAppend(s[1..], t);
      assert (s + t)[1..] == s[1..] + t;
      var r := Split(s[1..]);
      if s[0] == '/' {
        assert ExtendLast([""] + r, t) == [""] + ExtendLast(r, t);
      } else {
        ExtendFirst(r, s[0], t);
      }
    }
  }

  function ExtendLast(segments: Segments, t: string): Segments
    requires segments != []
  {
    segments[..|segments| - 1] + [segments[|segments| - 1] + t]
  }

  lemma ExtendFirst(r: Segments, c: char, t: string)
    requires r != []
    ensures ExtendLast([[c] + r[0]] + r[1..], t) == [[c] + ExtendLast(r, t)[0]] + ExtendLast(r, t)[1..]
  {
    if |r| == 1 {
      assert [c] + (r[0] + t) == ([c] + r[0]) + t;
    }
  }

  lemma {:induction false} SplitWhole(t: string)
    requires !Contains(t, '/')
    ensures Split(t) == [t]
  {
    if t != "" {
      assert t[0] != '/';
      forall i | 0 <= i < |t[1..]| ensures t[1..][i] != '/' { assert t[1..][i] == t[i + 1]; }
      SplitWhole(t[1..]);
      assert [t[0]] + t[1..] == t && [t[1..]][1..] == [];
    }
  }

  lemma {:induction false} SplitSlash(s: string, t: string)
    requires !Contains(s, '/')
    ensures Split(s + "/" + t) == [s] + Split(t)
  {
    if s == "" {
      assert "" + "/" + t == "/" + t;
    } else {
      assert s[0] != '/';
      forall i | 0 <= i < |s[1..]| ensures s[1..][i] != '/' { assert s[1..][i] == s[i + 1]; }
      SplitSlash(s[1..], t);
      assert (s + "/" + t)[1..] == s[1..] + "/" + t;
      assert [s[0]] + s[1..] == s;
    }
  }

  lemma {:induction false} SplitJoin(segments: Segments)
    requires segments != [] && forall i :: 0 <= i < |segments| ==> !Contains(segments[i], '/')
    ensures Split(Join(segments)) == segments
  {
    if |segments| == 1 {
      SplitWhole(segments[0]);
    } else {
      SplitJoin(segments[1..]);
      SplitSlash(segments[0], Join(segments[1..]));
    }
  }

  lemma {:induction false} WalkConcat(at: Segments, a: Segments, b: Segments)
    ensures Walk(at, a + b) == Walk(Walk(at, a), b)
    decreases |a|
  {
    if a == [] {
      assert a + b == b;
    } else {
      assert (a + b)[1..] == a[1..] + b;
      WalkConcat(Enter(at, a[0]), a[1..], b);
    }
  }

  lemma WalkToName(at: Segments, path: Segments, name: string)
    requires IsName(name)
    ensures Walk(at, path + [name]) == Walk(at, path) + [name]
  {
    WalkConcat(at, path, [name]);
    var here := Walk(at, path);
    assert Walk(Enter(here, name), [name][1..]) == here + [name];
  }

  // Empty segments and dots count for nothing, and two dots undo a name. Together with the walks
  // down and up this fixes what a path means.
  lemma WalkLaws(at: Segments, a: Segments, name: string, b: Segments)
    requires IsName(name)
    ensures Walk(at, a + [""] + b) == Walk(at, a + b) && Walk(at, a + ["."] + b) == Walk(at, a + b)
    ensures Walk(at, a + [name, ".."] + b) == Walk(at, a + b)
  {
    var here := Walk(at, a);
    WalkConcat(at, a, b);
    OneSegment(here, "", b);
    OneSegment(here, ".", b);
    OneSegment(here + [name], "..", b);
    OneSegment(here, name, [".."] + b);
    assert (here + [name])[..|here|] == here;
    assert [name] + ([".."] + b) == [name, ".."] + b;
    ThreeParts(at, a, [""], b);
    ThreeParts(at, a, ["."], b);
    ThreeParts(at, a, [name, ".."], b);
  }

  lemma OneSegment(at: Segments, segment: string, rest: Segments)
    ensures Walk(at, [segment] + rest) == Walk(Enter(at, segment), rest)
  {
    assert ([segment] + rest)[1..] == rest;
  }

  lemma ThreeParts(at: Segments, a: Segments, middle: Segments, b: Segments)
    ensures Walk(at, a + middle + b) == Walk(Walk(at, a), middle + b)
  {
    Assoc(a, middle, b);
    WalkConcat(at, a, middle + b);
  }

  // Above the root two dots remain.
  lemma WalkAbove(n: nat)
    ensures Walk(Ups(n), [".."]) == Ups(n) + [".."]
  {
    if n > 0 { UpsAreUp(n, n - 1); }
    OneSegment(Ups(n), "..", []);
    assert [".."] + [] == [".."];
  }

  lemma {:induction false} WalkDown(at: Segments, path: Segments)
    requires AllNames(path)
    ensures Walk(at, path) == at + path
    decreases |path|
  {
    if path == [] {
      assert at + path == at;
    } else {
      forall i | 0 <= i < |path[1..]| ensures IsName(path[1..][i]) && !Contains(path[1..][i], '/') {
        assert path[1..][i] == path[i + 1];
      }
      WalkDown(at + [path[0]], path[1..]);
      assert at + [path[0]] + path[1..] == at + path;
    }
  }

  lemma {:induction false} WalkUp(at: Segments, n: nat)
    requires AllNames(at) && n <= |at|
    ensures Walk(at, Ups(n)) == at[..|at| - n]
  {
    if n == 0 {
      assert at[..|at|] == at;
    } else {
      var up := at[..|at| - 1];
      assert at[|at| - 1] != "..";
      assert Enter(at, "..") == up;
      WalkUp(up, n - 1);
      assert up[..|up| - (n - 1)] == at[..|at| - n];
      assert Ups(n)[1..] == Ups(n - 1);
    }
  }

  // Following a relative path from where it starts leads to its target.
  lemma WalkRelative(from: Segments, to: Segments)
    requires AllNames(from) && AllNames(to)
    ensures Walk(from, Relative(from, to)) == to
  {
    var n := CommonPrefix(from, to);
    WalkConcat(from, Ups(|from| - n), to[n..]);
    WalkUp(from, |from| - n);
    RestIsNames(to, n);
    WalkDown(from[..n], to[n..]);
    CutAt(to, n);
  }

  // No other way up and down again is shorter.
  lemma RelativeIsShortest(from: Segments, to: Segments, n: nat, rest: Segments)
    requires AllNames(from) && AllNames(rest) && n <= |from| && Walk(from, Ups(n) + rest) == to
    ensures |Relative(from, to)| <= |Ups(n) + rest|
    ensures |Relative(from, to)| == |Ups(n) + rest| ==> Relative(from, to) == Ups(n) + rest
  {
    var kept := |from| - n;
    WalkConcat(from, Ups(n), rest);
    WalkUp(from, n);
    WalkDown(from[..kept], rest);
    SharedAtLeast(from, to, kept, rest);
  }

  lemma SharedAtLeast(from: Segments, to: Segments, n: nat, rest: Segments)
    requires n <= |from| && to == from[..n] + rest
    ensures n <= CommonPrefix(from, to) && rest == to[n..]
  {
    assert forall i :: 0 <= i < n ==> to[i] == from[i];
  }

  lemma CutAt(s: Segments, n: nat)
    requires n <= |s|
    ensures s[..n] + s[n..] == s
  {
  }

  lemma RestIsNames(s: Segments, n: nat)
    requires AllNames(s) && n <= |s|
    ensures AllNames(s[n..])
  {
  }

  lemma {:induction false} UpsAreUp(n: nat, i: nat)
    requires i < n
    ensures Ups(n)[i] == ".."
  {
    if i > 0 { UpsAreUp(n - 1, i - 1); }
  }

  lemma RelativeHasNoSlash(from: Segments, to: Segments)
    requires AllNames(to)
    ensures forall i :: 0 <= i < |Relative(from, to)| ==>
              !Contains(Relative(from, to)[i], '/') && Relative(from, to)[i] != ""
  {
    var n := CommonPrefix(from, to);
    forall i | 0 <= i < |Relative(from, to)|
      ensures !Contains(Relative(from, to)[i], '/') && Relative(from, to)[i] != ""
    {
      if i < |from| - n {
        UpsAreUp(|from| - n, i);
      } else {
        assert Relative(from, to)[i] == to[n + (i - (|from| - n))];
      }
    }
  }

  lemma RelativeIsEmptyOnlyAtHome(from: Segments, to: Segments)
    requires Relative(from, to) == []
    ensures from == to
  {
    var n := CommonPrefix(from, to);
    assert |Ups(|from| - n)| == 0 && |to[n..]| == 0;
    assert from[..n] == from && to[..n] == to;
  }
}
