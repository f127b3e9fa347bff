/**
  resolve_path (demo/service_provider/c/httpfs_server.c): which request paths it accepts, said in terms of path
  components, and why an accepted path names something under the served directory.
*/
module Paths {
  import opened Base
  import opened CText

  predicate Contains(t: string, pat: string) { Find(t, pat, 0) >= 0 }

  /** resolve_path, with an output buffer of `size` bytes */
  function ResolvePath(root: string, path: string, size: nat): Option<string>
  {
    if path == "" || path[0] != '/' then None
    else if path == "/" then (if |root| < size then Some(root) else None)
    else if Contains(path, "/../") || Contains(path, "/./") || Contains(path, "//") || path == "/.." || path == "/."
      then None
    else if |root + path| < size then Some(root + path)
    else None
  }

  // ---------------------------------------------------------------- components

  /** The first slash at or after `p`, or the end. */
  function Slash(t: string, p: nat): (q: nat)
    requires p <= |t|
    ensures p <= q <= |t|
  {
    Next(t, '/', p)
  }

  /** The components of a path from position `p` on: the pieces between its slashes. */
  function Parts(t: string, p: nat): (c: seq<string>)
    requires p <= |t|
    ensures |c| > 0
    decreases |t| - p
  {
    var q := Slash(t, p);
    if q == |t| then [t[p..]] else [t[p..q]] + Parts(t, q + 1)
  }

  /** The components of an absolute path. */
  function Components(path: string): (c: seq<string>)
    requires path != "" && path[0] == '/'
    ensures |c| > 0
  {
    Parts(path, 1)
  }

  predicate Ordinary(c: string) { c != "" && c != "." && c != ".." }

  /** What resolve_path accepts: only the last of several components may be out of the ordinary. */
  predicate Acceptable(c: seq<string>)
    requires |c| > 0
  {
    && (forall i :: 0 <= i < |c| - 1 ==> Ordinary(c[i]))
    && (|c| == 1 ==> Ordinary(c[0]) || c[0] == "")
  }

  /** "//", "/./" or "/../" stands at `j`. */
  predicate BadAt(t: string, j: nat)
  {
    && j + 1 < |t| && t[j] == '/'
    && (|| t[j + 1] == '/'
        || (&& t[j + 1] == '.' && j + 2 < |t|
            && (t[j + 2] == '/' || (t[j + 2] == '.' && j + 3 < |t| && t[j + 3] == '/'))))
  }

  ghost predicate BadFrom(t: string, p: nat) { exists j: nat :: p <= j && BadAt(t, j) }

  lemma BadIsMatch(t: string, j: nat)
    ensures BadAt(t, j) <==> At(t, "/../", j) || At(t, "/./", j) || At(t, "//", j)
  {
    if j + 2 <= |t| { assert t[j..j + 2] == [t[j], t[j + 1]]; }
    if j + 3 <= |t| { assert t[j..j + 3] == [t[j], t[j + 1], t[j + 2]]; }
    if j + 4 <= |t| { assert t[j..j + 4] == [t[j], t[j + 1], t[j + 2], t[j + 3]]; }
  }

  lemma FoundIsBad(t: string, pat: string)
    requires pat == "/../" || pat == "/./" || pat == "//"
    ensures Contains(t, pat) ==> BadFrom(t, 0)
  {
    if Contains(t, pat) {
      BadIsMatch(t, Find(t, pat, 0));
    }
  }

  lemma BadIsContains(t: string)
    ensures BadFrom(t, 0) <==> Contains(t, "/../") || Contains(t, "/./") || Contains(t, "//")
  {
    FoundIsBad(t, "/../");
    FoundIsBad(t, "/./");
    FoundIsBad(t, "//");
    if j: nat :| BadAt(t, j) {
      BadIsMatch(t, j);
      if At(t, "/../", j) { FoundBy(t, "/../", 0, j); }
      if At(t, "/./", j) { FoundBy(t, "/./", 0, j); }
      if At(t, "//", j) { FoundBy(t, "//", 0, j); }
    }
  }

  /** A bad pattern at a slash says that the component after it is out of the ordinary, and not the last. */
  lemma BadAtSlash(t: string, p: nat)
    requires 0 < p <= |t| && t[p - 1] == '/'
    ensures var q := Slash(t, p); BadAt(t, p - 1) <==> q < |t| && !Ordinary(t[p..q])
  {
    var q := Slash(t, p);
    var c := t[p..q];
    NextIsFirst(t, '/', p);
    assert forall k :: 0 <= k < |c| ==> c[k] == t[p + k];
    assert |c| == 1 && c[0] == '.' ==> c == ".";
    assert |c| == 2 && c[0] == '.' && c[1] == '.' ==> c == "..";
  }

  /** Peeling off the component at `p`. */
  lemma BadStep(t: string, p: nat)
    requires 0 < p <= |t| && t[p - 1] == '/'
    ensures BadFrom(t, p - 1) <==> BadAt(t, p - 1) || BadFrom(t, Slash(t, p))
  {
    var q := Slash(t, p);
    NextIsFirst(t, '/', p);
    if j: nat :| p - 1 <= j && BadAt(t, j) {
      assert j == p - 1 || j >= q;
    }
  }

  ghost predicate OddBefore(c: seq<string>) { exists k :: 0 <= k < |c| - 1 && !Ordinary(c[k]) }

  lemma OddCons(first: string, c: seq<string>)
    requires |c| > 0
    ensures OddBefore([first] + c) <==> !Ordinary(first) || OddBefore(c)
  {
    var d := [first] + c;
    if k :| 0 <= k < |c| - 1 && !Ordinary(c[k]) {
      assert !Ordinary(d[k + 1]);
    }
    if !Ordinary(first) {
      assert !Ordinary(d[0]);
    }
    if k :| 0 <= k < |d| - 1 && !Ordinary(d[k]) {
      assert k > 0 ==> !Ordinary(c[k - 1]);
    }
  }

  lemma {:induction false} BadByComponents(t: string, p: nat)
    requires 0 < p <= |t| && t[p - 1] == '/'
    ensures BadFrom(t, p - 1) <==> OddBefore(Parts(t, p))
    decreases |t| - p
  {
    var q := Slash(t, p);
    BadAtSlash(t, p);
    BadStep(t, p);
    if q < |t| {
      BadByComponents(t, q + 1);
      OddCons(t[p..q], Parts(t, q + 1));
    }
  }

  lemma SingleComponent(path: string)
    requires path != "" && path[0] == '/'
    ensures |Components(path)| == 1 ==> path == "/" + Components(path)[0]
    ensures path in {"/", "/.", "/.."} ==> Components(path) == [path[1..]]
  {
    assert path == "/" + path[1..];
  }

  /**
    A path is accepted exactly when it is absolute, its components are acceptable and the result fits; the result is the
    root itself for "/", and otherwise the path appended to it.
  */
  lemma AcceptedExactly(root: string, path: string, size: nat)
    ensures ResolvePath(root, path, size).Some? <==>
            && path != "" && path[0] == '/' && Acceptable(Components(path))
            && |root| + (if path == "/" then 0 else |path|) < size
    ensures ResolvePath(root, path, size).Some? ==>
              ResolvePath(root, path, size).value == if path == "/" then root else root + path
  {
    if path != "" && path[0] == '/' {
      BadIsContains(path);
      BadByComponents(path, 1);
      SingleComponent(path);
    }
  }

  // ---------------------------------------------------------------- staying under the root

  /** Following components lexically from a directory given by its names from the top. */
  function Walk(dir: seq<string>, c: seq<string>): seq<string>
  {
    if c == [] then dir
    else
      var up := Walk(dir, c[..|c| - 1]);
      var last := c[|c| - 1];
      if last == "" || last == "." then up
      else if last != ".." then up + [last]
      else if up == [] then [] else up[..|up| - 1]
  }

  lemma {:induction false} WalkAppend(dir: seq<string>, a: seq<string>, b: seq<string>)
    ensures Walk(dir, a + b) == Walk(Walk(dir, a), b)
    decreases |b|
  {
    if b == [] {
      assert a + b == a;
    } else {
      var n := |b| - 1;
      assert (a + b)[..|a| + n] == a + b[..n];
      WalkAppend(dir, a, b[..n]);
    }
  }

  lemma {:induction false} WalkOrdinary(dir: seq<string>, c: seq<string>)
    requires forall i :: 0 <= i < |c| ==> Ordinary(c[i])
    ensures Walk(dir, c) == dir + c
  {
    if c != [] {
      var n := |c| - 1;
      WalkOrdinary(dir, c[..n]);
      assert c == c[..n] + [c[n]];
    }
  }

  /** Following acceptable components never leaves the directory, at any point on the way. */
  lemma AcceptableStaysBelow(dir: seq<string>, c: seq<string>, k: nat)
    requires |c| > 0 && Acceptable(c) && k <= |c|
    ensures dir <= Walk(dir, c[..k])
  {
    var n := if k == |c| then k - 1 else k;
    assert c[..k][..n] == c[..n];
    WalkOrdinary(dir, c[..n]);
    if k == |c| && |c| == 1 {
      assert c[k - 1] != "..";
    }
  }

  lemma SlashShift(a: string, b: string, t: string, k: nat)
    requires t == a + b && k <= |b|
    ensures var q := Slash(b, k); Slash(t, |a| + k) == |a| + q && t[|a| + k..|a| + q] == b[k..q]
  {
    NextShift(a, b, t, '/', k);
    SliceShift(a, b, t, k, Slash(b, k));
  }

  lemma SliceShift(a: string, b: string, t: string, k: nat, q: nat)
    requires t == a + b && k <= q <= |b|
    ensures t[|a| + k..|a| + q] == b[k..q]
  {
  }

  lemma SlashStays(root: string, path: string, t: string, p: nat)
    requires t == root + path && path != "" && path[0] == '/' && p <= |root|
    ensures var q := Slash(root, p); Slash(t, p) == q && t[p..q] == root[p..q]
  {
    NextStays(root, t, '/', p);
    SlicePrefix(root, t, p, Slash(root, p));
  }

  lemma SlicePrefix(a: string, t: string, p: nat, q: nat)
    requires a <= t && p <= q <= |a|
    ensures t[p..q] == a[p..q]
  {
    assert t[..|a|] == a;
  }

  lemma PartsLast(t: string, p: nat, c: string)
    requires p <= |t| && Slash(t, p) == |t| && t[p..|t|] == c
    ensures Parts(t, p) == [c]
  {
    assert t[p..] == t[p..|t|];
  }

  lemma PartsMore(t: string, p: nat, q: nat, c: string)
    requires p <= |t| && Slash(t, p) == q < |t| && t[p..q] == c
    ensures Parts(t, p) == [c] + Parts(t, q + 1)
  {
  }

  predicate Within(t: string, k: nat) { k <= |t| }

  /** `b` stands at `n` in `t`, up to its end: slashes are found and components cut alike. */
  ghost predicate Shifted(t: string, b: string, n: nat)
  {
    && |t| == n + |b|
    && forall k: nat {:trigger Within(b, k)} :: Within(b, k) ==>
         Slash(t, n + k) == n + Slash(b, k) && t[n + k..n + Slash(b, k)] == b[k..Slash(b, k)]
  }

  lemma ConcatIsShifted(a: string, b: string, t: string)
    requires t == a + b
    ensures Shifted(t, b, |a|)
  {
    forall k: nat | Within(b, k)
      ensures Slash(t, |a| + k) == |a| + Slash(b, k) && t[|a| + k..|a| + Slash(b, k)] == b[k..Slash(b, k)]
    {
      SlashShift(a, b, t, k);
    }
  }

  /** Components do not depend on the text before them. */
  lemma {:induction false} PartsShift(t: string, b: string, n: nat, k: nat)
    requires Shifted(t, b, n) && Within(b, k)
    ensures Parts(t, n + k) == Parts(b, k)
    decreases |b| - k
  {
    var q := Slash(b, k);
    if q == |b| {
      PartsLast(b, k, b[k..q]);
      PartsLast(t, n + k, b[k..q]);
    } else {
      PartsMore(b, k, q, b[k..q]);
      PartsMore(t, n + k, n + q, b[k..q]);
      PartsShift(t, b, n, q + 1);
    }
  }

  lemma PartsAfter(root: string, path: string, t: string)
    requires t == root + path && path != ""
    ensures |root| + 1 <= |t| && Parts(t, |root| + 1) == Parts(path, 1)
  {
    ConcatIsShifted(root, path, t);
    PartsShift(t, path, |root|, 1);
  }

  /** `t` continues `root` with a slash: slashes are found and components cut alike. */
  ghost predicate Continues(t: string, root: string)
  {
    && |root| < |t|
    && forall p: nat {:trigger Within(root, p)} :: Within(root, p) ==>
         Slash(t, p) == Slash(root, p) && t[p..Slash(root, p)] == root[p..Slash(root, p)]
  }

  lemma ConcatContinues(root: string, path: string, t: string)
    requires t == root + path && path != "" && path[0] == '/'
    ensures Continues(t, root)
  {
    forall p: nat | Within(root, p)
      ensures Slash(t, p) == Slash(root, p) && t[p..Slash(root, p)] == root[p..Slash(root, p)]
    {
      SlashStays(root, path, t, p);
    }
  }

  lemma {:induction false} PartsAppend(root: string, t: string, p: nat, rest: seq<string>)
    requires Continues(t, root) && Within(root, p) && Parts(t, |root| + 1) == rest
    ensures Parts(t, p) == Parts(root, p) + rest
    decreases |root| - p
  {
    var q := Slash(root, p);
    PartsMore(t, p, q, root[p..q]);
    if q == |root| {
      PartsLast(root, p, root[p..q]);
    } else {
      PartsMore(root, p, q, root[p..q]);
      PartsAppend(root, t, q + 1, rest);
      ConsAppend(root[p..q], Parts(root, q + 1), rest);
    }
  }

  lemma PartsJoined(root: string, path: string, t: string)
    requires t == root + path && path != "" && path[0] == '/'
    ensures Parts(t, 0) == Parts(root, 0) + Components(path)
  {
    PartsAfter(root, path, t);
    ConcatContinues(root, path, t);
    PartsAppend(root, t, 0, Components(path));
  }

  lemma ConsAppend(first: string, c: seq<string>, d: seq<string>)
    ensures [first] + (c + d) == [first] + c + d
  {
  }

  /** The walk to what resolve_path returns passes through the root and from there on stays at or below it. */
  lemma ResolvedStaysUnderRoot(root: string, path: string, size: nat, k: nat)
    requires ResolvePath(root, path, size).Some?
    ensures var top, resolved := Parts(root, 0), Parts(ResolvePath(root, path, size).value, 0);
      top <= resolved && (|top| <= k <= |resolved| ==> Walk([], top) <= Walk([], resolved[..k]))
  {
    AcceptedExactly(root, path, size);
    var top := Parts(root, 0);
    if path == "/" {
      assert top[..|top|] == top;
    } else {
      PartsJoined(root, path, root + path);
      if |top| <= k <= |top| + |Components(path)| {
        BelowTop(top, Components(path), k - |top|);
      }
    }
  }

  lemma BelowTop(top: seq<string>, c: seq<string>, k: nat)
    requires |c| > 0 && Acceptable(c) && k <= |c|
    ensures Walk([], top) <= Walk([], (top + c)[..|top| + k])
  {
    assert (top + c)[..|top| + k] == top + c[..k];
    WalkAppend([], top, c[..k]);
    AcceptableStaysBelow(Walk([], top), c, k);
  }
}
