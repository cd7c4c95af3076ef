/**
 `path.posix.relative`: a comparison of characters that finds the last common
 directory.
 */
module PosixRelative {
  import Texts
  import opened PathSpec
  import PosixPath

  // ---------------------------------------------------------------- resolved paths as stacks

  lemma WalkOne(cwd: string, path: string)
    ensures Walk(cwd, [path]) ==
            if path == "" then (IsAbsolute(cwd), Split(cwd))
            else if IsAbsolute(path) then (true, Split(path))
            else (IsAbsolute(cwd), Split(cwd) + Split(path))
  {
    assert [path][..|[path]| - 1] == [];
    assert Walk(cwd, []) == (IsAbsolute(cwd), Split(cwd));
  }

  lemma ResolveOne(cwd: string, path: string)
    requires NormalCwd(cwd)
    ensures Resolve(cwd, [path]) == "/" + Join(Location(cwd, path))
    ensures Normal(Location(cwd, path), false)
  {
    hide Fold, Join, Split, Walk;
    WalkOne(cwd, path);
    SplitNoSlash(cwd);
    SplitNoSlash(path);
    FoldNormal([], Walk(cwd, [path]).1, false);
    if path == "." {
      DotStays(cwd);
    }
  }

  lemma DotStays(cwd: string)
    ensures Fold([], Split(cwd) + Split("."), false) == Fold([], Split(cwd), false)
  {
    SplitAt(".", "");
    FoldSnoc([], Split(cwd), ".", false);
  }

  lemma {:induction false} CommonUnique(a: seq<string>, b: seq<string>, c: nat)
    requires c <= |a| && c <= |b| && a[..c] == b[..c]
    requires c == |a| || c == |b| || a[c] != b[c]
    ensures Common(a, b) == c
  {
    if c > 0 {
      assert a[0] == a[..c][0] && b[0] == b[..c][0];
      assert a[1..][..c - 1] == a[..c][1..] && b[1..][..c - 1] == b[..c][1..];
      CommonUnique(a[1..], b[1..], c - 1);
    }
  }

  // ---------------------------------------------------------------- where two strings part

  // Strings that part before the end of their first segment have different first segments.
  lemma {:induction false} FirstDiffer(f: string, t: string, d: nat)
    requires d <= |f| && d <= |t| && f[..d] == t[..d] && SEP !in f[..d]
    requires Parts(f, t, d)
    ensures Split(f)[0] != Split(t)[0]
    decreases d
  {
    assert f != "" ==> Split(f) == Texts.Grow(f[0], Split(f[1..]), SEP);
    assert t != "" ==> Split(t) == Texts.Grow(t[0], Split(t[1..]), SEP);
    if d == 0 {
      FirstChar(f);
      FirstChar(t);
    } else {
      assert f[0] == f[..d][0] && t[0] == t[..d][0];
      assert f[1..][..d - 1] == f[..d][1..] && t[1..][..d - 1] == t[..d][1..];
      assert f[0] in f[..d];
      FirstDiffer(f[1..], t[1..], d - 1);
      assert Split(f)[0][1..] == Split(f[1..])[0] && Split(t)[0][1..] == Split(t[1..])[0];
    }
  }

  lemma FirstChar(f: string)
    ensures f == "" || f[0] == SEP ==> Split(f)[0] == ""
    ensures f != "" && f[0] != SEP ==> Split(f)[0] != "" && Split(f)[0][0] == f[0]
  {
  }

  // At position i one string has a character where the other differs or ends,
  // and it is not just the end of a segment.
  predicate Parts(f: string, t: string, i: nat)
    requires i <= |f| && i <= |t|
  {
    || (i < |f| && i < |t| && f[i] != t[i])
    || (i == |f| && i < |t| && t[i] != SEP)
    || (i == |t| && i < |f| && f[i] != SEP)
  }

  lemma CutAt(f: string, k: nat)
    requires k < |f| && f[k] == SEP
    ensures Split(f) == Split(f[..k]) + Split(f[k + 1..])
  {
    assert f[..k] + [SEP] + f[k + 1..] == f;
    SplitConcat(f[..k], f[k + 1..]);
  }

  // k is the last separator of the common part: the segments before it are shared, the next are not.
  lemma Diverge(f: string, t: string, k: int, i: nat)
    requires i <= |f| && i <= |t| && f[..i] == t[..i] && |f| > 0 && |t| > 0
    requires -1 <= k < i || (k == -1 && i == 0)
    requires k >= 0 ==> f[k] == SEP
    requires SEP !in f[k + 1..i]
    requires Parts(f, t, i)
    ensures k >= 0 ==> t[k] == SEP
    ensures var c := Common(Split(f), Split(t));
            && c < |Split(f)| && c < |Split(t)|
            && |Split(f)| - c == |Split(f[k + 1..])|
            && Split(t)[c..] == Split(t[k + 1..])
  {
    hide Split, Parts;
    if k < 0 {
      assert f[k + 1..i] == f[..i];
      FirstDiffer(f, t, i);
      CommonUnique(Split(f), Split(t), 0);
      assert f[k + 1..] == f && t[k + 1..] == t;
    } else {
      DivergeAfter(f, t, k, i);
    }
  }

  lemma DivergeAfter(f: string, t: string, k: nat, i: nat)
    requires k < i <= |f| && i <= |t| && f[..i] == t[..i]
    requires f[k] == SEP && SEP !in f[k + 1..i]
    requires Parts(f, t, i)
    ensures t[k] == SEP
    ensures var c := |Split(f[..k])|;
            && Common(Split(f), Split(t)) == c
            && Split(f) == Split(f[..k]) + Split(f[k + 1..])
            && Split(t) == Split(f[..k]) + Split(t[k + 1..])
  {
    hide Split;
    assert t[k] == t[..i][k] == f[..i][k];
    assert t[..k] == t[..i][..k] && f[..k] == f[..i][..k];
    CutAt(f, k);
    CutAt(t, k);
    var d := i - k - 1;
    var f', t' := f[k + 1..], t[k + 1..];
    assert f'[..d] == f[..i][k + 1..] && t'[..d] == t[..i][k + 1..];
    assert f'[..d] == f[k + 1..i];
    FirstDiffer(f', t', d);
    CommonAfter(Split(f[..k]), Split(f'), Split(t'));
  }

  lemma CommonAfter(a: seq<string>, b: seq<string>, b': seq<string>)
    requires b != [] && b' != [] && b[0] != b'[0]
    ensures Common(a + b, a + b') == |a|
  {
    CommonUnique(a + b, a + b', |a|);
  }

  // ---------------------------------------------------------------- the output

  // One `..` for each segment from `start` on.
  method Climb(from: string, start: nat) returns (out: string)
    requires start <= |from|
    ensures out == Join(Ups(|Split(from[start..])|))
  {
    hide Join;
    out := "";
    ghost var count := 0;
    JoinNothing();
    var i := start;
    while i <= |from|
      invariant start <= i <= |from| + 1
      invariant out == Join(Ups(count))
      invariant count == 0 <==> out == ""
      invariant count + (if i <= |from| then |Split(from[i..])| else 0) == |Split(from[start..])|
    {
      if i < |from| {
        assert from[i..][1..] == from[i + 1..];
      }
      if i == |from| || from[i] == SEP {
        MoreUps(count);
        out := out + (if |out| == 0 then ".." else "/..");
        count := count + 1;
      }
      i := i + 1;
    }
  }

  lemma JoinNothing()
    ensures Join([]) == ""
  {
  }

  lemma MoreUps(n: nat)
    ensures Join(Ups(n + 1)) == Join(Ups(n)) + (if n == 0 then ".." else "/..")
  {
    assert Ups(n + 1) == Ups(n) + [".."];
    if n > 0 {
      JoinConcat(Ups(n), [".."]);
      assert "/.." == [SEP] + "..";
    } else {
      assert Ups(0) == [];
    }
  }

  // The loop over the common part.
  method Compare(f: string, t: string) returns (i: nat, lastCommonSep: int)
    ensures i <= |f| && i <= |t| && f[..i] == t[..i]
    ensures i == |f| || i == |t| || f[i] != t[i]
    ensures -1 <= lastCommonSep < i || (lastCommonSep == -1 && i == 0)
    ensures lastCommonSep >= 0 ==> f[lastCommonSep] == SEP
    ensures SEP !in f[lastCommonSep + 1..i]
  {
    var length := if |f| < |t| then |f| else |t|;
    i, lastCommonSep := 0, -1;
    while i < length
      invariant i <= length && f[..i] == t[..i]
      invariant -1 <= lastCommonSep < i || (lastCommonSep == -1 && i == 0)
      invariant lastCommonSep >= 0 ==> f[lastCommonSep] == SEP
      invariant SEP !in f[lastCommonSep + 1..i]
    {
      if f[i] != t[i] {
        return;
      }
      assert f[..i + 1] == f[..i] + [f[i]] && t[..i + 1] == t[..i] + [t[i]];
      if f[i] == SEP {
        lastCommonSep := i;
        assert f[i + 1..i + 1] == "";
      } else {
        assert f[lastCommonSep + 1..i + 1] == f[lastCommonSep + 1..i] + [f[i]];
      }
      i := i + 1;
    }
  }

  ghost function Goal(a: seq<string>, b: seq<string>): string
  {
    Join(Ups(|a| - Common(a, b)) + b[Common(a, b)..])
  }

  // Both directories below the same one: up from `from`, down to `to`.
  lemma UpAndDown(a: seq<string>, b: seq<string>, up: nat, down: string)
    requires Common(a, b) < |a| && Common(a, b) < |b|
    requires up == |a| - Common(a, b) && b[Common(a, b)..] == Split(down)
    ensures Goal(a, b) == Join(Ups(up)) + ([SEP] + down)
  {
    hide Split, Join, Common;
    JoinConcat(Ups(up), Split(down));
    JoinSplit(down);
    assert Join(Ups(up)) + [SEP] + down == Join(Ups(up)) + ([SEP] + down);
  }

  // A resolved path without its leading slash, and its stack.
  ghost predicate IsResolved(f: string, a: seq<string>)
  {
    f == Join(a) && (f == "" ==> a == []) && (f != "" ==> Split(f) == a && f[0] != SEP)
  }

  // What is appended to the `..`s when k is the last common separator.
  function Tail(t: string, k: int): string
    requires -1 <= k <= |t|
  {
    if k == -1 then "/" + t else t[k..]
  }

  // The separator from which `relative` goes up and down.
  method Branch(f: string, t: string, i: nat, lastCommonSep: int) returns (k: int)
    requires Scanned(f, t, i, lastCommonSep) && |f| > 0 && Clear(f)
    ensures -1 <= k < |f| && k <= |t|
    ensures Goal(Stack(f), Stack(t)) == Join(Ups(|Split(f[k + 1..])|)) + Tail(t, k)
  {
    hide Split, Join, Goal, Tail, Ups, Common, Parts, Scanned, Stack, Clear;
    k := lastCommonSep;
    Bounds(f, t, i, k);
    if i == |t| && |f| > i && f[i] == SEP {
      k := i;
      Above(f, t, i, lastCommonSep);
    } else if i == |t| && |f| > i && i == 0 {
      k := 0;
      BelowRoot(f, t);
    } else {
      Apart(f, t, k, i);
    }
  }

  // The stack of a resolved path without its leading slash.
  function Stack(f: string): seq<string> { if |f| == 0 then [] else Split(f) }

  predicate Clear(f: string) { |f| > 0 ==> f[0] != SEP }

  // What the comparison has found: the texts agree up to i and no further, and the
  // separator is the last one before; `to` does not go on below `from`.
  ghost predicate Scanned(f: string, t: string, i: nat, lastCommonSep: int)
  {
    && f != t
    && i <= |f| && i <= |t| && f[..i] == t[..i] && (i == |f| || i == |t| || f[i] != t[i])
    && (-1 <= lastCommonSep < i || (lastCommonSep == -1 && i == 0))
    && (lastCommonSep >= 0 ==> f[lastCommonSep] == SEP)
    && SEP !in f[lastCommonSep + 1..i]
    && (i == |f| && |t| > i ==> t[i] != SEP)
  }

  lemma Bounds(f: string, t: string, i: nat, k: int)
    requires Scanned(f, t, i, k)
    ensures i <= |f| && i <= |t| && -1 <= k < i
  {
  }

  lemma BelowRoot(f: string, t: string)
    requires |f| > 0 && Clear(f) && |t| == 0
    ensures Goal(Stack(f), Stack(t)) == Join(Ups(|Split(f[1..])|)) + Tail(t, 0)
  {
    hide Split, Join, Goal, Ups, Common;
    assert t == "";
    FromBelowRoot(f, Split(f));
  }

  lemma Above(f: string, t: string, i: nat, k: int)
    requires Scanned(f, t, i, k) && |f| > i == |t| && f[i] == SEP && Clear(f)
    ensures Goal(Stack(f), Stack(t)) == Join(Ups(|Split(f[i + 1..])|)) + Tail(t, i)
  {
    hide Split, Join, Goal, Tail, Ups, Common;
    assert t[..|t|] == t;
    AboveFrom(f, t, Split(f), Split(t));
  }

  lemma Apart(f: string, t: string, k: int, i: nat)
    requires Scanned(f, t, i, k) && |f| > 0
    requires i == |t| && |f| > i ==> f[i] != SEP && i != 0
    ensures k < |f| && k <= |t|
    ensures Goal(Stack(f), Stack(t)) == Join(Ups(|Split(f[k + 1..])|)) + Tail(t, k)
  {
    hide Split, Join, Goal, Tail, Ups, Common, Parts;
    SameText(f, t, i);
    Divided(f, t, k, i);
  }

  // The body of `relative` on resolved paths without their leading slash.
  method Between(f: string, t: string) returns (r: string)
    requires f != t && Clear(f) && Clear(t)
    ensures r == Goal(Stack(f), Stack(t))
  {
    hide Split, Join, Goal, Ups, Common;
    var i, lastCommonSep := Compare(f, t);
    if i == |f| && |t| > i {
      if t[i] == SEP {
        assert t[..|f|] == f by { assert f[..|f|] == f; }
        BelowFrom(f, t, Split(f), Split(t));
        return t[i + 1..];
      }
      if i == 0 {
        FromRoot(Split(t));
        JoinSplit(t);
        return t;
      }
    }
    lastCommonSep := Branch(f, t, i, lastCommonSep);
    var out := Climb(f, lastCommonSep + 1);
    return out + Tail(t, lastCommonSep);
  }

  lemma FromRoot(b: seq<string>)
    ensures Goal([], b) == Join(b)
  {
    assert Common([], b) == 0;
    assert Ups(0) + b[0..] == b;
  }

  // A resolved path and its stack determine each other.
  lemma Resolved(a: seq<string>)
    requires Normal(a, false)
    ensures IsResolved(Join(a), a)
  {
    PosixPath.JoinLength(a);
    if a != [] {
      SplitJoin(a);
      assert Join(a)[0] == a[0][0];
      assert a[0][0] in a[0];
    }
  }

  // The remaining cases of the scan: the texts part inside a segment.
  lemma SameText(f: string, t: string, i: nat)
    requires i <= |f| && i <= |t| && f[..i] == t[..i] && (i == |f| || i == |t| || f[i] != t[i])
    requires f != t
    requires i == |f| && |t| > i ==> t[i] != SEP && i != 0
    requires i == |t| && |f| > i ==> f[i] != SEP && i != 0
    ensures Parts(f, t, i) && |f| > 0 && |t| > 0
  {
    assert f[..|f|] == f && t[..|t|] == t;
  }

  lemma BelowFrom(f: string, t: string, a: seq<string>, b: seq<string>)
    requires f != "" && |t| > |f| && t[..|f|] == f && t[|f|] == SEP
    requires Split(f) == a && Split(t) == b
    ensures t[|f| + 1..] == Goal(a, b)
  {
    hide Split, Join;
    var rest := Split(t[|f| + 1..]);
    CutAt(t, |f|);
    assert b == a + rest;
    CommonUnique(a, b, |a|);
    assert Ups(0) + b[|a|..] == rest;
    JoinSplit(t[|f| + 1..]);
  }

  lemma AboveFrom(f: string, t: string, a: seq<string>, b: seq<string>)
    requires t != "" && |f| > |t| && f[..|t|] == t && f[|t|] == SEP
    requires Split(f) == a && Split(t) == b
    ensures Goal(a, b) == Join(Ups(|Split(f[|t| + 1..])|)) + Tail(t, |t|)
  {
    hide Split, Join;
    CutAt(f, |t|);
    assert a == b + Split(f[|t| + 1..]);
    CommonUnique(a, b, |b|);
    assert Ups(|a| - |b|) + b[|b|..] == Ups(|a| - |b|);
  }

  lemma FromBelowRoot(f: string, a: seq<string>)
    requires f != "" && f[0] != SEP && Split(f) == a
    ensures Goal(a, []) == Join(Ups(|Split(f[1..])|)) + Tail("", 0)
  {
    assert Split(f) == Texts.Grow(f[0], Split(f[1..]), SEP);
    assert Common(a, []) == 0;
    assert Ups(|a|) + [][0..] == Ups(|a|);
  }

  lemma Divided(f: string, t: string, k: int, i: nat)
    requires i <= |f| && i <= |t| && f[..i] == t[..i] && |f| > 0 && |t| > 0
    requires -1 <= k < i || (k == -1 && i == 0)
    requires k >= 0 ==> f[k] == SEP
    requires SEP !in f[k + 1..i]
    requires Parts(f, t, i)
    ensures Goal(Split(f), Split(t)) == Join(Ups(|Split(f[k + 1..])|)) + Tail(t, k)
  {
    hide Split, Join, Parts, Common, Ups, Tail, Goal;
    Diverge(f, t, k, i);
    UpAndDown(Split(f), Split(t), |Split(f[k + 1..])|, t[k + 1..]);
    TailText(t, k);
  }

  lemma TailText(t: string, k: int)
    requires -1 <= k < |t| && (k >= 0 ==> t[k] == SEP)
    ensures Tail(t, k) == [SEP] + t[k + 1..]
  {
  }

  method Relative(cwd: string, from: string, to: string) returns (r: string)
    requires NormalCwd(cwd)
    ensures r == PathSpec.Relative(cwd, from, to)
  {
    hide Fold, Join, Common, Resolve, Walk;
    ghost var a, b := Location(cwd, from), Location(cwd, to);
    ResolveOne(cwd, from);
    ResolveOne(cwd, to);
    SameLocation(a);
    if from == to {
      return "";
    }
    var from' := PosixPath.Resolve(cwd, [from]);
    var to' := PosixPath.Resolve(cwd, [to]);
    assert from'[1..] == Join(a) && to'[1..] == Join(b);
    Resolved(a);
    Resolved(b);
    if from' == to' {
      return "";
    }
    assert a == Stack(from'[1..]) && b == Stack(to'[1..]);
    assert from' == [SEP] + from'[1..] && to' == [SEP] + to'[1..];
    r := Between(from'[1..], to'[1..]);
  }

  lemma SameLocation(a: seq<string>)
    ensures Goal(a, a) == ""
  {
    CommonUnique(a, a, |a|);
    assert Ups(0) + a[|a|..] == [];
  }
}
