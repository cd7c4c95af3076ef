/** The algebraic laws of `path.posix`. */
module PathLaws {
  import opened PathSpec
  import PosixPath
  import PosixRelative

  // ---------------------------------------------------------------- resolve and relative

  // Climbing to the last shared directory and descending again arrives.
  lemma UpThenDown(a: seq<string>, b: seq<string>)
    requires Normal(a, false) && Normal(b, false)
    ensures Fold(a, Ups(|a| - Common(a, b)) + b[Common(a, b)..], false) == b
  {
    hide Fold, Common;
    var c := Common(a, b);
    FoldConcat(a, Ups(|a| - c), b[c..], false);
    FoldUps(a, |a| - c);
    assert forall i :: 0 <= i < |b[c..]| ==> b[c..][i] in b;
    FoldPlain(a[..c], b[c..], false);
    assert a[..c] + b[c..] == b;
  }

  // `resolve(from, relative(from, to)) == resolve(to)`, for every pair of paths.
  lemma ResolveRelative(cwd: string, from: string, to: string)
    requires NormalCwd(cwd)
    ensures Resolve(cwd, [from, Relative(cwd, from, to)]) == Resolve(cwd, [to])
  {
    hide Fold, Join, Split, Walk, Common;
    var a, b := Location(cwd, from), Location(cwd, to);
    PosixRelative.ResolveOne(cwd, from);
    PosixRelative.ResolveOne(cwd, to);
    var steps := Ups(|a| - Common(a, b)) + b[Common(a, b)..];
    var r := Join(steps);
    UpThenDown(a, b);
    WalkTwo(cwd, from, r);
    if steps == [] {
      NothingLeft(a, b);
    } else {
      StepsAreRelative(a, b, steps);
      FoldConcat([], Walk(cwd, [from]).1, steps, false);
    }
  }

  lemma WalkTwo(cwd: string, from: string, r: string)
    requires IsAbsolute(cwd)
    ensures Walk(cwd, [from]).0
    ensures r == "" ==> Walk(cwd, [from, r]) == Walk(cwd, [from])
    ensures r != "" && !IsAbsolute(r) ==> Walk(cwd, [from, r]) == (true, Walk(cwd, [from]).1 + Split(r))
  {
    hide Split;
    PosixRelative.WalkOne(cwd, from);
    assert [from, r][..1] == [from];
  }

  lemma NothingLeft(a: seq<string>, b: seq<string>)
    requires Ups(|a| - Common(a, b)) + b[Common(a, b)..] == []
    ensures a == b && Join([]) == ""
  {
    var c := Common(a, b);
    assert |Ups(|a| - c)| == 0 && |b[c..]| == 0;
    assert a == a[..c] && b == b[..c];
  }

  lemma StepsAreRelative(a: seq<string>, b: seq<string>, steps: seq<string>)
    requires Normal(b, false) && steps != []
    requires steps == Ups(|a| - Common(a, b)) + b[Common(a, b)..]
    ensures Join(steps) != "" && !IsAbsolute(Join(steps)) && Split(Join(steps)) == steps
  {
    assert forall i :: 0 <= i < |steps| ==> Clean(steps[i]);
    PosixPath.JoinLength(steps);
    SplitJoin(steps);
    assert Join(steps)[0] == steps[0][0];
  }

  // ---------------------------------------------------------------- normalize

  // What a normalised path is made of.
  lemma NormalizeShape(path: string)
    ensures var n := Normalize(path);
            && n != ""
            && IsAbsolute(n) == IsAbsolute(path)
            && (!IsAbsolute(path) ==> HasTrailing(n) == HasTrailing(path))
            && (IsAbsolute(path) ==> HasTrailing(n) == (HasTrailing(path) || n == "/"))
            && Fold([], Split(n), !IsAbsolute(path)) == Fold([], Split(path), !IsAbsolute(path))
  {
    hide Split, Fold, Join;
    if path == "" {
      SkipDot(false);
    } else {
      var stack := Fold([], Split(path), !IsAbsolute(path));
      SplitNoSlash(path);
      FoldNormal([], Split(path), !IsAbsolute(path));
      BodyShape(stack, IsAbsolute(path), HasTrailing(path));
    }
  }

  lemma SkipDot(trailing: bool)
    ensures Fold([], Split(if trailing then "./" else "."), true) == []
    ensures Fold([], Split(""), true) == []
  {
    SplitAt(".", "");
    assert "." + [SEP] + "" == "./";
    FoldSnoc([], [], "", true);
    FoldSnoc([], [], ".", true);
    FoldSnoc([], ["."], "", true);
    assert [] + ["."] == ["."] && [] + [""] == [""] && ["."] + [""] == [".", ""];
  }

  // The string `normalize` builds from a stack.
  function Render(stack: seq<string>, abs: bool, trailing: bool): string
  {
    var body := Join(stack);
    if body == "" then (if abs then "/" else if trailing then "./" else ".")
    else (if abs then "/" else "") + body + (if trailing then "/" else "")
  }

  lemma BodyShape(stack: seq<string>, abs: bool, trailing: bool)
    requires Normal(stack, !abs)
    ensures var n := Render(stack, abs, trailing);
            && n != ""
            && IsAbsolute(n) == abs
            && (!abs ==> HasTrailing(n) == trailing)
            && (abs ==> HasTrailing(n) == (trailing || n == "/"))
            && Fold([], Split(n), !abs) == stack
  {
    hide Split, Fold;
    PosixPath.JoinLength(stack);
    if stack == [] {
      SkipDot(trailing);
      SkipRoot();
    } else {
      SplitJoin(stack);
      FoldIdempotent(stack, !abs);
      BodyEnds(stack);
      var body := Join(stack);
      AddSlashes(body, !abs, abs, trailing);
    }
  }

  lemma BodyEnds(stack: seq<string>)
    requires stack != [] && forall i :: 0 <= i < |stack| ==> Clean(stack[i])
    ensures Join(stack) != "" && Join(stack)[0] != SEP && !HasTrailing(Join(stack))
  {
    PosixPath.Top(stack);
    var body, top := Join(stack), stack[|stack| - 1];
    assert body[|body| - 1] == body[|body| - |top|..][|top| - 1];
    assert top[|top| - 1] in top;
    assert body[0] == stack[0][0];
    assert stack[0][0] in stack[0];
  }

  lemma SkipRoot()
    ensures Fold([], Split("/"), false) == []
  {
    SplitAt("", "");
    assert "" + [SEP] + "" == "/";
    FoldSnoc([], [], "", false);
    FoldSnoc([], [""], "", false);
    assert [] + [""] == [""] && [""] + [""] == ["", ""];
  }

  // Leading and trailing slashes do not change the stack.
  lemma AddSlashes(body: string, allow: bool, abs: bool, trailing: bool)
    ensures Fold([], Split((if abs then "/" else "") + body + (if trailing then "/" else "")), allow) ==
            Fold([], Split(body), allow)
  {
    hide Split, Fold;
    var mid := (if abs then "/" else "") + body;
    LeadingSlash(body, allow, abs);
    if trailing {
      assert mid + "/" == mid + [SEP] + "";
      SplitConcat(mid, "");
      SplitAt("", "");
      FoldTrailing([], Split(mid), allow);
    } else {
      assert mid + "" == mid;
    }
  }

  lemma LeadingSlash(body: string, allow: bool, abs: bool)
    ensures Fold([], Split((if abs then "/" else "") + body), allow) == Fold([], Split(body), allow)
  {
    hide Split;
    if abs {
      assert "/" + body == "" + [SEP] + body;
      SplitAt("", body);
      var segs := [""] + Split(body);
      assert segs[0] == "" && segs[1..] == Split(body);
      assert Fold([], segs, allow) == Fold(Push([], "", allow), segs[1..], allow);
    } else {
      assert "" + body == body;
    }
  }

  // A normalised path is rendered from its stack.
  lemma NormalizeIsRender(path: string)
    requires path != ""
    ensures Normalize(path) == Render(Fold([], Split(path), !IsAbsolute(path)), IsAbsolute(path), HasTrailing(path))
  {
  }

  lemma NormalizeIdempotent(path: string)
    ensures Normalize(Normalize(path)) == Normalize(path)
  {
    hide Split, Fold, Join;
    NormalizeShape(path);
    var n := Normalize(path);
    NormalizeIsRender(n);
    if path == "" {
      SkipDot(false);
      RenderNothing();
    } else {
      NormalizeIsRender(path);
      if n == "/" {
        SkipRoot();
        RenderNothing();
      }
    }
  }

  lemma RenderNothing()
    ensures Render([], false, false) == "." && Render([], true, true) == "/" && Render([], true, false) == "/"
  {
  }

  // Normalising a path does not change where it resolves to.
  lemma NormalizeKeepsTarget(cwd: string, path: string)
    requires NormalCwd(cwd)
    ensures Resolve(cwd, [Normalize(path)]) == Resolve(cwd, [path])
  {
    hide Split, Fold, Join, Walk;
    var n := Normalize(path);
    if path == "" {
      return;
    }
    NormalizeShape(path);
    PosixRelative.ResolveOne(cwd, n);
    PosixRelative.ResolveOne(cwd, path);
    PosixRelative.WalkOne(cwd, n);
    PosixRelative.WalkOne(cwd, path);
    if !IsAbsolute(path) {
      SameTarget(Fold([], Split(cwd), false), path, n, false);
      FoldConcat([], Split(cwd), Split(n), false);
      FoldConcat([], Split(cwd), Split(path), false);
    }
  }

  // Two relative paths with the same stack lead to the same place from everywhere.
  lemma SameTarget(from: seq<string>, p: string, q: string, allow: bool)
    requires Fold([], Split(p), true) == Fold([], Split(q), true)
    ensures Fold(from, Split(p), allow) == Fold(from, Split(q), allow)
  {
    hide Split;
    SplitNoSlash(p);
    SplitNoSlash(q);
    FoldReduced(from, [], Split(p), allow);
    FoldReduced(from, [], Split(q), allow);
  }

  // ---------------------------------------------------------------- join

  // The segments of joined parts, in order.
  function Segments(parts: seq<string>): seq<string>
  {
    if parts == [] then [] else Split(parts[0]) + Segments(parts[1..])
  }

  lemma {:induction false} SegmentsConcat(a: seq<string>, b: seq<string>)
    ensures Segments(a + b) == Segments(a) + Segments(b)
    decreases |a|
  {
    hide Split;
    if a == [] {
      assert a + b == b;
    } else {
      SegmentsConcat(a[1..], b);
      assert (a + b)[1..] == a[1..] + b;
      assert Split(a[0]) + (Segments(a[1..]) + Segments(b)) == Split(a[0]) + Segments(a[1..]) + Segments(b);
    }
  }

  lemma {:induction false} SplitParts(parts: seq<string>)
    requires parts != []
    ensures Split(Join(parts)) == Segments(parts)
  {
    hide Split;
    if |parts| == 1 {
      assert parts[1..] == [];
      assert Split(parts[0]) + [] == Split(parts[0]);
    } else {
      SplitParts(parts[1..]);
      SplitConcat(parts[0], Join(parts[1..]));
    }
  }

  lemma {:induction false} NonEmptyConcat(a: seq<string>, b: seq<string>)
    ensures NonEmpty(a + b) == NonEmpty(a) + NonEmpty(b)
    decreases |a|
  {
    if a == [] {
      assert a + b == b;
    } else {
      var all, rest := a + b, a[1..];
      var head := if a[0] == "" then [] else [a[0]];
      NonEmptyConcat(rest, b);
      assert all[0] == a[0] && all[1..] == rest + b && NonEmpty(a) == head + NonEmpty(rest);
      assert NonEmpty(all) == head + NonEmpty(rest + b);
      hide NonEmpty;
      assert head + (NonEmpty(rest) + NonEmpty(b)) == head + NonEmpty(rest) + NonEmpty(b);
    }
  }

  lemma {:induction false} NonEmptyParts(args: seq<string>)
    ensures forall i :: 0 <= i < |NonEmpty(args)| ==> NonEmpty(args)[i] != ""
    decreases |args|
  {
    if args != [] {
      NonEmptyParts(args[1..]);
    }
  }

  // The first and last characters of joined parts.
  lemma {:induction false} JoinEnds(parts: seq<string>)
    requires parts != [] && forall i :: 0 <= i < |parts| ==> parts[i] != ""
    ensures Join(parts) != ""
    ensures IsAbsolute(Join(parts)) == IsAbsolute(parts[0])
    ensures HasTrailing(Join(parts)) == HasTrailing(parts[|parts| - 1])
  {
    if |parts| > 1 {
      JoinEnds(parts[1..]);
    }
  }

  // Joining the arguments ys first changes nothing between xs and zs.
  predicate FlattensIn(xs: seq<string>, ys: seq<string>, zs: seq<string>)
  {
    JoinPaths(xs + [JoinPaths(ys)] + zs) == JoinPaths(xs + ys + zs)
  }

  // Some part counts, and it is relative, or it climbs nowhere above the root and either
  // leads below it or ends in a slash as the root does.
  predicate Flattens(ys: seq<string>)
  {
    var b := NonEmpty(ys);
    && b != []
    && (IsAbsolute(b[0]) ==>
          && Fold([], Segments(b), true) == Fold([], Segments(b), false)
          && (Fold([], Segments(b), false) == [] ==> HasTrailing(b[|b| - 1])))
  }

  lemma JoinFlattens(xs: seq<string>, ys: seq<string>, zs: seq<string>)
    requires Flattens(ys)
    ensures FlattensIn(xs, ys, zs)
  {
    hide NonEmpty, Join, Split, Fold, Normalize, Segments;
    var a, b, c := NonEmpty(xs), NonEmpty(ys), NonEmpty(zs);
    NonEmptyParts(xs);
    NonEmptyParts(ys);
    NonEmptyParts(zs);
    var n := JoinPaths(ys);
    NormalizeShape(Join(b));
    JoinEnds(b);
    SplitParts(b);
    if IsAbsolute(b[0]) { AbsoluteStack(Join(b)); }
    Combine(xs, ys, zs, n);
    FlattenParts(a, b, c, n);
  }

  // The parts of the two calls.
  lemma Combine(xs: seq<string>, ys: seq<string>, zs: seq<string>, n: string)
    requires n != ""
    ensures NonEmpty(xs + [n] + zs) == NonEmpty(xs) + [n] + NonEmpty(zs)
    ensures NonEmpty(xs + ys + zs) == NonEmpty(xs) + NonEmpty(ys) + NonEmpty(zs)
  {
    hide NonEmpty;
    NonEmptyConcat(xs + [n], zs);
    NonEmptyConcat(xs, [n]);
    NonEmptyConcat(xs + ys, zs);
    NonEmptyConcat(xs, ys);
    One(n);
  }

  // An absolute path normalises to its stack also when it is read as a relative one.
  lemma AbsoluteStack(path: string)
    requires IsAbsolute(path)
    ensures var n, stack := Normalize(path), Fold([], Split(path), false);
            && Fold([], Split(n), true) == stack
            && (n == "/" <==> stack == [])
  {
    hide Split, Fold, Join;
    var stack := Fold([], Split(path), false);
    SplitNoSlash(path);
    FoldNormal([], Split(path), false);
    NormalizeIsRender(path);
    PosixPath.JoinLength(stack);
    if stack == [] {
      RootReadRelative();
    } else {
      SplitJoin(stack);
      FoldIdempotent(stack, true);
      BodyEnds(stack);
      AddSlashes(Join(stack), true, true, HasTrailing(path));
    }
  }

  lemma RootReadRelative()
    ensures Fold([], Split("/"), true) == []
  {
    hide Split, Fold;
    assert "/" == "" + [SEP] + "";
    LeadingSlash("", true, true);
    assert "/" + "" == "/";
    SkipDot(false);
  }

  lemma One(n: string)
    requires n != ""
    ensures NonEmpty([n]) == [n]
  {
    assert [n][1..] == [];
  }

  lemma FlattenParts(a: seq<string>, b: seq<string>, c: seq<string>, n: string)
    requires forall i :: 0 <= i < |a| ==> a[i] != ""
    requires forall i :: 0 <= i < |b| ==> b[i] != ""
    requires forall i :: 0 <= i < |c| ==> c[i] != ""
    requires b != [] && n != "" && IsAbsolute(b[0]) == IsAbsolute(n)
    requires HasTrailing(n) == HasTrailing(b[|b| - 1])
    requires Fold([], Split(n), true) == Fold([], Split(Join(b)), true)
    ensures Normalize(Join(a + [n] + c)) == Normalize(Join(a + b + c))
  {
    hide Join, Split, Fold, Normalize, Segments, Render;
    var p, q := a + [n] + c, a + b + c;
    SameEnds(a, b, c, n);
    NormalizeIsRender(Join(p));
    NormalizeIsRender(Join(q));
    var allow := !IsAbsolute(Join(p));
    assert Fold([], Split(Join(p)), allow) == Fold([], Split(Join(q)), allow) by {
      SplitParts(p);
      SplitParts(q);
      SplitParts(b);
      ThreeParts(a, [n], c, allow);
      ThreeParts(a, b, c, allow);
      OneSegments(n);
      SameTarget(Fold([], Segments(a), allow), n, Join(b), allow);
    }
  }

  lemma SameEnds(a: seq<string>, b: seq<string>, c: seq<string>, n: string)
    requires forall i :: 0 <= i < |a| ==> a[i] != ""
    requires forall i :: 0 <= i < |b| ==> b[i] != ""
    requires forall i :: 0 <= i < |c| ==> c[i] != ""
    requires b != [] && n != "" && IsAbsolute(b[0]) == IsAbsolute(n)
    requires HasTrailing(n) == HasTrailing(b[|b| - 1])
    ensures var p, q := Join(a + [n] + c), Join(a + b + c);
            p != "" && q != "" && IsAbsolute(p) == IsAbsolute(q) && HasTrailing(p) == HasTrailing(q)
  {
    hide Join, IsAbsolute, HasTrailing;
    EndsOf(a, [n], c);
    EndsOf(a, b, c);
  }

  // The ends of parts joined from three groups.
  lemma EndsOf(a: seq<string>, b: seq<string>, c: seq<string>)
    requires forall i :: 0 <= i < |a| ==> a[i] != ""
    requires forall i :: 0 <= i < |b| ==> b[i] != ""
    requires forall i :: 0 <= i < |c| ==> c[i] != ""
    requires |b| > 0
    ensures var p := Join(a + b + c);
            && p != ""
            && IsAbsolute(p) == IsAbsolute(if |a| > 0 then a[0] else b[0])
            && HasTrailing(p) == HasTrailing(if |c| > 0 then c[|c| - 1] else b[|b| - 1])
  {
    hide Join, IsAbsolute, HasTrailing;
    var p := a + b + c;
    assert p[0] == if |a| > 0 then a[0] else b[0];
    assert p[|p| - 1] == if |c| > 0 then c[|c| - 1] else b[|b| - 1];
    JoinEnds(p);
  }

  lemma OneSegments(n: string)
    ensures Segments([n]) == Split(n)
  {
    hide Split;
    assert [n][1..] == [];
  }

  lemma ThreeParts(a: seq<string>, b: seq<string>, c: seq<string>, allow: bool)
    ensures Fold([], Segments(a + b + c), allow) ==
            Fold(Fold(Fold([], Segments(a), allow), Segments(b), allow), Segments(c), allow)
  {
    hide Segments, Fold;
    SegmentsConcat(a + b, c);
    SegmentsConcat(a, b);
    FoldConcat([], Segments(a) + Segments(b), Segments(c), allow);
    FoldConcat([], Segments(a), Segments(b), allow);
  }

  // ---------------------------------------------------------------- the condition is needed

  // With a directory in front, what comes back tells the stack and the trailing slash.
  lemma BehindDirectory(parts: seq<string>)
    requires parts != [] && forall i :: 0 <= i < |parts| ==> parts[i] != ""
    ensures var r := Normalize(Join(["a"] + parts));
            && Fold([], Split(r), true) == Fold(["a"], Segments(parts), true)
            && HasTrailing(r) == HasTrailing(parts[|parts| - 1])
  {
    hide Join, Split, Fold, Normalize, Segments;
    var all := ["a"] + parts;
    JoinEnds(all);
    NormalizeShape(Join(all));
    SplitParts(all);
    SegmentsConcat(["a"], parts);
    OneSegments("a");
    Directory();
    FoldConcat([], ["a"], Segments(parts), true);
  }

  lemma Directory()
    ensures Split("a") == ["a"] && Fold([], ["a"], true) == ["a"]
  {
    SplitAt("a", "");
    FoldSnoc([], [], "a", true);
    assert [] + ["a"] == ["a"];
  }

  // A path that climbs above the root, read as a relative one, leaves the directory.
  lemma Climbs(segs: seq<string>)
    requires NoSlash(segs) && Fold([], segs, true) != Fold([], segs, false)
    ensures Fold(["a"], segs, true) != ["a"] + Fold([], segs, false)
  {
    hide Fold;
    var t, f := Fold([], segs, true), Fold([], segs, false);
    FoldNormal([], segs, true);
    FoldNormal([], segs, false);
    FoldReduced([], [], segs, false);
    FoldReduced(["a"], [], segs, true);
    FoldNothing();
    assert Fold([], t, false) == f && Fold(["a"], t, true) == Fold(["a"], segs, true);
    LeadingUp(t, f);
    var rest := t[1..];
    PopDirectory(t);
    FoldIdempotent(rest, true);
    FoldPlain([], ["a"] + f, false);
    assert |Fold([], ["a"] + f, false)| == |f| + 1;
    assert Fold([], rest, false) == f;
  }

  lemma FoldNothing()
    ensures Fold([], [], false) == [] && Fold(["a"], [], true) == ["a"] && Normal([], true)
  { }

  lemma LeadingUp(t: seq<string>, f: seq<string>)
    requires Normal(t, true) && Fold([], t, false) == f && t != f
    ensures t != [] && t[0] == ".." && Normal(t[1..], true)
  {
    hide Fold;
    if t == [] || t[0] != ".." { PlainFolds(t); }
  }

  lemma PlainFolds(t: seq<string>)
    requires Normal(t, true) && (t == [] || t[0] != "..")
    ensures Fold([], t, false) == t
  {
    PlainAbove(t, |t|);
    FoldPlain([], t, false);
    assert [] + t == t;
  }

  lemma {:induction false} PlainAbove(t: seq<string>, n: nat)
    requires Normal(t, true) && n <= |t| && (t == [] || t[0] != "..")
    ensures forall i :: 0 <= i < n ==> t[i] != ".."
  {
    if n > 0 {
      PlainAbove(t, n - 1);
      var below := if n > 1 then t[n - 2] else "..";
      assert t[n - 1] == ".." ==> below == "..";
    }
  }

  // The first step up leaves the directory, in both readings.
  lemma PopDirectory(t: seq<string>)
    requires t != [] && t[0] == ".."
    ensures Fold(["a"], t, true) == Fold([], t[1..], true)
    ensures Fold([], t, false) == Fold([], t[1..], false)
  {
    assert ["a"][..0] == [];
  }

  // An absolute group that does not flatten changes what stands behind a directory.
  lemma AbsoluteBreaks(ys: seq<string>)
    requires !Flattens(ys) && NonEmpty(ys) != []
    ensures !FlattensIn(["a"], ys, [])
  {
    hide NonEmpty, Join, Split, Fold, Normalize, Segments;
    var b, n := NonEmpty(ys), JoinPaths(ys);
    NonEmptyParts(ys);
    JoinEnds(b);
    SplitParts(b);
    SplitNoSlash(Join(b));
    NormalizeShape(Join(b));
    AbsoluteStack(Join(b));
    Combine(["a"], ys, [], n);
    DirectoryParts();
    assert ["a"] + [n] + [] == ["a"] + [n] && ["a"] + b + [] == ["a"] + b;
    BehindDirectory([n]);
    BehindDirectory(b);
    OneSegments(n);
    var f := Fold([], Segments(b), false);
    if Fold([], Segments(b), true) != f {
      FoldNormal([], Segments(b), false);
      Climbs(Segments(b));
      BehindPlain(n, f);
    }
  }

  lemma DirectoryParts()
    ensures NonEmpty(["a"]) == ["a"] && NonEmpty([]) == []
  {
    assert ["a"][1..] == [];
  }

  // An absolute normalised path behind a directory adds its stack.
  lemma BehindPlain(n: string, f: seq<string>)
    requires Fold([], Split(n), true) == f && Normal(f, false)
    ensures Fold(["a"], Split(n), true) == ["a"] + f
  {
    hide Split, Fold;
    SplitNoSlash(n);
    FoldReduced(["a"], [], Split(n), true);
    FoldNothing();
    FoldPlain(["a"], f, true);
  }

  // Nothing at all does not flatten: it becomes a dot, which hides a trailing slash.
  lemma EmptyBreaks(ys: seq<string>)
    requires NonEmpty(ys) == []
    ensures !FlattensIn(["a/"], ys, [])
  {
    hide NonEmpty, Join, Split, Fold, Normalize;
    NonEmptyConcat(["a/"] + ["."], []);
    NonEmptyConcat(["a/"], ["."]);
    NonEmptyConcat(["a/"] + ys, []);
    NonEmptyConcat(["a/"], ys);
    DirectoryParts();
    One("a/");
    One(".");
    assert ["a/"] + ["."] + [] == ["a/", "."] && ["a/"] + [] + [] == ["a/"];
    JoinEnds(["a/", "."]);
    JoinEnds(["a/"]);
    NormalizeShape(Join(["a/", "."]));
    NormalizeShape(Join(["a/"]));
  }

  // Joining ys first changes nothing, whatever stands before and after it, exactly if ys
  // flattens.
  lemma JoinFlattensExactly(ys: seq<string>)
    ensures (forall xs, zs :: FlattensIn(xs, ys, zs)) <==> Flattens(ys)
  {
    hide FlattensIn, NonEmpty, Fold, Segments;
    if Flattens(ys) {
      forall xs, zs ensures FlattensIn(xs, ys, zs) { JoinFlattens(xs, ys, zs); }
    } else if NonEmpty(ys) == [] {
      EmptyBreaks(ys);
    } else {
      AbsoluteBreaks(ys);
    }
  }
}
