/**
 Resolving as walking a tree: what `resolve`, `join` and `relative` mean for whoever
 follows their results.
 */
module PathRoutes {
  import opened PathSpec
  import PosixRelative
  import PathLaws

  // ---------------------------------------------------------------- where arguments lead

  // Where the arguments lead from a normal working directory, as a stack.
  function Where(cwd: string, args: seq<string>): seq<string> { Fold([], Walk(cwd, args).1, false) }

  lemma {:induction false} WalkAbsolute(cwd: string, args: seq<string>)
    requires IsAbsolute(cwd)
    ensures Walk(cwd, args).0 && NoSlash(Walk(cwd, args).1)
  {
    hide Split;
    SplitNoSlash(cwd);
    if args != [] {
      WalkAbsolute(cwd, args[..|args| - 1]);
      SplitNoSlash(args[|args| - 1]);
    }
  }

  // One argument more: nothing, a fresh start, or steps from where the others lead.
  lemma WhereNext(cwd: string, args: seq<string>, x: string)
    ensures Where(cwd, args + [x]) ==
            if x == "" then Where(cwd, args) else if IsAbsolute(x) then Fold([], Split(x), false) else Fold(Where(cwd, args), Split(x), false)
  {
    hide Split, Fold;
    assert (args + [x])[..|args|] == args;
    FoldConcat([], Walk(cwd, args).1, Split(x), false);
  }

  lemma ResolveAt(cwd: string, args: seq<string>)
    requires NormalCwd(cwd)
    ensures Resolve(cwd, args) == "/" + Join(Where(cwd, args)) && Normal(Where(cwd, args), false)
  {
    hide Split, Fold, Join, Walk;
    WalkAbsolute(cwd, args);
    FoldNormal([], Walk(cwd, args).1, false);
    WalkNothing(cwd);
    PosixRelative.WalkOne(cwd, "");
    PosixRelative.WalkOne(cwd, ".");
    PosixRelative.DotStays(cwd);
  }

  lemma WalkNothing(cwd: string)
    ensures Walk(cwd, []) == (IsAbsolute(cwd), Split(cwd))
  { }

  // A resolved path is a normal working directory, at its own stack.
  lemma ResolvedCwd(stack: seq<string>)
    requires Normal(stack, false)
    ensures NormalCwd("/" + Join(stack)) && Where("/" + Join(stack), []) == stack
  {
    hide Split, Fold, Join, Walk;
    var path := "/" + Join(stack);
    PathLaws.BodyShape(stack, true, false);
    assert PathLaws.Render(stack, true, false) == path by {
      assert "/" + "" == "/" && path + "" == path;
    }
    WalkNothing(path);
  }

  lemma {:induction false} WhereFrom(cwd: string, xs: seq<string>, start: string, ys: seq<string>)
    requires Where(start, []) == Where(cwd, xs)
    ensures Where(cwd, xs + ys) == Where(start, ys)
    decreases |ys|
  {
    hide Where, Split, Fold;
    if |ys| == 0 {
      assert xs + ys == xs && ys == [];
    } else {
      var n := |ys| - 1;
      WhereFrom(cwd, xs, start, ys[..n]);
      WhereNext(cwd, xs + ys[..n], ys[n]);
      WhereNext(start, ys[..n], ys[n]);
      assert xs + ys[..n] + [ys[n]] == xs + ys && ys[..n] + [ys[n]] == ys;
    }
  }

  // Resolving all arguments is resolving the later ones from where the earlier ones lead.
  lemma ResolveConcat(cwd: string, xs: seq<string>, ys: seq<string>)
    requires NormalCwd(cwd)
    ensures NormalCwd(Resolve(cwd, xs)) && Resolve(cwd, xs + ys) == Resolve(Resolve(cwd, xs), ys)
  {
    hide Where, Resolve, NormalCwd, Normal;
    ResolveAt(cwd, xs);
    var start := Resolve(cwd, xs);
    ResolvedCwd(Where(cwd, xs));
    WhereFrom(cwd, xs, start, ys);
    ResolveAt(cwd, xs + ys);
    ResolveAt(start, ys);
  }

  // An absolute argument makes the earlier ones and the working directory immaterial.
  lemma AbsoluteRestarts(cwd: string, xs: seq<string>, y: string, zs: seq<string>)
    requires NormalCwd(cwd) && IsAbsolute(y)
    ensures Resolve(cwd, xs + [y] + zs) == Resolve(cwd, [y] + zs) == Resolve("/", [y] + zs)
  {
    hide Where, Resolve, NormalCwd, Normal;
    RootCwd();
    ResolveConcat(cwd, xs + [y], zs);
    ResolveConcat(cwd, [y], zs);
    ResolveConcat("/", [y], zs);
    ResolveAt(cwd, xs + [y]);
    ResolveAt(cwd, [y]);
    ResolveAt("/", [y]);
    WhereNext(cwd, xs, y);
    WhereNext(cwd, [], y);
    WhereNext("/", [], y);
    assert [] + [y] == [y];
  }

  lemma RootCwd()
    ensures NormalCwd("/")
  {
    hide Split, Fold;
    PathLaws.SkipRoot();
  }

  // ---------------------------------------------------------------- single steps

  function Child(dir: string, name: string): string { if dir == "/" then "/" + name else dir + "/" + name }

  // A name leads into a directory, and `..` out of it again; the root is its own parent.
  lemma ResolveSteps(cwd: string, name: string)
    requires NormalCwd(cwd) && Clean(name) && name != ".."
    ensures Resolve(cwd, [name]) == Child(cwd, name) && NormalCwd(Child(cwd, name))
    ensures Resolve(Child(cwd, name), [".."]) == cwd
    ensures Resolve("/", [".."]) == "/"
    ensures Resolve(cwd, ["."]) == cwd && Resolve(cwd, [""]) == cwd && Resolve(cwd, []) == cwd
  {
    hide Where, Split, Fold, Join, Walk;
    var stack := Where(cwd, []);
    ResolveAt(cwd, []);
    assert Resolve(cwd, []) == cwd;
    StepStack(cwd, name);
    ResolveAt(cwd, [name]);
    ChildText(stack, name);
    RootCwd();
    ResolvedCwd(stack + [name]);
    StepUp(Child(cwd, name), stack, name);
    ResolveAt(Child(cwd, name), [".."]);
    RootUp();
  }

  lemma StepStack(cwd: string, name: string)
    requires Clean(name) && name != ".."
    ensures Where(cwd, [name]) == Where(cwd, []) + [name]
  {
    hide Where;
    WhereNext(cwd, [], name);
    SplitAt(name, "");
    FoldSnoc(Where(cwd, []), [], name, false);
    assert [] + [name] == [name];
    assert Fold(Where(cwd, []), [], false) == Where(cwd, []);
    assert name[0] in name;
  }

  lemma ChildText(stack: seq<string>, name: string)
    requires Normal(stack, false)
    ensures "/" + Join(stack + [name]) == Child("/" + Join(stack), name)
  {
    hide Normal;
    if |stack| == 0 {
      assert stack + [name] == [name];
      assert "/" + Join(stack) == "/";
    } else {
      JoinConcat(stack, [name]);
      Longer(stack);
      assert "/" + (Join(stack) + [SEP] + name) == "/" + Join(stack) + "/" + name;
    }
  }

  lemma Longer(stack: seq<string>)
    requires Normal(stack, false) && |stack| > 0
    ensures |"/" + Join(stack)| > 1
  {
    PathLaws.BodyEnds(stack);
  }

  lemma StepUp(path: string, stack: seq<string>, name: string)
    requires Where(path, []) == stack + [name] && name != ".."
    ensures Where(path, [".."]) == stack
  {
    hide Where;
    WhereNext(path, [], "..");
    SplitAt("..", "");
    FoldSnoc(stack + [name], [], "..", false);
    assert [] + [".."] == [".."];
    assert Fold(stack + [name], [], false) == stack + [name];
    assert (stack + [name])[..|stack|] == stack;
  }

  lemma RootUp()
    ensures Resolve("/", [".."]) == "/"
  {
    hide Where;
    RootCwd();
    ResolveAt("/", [".."]);
    WhereNext("/", [], "..");
    SplitAt("..", "");
    assert Where("/", []) == [] by { RootStack(); }
    FoldSnoc([], [], "..", false);
    assert [] + [".."] == [".."] && Fold([], [], false) == [];
    assert Push([], "..", false) == [];
    assert "/" + Join([]) == "/";
  }

  lemma RootStack()
    ensures Where("/", []) == []
  {
    hide Split, Fold;
    PathLaws.SkipRoot();
  }

  // A path is followed segment by segment.
  lemma ResolveSlash(cwd: string, p: string, q: string)
    requires NormalCwd(cwd) && p != "" && !IsAbsolute(q)
    ensures Resolve(cwd, [p + "/" + q]) == Resolve(cwd, [p, q])
  {
    hide Where, Split, Fold, Join, Resolve;
    ResolveAt(cwd, [p + "/" + q]);
    ResolveAt(cwd, [p, q]);
    WhereNext(cwd, [], p + "/" + q);
    WhereNext(cwd, [], p);
    WhereNext(cwd, [p], q);
    assert [] + [p] == [p] && [p] + [q] == [p, q] && [] + [p + "/" + q] == [p + "/" + q];
    SplitConcat(p, q);
    assert p + [SEP] + q == p + "/" + q;
    FoldConcat([], Split(p), Split(q), false);
    FoldConcat(Where(cwd, []), Split(p), Split(q), false);
    NoSteps(Fold([], Split(p), false));
    NoSteps(Fold(Where(cwd, []), Split(p), false));
  }

  lemma NoSteps(stack: seq<string>)
    ensures Fold(stack, Split(""), false) == stack
  {
    assert Split("") == [""];
    FoldSnoc(stack, [], "", false);
    assert [] + [""] == [""];
  }

  // ---------------------------------------------------------------- the shortest way

  // Steps between two directories of a tree: up to the last shared one and down.
  function Distance(a: seq<string>, b: seq<string>): nat { |a| - Common(a, b) + (|b| - Common(a, b)) }

  // Common part of a stack that grows by one.
  lemma CommonGrows(a: seq<string>, x: string, b: seq<string>)
    ensures var c := Common(a, b);
            Common(a + [x], b) == if c == |a| && c < |b| && b[c] == x then c + 1 else c
  {
    hide Common;
    var c := Common(a, b);
    assert (a + [x])[..c] == a[..c];
    if c == |a| && c < |b| && b[c] == x {
      assert (a + [x])[..c + 1] == a[..c] + [x] && b[..c + 1] == b[..c] + [x];
      PosixRelative.CommonUnique(a + [x], b, c + 1);
    } else {
      PosixRelative.CommonUnique(a + [x], b, c);
    }
  }

  // One segment takes at most one step, and where it comes closer it is the step on the way.
  lemma PushDistance(a: seq<string>, x: string, b: seq<string>)
    requires Normal(a, false) && Normal(b, false)
    ensures Distance(a, b) <= Distance(Push(a, x, false), b) + 1
    ensures Distance(a, b) == Distance(Push(a, x, false), b) + 1 ==>
              if Common(a, b) < |a| then x == ".." else |a| < |b| && x == b[|a|]
  {
    hide Common, Distance;
    if x == "" || x == "." {
    } else if x == ".." {
      if |a| > 0 { OutDistance(a, b); }
    } else {
      InDistance(a, x, b);
    }
  }

  lemma OutDistance(a: seq<string>, b: seq<string>)
    requires Normal(a, false) && |a| > 0
    ensures Push(a, "..", false) == a[..|a| - 1]
    ensures Distance(a, b) == Distance(a[..|a| - 1], b) + if Common(a, b) < |a| then 1 else -1
  {
    hide Common, Normal;
    var n := |a| - 1;
    NotUp(a);
    CommonGrows(a[..n], a[n], b);
    assert a[..n] + [a[n]] == a;
  }

  lemma NotUp(a: seq<string>)
    requires Normal(a, false) && |a| > 0
    ensures a[|a| - 1] != ".."
  {
    assert a[|a| - 1] in a;
  }

  lemma InDistance(a: seq<string>, x: string, b: seq<string>)
    ensures Distance(a, b) == Distance(a + [x], b) + if Common(a, b) == |a| < |b| && b[|a|] == x then 1 else -1
  {
    hide Common;
    CommonGrows(a, x, b);
  }

  // No route is shorter, and the shortest one is unique: up, then down.
  lemma {:induction false} RouteLength(a: seq<string>, segs: seq<string>, b: seq<string>)
    requires Normal(a, false) && NoSlash(segs) && Fold(a, segs, false) == b
    ensures Distance(a, b) <= |segs|
    ensures |segs| == Distance(a, b) ==> segs == Ups(|a| - Common(a, b)) + b[Common(a, b)..]
    decreases |segs|
  {
    FoldNormal(a, segs, false);
    if |segs| == 0 {
      PosixRelative.CommonUnique(a, a, |a|);
      assert Ups(0) + b[|b|..] == [];
    } else {
      hide Common, Push;
      var x, rest := segs[0], segs[1..];
      var t := Push(a, x, false);
      PushNormal(a, x, false);
      RouteLength(t, rest, b);
      PushDistance(a, x, b);
      if |segs| == Distance(a, b) {
        FirstStep(a, x, b);
        assert segs == [x] + rest;
      }
    }
  }

  lemma FirstStep(a: seq<string>, x: string, b: seq<string>)
    requires Normal(a, false) && Normal(b, false) && Distance(a, b) == Distance(Push(a, x, false), b) + 1
    ensures var t := Push(a, x, false);
            [x] + (Ups(|t| - Common(t, b)) + b[Common(t, b)..]) == Ups(|a| - Common(a, b)) + b[Common(a, b)..]
  {
    hide Common, Normal;
    PushDistance(a, x, b);
    var c := Common(a, b);
    if c < |a| {
      Outward(a, b);
      assert [".."] + Ups(|a| - 1 - c) == Ups(|a| - c);
      assert [x] + (Ups(|a| - 1 - c) + b[c..]) == [x] + Ups(|a| - 1 - c) + b[c..];
    } else {
      Inward(a, b);
      assert Ups(0) == [];
      assert [x] + ([] + b[c + 1..]) == [] + b[c..];
    }
  }

  lemma Outward(a: seq<string>, b: seq<string>)
    requires Normal(a, false) && Common(a, b) < |a|
    ensures Push(a, "..", false) == a[..|a| - 1] && Common(a[..|a| - 1], b) == Common(a, b)
  {
    hide Common, Normal;
    var n := |a| - 1;
    NotUp(a);
    CommonGrows(a[..n], a[n], b);
    assert a[..n] + [a[n]] == a;
  }

  lemma Inward(a: seq<string>, b: seq<string>)
    requires Normal(b, false) && Common(a, b) == |a| < |b|
    ensures Push(a, b[|a|], false) == a + [b[|a|]] && Common(a + [b[|a|]], b) == |a| + 1
  {
    hide Common;
    assert b[|a|] in b;
    assert Clean(b[|a|]) && b[|a|] != "..";
    hide Normal, Clean;
    CommonGrows(a, b[|a|], b);
  }

  // ---------------------------------------------------------------- relative

  // `relative` gives the shortest relative path that leads from one to the other, and no
  // other path is as short; it is empty exactly if the two are the same.
  lemma RelativeShortest(cwd: string, from: string, to: string, r: string)
    requires NormalCwd(cwd) && !IsAbsolute(r) && Resolve(cwd, [from, r]) == Resolve(cwd, [to])
    ensures var best := Relative(cwd, from, to);
            && (best == "" <==> Resolve(cwd, [from]) == Resolve(cwd, [to]))
            && |Split(best)| <= |Split(r)|
            && (|Split(best)| == |Split(r)| && best != "" ==> r == best)
  {
    hide Fold, Join, Split, Walk, Common, Resolve, Where, Ups;
    var a, b := Where(cwd, [from]), Where(cwd, [to]);
    ResolveAt(cwd, [from]);
    ResolveAt(cwd, [to]);
    ResolveAt(cwd, [from, r]);
    SameStack(a, b);
    SameStack(Where(cwd, [from, r]), b);
    WhereNext(cwd, [from], r);
    assert [from] + [r] == [from, r];
    var steps := Ups(|a| - Common(a, b)) + b[Common(a, b)..];
    RelativeIs(cwd, from, to);
    StepCount(a, b);
    if |steps| == 0 {
      PathLaws.NothingLeft(a, b);
      SplitCount(r);
      SplitCount("");
    } else {
      PathLaws.StepsAreRelative(a, b, steps);
      SplitNoSlash(r);
      if r == "" { NoSteps(a); }
      assert Fold(a, Split(r), false) == b;
      RouteLength(a, Split(r), b);
      if |Split(r)| == |steps| { JoinSplit(r); }
    }
  }

  lemma SplitCount(r: string)
    ensures |Split(r)| >= 1 && Split("") == [""]
  { }

  lemma RelativeIs(cwd: string, from: string, to: string)
    ensures var a, b := Where(cwd, [from]), Where(cwd, [to]);
            Relative(cwd, from, to) == Join(Ups(|a| - Common(a, b)) + b[Common(a, b)..])
  {
    hide Fold, Join, Split, Walk, Common;
  }

  lemma StepCount(a: seq<string>, b: seq<string>)
    ensures |Ups(|a| - Common(a, b)) + b[Common(a, b)..]| == Distance(a, b)
    ensures a == b ==> Distance(a, b) == 0
  {
    if a == b { PosixRelative.CommonUnique(a, b, |a|); }
  }

  // Resolved paths are the same exactly if their stacks are.
  lemma SameStack(a: seq<string>, b: seq<string>)
    requires Normal(a, false) && Normal(b, false)
    ensures "/" + Join(a) == "/" + Join(b) <==> a == b
  {
    hide Where, Join;
    ResolvedCwd(a);
    ResolvedCwd(b);
  }

  // ---------------------------------------------------------------- join

  // The parts after the first that counts are relative.
  predicate OnlyFirstAbsolute(parts: seq<string>) { forall i :: 0 < i < |parts| ==> !IsAbsolute(parts[i]) }

  // Empty arguments do not count.
  lemma {:induction false} WhereNonEmpty(cwd: string, xs: seq<string>)
    ensures Where(cwd, NonEmpty(xs)) == Where(cwd, xs)
  {
    hide Where, NonEmpty, Split, Fold;
    NoArguments();
    if |xs| > 0 {
      var n := |xs| - 1;
      WhereNonEmpty(cwd, xs[..n]);
      PathLaws.NonEmptyConcat(xs[..n], [xs[n]]);
      assert xs[..n] + [xs[n]] == xs;
      WhereNext(cwd, xs[..n], xs[n]);
      if xs[n] == "" {
        EmptyArgument();
        assert NonEmpty(xs[..n]) + [] == NonEmpty(xs[..n]);
      } else {
        PathLaws.One(xs[n]);
        WhereNext(cwd, NonEmpty(xs[..n]), xs[n]);
      }
    }
  }

  lemma NoArguments()
    ensures NonEmpty([]) == []
  { }

  lemma EmptyArgument()
    ensures NonEmpty([""]) == []
  {
    assert [""][1..] == [];
  }

  // Parts that are joined by slashes lead where they lead one by one.
  lemma {:induction false} WhereJoined(cwd: string, parts: seq<string>)
    requires NormalCwd(cwd) && |parts| > 0 && OnlyFirstAbsolute(parts) && forall i :: 0 <= i < |parts| ==> parts[i] != ""
    ensures Resolve(cwd, [Join(parts)]) == Resolve(cwd, parts)
    decreases |parts|
  {
    hide Where, Split, Fold, Resolve, NormalCwd;
    if |parts| == 1 {
      assert parts == [parts[0]];
    } else {
      var n := |parts| - 1;
      var front, last := parts[..n], parts[n];
      WhereJoined(cwd, front);
      JoinConcat(front, [last]);
      assert front + [last] == parts;
      PathLaws.JoinEnds(front);
      assert Join(parts) == Join(front) + "/" + last;
      hide Join;
      ResolveSlash(cwd, Join(front), last);
      assert [Join(front)] + [last] == [Join(front), last];
      ResolveConcat(cwd, [Join(front)], [last]);
      ResolveConcat(cwd, front, [last]);
    }
  }

  // Joining and then resolving is resolving, unless a later part is absolute, which `join`
  // takes for a relative one.
  lemma JoinResolves(cwd: string, xs: seq<string>)
    requires NormalCwd(cwd) && OnlyFirstAbsolute(NonEmpty(xs))
    ensures Resolve(cwd, [JoinPaths(xs)]) == Resolve(cwd, xs)
  {
    hide Where, Split, Fold, Resolve, NormalCwd, Normalize, Join, NonEmpty;
    var parts := NonEmpty(xs);
    WhereNonEmpty(cwd, xs);
    ResolveAt(cwd, xs);
    ResolveAt(cwd, parts);
    PathLaws.NonEmptyParts(xs);
    if |parts| == 0 {
      assert parts == [];
      StaysHere(cwd);
    } else {
      WhereJoined(cwd, parts);
      PathLaws.NormalizeKeepsTarget(cwd, Join(parts));
    }
  }

  lemma StaysHere(cwd: string)
    requires NormalCwd(cwd)
    ensures Resolve(cwd, ["."]) == cwd == Resolve(cwd, [])
  { }

  // ---------------------------------------------------------------- a relative working directory

  lemma {:induction false} WalkRelative(cwd: string, args: seq<string>)
    requires cwd != "" && !IsAbsolute(cwd) && forall i :: 0 <= i < |args| ==> !IsAbsolute(args[i])
    ensures Walk(cwd, args) == (false, PathLaws.Segments([cwd] + NonEmpty(args)))
  {
    hide Split, NonEmpty, PathLaws.Segments;
    NoArguments();
    if |args| == 0 {
      assert args == [];
      assert [cwd] + [] == [cwd];
      OneSegment(cwd);
    } else {
      var n := |args| - 1;
      var front, last := args[..n], args[n];
      WalkRelative(cwd, front);
      assert front + [last] == args;
      PathLaws.NonEmptyConcat(front, [last]);
      LastRelative(cwd, NonEmpty(front), last);
      assert Walk(cwd, front) == (false, PathLaws.Segments([cwd] + NonEmpty(front)));
      assert !IsAbsolute(last);
    }
  }

  lemma LastRelative(cwd: string, parts: seq<string>, last: string)
    ensures PathLaws.Segments([cwd] + (parts + NonEmpty([last])))
         == if last == "" then PathLaws.Segments([cwd] + parts) else PathLaws.Segments([cwd] + parts) + Split(last)
  {
    hide Split, NonEmpty, PathLaws.Segments;
    if last == "" {
      EmptyArgument();
      NothingMore(parts);
    } else {
      PathLaws.One(last);
      assert [cwd] + (parts + [last]) == ([cwd] + parts) + [last];
      PathLaws.SegmentsConcat([cwd] + parts, [last]);
      OneSegment(last);
    }
  }

  lemma NothingMore(s: seq<string>)
    ensures s + [] == s
  { }

  lemma OneSegment(x: string)
    ensures PathLaws.Segments([x]) == Split(x)
  {
    hide Split;
    assert [x][1..] == [];
    assert PathLaws.Segments([]) == [];
    NothingMore(Split(x));
  }

  // From a relative working directory, with relative arguments, resolving is joining
  // without the slash at the end.
  lemma RelativeCwd(cwd: string, args: seq<string>)
    requires cwd != "" && !IsAbsolute(cwd) && forall i :: 0 <= i < |args| ==> !IsAbsolute(args[i])
    ensures JoinPaths([cwd] + args) == Resolve(cwd, args) + if HasTrailing(([cwd] + NonEmpty(args))[|NonEmpty(args)|]) then "/" else ""
  {
    hide Split, NonEmpty, PathLaws.Segments, Fold, Join, IsAbsolute, HasTrailing;
    var parts := [cwd] + NonEmpty(args);
    PathLaws.NonEmptyConcat([cwd], args);
    PathLaws.One(cwd);
    PathLaws.NonEmptyParts(args);
    WalkRelative(cwd, args);
    PathLaws.SplitParts(parts);
    PathLaws.JoinEnds(parts);
  }
}
