/**
 `normalizeString` and the functions of `path.posix` built on it, as loops over
 characters, proved equal to the segment machine.
 */
module PosixPath {
  import opened PathSpec

  // ---------------------------------------------------------------- the scanner's bookkeeping

  // The source's `lastIndexOf('/')`.
  function LastSlash(s: string): (d: int)
    ensures -1 <= d < |s|
    ensures d >= 0 ==> s[d] == SEP
    ensures forall j :: d < j < |s| ==> s[j] != SEP
  {
    if s == "" then -1
    else if s[|s| - 1] == SEP then |s| - 1
    else LastSlash(s[..|s| - 1])
  }

  // Number of dots of a segment made of dots only, -1 for any other segment.
  function Dots(seg: string): int
  {
    if seg == "" then 0
    else
      var d := Dots(seg[..|seg| - 1]);
      if seg[|seg| - 1] == '.' && d != -1 then d + 1 else -1
  }

  lemma {:induction false} DotsAll(seg: string)
    ensures Dots(seg) == if forall i :: 0 <= i < |seg| ==> seg[i] == '.' then |seg| else -1
    decreases |seg|
  {
    if seg != "" {
      var n := |seg| - 1;
      DotsAll(seg[..n]);
      assert forall i :: 0 <= i < n ==> seg[..n][i] == seg[i];
    }
  }

  lemma DotsMeaning(seg: string)
    ensures Dots(seg) == |seg| || Dots(seg) == -1
    ensures Dots(seg) == 1 <==> seg == "."
    ensures Dots(seg) == 2 <==> seg == ".."
  {
    hide Dots;
    DotsAll(seg);
  }

  // The result string and the length of its last segment stand for the stack.
  ghost predicate Shows(res: string, lastSegmentLength: int, stack: seq<string>)
  {
    && res == Join(stack)
    && (forall i :: 0 <= i < |stack| ==> Clean(stack[i]))
    && lastSegmentLength == if stack == [] then 0 else |stack[|stack| - 1]|
  }

  lemma {:induction false} JoinLength(stack: seq<string>)
    requires forall i :: 0 <= i < |stack| ==> Clean(stack[i])
    ensures stack == [] <==> Join(stack) == ""
    ensures |stack| >= 2 ==> |Join(stack)| >= 3
  {
    if |stack| >= 2 {
      assert Join(stack) == stack[0] + [SEP] + Join(stack[1..]);
      JoinLength(stack[1..]);
    }
  }

  // The top of a stack in its string.
  lemma Top(stack: seq<string>)
    requires stack != []
    ensures var n := |stack| - 1;
            var top := stack[n];
            var res := Join(stack);
            && |top| <= |res|
            && res[|res| - |top|..] == top
            && (n == 0 ==> res == top)
            && (n > 0 ==> |res| - |top| - 1 >= 0 && res[..|res| - |top| - 1] == Join(stack[..n]) && res[|res| - |top| - 1] == SEP)
  {
    var n := |stack| - 1;
    if n > 0 {
      assert stack == stack[..n] + [stack[n]];
      JoinConcat(stack[..n], [stack[n]]);
    }
  }

  lemma TopLength(stack: seq<string>)
    requires stack != [] && forall i :: 0 <= i < |stack| ==> Clean(stack[i])
    ensures |Join(stack)| - 1 - LastSlash(Join(stack)) == |stack[|stack| - 1]|
  {
    Top(stack);
    var res := Join(stack);
    var top := stack[|stack| - 1];
    var d := LastSlash(res);
    assert forall j :: |res| - |top| <= j < |res| ==> res[j] == top[j - (|res| - |top|)];
    assert SEP !in top;
  }

  // The source's test for a `..` on top.
  lemma TopIsUp(res: string, lastSegmentLength: int, stack: seq<string>)
    requires Shows(res, lastSegmentLength, stack)
    ensures (|res| >= 2 && lastSegmentLength == 2 && res[|res| - 1] == '.' && res[|res| - 2] == '.') <==>
            (stack != [] && stack[|stack| - 1] == "..")
  {
    if stack != [] {
      Top(stack);
      var top := stack[|stack| - 1];
      if |top| == 2 {
        assert top[0] == res[|res| - 2] && top[1] == res[|res| - 1];
        assert top == ".." <==> top[0] == '.' && top[1] == '.';
      }
    }
  }

  // Cutting off the last segment.
  method Pop(res: string, lastSegmentLength: int, ghost stack: seq<string>)
    returns (res': string, lastSegmentLength': int)
    requires Shows(res, lastSegmentLength, stack) && stack != []
    ensures Shows(res', lastSegmentLength', stack[..|stack| - 1])
  {
    ghost var rest := stack[..|stack| - 1];
    Top(stack);
    JoinLength(stack);
    if |res| > 2 {
      var lastSlashIndex := |res| - lastSegmentLength - 1;
      if lastSlashIndex == -1 {
        assert rest == [];
        res', lastSegmentLength' := "", 0;
      } else {
        assert rest != [];
        TopLength(rest);
        res' := res[..lastSlashIndex];
        lastSegmentLength' := |res'| - 1 - LastSlash(res');
      }
    } else {
      assert rest == [];
      res', lastSegmentLength' := "", 0;
    }
  }

  // A `..` segment.
  method GoUp(res: string, lastSegmentLength: int, allowAboveRoot: bool, ghost stack: seq<string>)
    returns (res': string, lastSegmentLength': int)
    requires Shows(res, lastSegmentLength, stack)
    ensures Shows(res', lastSegmentLength', Push(stack, "..", allowAboveRoot))
  {
    JoinLength(stack);
    TopIsUp(res, lastSegmentLength, stack);
    if |res| < 2 || lastSegmentLength != 2 || res[|res| - 1] != '.' || res[|res| - 2] != '.' {
      if |res| != 0 {
        res', lastSegmentLength' := Pop(res, lastSegmentLength, stack);
        return;
      }
    }
    res', lastSegmentLength' := res, lastSegmentLength;
    if allowAboveRoot {
      Append(stack, "..");
      res' := res + (if |res| > 0 then "/.." else "..");
      lastSegmentLength' := 2;
      assert |res| > 0 ==> res' == res + [SEP] + "..";
    }
  }

  lemma Append(stack: seq<string>, seg: string)
    requires Clean(seg) && forall i :: 0 <= i < |stack| ==> Clean(stack[i])
    ensures Shows(if |Join(stack)| > 0 then Join(stack) + [SEP] + seg else seg, |seg|, stack + [seg])
  {
    JoinLength(stack);
    if stack != [] {
      JoinConcat(stack, [seg]);
    } else {
      assert stack + [seg] == [seg];
    }
  }

  // What the scanner does at a slash or at the end of the path.
  method EndSegment(path: string, lastSlash: int, i: int, dots: int, res: string, lastSegmentLength: int,
                    allowAboveRoot: bool, ghost stack: seq<string>)
    returns (res': string, lastSegmentLength': int)
    requires -1 <= lastSlash < i <= |path|
    requires SEP !in path[lastSlash + 1..i] && dots == Dots(path[lastSlash + 1..i])
    requires Shows(res, lastSegmentLength, stack)
    ensures Shows(res', lastSegmentLength', Push(stack, path[lastSlash + 1..i], allowAboveRoot))
  {
    DotsMeaning(path[lastSlash + 1..i]);
    if lastSlash == i - 1 || dots == 1 {
      res', lastSegmentLength' := res, lastSegmentLength;
    } else if dots == 2 {
      res', lastSegmentLength' := GoUp(res, lastSegmentLength, allowAboveRoot, stack);
    } else {
      Append(stack, path[lastSlash + 1..i]);
      if |res| > 0 {
        res' := res + [SEP] + path[lastSlash + 1..i];
      } else {
        res' := path[lastSlash + 1..i];
      }
      lastSegmentLength' := i - lastSlash - 1;
    }
  }

  method NormalizeString(path: string, allowAboveRoot: bool) returns (res: string)
    ensures res == PathSpec.NormalizeString(path, allowAboveRoot)
  {
    hide Split, Fold, Push, Join;
    res := "";
    var lastSegmentLength, lastSlash, dots := 0, -1, 0;
    var code := '\0';
    ghost var stack: seq<string> := [];
    ghost var goal := Fold([], Split(path), allowAboveRoot);
    Empty();
    var i := 0;
    while i <= |path|
      invariant 0 <= i <= |path| + 1 && -1 <= lastSlash < i
      invariant 0 < i && code == SEP ==> lastSlash == i - 1
      invariant code == if i == 0 then '\0' else if i <= |path| then path[i - 1] else SEP
      invariant Shows(res, lastSegmentLength, stack)
      invariant i <= |path| ==>
        && SEP !in path[lastSlash + 1..i]
        && dots == Dots(path[lastSlash + 1..i])
        && goal == Fold(stack, Split(path[lastSlash + 1..]), allowAboveRoot)
      invariant i > |path| ==> goal == stack
    {
      if i < |path| {
        code := path[i];
      } else if code == SEP {
        EmptyEnd(path, stack, allowAboveRoot);
        break;
      } else {
        code := SEP;
      }
      if code == SEP {
        SegmentEnds(path, lastSlash, i, stack, allowAboveRoot);
        res, lastSegmentLength := EndSegment(path, lastSlash, i, dots, res, lastSegmentLength, allowAboveRoot, stack);
        stack := Push(stack, path[lastSlash + 1..i], allowAboveRoot);
        lastSlash := i;
        dots := 0;
      } else {
        DotsNext(path, lastSlash + 1, i);
        if code == '.' && dots != -1 {
          dots := dots + 1;
        } else {
          dots := -1;
        }
      }
      i := i + 1;
    }
  }

  lemma Empty()
    ensures Shows("", 0, [])
  {
  }

  lemma EmptyEnd(path: string, stack: seq<string>, allow: bool)
    ensures Fold(stack, Split(path[|path|..]), allow) == stack
  {
    assert Fold(stack, [""], allow) == Fold(Push(stack, "", allow), [""][1..], allow);
  }

  lemma SegmentEnds(path: string, lastSlash: int, i: int, stack: seq<string>, allow: bool)
    requires -1 <= lastSlash < i <= |path|
    requires SEP !in path[lastSlash + 1..i] && (i < |path| ==> path[i] == SEP)
    ensures i < |path| ==>
      Fold(stack, Split(path[lastSlash + 1..]), allow) ==
      Fold(Push(stack, path[lastSlash + 1..i], allow), Split(path[i + 1..]), allow)
    ensures i == |path| ==>
      Fold(stack, Split(path[lastSlash + 1..]), allow) == Push(stack, path[lastSlash + 1..i], allow)
  {
    hide Push, Split;
    var seg := path[lastSlash + 1..i];
    if i < |path| {
      SplitAt(seg, path[i + 1..]);
      assert path[lastSlash + 1..] == seg + [SEP] + path[i + 1..];
      var segs := [seg] + Split(path[i + 1..]);
      assert segs[0] == seg && segs[1..] == Split(path[i + 1..]);
      assert Fold(stack, segs, allow) == Fold(Push(stack, seg, allow), segs[1..], allow);
    } else {
      SplitAt(seg, "");
      assert path[lastSlash + 1..] == seg;
      assert Fold(stack, [seg], allow) == Fold(Push(stack, seg, allow), [seg][1..], allow);
    }
  }

  lemma DotsNext(path: string, start: int, i: int)
    requires 0 <= start <= i < |path|
    ensures Dots(path[start..i + 1]) ==
            if path[i] == '.' && Dots(path[start..i]) != -1 then Dots(path[start..i]) + 1 else -1
  {
    var seg := path[start..i + 1];
    assert seg[..|seg| - 1] == path[start..i];
  }

  // ---------------------------------------------------------------- path.posix

  method Normalize(path: string) returns (r: string)
    ensures r == PathSpec.Normalize(path)
  {
    if |path| == 0 {
      return ".";
    }
    var isAbsolute := path[0] == SEP;
    var trailingSeparator := path[|path| - 1] == SEP;
    var body := NormalizeString(path, !isAbsolute);
    if |body| == 0 {
      if isAbsolute {
        return "/";
      }
      return if trailingSeparator then "./" else ".";
    }
    if trailingSeparator {
      body := body + "/";
    }
    return if isAbsolute then "/" + body else body;
  }

  method JoinPaths(args: seq<string>) returns (r: string)
    ensures r == PathSpec.JoinPaths(args)
  {
    if |args| == 0 {
      return ".";
    }
    var path: seq<string> := [];
    assert args[0..] == args;
    for i := 0 to |args|
      invariant NonEmpty(args) == path + NonEmpty(args[i..])
    {
      assert args[i..][1..] == args[i + 1..];
      if |args[i]| > 0 {
        path := path + [args[i]];
      }
    }
    assert NonEmpty(args) == path;
    if |path| == 0 {
      return ".";
    }
    r := Normalize(Join(path));
  }

  // The right-to-left loop of `resolve`: it stops at the first absolute argument.
  method Collect(cwd: string, args: seq<string>)
    returns (resolvedPath: string, resolvedAbsolute: bool, ghost taken: seq<string>)
    ensures Split(resolvedPath) == taken + [""]
    ensures resolvedAbsolute ==> Walk(cwd, args) == (true, taken)
    ensures !resolvedAbsolute ==> Walk(cwd, args) == (IsAbsolute(cwd), Split(cwd) + taken)
  {
    hide Split;
    SplitAt("", "");
    resolvedPath, resolvedAbsolute, taken := "", false, [];
    ghost var goal := Walk(cwd, args);
    var i := |args| - 1;
    assert args[..|args|] == args && goal.1 + [] == goal.1;
    while i >= 0 && !resolvedAbsolute
      invariant -1 <= i < |args|
      invariant Split(resolvedPath) == taken + [""]
      invariant resolvedAbsolute ==> goal == (true, taken)
      invariant !resolvedAbsolute ==> goal == (Walk(cwd, args[..i + 1]).0, Walk(cwd, args[..i + 1]).1 + taken)
      decreases i
    {
      var path := args[i];
      WalkStep(cwd, args, i, taken);
      if |path| != 0 {
        SplitConcat(path, resolvedPath);
        assert Split(path) + (taken + [""]) == Split(path) + taken + [""];
        resolvedPath := path + "/" + resolvedPath;
        resolvedAbsolute := path[0] == SEP;
        taken := Split(path) + taken;
      }
      i := i - 1;
    }
  }

  lemma WalkStep(cwd: string, args: seq<string>, i: nat, taken: seq<string>)
    requires i < |args|
    ensures var w, w' := Walk(cwd, args[..i]), Walk(cwd, args[..i + 1]);
            var path := args[i];
            && (path == "" ==> w' == w)
            && (path != "" && path[0] != SEP ==> w'.0 == w.0 && w'.1 + taken == w.1 + (Split(path) + taken))
            && (path != "" && path[0] == SEP ==> w' == (true, Split(path)))
  {
    assert args[..i + 1][..i] == args[..i];
    var before := Walk(cwd, args[..i]).1;
    assert before + Split(args[i]) + taken == before + (Split(args[i]) + taken);
  }

  method Resolve(cwd: string, args: seq<string>) returns (r: string)
    ensures r == PathSpec.Resolve(cwd, args)
  {
    if |args| == 0 || (|args| == 1 && (args[0] == "" || args[0] == ".")) {
      if IsAbsolute(cwd) {
        return cwd;
      }
    }
    hide Walk, Join, Fold, Push, Split;
    var resolvedPath, resolvedAbsolute, taken := Collect(cwd, args);
    if !resolvedAbsolute {
      SplitConcat(cwd, resolvedPath);
      assert Split(cwd) + (taken + [""]) == Split(cwd) + taken + [""];
      resolvedPath := cwd + "/" + resolvedPath;
      resolvedAbsolute := IsAbsolute(cwd);
      taken := Split(cwd) + taken;
    }
    FoldTrailing([], taken, !resolvedAbsolute);
    resolvedPath := NormalizeString(resolvedPath, !resolvedAbsolute);
    if resolvedAbsolute {
      return "/" + resolvedPath;
    }
    return if |resolvedPath| > 0 then resolvedPath else ".";
  }
}
