/**
 POSIX paths as segment stacks: what `path.posix` computes, without its
 character scanners.
 */
module PathSpec {
  import opened Texts

  const SEP := '/'

  // ---------------------------------------------------------------- segments

  // The pieces between slashes.
  function Split(s: string): (r: seq<string>)
    ensures |r| > 0
  {
    SplitOn(s, SEP)
  }

  // The inverse, and the source's `join('/')`.
  function Join(segs: seq<string>): string
  {
    if |segs| == 0 then ""
    else if |segs| == 1 then segs[0]
    else segs[0] + [SEP] + Join(segs[1..])
  }

  ghost predicate NoSlash(segs: seq<string>)
  {
    forall i :: 0 <= i < |segs| ==> SEP !in segs[i]
  }

  lemma SplitAt(seg: string, rest: string)
    requires SEP !in seg
    ensures Split(seg) == [seg]
    ensures Split(seg + [SEP] + rest) == [seg] + Split(rest)
  {
    hide SplitOn;
    SplitOnFirst(seg, rest, SEP);
  }

  lemma SplitConcat(a: string, b: string)
    ensures Split(a + [SEP] + b) == Split(a) + Split(b)
  {
    hide SplitOn;
    SplitOnConcat(a, b, SEP);
  }

  lemma {:induction false} SplitNoSlash(s: string)
    ensures NoSlash(Split(s))
  {
    if s != "" {
      SplitNoSlash(s[1..]);
    }
  }

  lemma {:induction false} JoinSplit(s: string)
    ensures Join(Split(s)) == s
  {
    if s != "" {
      JoinSplit(s[1..]);
      var r := Split(s[1..]);
      assert s == [s[0]] + s[1..];
      if s[0] == SEP {
        assert Split(s)[1..] == r;
      } else if |r| > 1 {
        assert Split(s)[1..] == r[1..];
        assert Join(Split(s)) == [s[0]] + (r[0] + [SEP] + Join(r[1..]));
      }
    }
  }

  lemma {:induction false} SplitJoin(segs: seq<string>)
    requires segs != [] && NoSlash(segs)
    ensures Split(Join(segs)) == segs
  {
    assert segs == [segs[0]] + segs[1..];
    SplitAt(segs[0], Join(segs[1..]));
    if |segs| > 1 {
      SplitJoin(segs[1..]);
    }
  }

  lemma {:induction false} JoinConcat(a: seq<string>, b: seq<string>)
    requires a != [] && b != []
    ensures Join(a + b) == Join(a) + [SEP] + Join(b)
    decreases |a|
  {
    var ab := a + b;
    if |a| == 1 {
      assert ab[1..] == b;
    } else {
      JoinConcat(a[1..], b);
      assert ab[1..] == a[1..] + b;
      assert a[0] + [SEP] + (Join(a[1..]) + [SEP] + Join(b)) == (a[0] + [SEP] + Join(a[1..])) + [SEP] + Join(b);
    }
  }

  // ---------------------------------------------------------------- the stack machine

  // One segment: empty and `.` are skipped, `..` pops or is kept.
  function Push(stack: seq<string>, seg: string, allowAboveRoot: bool): seq<string>
  {
    if seg == "" || seg == "." then stack
    else if seg == ".." then
      if |stack| > 0 && stack[|stack| - 1] != ".." then stack[..|stack| - 1]
      else if allowAboveRoot then stack + [".."]
      else stack
    else stack + [seg]
  }

  function Fold(stack: seq<string>, segs: seq<string>, allowAboveRoot: bool): seq<string>
    decreases |segs|
  {
    if segs == [] then stack else Fold(Push(stack, segs[0], allowAboveRoot), segs[1..], allowAboveRoot)
  }

  predicate Clean(seg: string) { seg != "" && seg != "." && SEP !in seg }

  // Stacks the machine reaches: clean segments, `..` only at the bottom and only
  // if paths may go above the root.
  ghost predicate Normal(stack: seq<string>, allowAboveRoot: bool)
  {
    && (forall i :: 0 <= i < |stack| ==> Clean(stack[i]))
    && (forall i :: 0 < i < |stack| && stack[i] == ".." ==> stack[i - 1] == "..")
    && (!allowAboveRoot ==> ".." !in stack)
  }

  lemma {:induction false} FoldConcat(stack: seq<string>, a: seq<string>, b: seq<string>, allow: bool)
    ensures Fold(stack, a + b, allow) == Fold(Fold(stack, a, allow), b, allow)
    decreases |a|
  {
    if a == [] {
      assert a + b == b;
    } else {
      assert (a + b)[1..] == a[1..] + b;
      FoldConcat(Push(stack, a[0], allow), a[1..], b, allow);
    }
  }

  lemma FoldSnoc(stack: seq<string>, a: seq<string>, x: string, allow: bool)
    ensures Fold(stack, a + [x], allow) == Push(Fold(stack, a, allow), x, allow)
  {
    FoldConcat(stack, a, [x], allow);
    var st := Fold(stack, a, allow);
    assert Fold(st, [x], allow) == Fold(Push(st, x, allow), [x][1..], allow);
  }

  // A trailing slash adds an empty segment, which is skipped.
  lemma FoldTrailing(stack: seq<string>, a: seq<string>, allow: bool)
    ensures Fold(stack, a + [""], allow) == Fold(stack, a, allow)
  {
    FoldSnoc(stack, a, "", allow);
  }

  lemma PushNormal(stack: seq<string>, seg: string, allow: bool)
    requires Normal(stack, allow) && SEP !in seg
    ensures Normal(Push(stack, seg, allow), allow)
  {
  }

  lemma {:induction false} FoldNormal(stack: seq<string>, segs: seq<string>, allow: bool)
    requires Normal(stack, allow) && NoSlash(segs)
    ensures Normal(Fold(stack, segs, allow), allow)
    decreases |segs|
  {
    if segs != [] {
      PushNormal(stack, segs[0], allow);
      FoldNormal(Push(stack, segs[0], allow), segs[1..], allow);
    }
  }

  // Without a `..` below it a stack is pushed as it is.
  lemma {:induction false} FoldPlain(stack: seq<string>, segs: seq<string>, allow: bool)
    requires forall i :: 0 <= i < |segs| ==> Clean(segs[i]) && segs[i] != ".."
    ensures Fold(stack, segs, allow) == stack + segs
    decreases |segs|
  {
    if segs == [] {
      assert stack + segs == stack;
    } else {
      FoldPlain(stack + [segs[0]], segs[1..], allow);
      assert stack + [segs[0]] + segs[1..] == stack + segs;
    }
  }

  // A reachable stack, read as a path, gives itself.
  lemma {:induction false} FoldIdempotent(stack: seq<string>, allow: bool)
    requires Normal(stack, allow)
    ensures Fold([], stack, allow) == stack
    decreases |stack|
  {
    if |stack| > 0 {
      hide Fold;
      var n := |stack| - 1;
      assert stack == stack[..n] + [stack[n]];
      FoldIdempotent(stack[..n], allow);
      FoldSnoc([], stack[..n], stack[n], allow);
      assert stack[n] in stack;
    }
  }

  // Reducing a relative path first does not change where it leads.
  lemma {:induction false} FoldReduced(stack: seq<string>, a: seq<string>, segs: seq<string>, allow: bool)
    requires Normal(a, true) && NoSlash(segs)
    ensures Fold(stack, Fold(a, segs, true), allow) == Fold(Fold(stack, a, allow), segs, allow)
    decreases |segs|
  {
    if segs != [] {
      PushReduced(stack, a, segs[0], allow);
      PushNormal(a, segs[0], true);
      FoldReduced(stack, Push(a, segs[0], true), segs[1..], allow);
    }
  }

  lemma PushReduced(stack: seq<string>, a: seq<string>, x: string, allow: bool)
    requires Normal(a, true) && SEP !in x
    ensures Fold(stack, Push(a, x, true), allow) == Push(Fold(stack, a, allow), x, allow)
  {
    if x == "" || x == "." {
    } else if x == ".." && |a| > 0 && a[|a| - 1] != ".." {
      var n := |a| - 1;
      assert a == a[..n] + [a[n]];
      FoldSnoc(stack, a[..n], a[n], allow);
      var st := Fold(stack, a[..n], allow);
      assert (st + [a[n]])[..|st|] == st;
    } else {
      FoldSnoc(stack, a, x, allow);
    }
  }

  // Popping all but c segments.
  function Ups(n: nat): (r: seq<string>)
    ensures |r| == n && forall i :: 0 <= i < n ==> r[i] == ".."
  {
    seq(n, _ => "..")
  }

  lemma {:induction false} FoldUps(stack: seq<string>, n: nat)
    requires n <= |stack| && ".." !in stack
    ensures Fold(stack, Ups(n), false) == stack[..|stack| - n]
    decreases n
  {
    if n > 0 {
      assert stack[|stack| - 1] in stack;
      var popped := stack[..|stack| - 1];
      assert Push(stack, "..", false) == popped;
      assert Ups(n)[1..] == Ups(n - 1);
      FoldUps(popped, n - 1);
    }
  }

  // ---------------------------------------------------------------- path.posix

  predicate IsAbsolute(path: string) { |path| > 0 && path[0] == SEP }

  predicate HasTrailing(path: string) { |path| > 0 && path[|path| - 1] == SEP }

  function NormalizeString(path: string, allowAboveRoot: bool): string
  {
    Join(Fold([], Split(path), allowAboveRoot))
  }

  function Normalize(path: string): string
  {
    if path == "" then "."
    else
      var abs := IsAbsolute(path);
      var body := NormalizeString(path, !abs);
      if body == "" then (if abs then "/" else if HasTrailing(path) then "./" else ".")
      else (if abs then "/" else "") + body + (if HasTrailing(path) then "/" else "")
  }

  function NonEmpty(args: seq<string>): seq<string>
  {
    if args == [] then [] else (if args[0] == "" then [] else [args[0]]) + NonEmpty(args[1..])
  }

  function JoinPaths(args: seq<string>): string
  {
    var parts := NonEmpty(args);
    if parts == [] then "." else Normalize(Join(parts))
  }

  // Following the arguments one after the other from the working directory: an
  // absolute one starts afresh. The segments are those passed, not yet folded.
  function Walk(cwd: string, args: seq<string>): (bool, seq<string>)
  {
    if args == [] then (IsAbsolute(cwd), Split(cwd))
    else
      var last := args[|args| - 1];
      var (abs, segs) := Walk(cwd, args[..|args| - 1]);
      if last == "" then (abs, segs)
      else if IsAbsolute(last) then (true, Split(last))
      else (abs, segs + Split(last))
  }

  function Resolve(cwd: string, args: seq<string>): string
  {
    if IsAbsolute(cwd) && (args == [] || args == [""] || args == ["."]) then cwd
    else
      var (abs, segs) := Walk(cwd, args);
      var body := Join(Fold([], segs, !abs));
      if abs then "/" + body else if body == "" then "." else body
  }

  // The number of leading segments two stacks share.
  function Common(a: seq<string>, b: seq<string>): (c: nat)
    ensures c <= |a| && c <= |b|
    ensures a[..c] == b[..c]
    ensures c < |a| && c < |b| ==> a[c] != b[c]
  {
    if a == [] || b == [] || a[0] != b[0] then 0
    else
      var c := 1 + Common(a[1..], b[1..]);
      assert a[..c] == [a[0]] + a[1..][..c - 1] && b[..c] == [b[0]] + b[1..][..c - 1];
      c
  }

  // Where a resolved directory is, as a stack.
  function Location(cwd: string, path: string): seq<string>
  {
    Fold([], Walk(cwd, [path]).1, false)
  }

  // Up to the last shared directory, then down.
  function Relative(cwd: string, from: string, to: string): string
  {
    var a, b := Location(cwd, from), Location(cwd, to);
    var c := Common(a, b);
    Join(Ups(|a| - c) + b[c..])
  }

  // Absolute and already normalised, as getcwd returns it.
  ghost predicate NormalCwd(cwd: string)
  {
    IsAbsolute(cwd) && cwd == "/" + Join(Fold([], Split(cwd), false))
  }
}
