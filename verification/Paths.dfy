/**
  Canonical absolute paths (`fs_types.rs`). Text is canonicalized by running its segments over a
  stack; a canonical path is the rendering of a stack of clean segments.
*/
module Paths {

  datatype PathError = Empty | NotAbsolute | AboveRoot

  datatype Result<+T> = Ok(value: T) | Err(error: PathError) {
    predicate IsFailure() { Err? }
    function PropagateFailure<U>(): Result<U> requires Err? { Err(error) }
    function Extract(): T requires Ok? { value }
  }

  // ---------------------------------------------------------------------------
  // Segments
  // ---------------------------------------------------------------------------

  /** A character in front of the first segment; a slash starts a segment of its own. */
  function Prepend(c: char, segments: seq<string>): (r: seq<string>)
    requires |segments| != 0
    ensures |r| != 0
  {
    if c == '/' then [""] + segments else [[c] + segments[0]] + segments[1..]
  }

  /** `str::split('/')`: always at least one segment. */
  function Split(s: string): (r: seq<string>)
    ensures |r| != 0
  {
    if |s| == 0 then [""] else Prepend(s[0], Split(s[1..]))
  }

  lemma PrependConcat(c: char, x: seq<string>, y: seq<string>)
    requires |x| != 0
    ensures Prepend(c, x + y) == Prepend(c, x) + y
  {
    assert (x + y)[0] == x[0] && (x + y)[1..] == x[1..] + y;
  }

  lemma {:induction false} SplitConcat(a: string, b: string)
    ensures Split(a + "/" + b) == Split(a) + Split(b)
  {
    if |a| == 0 {
      assert ("" + "/" + b)[1..] == b;
    } else {
      SplitConcat(a[1..], b);
      assert (a + "/" + b)[1..] == a[1..] + "/" + b;
      PrependConcat(a[0], Split(a[1..]), Split(b));
    }
  }

  lemma {:induction false} SplitWhole(s: string)
    requires '/' !in s
    ensures Split(s) == [s]
  {
    if |s| == 0 {
    } else {
      SplitWhole(s[1..]);
      assert [s[0]] + s[1..] == s;
    }
  }

  lemma {:induction false} SplitHasNoSlash(s: string)
    ensures forall i | 0 <= i < |Split(s)| :: '/' !in Split(s)[i]
  {
    if |s| == 0 {
    } else {
      SplitHasNoSlash(s[1..]);
    }
  }

  predicate IsClean(segment: string) {
    segment != "" && segment != "." && segment != ".." && '/' !in segment
  }

  predicate AllClean(stack: seq<string>) {
    forall i | 0 <= i < |stack| :: IsClean(stack[i])
  }

  /** One segment on the stack. */
  function Step(stack: seq<string>, segment: string): Result<seq<string>> {
    if segment == "" || segment == "." then Ok(stack)
    else if segment == ".." then
      if |stack| == 0 then Err(AboveRoot) else Ok(stack[..|stack| - 1])
    else Ok(stack + [segment])
  }

  function Resolve(stack: seq<string>, segments: seq<string>): Result<seq<string>>
    decreases |segments|
  {
    if |segments| == 0 then Ok(stack)
    else
      var next :- Step(stack, segments[0]);
      Resolve(next, segments[1..])
  }

  lemma {:induction false} ResolveConcat(stack: seq<string>, a: seq<string>, b: seq<string>)
    ensures Resolve(stack, a + b) ==
            (var r := Resolve(stack, a); if r.Err? then r else Resolve(r.value, b))
    decreases |a|
  {
    if |a| == 0 {
      assert a + b == b;
    } else {
      assert (a + b)[1..] == a[1..] + b;
      if Step(stack, a[0]).Ok? { ResolveConcat(Step(stack, a[0]).value, a[1..], b); }
    }
  }

  lemma {:induction false} ResolveClean(stack: seq<string>, segments: seq<string>)
    requires AllClean(stack)
    ensures Resolve(stack, segments) == Ok(stack + segments) || !AllClean(segments)
    ensures Resolve(stack, segments).Ok? && (forall i | 0 <= i < |segments| :: '/' !in segments[i]) ==>
      AllClean(Resolve(stack, segments).value)
    decreases |segments|
  {
    if |segments| == 0 {
      assert stack + segments == stack;
    } else if Step(stack, segments[0]).Ok? {
      var next := Step(stack, segments[0]).value;
      if '/' !in segments[0] {
        ResolveClean(next, segments[1..]);
      }
      if AllClean(segments) {
        assert stack + segments == (stack + [segments[0]]) + segments[1..];
      }
    }
  }

  // ---------------------------------------------------------------------------
  // Rendering
  // ---------------------------------------------------------------------------

  function Slashed(stack: seq<string>): string {
    if |stack| == 0 then "" else Slashed(stack[..|stack| - 1]) + "/" + stack[|stack| - 1]
  }

  function Render(stack: seq<string>): string {
    if |stack| == 0 then "/" else Slashed(stack)
  }

  lemma {:induction false} SplitSlashed(stack: seq<string>)
    requires AllClean(stack)
    ensures Split(Slashed(stack)) == [""] + stack
  {
    if |stack| == 0 {
    } else {
      var init, last := stack[..|stack| - 1], stack[|stack| - 1];
      SplitSlashed(init);
      SplitConcat(Slashed(init), last);
      SplitWhole(last);
      assert [""] + init + [last] == [""] + stack;
    }
  }

  /** What `PathBuf::from_str` computes. */
  function Canonical(s: string): Result<string> {
    if s == "" then Err(Empty)
    else if s[0] != '/' then Err(NotAbsolute)
    else
      var stack :- Resolve([], Split(s));
      Ok(Render(stack))
  }

  /** `PathBuf::from_str`: a stack of segments, then the rendering of the stack. */
  method FromStr(s: string) returns (r: Result<string>)
    ensures r == Canonical(s)
  {
    if s == "" { return Err(Empty); }
    if s[0] != '/' { return Err(NotAbsolute); }
    var segments := Split(s);
    var stack: seq<string> := [];
    var i: nat := 0;
    while i < |segments|
      invariant i <= |segments| && Resolve(stack, segments[i..]) == Resolve([], segments)
    {
      var segment := segments[i];
      assert segments[i..][0] == segment && segments[i..][1..] == segments[i + 1..];
      if segment == "" || segment == "." {
      } else if segment == ".." {
        if |stack| == 0 { return Err(AboveRoot); }
        stack := stack[..|stack| - 1];
      } else {
        stack := stack + [segment];
      }
      i := i + 1;
    }
    if |stack| == 0 { return Ok("/"); }
    var out := "";
    i := 0;
    while i < |stack|
      invariant i <= |stack| && out == Slashed(stack[..i])
    {
      assert stack[..i + 1][..i] == stack[..i];
      out := out + "/" + stack[i];
      i := i + 1;
    }
    assert stack[..|stack|] == stack;
    return Ok(out);
  }

  // ---------------------------------------------------------------------------
  // Canonical paths
  // ---------------------------------------------------------------------------

  /** A path that canonicalization may produce: no empty, dot or dot-dot segment. */
  ghost predicate IsCanonical(path: string) {
    exists stack :: AllClean(stack) && path == Render(stack)
  }

  lemma CanonicalIsClean(s: string)
    requires Canonical(s).Ok?
    ensures IsCanonical(Canonical(s).value)
  {
    SplitHasNoSlash(s);
    ResolveClean([], Split(s));
  }

  lemma {:induction false} SlashedEnds(stack: seq<string>)
    requires AllClean(stack) && |stack| != 0
    ensures var s := Slashed(stack); |s| != 0 && s[0] == '/' && s[|s| - 1] != '/'
  {
    if |stack| > 1 { SlashedEnds(stack[..|stack| - 1]); }
  }

  /** The segments of a path and then of a child run the child's segments on the path's stack. */
  lemma ResolveUnder(stack: seq<string>, child: string)
    requires AllClean(stack)
    ensures Resolve([], Split(Slashed(stack) + "/" + child)) == Resolve(stack, Split(child))
  {
    SplitSlashed(stack);
    SplitConcat(Slashed(stack), child);
    ResolveClean([], stack);
    ResolveConcat([], [""] + stack, Split(child));
    assert ([""] + stack)[1..] == stack && [] + stack == stack;
  }

  /** `Path::join`. */
  function Join(path: string, child: string): Result<string> {
    if child != "" && child[0] == '/' then Canonical(child)
    else if path != "" && path[|path| - 1] == '/' then Canonical(path + child)
    else Canonical(path + "/" + child)
  }

  function Rendered(r: Result<seq<string>>): Result<string> {
    if r.Err? then Err(r.error) else Ok(Render(r.value))
  }

  predicate IsRelative(s: string) { s == "" || s[0] != '/' }

  /** Joining a relative child runs its segments on from the stack of the path. */
  lemma JoinResolves(stack: seq<string>, child: string)
    requires AllClean(stack) && IsRelative(child)
    ensures Join(Render(stack), child) == Rendered(Resolve(stack, Split(child)))
  {
    ResolveUnder(stack, child);
    if |stack| == 0 {
      assert Slashed(stack) + "/" + child == "/" + child;
    } else {
      SlashedEnds(stack);
    }
  }

  /** Joining a clean name just adds it. */
  lemma JoinName(stack: seq<string>, name: string)
    requires AllClean(stack) && |stack| != 0 && IsClean(name)
    ensures Join(Render(stack), name) == Ok(Render(stack) + "/" + name)
  {
    JoinResolves(stack, name);
    SplitWhole(name);
    ResolveClean(stack, [name]);
    assert (stack + [name])[..|stack|] == stack;
  }

  /** Canonicalization leaves canonical paths alone. */
  lemma CanonicalIsFixed(path: string)
    requires IsCanonical(path)
    ensures Canonical(path) == Ok(path)
  {
    var stack :| AllClean(stack) && path == Render(stack);
    if |stack| == 0 {
      ResolveUnder([], "");
      assert Slashed([]) + "/" + "" == path;
    } else {
      SplitSlashed(stack);
      SlashedEnds(stack);
      ResolveClean([], stack);
      assert ([""] + stack)[1..] == stack && [] + stack == stack;
    }
  }

  /** Successive relative joins are one join of the concatenation. */
  lemma JoinJoin(path: string, a: string, b: string)
    requires IsCanonical(path) && IsRelative(a) && a != "" && IsRelative(b)
    ensures Join(path, a + "/" + b) == (var p := Join(path, a); if p.Err? then p else Join(p.value, b))
  {
    var stack :| AllClean(stack) && path == Render(stack);
    JoinResolves(stack, a);
    JoinResolves(stack, a + "/" + b);
    SplitConcat(a, b);
    ResolveConcat(stack, Split(a), Split(b));
    var r := Resolve(stack, Split(a));
    if r.Ok? {
      SplitHasNoSlash(a);
      ResolveClean(stack, Split(a));
      JoinResolves(r.value, b);
    }
  }

  /** With an empty first child the concatenation is absolute and the path is forgotten. */
  lemma JoinEmptyThenSlash(path: string, b: string)
    ensures Join(path, "" + "/" + b) == Canonical("/" + b)
  {
    assert "" + "/" + b == "/" + b;
  }

  // ---------------------------------------------------------------------------
  // Parent and file name
  // ---------------------------------------------------------------------------

  /** `rsplit_once('/')`: where the last slash of the first `n` characters is, or -1. */
  function LastSlashIn(s: string, n: nat): (i: int)
    requires n <= |s|
    ensures -1 <= i < n
    ensures i >= 0 ==> s[i] == '/'
    ensures forall k | i < k < n :: s[k] != '/'
  {
    if n == 0 then -1 else if s[n - 1] == '/' then n - 1 else LastSlashIn(s, n - 1)
  }

  function LastSlash(s: string): (i: int)
    ensures -1 <= i < |s|
  {
    LastSlashIn(s, |s|)
  }

  function FileName(path: string): string {
    if LastSlash(path) < 0 then "" else path[LastSlash(path) + 1..]
  }

  function Parent(path: string): string {
    if path == "/" || LastSlash(path) <= 0 then "/" else path[..LastSlash(path)]
  }

  lemma LastSlashOf(head: string, last: string)
    requires '/' !in last
    ensures LastSlash(head + "/" + last) == |head|
  {
    var s := head + "/" + last;
    assert s[|head|] == '/';
    assert forall k | |head| < k < |s| :: s[k] == last[k - |head| - 1];
  }

  lemma TakenApart(stack: seq<string>)
    requires AllClean(stack) && |stack| != 0
    ensures Parent(Render(stack)) == Render(stack[..|stack| - 1])
    ensures FileName(Render(stack)) == stack[|stack| - 1]
  {
    var init, last := stack[..|stack| - 1], stack[|stack| - 1];
    LastSlashOf(Slashed(init), last);
    if |init| != 0 { SlashedEnds(init); }
  }

  lemma RenderIsRootIff(stack: seq<string>)
    requires AllClean(stack)
    ensures Render(stack) == "/" <==> |stack| == 0
  {
    if |stack| != 0 { SlashedEnds(stack); }
  }

  lemma JoinLast(stack: seq<string>)
    requires AllClean(stack) && |stack| != 0
    ensures Join(Render(stack[..|stack| - 1]), stack[|stack| - 1]) == Ok(Render(stack))
  {
    var init, last := stack[..|stack| - 1], stack[|stack| - 1];
    JoinResolves(init, last);
    SplitWhole(last);
    ResolveClean(init, [last]);
    assert init + [last] == stack;
  }

  /** Parent and file name take a non-root path apart; joining them restores it. */
  lemma ParentJoinsFileName(path: string)
    requires IsCanonical(path) && path != "/"
    ensures IsCanonical(Parent(path)) && IsClean(FileName(path))
    ensures Join(Parent(path), FileName(path)) == Ok(path)
  {
    var stack :| AllClean(stack) && path == Render(stack);
    TakenApart(stack);
    JoinLast(stack);
  }

  /** Two dots lead to the parent, and from the root nowhere. */
  lemma {:induction false} DotsLeadUp(path: string)
    requires IsCanonical(path)
    ensures Join(path, "..") == if path == "/" then Err(AboveRoot) else Ok(Parent(path))
  {
    var stack :| AllClean(stack) && path == Render(stack);
    JoinResolves(stack, "..");
    SplitWhole("..");
    assert Resolve(stack, [".."]) == Step(stack, "..");
    if |stack| != 0 {
      TakenApart(stack);
      RenderIsRootIff(stack);
    }
  }

  /** Entering a directory and leaving it leads back. */
  lemma {:induction false} DownAndUp(path: string, name: string)
    requires IsCanonical(path) && IsClean(name)
    ensures Join(path, name + "/..") == Ok(path)
  {
    var stack :| AllClean(stack) && path == Render(stack);
    SplitConcat(name, "..");
    SplitWhole(name);
    SplitWhole("..");
    assert name + "/" + ".." == name + "/..";
    JoinResolves(stack, name + "/..");
    ResolveConcat(stack, [name], [".."]);
    assert Resolve(stack, [name]) == Ok(stack + [name]);
    assert (stack + [name])[..|stack|] == stack;
  }

  /** The name of an entry of a directory. */
  function Under(dir: string, name: string): string {
    if dir == "/" then "/" + name else dir + "/" + name
  }

  /** A clean name is added, and taken off again by parent and file name. */
  lemma {:induction false} UnderIsJoin(dir: string, name: string)
    requires IsCanonical(dir) && IsClean(name)
    ensures Join(dir, name) == Ok(Under(dir, name)) && IsCanonical(Under(dir, name))
    ensures Parent(Under(dir, name)) == dir && FileName(Under(dir, name)) == name
  {
    var stack :| AllClean(stack) && dir == Render(stack);
    RenderIsRootIff(stack);
    assert (stack + [name])[..|stack|] == stack;
    assert Render(stack + [name]) == Slashed(stack) + "/" + name;
    assert |stack| == 0 ==> Slashed(stack) + "/" + name == "/" + name;
    JoinLast(stack + [name]);
    TakenApart(stack + [name]);
  }

  lemma JoinIsCanonical(path: string, child: string)
    ensures Join(path, child).Ok? ==> IsCanonical(Join(path, child).value)
  {
    if child != "" && child[0] == '/' {
      if Canonical(child).Ok? { CanonicalIsClean(child); }
    } else {
      var combined := if path != "" && path[|path| - 1] == '/' then path + child else path + "/" + child;
      if Canonical(combined).Ok? { CanonicalIsClean(combined); }
    }
  }

  // ---------------------------------------------------------------------------
  // Above the root
  // ---------------------------------------------------------------------------

  /** Names entered minus levels left. */
  function Depth(segments: seq<string>): int {
    if |segments| == 0 then 0
    else
      var last := segments[|segments| - 1];
      Depth(segments[..|segments| - 1]) +
      (if last == "" || last == "." then 0 else if last == ".." then -1 else 1)
  }

  /** Somewhere along the segments more levels have been left than entered. */
  ghost predicate LeavesRoot(segments: seq<string>) {
    exists k: nat | k <= |segments| :: Depth(segments[..k]) < 0
  }

  lemma ResolveSnoc(init: seq<string>, last: string)
    ensures Resolve([], init + [last]) ==
            (var r := Resolve([], init); if r.Err? then r else Step(r.value, last))
  {
    ResolveConcat([], init, [last]);
    assert [last][1..] == [];
  }

  lemma {:induction false} LeavesRootSnoc(init: seq<string>, last: string)
    ensures LeavesRoot(init + [last]) <==> LeavesRoot(init) || Depth(init + [last]) < 0
  {
    var all := init + [last];
    assert all[..|all|] == all;
    forall k: nat | k <= |init|
      ensures all[..k] == init[..k]
    {
    }
  }

  lemma {:induction false} ResolveHeight(segments: seq<string>)
    ensures Resolve([], segments).Err? <==> LeavesRoot(segments)
    ensures Resolve([], segments).Err? ==> Resolve([], segments).error == AboveRoot
    ensures Resolve([], segments).Ok? ==> |Resolve([], segments).value| == Depth(segments)
    decreases |segments|
  {
    if |segments| == 0 {
      assert forall k: nat | k <= 0 :: segments[..k] == [];
    } else {
      var init, last := segments[..|segments| - 1], segments[|segments| - 1];
      assert init + [last] == segments;
      ResolveHeight(init);
      ResolveSnoc(init, last);
      LeavesRootSnoc(init, last);
    }
  }

  /** Each error of canonicalization happens exactly when it should. */
  lemma CanonicalErrors(s: string)
    ensures Canonical(s) == Err(Empty) <==> s == ""
    ensures Canonical(s) == Err(NotAbsolute) <==> s != "" && s[0] != '/'
    ensures Canonical(s) == Err(AboveRoot) <==> s != "" && s[0] == '/' && LeavesRoot(Split(s))
  {
    ResolveHeight(Split(s));
  }
}
