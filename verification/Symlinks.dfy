/**
  Following leaf symbolic links (`resolve_following` in `fs_backend_btrfs.rs`) over any filesystem,
  given as a map from canonical paths to nodes. Links may form cycles.
*/
module Symlinks {
  import opened Orders
  import opened Paths

  const MAX_DEPTH: nat := 40

  /** A link target that is not UTF-8 is `None`. */
  datatype Node = Inode(id: nat) | Link(target: Option<string>)

  datatype Outcome = Found(id: nat) | NotFound | BadTarget | BadPath(error: PathError) | TooDeep

  type Filesystem = map<string, Node>

  /** Where a link at `path` points: absolute targets replace it, others start in its directory. */
  function Target(path: string, target: string): Paths.Result<string> {
    if target != "" && target[0] == '/' then Canonical(target) else Join(Parent(path), target)
  }

  /** What the loop finds from `path` with `rounds` rounds left. */
  function Follow(fs: Filesystem, path: string, rounds: nat): Outcome
    decreases rounds
  {
    if rounds == 0 then TooDeep
    else if path !in fs then NotFound
    else match fs[path]
      case Inode(id) => Found(id)
      case Link(None) => BadTarget
      case Link(Some(t)) =>
        var next := Target(path, t);
        if next.Err? then BadPath(next.error) else Follow(fs, next.value, rounds - 1)
  }

  /** `resolve_following`: at most `MAX_DEPTH` hops. */
  method ResolveFollowing(fs: Filesystem, path: string) returns (r: Outcome)
    ensures r == if Canonical(path).Err? then BadPath(Canonical(path).error)
                 else Follow(fs, Canonical(path).value, MAX_DEPTH + 1)
  {
    var start := FromStr(path);
    if start.Err? { return BadPath(start.error); }
    var current := start.value;
    var round: nat := 0;
    while round <= MAX_DEPTH
      invariant round <= MAX_DEPTH + 1
      invariant Follow(fs, current, MAX_DEPTH + 1 - round) == Follow(fs, start.value, MAX_DEPTH + 1)
    {
      if current !in fs { return NotFound; }
      match fs[current] {
        case Inode(id) =>
          return Found(id);
        case Link(target) =>
          if target.None? { return BadTarget; }
          var next;
          if target.value != "" && target.value[0] == '/' {
            next := FromStr(target.value);
          } else {
            next := Join(Parent(current), target.value);
          }
          if next.Err? { return BadPath(next.error); }
          current := next.value;
      }
      round := round + 1;
    }
    return TooDeep;
  }

  // ---------------------------------------------------------------------------
  // Chains
  // ---------------------------------------------------------------------------

  predicate Hop(fs: Filesystem, a: string, b: string) {
    a in fs && fs[a].Link? && fs[a].target.Some? && Target(a, fs[a].target.value) == Paths.Ok(b)
  }

  /** A link with a name for its target leads to that name in its own directory. */
  lemma NameStaysInDirectory(fs: Filesystem, dir: string, name: string, target: string)
    requires IsCanonical(dir) && IsClean(name) && IsClean(target)
    requires Under(dir, name) in fs && fs[Under(dir, name)] == Link(Some(target))
    ensures Hop(fs, Under(dir, name), Under(dir, target))
  {
    UnderIsJoin(dir, name);
    UnderIsJoin(dir, target);
  }

  /** One that starts with two dots leads to the directory above, or nowhere from the root. */
  lemma DotsLeaveDirectory(fs: Filesystem, dir: string, name: string, target: string)
    requires IsCanonical(dir) && IsClean(name) && IsClean(target)
    requires Under(dir, name) in fs && fs[Under(dir, name)] == Link(Some("../" + target))
    ensures dir != "/" ==> Hop(fs, Under(dir, name), Under(Parent(dir), target))
    ensures dir == "/" ==> forall b :: !Hop(fs, Under(dir, name), b)
  {
    UnderIsJoin(dir, name);
    JoinJoin(dir, "..", target);
    DotsLeadUp(dir);
    assert ".." + "/" + target == "../" + target;
    if dir != "/" {
      ParentJoinsFileName(dir);
      UnderIsJoin(Parent(dir), target);
    }
  }

  /** A canonical target leads there from anywhere. */
  lemma AbsoluteTargetReplaces(fs: Filesystem, path: string, target: string)
    requires IsCanonical(target) && path in fs && fs[path] == Link(Some(target))
    ensures Hop(fs, path, target)
  {
    CanonicalIsFixed(target);
    var stack :| AllClean(stack) && target == Render(stack);
    if |stack| != 0 { SlashedEnds(stack); }
  }

  /** A path per link, each where the one before it points. */
  predicate IsChain(fs: Filesystem, chain: seq<string>) {
    |chain| != 0 && forall i | 0 < i < |chain| :: Hop(fs, chain[i - 1], chain[i])
  }

  /** `chain` leads from `path` to the inode `id`. */
  predicate Reaches(fs: Filesystem, chain: seq<string>, path: string, id: nat) {
    && IsChain(fs, chain) && chain[0] == path
    && chain[|chain| - 1] in fs && fs[chain[|chain| - 1]] == Inode(id)
  }

  /** Walking along a chain spends one round per hop, and stops inside it when they run out. */
  lemma {:induction false} FollowChain(fs: Filesystem, chain: seq<string>, rounds: nat)
    requires IsChain(fs, chain)
    ensures Follow(fs, chain[0], rounds) ==
            if rounds < |chain| then TooDeep
            else Follow(fs, chain[|chain| - 1], rounds - (|chain| - 1))
    decreases |chain|
  {
    if |chain| > 1 && rounds > 0 {
      assert Hop(fs, chain[0], chain[1]);
      var rest := chain[1..];
      forall i | 0 < i < |rest|
        ensures Hop(fs, rest[i - 1], rest[i])
      {
        assert Hop(fs, chain[i], chain[i + 1]);
      }
      FollowChain(fs, rest, rounds - 1);
    }
  }

  /** The chain the loop walked, when it found something. */
  lemma {:induction false} FoundHasChain(fs: Filesystem, path: string, rounds: nat) returns (chain: seq<string>)
    requires Follow(fs, path, rounds).Found?
    ensures |chain| <= rounds && Reaches(fs, chain, path, Follow(fs, path, rounds).id)
    decreases rounds
  {
    if fs[path].Inode? {
      chain := [path];
    } else {
      var next := Target(path, fs[path].target.value).value;
      var rest := FoundHasChain(fs, next, rounds - 1);
      chain := [path] + rest;
      forall i | 0 < i < |chain|
        ensures Hop(fs, chain[i - 1], chain[i])
      {
        assert i > 1 ==> Hop(fs, rest[i - 2], rest[i - 1]);
      }
    }
  }

  /** A node is found exactly when a chain of at most `rounds` paths ends in it. */
  lemma FoundIff(fs: Filesystem, path: string, rounds: nat, id: nat)
    ensures Follow(fs, path, rounds) == Found(id) <==>
            exists chain :: |chain| <= rounds && Reaches(fs, chain, path, id)
  {
    if Follow(fs, path, rounds) == Found(id) {
      var chain := FoundHasChain(fs, path, rounds);
    }
    forall chain | |chain| <= rounds && Reaches(fs, chain, path, id)
      ensures Follow(fs, path, rounds) == Found(id)
    {
      FollowChain(fs, chain, rounds);
    }
  }

  /** Following a cycle of links ends in the depth error, whatever the depth. */
  lemma {:induction false} CycleIsTooDeep(fs: Filesystem, chain: seq<string>, rounds: nat)
    requires IsChain(fs, chain) && |chain| > 1 && chain[0] == chain[|chain| - 1]
    ensures Follow(fs, chain[0], rounds) == TooDeep
    decreases rounds
  {
    FollowChain(fs, chain, rounds);
    if rounds >= |chain| {
      CycleIsTooDeep(fs, chain, rounds - (|chain| - 1));
    }
  }

  /** Every path on the way is canonical. */
  lemma {:induction false} ChainIsCanonical(fs: Filesystem, chain: seq<string>, i: nat)
    requires IsChain(fs, chain) && IsCanonical(chain[0]) && i < |chain|
    ensures IsCanonical(chain[i])
    decreases i
  {
    if i == 0 {
    } else {
      ChainIsCanonical(fs, chain, i - 1);
      var a := chain[i - 1];
      assert Hop(fs, a, chain[i]);
      var t := fs[a].target.value;
      if t != "" && t[0] == '/' {
        CanonicalIsClean(t);
      } else {
        JoinIsCanonical(Parent(a), t);
      }
    }
  }

  /**
    From any accepted path the lookup finds exactly the nodes at the end of chains of at most
    `MAX_DEPTH` links, and every path on such a chain is canonical.
  */
  lemma ResolutionIsChainEnd(fs: Filesystem, path: string, id: nat)
    requires Canonical(path).Ok?
    ensures Follow(fs, Canonical(path).value, MAX_DEPTH + 1) == Found(id) <==>
      exists chain :: |chain| <= MAX_DEPTH + 1 && Reaches(fs, chain, Canonical(path).value, id)
    ensures forall chain, i: nat | IsChain(fs, chain) && chain[0] == Canonical(path).value && i < |chain| ::
      IsCanonical(chain[i])
  {
    FoundIff(fs, Canonical(path).value, MAX_DEPTH + 1, id);
    CanonicalIsClean(path);
    forall chain, i: nat | IsChain(fs, chain) && chain[0] == Canonical(path).value && i < |chain|
      ensures IsCanonical(chain[i])
    {
      ChainIsCanonical(fs, chain, i);
    }
  }
}
