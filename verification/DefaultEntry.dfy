/**
  The choice of the default boot entry (`select_default_entry` in `policy.rs`). How text is turned to
  lower case is a parameter: everything here holds for every such function.
*/
module DefaultEntry {
  import opened Orders
  import opened VersionOrder

  type Lowering = string -> string

  predicate EndsIn(s: string, suffix: string) {
    |suffix| <= |s| && s[|s| - |suffix|..] == suffix
  }

  predicate OccursAt(s: string, part: string, i: nat) {
    i + |part| <= |s| && s[i..i + |part|] == part
  }

  predicate Contains(s: string, part: string) {
    exists i: nat | i <= |s| :: OccursAt(s, part, i)
  }

  /** `path_matches_pattern`: a star at either end, or none. Only "*" itself is "*" in lower case. */
  predicate Matches(lower: Lowering, path: string, pattern: string) {
    if pattern == "*" then true
    else
      var s, p := lower(path), lower(pattern);
      if '*' in p && |p| > 1 && p[0] == '*' && p[|p| - 1] == '*' then Contains(s, p[1..|p| - 1])
      else if '*' in p && p[0] == '*' then EndsIn(s, p[1..])
      else if '*' in p && p[|p| - 1] == '*' then p[..|p| - 1] <= s
      else s == p
  }

  /** Stars are no letters: they stay where they are, and none appears. */
  ghost predicate KeepsStars(lower: Lowering) {
    && lower("") == ""
    && forall t: string ::
         && lower("*" + t) == "*" + lower(t) && lower(t + "*") == lower(t) + "*"
         && ('*' in lower(t) ==> '*' in t)
  }

  lemma LowerKeepsStars()
    ensures KeepsStars(Lower)
  {
    forall t: string
      ensures Lower("*" + t) == "*" + Lower(t) && Lower(t + "*") == Lower(t) + "*"
      ensures '*' in Lower(t) ==> '*' in t
    {
      if '*' in Lower(t) {
        var i :| 0 <= i < |t| && Lower(t)[i] == '*';
        assert t[i] == '*';
      }
    }
  }

  /** A pattern without a star accepts one id, up to case. */
  lemma PlainPattern(lower: Lowering, path: string, t: string)
    requires KeepsStars(lower) && '*' !in t
    ensures Matches(lower, path, t) <==> lower(path) == lower(t)
  {
  }

  /** A star in front accepts the ids that end in the text. */
  lemma StarInFront(lower: Lowering, path: string, t: string)
    requires KeepsStars(lower) && '*' !in t
    ensures Matches(lower, path, "*" + t) <==> exists x :: lower(path) == x + lower(t)
  {
    var s, m := lower(path), lower(t);
    assert ("*" + m)[1..] == m;
    if |m| <= |s| {
      assert s == s[..|s| - |m|] + s[|s| - |m|..];
    }
    forall x: string | s == x + m
      ensures s[|s| - |m|..] == m
    {
    }
  }

  /** A star behind accepts the ids that begin with the text. */
  lemma StarBehind(lower: Lowering, path: string, t: string)
    requires KeepsStars(lower) && '*' !in t
    ensures Matches(lower, path, t + "*") <==> exists x :: lower(path) == lower(t) + x
  {
    var s, m := lower(path), lower(t);
    assert (m + "*")[..|m|] == m;
    if m <= s {
      assert s == m + s[|m|..];
    }
    if t == "" {
      assert s == m + s;
    }
  }

  /** Stars at both ends accept the ids that contain the text. */
  lemma StarsAround(lower: Lowering, path: string, t: string)
    requires KeepsStars(lower) && '*' !in t
    ensures Matches(lower, path, "*" + t + "*") <==> exists x, y :: lower(path) == x + lower(t) + y
  {
    var s, m := lower(path), lower(t);
    assert lower("*" + t + "*") == "*" + m + "*" && ("*" + m + "*")[1..|m| + 1] == m;
    if Contains(s, m) {
      var i: nat :| i <= |s| && OccursAt(s, m, i);
      assert s == s[..i] + m + s[i + |m|..];
    }
    forall x: string, y: string | s == x + m + y
      ensures Contains(s, m)
    {
      assert OccursAt(s, m, |x|);
    }
  }

  predicate InRange(ids: seq<string>, eligible: seq<nat>) {
    forall i | 0 <= i < |eligible| :: eligible[i] < |ids|
  }

  /** The `k`-th eligible entry has an id that the pattern accepts. */
  predicate IsMatch(lower: Lowering, ids: seq<string>, eligible: seq<nat>, pattern: string, k: nat)
    requires InRange(ids, eligible)
  {
    k < |eligible| && Matches(lower, ids[eligible[k]], pattern)
  }

  /** No match has a newer version than the `p`-th, and every earlier match has an older one. */
  ghost predicate IsFirstNewest(lower: Lowering, ids: seq<string>, eligible: seq<nat>, pattern: string, n: nat, p: nat)
    requires InRange(ids, eligible)
  {
    && p < n && IsMatch(lower, ids, eligible, pattern, p)
    && forall k: nat | k < n && IsMatch(lower, ids, eligible, pattern, k) ::
         var c := Compare(ids[eligible[k]], ids[eligible[p]]);
         c != Greater && (k < p ==> c == Less)
  }

  ghost predicate HasMatch(lower: Lowering, ids: seq<string>, eligible: seq<nat>, pattern: Option<string>)
    requires InRange(ids, eligible)
  {
    pattern.Some? && exists k: nat :: IsMatch(lower, ids, eligible, pattern.value, k)
  }

  /** A match that is newer than the best so far is newer than everything before it. */
  lemma NewerThanAll(lower: Lowering, ids: seq<string>, eligible: seq<nat>, pattern: string, i: nat, best: nat)
    requires InRange(ids, eligible)
    requires i < |eligible| && IsMatch(lower, ids, eligible, pattern, i)
    requires best != i ==>
      && IsFirstNewest(lower, ids, eligible, pattern, i, best)
      && Compare(ids[eligible[best]], ids[eligible[i]]) == Less
    requires best == i ==> forall k: nat | k < i :: !IsMatch(lower, ids, eligible, pattern, k)
    ensures IsFirstNewest(lower, ids, eligible, pattern, i + 1, i)
  {
    CompareIsKeyOrder(ids[eligible[i]], ids[eligible[i]]);
    forall k: nat | k < i && IsMatch(lower, ids, eligible, pattern, k)
      ensures Compare(ids[eligible[k]], ids[eligible[i]]) == Less
    {
      Transitive(ids[eligible[k]], ids[eligible[best]], ids[eligible[i]]);
    }
  }

  /** The scan of the eligible entries for the newest match. */
  method NewestMatch(lower: Lowering, ids: seq<string>, eligible: seq<nat>, pattern: string) returns (best: Option<nat>)
    requires InRange(ids, eligible)
    ensures best.None? ==> forall k: nat :: !IsMatch(lower, ids, eligible, pattern, k)
    ensures best.Some? ==> IsFirstNewest(lower, ids, eligible, pattern, |eligible|, best.value)
  {
    best := None;
    for i := 0 to |eligible|
      invariant best.None? ==> forall k: nat | k < i :: !IsMatch(lower, ids, eligible, pattern, k)
      invariant best.Some? ==> IsFirstNewest(lower, ids, eligible, pattern, i, best.value)
    {
      if Matches(lower, ids[eligible[i]], pattern) {
        if best.None? {
          best := Some(i);
          NewerThanAll(lower, ids, eligible, pattern, i, i);
        } else {
          var c := VersionCompare(ids[eligible[i]], ids[eligible[best.value]]);
          Swap(ids[eligible[i]], ids[eligible[best.value]]);
          if c == Greater {
            NewerThanAll(lower, ids, eligible, pattern, i, best.value);
            best := Some(i);
          }
        }
      }
    }
  }

  /**
    `select_default_entry`: the first newest match of the pattern when anything matches, otherwise
    the first entry with the configured id, otherwise none.
  */
  method SelectDefault(
    lower: Lowering, ids: seq<string>, eligible: seq<nat>, pattern: Option<string>, defaultId: Option<string>)
    returns (r: Option<nat>)
    requires InRange(ids, eligible)
    ensures HasMatch(lower, ids, eligible, pattern) ==>
      exists p: nat :: IsFirstNewest(lower, ids, eligible, pattern.value, |eligible|, p) && r == Some(eligible[p])
    ensures !HasMatch(lower, ids, eligible, pattern) && r.Some? ==>
      exists p: nat | p < |eligible| ::
        && r == Some(eligible[p]) && Some(ids[r.value]) == defaultId
        && forall k | 0 <= k < p :: Some(ids[eligible[k]]) != defaultId
    ensures !HasMatch(lower, ids, eligible, pattern) && r.None? ==>
      forall k | 0 <= k < |eligible| :: Some(ids[eligible[k]]) != defaultId
  {
    if pattern.Some? {
      var best := NewestMatch(lower, ids, eligible, pattern.value);
      if best.Some? {
        assert IsMatch(lower, ids, eligible, pattern.value, best.value);
        return Some(eligible[best.value]);
      }
    }
    if defaultId.Some? {
      for i := 0 to |eligible|
        invariant forall k | 0 <= k < i :: ids[eligible[k]] != defaultId.value
      {
        if ids[eligible[i]] == defaultId.value {
          return Some(eligible[i]);
        }
      }
    }
    return None;
  }

  /** Two positions that are both first newest are the same position. */
  lemma FirstNewestIsUnique(
    lower: Lowering, ids: seq<string>, eligible: seq<nat>, pattern: string, n: nat, p: nat, q: nat)
    requires InRange(ids, eligible)
    requires IsFirstNewest(lower, ids, eligible, pattern, n, p) && IsFirstNewest(lower, ids, eligible, pattern, n, q)
    ensures p == q
  {
    Swap(ids[eligible[p]], ids[eligible[q]]);
  }
}
