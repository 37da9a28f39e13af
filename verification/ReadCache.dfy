/**
  The per-volume read cache (`VolumeCache` in `fs.rs`): most recently used first, bounded by bytes.
  The functions say what each operation leaves; the class performs the operations in place.
*/
module ReadCache {
  import opened Orders
  import opened LittleEndian

  /** 8 MiB. */
  const LIMIT: nat := 8 * 1024 * 1024
  const USIZE_MAX: nat := 0xFFFF_FFFF_FFFF_FFFF

  /** A full read has the length `USIZE_MAX`, which no buffer of a range read can have. */
  datatype Key = Key(path: string, offset: nat, len: nat)

  datatype Entry = Entry(key: Key, data: seq<byte>)

  function FullRead(path: string): Key { Key(path, 0, USIZE_MAX) }

  // ---------------------------------------------------------------------------
  // What the cache holds
  // ---------------------------------------------------------------------------

  function Total(entries: seq<Entry>): nat {
    if |entries| == 0 then 0
    else Total(entries[..|entries| - 1]) + |entries[|entries| - 1].data|
  }

  ghost predicate DistinctKeys(entries: seq<Entry>) {
    forall i, j | 0 <= i < j < |entries| :: entries[i].key != entries[j].key
  }

  /** The position of the entry for `key`, or the number of entries. */
  function Position(entries: seq<Entry>, key: Key, from: nat := 0): (p: nat)
    requires from <= |entries|
    ensures from <= p <= |entries|
    ensures p < |entries| ==> entries[p].key == key
    ensures forall i | from <= i < p :: entries[i].key != key
    decreases |entries| - from
  {
    if from == |entries| || entries[from].key == key then from else Position(entries, key, from + 1)
  }

  predicate Holds(entries: seq<Entry>, key: Key) {
    Position(entries, key) < |entries|
  }

  function Lookup(entries: seq<Entry>, key: Key): Option<seq<byte>> {
    if Holds(entries, key) then Some(entries[Position(entries, key)].data) else None
  }

  /** A hit moves its entry to the front. */
  function Touched(entries: seq<Entry>, key: Key): seq<Entry> {
    var p := Position(entries, key);
    if p == |entries| then entries else [entries[p]] + (entries[..p] + entries[p + 1..])
  }

  /** The longest prefix whose data fits in `room` bytes. */
  function Kept(entries: seq<Entry>, room: nat): (r: seq<Entry>)
    ensures r <= entries && Total(r) <= room
    ensures forall n: nat | |r| < n <= |entries| :: Total(entries[..n]) > room
  {
    if Total(entries) <= room then assert entries[..|entries|] == entries; entries
    else
      assert entries[..|entries|] == entries;
      var init := entries[..|entries| - 1];
      assert forall n: nat | n <= |init| :: init[..n] == entries[..n];
      Kept(init, room)
  }

  /** A new entry goes first; what no longer fits beside it is evicted from the back. */
  function Inserted(entries: seq<Entry>, key: Key, data: seq<byte>): seq<Entry> {
    if |data| > LIMIT then entries else [Entry(key, data)] + Kept(entries, LIMIT - |data|)
  }

  function Without(entries: seq<Entry>, path: string): seq<Entry> {
    if |entries| == 0 then []
    else
      var last := entries[|entries| - 1];
      Without(entries[..|entries| - 1], path) + (if last.key.path == path then [] else [last])
  }

  lemma {:induction false} TotalConcat(a: seq<Entry>, b: seq<Entry>)
    ensures Total(a + b) == Total(a) + Total(b)
    decreases |b|
  {
    if |b| == 0 {
      assert a + b == a;
    } else {
      assert (a + b)[..|a + b| - 1] == a + b[..|b| - 1];
      TotalConcat(a, b[..|b| - 1]);
    }
  }

  /** The bound, and one entry per key. */
  ghost predicate Sound(entries: seq<Entry>) {
    Total(entries) <= LIMIT && DistinctKeys(entries)
  }

  lemma TouchedTotal(entries: seq<Entry>, key: Key)
    ensures Total(Touched(entries, key)) == Total(entries)
  {
    var p := Position(entries, key);
    if p < |entries| {
      var front, e, back := entries[..p], [entries[p]], entries[p + 1..];
      assert entries == front + e + back;
      TotalConcat(front + e, back);
      TotalConcat(front, e);
      TotalConcat(e, front + back);
      TotalConcat(front, back);
    }
  }

  /** Where the entry at `i` stood before the one at `p` moved to the front. */
  function Before(p: nat, i: nat): nat { if i == 0 then p else if i <= p then i - 1 else i }

  lemma TouchedAt(entries: seq<Entry>, key: Key, i: nat)
    requires Holds(entries, key) && i < |entries|
    ensures |Touched(entries, key)| == |entries|
    ensures Touched(entries, key)[i] == entries[Before(Position(entries, key), i)]
  {
  }

  ghost predicate Rearranged(entries: seq<Entry>, t: seq<Entry>, p: nat) {
    p < |entries| && |t| == |entries| && forall i: nat | i < |t| :: t[i] == entries[Before(p, i)]
  }

  lemma RearrangedDistinct(entries: seq<Entry>, t: seq<Entry>, p: nat)
    requires Rearranged(entries, t, p) && DistinctKeys(entries)
    ensures DistinctKeys(t) && forall e | e in t :: e in entries
  {
    forall i: nat, j: nat | i < j < |t|
      ensures t[i].key != t[j].key
    {
      assert Before(p, i) < Before(p, j) || Before(p, j) < Before(p, i);
    }
  }

  lemma TouchedRearranges(entries: seq<Entry>, key: Key)
    requires Holds(entries, key)
    ensures Rearranged(entries, Touched(entries, key), Position(entries, key))
  {
    forall i: nat | i < |entries|
      ensures |Touched(entries, key)| == |entries|
      ensures Touched(entries, key)[i] == entries[Before(Position(entries, key), i)]
    {
      TouchedAt(entries, key, i);
    }
  }

  lemma {:induction false} TouchedIsSound(entries: seq<Entry>, key: Key)
    requires Sound(entries)
    ensures Sound(Touched(entries, key))
    ensures forall e | e in Touched(entries, key) :: e in entries
  {
    TouchedTotal(entries, key);
    if Holds(entries, key) {
      TouchedRearranges(entries, key);
      RearrangedDistinct(entries, Touched(entries, key), Position(entries, key));
    }
  }

  lemma InsertedIsSound(entries: seq<Entry>, key: Key, data: seq<byte>)
    requires Sound(entries) && !Holds(entries, key)
    ensures Sound(Inserted(entries, key, data))
    ensures forall e | e in Inserted(entries, key, data) :: e in entries || e == Entry(key, data)
  {
    if |data| <= LIMIT {
      var kept := Kept(entries, LIMIT - |data|);
      TotalConcat([Entry(key, data)], kept);
      assert forall i | 0 <= i < |kept| :: kept[i] == entries[i];
    }
  }

  lemma DistinctSnoc(init: seq<Entry>, last: Entry)
    ensures DistinctKeys(init + [last]) <==> DistinctKeys(init) && forall e | e in init :: e.key != last.key
  {
    var all := init + [last];
    assert all[|init|] == last && forall i | 0 <= i < |init| :: all[i] == init[i];
  }

  lemma {:induction false} WithoutMembers(entries: seq<Entry>, path: string)
    ensures forall e :: e in Without(entries, path) <==> e in entries && e.key.path != path
  {
    if |entries| == 0 {
    } else {
      WithoutMembers(entries[..|entries| - 1], path);
      assert entries == entries[..|entries| - 1] + [entries[|entries| - 1]];
    }
  }

  lemma {:induction false} WithoutTotal(entries: seq<Entry>, path: string)
    ensures Total(Without(entries, path)) <= Total(entries)
  {
    if |entries| == 0 {
    } else {
      var init, last := entries[..|entries| - 1], entries[|entries| - 1];
      WithoutTotal(init, path);
      TotalConcat(Without(init, path), [last]);
      assert Total([last]) == Total([]) + |last.data|;
      assert Without(init, path) + [] == Without(init, path);
    }
  }

  lemma {:induction false} WithoutDistinct(entries: seq<Entry>, path: string)
    requires DistinctKeys(entries)
    ensures DistinctKeys(Without(entries, path))
  {
    if |entries| == 0 {
    } else {
      var init, last := entries[..|entries| - 1], entries[|entries| - 1];
      assert entries == init + [last];
      DistinctSnoc(init, last);
      WithoutDistinct(init, path);
      WithoutMembers(init, path);
      DistinctSnoc(Without(init, path), last);
      assert Without(init, path) + [] == Without(init, path);
    }
  }

  lemma WithoutIsSound(entries: seq<Entry>, path: string)
    requires Sound(entries)
    ensures Sound(Without(entries, path))
  {
    WithoutTotal(entries, path);
    WithoutDistinct(entries, path);
  }

  // ---------------------------------------------------------------------------
  // Recency
  // ---------------------------------------------------------------------------

  function KeysOf(entries: seq<Entry>): (r: seq<Key>)
    ensures |r| == |entries| && forall i | 0 <= i < |r| :: r[i] == entries[i].key
  {
    seq(|entries|, i requires 0 <= i < |entries| => entries[i].key)
  }

  /** The keys other than `key`, in their order. */
  function Others(keys: seq<Key>, key: Key): seq<Key> {
    if |keys| == 0 then []
    else
      var last := keys[|keys| - 1];
      Others(keys[..|keys| - 1], key) + (if last == key then [] else [last])
  }

  /** One read of a volume that does not change: a hit, or a miss and an insertion. */
  function AfterRead(entries: seq<Entry>, key: Key, data: seq<byte>): seq<Entry> {
    if Holds(entries, key) then Touched(entries, key) else Inserted(entries, key, data)
  }

  /** What is cached after these reads, one after the other. */
  function AfterReads(content: Key -> seq<byte>, run: seq<Key>): seq<Entry> {
    if |run| == 0 then []
    else
      var key := run[|run| - 1];
      AfterRead(AfterReads(content, run[..|run| - 1]), key, content(key))
  }

  /** The keys that were read and can be cached at all, the most recent first. */
  function Recent(content: Key -> seq<byte>, run: seq<Key>): seq<Key> {
    if |run| == 0 then []
    else
      var key, before := run[|run| - 1], Recent(content, run[..|run| - 1]);
      if |content(key)| > LIMIT then before else [key] + Others(before, key)
  }

  lemma {:induction false} OthersConcat(a: seq<Key>, b: seq<Key>, key: Key)
    ensures Others(a + b, key) == Others(a, key) + Others(b, key)
    decreases |b|
  {
    if |b| == 0 {
      assert a + b == a;
    } else {
      assert (a + b)[..|a + b| - 1] == a + b[..|b| - 1];
      OthersConcat(a, b[..|b| - 1], key);
    }
  }

  lemma {:induction false} OthersWithout(keys: seq<Key>, key: Key)
    ensures key !in keys ==> Others(keys, key) == keys
    ensures forall k :: k in Others(keys, key) <==> k in keys && k != key
  {
    if |keys| == 0 {
    } else {
      OthersWithout(keys[..|keys| - 1], key);
      assert keys == keys[..|keys| - 1] + [keys[|keys| - 1]];
    }
  }

  lemma OthersOfPrefix(a: seq<Key>, b: seq<Key>, key: Key)
    requires a <= b
    ensures Others(a, key) <= Others(b, key)
  {
    assert b == a + b[|a|..];
    OthersConcat(a, b[|a|..], key);
  }

  lemma {:induction false} OthersOfOne(key: Key)
    ensures Others([key], key) == []
  {
    assert [key][..0] == [];
  }

  lemma {:induction false} OthersAround(front: seq<Key>, key: Key, back: seq<Key>)
    requires key !in front && key !in back
    ensures Others(front + [key] + back, key) == front + back
  {
    OthersConcat(front + [key], back, key);
    OthersConcat(front, [key], key);
    OthersOfOne(key);
    OthersWithout(front, key);
    OthersWithout(back, key);
    assert front + [] == front;
  }

  lemma OnlyAt(entries: seq<Entry>, key: Key, keys: seq<Key>, p: nat)
    requires DistinctKeys(entries) && p < |entries| && entries[p].key == key && keys == KeysOf(entries)
    ensures key !in keys[..p] && key !in keys[p + 1..] && keys == keys[..p] + [key] + keys[p + 1..]
  {
    assert forall i | p < i < |entries| :: entries[p].key != entries[i].key;
    assert forall i | 0 <= i < p :: entries[i].key != entries[p].key;
  }

  lemma KeysOfTouched(entries: seq<Entry>, key: Key)
    requires Holds(entries, key)
    ensures var p, keys := Position(entries, key), KeysOf(entries);
      KeysOf(Touched(entries, key)) == [key] + (keys[..p] + keys[p + 1..])
  {
    var p, keys, touched := Position(entries, key), KeysOf(entries), KeysOf(Touched(entries, key));
    forall i: nat | i < |entries|
      ensures touched[i] == ([key] + (keys[..p] + keys[p + 1..]))[i]
    {
      TouchedAt(entries, key, i);
    }
  }

  /** The keys in front of a hit and behind it. */
  lemma KeysAround(entries: seq<Entry>, key: Key) returns (front: seq<Key>, back: seq<Key>)
    requires DistinctKeys(entries) && Holds(entries, key)
    ensures key !in front && key !in back && KeysOf(entries) == front + [key] + back
    ensures KeysOf(Touched(entries, key)) == [key] + (front + back)
  {
    var p, keys := Position(entries, key), KeysOf(entries);
    front, back := keys[..p], keys[p + 1..];
    OnlyAt(entries, key, keys, p);
    KeysOfTouched(entries, key);
  }

  /** A hit comes to the front of the others, which keep their order. */
  lemma {:induction false} HitComesFirst(entries: seq<Entry>, key: Key)
    requires DistinctKeys(entries) && Holds(entries, key)
    ensures KeysOf(Touched(entries, key)) == [key] + Others(KeysOf(entries), key)
  {
    var front, back := KeysAround(entries, key);
    OthersAround(front, key, back);
  }

  lemma InsertedComesFirst(entries: seq<Entry>, key: Key, data: seq<byte>)
    requires !Holds(entries, key) && |data| <= LIMIT
    ensures exists n: nat | n <= |entries| :: KeysOf(Inserted(entries, key, data)) == [key] + KeysOf(entries)[..n]
  {
    var n := |Kept(entries, LIMIT - |data|)|;
    assert KeysOf(Inserted(entries, key, data)) == [key] + KeysOf(entries)[..n];
  }

  lemma {:induction false} RecentCanBeCached(content: Key -> seq<byte>, run: seq<Key>)
    ensures forall k | k in Recent(content, run) :: |content(k)| <= LIMIT
  {
    if |run| == 0 {
    } else {
      var key, init := run[|run| - 1], run[..|run| - 1];
      RecentCanBeCached(content, init);
      OthersWithout(Recent(content, init), key);
    }
  }

  lemma {:induction false} ReadKeepsRecent(entries: seq<Entry>, recent: seq<Key>, key: Key, data: seq<byte>)
    requires Sound(entries) && KeysOf(entries) <= recent && |data| <= LIMIT
    ensures KeysOf(AfterRead(entries, key, data)) <= [key] + Others(recent, key)
  {
    var keys := KeysOf(entries);
    if Holds(entries, key) {
      HitComesFirst(entries, key);
      OthersOfPrefix(keys, recent, key);
    } else {
      InsertedComesFirst(entries, key, data);
      var n: nat :| n <= |entries| && KeysOf(Inserted(entries, key, data)) == [key] + keys[..n];
      assert key !in keys by {
        assert forall i | 0 <= i < |entries| :: entries[i].key != key;
      }
      OthersWithout(keys[..n], key);
      OthersOfPrefix(keys[..n], recent, key);
    }
  }

  /** What is evicted was used least recently: what is cached is always a beginning of the recent keys. */
  lemma {:induction false} CachedIsRecent(content: Key -> seq<byte>, run: seq<Key>)
    ensures Sound(AfterReads(content, run)) && KeysOf(AfterReads(content, run)) <= Recent(content, run)
  {
    if |run| == 0 {
    } else {
      var key, init := run[|run| - 1], run[..|run| - 1];
      var entries := AfterReads(content, init);
      CachedIsRecent(content, init);
      TouchedIsSound(entries, key);
      if !Holds(entries, key) { InsertedIsSound(entries, key, content(key)); }
      RecentCanBeCached(content, init);
      if Holds(entries, key) { assert KeysOf(entries)[Position(entries, key)] in Recent(content, init); }
      if |content(key)| <= LIMIT {
        ReadKeepsRecent(entries, Recent(content, init), key, content(key));
      }
    }
  }

  // ---------------------------------------------------------------------------
  // The cache in place
  // ---------------------------------------------------------------------------

  class VolumeCache {
    var entries: seq<Entry>
    var usedBytes: nat

    /** The byte count is exact, the bound holds, and keys are unique. */
    ghost predicate Valid()
      reads this
    {
      usedBytes == Total(entries) && Sound(entries)
    }

    constructor ()
      ensures Valid() && entries == []
    {
      entries, usedBytes := [], 0;
    }

    method Find(key: Key) returns (p: nat)
      ensures p == Position(entries, key)
    {
      p := 0;
      while p < |entries| && entries[p].key != key
        invariant p <= |entries| && Position(entries, key) == Position(entries, key, p)
      {
        p := p + 1;
      }
    }

    method Get(key: Key) returns (r: Option<seq<byte>>)
      requires Valid()
      modifies this
      ensures Valid()
      ensures r == Lookup(old(entries), key) && entries == Touched(old(entries), key)
    {
      TouchedIsSound(entries, key);
      TouchedTotal(entries, key);
      var p := Find(key);
      if p == |entries| {
        return None;
      }
      var entry, rest := entries[p], entries[..p] + entries[p + 1..];
      entries := [entry] + rest;
      return Some(entry.data);
    }

    /** Called after a miss. */
    method Insert(key: Key, data: seq<byte>)
      requires Valid() && !Holds(entries, key)
      modifies this
      ensures Valid() && entries == Inserted(old(entries), key, data)
    {
      InsertedIsSound(entries, key, data);
      if |data| > LIMIT {
        return;
      }
      while usedBytes + |data| > LIMIT
        invariant usedBytes == Total(entries)
        invariant Kept(old(entries), LIMIT - |data|) == Kept(entries, LIMIT - |data|)
        decreases |entries|
      {
        if |entries| == 0 {
          break;
        }
        var evicted := entries[|entries| - 1];
        entries := entries[..|entries| - 1];
        usedBytes := SaturatingSub(usedBytes, |evicted.data|);
      }
      TotalConcat([Entry(key, data)], entries);
      assert Total([Entry(key, data)]) == Total([]) + |data|;
      usedBytes := usedBytes + |data|;
      entries := [Entry(key, data)] + entries;
    }

    method InvalidatePath(path: string)
      requires Valid()
      modifies this
      ensures Valid() && entries == Without(old(entries), path)
    {
      WithoutIsSound(entries, path);
      var retained: seq<Entry> := [];
      var freed: nat := 0;
      var i: nat := 0;
      assert entries[..0] == [];
      while i < |entries|
        invariant i <= |entries| && entries == old(entries) && usedBytes == old(usedBytes)
        invariant retained == Without(entries[..i], path)
        invariant Total(retained) + freed == Total(entries[..i])
      {
        assert entries[..i + 1][..i] == entries[..i];
        if entries[i].key.path == path {
          freed := freed + |entries[i].data|;
        } else {
          TotalConcat(retained, [entries[i]]);
          assert Total([entries[i]]) == Total([]) + |entries[i].data|;
          retained := retained + [entries[i]];
        }
        i := i + 1;
      }
      assert entries[..|entries|] == entries;
      entries := retained;
      usedBytes := SaturatingSub(usedBytes, freed);
    }
  }

  /** An insertion that fits keeps exactly the longest most-recently-used prefix that fits with it. */
  lemma InsertKeepsLongestPrefix(entries: seq<Entry>, key: Key, data: seq<byte>, n: nat)
    requires |data| <= LIMIT && n <= |entries|
    ensures var kept := Inserted(entries, key, data)[1..];
      kept <= entries && (n <= |kept| <==> Total(entries[..n]) + |data| <= LIMIT)
  {
    var kept := Kept(entries, LIMIT - |data|);
    assert Inserted(entries, key, data)[1..] == kept;
    if n <= |kept| {
      assert kept == entries[..n] + kept[n..];
      TotalConcat(entries[..n], kept[n..]);
    }
  }
}
