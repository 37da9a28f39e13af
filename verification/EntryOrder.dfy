/**
  The order of boot entries (`bls_sort_compare` in `bls_parse.rs`).

  The comparison first groups entries by a chain of keys and then falls back to the id, by version
  order when both entries carry a version and by byte order otherwise. The grouping is always a
  total preorder. The fallback is not: `TransitiveIff` says exactly on which lists it is.
*/
module EntryOrder {
  import opened Orders
  import opened VersionOrder

  /** The fields of a parsed entry that decide its place in the menu. */
  datatype Entry = Entry(
    id: string,
    version: Option<string>,
    machineId: Option<string>,
    sortKey: Option<string>,
    triesLeft: Option<nat>
  ) {
    predicate IsBad() { triesLeft == Some(0) }
  }

  function TextOr(o: Option<string>): string {
    if o.Some? then o.value else ""
  }

  /** `cmp_opt_str`: a missing value sorts after a present one. */
  function CompareOptional(a: Option<string>, b: Option<string>): Ordering {
    match (a, b)
    case (None, None) => Equal
    case (None, Some(_)) => Greater
    case (Some(_), None) => Less
    case (Some(s), Some(t)) => CompareText(s, t)
  }

  function VersionDescending(a: Option<string>, b: Option<string>): Ordering {
    Compare(TextOr(a), TextOr(b)).Reverse()
  }

  /** The filename fallback. */
  function ById(a: Entry, b: Entry): Ordering {
    if a.version.Some? && b.version.Some? then Compare(a.id, b.id).Reverse()
    else CompareText(a.id, b.id)
  }

  /** `bls_sort_compare`, branch by branch. */
  function SortCompare(a: Entry, b: Entry, ignoreSortKey: bool): Ordering {
    if a.IsBad() != b.IsBad() then
      if a.IsBad() then Greater else Less
    else if ignoreSortKey then
      var byMachine := CompareOptional(a.machineId, b.machineId);
      if byMachine != Equal then byMachine
      else
        var byVersion := VersionDescending(a.version, b.version);
        if a.version.Some? && b.version.Some? && byVersion != Equal then byVersion
        else ById(a, b)
    else if a.sortKey.Some? != b.sortKey.Some? then
      if a.sortKey.Some? then Less else Greater
    else if a.sortKey.Some? && b.sortKey.Some? then
      var bySortKey := CompareOptional(a.sortKey, b.sortKey);
      var byMachine := CompareOptional(a.machineId, b.machineId);
      var byVersion := VersionDescending(a.version, b.version);
      if bySortKey != Equal then bySortKey
      else if byMachine != Equal then byMachine
      else if byVersion != Equal then byVersion
      else ById(a, b)
    else ById(a, b)
  }

  // ---------------------------------------------------------------------------
  // Grouping keys, then the fallback
  // ---------------------------------------------------------------------------

  function Flag(b: bool): int { if b then 1 else 0 }

  /** The grouping after the sort key, for entries that have one. */
  function Tail(a: Entry, b: Entry): Ordering {
    CompareOptional(a.machineId, b.machineId).Then(VersionDescending(a.version, b.version))
  }

  /** Everything the comparison looks at before the fallback. */
  function Group(a: Entry, b: Entry, ignoreSortKey: bool): Ordering {
    CompareInt(Flag(a.IsBad()), Flag(b.IsBad())).Then(
      if ignoreSortKey then CompareOptional(a.machineId, b.machineId)
      else CompareOptional(a.sortKey, b.sortKey).Then(
             if a.sortKey.None? || b.sortKey.None? then Equal
             else Tail(a, b)))
  }

  /** What decides inside a group. */
  function InGroup(a: Entry, b: Entry, ignoreSortKey: bool): Ordering {
    if a.version.Some? && b.version.Some? then
      (if ignoreSortKey then VersionDescending(a.version, b.version) else Equal)
        .Then(Compare(a.id, b.id).Reverse())
    else CompareText(a.id, b.id)
  }

  lemma GroupsFirst(a: Entry, b: Entry, ignoreSortKey: bool)
    ensures SortCompare(a, b, ignoreSortKey) == Group(a, b, ignoreSortKey).Then(InGroup(a, b, ignoreSortKey))
  {
    TextIsOrder();
  }

  // ---------------------------------------------------------------------------
  // What comes first
  // ---------------------------------------------------------------------------

  /** Entries with no tries left come last. */
  lemma NoTriesLast(a: Entry, b: Entry, ignoreSortKey: bool)
    requires a.triesLeft != Some(0) && b.triesLeft == Some(0)
    ensures SortCompare(a, b, ignoreSortKey) == Less
  {
  }

  /** Entries with a sort key come first, by the bytes of their keys. */
  lemma SortKeysAscend(a: Entry, b: Entry)
    requires a.IsBad() == b.IsBad() && a.sortKey.Some? && a.sortKey != b.sortKey
    ensures SortCompare(a, b, false) == if b.sortKey.None? then Less else CompareText(a.sortKey.value, b.sortKey.value)
  {
    TextIsOrder();
  }

  /** Equally good entries that nothing before the machine decides. */
  predicate SameKey(a: Entry, b: Entry, ignoreSortKey: bool) {
    a.IsBad() == b.IsBad() && (ignoreSortKey || (a.sortKey.Some? && a.sortKey == b.sortKey))
  }

  /** Entries with a machine id come first, by the bytes of their ids. */
  lemma MachinesAscend(a: Entry, b: Entry, ignoreSortKey: bool)
    requires SameKey(a, b, ignoreSortKey) && a.machineId.Some? && a.machineId != b.machineId
    ensures SortCompare(a, b, ignoreSortKey) ==
      if b.machineId.None? then Less else CompareText(a.machineId.value, b.machineId.value)
  {
    TextIsOrder();
  }

  /** Versions of one system: they differ in nothing that counts before the version. */
  predicate SameSystem(a: Entry, b: Entry, ignoreSortKey: bool) {
    SameKey(a, b, ignoreSortKey) && a.machineId == b.machineId && a.version.Some? && b.version.Some?
  }

  /** The newer version comes first; between equal ones, the name that is newer as a version. */
  lemma NewerFirst(a: Entry, b: Entry, ignoreSortKey: bool)
    requires SameSystem(a, b, ignoreSortKey)
    ensures Compare(a.version.value, b.version.value) == Greater ==> SortCompare(a, b, ignoreSortKey) == Less
    ensures Compare(a.version.value, b.version.value) == Equal && Compare(a.id, b.id) == Greater ==>
      SortCompare(a, b, ignoreSortKey) == Less
  {
    TextIsOrder();
  }

  /** Without sort keys only the names count: newest first among versions, by bytes otherwise. */
  lemma NamesDecide(a: Entry, b: Entry)
    requires a.IsBad() == b.IsBad() && a.sortKey.None? && b.sortKey.None?
    ensures a.version.Some? && b.version.Some? && Compare(a.id, b.id) == Greater ==> SortCompare(a, b, false) == Less
    ensures a.version.None? || b.version.None? ==> SortCompare(a, b, false) == CompareText(a.id, b.id)
  {
  }

  /** Entries of one system without versions come by the bytes of their names. */
  lemma UnversionedByName(a: Entry, b: Entry, ignoreSortKey: bool)
    requires SameKey(a, b, ignoreSortKey) && a.machineId == b.machineId && a.version.None? && b.version.None?
    ensures SortCompare(a, b, ignoreSortKey) == CompareText(a.id, b.id)
  {
    TextIsOrder();
    CompareIsKeyOrder("", "");
  }

  /** The comparison x to z that x to y and y to z force, if neither is `Greater`. */
  ghost predicate Chain(xy: Ordering, yz: Ordering, xz: Ordering) {
    xy != Greater && yz != Greater ==> xz == xy.Then(yz)
  }

  lemma OptionalChains(a: Option<string>, b: Option<string>, c: Option<string>)
    ensures CompareOptional(b, a) == CompareOptional(a, b).Reverse()
    ensures Chain(CompareOptional(a, b), CompareOptional(b, c), CompareOptional(a, c))
  {
    TextIsOrder();
  }

  lemma VersionsChain(a: string, b: string, c: string)
    ensures Compare(b, a) == Compare(a, b).Reverse()
    ensures Chain(Compare(a, b).Reverse(), Compare(b, c).Reverse(), Compare(a, c).Reverse())
  {
    Swap(a, b);
    Swap(b, c);
    Swap(a, c);
    if Compare(a, b) != Less && Compare(b, c) != Less {
      Transitive(c, b, a);
      if Compare(a, b) == Equal { EqualIsCongruent(a, b, c); }
    }
  }

  lemma GroupSwap(a: Entry, b: Entry, ignoreSortKey: bool)
    ensures Group(b, a, ignoreSortKey) == Group(a, b, ignoreSortKey).Reverse()
  {
    OptionalChains(a.machineId, b.machineId, a.machineId);
    OptionalChains(a.sortKey, b.sortKey, a.sortKey);
    Swap(TextOr(a.version), TextOr(b.version));
  }

  lemma TailChains(a: Entry, b: Entry, c: Entry)
    ensures Chain(Tail(a, b), Tail(b, c), Tail(a, c))
  {
    OptionalChains(a.machineId, b.machineId, c.machineId);
    VersionsChain(TextOr(a.version), TextOr(b.version), TextOr(c.version));
  }

  lemma GroupChains(a: Entry, b: Entry, c: Entry, ignoreSortKey: bool)
    ensures Chain(Group(a, b, ignoreSortKey), Group(b, c, ignoreSortKey), Group(a, c, ignoreSortKey))
  {
    OptionalChains(a.machineId, b.machineId, c.machineId);
    OptionalChains(a.sortKey, b.sortKey, c.sortKey);
    TailChains(a, b, c);
  }

  ghost predicate SameGroup(a: Entry, b: Entry, ignoreSortKey: bool) {
    Group(a, b, ignoreSortKey) == Equal
  }

  /** Any two members of the same group are in it together, both ways round. */
  lemma SameGroups(a: Entry, b: Entry, c: Entry, ignoreSortKey: bool)
    requires SameGroup(a, b, ignoreSortKey) && SameGroup(b, c, ignoreSortKey)
    ensures SameGroup(a, c, ignoreSortKey) && SameGroup(c, a, ignoreSortKey)
    ensures SameGroup(b, a, ignoreSortKey) && SameGroup(c, b, ignoreSortKey)
  {
    GroupChains(a, b, c, ignoreSortKey);
    GroupSwap(a, b, ignoreSortKey);
    GroupSwap(b, c, ignoreSortKey);
    GroupSwap(a, c, ignoreSortKey);
  }

  lemma InGroupSwap(a: Entry, b: Entry, ignoreSortKey: bool)
    ensures InGroup(b, a, ignoreSortKey) == InGroup(a, b, ignoreSortKey).Reverse()
  {
    TextIsOrder();
    Swap(a.id, b.id);
    Swap(TextOr(a.version), TextOr(b.version));
  }

  /** Swapping two entries reverses their comparison, in both modes. */
  lemma SortSwap(a: Entry, b: Entry, ignoreSortKey: bool)
    ensures SortCompare(b, a, ignoreSortKey) == SortCompare(a, b, ignoreSortKey).Reverse()
  {
    GroupsFirst(a, b, ignoreSortKey);
    GroupsFirst(b, a, ignoreSortKey);
    GroupSwap(a, b, ignoreSortKey);
    InGroupSwap(a, b, ignoreSortKey);
  }

  // ---------------------------------------------------------------------------
  // When the comparison is an order
  // ---------------------------------------------------------------------------

  ghost predicate NotAfter(a: Entry, b: Entry, ignoreSortKey: bool) {
    SortCompare(a, b, ignoreSortKey) != Greater
  }

  ghost predicate TransitiveAt(a: Entry, b: Entry, c: Entry, ignoreSortKey: bool) {
    NotAfter(a, b, ignoreSortKey) && NotAfter(b, c, ignoreSortKey) ==> NotAfter(a, c, ignoreSortKey)
  }

  ghost predicate TransitiveOn(entries: seq<Entry>, ignoreSortKey: bool) {
    forall a, b, c | a in entries && b in entries && c in entries :: TransitiveAt(a, b, c, ignoreSortKey)
  }

  /** An unversioned entry stands, by bytes of the id, between two versioned ones of its group. */
  ghost predicate Between(v: Entry, u: Entry, w: Entry, ignoreSortKey: bool) {
    && v.version.Some? && u.version.None? && w.version.Some?
    && SameGroup(v, u, ignoreSortKey) && SameGroup(u, w, ignoreSortKey)
    && CompareText(v.id, u.id) != Greater && CompareText(u.id, w.id) != Greater
  }

  /** Versioned entries with an unversioned one between them sort as the bytes of their ids do. */
  ghost predicate Aligned(entries: seq<Entry>, ignoreSortKey: bool) {
    forall v, u, w | v in entries && u in entries && w in entries && Between(v, u, w, ignoreSortKey) ::
      InGroup(v, w, ignoreSortKey) == CompareText(v.id, w.id)
  }

  lemma InGroupChains(a: Entry, b: Entry, c: Entry, ignoreSortKey: bool)
    requires a.version.Some? && b.version.Some? && c.version.Some?
    ensures Chain(InGroup(a, b, ignoreSortKey), InGroup(b, c, ignoreSortKey), InGroup(a, c, ignoreSortKey))
  {
    VersionsChain(a.id, b.id, c.id);
    VersionsChain(TextOr(a.version), TextOr(b.version), TextOr(c.version));
  }

  /** Inside one group of an aligned list the fallback is transitive. */
  lemma AlignedInGroup(entries: seq<Entry>, a: Entry, b: Entry, c: Entry, ignoreSortKey: bool)
    requires Aligned(entries, ignoreSortKey) && a in entries && b in entries && c in entries
    requires SameGroup(a, b, ignoreSortKey) && SameGroup(b, c, ignoreSortKey)
    requires InGroup(a, b, ignoreSortKey) != Greater && InGroup(b, c, ignoreSortKey) != Greater
    ensures InGroup(a, c, ignoreSortKey) != Greater
  {
    TextIsOrder();
    SameGroups(a, b, c, ignoreSortKey);
    InGroupSwap(a, b, ignoreSortKey);
    InGroupSwap(b, c, ignoreSortKey);
    if a.version.Some? && b.version.Some? && c.version.Some? {
      InGroupChains(a, b, c, ignoreSortKey);
    } else if a.version.Some? && c.version.Some? {
      assert Between(a, b, c, ignoreSortKey);
    } else if b.version.Some? && c.version.Some? && CompareText(c.id, a.id) == Less {
      assert Between(c, a, b, ignoreSortKey);
    } else if a.version.Some? && b.version.Some? && CompareText(c.id, a.id) == Less {
      assert Between(b, c, a, ignoreSortKey);
    }
  }

  lemma AlignedIsTransitive(entries: seq<Entry>, ignoreSortKey: bool)
    requires Aligned(entries, ignoreSortKey)
    ensures TransitiveOn(entries, ignoreSortKey)
  {
    forall a, b, c | a in entries && b in entries && c in entries
      ensures TransitiveAt(a, b, c, ignoreSortKey)
    {
      GroupsFirst(a, b, ignoreSortKey);
      GroupsFirst(b, c, ignoreSortKey);
      GroupsFirst(a, c, ignoreSortKey);
      GroupChains(a, b, c, ignoreSortKey);
      if SameGroup(a, b, ignoreSortKey) && SameGroup(b, c, ignoreSortKey)
        && InGroup(a, b, ignoreSortKey) != Greater && InGroup(b, c, ignoreSortKey) != Greater {
        AlignedInGroup(entries, a, b, c, ignoreSortKey);
      }
    }
  }

  lemma TextBetween(v: string, u: string, w: string)
    requires CompareText(v, u) != Greater && CompareText(u, w) != Greater
    ensures CompareText(v, w) == CompareText(v, u).Then(CompareText(u, w))
  {
    TextIsOrder();
  }

  lemma InGroupDecides(a: Entry, b: Entry, ignoreSortKey: bool)
    requires SameGroup(a, b, ignoreSortKey)
    ensures SortCompare(a, b, ignoreSortKey) == InGroup(a, b, ignoreSortKey)
    ensures SortCompare(b, a, ignoreSortKey) == InGroup(a, b, ignoreSortKey).Reverse()
  {
    GroupsFirst(a, b, ignoreSortKey);
    SortSwap(a, b, ignoreSortKey);
  }

  lemma TransitiveBetween(v: Entry, u: Entry, w: Entry, ignoreSortKey: bool)
    requires Between(v, u, w, ignoreSortKey)
    requires TransitiveAt(v, u, w, ignoreSortKey) && TransitiveAt(w, u, v, ignoreSortKey)
    requires TransitiveAt(w, v, u, ignoreSortKey) && TransitiveAt(u, w, v, ignoreSortKey)
    ensures InGroup(v, w, ignoreSortKey) == CompareText(v.id, w.id)
  {
    SameGroups(v, u, w, ignoreSortKey);
    InGroupDecides(v, u, ignoreSortKey);
    InGroupDecides(u, w, ignoreSortKey);
    InGroupDecides(v, w, ignoreSortKey);
    TextBetween(v.id, u.id, w.id);
  }

  lemma TransitiveIsAligned(entries: seq<Entry>, ignoreSortKey: bool)
    requires TransitiveOn(entries, ignoreSortKey)
    ensures Aligned(entries, ignoreSortKey)
  {
    forall v, u, w | v in entries && u in entries && w in entries && Between(v, u, w, ignoreSortKey)
      ensures InGroup(v, w, ignoreSortKey) == CompareText(v.id, w.id)
    {
      TransitiveBetween(v, u, w, ignoreSortKey);
    }
  }

  /** The comparison is transitive on a list exactly when the list is aligned. */
  lemma TransitiveIff(entries: seq<Entry>, ignoreSortKey: bool)
    ensures TransitiveOn(entries, ignoreSortKey) <==> Aligned(entries, ignoreSortKey)
  {
    if Aligned(entries, ignoreSortKey) { AlignedIsTransitive(entries, ignoreSortKey); }
    if TransitiveOn(entries, ignoreSortKey) { TransitiveIsAligned(entries, ignoreSortKey); }
  }

  /** Lists on which versions are all present, or all absent, are always safe. */
  lemma UniformIsTransitive(entries: seq<Entry>, ignoreSortKey: bool)
    requires (forall e | e in entries :: e.version.Some?) || (forall e | e in entries :: e.version.None?)
    ensures TransitiveOn(entries, ignoreSortKey)
  {
    AlignedIsTransitive(entries, ignoreSortKey);
  }

  lemma NameAndDigit(c: char)
    requires '1' <= c <= '9'
    ensures Lexemes(['x', c], 0) == [Word("x"), Numeral([c])]
  {
    var s := ['x', c];
    assert Lexemes(s, 2) == [];
    assert Digits(s, 1) == [c] && Lexemes(s, 1) == [Numeral([c])];
    assert s[0..1] == "x";
  }

  lemma NamesByText(c: char, d: char)
    requires d < c
    ensures CompareText([c], [d]) == Greater && CompareText([d], [c]) == Less
    ensures CompareText(['x', d], ['x', c]) == Less
  {
    assert ['x', c][1..] == [c] && ['x', d][1..] == [d];
  }

  lemma NamesByVersion(c: char, d: char)
    requires '1' <= d < c <= '9'
    ensures Compare(['x', c], ['x', d]) == Greater
  {
    NameAndDigit(c);
    NameAndDigit(d);
    NamesByText(c, d);
    var x, y := [Word("x"), Numeral([c])], [Word("x"), Numeral([d])];
    assert x[1..] == [Numeral([c])] && y[1..] == [Numeral([d])];
    assert CompareLexemes(x[1..], y[1..]) == Greater;
    assert CompareText("x", "x") == Equal by { TextIsOrder(); }
  }

  /** Mixed entries cycle whenever an unversioned id splits two ids that sort newest first. */
  lemma MixedEntriesCycle(x: Entry, u: Entry, y: Entry, ignoreSortKey: bool)
    requires Between(x, u, y, ignoreSortKey) && x.id != u.id && u.id != y.id
    requires InGroup(y, x, ignoreSortKey) == Less
    ensures SortCompare(y, x, ignoreSortKey) == Less
    ensures SortCompare(x, u, ignoreSortKey) == Less
    ensures SortCompare(u, y, ignoreSortKey) == Less
    ensures !TransitiveOn([x, u, y], ignoreSortKey)
  {
    SameGroups(x, u, y, ignoreSortKey);
    InGroupDecides(x, u, ignoreSortKey);
    InGroupDecides(u, y, ignoreSortKey);
    InGroupDecides(y, x, ignoreSortKey);
    TextIsOrder();
    assert !TransitiveAt(x, u, y, ignoreSortKey);
  }

  /** The cycle on concrete entries: x3 before x1 before x2 before x3. */
  lemma ThreeEntryCycle(ignoreSortKey: bool)
    ensures var x1 := Entry(['x', '1'], Some("1"), None, None, None);
      var x2 := Entry(['x', '2'], None, None, None, None);
      var x3 := Entry(['x', '3'], Some("1"), None, None, None);
      !TransitiveOn([x1, x2, x3], ignoreSortKey)
  {
    NamesByVersion('3', '1');
    NamesByText('2', '1');
    NamesByText('3', '2');
    CompareIsKeyOrder("1", "1");
    MixedEntriesCycle(Entry(['x', '1'], Some("1"), None, None, None),
                      Entry(['x', '2'], None, None, None, None),
                      Entry(['x', '3'], Some("1"), None, None, None), ignoreSortKey);
  }

  // ---------------------------------------------------------------------------
  // Sorted menus
  // ---------------------------------------------------------------------------

  /**
    No entry is placed directly before one it sorts after. This is what a sort promises for a
    comparison that is an order; one that cycles, as here, may void the promise.
  */
  ghost predicate Sorted(menu: seq<Entry>, ignoreSortKey: bool) {
    forall i | 0 < i < |menu| :: NotAfter(menu[i - 1], menu[i], ignoreSortKey)
  }

  /** Bad entries are last in any menu that is sorted in this sense, even where the comparison cycles. */
  lemma {:induction false} BadLast(menu: seq<Entry>, ignoreSortKey: bool, i: nat, j: nat)
    requires Sorted(menu, ignoreSortKey) && i <= j < |menu| && menu[i].IsBad()
    ensures menu[j].IsBad()
    decreases j - i
  {
    if i == j {
    } else {
      assert NotAfter(menu[i], menu[i + 1], ignoreSortKey);
      BadLast(menu, ignoreSortKey, i + 1, j);
    }
  }

  lemma {:induction false} SortedAcross(menu: seq<Entry>, ignoreSortKey: bool, i: nat, j: nat)
    requires Sorted(menu, ignoreSortKey) && TransitiveOn(menu, ignoreSortKey) && i < j < |menu|
    ensures NotAfter(menu[i], menu[j], ignoreSortKey)
    decreases j - i
  {
    assert NotAfter(menu[j - 1], menu[j], ignoreSortKey);
    if i < j - 1 {
      SortedAcross(menu, ignoreSortKey, i, j - 1);
      assert TransitiveAt(menu[i], menu[j - 1], menu[j], ignoreSortKey);
    }
  }

  /** In a menu on which the comparison is an order, no entry stands before a newer one of its system. */
  lemma NewerStandsFirst(menu: seq<Entry>, ignoreSortKey: bool, i: nat, j: nat)
    requires Sorted(menu, ignoreSortKey) && TransitiveOn(menu, ignoreSortKey) && i < j < |menu|
    requires SameSystem(menu[i], menu[j], ignoreSortKey)
    ensures Compare(menu[i].version.value, menu[j].version.value) != Less
  {
    SortedAcross(menu, ignoreSortKey, i, j);
    SortSwap(menu[i], menu[j], ignoreSortKey);
    Swap(menu[i].version.value, menu[j].version.value);
    NewerFirst(menu[j], menu[i], ignoreSortKey);
  }

  /** What sorts strictly before `p[i]` stands before it. */
  lemma StandsBefore(p: seq<Entry>, ignoreSortKey: bool, i: nat, x: Entry)
    requires Sorted(p, ignoreSortKey) && TransitiveOn(p, ignoreSortKey) && i < |p|
    requires !NotAfter(p[i], x, ignoreSortKey)
    ensures x !in p[i..]
  {
    if x in p[i..] {
      var m :| i <= m < |p| && p[m] == x;
      if i < m { SortedAcross(p, ignoreSortKey, i, m); } else { SortSwap(x, x, ignoreSortKey); }
    }
  }

  /** If `q[i]` sorts before `p[i]`, so does everything before it in `q`. */
  lemma AllBefore(p: seq<Entry>, q: seq<Entry>, ignoreSortKey: bool, i: nat, k: nat)
    requires Sorted(q, ignoreSortKey) && TransitiveOn(p, ignoreSortKey) && TransitiveOn(q, ignoreSortKey)
    requires k <= i < |p| == |q| && q[k] in p && q[i] in p
    requires !NotAfter(p[i], q[i], ignoreSortKey)
    ensures !NotAfter(p[i], q[k], ignoreSortKey)
  {
    if k < i {
      SortedAcross(q, ignoreSortKey, k, i);
      assert TransitiveAt(p[i], q[k], q[i], ignoreSortKey);
    }
  }

  /** Equal multisets, counted through a prefix: `q[..n]` avoids `p[i..]`, so it fits in `p[..i]`. */
  lemma FitsInPrefix<T>(p: seq<T>, q: seq<T>, i: nat, n: nat)
    requires multiset(p) == multiset(q) && i <= |p| && n <= |q|
    requires forall x | x in q[..n] :: x !in p[i..]
    ensures n <= i
  {
    var few, many := multiset(p[..i]), multiset(q[..n]);
    assert p == p[..i] + p[i..] && q == q[..n] + q[n..];
    assert multiset(p) == few + multiset(p[i..]) && multiset(q) == many + multiset(q[n..]);
    forall x | x in many
      ensures many[x] <= few[x]
    {
      assert x in q[..n];
      assert multiset(p[i..])[x] == 0 && multiset(p)[x] == few[x];
      assert many[x] <= multiset(q)[x];
    }
    assert many <= few;
    assert few == many + (few - many);
  }

  lemma NoLaterThan(p: seq<Entry>, q: seq<Entry>, ignoreSortKey: bool, i: nat)
    requires multiset(p) == multiset(q) && i < |p| == |q|
    requires Sorted(p, ignoreSortKey) && Sorted(q, ignoreSortKey)
    requires TransitiveOn(p, ignoreSortKey) && TransitiveOn(q, ignoreSortKey)
    ensures NotAfter(p[i], q[i], ignoreSortKey)
  {
    if !NotAfter(p[i], q[i], ignoreSortKey) {
      forall x | x in q[..i + 1]
        ensures x !in p[i..]
      {
        var k :| 0 <= k <= i && q[k] == x;
        assert q[k] in multiset(p) && q[i] in multiset(p);
        AllBefore(p, q, ignoreSortKey, i, k);
        StandsBefore(p, ignoreSortKey, i, x);
      }
      FitsInPrefix(p, q, i, i + 1);
    }
  }

  /** On a transitive list the menu is determined: two sorted arrangements differ only in ties. */
  lemma MenuIsDetermined(p: seq<Entry>, q: seq<Entry>, ignoreSortKey: bool, i: nat)
    requires multiset(p) == multiset(q) && i < |p| == |q|
    requires Sorted(p, ignoreSortKey) && Sorted(q, ignoreSortKey)
    requires TransitiveOn(p, ignoreSortKey)
    ensures SortCompare(p[i], q[i], ignoreSortKey) == Equal
  {
    assert TransitiveOn(q, ignoreSortKey) by {
      assert forall e :: e in q ==> e in multiset(p);
    }
    NoLaterThan(p, q, ignoreSortKey, i);
    NoLaterThan(q, p, ignoreSortKey, i);
    SortSwap(p[i], q[i], ignoreSortKey);
  }
}
