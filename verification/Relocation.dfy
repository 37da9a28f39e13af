/**
  Base relocation of a loaded image (`apply_relocations_to_slice` in `pe_loader_pure.rs`; the .reloc
  section of the Microsoft PE/COFF specification).

  `Blocks` reads a relocation directory into the fixups it names, without looking at the image.
  `Relocated` applies a list of fixups. The in-place method is shown to do both at once.
*/
module Relocation {
  import opened Orders
  import opened LittleEndian

  const MODULUS: nat := 0x1_0000_0000_0000_0000

  /** A slot of the image to which the load delta is added. */
  datatype Fixup = Fixup(rva: nat, width: nat) {
    function End(): nat { rva + width }
  }

  datatype RelocError =
    | HeaderTruncated
    | BlockTooSmall
    | BlockPastDirectory
    | OddEntries
    | TargetOutOfBounds(width: nat)
    | UnsupportedType(kind: nat)

  /** The fixups met before the directory ends or is refused. */
  datatype Plan = Plan(fixups: seq<Fixup>, error: Option<RelocError>)

  /** The plan of one part of a directory and then the next, unless the first is refused. */
  function Joined(first: Plan, rest: Plan): Plan {
    if first.error.Some? then first else Plan(first.fixups + rest.fixups, rest.error)
  }

  /** The `n`-byte little-endian integer at `i`. */
  function Read(s: seq<byte>, i: nat, n: nat): nat
    requires i + n <= |s|
  {
    Value(s[i..i + n])
  }

  // ---------------------------------------------------------------------------
  // The directory
  // ---------------------------------------------------------------------------

  /** One 16-bit entry: nothing for padding, a fixup, or an error. */
  function EntryPlan(entry: nat, page: nat, size: nat): Plan {
    var kind, rva := entry / 0x1000, page + entry % 0x1000;
    if kind == 0 then Plan([], None)
    else if kind == 10 then
      if rva + 8 > size then Plan([], Some(TargetOutOfBounds(8))) else Plan([Fixup(rva, 8)], None)
    else if kind == 3 then
      if rva + 4 > size then Plan([], Some(TargetOutOfBounds(4))) else Plan([Fixup(rva, 4)], None)
    else Plan([], Some(UnsupportedType(kind)))
  }

  function Entries(dir: seq<byte>, at: nat, count: nat, page: nat, size: nat): Plan
    requires at + 2 * count <= |dir|
    decreases count
  {
    if count == 0 then Plan([], None)
    else
      Joined(EntryPlan(Read(dir, at, 2), page, size), Entries(dir, at + 2, count - 1, page, size))
  }

  /** A block header: refused, the terminator, or a page with its entries. */
  datatype Header = Refused(error: RelocError) | Terminator | Block(page: nat, count: nat, next: nat)

  function ReadHeader(dir: seq<byte>, cursor: nat): (h: Header)
    requires cursor <= |dir|
    ensures h.Block? ==> cursor + 8 + 2 * h.count == h.next <= |dir|
  {
    if cursor + 8 > |dir| then Refused(HeaderTruncated)
    else
      var page, length := Read(dir, cursor, 4), Read(dir, cursor + 4, 4);
      if length == 0 then Terminator
      else if length < 8 then Refused(BlockTooSmall)
      else if cursor + length > |dir| then Refused(BlockPastDirectory)
      else if (length - 8) % 2 != 0 then Refused(OddEntries)
      else Block(page, (length - 8) / 2, cursor + length)
  }

  /** The whole directory from a cursor on; a block of size zero ends it. */
  function Blocks(dir: seq<byte>, cursor: nat, size: nat): Plan
    requires cursor <= |dir|
    decreases |dir| - cursor
  {
    if cursor == |dir| then Plan([], None)
    else
      match ReadHeader(dir, cursor)
      case Refused(e) => Plan([], Some(e))
      case Terminator => Plan([], None)
      case Block(page, count, next) =>
        Joined(Entries(dir, cursor + 8, count, page, size), Blocks(dir, next, size))
  }

  predicate Fits(fixups: seq<Fixup>, size: nat) {
    forall i | 0 <= i < |fixups| ::
      && (fixups[i].width == 4 || fixups[i].width == 8)
      && fixups[i].End() <= size
  }

  lemma {:induction false} EntriesFit(dir: seq<byte>, at: nat, count: nat, page: nat, size: nat)
    requires at + 2 * count <= |dir|
    ensures Fits(Entries(dir, at, count, page, size).fixups, size)
    decreases count
  {
    if count == 0 {
    } else {
      EntriesFit(dir, at + 2, count - 1, page, size);
    }
  }

  lemma {:induction false} BlocksFit(dir: seq<byte>, cursor: nat, size: nat)
    requires cursor <= |dir|
    ensures Fits(Blocks(dir, cursor, size).fixups, size)
    decreases |dir| - cursor
  {
    if cursor < |dir| && ReadHeader(dir, cursor).Block? {
      var h := ReadHeader(dir, cursor);
      EntriesFit(dir, cursor + 8, h.count, h.page, size);
      BlocksFit(dir, h.next, size);
    }
  }

  // ---------------------------------------------------------------------------
  // What a linker writes
  // ---------------------------------------------------------------------------

  /** An entry as a linker writes it: padding, a 32-bit (HIGHLOW) or a 64-bit (DIR64) slot of its page. */
  datatype Target = Padding | HighLow(offset: nat) | Dir64(offset: nat) {
    predicate IsEncodable() { Padding? || offset < 0x1000 }

    function Word(): nat {
      match this
      case Padding => 0
      case HighLow(o) => 0x3000 + o
      case Dir64(o) => 0xA000 + o
    }

    function Fixups(page: nat): seq<Fixup> {
      match this
      case Padding => []
      case HighLow(o) => [Fixup(page + o, 4)]
      case Dir64(o) => [Fixup(page + o, 8)]
    }
  }

  datatype Page = Page(rva: nat, targets: seq<Target>)

  /** At `at` stand the 16-bit words of these entries. */
  ghost predicate HasTargets(dir: seq<byte>, at: nat, targets: seq<Target>) {
    && at + 2 * |targets| <= |dir|
    && forall k | 0 <= k < |targets| :: targets[k].IsEncodable() && Read(dir, at + 2 * k, 2) == targets[k].Word()
  }

  /** At `cursor` stands this page, behind its address and size. */
  ghost predicate HasPage(dir: seq<byte>, cursor: nat, p: Page) {
    var size := 8 + 2 * |p.targets|;
    && cursor + size <= |dir| && Read(dir, cursor, 4) == p.rva && Read(dir, cursor + 4, 4) == size
    && HasTargets(dir, cursor + 8, p.targets)
  }

  /** From `cursor` on `dir` holds these pages, and then it ends or a page says that its size is zero. */
  ghost predicate IsDirectory(dir: seq<byte>, cursor: nat, pages: seq<Page>)
    decreases |pages|
  {
    if |pages| == 0 then cursor == |dir| || (cursor + 8 <= |dir| && Read(dir, cursor + 4, 4) == 0)
    else
      && (forall p | p == pages[0] :: HasPage(dir, cursor, p))
      && IsDirectory(dir, cursor + 8 + 2 * |pages[0].targets|, pages[1..])
  }

  function FixupsOf(page: nat, targets: seq<Target>): seq<Fixup> {
    if |targets| == 0 then [] else targets[0].Fixups(page) + FixupsOf(page, targets[1..])
  }

  function AllFixups(pages: seq<Page>): seq<Fixup> {
    if |pages| == 0 then [] else FixupsOf(pages[0].rva, pages[0].targets) + AllFixups(pages[1..])
  }

  /** The plan for these slots: up to the first that does not fit. */
  function Checked(fixups: seq<Fixup>, size: nat): Plan {
    if |fixups| == 0 then Plan([], None)
    else if fixups[0].End() > size then Plan([], Some(TargetOutOfBounds(fixups[0].width)))
    else Joined(Plan([fixups[0]], None), Checked(fixups[1..], size))
  }

  lemma JoinedAssociates(x: Plan, y: Plan, z: Plan)
    ensures Joined(Joined(x, y), z) == Joined(x, Joined(y, z))
  {
    assert x.fixups + y.fixups + z.fixups == x.fixups + (y.fixups + z.fixups);
  }

  lemma {:induction false} CheckedConcat(a: seq<Fixup>, b: seq<Fixup>, size: nat)
    ensures Checked(a + b, size) == Joined(Checked(a, size), Checked(b, size))
    decreases |a|
  {
    if |a| == 0 {
      assert a + b == b;
    } else {
      assert (a + b)[1..] == a[1..] + b;
      CheckedConcat(a[1..], b, size);
      JoinedAssociates(Plan([a[0]], None), Checked(a[1..], size), Checked(b, size));
    }
  }

  /** All slots are accepted exactly when all fit. */
  lemma {:induction false} CheckedIff(fixups: seq<Fixup>, size: nat)
    ensures Checked(fixups, size).fixups <= fixups
    ensures Checked(fixups, size) == Plan(fixups, None) <==> forall i | 0 <= i < |fixups| :: fixups[i].End() <= size
    ensures Checked(fixups, size).error.None? ==> Checked(fixups, size).fixups == fixups
    decreases |fixups|
  {
    if |fixups| == 0 {
    } else {
      CheckedIff(fixups[1..], size);
      assert fixups == [fixups[0]] + fixups[1..];
      assert forall i | 0 < i < |fixups| :: fixups[i] == fixups[1..][i - 1];
    }
  }

  lemma {:induction false} TargetReads(t: Target, page: nat, size: nat)
    requires t.IsEncodable()
    ensures EntryPlan(t.Word(), page, size) == Checked(t.Fixups(page), size)
  {
    if !t.Padding? {
      var f := t.Fixups(page)[0];
      assert [f][1..] == [] && Checked([], size) == Plan([], None);
    }
  }

  lemma {:induction false} TailOfTargets(dir: seq<byte>, at: nat, targets: seq<Target>)
    requires |targets| > 0 && HasTargets(dir, at, targets)
    ensures targets[0].IsEncodable() && Read(dir, at, 2) == targets[0].Word() && HasTargets(dir, at + 2, targets[1..])
  {
    assert Read(dir, at + 2 * 0, 2) == targets[0].Word();
    forall k | 0 <= k < |targets| - 1
      ensures targets[1..][k].IsEncodable() && Read(dir, at + 2 + 2 * k, 2) == targets[1..][k].Word()
    {
      assert Read(dir, at + 2 * (k + 1), 2) == targets[k + 1].Word();
    }
  }

  lemma {:induction false} TargetsRead(dir: seq<byte>, at: nat, targets: seq<Target>, page: nat, size: nat)
    requires HasTargets(dir, at, targets)
    ensures Entries(dir, at, |targets|, page, size) == Checked(FixupsOf(page, targets), size)
    decreases |targets|
  {
    if |targets| == 0 {
    } else {
      var t, rest := targets[0], targets[1..];
      TailOfTargets(dir, at, targets);
      TargetReads(t, page, size);
      TargetsRead(dir, at + 2, rest, page, size);
      CheckedConcat(t.Fixups(page), FixupsOf(page, rest), size);
    }
  }

  lemma {:induction false} PageReads(dir: seq<byte>, cursor: nat, p: Page, size: nat, rest: Plan)
    requires HasPage(dir, cursor, p) && Blocks(dir, cursor + 8 + 2 * |p.targets|, size) == rest
    ensures Blocks(dir, cursor, size) == Joined(Checked(FixupsOf(p.rva, p.targets), size), rest)
  {
    assert ReadHeader(dir, cursor) == Block(p.rva, |p.targets|, cursor + 8 + 2 * |p.targets|);
    TargetsRead(dir, cursor + 8, p.targets, p.rva, size);
  }

  lemma {:induction false} PagesRead(dir: seq<byte>, cursor: nat, pages: seq<Page>, size: nat)
    requires IsDirectory(dir, cursor, pages)
    ensures cursor <= |dir| && Blocks(dir, cursor, size) == Checked(AllFixups(pages), size)
    decreases |pages|
  {
    if |pages| == 0 {
    } else {
      var p, rest := pages[0], pages[1..];
      PagesRead(dir, cursor + 8 + 2 * |p.targets|, rest, size);
      assert HasPage(dir, cursor, p);
      PageReads(dir, cursor, p, size, Checked(AllFixups(rest), size));
      CheckedConcat(FixupsOf(p.rva, p.targets), AllFixups(rest), size);
    }
  }

  /**
    A directory as a linker lays it out is accepted exactly when all its slots fit, and then names
    exactly those slots, in order.
  */
  lemma {:induction false} DirectoryReads(dir: seq<byte>, pages: seq<Page>, size: nat)
    requires IsDirectory(dir, 0, pages)
    ensures var plan, fixups := Blocks(dir, 0, size), AllFixups(pages);
      && (plan == Plan(fixups, None) <==> forall i | 0 <= i < |fixups| :: fixups[i].End() <= size)
      && (plan.error.None? ==> plan.fixups == fixups)
  {
    PagesRead(dir, 0, pages, size);
    CheckedIff(AllFixups(pages), size);
  }

  // ---------------------------------------------------------------------------
  // Applying fixups
  // ---------------------------------------------------------------------------

  function Slot(image: seq<byte>, f: Fixup): (s: seq<byte>)
    requires f.End() <= |image|
    ensures |s| == f.width
  {
    image[f.rva..f.End()]
  }

  function Patched(image: seq<byte>, f: Fixup, delta: nat): (r: seq<byte>)
    requires f.End() <= |image|
    ensures |r| == |image|
    ensures Slot(r, f) == Add(Slot(image, f), delta)
    ensures forall i | 0 <= i < |image| && !(f.rva <= i < f.End()) :: r[i] == image[i]
  {
    Overwritten(image, f.rva, Add(Slot(image, f), delta))
  }

  function Relocated(image: seq<byte>, fixups: seq<Fixup>, delta: nat): (r: seq<byte>)
    requires Fits(fixups, |image|)
    ensures |r| == |image|
    decreases |fixups|
  {
    if |fixups| == 0 then image
    else Relocated(Patched(image, fixups[0], delta), fixups[1..], delta)
  }

  lemma {:induction false} RelocatedConcat(image: seq<byte>, f: seq<Fixup>, g: seq<Fixup>, delta: nat)
    requires Fits(f, |image|) && Fits(g, |image|) && Fits(f + g, |image|)
    ensures Relocated(image, f + g, delta) == Relocated(Relocated(image, f, delta), g, delta)
    decreases |f|
  {
    if |f| == 0 {
      assert f + g == g;
    } else {
      assert (f + g)[1..] == f[1..] + g;
      RelocatedConcat(Patched(image, f[0], delta), f[1..], g, delta);
    }
  }

  /** Bytes outside every slot keep their value. */
  lemma {:induction false} OutsideUnchanged(image: seq<byte>, fixups: seq<Fixup>, delta: nat, i: nat)
    requires Fits(fixups, |image|) && i < |image|
    requires forall k | 0 <= k < |fixups| :: !(fixups[k].rva <= i < fixups[k].End())
    ensures Relocated(image, fixups, delta)[i] == image[i]
    decreases |fixups|
  {
    if |fixups| == 0 {
    } else {
      OutsideUnchanged(Patched(image, fixups[0], delta), fixups[1..], delta, i);
    }
  }

  // ---------------------------------------------------------------------------
  // Composition
  // ---------------------------------------------------------------------------

  predicate Disjoint(f: Fixup, g: Fixup) {
    f.End() <= g.rva || g.End() <= f.rva
  }

  /** Slots whose fixups may be applied in either order. */
  predicate Independent(f: Fixup, g: Fixup) {
    Disjoint(f, g) || f.End() == g.End()
  }

  predicate AllIndependent(fixups: seq<Fixup>) {
    forall i, j | 0 <= i < j < |fixups| :: Independent(fixups[i], fixups[j])
  }

  lemma SamePatch(a: seq<byte>, b: seq<byte>, f: Fixup)
    requires |a| == |b| && f.End() <= |a|
    requires Slot(a, f) == Slot(b, f)
    requires forall i | 0 <= i < |a| && !(f.rva <= i < f.End()) :: a[i] == b[i]
    ensures a == b
  {
    forall i | 0 <= i < |a|
      ensures a[i] == b[i]
    {
      if f.rva <= i < f.End() {
        assert a[i] == Slot(a, f)[i - f.rva] && b[i] == Slot(b, f)[i - f.rva];
      }
    }
  }

  /** Two fixups of one slot add up. */
  lemma PatchedTwice(image: seq<byte>, f: Fixup, d: nat, e: nat)
    requires f.End() <= |image|
    ensures Patched(Patched(image, f, d), f, e) == Patched(image, f, d + e)
  {
    AddAdd(Slot(image, f), d, e);
    SamePatch(Patched(Patched(image, f, d), f, e), Patched(image, f, d + e), f);
  }

  lemma DisjointCommute(image: seq<byte>, f: Fixup, g: Fixup, d: nat, e: nat)
    requires f.End() <= |image| && g.End() <= |image| && Disjoint(f, g)
    ensures Patched(Patched(image, f, d), g, e) == Patched(Patched(image, g, e), f, d)
  {
    var a, b := Patched(Patched(image, f, d), g, e), Patched(Patched(image, g, e), f, d);
    assert Slot(Patched(image, f, d), g) == Slot(image, g);
    assert Slot(Patched(image, g, e), f) == Slot(image, f);
    assert Slot(b, g) == Slot(Patched(image, g, e), g);
    SamePatch(a, b, g);
  }

  /** What a fixup at the top of a slot does to the whole slot. */
  lemma TopSlot(image: seq<byte>, f: Fixup, g: Fixup, e: nat)
    requires f.End() == g.End() <= |image| && f.rva <= g.rva
    ensures Slot(Patched(image, g, e), f) ==
            Slot(image, f)[..g.rva - f.rva] + Add(Slot(image, f)[g.rva - f.rva..], e)
  {
    var r, j := Patched(image, g, e), g.rva - f.rva;
    assert Slot(image, f)[j..] == Slot(image, g);
    assert Slot(r, f) == r[f.rva..g.rva] + Slot(r, g);
    assert r[f.rva..g.rva] == image[f.rva..g.rva];
    assert Slot(image, f)[..j] == image[f.rva..g.rva];
  }

  /** A fixup at the top of a slot adds to the slot from above. */
  lemma TopPatch(image: seq<byte>, f: Fixup, g: Fixup, e: nat)
    requires f.End() == g.End() <= |image| && f.rva <= g.rva
    ensures Patched(image, g, e) == Patched(image, f, e * Power(g.rva - f.rva))
  {
    TopSlot(image, f, g, e);
    AddAbove(Slot(image, f), e, g.rva - f.rva);
    SamePatch(Patched(image, g, e), Patched(image, f, e * Power(g.rva - f.rva)), f);
  }

  lemma SameEndCommute(image: seq<byte>, f: Fixup, g: Fixup, d: nat, e: nat)
    requires f.End() == g.End() <= |image| && f.rva <= g.rva
    ensures Patched(Patched(image, f, d), g, e) == Patched(Patched(image, g, e), f, d)
  {
    var x := e * Power(g.rva - f.rva);
    TopPatch(Patched(image, f, d), f, g, e);
    TopPatch(image, f, g, e);
    PatchedTwice(image, f, d, x);
    PatchedTwice(image, f, x, d);
  }

  lemma Commute(image: seq<byte>, f: Fixup, g: Fixup, d: nat, e: nat)
    requires f.End() <= |image| && g.End() <= |image| && Independent(f, g)
    ensures Patched(Patched(image, f, d), g, e) == Patched(Patched(image, g, e), f, d)
  {
    if Disjoint(f, g) {
      DisjointCommute(image, f, g, d, e);
    } else if f.rva <= g.rva {
      SameEndCommute(image, f, g, d, e);
    } else {
      SameEndCommute(image, g, f, e, d);
    }
  }

  lemma {:induction false} CommuteAll(image: seq<byte>, f: Fixup, fixups: seq<Fixup>, d: nat, e: nat)
    requires f.End() <= |image| && Fits(fixups, |image|)
    requires forall k | 0 <= k < |fixups| :: Independent(f, fixups[k])
    ensures Patched(Relocated(image, fixups, d), f, e) == Relocated(Patched(image, f, e), fixups, d)
    decreases |fixups|
  {
    if |fixups| == 0 {
    } else {
      CommuteAll(Patched(image, fixups[0], d), f, fixups[1..], d, e);
      Commute(image, f, fixups[0], e, d);
    }
  }

  /** Relocating by `d` and then by `e` relocates by `d + e`. */
  lemma {:induction false} RelocatedTwice(image: seq<byte>, fixups: seq<Fixup>, d: nat, e: nat)
    requires Fits(fixups, |image|) && AllIndependent(fixups)
    ensures Relocated(Relocated(image, fixups, d), fixups, e) == Relocated(image, fixups, d + e)
    decreases |fixups|
  {
    if |fixups| == 0 {
    } else {
      var f, rest := fixups[0], fixups[1..];
      var start := Patched(image, f, d);
      CommuteAll(start, f, rest, d, e);
      PatchedTwice(image, f, d, e);
      RelocatedTwice(Patched(image, f, d + e), rest, d, e);
    }
  }

  // ---------------------------------------------------------------------------
  // Bases
  // ---------------------------------------------------------------------------

  /** `actual_base.wrapping_sub(preferred_base)`. */
  function Delta(from: nat, to: nat): (d: nat)
    ensures d < MODULUS
  {
    (to - from) % MODULUS
  }

  lemma SlotWrap(slot: seq<byte>, d: nat)
    requires |slot| == 4 || |slot| == 8
    ensures Add(slot, d + MODULUS) == Add(slot, d)
  {
    assert Power(4) == 0x1_0000_0000;
    assert Power(8) == MODULUS;
    AddWrap(slot, d, if |slot| == 4 then 0x1_0000_0000 else 1, MODULUS);
  }

  lemma {:induction false} RelocatedWrap(image: seq<byte>, fixups: seq<Fixup>, d: nat, wrapped: nat)
    requires Fits(fixups, |image|) && wrapped == d + MODULUS
    ensures Relocated(image, fixups, wrapped) == Relocated(image, fixups, d)
    decreases |fixups|
  {
    if |fixups| == 0 {
    } else {
      var f := fixups[0];
      SlotWrap(Slot(image, f), d);
      RelocatedWrap(Patched(image, f, d), fixups[1..], d, wrapped);
    }
  }

  lemma SlotModulus(slot: seq<byte>)
    requires |slot| == 4 || |slot| == 8
    ensures Add(slot, MODULUS) == slot
  {
    SlotWrap(slot, 0);
    BytesOfValue(slot);
  }

  lemma PatchedSame(image: seq<byte>, f: Fixup, d: nat)
    requires f.End() <= |image| && Add(Slot(image, f), d) == Slot(image, f)
    ensures Patched(image, f, d) == image
  {
    SamePatch(Patched(image, f, d), image, f);
  }

  lemma {:induction false} RelocatedByZero(image: seq<byte>, fixups: seq<Fixup>)
    requires Fits(fixups, |image|)
    ensures Relocated(image, fixups, 0) == image
    decreases |fixups|
  {
    if |fixups| == 0 {
    } else {
      BytesOfValue(Slot(image, fixups[0]));
      PatchedSame(image, fixups[0], 0);
      RelocatedByZero(image, fixups[1..]);
    }
  }

  /** The image after moving it from base `from` to base `to`. */
  function Rebased(image: seq<byte>, dir: seq<byte>, from: nat, to: nat): (r: seq<byte>)
    ensures |r| == |image|
  {
    BlocksFit(dir, 0, |image|);
    if Delta(from, to) == 0 then image
    else Relocated(image, Blocks(dir, 0, |image|).fixups, Delta(from, to))
  }

  lemma {:induction false} RelocatedDeltas(image: seq<byte>, fixups: seq<Fixup>, d: nat, e: nat, sum: nat)
    requires d + e == sum || d + e == sum + MODULUS
    requires Fits(fixups, |image|) && AllIndependent(fixups)
    ensures Relocated(Relocated(image, fixups, d), fixups, e) == Relocated(image, fixups, sum)
  {
    RelocatedTwice(image, fixups, d, e);
    if d + e != sum {
      RelocatedWrap(image, fixups, sum, d + e);
    }
  }

  lemma DeltasAdd(a: nat, b: nat, c: nat)
    requires a < MODULUS && b < MODULUS && c < MODULUS
    ensures Delta(a, b) + Delta(b, c) == Delta(a, c) || Delta(a, b) + Delta(b, c) == Delta(a, c) + MODULUS
  {
    assert Delta(a, b) == if b < a then b - a + MODULUS else b - a;
    assert Delta(b, c) == if c < b then c - b + MODULUS else c - b;
    assert Delta(a, c) == if c < a then c - a + MODULUS else c - a;
  }

  /** The early return for an unmoved image agrees with adding a delta of zero. */
  lemma MoveIsRelocated(image: seq<byte>, dir: seq<byte>, from: nat, to: nat)
    ensures Fits(Blocks(dir, 0, |image|).fixups, |image|)
    ensures Rebased(image, dir, from, to) == Relocated(image, Blocks(dir, 0, |image|).fixups, Delta(from, to))
  {
    BlocksFit(dir, 0, |image|);
    RelocatedByZero(image, Blocks(dir, 0, |image|).fixups);
  }

  /** Moving from base `a` to `b` and on to `c` is moving from `a` to `c`. */
  lemma RebaseComposes(image: seq<byte>, dir: seq<byte>, a: nat, b: nat, c: nat)
    requires a < MODULUS && b < MODULUS && c < MODULUS
    requires AllIndependent(Blocks(dir, 0, |image|).fixups)
    ensures Rebased(Rebased(image, dir, a, b), dir, b, c) == Rebased(image, dir, a, c)
  {
    var fixups := Blocks(dir, 0, |image|).fixups;
    BlocksFit(dir, 0, |image|);
    MoveIsRelocated(image, dir, a, b);
    MoveIsRelocated(image, dir, a, c);
    MoveIsRelocated(Rebased(image, dir, a, b), dir, b, c);
    DeltasAdd(a, b, c);
    RelocatedDeltas(image, fixups, Delta(a, b), Delta(b, c), Delta(a, c));
  }

  /** Moving an image away and back restores it. */
  lemma RebaseRestores(image: seq<byte>, dir: seq<byte>, a: nat, b: nat)
    requires a < MODULUS && b < MODULUS
    requires AllIndependent(Blocks(dir, 0, |image|).fixups)
    ensures Rebased(Rebased(image, dir, a, b), dir, b, a) == image
  {
    RebaseComposes(image, dir, a, b, a);
  }

  // ---------------------------------------------------------------------------
  // Addresses
  // ---------------------------------------------------------------------------

  /** No other fixup touches the slot of the `k`-th. */
  predicate IsAlone(fixups: seq<Fixup>, k: nat) {
    k < |fixups| && forall j | 0 <= j < |fixups| && j != k :: Disjoint(fixups[k], fixups[j])
  }

  lemma SlotKept(image: seq<byte>, f: Fixup, g: Fixup, delta: nat)
    requires f.End() <= |image| && g.End() <= |image| && Disjoint(f, g)
    ensures Slot(Patched(image, g, delta), f) == Slot(image, f)
  {
  }

  lemma {:induction false} SlotKeptByAll(image: seq<byte>, f: Fixup, fixups: seq<Fixup>, delta: nat)
    requires f.End() <= |image| && Fits(fixups, |image|)
    requires forall j | 0 <= j < |fixups| :: Disjoint(f, fixups[j])
    ensures Slot(Relocated(image, fixups, delta), f) == Slot(image, f)
    decreases |fixups|
  {
    if |fixups| == 0 {
    } else {
      SlotKept(image, f, fixups[0], delta);
      SlotKeptByAll(Patched(image, fixups[0], delta), f, fixups[1..], delta);
    }
  }

  lemma {:induction false} SlotOfRelocated(image: seq<byte>, fixups: seq<Fixup>, delta: nat, k: nat)
    requires Fits(fixups, |image|) && IsAlone(fixups, k)
    ensures Slot(Relocated(image, fixups, delta), fixups[k]) == Add(Slot(image, fixups[k]), delta)
    decreases |fixups|
  {
    var next := Patched(image, fixups[0], delta);
    if k == 0 {
      SlotKeptByAll(next, fixups[0], fixups[1..], delta);
    } else {
      SlotKept(image, fixups[k], fixups[0], delta);
      SlotOfRelocated(next, fixups[1..], delta, k - 1);
    }
  }

  lemma Modulo32(a: int, k: int)
    ensures (a + k * 0x1_0000_0000) % 0x1_0000_0000 == a % 0x1_0000_0000
  {
  }

  lemma Modulo64(a: int, k: int)
    ensures (a + k * MODULUS) % MODULUS == a % MODULUS
  {
  }

  /** Multiples of the width's modulus vanish. */
  lemma {:induction false} SlotModulo(a: int, k: int, width: nat)
    requires width == 4 || width == 8
    ensures Power(width) > 0 && (a + k * Power(width)) % Power(width) == a % Power(width)
  {
    assert Power(4) == 0x1_0000_0000;
    assert Power(8) == MODULUS;
    if width == 4 { Modulo32(a, k); } else { Modulo64(a, k); }
  }

  lemma Remainder32(r: nat, q: nat)
    requires r < 0x1_0000_0000
    ensures (r + q * 0x1_0000_0000) % 0x1_0000_0000 == r
  {
  }

  lemma Remainder64(r: nat, q: nat)
    requires r < MODULUS
    ensures (r + q * MODULUS) % MODULUS == r
  {
  }

  lemma {:induction false} SlotRemainder(v: nat, r: nat, q: nat, width: nat)
    requires (width == 4 || width == 8) && v == r + q * Power(width) && r < Power(width)
    ensures v % Power(width) == r
  {
    assert Power(4) == 0x1_0000_0000;
    assert Power(8) == MODULUS;
    if width == 4 { Remainder32(r, q); } else { Remainder64(r, q); }
  }

  /** A wrapping addition is addition modulo the width. */
  lemma {:induction false} SlotSum(slot: seq<byte>, d: nat)
    requires |slot| == 4 || |slot| == 8
    ensures Power(|slot|) > 0 && Value(Add(slot, d)) == (Value(slot) + d) % Power(|slot|)
  {
    var q := LowBytes(Value(slot) + d, |slot|);
    SlotRemainder(Value(slot) + d, Value(Add(slot, d)), q, |slot|);
  }

  lemma {:induction false} DeltaModulo(v: nat, from: nat, to: nat, width: nat)
    requires from < MODULUS && to < MODULUS && (width == 4 || width == 8)
    ensures Power(width) > 0 && (v + Delta(from, to)) % Power(width) == (v + to - from) % Power(width)
  {
    var n := if width == 4 then 0x1_0000_0000 else 1;
    assert Power(4) == 0x1_0000_0000;
    assert Power(8) == MODULUS;
    SlotModulo(v + to - from, n, width);
    assert Delta(from, to) == if to < from then to - from + MODULUS else to - from;
  }

  /** What the slot holds has grown by the new base minus the old one, modulo its width. */
  predicate Follows(before: seq<byte>, after: seq<byte>, f: Fixup, from: nat, to: nat) {
    && f.End() <= |before| == |after| && Power(f.width) > 0
    && Value(Slot(after, f)) == (Value(Slot(before, f)) + to - from) % Power(f.width)
  }

  lemma {:induction false} SlotFollows(slot: seq<byte>, from: nat, to: nat)
    requires from < MODULUS && to < MODULUS && (|slot| == 4 || |slot| == 8)
    ensures Power(|slot|) > 0 && Value(Add(slot, Delta(from, to))) == (Value(slot) + to - from) % Power(|slot|)
  {
    SlotSum(slot, Delta(from, to));
    DeltaModulo(Value(slot), from, to, |slot|);
  }

  lemma {:induction false} AddedFollows(before: seq<byte>, after: seq<byte>, f: Fixup, from: nat, to: nat)
    requires from < MODULUS && to < MODULUS && (f.width == 4 || f.width == 8) && f.End() <= |before| == |after|
    requires Slot(after, f) == Add(Slot(before, f), Delta(from, to))
    ensures Follows(before, after, f, from, to)
  {
    SlotFollows(Slot(before, f), from, to);
  }

  /** Every address with a slot of its own follows the image. */
  lemma {:induction false} PointersFollow(image: seq<byte>, dir: seq<byte>, from: nat, to: nat, k: nat)
    requires from < MODULUS && to < MODULUS && IsAlone(Blocks(dir, 0, |image|).fixups, k)
    ensures Follows(image, Rebased(image, dir, from, to), Blocks(dir, 0, |image|).fixups[k], from, to)
  {
    var fixups := Blocks(dir, 0, |image|).fixups;
    var f := fixups[k];
    MoveIsRelocated(image, dir, from, to);
    SlotOfRelocated(image, fixups, Delta(from, to), k);
    AddedFollows(image, Rebased(image, dir, from, to), f, from, to);
  }

  /** So the address of `x` at the old base becomes the address of `x` at the new one. */
  lemma {:induction false} AddressFollows(before: seq<byte>, after: seq<byte>, f: Fixup, from: nat, to: nat, x: nat)
    requires Follows(before, after, f, from, to) && (f.width == 4 || f.width == 8)
    requires Value(Slot(before, f)) == (from + x) % Power(f.width)
    ensures Value(Slot(after, f)) == (to + x) % Power(f.width)
  {
    var p := Power(f.width);
    var q := (from + x) / p;
    assert from + x == q * p + (from + x) % p;
    SlotModulo(to + x, -q, f.width);
    assert Value(Slot(before, f)) + to - from == to + x + -q * p;
  }

  // ---------------------------------------------------------------------------
  // Overlapping slots
  // ---------------------------------------------------------------------------

  ghost predicate ComposesAt(image: seq<byte>, fixups: seq<Fixup>, d: nat, e: nat)
    requires Fits(fixups, |image|)
  {
    Relocated(Relocated(image, fixups, d), fixups, e) == Relocated(image, fixups, d + e)
  }

  function Zeros(n: nat): (s: seq<byte>)
    ensures |s| == n
  {
    seq(n, _ => 0)
  }

  /** Adding half a byte carries into the next byte exactly when the lowest one is upper half. */
  lemma AddHalf(s: seq<byte>)
    requires |s| != 0
    ensures Add(s, 128) == if s[0] < 128 then [s[0] + 128] + s[1..] else [s[0] - 128] + Add(s[1..], 1)
  {
    var v := Value(s[1..]);
    assert Value(s) == s[0] + 256 * v;
    if s[0] < 128 {
      BytesOfValue(s[1..]);
      assert (Value(s) + 128) / 256 == v && (Value(s) + 128) % 256 == s[0] + 128;
    } else {
      assert (Value(s) + 128) / 256 == v + 1 && (Value(s) + 128) % 256 == s[0] - 128;
    }
  }

  lemma HalfInSlot(s: seq<byte>, j: nat)
    requires j < |s|
    ensures s[j] < 128 ==> Add(s, 128 * Power(j)) == s[j := s[j] + 128]
    ensures s[j] >= 128 && j + 1 < |s| && s[j + 1] == 0 ==> Add(s, 128 * Power(j))[j + 1] == 1
  {
    var top := s[j..];
    AddAbove(s, 128, j);
    AddHalf(top);
    if s[j] < 128 {
      assert top[1..] == s[j + 1..];
    } else if j + 1 < |s| && s[j + 1] == 0 {
      assert Value(top[1..]) % 256 == 0 && Add(top[1..], 1)[0] == 1;
    }
  }

  /** The effect of half a byte at `p`, on a slot that covers it. */
  lemma HalfAt(image: seq<byte>, h: Fixup, p: nat)
    requires h.rva <= p < h.End() <= |image|
    ensures var r := Patched(image, h, 128 * Power(p - h.rva));
      && (image[p] < 128 ==> r == image[p := image[p] + 128])
      && (image[p] >= 128 && p + 1 < h.End() && image[p + 1] == 0 ==> r[p + 1] == 1)
  {
    var j, s := p - h.rva, Slot(image, h);
    var r := Patched(image, h, 128 * Power(j));
    HalfInSlot(s, j);
    if image[p] < 128 {
      assert Slot(image[p := image[p] + 128], h) == s[j := s[j] + 128];
      SamePatch(r, image[p := image[p] + 128], h);
    } else if p + 1 < h.End() {
      assert r[p + 1] == Slot(r, h)[j + 1];
    }
  }

  lemma {:induction false} PowerGrows(k: nat, n: nat)
    requires k <= n
    ensures Power(k) <= Power(n)
  {
    if k < n { PowerGrows(k, n - 1); }
  }

  lemma {:induction false} HalfFits(k: nat)
    requires k <= 7
    ensures 128 * Power(k) < MODULUS
  {
    assert Power(7) == 0x100_0000_0000_0000;
    if k < 7 { PowerGrows(k, 7); }
  }

  /** Where the lower of two overlapping slots overflows, the higher one carries: order matters. */
  lemma OrderMatters(f: Fixup, g: Fixup, z: seq<byte>, p: nat)
    requires f.End() == p + 1 < g.End() <= |z| && g.rva <= p && f.rva <= p
    requires forall i | 0 <= i < |z| :: z[i] == 0
    ensures var d, e := 128 * Power(p - f.rva), 128 * Power(p - g.rva);
      Patched(Patched(z, f, d), g, e) != Patched(Patched(z, g, e), f, d)
  {
    var d, e := 128 * Power(p - f.rva), 128 * Power(p - g.rva);
    var half := z[p := 128];
    assert Patched(z, f, d) == half by { HalfAt(z, f, p); }
    assert Patched(z, g, e) == half by { HalfAt(z, g, p); }
    assert Patched(half, g, e)[p + 1] == 1 by { HalfAt(half, g, p); }
    assert Patched(half, f, d)[p + 1] == 0;
  }

  lemma OverlapDoesNotCommute(f: Fixup, g: Fixup, z: seq<byte>) returns (d: nat, e: nat)
    requires f.width <= 8 && g.width <= 8 && f.End() < g.End() <= |z| && g.rva < f.End() && 0 < f.width
    requires forall i | 0 <= i < |z| :: z[i] == 0
    ensures d < MODULUS && e < MODULUS
    ensures Patched(Patched(z, f, d), g, e) != Patched(Patched(z, g, e), f, d)
  {
    var p := f.End() - 1;
    OrderMatters(f, g, z, p);
    HalfFits(p - f.rva);
    HalfFits(p - g.rva);
    d, e := 128 * Power(p - f.rva), 128 * Power(p - g.rva);
  }

  lemma PatchedBack(image: seq<byte>, f: Fixup, d: nat)
    requires (f.width == 4 || f.width == 8) && f.End() <= |image| && d <= MODULUS
    ensures Patched(Patched(image, f, d), f, MODULUS - d) == image
  {
    PatchedTwice(image, f, d, MODULUS - d);
    SlotModulus(Slot(image, f));
    PatchedSame(image, f, MODULUS);
  }

  lemma RelocatedPair(image: seq<byte>, f: Fixup, g: Fixup, d: nat)
    requires Fits([f, g], |image|) && f.End() <= |image| && g.End() <= |image|
    ensures Relocated(image, [f, g], d) == Patched(Patched(image, f, d), g, d)
  {
    assert [f, g][1..] == [g] && [g][1..] == [];
    var once := Patched(image, f, d);
    assert Relocated(once, [g], d) == Relocated(Patched(once, g, d), [], d);
  }

  lemma PatchedIsInjective(a: seq<byte>, b: seq<byte>, f: Fixup, d: nat)
    requires (f.width == 4 || f.width == 8) && f.End() <= |a| == |b| && d <= MODULUS && a != b
    ensures Patched(a, f, d) != Patched(b, f, d)
  {
    PatchedBack(a, f, d);
    PatchedBack(b, f, d);
  }

  /** The two sides of composition, on an image that `f` moves to `z`. */
  lemma PairSides(image: seq<byte>, z: seq<byte>, f: Fixup, g: Fixup, d: nat, e: nat)
    requires Fits([f, g], |z|) && f.End() <= |z| && g.End() <= |z| == |image|
    requires Patched(image, f, d) == z
    ensures Relocated(Relocated(image, [f, g], d), [f, g], e) == Patched(Patched(Patched(z, g, d), f, e), g, e)
    ensures Relocated(image, [f, g], d + e) == Patched(Patched(Patched(z, f, e), g, d), g, e)
  {
    RelocatedPair(image, f, g, d);
    RelocatedPair(Patched(z, g, d), f, g, e);
    RelocatedPair(image, f, g, d + e);
    PatchedTwice(image, f, d, e);
    PatchedTwice(Patched(z, f, e), g, d, e);
  }

  /** Fixups that do not commute on `z` do not compose on an image that the first moves to `z`. */
  lemma PairFails(image: seq<byte>, z: seq<byte>, f: Fixup, g: Fixup, d: nat, e: nat)
    requires Fits([f, g], |z|) && f.End() <= |z| && g.End() <= |z| == |image| && e < MODULUS
    requires g.width == 4 || g.width == 8
    requires Patched(image, f, d) == z
    requires Patched(Patched(z, f, e), g, d) != Patched(Patched(z, g, d), f, e)
    ensures !ComposesAt(image, [f, g], d, e)
  {
    PairSides(image, z, f, g, d, e);
    PatchedIsInjective(Patched(Patched(z, f, e), g, d), Patched(Patched(z, g, d), f, e), g, e);
  }

  ghost predicate PairComposes(f: Fixup, g: Fixup, size: nat)
    requires Fits([f, g], size)
  {
    forall image: seq<byte>, d: nat, e: nat | |image| == size && d < MODULUS && e < MODULUS ::
      ComposesAt(image, [f, g], d, e)
  }

  lemma MovedTo(z: seq<byte>, f: Fixup, d: nat) returns (image: seq<byte>)
    requires (f.width == 4 || f.width == 8) && f.End() <= |z| && d <= MODULUS
    ensures |image| == |z| && Patched(image, f, d) == z
  {
    image := Patched(z, f, MODULUS - d);
    PatchedBack(z, f, MODULUS - d);
  }

  /** An image and two moves on which overlapping slots go wrong. */
  lemma OverlapFails(f: Fixup, g: Fixup, size: nat) returns (image: seq<byte>, d: nat, e: nat)
    requires Fits([f, g], size) && f.End() <= size && g.End() <= size && !Independent(f, g)
    requires (f.width == 4 || f.width == 8) && (g.width == 4 || g.width == 8)
    ensures |image| == size && d < MODULUS && e < MODULUS
    ensures !ComposesAt(image, [f, g], d, e)
  {
    var z := Zeros(size);
    if f.End() < g.End() {
      e, d := OverlapDoesNotCommute(f, g, z);
    } else {
      d, e := OverlapDoesNotCommute(g, f, z);
    }
    image := MovedTo(z, f, d);
    PairFails(image, z, f, g, d, e);
  }

  /** Two fixups compose on every image exactly when their slots are disjoint or end together. */
  lemma PairComposesIff(f: Fixup, g: Fixup, size: nat)
    requires Fits([f, g], size)
    ensures PairComposes(f, g, size) <==> Independent(f, g)
  {
    assert [f, g][0] == f && [f, g][1] == g;
    if Independent(f, g) {
      forall image: seq<byte>, d: nat, e: nat | |image| == size
        ensures ComposesAt(image, [f, g], d, e)
      {
        RelocatedTwice(image, [f, g], d, e);
      }
    } else {
      var image, d, e := OverlapFails(f, g, size);
    }
  }

  // ---------------------------------------------------------------------------
  // In place
  // ---------------------------------------------------------------------------

  lemma {:induction false} Low64(x: nat)
    ensures Bytes(x % MODULUS, 8) == Bytes(x, 8)
  {
    assert Power(8) == MODULUS;
    BytesWrap(x % MODULUS, x / MODULUS, 8);
  }

  lemma {:induction false} Wrapped64(slot: seq<byte>, delta: nat)
    requires |slot| == 8
    ensures Bytes((Value(slot) + delta) % MODULUS, 8) == Add(slot, delta)
  {
    Low64(Value(slot) + delta);
  }

  lemma {:induction false} Low32(x: nat)
    ensures Bytes(x % 0x1_0000_0000, 4) == Bytes(x, 4)
  {
    assert Power(4) == 0x1_0000_0000;
    BytesWrap(x % 0x1_0000_0000, x / 0x1_0000_0000, 4);
  }

  lemma {:induction false} Wrapped32(slot: seq<byte>, delta: nat)
    requires |slot| == 4
    ensures Bytes((Value(slot) + delta % 0x1_0000_0000) % 0x1_0000_0000, 4) == Add(slot, delta)
  {
    var d, k := delta % 0x1_0000_0000, delta / 0x1_0000_0000;
    assert Power(4) == 0x1_0000_0000;
    Low32(Value(slot) + d);
    AddWrap(slot, d, k, k * 0x1_0000_0000);
  }

  /** One fixup: a wrapping 32-bit or 64-bit addition of the delta to the slot. */
  method Patch(image: array<byte>, f: Fixup, delta: nat)
    requires (f.width == 4 || f.width == 8) && f.End() <= image.Length && delta < MODULUS
    modifies image
    ensures image[..] == Patched(old(image[..]), f, delta)
  {
    var slot := image[f.rva..f.End()];
    assert Slot(image[..], f) == slot;
    var sum;
    if f.width == 8 {
      Wrapped64(slot, delta);
      sum := Bytes((Value(slot) + delta) % MODULUS, 8);
    } else {
      Wrapped32(slot, delta);
      sum := Bytes((Value(slot) + delta % 0x1_0000_0000) % 0x1_0000_0000, 4);
    }
    Overwrite(image, f.rva, sum);
  }

  /** An image part way through a directory, and the error that stopped it, if any. */
  datatype Progress = Progress(image: seq<byte>, error: Option<RelocError>)

  function RunEntry(image: seq<byte>, entry: nat, page: nat, size: nat, delta: nat): (r: Progress)
    requires size <= |image|
    ensures |r.image| == |image|
  {
    var plan := EntryPlan(entry, page, size);
    Progress(if |plan.fixups| == 0 then image else Patched(image, plan.fixups[0], delta), plan.error)
  }

  /** The next `count` entries, until one is refused. */
  function RunEntries(image: seq<byte>, dir: seq<byte>, at: nat, count: nat, page: nat, size: nat, delta: nat)
    : (r: Progress)
    requires size <= |image| && at + 2 * count <= |dir|
    ensures |r.image| == |image|
    decreases count
  {
    if count == 0 then Progress(image, None)
    else
      var next := RunEntry(image, Read(dir, at, 2), page, size, delta);
      if next.error.Some? then next else RunEntries(next.image, dir, at + 2, count - 1, page, size, delta)
  }

  function RunBlocks(image: seq<byte>, dir: seq<byte>, cursor: nat, size: nat, delta: nat): (r: Progress)
    requires size <= |image| && cursor <= |dir|
    ensures |r.image| == |image|
    decreases |dir| - cursor
  {
    if cursor == |dir| then Progress(image, None)
    else
      match ReadHeader(dir, cursor)
      case Refused(e) => Progress(image, Some(e))
      case Terminator => Progress(image, None)
      case Block(page, count, following) =>
        var next := RunEntries(image, dir, cursor + 8, count, page, size, delta);
        if next.error.Some? then next else RunBlocks(next.image, dir, following, size, delta)
  }

  /** `run` is what executing `plan` does to `image`. */
  ghost predicate Executes(run: Progress, image: seq<byte>, plan: Plan, delta: nat) {
    Fits(plan.fixups, |image|) && run == Progress(Relocated(image, plan.fixups, delta), plan.error)
  }

  lemma RunEntryRelocates(image: seq<byte>, entry: nat, page: nat, size: nat, delta: nat)
    requires size <= |image|
    ensures Executes(RunEntry(image, entry, page, size, delta), image, EntryPlan(entry, page, size), delta)
  {
    var fixups := EntryPlan(entry, page, size).fixups;
    if |fixups| != 0 {
      assert fixups[1..] == [];
      assert Relocated(image, fixups, delta) == Relocated(Patched(image, fixups[0], delta), [], delta);
    }
  }

  lemma ExecutesJoined(run: Progress, next: Progress, image: seq<byte>, first: Plan, rest: Plan, delta: nat)
    requires Executes(next, image, first, delta)
    requires first.error.Some? ==> run == next
    requires first.error.None? ==> Executes(run, next.image, rest, delta)
    ensures Executes(run, image, Joined(first, rest), delta)
  {
    if first.error.None? {
      RelocatedConcat(image, first.fixups, rest.fixups, delta);
    }
  }

  lemma {:induction false} RunEntriesRelocates(image: seq<byte>, dir: seq<byte>, at: nat, count: nat, page: nat,
                                               size: nat, delta: nat)
    requires size <= |image| && at + 2 * count <= |dir|
    ensures Executes(RunEntries(image, dir, at, count, page, size, delta), image,
                     Entries(dir, at, count, page, size), delta)
    decreases count
  {
    if count == 0 {
    } else {
      var entry := Read(dir, at, 2);
      var next := RunEntry(image, entry, page, size, delta);
      RunEntryRelocates(image, entry, page, size, delta);
      RunEntriesRelocates(next.image, dir, at + 2, count - 1, page, size, delta);
      ExecutesJoined(RunEntries(image, dir, at, count, page, size, delta), next, image,
                     EntryPlan(entry, page, size), Entries(dir, at + 2, count - 1, page, size), delta);
    }
  }

  /** Working through the directory applies exactly the fixups it names. */
  lemma {:induction false} RunBlocksRelocates(image: seq<byte>, dir: seq<byte>, cursor: nat, size: nat, delta: nat)
    requires size <= |image| && cursor <= |dir|
    ensures Executes(RunBlocks(image, dir, cursor, size, delta), image, Blocks(dir, cursor, size), delta)
    decreases |dir| - cursor
  {
    if cursor < |dir| && ReadHeader(dir, cursor).Block? {
      var h := ReadHeader(dir, cursor);
      var next := RunEntries(image, dir, cursor + 8, h.count, h.page, size, delta);
      RunEntriesRelocates(image, dir, cursor + 8, h.count, h.page, size, delta);
      RunBlocksRelocates(next.image, dir, h.next, size, delta);
      ExecutesJoined(RunBlocks(image, dir, cursor, size, delta), next, image,
                     Entries(dir, cursor + 8, h.count, h.page, size), Blocks(dir, h.next, size), delta);
    }
  }

  /** One directory entry. */
  method ApplyEntry(image: array<byte>, size: nat, entry: nat, page: nat, delta: nat)
    returns (error: Option<RelocError>)
    requires size <= image.Length && delta < MODULUS
    modifies image
    ensures Progress(image[..], error) == RunEntry(old(image[..]), entry, page, size, delta)
  {
    var kind, rva := entry / 0x1000, page + entry % 0x1000;
    error := None;
    if kind == 0 {
      // Padding.
    } else if kind == 10 {
      if rva + 8 > size { return Some(TargetOutOfBounds(8)); }
      Patch(image, Fixup(rva, 8), delta);
    } else if kind == 3 {
      if rva + 4 > size { return Some(TargetOutOfBounds(4)); }
      Patch(image, Fixup(rva, 4), delta);
    } else {
      return Some(UnsupportedType(kind));
    }
  }

  /** The entries of one block, until one is refused. */
  method ApplyEntries(image: array<byte>, size: nat, dir: seq<byte>, at: nat, count: nat, page: nat, delta: nat)
    returns (error: Option<RelocError>)
    requires size <= image.Length && delta < MODULUS && at + 2 * count <= |dir|
    modifies image
    ensures Progress(image[..], error) == RunEntries(old(image[..]), dir, at, count, page, size, delta)
  {
    ghost var goal := RunEntries(image[..], dir, at, count, page, size, delta);
    var i: nat := 0;
    while i < count
      invariant i <= count
      invariant goal == RunEntries(image[..], dir, at + 2 * i, count - i, page, size, delta)
    {
      error := ApplyEntry(image, size, Read(dir, at + 2 * i, 2), page, delta);
      if error.Some? { return; }
      i := i + 1;
    }
    error := None;
  }

  /** The block loop. */
  method ApplyBlocks(image: array<byte>, size: nat, delta: nat, dir: seq<byte>)
    returns (error: Option<RelocError>)
    requires size <= image.Length && delta < MODULUS
    modifies image
    ensures Progress(image[..], error) == RunBlocks(old(image[..]), dir, 0, size, delta)
  {
    ghost var goal := RunBlocks(image[..], dir, 0, size, delta);
    var cursor: nat := 0;
    while cursor < |dir|
      invariant cursor <= |dir|
      invariant goal == RunBlocks(image[..], dir, cursor, size, delta)
      decreases |dir| - cursor
    {
      var header := ReadHeader(dir, cursor);
      match header
      case Refused(e) =>
        return Some(e);
      case Terminator =>
        return None;
      case Block(page, count, next) =>
        error := ApplyEntries(image, size, dir, cursor + 8, count, page, delta);
        if error.Some? { return; }
        cursor := next;
    }
    error := None;
  }

  lemma PatchedPrefix(image: seq<byte>, f: Fixup, delta: nat, size: nat)
    requires f.End() <= size <= |image|
    ensures Patched(image, f, delta)[..size] == Patched(image[..size], f, delta)
    ensures Patched(image, f, delta)[size..] == image[size..]
  {
    var a, b := Patched(image, f, delta)[..size], Patched(image[..size], f, delta);
    assert Slot(image[..size], f) == Slot(image, f);
    assert Slot(a, f) == Slot(Patched(image, f, delta), f);
    SamePatch(a, b, f);
  }

  lemma {:induction false} RelocatedPrefix(image: seq<byte>, fixups: seq<Fixup>, delta: nat, size: nat)
    requires size <= |image| && Fits(fixups, size)
    ensures Relocated(image, fixups, delta)[..size] == Relocated(image[..size], fixups, delta)
    ensures Relocated(image, fixups, delta)[size..] == image[size..]
    decreases |fixups|
  {
    if |fixups| == 0 {
    } else {
      PatchedPrefix(image, fixups[0], delta, size);
      RelocatedPrefix(Patched(image, fixups[0], delta), fixups[1..], delta, size);
    }
  }

  /** Running the directory on a whole allocation moves its first `size` bytes and no others. */
  lemma RunRebases(image: seq<byte>, dir: seq<byte>, size: nat, preferred: nat, actual: nat)
    requires size <= |image| && Delta(preferred, actual) != 0
    ensures var run := RunBlocks(image, dir, 0, size, Delta(preferred, actual));
      && run.error == Blocks(dir, 0, size).error
      && run.image[..size] == Rebased(image[..size], dir, preferred, actual)
      && run.image[size..] == image[size..]
  {
    var delta := Delta(preferred, actual);
    RunBlocksRelocates(image, dir, 0, size, delta);
    BlocksFit(dir, 0, size);
    RelocatedPrefix(image, Blocks(dir, 0, size).fixups, delta, size);
  }

  /**
    `apply_relocations_to_slice` on the first `size` bytes of `image`. Whether it succeeds, and
    which slots it touches, depends on the directory, the size and the move, never on the image.
  */
  method ApplyRelocations(image: array<byte>, size: nat, preferred: nat, actual: nat, dir: seq<byte>)
    returns (error: Option<RelocError>)
    requires size <= image.Length && preferred < MODULUS && actual < MODULUS
    modifies image
    ensures error == if preferred == actual then None else Blocks(dir, 0, size).error
    ensures image[..size] == Rebased(old(image[..size]), dir, preferred, actual)
    ensures image[size..] == old(image[size..])
    ensures forall k: nat | IsAlone(Blocks(dir, 0, size).fixups, k) ::
      Follows(old(image[..size]), image[..size], Blocks(dir, 0, size).fixups[k], preferred, actual)
  {
    forall k: nat | IsAlone(Blocks(dir, 0, size).fixups, k)
      ensures Follows(image[..size], Rebased(image[..size], dir, preferred, actual),
                      Blocks(dir, 0, size).fixups[k], preferred, actual)
    {
      PointersFollow(image[..size], dir, preferred, actual, k);
    }
    var delta := Delta(preferred, actual);
    if delta == 0 {
      return None;
    }
    RunRebases(image[..], dir, size, preferred, actual);
    assert image[..][..size] == image[..size] && image[..][size..] == image[size..];
    error := ApplyBlocks(image, size, delta, dir);
    assert image[..][..size] == image[..size] && image[..][size..] == image[size..];
  }
}
