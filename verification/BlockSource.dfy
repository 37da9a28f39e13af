/**
  Byte-addressed reads over block devices and over files on them (`block_source.rs`). A source is a
  device or a file in pieces on another source; `FillAt` is proved to be plain slicing at every depth.
*/
module BlockSource {
  import opened Orders
  import opened LittleEndian

  const U64_MAX: nat := 0xFFFF_FFFF_FFFF_FFFF
  const I64_MAX: nat := 0x7FFF_FFFF_FFFF_FFFF

  type U64 = n: nat | n <= U64_MAX

  /** The block size is a 32-bit field of the media description. */
  type U32 = n: nat | n <= 0xFFFF_FFFF

  // ---------------------------------------------------------------------------
  // Alignment
  // ---------------------------------------------------------------------------

  /** Read `len` bytes from block `first` on; the wanted bytes start `intra` bytes in. */
  datatype Aligned = Aligned(first: nat, len: nat, intra: nat)

  /** `compute_aligned_read`, with every check it makes. */
  function AlignedRead(start: U64, len: nat, blockSize: U64): Option<Aligned> {
    if len == 0 || blockSize == 0 then None
    else
      var first := start / blockSize;
      if start + len > U64_MAX then None
      else
        var last := (start + len - 1) / blockSize;
        var bytes := (last - first + 1) * blockSize;
        if bytes > U64_MAX then None
        else
          var intra := start - first * blockSize;
          if intra + len > bytes then None else Some(Aligned(first, bytes, intra))
  }

  /** Euclidean division, by its defining inequality. */
  lemma Quotient(a: nat, b: nat)
    requires b > 0
    ensures a / b * b <= a < (a / b + 1) * b
  {
  }

  lemma TimesMonotone(a: nat, c: nat, b: nat)
    requires a <= c
    ensures a * b <= c * b
  {
    assert c * b == a * b + (c - a) * b;
  }

  lemma QuotientBelow(a: nat, b: nat, blocks: nat)
    requires b > 0
    ensures a / b < blocks <==> a < blocks * b
  {
    Quotient(a, b);
    if a / b < blocks {
      TimesMonotone(a / b + 1, blocks, b);
    } else {
      TimesMonotone(blocks, a / b, b);
    }
  }

  lemma QuotientMonotone(a: nat, c: nat, b: nat)
    requires b > 0 && a <= c
    ensures a / b <= c / b
  {
    Quotient(c, b);
    QuotientBelow(a, b, c / b + 1);
  }

  lemma TimesQuotient(n: nat, b: nat)
    requires b > 0
    ensures n * b / b == n
  {
    QuotientBelow(n * b, b, n);
    QuotientBelow(n * b, b, n + 1);
    assert (n + 1) * b == n * b + b;
  }

  /** The number of bytes in the blocks that a range touches. */
  function Span(start: nat, len: nat, blockSize: nat): nat
    requires len > 0 && blockSize > 0
  {
    ((start + len - 1) / blockSize + 1) * blockSize - start / blockSize * blockSize
  }

  lemma SpanCovers(start: nat, len: nat, blockSize: nat)
    requires len > 0 && blockSize > 0
    ensures var first, last := start / blockSize, (start + len - 1) / blockSize;
      && first <= last && (last - first + 1) * blockSize == Span(start, len, blockSize)
      && first * blockSize <= start && start - first * blockSize + len <= Span(start, len, blockSize)
      && Span(start, len, blockSize) <= len + 2 * blockSize - 2
  {
    var first, last := start / blockSize, (start + len - 1) / blockSize;
    Quotient(start, blockSize);
    Quotient(start + len - 1, blockSize);
    QuotientBelow(start, blockSize, last + 1);
    assert (last - first + 1) * blockSize == (last + 1) * blockSize - first * blockSize;
    assert (first + 1) * blockSize == first * blockSize + blockSize;
    assert (last + 1) * blockSize == last * blockSize + blockSize;
  }

  lemma SpanCount(start: nat, len: nat, blockSize: nat)
    requires len > 0 && blockSize > 0
    ensures start / blockSize + Span(start, len, blockSize) / blockSize - 1 == (start + len - 1) / blockSize
  {
    SpanCovers(start, len, blockSize);
    TimesQuotient((start + len - 1) / blockSize - start / blockSize + 1, blockSize);
  }

  /** The read fails only on an empty range or an overflow: its last check always passes. */
  lemma AlignedReadNone(start: U64, len: nat, blockSize: U64)
    ensures AlignedRead(start, len, blockSize).None? <==>
      len == 0 || blockSize == 0 || start + len > U64_MAX || Span(start, len, blockSize) > U64_MAX
  {
    if len > 0 && blockSize > 0 {
      SpanCovers(start, len, blockSize);
    }
  }

  /** It reads exactly the blocks that hold wanted bytes, none past the last, and finds the bytes. */
  lemma {:induction false} AlignedReadSome(start: U64, len: nat, blockSize: U64, blocks: nat)
    requires AlignedRead(start, len, blockSize).Some? && start + len <= blocks * blockSize
    ensures var a := AlignedRead(start, len, blockSize).value;
      && a.first == start / blockSize && a.len == Span(start, len, blockSize)
      && a.first * blockSize + a.intra == start && a.intra + len <= a.len
      && a.first * blockSize + a.len <= blocks * blockSize
  {
    SpanCovers(start, len, blockSize);
    var last := (start + len - 1) / blockSize;
    QuotientBelow(start + len - 1, blockSize, blocks);
    TimesMonotone(last + 1, blocks, blockSize);
  }

  // ---------------------------------------------------------------------------
  // Devices
  // ---------------------------------------------------------------------------

  /** A block device: blocks of data up to `lastBlock`, of which some cannot be read. */
  datatype Device = Device(data: seq<byte>, blockSize: U32, lastBlock: U64, faulty: set<nat>) {
    ghost predicate Valid() {
      blockSize > 0 && |data| == (lastBlock + 1) * blockSize
    }

    /** The blocks from `first` to `last` can all be read. */
    predicate BlocksOk(first: nat, last: nat) {
      forall b | first <= b <= last :: b !in faulty
    }

    function BlockOf(i: nat): nat
      requires blockSize > 0
    {
      i / blockSize
    }

    /** The block of the byte can be read. */
    predicate ByteOk(i: nat)
      requires blockSize > 0
    {
      BlockOf(i) !in faulty
    }

    /** Which bytes a source over the device can read. */
    ghost function GoodBytes(): (r: seq<bool>)
      requires blockSize > 0
      ensures |r| == Min(|data|, U64_MAX) && forall i | 0 <= i < |r| :: r[i] == ByteOk(i)
    {
      seq(Min(|data|, U64_MAX), i requires 0 <= i => ByteOk(i))
    }

    lemma BlockBetween(i: nat, j: nat, k: nat)
      requires blockSize > 0 && i <= j <= k
      ensures BlockOf(i) <= BlockOf(j) <= BlockOf(k)
    {
      QuotientMonotone(i, j, blockSize);
      QuotientMonotone(j, k, blockSize);
    }

    lemma BlocksOkGivesBytes(first: nat, last: nat, i: nat)
      requires blockSize > 0 && first <= i <= last && BlocksOk(BlockOf(first), BlockOf(last))
      ensures ByteOk(i)
    {
      BlockBetween(first, i, last);
    }

    /** Every block from the first to the last of a range holds one of its bytes. */
    lemma ByteOfBlock(first: nat, last: nat, b: nat) returns (i: nat)
      requires blockSize > 0 && first <= last && BlockOf(first) <= b <= BlockOf(last)
      ensures first <= i <= last && BlockOf(i) == b
    {
      if b == BlockOf(first) {
        i := first;
      } else {
        i := b * blockSize;
        TimesQuotient(b, blockSize);
        Quotient(first, blockSize);
        TimesMonotone(first / blockSize + 1, b, blockSize);
        Quotient(last, blockSize);
        TimesMonotone(b, last / blockSize, blockSize);
      }
    }

    lemma BadBlockSpoilsByte(first: nat, last: nat) returns (i: nat)
      requires blockSize > 0 && first <= last && !BlocksOk(BlockOf(first), BlockOf(last))
      ensures first <= i <= last && !ByteOk(i)
    {
      var b :| BlockOf(first) <= b <= BlockOf(last) && b in faulty;
      i := ByteOfBlock(first, last, b);
    }
  }

  /** The byte count a source reports: block count and product both saturate. */
  function MediaLen(lastBlock: nat, blockSize: nat): nat {
    Min(Min(lastBlock + 1, U64_MAX) * blockSize, U64_MAX)
  }

  /** The reported length is the true one exactly when that one fits in 64 bits. */
  lemma MediaLenExact(d: Device)
    requires d.Valid()
    ensures MediaLen(d.lastBlock, d.blockSize) == Min(|d.data|, U64_MAX)
    ensures MediaLen(d.lastBlock, d.blockSize) == |d.data| <==> |d.data| <= U64_MAX
  {
    if d.lastBlock == U64_MAX {
      TimesMonotone(1, d.blockSize, U64_MAX);
      TimesMonotone(1, d.blockSize, U64_MAX + 1);
    }
  }

  lemma BlocksInside(device: Device, end: nat)
    requires device.Valid() && end < |device.data|
    ensures (end / device.blockSize + 1) * device.blockSize <= |device.data|
  {
    QuotientBelow(end, device.blockSize, device.lastBlock + 1);
    TimesMonotone(end / device.blockSize + 1, device.lastBlock + 1, device.blockSize);
  }

  /** The device read that a range of bytes leads to. */
  lemma {:induction false} DeviceRead(device: Device, start: U64, want: nat)
    requires device.Valid() && 0 < want <= I64_MAX && start + want <= Min(|device.data|, U64_MAX)
    ensures AlignedRead(start, want, device.blockSize).Some?
    ensures var a := AlignedRead(start, want, device.blockSize).value;
      var count := a.len / device.blockSize;
      && count > 0 && a.len == count * device.blockSize
      && (a.first + count) * device.blockSize <= |device.data|
      && a.first * device.blockSize + a.intra == start && a.intra + want <= a.len
      && a.first == device.BlockOf(start) && a.first + count - 1 == device.BlockOf(start + want - 1)
  {
    AlignedReadNone(start, want, device.blockSize);
    SpanCovers(start, want, device.blockSize);
    SpanCount(start, want, device.blockSize);
    BlocksInside(device, start + want - 1);
    var a := AlignedRead(start, want, device.blockSize).value;
    assert a.first + a.len / device.blockSize - 1 == (start + want - 1) / device.blockSize;
  }

  lemma SliceOfSlice(s: seq<byte>, at: nat, len: nat, from: nat, n: nat)
    requires at + len <= |s| && from + n <= len
    ensures s[at..at + len][from..from + n] == s[at + from..at + from + n]
  {
    var a, b := s[at..at + len][from..from + n], s[at + from..at + from + n];
    assert forall i | 0 <= i < n :: a[i] == s[at + from + i] == b[i];
  }

  /** Whole blocks are read, all or nothing, from inside the device; the wanted bytes are cut out. */
  method ReadBlocks(device: Device, a: Aligned, want: nat) returns (r: Option<seq<byte>>)
    requires device.Valid() && a.intra + want <= a.len
    requires var count := a.len / device.blockSize;
      count > 0 && a.len == count * device.blockSize && (a.first + count) * device.blockSize <= |device.data|
    ensures var at := a.first * device.blockSize + a.intra;
      && at + want <= |device.data|
      && r == if device.BlocksOk(a.first, a.first + a.len / device.blockSize - 1) then
           Some(device.data[at..at + want])
         else None
  {
    var at, count := a.first * device.blockSize, a.len / device.blockSize;
    assert (a.first + count) * device.blockSize == at + a.len;
    if device.BlocksOk(a.first, a.first + count - 1) {
      var buf := device.data[at..at + a.len];
      SliceOfSlice(device.data, at, a.len, a.intra, want);
      r := Some(buf[a.intra..a.intra + want]);
    } else {
      r := None;
    }
  }

  // ---------------------------------------------------------------------------
  // Sources
  // ---------------------------------------------------------------------------

  datatype SeekFrom = Start(to: U64) | End(delta: int) | Current(delta: int)

  /** Where a seek leads, or `None` where the signed 64-bit arithmetic fails. */
  function Target(seek: SeekFrom, position: U64, len: U64): Option<U64> {
    match seek
    case Start(to) => Some(to)
    case End(delta) => if len > I64_MAX || !(0 <= len + delta <= I64_MAX) then None else Some(len + delta)
    case Current(delta) =>
      if position > I64_MAX || !(0 <= position + delta <= I64_MAX) then None else Some(position + delta)
  }

  /** A piece of a file on its holder. */
  datatype Extent = Extent(start: nat, len: nat)

  function Length(extents: seq<Extent>): nat {
    if |extents| == 0 then 0 else extents[0].len + Length(extents[1..])
  }

  ghost predicate Inside(extents: seq<Extent>, size: nat) {
    forall i | 0 <= i < |extents| :: extents[i].start + extents[i].len <= size
  }

  /** The pieces one after another. */
  function Gathered<T>(content: seq<T>, extents: seq<Extent>): (r: seq<T>)
    requires Inside(extents, |content|)
    ensures |r| == Length(extents)
  {
    if |extents| == 0 then []
    else content[extents[0].start..extents[0].start + extents[0].len] + Gathered(content, extents[1..])
  }

  /** Where on the holder byte `i` of the file lies, and how many of its bytes follow in that piece. */
  datatype Place = Place(at: nat, run: nat)

  function Locate(extents: seq<Extent>, i: nat): (p: Place)
    requires i < Length(extents)
    ensures 0 < p.run && i + p.run <= Length(extents)
  {
    if i < extents[0].len then Place(extents[0].start + i, extents[0].len - i)
    else Locate(extents[1..], i - extents[0].len)
  }

  lemma {:induction false} LocateInside(extents: seq<Extent>, i: nat, size: nat)
    requires i < Length(extents) && Inside(extents, size)
    ensures var p := Locate(extents, i); p.at + p.run <= size
  {
    if i < extents[0].len {
    } else {
      LocateInside(extents[1..], i - extents[0].len, size);
    }
  }

  /** Inside a piece the places follow each other. */
  lemma {:induction false} LocateNext(extents: seq<Extent>, i: nat, j: nat)
    requires i < Length(extents) && j < Locate(extents, i).run
    ensures Locate(extents, i + j).at == Locate(extents, i).at + j
  {
    if i < extents[0].len {
    } else {
      LocateNext(extents[1..], i - extents[0].len, j);
      assert i + j - extents[0].len == i - extents[0].len + j;
    }
  }

  lemma {:induction false} GatheredAt<T>(content: seq<T>, extents: seq<Extent>, i: nat)
    requires Inside(extents, |content|) && i < Length(extents)
    ensures Locate(extents, i).at < |content| && Gathered(content, extents)[i] == content[Locate(extents, i).at]
  {
    if i < extents[0].len {
    } else {
      GatheredAt(content, extents[1..], i - extents[0].len);
    }
  }

  /** A run of the file is a slice of the holder. */
  lemma {:induction false} GatheredRun<T>(content: seq<T>, extents: seq<Extent>, i: nat, n: nat)
    requires Inside(extents, |content|) && i < Length(extents) && n <= Locate(extents, i).run
    ensures var at := Locate(extents, i).at;
      at + n <= |content| && Gathered(content, extents)[i..i + n] == content[at..at + n]
  {
    var at := Locate(extents, i).at;
    LocateInside(extents, i, |content|);
    var a, b := Gathered(content, extents)[i..i + n], content[at..at + n];
    forall j | 0 <= j < n
      ensures a[j] == b[j]
    {
      LocateNext(extents, i, j);
      GatheredAt(content, extents, i + j);
    }
  }

  /** Pieces follow each other as they are listed. */
  lemma {:induction false} PiecesInOrder<T>(content: seq<T>, a: seq<Extent>, b: seq<Extent>)
    requires Inside(a, |content|) && Inside(b, |content|) && Inside(a + b, |content|)
    ensures Gathered(content, a + b) == Gathered(content, a) + Gathered(content, b)
    decreases |a|
  {
    if |a| == 0 {
      assert a + b == b;
    } else {
      assert (a + b)[1..] == a[1..] + b;
      PiecesInOrder(content, a[1..], b);
    }
  }

  /** A file in one piece is a slice of its holder. */
  lemma OnePiece<T>(content: seq<T>, e: Extent)
    requires e.start + e.len <= |content|
    ensures Gathered(content, [e]) == content[e.start..e.start + e.len]
  {
    assert [e][1..] == [];
  }

  /**
    What lies under a source: a device, or a file in pieces on the source below it. A holder
    that `answers` gives every read before the end of the file at least one byte.
  */
  datatype Layer = Raw(device: Device) | File(holder: Source, extents: seq<Extent>, answers: bool)

  /** The range lies in the source, and all its bytes can be read. */
  ghost predicate Available(good: seq<bool>, start: nat, len: nat)
    decreases len
  {
    start + len <= |good| && (len == 0 || (good[start] && Available(good, start + 1, len - 1)))
  }

  lemma {:induction false} AvailableAt(good: seq<bool>, start: nat, len: nat)
    ensures Available(good, start, len) <==>
      start + len <= |good| && forall i | start <= i < start + len :: good[i]
    decreases len
  {
    if len == 0 {
    } else {
      AvailableAt(good, start + 1, len - 1);
    }
  }

  lemma {:induction false} AvailableConcat(good: seq<bool>, start: nat, n: nat, m: nat)
    ensures Available(good, start, n + m) <==> Available(good, start, n) && Available(good, start + n, m)
    decreases n
  {
    if n == 0 {
    } else {
      AvailableConcat(good, start + 1, n - 1, m);
      assert start + 1 + (n - 1) == start + n;
    }
  }

  lemma {:induction false} AvailableSlice(good: seq<bool>, other: seq<bool>, start: nat, at: nat, n: nat)
    requires start + n <= |good| && at + n <= |other| && good[start..start + n] == other[at..at + n]
    ensures Available(good, start, n) <==> Available(other, at, n)
    decreases n
  {
    if n == 0 {
    } else {
      assert good[start] == good[start..start + n][0] && other[at] == other[at..at + n][0];
      assert good[start + 1..start + n] == good[start..start + n][1..];
      assert other[at + 1..at + n] == other[at..at + n][1..];
      AvailableSlice(good, other, start + 1, at + 1, n - 1);
    }
  }

  /** The number of bytes, or the error, that a read at `start` with so much room can give. */
  ghost predicate CanRead(good: seq<bool>, patient: bool, start: nat, room: nat, r: Option<nat>) {
    var want := Min(room, SaturatingSub(|good|, start));
    match r
    case None => want > 0 && (patient ==> !Available(good, start, want))
    case Some(n) => n <= want && (want > 0 && patient ==> n > 0) && (n > 0 ==> Available(good, start, n))
  }

  /** The first bytes of `buf` are those of the content from `offset` on. */
  ghost predicate FilledTo(content: seq<byte>, good: seq<bool>, offset: nat, buf: seq<byte>, filled: nat) {
    && filled <= |buf| && Available(good, offset, filled) && offset + filled <= |content|
    && buf[..filled] == content[offset..offset + filled]
  }

  /** A run of the file is a slice of the holder, and available as that is. */
  lemma {:induction false} HeldRun(content: seq<byte>, good: seq<bool>, extents: seq<Extent>,
                                   start: nat, n: nat, want: nat)
    requires Inside(extents, |content|) && |good| == |content| && 0 < want && start + want <= Length(extents)
    requires n <= want && n <= Locate(extents, start).run
    ensures var at := Locate(extents, start).at;
      && at + n <= |content| && content[at..at + n] == Gathered(content, extents)[start..start + n]
      && (Available(Gathered(good, extents), start, want) ==> Available(good, at, n))
      && (Available(good, at, n) ==> Available(Gathered(good, extents), start, n))
  {
    GatheredRun(content, extents, start, n);
    GatheredRun(good, extents, start, n);
    AvailableSlice(Gathered(good, extents), good, start, Locate(extents, start).at, n);
    AvailableConcat(Gathered(good, extents), start, n, want - n);
  }

  lemma {:induction false} OverwrittenPrefix(buf: seq<byte>, from: nat, content: seq<byte>, offset: nat, n: nat)
    requires from + n <= |buf| && offset + from + n <= |content| && buf[..from] == content[offset..offset + from]
    ensures Overwritten(buf, from, content[offset + from..offset + from + n])[..from + n]
      == content[offset..offset + from + n]
  {
    var r := Overwritten(buf, from, content[offset + from..offset + from + n]);
    assert r[..from] == buf[..from];
    assert r[..from + n] == r[..from] + r[from..from + n];
    assert content[offset..offset + from + n]
      == content[offset..offset + from] + content[offset + from..offset + from + n];
  }

  /** `r` bytes were read from `start` on into `after`, which was `before`. */
  ghost predicate IsRead(content: seq<byte>, before: seq<byte>, from: nat, start: nat,
                         r: Option<nat>, after: seq<byte>) {
    |after| == |before| &&
    (r.Some? && r.value > 0 ==>
       && from + r.value <= |before| && start + r.value <= |content|
       && after == Overwritten(before, from, content[start..start + r.value]))
  }

  /** One read brings the loop forward, or shows that the range is not available. */
  lemma {:induction false} Progress(content: seq<byte>, good: seq<bool>, patient: bool, offset: nat,
                                    before: seq<byte>, filled: nat, r: Option<nat>, after: seq<byte>)
    requires |content| == |good| && filled < |before|
    requires filled > 0 ==> FilledTo(content, good, offset, before, filled)
    requires CanRead(good, patient, offset + filled, |before| - filled, r)
    requires IsRead(content, before, filled, offset + filled, r, after)
    ensures r.Some? && r.value > 0 ==> FilledTo(content, good, offset, after, filled + r.value)
    ensures (r.None? || r.value == 0) && patient ==> !Available(good, offset, |before|)
  {
    if r.Some? && r.value > 0 {
      OverwrittenPrefix(before, filled, content, offset, r.value);
      AvailableConcat(good, offset, filled, r.value);
    } else if offset + |before| <= |good| {
      AvailableConcat(good, offset, filled, |before| - filled);
    }
  }

  class Source {
    const layer: Layer
    /** How deep the source is nested. */
    ghost const height: nat
    /** The source and everything below it. */
    ghost const repr: set<Source>
    var position: U64
    /** The bytes, and which of them can be read from the device at the bottom. */
    ghost const content: seq<byte>
    ghost const good: seq<bool>
    /** No holder below answers with nothing before the end. */
    ghost const patient: bool

    /** The rest is said of any layer equal to this one, so that proofs unfold it only where they ask. */
    ghost predicate Valid()
      decreases height, 1
    {
      this in repr && |good| == |content| <= U64_MAX && forall l | l == layer :: SitsOn(l)
    }

    ghost predicate SitsOn(l: Layer)
      decreases height, 0
    {
      match l
      case Raw(device) =>
        device.Valid() && patient && content == device.data[..Min(|device.data|, U64_MAX)] && good == device.GoodBytes()
      case File(holder, extents, answers) =>
        && holder.height < height && holder.repr < repr && this !in holder.repr && holder.Valid()
        && Inside(extents, |holder.content|) && patient == (answers && holder.patient)
        && content == Gathered(holder.content, extents) && good == Gathered(holder.good, extents)
    }

    /** The device at the bottom, and where byte `i` lies on it. */
    ghost function Bottom(): Device
      requires Valid()
      decreases height
    {
      assert SitsOn(layer);
      match layer
      case Raw(device) => device
      case File(holder, _, _) => holder.Bottom()
    }

    ghost function Site(i: nat): nat
      requires Valid() && i < |content|
      decreases height
    {
      assert SitsOn(layer);
      match layer
      case Raw(_) => i
      case File(holder, extents, _) =>
        LocateInside(extents, i, |holder.content|);
        holder.Site(Locate(extents, i).at)
    }

    /** However deeply files are nested, each byte is one byte of the device, readable as that is. */
    lemma {:induction false} ByteIsOnDevice(i: nat)
      requires Valid() && i < |content|
      ensures Bottom().Valid() && Site(i) < |Bottom().data|
      ensures content[i] == Bottom().data[Site(i)] && good[i] == Bottom().ByteOk(Site(i))
      decreases height
    {
      assert SitsOn(layer);
      match layer
      case Raw(_) =>
      case File(holder, extents, _) =>
        LocateInside(extents, i, |holder.content|);
        assert holder.Valid();
        GatheredAt(holder.content, extents, i);
        GatheredAt(holder.good, extents, i);
        holder.ByteIsOnDevice(Locate(extents, i).at);
    }

    constructor OnDevice(device: Device)
      requires device.Valid()
      ensures Valid() && fresh(repr) && layer == Raw(device) && position == 0
    {
      layer, position, height, repr := Raw(device), 0, 0, {this};
      content, good, patient := device.data[..Min(|device.data|, U64_MAX)], device.GoodBytes(), true;
    }

    constructor OnFile(holder: Source, extents: seq<Extent>, answers: bool)
      requires holder.Valid() && Inside(extents, |holder.content|) && Length(extents) <= U64_MAX
      ensures Valid() && fresh(repr - holder.repr) && layer == File(holder, extents, answers) && position == 0
    {
      layer, position := File(holder, extents, answers), 0;
      height, repr := holder.height + 1, holder.repr + {this};
      content, good := Gathered(holder.content, extents), Gathered(holder.good, extents);
      patient := answers && holder.patient;
    }

    /** A device that reports blocks of no size is refused. */
    static method FromBlockIo(device: Device) returns (r: Option<Source>)
      requires |device.data| == (device.lastBlock + 1) * device.blockSize
      ensures r.None? <==> device.blockSize == 0
      ensures r.Some? ==> r.value.Valid() && fresh(r.value.repr) && r.value.layer == Raw(device)
    {
      if device.blockSize == 0 {
        return None;
      }
      var source := new Source.OnDevice(device);
      r := Some(source);
    }

    method ByteLen() returns (n: U64)
      requires Valid()
      ensures n == |content|
    {
      assert SitsOn(layer);
      match layer
      case Raw(device) =>
        MediaLenExact(device);
        n := MediaLen(device.lastBlock, device.blockSize);
      case File(_, extents, _) =>
        n := Length(extents);
    }

    method Seek(seek: SeekFrom) returns (r: Option<U64>)
      requires Valid()
      modifies this
      ensures r == Target(seek, old(position), |content|)
      ensures position == if r.Some? then r.value else old(position)
      ensures r.Some? ==>
        match seek
        case Start(to) => position == to
        case End(delta) => position - |content| == delta
        case Current(delta) => position - old(position) == delta
    {
      var len := ByteLen();
      r := Target(seek, position, len);
      if r.Some? {
        position := r.value;
      }
    }

    /** A range of a device can be read exactly when its blocks can. */
    lemma AvailableBlocks(start: nat, len: nat)
      requires Valid() && layer.Raw? && SitsOn(layer) && 0 < len && start + len <= |content|
      ensures Available(good, start, len) <==>
        layer.device.BlocksOk(layer.device.BlockOf(start), layer.device.BlockOf(start + len - 1))
    {
      var device, last := layer.device, start + len - 1;
      AvailableAt(good, start, len);
      if device.BlocksOk(device.BlockOf(start), device.BlockOf(last)) {
        forall i | start <= i < start + len
          ensures good[i]
        {
          device.BlocksOkGivesBytes(start, last, i);
        }
      } else {
        var i := device.BadBlockSpoilsByte(start, last);
        assert !good[i];
      }
    }

    method AskDevice(want: nat) returns (r: Option<seq<byte>>)
      requires Valid() && layer.Raw? && 0 < want <= I64_MAX && position + want <= |content|
      ensures r == if Available(good, position, want) then Some(content[position..position + want]) else None
    {
      assert SitsOn(layer);
      var device := layer.device;
      var aligned := AlignedRead(position, want, device.blockSize);
      DeviceRead(device, position, want);
      AvailableBlocks(position, want);
      SliceOfSlice(device.data, 0, |content|, position, want);
      r := ReadBlocks(device, aligned.value, want);
    }

    /** Hands bytes over and moves past them. */
    method Deliver(data: seq<byte>, buf: array<byte>, from: nat)
      requires position + |data| <= U64_MAX && from + |data| <= buf.Length
      modifies this, buf
      ensures position == old(position) + |data| && buf[..] == Overwritten(old(buf[..]), from, data)
      ensures data == [] ==> buf[..] == old(buf[..])
    {
      Overwrite(buf, from, data);
      position := position + |data|;
    }

    /** Reads the aligned blocks around the wanted bytes and copies the bytes out. */
    method ReadDevice(want: nat, buf: array<byte>, from: nat) returns (r: Option<nat>)
      requires Valid() && layer.Raw? && 0 < want <= I64_MAX
      requires position + want <= |content| && from + want <= buf.Length
      modifies this, buf
      ensures r == if Available(good, old(position), want) then Some(want) else None
      ensures position == if r.Some? then old(position) + want else old(position)
      ensures r.Some? ==>
        buf[..] == Overwritten(old(buf[..]), from, content[old(position)..old(position) + want])
    {
      var wanted := AskDevice(want);
      if wanted.None? {
        return None;
      }
      Deliver(wanted.value, buf, from);
      r := Some(want);
    }

    /**
      Reads into `buf` from `from` on, at most as many bytes as are left: a device reads them all, a
      file any number of them. A patient source reads nothing only at the end or into no room.
    */
    method Read(buf: array<byte>, from: nat) returns (r: Option<nat>)
      requires Valid() && from <= buf.Length <= I64_MAX
      modifies repr, buf
      ensures CanRead(good, patient, old(position), buf.Length - from, r)
      ensures position == old(position) + if r.Some? then r.value else 0
      ensures IsRead(content, old(buf[..]), from, old(position), r, buf[..])
      ensures r == Some(0) ==> buf[..] == old(buf[..])
      decreases height, 0
    {
      if from == buf.Length {
        return Some(0);
      }
      var len := ByteLen();
      var remaining := SaturatingSub(len, position);
      if remaining == 0 {
        return Some(0);
      }
      var want := Min(buf.Length - from, remaining);
      match layer
      case Raw(_) =>
        r := ReadDevice(want, buf, from);
      case File(_, _, _) =>
        r := ReadHeld(want, buf, from);
    }

    /** Asks the holder for bytes of the piece that holds the next one; it may return fewer, or none. */
    method ReadHeld(want: nat, buf: array<byte>, from: nat) returns (r: Option<nat>)
      requires Valid() && layer.File? && 0 < want <= I64_MAX
      requires position + want <= |content| && from + want <= buf.Length
      modifies repr, buf
      ensures r.None? ==> position == old(position) && (patient ==> !Available(good, old(position), want))
      ensures r.Some? ==>
        var n := r.value;
        && n <= want && (patient ==> n > 0) && position == old(position) + n
        && Available(good, old(position), n)
        && buf[..] == Overwritten(old(buf[..]), from, content[old(position)..old(position) + n])
        && (n == 0 ==> buf[..] == old(buf[..]))
      decreases height, 0, 1
    {
      assert SitsOn(layer);
      var got := AskHolder(want);
      if got.Some? {
        Deliver(got.value, buf, from);
        r := Some(|got.value|);
      } else {
        r := None;
      }
    }

    /** `read_at` of the holding backend: some bytes of the piece that holds the next one, or an error. */
    method AskHolder(want: nat) returns (r: Option<seq<byte>>)
      requires Valid() && layer.File? && SitsOn(layer) && 0 < want <= I64_MAX && position + want <= |content|
      modifies layer.holder.repr
      ensures r.Some? ==>
        && |r.value| <= want && (patient ==> |r.value| > 0)
        && r.value == content[position..position + |r.value|] && Available(good, position, |r.value|)
      ensures r.None? && patient ==> !Available(good, position, want)
      decreases height, 0, 0
    {
      assert layer.holder.Valid();
      var place := Locate(layer.extents, position);
      var most := Min(want, place.run);
      assert 0 < most;
      var n: nat :| (layer.answers ==> n > 0) && n <= most;
      HeldRun(layer.holder.content, layer.holder.good, layer.extents, position, n, want);
      var got := new byte[n];
      var ok := layer.holder.FillAt(place.at, got);
      r := if ok then Some(got[..]) else None;
    }

    /** Seeks and reads until `buf` is full, an error or nothing comes. */
    method FillAt(offset: U64, buf: array<byte>) returns (ok: bool)
      requires Valid() && buf.Length <= I64_MAX
      modifies repr, buf
      ensures ok ==> buf.Length == 0 || Available(good, offset, buf.Length)
      ensures patient && (buf.Length == 0 || Available(good, offset, buf.Length)) ==> ok
      ensures ok && buf.Length > 0 ==> buf[..] == content[offset..offset + buf.Length]
      decreases height, 2
    {
      if buf.Length == 0 {
        return true;
      }
      var at := Seek(Start(offset));
      var filled: nat := 0;
      while filled < buf.Length
        invariant filled <= buf.Length && position == offset + filled
        invariant filled > 0 ==> FilledTo(content, good, offset, buf[..], filled)
      {
        var n := FillMore(offset, buf, filled);
        if n == 0 {
          return false;
        }
        filled := filled + n;
      }
      assert buf[..][..buf.Length] == buf[..];
      ok := true;
    }

    /** One read of the loop; nothing comes of it at an error too. */
    method FillMore(offset: U64, buf: array<byte>, filled: nat) returns (n: nat)
      requires Valid() && filled < buf.Length <= I64_MAX && position == offset + filled
      requires filled > 0 ==> FilledTo(content, good, offset, buf[..], filled)
      modifies repr, buf
      ensures n == 0 && patient ==> !Available(good, offset, buf.Length)
      ensures n > 0 ==> position == offset + filled + n && FilledTo(content, good, offset, buf[..], filled + n)
      decreases height, 1
    {
      ghost var before := buf[..];
      assert |before| == buf.Length && |content| == |good|;
      var r := Read(buf, filled);
      assert CanRead(good, patient, offset + filled, |before| - filled, r);
      Progress(content, good, patient, offset, before, filled, r, buf[..]);
      n := if r.Some? then r.value else 0;
    }
  }
}
