/**
  The native PE/COFF loader (`parse_headers_with_diag` and `validate_headers` in
  `pe_loader_pure.rs`, `load_pe` in `pe_loader.rs`): headers are read and validated, the allocation
  is zero-filled, sections are copied in table order, and the image is moved to its actual base.
*/
module PeLoader {
  import opened Orders
  import opened LittleEndian
  import opened Relocation

  const MAX_IMAGE_SIZE: nat := 256 * 1024 * 1024
  const MAX_SECTIONS: nat := 256
  const PE32_PLUS_MAGIC: nat := 0x20B
  const PE32_MAGIC: nat := 0x10B
  const PAGE: nat := 4096

  datatype PeError =
    | TooShort | BadDosSignature | NtOffsetOutOfBounds | BadNtSignature
    | UnsupportedMachine | UnsupportedPe32 | BadOptionalHeaderMagic | UnsupportedSubsystem
    | ImageTooLarge | TooManySections | HasImports | HasTlsCallbacks
    | SectionVirtualRange(index: nat) | SectionRawRange(index: nat)
    | RelocationMalformed(detail: RelocError) | RelocationOutsideImage
    | EntryPointOutOfBounds | ParseFailed

  datatype Result<+T> = Ok(value: T) | Err(error: PeError) {
    predicate IsFailure() { Err? }
    function PropagateFailure<U>(): Result<U> requires Err? { Err(error) }
    function Extract(): T requires Ok? { value }
  }

  datatype DataDir = DataDir(rva: nat, size: nat)

  /** Where a section's bytes come from and where they go. */
  datatype Section = Section(virtAddr: nat, virtSize: nat, rawOffset: nat, copyLen: nat, executable: bool) {
    predicate Covers(rva: nat) { virtAddr <= rva < virtAddr + copyLen }
    predicate Spans(rva: nat) { virtAddr <= rva < virtAddr + virtSize }
  }

  datatype Header = Header(
    machine: nat, numSections: nat, optMagic: nat, sectionTable: nat,
    entryRva: nat, preferredBase: nat, sizeOfImage: nat, subsystem: nat,
    relocDir: Option<DataDir>, importSize: nat, tlsSize: nat)

  datatype Summary = Summary(header: Header, sections: seq<Section>, entryInExecutable: bool)

  // ---------------------------------------------------------------------------
  // Headers
  // ---------------------------------------------------------------------------

  /** A bounds-checked little-endian read. */
  function Field(bytes: seq<byte>, offset: nat, width: nat): Result<nat> {
    if offset + width <= |bytes| then Ok(Read(bytes, offset, width)) else Err(ParseFailed)
  }

  /** `read_data_dir`: absent when past the declared count, out of bounds, or all zero. */
  function ReadDataDir(bytes: seq<byte>, start: nat, count: nat, index: nat): Option<DataDir> {
    if index >= count || start + index * 8 + 8 > |bytes| then None
    else
      var rva, size := Read(bytes, start + index * 8, 4), Read(bytes, start + index * 8 + 4, 4);
      if rva == 0 && size == 0 then None else Some(DataDir(rva, size))
  }

  function SizeOf(dir: Option<DataDir>): nat {
    if dir.Some? then dir.value.size else 0
  }

  /** The fixed headers, up to and including the check that the section table fits. */
  function ReadHeaders(bytes: seq<byte>): (r: Result<Header>)
    ensures r.Ok? && r.value.optMagic == PE32_PLUS_MAGIC ==>
      r.value.numSections <= MAX_SECTIONS && r.value.sectionTable + 40 * r.value.numSections <= |bytes|
  {
    if |bytes| < 64 then Err(TooShort)
    else if bytes[0] != 0x4D || bytes[1] != 0x5A then Err(BadDosSignature)
    else
      var nt := Read(bytes, 0x3C, 4);
      if nt + 4 > |bytes| then Err(NtOffsetOutOfBounds)
      else if bytes[nt..nt + 4] != [0x50, 0x45, 0, 0] then Err(BadNtSignature)
      else
        var machine :- Field(bytes, nt + 4, 2);
        var numSections :- Field(bytes, nt + 6, 2);
        var optSize :- Field(bytes, nt + 20, 2);
        var opt := nt + 24;
        var magic :- Field(bytes, opt, 2);
        if magic != PE32_PLUS_MAGIC then
          Ok(Header(machine, numSections, magic, 0, 0, 0, 0, 0, None, 0, 0))
        else
          var entry :- Field(bytes, opt + 0x10, 4);
          var base :- Field(bytes, opt + 0x18, 8);
          var size :- Field(bytes, opt + 0x38, 4);
          var subsystem :- Field(bytes, opt + 0x44, 2);
          var dirs :- Field(bytes, opt + 0x6C, 4);
          var imports := SizeOf(ReadDataDir(bytes, opt + 0x70, dirs, 1));
          var relocs := ReadDataDir(bytes, opt + 0x70, dirs, 5);
          var tls := SizeOf(ReadDataDir(bytes, opt + 0x70, dirs, 9));
          if numSections > MAX_SECTIONS then Err(TooManySections)
          else if opt + optSize + numSections * 40 > |bytes| then Err(ParseFailed)
          else
            Ok(Header(machine, numSections, magic, opt + optSize, entry, base, size, subsystem, relocs, imports, tls))
  }

  /** The section described by a 40-byte table row. */
  function SectionAt(bytes: seq<byte>, row: nat): Section
    requires row + 40 <= |bytes|
  {
    var virtSize, rawSize := Read(bytes, row + 8, 4), Read(bytes, row + 16, 4);
    Section(Read(bytes, row + 12, 4), virtSize, Read(bytes, row + 20, 4), Min(rawSize, virtSize),
            (Read(bytes, row + 36, 4) / 0x2000_0000) % 2 == 1)
  }

  /** Some executable section spans the entry point. */
  predicate EntryIsExecutable(sections: seq<Section>, entry: nat) {
    exists i | 0 <= i < |sections| :: sections[i].executable && sections[i].Spans(entry)
  }

  function SectionTable(bytes: seq<byte>, start: nat, count: nat): (t: seq<Section>)
    requires start + 40 * count <= |bytes|
    ensures |t| == count
  {
    seq(count, i requires 0 <= i < count => SectionAt(bytes, start + 40 * i))
  }

  /** What the headers and the section table say. */
  function Summarize(bytes: seq<byte>): Result<Summary> {
    var h :- ReadHeaders(bytes);
    if h.optMagic != PE32_PLUS_MAGIC then Ok(Summary(h, [], false))
    else
      var sections := SectionTable(bytes, h.sectionTable, h.numSections);
      Ok(Summary(h, sections, EntryIsExecutable(sections, h.entryRva)))
  }

  /** The section loop: collects the table and notices the section of the entry point. */
  method ReadSections(bytes: seq<byte>, start: nat, count: nat, entry: nat)
    returns (sections: seq<Section>, executable: bool)
    requires start + 40 * count <= |bytes|
    ensures sections == SectionTable(bytes, start, count)
    ensures executable == EntryIsExecutable(sections, entry)
  {
    sections, executable := [], false;
    var i: nat := 0;
    while i < count
      invariant i <= count && sections == SectionTable(bytes, start, i)
      invariant executable == EntryIsExecutable(sections, entry)
    {
      var section := SectionAt(bytes, start + 40 * i);
      ghost var before := sections;
      sections := sections + [section];
      if section.executable && section.virtAddr <= entry < section.virtAddr + section.virtSize {
        executable := true;
      }
      assert sections[i] == section && forall k | 0 <= k < i :: sections[k] == before[k];
      i := i + 1;
    }
  }

  /** `parse_headers_with_diag`. */
  method ParseHeaders(bytes: seq<byte>) returns (r: Result<Summary>)
    ensures r == Summarize(bytes)
  {
    var headers := ReadHeaders(bytes);
    if headers.Err? {
      return Err(headers.error);
    }
    var h := headers.value;
    if h.optMagic != PE32_PLUS_MAGIC {
      return Ok(Summary(h, [], false));
    }
    var sections, executable := ReadSections(bytes, h.sectionTable, h.numSections, h.entryRva);
    return Ok(Summary(h, sections, executable));
  }

  // ---------------------------------------------------------------------------
  // Validation
  // ---------------------------------------------------------------------------

  /** The section stays inside the image and its raw bytes inside the input. */
  predicate InBounds(section: Section, sizeOfImage: nat, length: nat) {
    && section.virtAddr + section.virtSize <= sizeOfImage
    && (section.copyLen > 0 ==> section.rawOffset + section.copyLen <= length)
  }

  predicate AllInBounds(sections: seq<Section>, sizeOfImage: nat, length: nat) {
    forall i | 0 <= i < |sections| :: InBounds(sections[i], sizeOfImage, length)
  }

  predicate Acceptable(s: Summary, length: nat, machine: nat) {
    && s.header.machine == machine
    && s.header.optMagic == PE32_PLUS_MAGIC
    && 10 <= s.header.subsystem <= 12
    && s.header.sizeOfImage <= MAX_IMAGE_SIZE
    && s.header.importSize == 0 && s.header.tlsSize == 0
    && AllInBounds(s.sections, s.header.sizeOfImage, length)
    && s.header.entryRva < s.header.sizeOfImage && s.entryInExecutable
  }

  /** `validate_headers`: refuses with the first violated constraint. */
  method ValidateHeaders(s: Summary, length: nat, machine: nat) returns (error: Option<PeError>)
    ensures error.None? <==> Acceptable(s, length, machine)
    ensures error.Some? && (error.value.SectionVirtualRange? || error.value.SectionRawRange?) ==>
      var i := error.value.index;
      && i < |s.sections| && !InBounds(s.sections[i], s.header.sizeOfImage, length)
      && AllInBounds(s.sections[..i], s.header.sizeOfImage, length)
  {
    var h := s.header;
    if h.machine != machine { return Some(UnsupportedMachine); }
    if h.optMagic == PE32_MAGIC { return Some(UnsupportedPe32); }
    if h.optMagic != PE32_PLUS_MAGIC { return Some(BadOptionalHeaderMagic); }
    if h.subsystem != 10 && h.subsystem != 11 && h.subsystem != 12 { return Some(UnsupportedSubsystem); }
    if h.sizeOfImage > MAX_IMAGE_SIZE { return Some(ImageTooLarge); }
    if h.importSize != 0 { return Some(HasImports); }
    if h.tlsSize != 0 { return Some(HasTlsCallbacks); }
    var i: nat := 0;
    while i < |s.sections|
      invariant i <= |s.sections| && AllInBounds(s.sections[..i], h.sizeOfImage, length)
    {
      var section := s.sections[i];
      if section.virtAddr + section.virtSize > h.sizeOfImage { return Some(SectionVirtualRange(i)); }
      if section.copyLen > 0 && section.rawOffset + section.copyLen > length { return Some(SectionRawRange(i)); }
      i := i + 1;
    }
    if h.entryRva >= h.sizeOfImage { return Some(EntryPointOutOfBounds); }
    if !s.entryInExecutable { return Some(EntryPointOutOfBounds); }
    return None;
  }

  // ---------------------------------------------------------------------------
  // Layout
  // ---------------------------------------------------------------------------

  predicate SourcesExist(sections: seq<Section>, length: nat) {
    forall i | 0 <= i < |sections| ::
      sections[i].copyLen > 0 ==> sections[i].rawOffset + sections[i].copyLen <= length
  }

  /** The byte at `rva`: from the last section that covers it, or zero. */
  function ByteAt(bytes: seq<byte>, sections: seq<Section>, rva: nat): byte
    requires SourcesExist(sections, |bytes|)
  {
    if |sections| == 0 then 0
    else
      var last := sections[|sections| - 1];
      if last.Covers(rva) then bytes[last.rawOffset + rva - last.virtAddr]
      else ByteAt(bytes, sections[..|sections| - 1], rva)
  }

  function LaidOut(bytes: seq<byte>, sections: seq<Section>, n: nat): (r: seq<byte>)
    requires SourcesExist(sections, |bytes|)
    ensures |r| == n
  {
    seq(n, rva requires 0 <= rva < n => ByteAt(bytes, sections, rva))
  }

  lemma {:induction false} LastSectionWins(bytes: seq<byte>, sections: seq<Section>, rva: nat, i: nat)
    requires SourcesExist(sections, |bytes|)
    requires i < |sections| && sections[i].Covers(rva)
    requires forall k | i < k < |sections| :: !sections[k].Covers(rva)
    ensures ByteAt(bytes, sections, rva) == bytes[sections[i].rawOffset + rva - sections[i].virtAddr]
    decreases |sections|
  {
    if i + 1 < |sections| {
      LastSectionWins(bytes, sections[..|sections| - 1], rva, i);
    }
  }

  lemma {:induction false} UncoveredIsZero(bytes: seq<byte>, sections: seq<Section>, rva: nat)
    requires SourcesExist(sections, |bytes|)
    requires forall k | 0 <= k < |sections| :: !sections[k].Covers(rva)
    ensures ByteAt(bytes, sections, rva) == 0
    decreases |sections|
  {
    if |sections| == 0 {
    } else {
      UncoveredIsZero(bytes, sections[..|sections| - 1], rva);
    }
  }

  /** Copying one more section on top of a layout. */
  lemma CopyStep(bytes: seq<byte>, sections: seq<Section>, n: nat)
    requires SourcesExist(sections, |bytes|) && |sections| != 0
    requires var last := sections[|sections| - 1]; last.copyLen > 0 && last.virtAddr + last.copyLen <= n
    ensures var last, rest := sections[|sections| - 1], sections[..|sections| - 1];
      LaidOut(bytes, sections, n) ==
      Overwritten(LaidOut(bytes, rest, n), last.virtAddr, bytes[last.rawOffset..last.rawOffset + last.copyLen])
  {
    var last, rest := sections[|sections| - 1], sections[..|sections| - 1];
    var data := bytes[last.rawOffset..last.rawOffset + last.copyLen];
    var a, b := LaidOut(bytes, sections, n), Overwritten(LaidOut(bytes, rest, n), last.virtAddr, data);
    var slot := Fixup(last.virtAddr, last.copyLen);
    assert Slot(a, slot) == data;
    SamePatch(a, b, slot);
  }

  /** The layout of the first `i + 1` sections, from the layout of the first `i`. */
  lemma LaidOutNext(bytes: seq<byte>, sections: seq<Section>, i: nat, n: nat)
    requires i < |sections| && SourcesExist(sections, |bytes|)
    requires sections[i].copyLen > 0 ==> sections[i].virtAddr + sections[i].copyLen <= n
    ensures SourcesExist(sections[..i], |bytes|) && SourcesExist(sections[..i + 1], |bytes|)
    ensures var section, laid := sections[i], LaidOut(bytes, sections[..i], n);
      LaidOut(bytes, sections[..i + 1], n) ==
      if section.copyLen == 0 then laid
      else Overwritten(laid, section.virtAddr, bytes[section.rawOffset..section.rawOffset + section.copyLen])
  {
    var upTo := sections[..i + 1];
    assert upTo[..i] == sections[..i];
    if sections[i].copyLen > 0 {
      CopyStep(bytes, upTo, n);
    }
  }

  /** `copy_len` is clamped to the virtual size. */
  predicate CopiesFit(sections: seq<Section>) {
    forall i | 0 <= i < |sections| :: sections[i].copyLen <= sections[i].virtSize
  }

  /** The copy loop over a zero-filled allocation. */
  method CopySections(image: array<byte>, bytes: seq<byte>, sections: seq<Section>, size: nat)
    requires size <= image.Length && AllInBounds(sections, size, |bytes|) && CopiesFit(sections)
    requires forall k | 0 <= k < image.Length :: image[k] == 0
    modifies image
    ensures SourcesExist(sections, |bytes|)
    ensures image[..] == LaidOut(bytes, sections, image.Length)
  {
    var i: nat := 0;
    assert sections[..0] == [];
    while i < |sections|
      invariant i <= |sections| && SourcesExist(sections[..i], |bytes|)
      invariant image[..] == LaidOut(bytes, sections[..i], image.Length)
    {
      LaidOutNext(bytes, sections, i, image.Length);
      var section := sections[i];
      if section.copyLen > 0 {
        Overwrite(image, section.virtAddr, bytes[section.rawOffset..section.rawOffset + section.copyLen]);
      }
      i := i + 1;
    }
    assert sections[..|sections|] == sections;
  }

  // ---------------------------------------------------------------------------
  // Loading
  // ---------------------------------------------------------------------------

  /** `allocate_image_pages`: the preferred base when it is free, otherwise anywhere. */
  function ActualBase(preferred: nat, preferredFree: bool, anywhere: Option<nat>): Option<nat> {
    if preferred > 0 && preferredFree then Some(preferred) else anywhere
  }

  function Pages(size: nat): (pages: nat)
    ensures (pages - 1) * PAGE < size <= pages * PAGE || size == pages == 0
  {
    (size + PAGE - 1) / PAGE
  }

  /** The image is not where it wants to be and has a directory to go by. */
  predicate MustMove(s: Summary, base: nat) {
    base != s.header.preferredBase && s.header.relocDir.Some? && s.header.relocDir.value.size > 0
  }

  predicate DirInside(s: Summary) {
    s.header.relocDir.Some? && s.header.relocDir.value.rva + s.header.relocDir.value.size <= s.header.sizeOfImage
  }

  function DirBytes(laid: seq<byte>, s: Summary): seq<byte>
    requires s.header.sizeOfImage <= |laid| && DirInside(s)
  {
    laid[s.header.relocDir.value.rva..s.header.relocDir.value.rva + s.header.relocDir.value.size]
  }

  /** Relocation to `base` is possible, or not needed, or left to a self-relocating kernel. */
  predicate Movable(laid: seq<byte>, s: Summary, base: nat)
    requires s.header.sizeOfImage <= |laid|
  {
    MustMove(s, base) ==> DirInside(s) && Blocks(DirBytes(laid, s), 0, s.header.sizeOfImage).error.None?
  }

  /** The image a loaded program sees at `base`: the layout, moved if it must be. */
  function Moved(laid: seq<byte>, s: Summary, base: nat): (r: seq<byte>)
    requires s.header.sizeOfImage <= |laid| && (MustMove(s, base) ==> DirInside(s))
    ensures |r| == |laid|
  {
    var size := s.header.sizeOfImage;
    if MustMove(s, base)
    then Rebased(laid[..size], DirBytes(laid, s), s.header.preferredBase, base) + laid[size..]
    else laid
  }

  /** The relocation step of `load_pe`, on a snapshot of the directory. */
  method MoveImage(image: array<byte>, s: Summary, base: nat) returns (error: Option<PeError>)
    requires s.header.sizeOfImage <= image.Length && s.header.preferredBase < MODULUS && base < MODULUS
    modifies image
    ensures error.None? <==> Movable(old(image[..]), s, base)
    ensures error.None? ==> image[..] == Moved(old(image[..]), s, base)
  {
    var size := s.header.sizeOfImage;
    if base == s.header.preferredBase || s.header.relocDir.None? || s.header.relocDir.value.size == 0 {
      return None;
    }
    var dir := s.header.relocDir.value;
    if dir.rva + dir.size > size { return Some(RelocationOutsideImage); }
    var relocBytes := image[dir.rva..dir.rva + dir.size];
    ghost var laid := image[..];
    assert relocBytes == DirBytes(laid, s);
    assert image[..size] == laid[..size] && image[size..] == laid[size..];
    var refused := ApplyRelocations(image, size, s.header.preferredBase, base, relocBytes);
    if refused.Some? { return Some(RelocationMalformed(refused.value)); }
    assert image[..] == image[..size] + image[size..];
    return None;
  }

  /** The layout of an accepted file, rounded up to whole pages. */
  function Layout(bytes: seq<byte>, s: Summary): (laid: seq<byte>)
    requires SourcesExist(s.sections, |bytes|)
    ensures s.header.sizeOfImage <= |laid|
  {
    LaidOut(bytes, s.sections, Pages(s.header.sizeOfImage) * PAGE)
  }

  method ZeroFill(image: array<byte>)
    modifies image
    ensures forall k | 0 <= k < image.Length :: image[k] == 0
  {
    var i: nat := 0;
    while i < image.Length
      invariant i <= image.Length && forall k | 0 <= k < i :: image[k] == 0
    {
      image[i] := 0;
      i := i + 1;
    }
  }

  /** Zero-fill, copy and relocate. */
  method BuildImage(bytes: seq<byte>, s: Summary, base: nat) returns (r: Result<array<byte>>)
    requires AllInBounds(s.sections, s.header.sizeOfImage, |bytes|) && CopiesFit(s.sections)
    requires s.header.preferredBase < MODULUS && base < MODULUS
    ensures SourcesExist(s.sections, |bytes|)
    ensures r.Ok? <==> Movable(Layout(bytes, s), s, base)
    ensures r.Ok? ==> fresh(r.value) && r.value[..] == Moved(Layout(bytes, s), s, base)
  {
    var image := new byte[Pages(s.header.sizeOfImage) * PAGE];
    ZeroFill(image);
    CopySections(image, bytes, s.sections, s.header.sizeOfImage);
    var error := MoveImage(image, s, base);
    if error.Some? { return Err(error.value); }
    return Ok(image);
  }

  /** What a summary of real headers always satisfies. */
  lemma SummaryFacts(bytes: seq<byte>)
    requires Summarize(bytes).Ok?
    ensures var s := Summarize(bytes).value;
      && CopiesFit(s.sections) && s.header.preferredBase < MODULUS
      && s.entryInExecutable == EntryIsExecutable(s.sections, s.header.entryRva)
  {
    var h := Summarize(bytes).value.header;
    if h.optMagic == PE32_PLUS_MAGIC {
      var at := Read(bytes, 0x3C, 4) + 24 + 0x18;
      ValueBound(bytes[at..at + 8]);
      assert Power(8) == MODULUS;
    }
  }

  datatype Loaded = Loaded(image: array<byte>, base: nat, entry: nat, summary: Summary)

  predicate Loadable(bytes: seq<byte>, machine: nat, preferredFree: bool, anywhere: Option<nat>) {
    && Summarize(bytes).Ok?
    && var s := Summarize(bytes).value;
    && Acceptable(s, |bytes|, machine)
    && SourcesExist(s.sections, |bytes|)
    && var base := ActualBase(s.header.preferredBase, preferredFree, anywhere);
    && base.Some? && Movable(Layout(bytes, s), s, base.value)
  }

  /**
    `load_pe`. A load succeeds exactly when the headers are accepted, some base was allocated, the
    image can be moved there and its protocol is installed; the loaded image is then the moved layout.
  */
  method LoadPe(bytes: seq<byte>, machine: nat, preferredFree: bool, anywhere: Option<nat>, installs: bool)
    returns (r: Result<Loaded>)
    requires anywhere.Some? ==> anywhere.value < MODULUS
    ensures r.Ok? <==> Loadable(bytes, machine, preferredFree, anywhere) && installs
    ensures r.Ok? ==>
      && Summarize(bytes) == Ok(r.value.summary)
      && Some(r.value.base) == ActualBase(r.value.summary.header.preferredBase, preferredFree, anywhere)
      && (preferredFree && r.value.summary.header.preferredBase > 0 ==>
            r.value.base == r.value.summary.header.preferredBase)
      && r.value.entry == r.value.base + r.value.summary.header.entryRva
      && fresh(r.value.image)
      && r.value.image[..] == Moved(Layout(bytes, r.value.summary), r.value.summary, r.value.base)
  {
    var summary := ParseHeaders(bytes);
    if summary.Err? { return Err(summary.error); }
    var s := summary.value;
    SummaryFacts(bytes);
    var refused := ValidateHeaders(s, |bytes|, machine);
    if refused.Some? { return Err(refused.value); }
    var base := ActualBase(s.header.preferredBase, preferredFree, anywhere);
    if base.None? { return Err(ParseFailed); }
    var image := BuildImage(bytes, s, base.value);
    if image.Err? { return Err(image.error); }
    if !installs { return Err(ParseFailed); }
    return Ok(Loaded(image.value, base.value, base.value + s.header.entryRva, s));
  }

  // ---------------------------------------------------------------------------
  // What a loaded image is
  // ---------------------------------------------------------------------------

  /** The entry point of an accepted file lies in an executable section inside the image. */
  lemma EntryIsInside(bytes: seq<byte>, machine: nat)
    requires Summarize(bytes).Ok? && Acceptable(Summarize(bytes).value, |bytes|, machine)
    ensures var s := Summarize(bytes).value;
      exists i | 0 <= i < |s.sections| ::
        && s.sections[i].executable && s.sections[i].Spans(s.header.entryRva)
        && s.sections[i].virtAddr + s.sections[i].virtSize <= s.header.sizeOfImage
  {
    SummaryFacts(bytes);
    var s := Summarize(bytes).value;
    var i :| 0 <= i < |s.sections| && s.sections[i].executable && s.sections[i].Spans(s.header.entryRva);
    assert InBounds(s.sections[i], s.header.sizeOfImage, |bytes|);
  }

  /** With a directory to go by, the image at any base is the layout moved there. */
  lemma MovedIsRebased(laid: seq<byte>, s: Summary, base: nat)
    requires s.header.sizeOfImage <= |laid| && DirInside(s) && s.header.relocDir.value.size > 0
    ensures Moved(laid, s, base)[..s.header.sizeOfImage] ==
            Rebased(laid[..s.header.sizeOfImage], DirBytes(laid, s), s.header.preferredBase, base)
  {
    var size := s.header.sizeOfImage;
    var moved := Rebased(laid[..size], DirBytes(laid, s), s.header.preferredBase, base);
    if base == s.header.preferredBase {
      assert Delta(base, base) == 0;
    } else {
      assert (moved + laid[size..])[..size] == moved;
    }
  }

  /** Every address with a slot of its own is, at any base, the one that the layout means. */
  lemma LoadedPointersFollow(laid: seq<byte>, s: Summary, base: nat, k: nat)
    requires s.header.sizeOfImage <= |laid| && DirInside(s) && s.header.relocDir.value.size > 0
    requires s.header.preferredBase < MODULUS && base < MODULUS
    requires IsAlone(Blocks(DirBytes(laid, s), 0, s.header.sizeOfImage).fixups, k)
    ensures var size := s.header.sizeOfImage;
      Follows(laid[..size], Moved(laid, s, base)[..size], Blocks(DirBytes(laid, s), 0, size).fixups[k],
              s.header.preferredBase, base)
  {
    MovedIsRebased(laid, s, base);
    PointersFollow(laid[..s.header.sizeOfImage], DirBytes(laid, s), s.header.preferredBase, base, k);
  }

  /**
    An image loaded at `a` and moved on to `b` is the image loaded at `b`, provided the slots of its
    directory are independent.
  */
  lemma LoadedAnywhereIsTheSame(laid: seq<byte>, s: Summary, a: nat, b: nat)
    requires s.header.sizeOfImage <= |laid| && DirInside(s) && s.header.relocDir.value.size > 0
    requires s.header.preferredBase < MODULUS && a < MODULUS && b < MODULUS
    requires AllIndependent(Blocks(DirBytes(laid, s), 0, s.header.sizeOfImage).fixups)
    ensures Rebased(Moved(laid, s, a)[..s.header.sizeOfImage], DirBytes(laid, s), a, b) ==
            Moved(laid, s, b)[..s.header.sizeOfImage]
  {
    MovedIsRebased(laid, s, a);
    MovedIsRebased(laid, s, b);
    RebaseComposes(laid[..s.header.sizeOfImage], DirBytes(laid, s), s.header.preferredBase, a, b);
  }
}
