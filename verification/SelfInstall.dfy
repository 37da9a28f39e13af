/**
  The NVRAM self-install (`boot_entry.rs`) and the codecs under it (`boot_entry_pure.rs`): load options
  of section 3.1.3 of the UEFI specification, UTF-16 descriptions and the boot order.
*/
module SelfInstall {
  import opened Orders
  import opened LittleEndian

  type U16 = n: nat | n < 0x1_0000

  const SCAN_MAX: nat := 0xFF
  const BOOT_ORDER := "BootOrder"
  const LOAD_OPTION_ACTIVE: nat := 1

  // ---------------------------------------------------------------------------
  // UTF-16
  // ---------------------------------------------------------------------------

  const REPLACEMENT: char := '\U{FFFD}'

  predicate IsHigh(u: U16) { 0xD800 <= u < 0xDC00 }

  predicate IsLow(u: U16) { 0xDC00 <= u < 0xE000 }

  function EncodeChar(c: char): seq<U16> {
    var n := c as int;
    if n < 0x1_0000 then [n] else [0xD800 + (n - 0x1_0000) / 0x400, 0xDC00 + (n - 0x1_0000) % 0x400]
  }

  function Encode(s: string): seq<U16> {
    if |s| == 0 then [] else EncodeChar(s[0]) + Encode(s[1..])
  }

  function Paired(high: int, low: int): char
    requires 0xD800 <= high < 0xDC00 && 0xDC00 <= low < 0xE000
  {
    (0x1_0000 + (high - 0xD800) * 0x400 + (low - 0xDC00)) as char
  }

  /** `String::from_utf16_lossy`: an unpaired surrogate becomes the replacement character. */
  function Decode(units: seq<U16>): string {
    if |units| == 0 then ""
    else
      var u := units[0];
      if !IsHigh(u) && !IsLow(u) then [u as char] + Decode(units[1..])
      else if IsHigh(u) && |units| > 1 && IsLow(units[1]) then
        [Paired(u, units[1])] + Decode(units[2..])
      else [REPLACEMENT] + Decode(units[1..])
  }

  lemma DecodeChar(c: char, rest: seq<U16>)
    ensures Decode(EncodeChar(c) + rest) == [c] + Decode(rest)
  {
    var units := EncodeChar(c) + rest;
    assert units[|EncodeChar(c)|..] == rest;
    if c as int < 0x1_0000 {
      assert units[1..] == rest;
    } else {
      var n := c as int - 0x1_0000;
      assert n / 0x400 * 0x400 + n % 0x400 == n;
      assert units[0] == 0xD800 + n / 0x400 && units[1] == 0xDC00 + n % 0x400;
      assert units[2..] == rest;
    }
  }

  lemma {:induction false} DecodeEncode(s: string)
    ensures Decode(Encode(s)) == s
  {
    if |s| == 0 {
    } else {
      DecodeEncode(s[1..]);
      DecodeChar(s[0], Encode(s[1..]));
    }
  }

  // ---------------------------------------------------------------------------
  // Arrays of 16-bit units
  // ---------------------------------------------------------------------------

  function Unit(bytes: seq<byte>, i: nat): U16
    requires i + 1 < |bytes|
  {
    var low: int, high: int := bytes[i], bytes[i + 1];
    low + 256 * high
  }

  /** The units from byte `i` on; an odd byte at the end is dropped. */
  function Units(bytes: seq<byte>, i: nat): seq<U16>
    decreases |bytes| - i
  {
    if i + 1 >= |bytes| then [] else [Unit(bytes, i)] + Units(bytes, i + 2)
  }

  /** Units as little-endian bytes; the boot order has this form. */
  function UnitBytes(units: seq<U16>): (r: seq<byte>)
    ensures |r| == 2 * |units|
  {
    if |units| == 0 then [] else Bytes(units[0], 2) + UnitBytes(units[1..])
  }

  lemma {:induction false} UnitBytesConcat(a: seq<U16>, b: seq<U16>)
    ensures UnitBytes(a + b) == UnitBytes(a) + UnitBytes(b)
    decreases |a|
  {
    if |a| == 0 {
      assert a + b == b;
    } else {
      assert (a + b)[1..] == a[1..] + b;
      UnitBytesConcat(a[1..], b);
    }
  }

  method WriteUnits(units: seq<U16>) returns (out: seq<byte>)
    ensures out == UnitBytes(units)
  {
    out := [];
    var i: nat := 0;
    while i < |units|
      invariant i <= |units| && out == UnitBytes(units[..i])
    {
      UnitBytesConcat(units[..i], [units[i]]);
      assert units[..i + 1] == units[..i] + [units[i]];
      assert UnitBytes([units[i]]) == Bytes(units[i], 2) + UnitBytes([]);
      out := out + Bytes(units[i], 2);
      i := i + 1;
    }
    assert units[..|units|] == units;
  }

  function DecodeBootOrder(bytes: seq<byte>): seq<U16> { Units(bytes, 0) }

  lemma BytesOfUnit(u: U16)
    ensures Bytes(u, 2) == [u % 256, u / 256]
  {
    assert Bytes(u, 2) == [u % 256] + Bytes(u / 256, 1);
    assert Bytes(u / 256, 1) == [u / 256 % 256] + Bytes(u / 256 / 256, 0);
  }

  lemma UnitAt(bytes: seq<byte>, i: nat, u: U16)
    requires HasAt(bytes, i, Bytes(u, 2))
    ensures i + 1 < |bytes| && Unit(bytes, i) == u
  {
    BytesOfUnit(u);
    assert bytes[i] == bytes[i..i + 2][0] && bytes[i + 1] == bytes[i..i + 2][1];
  }

  lemma {:induction false} FirstUnitAt(bytes: seq<byte>, i: nat, units: seq<U16>)
    requires |units| > 0 && HasAt(bytes, i, UnitBytes(units))
    ensures i + 1 < |bytes| && Unit(bytes, i) == units[0] && HasAt(bytes, i + 2, UnitBytes(units[1..]))
  {
    HasAtConcat(bytes, i, Bytes(units[0], 2), UnitBytes(units[1..]));
    UnitAt(bytes, i, units[0]);
  }

  lemma ConsConcat(units: seq<U16>, rest: seq<U16>)
    requires |units| > 0
    ensures [units[0]] + (units[1..] + rest) == units + rest
  {
  }

  /** Units are read back from where they stand. */
  lemma {:induction false} UnitsAt(bytes: seq<byte>, i: nat, units: seq<U16>)
    requires HasAt(bytes, i, UnitBytes(units))
    ensures Units(bytes, i) == units + Units(bytes, i + 2 * |units|)
    decreases |units|
  {
    if |units| == 0 {
    } else {
      FirstUnitAt(bytes, i, units);
      UnitsAt(bytes, i + 2, units[1..]);
      ConsConcat(units, Units(bytes, i + 2 * |units|));
    }
  }

  lemma {:induction false} BootOrderRoundTrip(order: seq<U16>)
    ensures DecodeBootOrder(UnitBytes(order)) == order
  {
    assert UnitBytes(order)[0..|UnitBytes(order)|] == UnitBytes(order);
    UnitsAt(UnitBytes(order), 0, order);
  }

  // ---------------------------------------------------------------------------
  // Load options
  // ---------------------------------------------------------------------------

  function EncodeLoadOption(attributes: nat, description: string, path: seq<byte>, optional: seq<byte>): (r: seq<byte>)
    ensures |r| >= 8
  {
    Bytes(attributes, 4) + Bytes(if |path| < 0x1_0000 then |path| else 0xFFFF, 2)
      + (UnitBytes(Encode(description)) + (Bytes(0, 2) + (path + optional)))
  }

  /** The units from byte `i` up to a zero unit or the end. */
  function UnitsToNul(bytes: seq<byte>, i: nat): seq<U16>
    decreases |bytes| - i
  {
    if i + 1 >= |bytes| || Unit(bytes, i) == 0 then [] else [Unit(bytes, i)] + UnitsToNul(bytes, i + 2)
  }

  /** A load option, read as section 3.1.3 of the UEFI specification lays it out. */
  datatype LoadOption = LoadOption(attributes: nat, description: string, path: seq<byte>, optional: seq<byte>)

  function ReadLoadOption(bytes: seq<byte>): Option<LoadOption> {
    if |bytes| < 6 then None
    else
      var units, len := UnitsToNul(bytes, 6), Value(bytes[4..6]);
      var at := 6 + 2 * |units| + 2;
      if at + len > |bytes| then None
      else Some(LoadOption(Value(bytes[..4]), Decode(units), bytes[at..at + len], bytes[at + len..]))
  }

  function Description(bytes: seq<byte>): Option<string> {
    if |bytes| < 6 then None else Some(Decode(UnitsToNul(bytes, 6)))
  }

  /** The text before the first NUL. */
  function BeforeNul(s: string): string {
    if |s| == 0 || s[0] == '\0' then "" else [s[0]] + BeforeNul(s[1..])
  }

  lemma {:induction false} BeforeNulIsAll(s: string)
    ensures BeforeNul(s) == s <==> '\0' !in s
  {
    if |s| == 0 {
    } else {
      BeforeNulIsAll(s[1..]);
      if s[0] != '\0' {
        assert ([s[0]] + BeforeNul(s[1..]))[1..] == BeforeNul(s[1..]);
        assert s == [s[0]] + s[1..];
      }
    }
  }

  /** Reading up to a zero unit goes past units that are not zero. */
  lemma {:induction false} NonzeroAt(bytes: seq<byte>, i: nat, units: seq<U16>)
    requires HasAt(bytes, i, UnitBytes(units)) && 0 !in units
    ensures UnitsToNul(bytes, i) == units + UnitsToNul(bytes, i + 2 * |units|)
    decreases |units|
  {
    if |units| == 0 {
    } else {
      FirstUnitAt(bytes, i, units);
      NonzeroAt(bytes, i + 2, units[1..]);
      ConsConcat(units, UnitsToNul(bytes, i + 2 * |units|));
    }
  }

  /** A stored description reads back up to its first NUL. */
  lemma {:induction false} TextToNul(bytes: seq<byte>, i: nat, s: string)
    requires HasAt(bytes, i, UnitBytes(Encode(s))) && HasAt(bytes, i + 2 * |Encode(s)|, Bytes(0, 2))
    ensures UnitsToNul(bytes, i) == Encode(BeforeNul(s))
    decreases |s|
  {
    if |s| == 0 {
      UnitAt(bytes, i, 0);
    } else {
      var first := EncodeChar(s[0]);
      UnitBytesConcat(first, Encode(s[1..]));
      HasAtConcat(bytes, i, UnitBytes(first), UnitBytes(Encode(s[1..])));
      if s[0] == '\0' {
        HasAtConcat(bytes, i, Bytes(0, 2), UnitBytes(first[1..]));
        UnitAt(bytes, i, 0);
      } else {
        NonzeroAt(bytes, i, first);
        TextToNul(bytes, i + 2 * |first|, s[1..]);
      }
    }
  }

  /** Where the parts of an option stand. */
  predicate HasFields(bytes: seq<byte>, head: seq<byte>, size: seq<byte>, text: seq<byte>,
      path: seq<byte>, optional: seq<byte>)
  {
    var at := 6 + |text| + 2;
    && |head| == 4 && |size| == 2
    && HasAt(bytes, 0, head) && HasAt(bytes, 4, size) && HasAt(bytes, 6, text) && HasAt(bytes, 6 + |text|, Bytes(0, 2))
    && HasAt(bytes, at, path) && bytes[at + |path|..] == optional
  }

  lemma FieldsStand(head: seq<byte>, size: seq<byte>, text: seq<byte>, nul: seq<byte>, path: seq<byte>,
      optional: seq<byte>)
    requires |head| == 4 && |size| == 2 && |nul| == 2 && nul == Bytes(0, 2)
    ensures HasFields(head + size + (text + (nul + (path + optional))), head, size, text, path, optional)
  {
    var bytes := head + size + (text + (nul + (path + optional)));
    assert bytes[6..] == text + (nul + (path + optional));
    assert bytes[6 + |text|..] == nul + (path + optional);
    assert bytes[6 + |text| + 2..] == path + optional;
  }

  lemma {:induction false} EncodedFields(attributes: nat, description: string, path: seq<byte>, optional: seq<byte>)
    ensures HasFields(EncodeLoadOption(attributes, description, path, optional), Bytes(attributes, 4),
      Bytes(if |path| < 0x1_0000 then |path| else 0xFFFF, 2), UnitBytes(Encode(description)), path, optional)
  {
    var size := Bytes(if |path| < 0x1_0000 then |path| else 0xFFFF, 2);
    FieldsStand(Bytes(attributes, 4), size, UnitBytes(Encode(description)), Bytes(0, 2), path, optional);
  }

  /** A reader takes the fields from where they stand. */
  lemma {:induction false} ReadFields(bytes: seq<byte>, head: seq<byte>, size: seq<byte>, description: string,
      path: seq<byte>, optional: seq<byte>)
    requires HasFields(bytes, head, size, UnitBytes(Encode(description)), path, optional)
    requires Value(size) == |path| && '\0' !in description
    ensures ReadLoadOption(bytes) == Some(LoadOption(Value(head), description, path, optional))
  {
    TextToNul(bytes, 6, description);
    BeforeNulIsAll(description);
    DecodeEncode(description);
    assert bytes[..4] == bytes[0..4];
  }

  /** The description of an encoded option is the given one exactly when that has no NUL. */
  lemma DescriptionRoundTrip(attributes: nat, description: string, path: seq<byte>, optional: seq<byte>)
    ensures var r := Description(EncodeLoadOption(attributes, description, path, optional));
      r == Some(BeforeNul(description)) && (r == Some(description) <==> '\0' !in description)
  {
    EncodedFields(attributes, description, path, optional);
    TextToNul(EncodeLoadOption(attributes, description, path, optional), 6, description);
    DecodeEncode(BeforeNul(description));
    BeforeNulIsAll(description);
  }

  lemma {:induction false} LoadOptionRoundTrip(attributes: nat, description: string,
      path: seq<byte>, optional: seq<byte>)
    requires attributes < 0x1_0000_0000 && '\0' !in description && |path| < 0x1_0000
    ensures ReadLoadOption(EncodeLoadOption(attributes, description, path, optional))
      == Some(LoadOption(attributes, description, path, optional))
  {
    ValueOfBytes(attributes, 4);
    ValueOfBytes(|path|, 2);
    EncodedFields(attributes, description, path, optional);
    ReadFields(EncodeLoadOption(attributes, description, path, optional), Bytes(attributes, 4), Bytes(|path|, 2),
      description, path, optional);
  }

  /** Firmware that reads the option finds every field as given, exactly when two things fit. */
  lemma {:induction false} LoadOptionRoundTripIff(attributes: nat, description: string,
      path: seq<byte>, optional: seq<byte>)
    requires attributes < 0x1_0000_0000
    ensures var r := ReadLoadOption(EncodeLoadOption(attributes, description, path, optional));
      r == Some(LoadOption(attributes, description, path, optional)) <==> '\0' !in description && |path| < 0x1_0000
  {
    var bytes := EncodeLoadOption(attributes, description, path, optional);
    if '\0' in description {
      DescriptionRoundTrip(attributes, description, path, optional);
    } else if |path| < 0x1_0000 {
      LoadOptionRoundTrip(attributes, description, path, optional);
    } else {
      assert bytes[4..6] == Bytes(0xFFFF, 2);
      ValueOfBytes(0xFFFF, 2);
    }
  }

  method WriteLoadOption(attributes: nat, description: string, path: seq<byte>, optional: seq<byte>)
    returns (out: seq<byte>)
    ensures out == EncodeLoadOption(attributes, description, path, optional)
    ensures attributes < 0x1_0000_0000 && '\0' !in description && |path| < 0x1_0000 ==>
      ReadLoadOption(out) == Some(LoadOption(attributes, description, path, optional))
  {
    if attributes < 0x1_0000_0000 {
      LoadOptionRoundTripIff(attributes, description, path, optional);
    }
    out := Bytes(attributes, 4) + Bytes(if |path| < 0x1_0000 then |path| else 0xFFFF, 2);
    var text := WriteUnits(Encode(description));
    out := out + (text + (Bytes(0, 2) + (path + optional)));
  }

  method ParseDescription(bytes: seq<byte>) returns (r: Option<string>)
    ensures r == Description(bytes)
  {
    if |bytes| < 6 {
      return None;
    }
    var units: seq<U16> := [];
    var i: nat := 6;
    while i + 1 < |bytes|
      invariant UnitsToNul(bytes, 6) == units + UnitsToNul(bytes, i)
      decreases |bytes| - i
    {
      var unit := Unit(bytes, i);
      if unit == 0 {
        break;
      }
      units := units + [unit];
      i := i + 2;
    }
    assert units + [] == units;
    r := Some(Decode(units));
  }

  // ---------------------------------------------------------------------------
  // Variables
  // ---------------------------------------------------------------------------

  /** The global variables. */
  type Vars = map<string, seq<byte>>

  function HexValue(c: char): int {
    if c <= '9' then c as int - '0' as int else c as int - 'A' as int + 10
  }

  function Hex(n: nat): (c: char)
    requires n < 16
    ensures HexValue(c) == n
  {
    if n < 10 then ('0' as int + n) as char else ('A' as int + n - 10) as char
  }

  /** `k` hexadecimal digits. */
  function HexDigits(n: nat, k: nat): (r: string)
    ensures |r| == k
  {
    if k == 0 then "" else HexDigits(n / 16, k - 1) + [Hex(n % 16)]
  }

  function Power16(k: nat): nat { if k == 0 then 1 else 16 * Power16(k - 1) }

  /** The number that hexadecimal digits stand for. */
  function HexNumber(s: string): int {
    if |s| == 0 then 0 else 16 * HexNumber(s[..|s| - 1]) + HexValue(s[|s| - 1])
  }

  predicate IsUpperHex(c: char) { '0' <= c <= '9' || 'A' <= c <= 'F' }

  lemma {:induction false} HexDigitsRead(n: nat, k: nat)
    requires n < Power16(k)
    ensures HexNumber(HexDigits(n, k)) == n && forall i | 0 <= i < k :: IsUpperHex(HexDigits(n, k)[i])
  {
    if k == 0 {
    } else {
      HexDigitsRead(n / 16, k - 1);
      assert HexDigits(n, k)[..k - 1] == HexDigits(n / 16, k - 1);
    }
  }

  function BootVarName(n: U16): (r: string)
    ensures |r| == 8
  {
    "Boot" + HexDigits(n, 4)
  }

  /** The name is `Boot` and the number in four upper-case hexadecimal digits. */
  lemma {:induction false} BootVarNameReads(n: U16)
    ensures var name := BootVarName(n);
      && name[..4] == "Boot" && HexNumber(name[4..]) == n && forall i | 4 <= i < 8 :: IsUpperHex(name[i])
  {
    assert Power16(4) == 16 * Power16(3) && Power16(3) == 16 * Power16(2);
    HexDigitsRead(n, 4);
    assert BootVarName(n)[4..] == HexDigits(n, 4);
  }

  /** Every boot number has its own variable, which is never the boot order. */
  lemma {:induction false} BootVarNameInjective(m: U16, n: U16)
    ensures BootVarName(m) == BootVarName(n) <==> m == n
    ensures BootVarName(n) != BOOT_ORDER
  {
    BootVarNameReads(m);
    BootVarNameReads(n);
  }

  predicate Used(vars: Vars, n: U16) { BootVarName(n) in vars }

  predicate Carries(vars: Vars, n: U16, description: string) {
    Used(vars, n) && Description(vars[BootVarName(n)]) == Some(description)
  }

  /** The first slot from `n` on that carries the description. */
  function Existing(vars: Vars, description: string, n: nat := 0): Option<U16>
    requires n <= SCAN_MAX + 1
    decreases SCAN_MAX + 1 - n
  {
    if n > SCAN_MAX then None
    else if Carries(vars, n, description) then Some(n)
    else Existing(vars, description, n + 1)
  }

  lemma {:induction false} ExistingIsFirst(vars: Vars, description: string, n: nat)
    requires n <= SCAN_MAX + 1
    ensures var r := Existing(vars, description, n);
      && (r.Some? ==> n <= r.value <= SCAN_MAX && Carries(vars, r.value, description))
      && (forall m: U16 | n <= m <= SCAN_MAX && (r.Some? ==> m < r.value) :: !Carries(vars, m, description))
    decreases SCAN_MAX + 1 - n
  {
    if n <= SCAN_MAX && !Carries(vars, n, description) {
      ExistingIsFirst(vars, description, n + 1);
    }
  }

  /** The first free slot from `n` on. */
  function Free(vars: Vars, n: nat := 0): (r: Option<U16>)
    requires n <= SCAN_MAX + 1
    ensures r.Some? ==> n <= r.value <= SCAN_MAX && !Used(vars, r.value)
    decreases SCAN_MAX + 1 - n
  {
    if n > SCAN_MAX then None else if !Used(vars, n) then Some(n) else Free(vars, n + 1)
  }

  /** No lower slot is free. */
  lemma {:induction false} FreeIsFirst(vars: Vars, n: nat, m: U16)
    requires n <= m <= SCAN_MAX && (Free(vars, n).Some? ==> m < Free(vars, n).value)
    ensures Used(vars, m)
    decreases SCAN_MAX + 1 - n
  {
    if n < m {
      FreeIsFirst(vars, n + 1, m);
    }
  }

  /** The used slots below `n`. */
  function UsedSlots(vars: Vars, n: nat): seq<U16>
    requires n <= SCAN_MAX + 1
  {
    if n == 0 then [] else UsedSlots(vars, n - 1) + (if Used(vars, n - 1) then [n - 1] else [])
  }

  lemma {:induction false} UsedSlotsMembers(vars: Vars, n: nat, m: U16)
    requires n <= SCAN_MAX + 1
    ensures m in UsedSlots(vars, n) <==> m < n && Used(vars, m)
  {
    if n == 0 {
    } else {
      UsedSlotsMembers(vars, n - 1, m);
    }
  }

  /** The slots in use below `n`, and the first of them that carries the description. */
  datatype Scan = Scan(used: seq<U16>, existing: Option<U16>)

  function Scanned(vars: Vars, description: string, n: nat): Scan
    requires n <= SCAN_MAX + 1
  {
    if n == 0 then Scan([], None)
    else
      var s := Scanned(vars, description, n - 1);
      Scan(
        if Used(vars, n - 1) then s.used + [n - 1] else s.used,
        if s.existing.None? && Carries(vars, n - 1, description) then Some(n - 1) else s.existing)
  }

  lemma {:induction false} ScannedUsed(vars: Vars, description: string, n: nat)
    requires n <= SCAN_MAX + 1
    ensures Scanned(vars, description, n).used == UsedSlots(vars, n)
  {
    if n == 0 {
    } else {
      ScannedUsed(vars, description, n - 1);
    }
  }

  /** What is found among the slots scanned, or else from there on. */
  function FoundOr(s: Option<U16>, rest: Option<U16>): Option<U16> { if s.Some? then s else rest }

  lemma {:induction false} ExistingStep(vars: Vars, description: string, n: nat)
    requires n <= SCAN_MAX
    ensures Existing(vars, description, n) ==
      if Carries(vars, n, description) then Some(n) else Existing(vars, description, n + 1)
  {
  }

  lemma {:induction false} ScannedExisting(vars: Vars, description: string, n: nat)
    requires n <= SCAN_MAX + 1
    ensures Existing(vars, description)
      == FoundOr(Scanned(vars, description, n).existing, Existing(vars, description, n))
  {
    if n == 0 {
    } else {
      ScannedExisting(vars, description, n - 1);
      ExistingStep(vars, description, n - 1);
    }
  }

  function BootOrder(vars: Vars): seq<U16> {
    DecodeBootOrder(if BOOT_ORDER in vars then vars[BOOT_ORDER] else [])
  }

  function WithFront(order: seq<U16>, n: U16): seq<U16> {
    if n in order then order else [n] + order
  }

  /** Which of the two writes the firmware accepts in a call, and which variables it fails to read. */
  datatype Firmware = Firmware(option: bool, order: bool, unreadable: set<string>)

  /** The device path of the running image with the file's node: built, no device, or not built. */
  datatype DevicePath = Built(bytes: seq<byte>) | NoDevice | Unbuilt

  datatype Outcome = AlreadyPresent(n: U16) | Created(n: U16) | NoDevicePath | Failed

  datatype Install = Install(vars: Vars, outcome: Outcome)

  /** The variables a call sees: one that cannot be read looks absent. */
  function Seen(vars: Vars, fw: Firmware): Vars { vars - fw.unreadable }

  /** The option a call stores. */
  function NewOption(description: string, path: seq<byte>): seq<byte> {
    EncodeLoadOption(LOAD_OPTION_ACTIVE, description, path, [])
  }

  /** The firmware reads it as an active option for the path, without further data. */
  lemma NewOptionReads(description: string, path: seq<byte>)
    requires '\0' !in description && |path| < 0x1_0000
    ensures ReadLoadOption(NewOption(description, path)) == Some(LoadOption(1, description, path, []))
  {
    LoadOptionRoundTrip(1, description, path, []);
  }

  /** A new entry in slot `n`, and the order that was seen with `n` in front of it. */
  function WithEntry(vars: Vars, n: U16, option: seq<byte>, fw: Firmware): Vars {
    var created := vars[BootVarName(n) := option];
    if fw.order then created[BOOT_ORDER := UnitBytes(WithFront(BootOrder(Seen(vars, fw)), n))] else created
  }

  function Ensured(vars: Vars, description: string, path: seq<byte>, fw: Firmware): Install {
    match Existing(Seen(vars, fw), description)
    case Some(n) => Install(vars, AlreadyPresent(n))
    case None =>
      match Free(Seen(vars, fw))
      case None => Install(vars, Failed)
      case Some(n) =>
        if !fw.option then Install(vars, Failed)
        else Install(WithEntry(vars, n, NewOption(description, path), fw), Created(n))
  }

  /** The whole call: without a device path nothing is looked up or written. */
  function Installed(vars: Vars, description: string, path: DevicePath, fw: Firmware): Install {
    match path
    case Built(bytes) => Ensured(vars, description, bytes, fw)
    case NoDevice => Install(vars, NoDevicePath)
    case Unbuilt => Install(vars, Failed)
  }

  /** Only a creation changes anything, and then only the slot that looked free and the boot order. */
  lemma {:induction false} InstalledFrame(vars: Vars, description: string, path: DevicePath, fw: Firmware)
    ensures var i := Installed(vars, description, path, fw);
      if i.outcome.Created? then
        var changed := {BOOT_ORDER, BootVarName(i.outcome.n)};
        !Used(Seen(vars, fw), i.outcome.n) && vars - changed == i.vars - changed
      else i.vars == vars
  {
  }

  // ---------------------------------------------------------------------------
  // The step in place
  // ---------------------------------------------------------------------------

  class Nvram {
    var vars: Vars

    constructor (vars: Vars)
      ensures this.vars == vars
    {
      this.vars := vars;
    }

    method SetVariable(name: string, data: seq<byte>, accepted: bool) returns (ok: bool)
      modifies this
      ensures ok == accepted && vars == if accepted then old(vars)[name := data] else old(vars)
    {
      if accepted {
        vars := vars[name := data];
      }
      ok := accepted;
    }

    /** A read that fails is not told from one of an absent variable. */
    method GetVariable(name: string, unreadable: set<string>) returns (r: Option<seq<byte>>)
      ensures r == if name in vars - unreadable then Some(vars[name]) else None
    {
      r := if name in vars && name !in unreadable then Some(vars[name]) else None;
    }

    method Inspect(n: U16, description: string, fw: Firmware) returns (present: bool, named: bool)
      ensures present == Used(Seen(vars, fw), n) && named == Carries(Seen(vars, fw), n, description)
    {
      var data := GetVariable(BootVarName(n), fw.unreadable);
      present, named := data.Some?, false;
      if present {
        var found := ParseDescription(data.value);
        named := found == Some(description);
      }
    }

    method ScanSlots(description: string, fw: Firmware) returns (used: seq<U16>, existing: Option<U16>)
      ensures existing == Existing(Seen(vars, fw), description) && used == UsedSlots(Seen(vars, fw), SCAN_MAX + 1)
    {
      ghost var seen := Seen(vars, fw);
      used, existing := [], None;
      var n: nat := 0;
      while n <= SCAN_MAX
        invariant n <= SCAN_MAX + 1 && Scan(used, existing) == Scanned(seen, description, n)
      {
        var present, named := Inspect(n, description, fw);
        if present {
          used := used + [n];
          if existing.None? && named {
            existing := Some(n);
          }
        }
        n := n + 1;
      }
      ScannedUsed(seen, description, SCAN_MAX + 1);
      ScannedExisting(seen, description, SCAN_MAX + 1);
    }

    method FirstFree(used: seq<U16>, ghost seen: Vars) returns (r: Option<U16>)
      requires used == UsedSlots(seen, SCAN_MAX + 1)
      ensures r == Free(seen)
    {
      var n: nat := 0;
      UsedSlotsMembers(seen, SCAN_MAX + 1, 0);
      while n <= SCAN_MAX && n in used
        invariant n <= SCAN_MAX + 1 && Free(seen) == Free(seen, n)
        invariant n in used <==> n <= SCAN_MAX && Used(seen, n)
      {
        n := n + 1;
        UsedSlotsMembers(seen, SCAN_MAX + 1, n);
      }
      r := if n <= SCAN_MAX then Some(n) else None;
    }

    method InstallAt(description: string, path: seq<byte>, fw: Firmware) returns (r: Outcome)
      modifies this
      ensures Install(vars, r) == Ensured(old(vars), description, path, fw)
    {
      var used, existing := ScanSlots(description, fw);
      if existing.Some? {
        return AlreadyPresent(existing.value);
      }
      var free := FirstFree(used, Seen(vars, fw));
      if free.None? {
        return Failed;
      }
      var n := free.value;
      var option := WriteLoadOption(LOAD_OPTION_ACTIVE, description, path, []);
      BootVarNameInjective(n, n);
      var ok := SetVariable(BootVarName(n), option, fw.option);
      if !ok {
        return Failed;
      }
      var bytes := GetVariable(BOOT_ORDER, fw.unreadable);
      var order := WriteUnits(WithFront(DecodeBootOrder(if bytes.Some? then bytes.value else []), n));
      ok := SetVariable(BOOT_ORDER, order, fw.order);
      r := Created(n);
    }

    /** `ensure_named_boot_entry`: the device path, the scan, the new slot and the new order. */
    method EnsureNamedBootEntry(description: string, path: DevicePath, fw: Firmware) returns (r: Outcome)
      modifies this
      ensures Install(vars, r) == Installed(old(vars), description, path, fw)
      ensures !r.Created? ==> vars == old(vars)
      ensures r.Created? ==>
        var changed := {BOOT_ORDER, BootVarName(r.n)};
        !Used(Seen(old(vars), fw), r.n) && old(vars) - changed == vars - changed
    {
      if path.NoDevice? {
        return NoDevicePath;
      }
      if path.Unbuilt? {
        return Failed;
      }
      InstalledFrame(vars, description, path, fw);
      r := InstallAt(description, path.bytes, fw);
    }
  }

  // ---------------------------------------------------------------------------
  // What repeated installs keep
  // ---------------------------------------------------------------------------

  /** What a creation leaves in slot `m`. */
  lemma {:induction false} CreatedSlot(vars: Vars, n: U16, option: seq<byte>, fw: Firmware, m: U16)
    ensures var after := WithEntry(vars, n, option, fw);
      && (Used(after, m) <==> m == n || Used(vars, m))
      && (Used(after, m) ==> after[BootVarName(m)] == if m == n then option else vars[BootVarName(m)])
  {
    BootVarNameInjective(m, n);
    BootVarNameInjective(n, m);
  }

  /** Every variable but the boot order keeps its value. */
  ghost predicate OthersKept(before: Vars, after: Vars) {
    forall name | name in before && name != BOOT_ORDER :: name in after && after[name] == before[name]
  }

  /**
    A creation overwrites another entry exactly when the slot that looked free was there, could not be
    read and held something else.
  */
  lemma {:induction false} OthersKeptIff(vars: Vars, description: string, path: seq<byte>, fw: Firmware)
    requires Ensured(vars, description, path, fw).outcome.Created?
    ensures var r := Ensured(vars, description, path, fw);
      var name := BootVarName(r.outcome.n);
      && (name in vars ==> name in fw.unreadable)
      && (OthersKept(vars, r.vars) <==> (name in vars ==> vars[name] == NewOption(description, path)))
  {
    var n := Ensured(vars, description, path, fw).outcome.n;
    BootVarNameInjective(n, n);
    CreatedSlot(vars, n, NewOption(description, path), fw, n);
  }

  lemma ExistingIs(vars: Vars, description: string, found: Option<U16>)
    requires forall m: U16 | m <= SCAN_MAX :: Carries(vars, m, description) <==> found == Some(m)
    requires found.Some? ==> found.value <= SCAN_MAX
    ensures Existing(vars, description) == found
  {
    ExistingIsFirst(vars, description, 0);
    assert found.Some? ==> Carries(vars, found.value, description);
    assert Existing(vars, description).Some? <==> found.Some?;
  }

  /** An entry that cannot be read is overwritten. */
  lemma {:induction false} UnreadableEntryIsLost(other: seq<byte>, description: string, path: seq<byte>)
    requires other != NewOption(description, path)
    ensures var vars, fw := map[BootVarName(0) := other], Firmware(true, true, {BootVarName(0)});
      var r := Ensured(vars, description, path, fw);
      r.outcome == Created(0) && r.vars[BootVarName(0)] != other
  {
    var vars, fw := map[BootVarName(0) := other], Firmware(true, true, {BootVarName(0)});
    assert Seen(vars, fw) == map[];
    ExistingIs(map[], description, None);
    CreatedSlot(vars, 0, NewOption(description, path), fw, 0);
  }

  predicate IsSuffix(a: seq<U16>, b: seq<U16>) {
    |a| <= |b| && b[|b| - |a|..] == a
  }

  lemma {:induction false} NewOrder(vars: Vars, n: U16, option: seq<byte>, fw: Firmware)
    ensures var order := BootOrder(WithEntry(vars, n, option, fw));
      order == if fw.order then WithFront(BootOrder(Seen(vars, fw)), n) else BootOrder(vars)
  {
    BootVarNameInjective(n, n);
    BootOrderRoundTrip(WithFront(BootOrder(Seen(vars, fw)), n));
  }

  lemma SuffixOfOne(a: seq<U16>, n: U16)
    ensures IsSuffix(a, [n]) <==> a == [] || a == [n]
  {
    if |a| == 1 {
      assert [n][0..] == [n];
    }
  }

  /**
    The old order is a suffix of the new one exactly when it could be read, was not written, was empty
    or held just the new entry; the new entry is in it unless the write is refused.
  */
  lemma {:induction false} OrderIsExtendedIff(vars: Vars, description: string, path: seq<byte>, fw: Firmware)
    requires Ensured(vars, description, path, fw).outcome.Created?
    ensures var r := Ensured(vars, description, path, fw);
      var n, was, order := r.outcome.n, BootOrder(vars), BootOrder(r.vars);
      && (IsSuffix(was, order) <==> BOOT_ORDER !in fw.unreadable || !fw.order || was == [] || was == [n])
      && (fw.order ==> n in order)
      && (IsSuffix(was, order) ==> order == if !fw.order || n in was then was else [n] + was)
  {
    var n := Ensured(vars, description, path, fw).outcome.n;
    BootVarNameInjective(n, n);
    var seen := BootOrder(Seen(vars, fw));
    BootOrderRoundTrip(WithFront(seen, n));
    NewOrder(vars, n, NewOption(description, path), fw);
    if fw.order && BOOT_ORDER in fw.unreadable {
      assert seen == [] && WithFront(seen, n) == [n];
      SuffixOfOne(BootOrder(vars), n);
    } else {
      assert IsSuffix(BootOrder(vars), [n] + BootOrder(vars));
    }
  }

  /** An order that cannot be read is replaced. */
  lemma {:induction false} UnreadableOrderIsLost(order: seq<U16>, description: string, path: seq<byte>)
    ensures var vars, fw := map[BOOT_ORDER := UnitBytes(order)], Firmware(true, true, {BOOT_ORDER});
      BootOrder(vars) == order && BootOrder(Ensured(vars, description, path, fw).vars) == [0]
  {
    var vars, fw := map[BOOT_ORDER := UnitBytes(order)], Firmware(true, true, {BOOT_ORDER});
    BootOrderRoundTrip(order);
    assert Seen(vars, fw) == map[];
    ExistingIs(map[], description, None);
    NewOrder(vars, 0, NewOption(description, path), fw);
  }

  /** Slot `n` carries the description and no lower one does. */
  ghost predicate FirstCarrier(vars: Vars, description: string, n: U16) {
    n <= SCAN_MAX && Carries(vars, n, description) && forall m: U16 | m < n :: !Carries(vars, m, description)
  }

  /** The first carrier is found exactly by the calls that can read it. */
  lemma {:induction false} FoundIffReadable(vars: Vars, description: string, n: U16, fw: Firmware)
    requires FirstCarrier(vars, description, n)
    ensures Existing(Seen(vars, fw), description) == Some(n) <==> BootVarName(n) !in fw.unreadable
  {
    var seen := Seen(vars, fw);
    ExistingIsFirst(seen, description, 0);
    assert Carries(seen, n, description) <==> BootVarName(n) !in fw.unreadable;
    assert forall m: U16 | m < n :: Carries(seen, m, description) ==> Carries(vars, m, description);
  }

  /** No slot below the new one carries the description, though higher ones may that could not be read. */
  lemma {:induction false} NoLowerCarrier(vars: Vars, description: string, fw: Firmware, m: U16)
    requires Existing(Seen(vars, fw), description).None? && Free(Seen(vars, fw)).Some? && m < Free(Seen(vars, fw)).value
    ensures !Carries(vars, m, description)
  {
    FreeIsFirst(Seen(vars, fw), 0, m);
    ExistingIsFirst(Seen(vars, fw), description, 0);
    assert !Carries(Seen(vars, fw), m, description);
  }

  lemma {:induction false} CreatedIsFirstCarrier(vars: Vars, description: string, path: seq<byte>, fw: Firmware)
    requires Ensured(vars, description, path, fw).outcome.Created?
    ensures var r := Ensured(vars, description, path, fw);
      && (forall m: U16 | m < r.outcome.n :: !Carries(r.vars, m, description))
      && (Carries(r.vars, r.outcome.n, description) <==> '\0' !in description)
      && r.outcome.n <= SCAN_MAX
  {
    var r, option := Ensured(vars, description, path, fw), NewOption(description, path);
    DescriptionRoundTrip(LOAD_OPTION_ACTIVE, description, path, []);
    CreatedSlot(vars, r.outcome.n, option, fw, r.outcome.n);
    forall m: U16 | m < r.outcome.n
      ensures !Carries(r.vars, m, description)
    {
      CreatedSlot(vars, r.outcome.n, option, fw, m);
      NoLowerCarrier(vars, description, fw, m);
    }
  }

  /**
    After an entry was created a further call finds it and changes nothing, whatever it is allowed to
    write, exactly when the description has no NUL and the call can read the entry.
  */
  lemma {:induction false} CreatedIsFoundIff(vars: Vars, description: string, path: seq<byte>, fw: Firmware,
                                             path': seq<byte>, fw': Firmware)
    requires Ensured(vars, description, path, fw).outcome.Created?
    ensures var r := Ensured(vars, description, path, fw);
      Ensured(r.vars, description, path', fw') == Install(r.vars, AlreadyPresent(r.outcome.n)) <==>
        '\0' !in description && BootVarName(r.outcome.n) !in fw'.unreadable
  {
    var r := Ensured(vars, description, path, fw);
    CreatedIsFirstCarrier(vars, description, path, fw);
    if '\0' !in description {
      FoundIffReadable(r.vars, description, r.outcome.n, fw');
    } else {
      ExistingIsFirst(Seen(r.vars, fw'), description, 0);
      assert !Carries(Seen(r.vars, fw'), r.outcome.n, description);
    }
  }

  datatype Call = Call(path: DevicePath, fw: Firmware) {
    /** The call does not get as far as the scan, or can read slot `n` in it. */
    predicate CanRead(n: U16) { path.Built? ==> BootVarName(n) !in fw.unreadable }
  }

  /** The outcomes of calls one after another. */
  function Outcomes(vars: Vars, description: string, calls: seq<Call>): (r: seq<Outcome>)
    ensures |r| == |calls|
    decreases |calls|
  {
    if |calls| == 0 then []
    else
      var first := Installed(vars, description, calls[0].path, calls[0].fw);
      [first.outcome] + Outcomes(first.vars, description, calls[1..])
  }

  /** What a call returns that finds slot `n`. */
  function Found(path: DevicePath, n: U16): Outcome {
    match path
    case Built(_) => AlreadyPresent(n)
    case NoDevice => NoDevicePath
    case Unbuilt => Failed
  }

  ghost predicate AllFind(calls: seq<Call>, outcomes: seq<Outcome>, n: U16)
    requires |outcomes| == |calls|
  {
    forall k | 0 <= k < |calls| :: outcomes[k] == Found(calls[k].path, n)
  }

  ghost predicate AllCanRead(calls: seq<Call>, n: U16) {
    forall k | 0 <= k < |calls| :: calls[k].CanRead(n)
  }

  lemma {:induction false} FoundCons(vars: Vars, description: string, calls: seq<Call>, n: U16)
    requires |calls| > 0
    ensures var first, rest := Installed(vars, description, calls[0].path, calls[0].fw), calls[1..];
      AllFind(calls, Outcomes(vars, description, calls), n) <==>
        first.outcome == Found(calls[0].path, n) && AllFind(rest, Outcomes(first.vars, description, rest), n)
  {
    var first, rest := Installed(vars, description, calls[0].path, calls[0].fw), calls[1..];
    var all, tail := Outcomes(vars, description, calls), Outcomes(first.vars, description, rest);
    assert forall k | 0 < k < |calls| :: all[k] == tail[k - 1] && calls[k] == rest[k - 1];
    assert forall k | 0 <= k < |rest| :: tail[k] == all[k + 1] && rest[k] == calls[k + 1];
  }

  /** All calls of a run find the first carrier exactly when all of them can read it. */
  lemma {:induction false} PresentForeverIff(vars: Vars, description: string, calls: seq<Call>, n: U16)
    requires FirstCarrier(vars, description, n)
    ensures AllFind(calls, Outcomes(vars, description, calls), n) <==> AllCanRead(calls, n)
    decreases |calls|
  {
    if |calls| == 0 {
    } else {
      FoundIffReadable(vars, description, n, calls[0].fw);
      FoundCons(vars, description, calls, n);
      PresentForeverIff(vars, description, calls[1..], n);
      assert AllCanRead(calls, n) <==> calls[0].CanRead(n) && AllCanRead(calls[1..], n) by {
        assert forall k | 0 < k < |calls| :: calls[k] == calls[1..][k - 1];
        assert forall k | 0 <= k < |calls| - 1 :: calls[1..][k] == calls[k + 1];
      }
    }
  }

  /** The variables after the first `i` calls. */
  function AfterCalls(vars: Vars, description: string, calls: seq<Call>, i: nat): Vars
    requires i <= |calls|
    decreases i
  {
    if i == 0 then vars
    else AfterCalls(Installed(vars, description, calls[0].path, calls[0].fw).vars, description, calls[1..], i - 1)
  }

  lemma {:induction false} OutcomesFrom(vars: Vars, description: string, calls: seq<Call>, i: nat)
    requires i <= |calls|
    ensures Outcomes(vars, description, calls)[i..]
      == Outcomes(AfterCalls(vars, description, calls, i), description, calls[i..])
    decreases i
  {
    if i == 0 {
      assert calls[0..] == calls;
    } else {
      var first, rest := Installed(vars, description, calls[0].path, calls[0].fw), calls[1..];
      OutcomesFrom(first.vars, description, rest, i - 1);
      assert rest[i - 1..] == calls[i..];
      assert Outcomes(vars, description, calls)[i..] == Outcomes(first.vars, description, rest)[i - 1..];
    }
  }

  /**
    In every run, once a call has created an entry, all later calls find that entry and create nothing
    exactly when those that scan can read it.
  */
  lemma {:induction false} CreatedOnceIff(vars: Vars, description: string, calls: seq<Call>, i: nat)
    requires '\0' !in description && i < |calls| && Outcomes(vars, description, calls)[i].Created?
    ensures var r := Outcomes(vars, description, calls);
      AllFind(calls[i + 1..], r[i + 1..], r[i].n) <==> AllCanRead(calls[i + 1..], r[i].n)
  {
    var before, rest := AfterCalls(vars, description, calls, i), calls[i..];
    OutcomesFrom(vars, description, calls, i);
    var r, tail := Outcomes(vars, description, calls), Outcomes(before, description, rest);
    assert tail[0] == r[i] && tail[1..] == r[i + 1..] && rest[1..] == calls[i + 1..];
    var first := Installed(before, description, rest[0].path, rest[0].fw);
    CreatedIsFirstCarrier(before, description, rest[0].path.bytes, rest[0].fw);
    PresentForeverIff(first.vars, description, rest[1..], r[i].n);
  }
}
