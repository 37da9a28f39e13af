/**
  The text variables that LamBoot leaves for the operating system (`set_boot_count_path` in
  `health.rs`): the bytes of the text, each widened to 16 bits, where the reader expects UTF-16.
*/
module LoaderVariables {
  import opened Orders
  import opened LittleEndian
  import opened SelfInstall

  predicate IsAscii(s: string) { forall i | 0 <= i < |s| :: s[i] as int < 0x80 }

  function Utf8Char(c: char): (r: seq<byte>)
    ensures |r| > 0 && (|r| == 1 <==> c as int < 0x80)
  {
    var n := c as int;
    if n < 0x80 then [n]
    else if n < 0x800 then [0xC0 + n / 0x40, 0x80 + n % 0x40]
    else if n < 0x1_0000 then [0xE0 + n / 0x1000, 0x80 + n / 0x40 % 0x40, 0x80 + n % 0x40]
    else [0xF0 + n / 0x4_0000, 0x80 + n / 0x1000 % 0x40, 0x80 + n / 0x40 % 0x40, 0x80 + n % 0x40]
  }

  function Utf8(s: string): seq<byte> {
    if |s| == 0 then [] else Utf8Char(s[0]) + Utf8(s[1..])
  }

  /** Each byte as a 16-bit unit of its own, whatever character it belongs to. */
  function Widened(bytes: seq<byte>): (r: seq<U16>)
    ensures |r| == |bytes| && forall i | 0 <= i < |r| :: r[i] == bytes[i]
  {
    seq(|bytes|, i requires 0 <= i < |bytes| => bytes[i])
  }

  /** The value of LoaderBootCountPath: at most 256 bytes of the text, widened, with a NUL. */
  function BootCountPath(path: string): seq<byte> {
    UnitBytes(Widened(Utf8(path)[..Min(256, |Utf8(path)|)])) + Bytes(0, 2)
  }

  method WriteBootCountPath(path: string) returns (out: seq<byte>)
    ensures out == BootCountPath(path)
  {
    var bytes := Utf8(path);
    out := WriteUnits(Widened(bytes[..Min(256, |bytes|)]));
    out := out + Bytes(0, 2);
  }

  lemma {:induction false} Utf8OfAscii(s: string)
    requires IsAscii(s)
    ensures |Utf8(s)| == |s| && forall i | 0 <= i < |s| :: Utf8(s)[i] == s[i] as int
  {
    if |s| == 0 {
    } else {
      Utf8OfAscii(s[1..]);
    }
  }

  lemma {:induction false} Utf8IsLonger(s: string)
    ensures |Utf8(s)| >= |s| && (|Utf8(s)| == |s| ==> IsAscii(s))
  {
    if |s| == 0 {
    } else {
      Utf8IsLonger(s[1..]);
      assert forall i | 0 < i < |s| :: s[i] == s[1..][i - 1];
    }
  }

  lemma {:induction false} Utf8HasNoZero(s: string)
    requires '\0' !in s
    ensures forall i | 0 <= i < |Utf8(s)| :: Utf8(s)[i] != 0
  {
    if |s| == 0 {
    } else {
      assert s[0] in s && forall i | 0 <= i < |s| - 1 :: s[1..][i] in s;
      Utf8HasNoZero(s[1..]);
    }
  }

  /** Units of one byte decode to one character each. */
  lemma {:induction false} DecodeNarrow(units: seq<U16>)
    requires forall i | 0 <= i < |units| :: units[i] < 0x100
    ensures |Decode(units)| == |units| && forall i | 0 <= i < |units| :: Decode(units)[i] as int == units[i]
  {
    if |units| == 0 {
    } else {
      DecodeNarrow(units[1..]);
    }
  }

  /** What a reader of the variable gets. */
  lemma {:induction false} BootCountPathReads(path: string)
    requires '\0' !in path
    ensures UnitsToNul(BootCountPath(path), 0) == Widened(Utf8(path)[..Min(256, |Utf8(path)|)])
  {
    var units := Widened(Utf8(path)[..Min(256, |Utf8(path)|)]);
    Utf8HasNoZero(path);
    var bytes := BootCountPath(path);
    assert bytes[0..|UnitBytes(units)|] == UnitBytes(units) && bytes[|UnitBytes(units)|..] == Bytes(0, 2);
    NonzeroAt(bytes, 0, units);
    UnitAt(bytes, 2 * |units|, 0);
    assert units + [] == units;
  }

  /**
    A path reads back exactly when it is ASCII and not cut. Left open are paths of 256 characters and more
    bytes, where the cut leaves the right number of characters.
  */
  lemma {:induction false} AnnouncementReadsBackIff(path: string)
    requires '\0' !in path && (|Utf8(path)| <= 256 || |path| != 256)
    ensures Decode(UnitsToNul(BootCountPath(path), 0)) == path <==> IsAscii(path) && |path| <= 256
  {
    var units := Widened(Utf8(path)[..Min(256, |Utf8(path)|)]);
    BootCountPathReads(path);
    DecodeNarrow(units);
    Utf8IsLonger(path);
    if IsAscii(path) {
      Utf8OfAscii(path);
      if |path| <= 256 {
        assert forall i | 0 <= i < |path| :: Decode(units)[i] as int == path[i] as int;
      }
    }
  }
}
