/** Byte sequences: little-endian integers with wrapping addition, and overwriting in place. */
module LittleEndian {

  type byte = x: int | 0 <= x < 256

  function Value(s: seq<byte>): nat {
    if |s| == 0 then 0 else s[0] + 256 * Value(s[1..])
  }

  /** The `n` low bytes of `v`. */
  function Bytes(v: nat, n: nat): (s: seq<byte>)
    ensures |s| == n
  {
    if n == 0 then [] else [v % 256] + Bytes(v / 256, n - 1)
  }

  function Power(n: nat): nat {
    if n == 0 then 1 else 256 * Power(n - 1)
  }

  /** `s` with `d` added to it, keeping the width: a wrapping addition. */
  function Add(s: seq<byte>, d: nat): (r: seq<byte>)
    ensures |r| == |s|
  {
    Bytes(Value(s) + d, |s|)
  }

  lemma {:induction false} BytesOfValue(s: seq<byte>)
    ensures Bytes(Value(s), |s|) == s
  {
    if |s| == 0 {
    } else {
      BytesOfValue(s[1..]);
      assert Value(s) % 256 == s[0] && Value(s) / 256 == Value(s[1..]);
    }
  }

  lemma {:induction false} ValueBound(s: seq<byte>)
    ensures Value(s) < Power(|s|)
  {
    if |s| == 0 {
    } else {
      ValueBound(s[1..]);
    }
  }

  lemma {:induction false} ValueOfBytes(v: nat, n: nat)
    requires v < Power(n)
    ensures Value(Bytes(v, n)) == v
    decreases n
  {
    if n == 0 {
    } else {
      ValueOfBytes(v / 256, n - 1);
      assert Bytes(v, n)[1..] == Bytes(v / 256, n - 1);
    }
  }

  /** Truncation commutes with addition. */
  lemma {:induction false} AddToBytes(v: nat, e: nat, n: nat)
    ensures Add(Bytes(v, n), e) == Bytes(v + e, n)
  {
    if n == 0 {
    } else {
      var s := Bytes(v, n);
      var low := Value(s[1..]);
      var carry := (v % 256 + e) / 256;
      assert s[1..] == Bytes(v / 256, n - 1);
      AddToBytes(v / 256, carry, n - 1);
      assert (Value(s) + e) / 256 == low + carry && (v + e) / 256 == v / 256 + carry;
      assert (Value(s) + e) % 256 == (v + e) % 256;
    }
  }

  lemma AddAdd(s: seq<byte>, d: nat, e: nat)
    ensures Add(Add(s, d), e) == Add(s, d + e)
  {
    AddToBytes(Value(s) + d, e, |s|);
  }

  /** Multiples of the width's modulus vanish. */
  lemma {:induction false} BytesWrap(v: nat, k: nat, n: nat)
    ensures Bytes(v + k * Power(n), n) == Bytes(v, n)
  {
    if n == 0 {
    } else {
      var p := k * Power(n - 1);
      assert k * Power(n) == 256 * p;
      BytesWrap(v / 256, k, n - 1);
      assert (v + 256 * p) / 256 == v / 256 + p && (v + 256 * p) % 256 == v % 256;
    }
  }

  lemma {:induction false} AddWrap(s: seq<byte>, d: nat, k: nat, wrap: nat)
    requires wrap == k * Power(|s|)
    ensures Add(s, d + wrap) == Add(s, d)
  {
    var v := Value(s) + d;
    BytesWrap(v, k, |s|);
    assert Value(s) + (d + wrap) == v + wrap;
  }

  /** Adding a multiple of 256 leaves the lowest byte and adds to the rest. */
  lemma AddShift(s: seq<byte>, d: nat)
    requires |s| != 0
    ensures Add(s, 256 * d) == [s[0]] + Add(s[1..], d)
  {
    assert (Value(s) + 256 * d) % 256 == s[0];
    assert (Value(s) + 256 * d) / 256 == Value(s[1..]) + d;
  }

  lemma {:induction false} AddAbove(s: seq<byte>, d: nat, j: nat)
    requires j <= |s|
    ensures Add(s, d * Power(j)) == s[..j] + Add(s[j..], d)
  {
    if j == 0 {
      assert s[0..] == s && d * Power(0) == d;
    } else {
      var e := d * Power(j - 1);
      assert d * Power(j) == 256 * e;
      AddShift(s, e);
      AddAbove(s[1..], d, j - 1);
      assert s[1..][j - 1..] == s[j..];
      assert s[1..][..j - 1] == s[1..j];
      assert s[..j] == [s[0]] + s[1..j];
    }
  }

  /** What the low bytes leave out is a multiple of the width's modulus. */
  lemma {:induction false} LowBytes(v: nat, n: nat) returns (q: nat)
    ensures v == Value(Bytes(v, n)) + q * Power(n) && Value(Bytes(v, n)) < Power(n)
    decreases n
  {
    if n == 0 {
      q := v;
    } else {
      q := LowBytes(v / 256, n - 1);
      assert Bytes(v, n)[1..] == Bytes(v / 256, n - 1);
      assert q * Power(n) == 256 * (q * Power(n - 1));
    }
  }

  // ---------------------------------------------------------------------------
  // Parts
  // ---------------------------------------------------------------------------

  /** `part` stands in `bytes` at `i`. */
  predicate HasAt(bytes: seq<byte>, i: nat, part: seq<byte>) {
    i + |part| <= |bytes| && bytes[i..i + |part|] == part
  }

  lemma HasAtConcat(bytes: seq<byte>, i: nat, a: seq<byte>, b: seq<byte>)
    requires HasAt(bytes, i, a + b)
    ensures HasAt(bytes, i, a) && HasAt(bytes, i + |a|, b)
  {
    var part := bytes[i..i + |a + b|];
    assert bytes[i..i + |a|] == part[..|a|] && bytes[i + |a|..i + |a| + |b|] == part[|a|..];
  }

  lemma ValueAt(bytes: seq<byte>, i: nat, v: nat, n: nat)
    requires HasAt(bytes, i, Bytes(v, n)) && v < Power(n)
    ensures i + n <= |bytes| && Value(bytes[i..i + n]) == v
  {
    ValueOfBytes(v, n);
  }

  // ---------------------------------------------------------------------------
  // Overwriting
  // ---------------------------------------------------------------------------

  /** `image` with `data` written at `at`, byte by byte. */
  function Overwritten(image: seq<byte>, at: nat, data: seq<byte>): (r: seq<byte>)
    requires at + |data| <= |image|
    ensures |r| == |image| && r[at..at + |data|] == data
    ensures forall i | 0 <= i < |image| && !(at <= i < at + |data|) :: r[i] == image[i]
    decreases |data|
  {
    if |data| == 0 then image
    else
      var r := Overwritten(image[at := data[0]], at + 1, data[1..]);
      assert r[at..at + |data|] == [r[at]] + r[at + 1..at + |data|];
      r
  }

  /** Copies `data` over the bytes at `at`. */
  method Overwrite(image: array<byte>, at: nat, data: seq<byte>)
    requires at + |data| <= image.Length
    modifies image
    ensures image[..] == Overwritten(old(image[..]), at, data)
  {
    ghost var goal := Overwritten(image[..], at, data);
    var i: nat := 0;
    assert data[0..] == data;
    while i < |data|
      invariant i <= |data| && goal == Overwritten(image[..], at + i, data[i..])
    {
      ghost var before := image[..];
      image[at + i] := data[i];
      assert image[..] == before[at + i := data[i]];
      assert data[i..][1..] == data[i + 1..];
      i := i + 1;
    }
  }
}
