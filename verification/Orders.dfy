/** Shared vocabulary: three-way comparison results, the lexicographic order they induce,
    decimal numerals, small helpers. */
module Orders {

  datatype Option<+T> = None | Some(value: T)

  datatype Ordering = Less | Equal | Greater {
    function Reverse(): Ordering {
      match this
      case Less => Greater
      case Equal => Equal
      case Greater => Less
    }

    /** This result, or `next` when this one does not decide. */
    function Then(next: Ordering): Ordering {
      if Equal? then next else this
    }
  }

  function Min(a: nat, b: nat): nat { if a < b then a else b }

  function SaturatingSub(a: nat, b: nat): nat { if a < b then 0 else a - b }

  function SaturatingIncrement(n: nat, max: nat): nat { if n < max then n + 1 else max }

  predicate IsDigit(c: char) { '0' <= c <= '9' }

  predicate AllDigits(s: string) { forall i | 0 <= i < |s| :: IsDigit(s[i]) }

  /** The number a decimal numeral stands for. */
  function Decimal(s: string): nat
    requires AllDigits(s)
  {
    if |s| == 0 then 0 else Decimal(s[..|s| - 1]) * 10 + (s[|s| - 1] as int - '0' as int)
  }

  lemma {:induction false} ZeroInFront(s: string)
    requires AllDigits(s)
    ensures Decimal("0" + s) == Decimal(s)
    decreases |s|
  {
    if |s| == 0 {
      assert "0" + s == "0" && "0"[..0] == "";
    } else {
      ZeroInFront(s[..|s| - 1]);
      assert ("0" + s)[..|s|] == "0" + s[..|s| - 1];
    }
  }

  /** ASCII letters in lower case. */
  function LowerChar(c: char): char {
    if 'A' <= c <= 'Z' then (c as int + 32) as char else c
  }

  function Lower(s: string): (r: string)
    ensures |r| == |s|
  {
    seq(|s|, i requires 0 <= i < |s| => LowerChar(s[i]))
  }

  function CompareInt(x: int, y: int): Ordering {
    if x < y then Less else if x == y then Equal else Greater
  }

  function CompareChar(x: char, y: char): Ordering {
    CompareInt(x as int, y as int)
  }

  /** Total orders: only equal values compare equal, swapping reverses, and `Less` chains. */
  ghost predicate IsOrder<T(!new)>(cmp: (T, T) -> Ordering) {
    && (forall x, y :: cmp(x, y) == Equal <==> x == y)
    && (forall x, y :: cmp(y, x) == cmp(x, y).Reverse())
    && (forall x, y, z :: cmp(x, y) == Less && cmp(y, z) == Less ==> cmp(x, z) == Less)
  }

  /** Lexicographic comparison; a proper prefix comes first. */
  function Lex<T>(cmp: (T, T) -> Ordering, a: seq<T>, b: seq<T>): Ordering {
    if |a| == 0 || |b| == 0 then CompareInt(|a|, |b|)
    else cmp(a[0], b[0]).Then(Lex(cmp, a[1..], b[1..]))
  }

  lemma {:induction false} LexEqual<T(!new)>(cmp: (T, T) -> Ordering, a: seq<T>, b: seq<T>)
    requires IsOrder(cmp)
    ensures Lex(cmp, a, b) == Equal <==> a == b
  {
    if |a| != 0 && |b| != 0 {
      LexEqual(cmp, a[1..], b[1..]);
      assert a == [a[0]] + a[1..] && b == [b[0]] + b[1..];
    }
  }

  lemma {:induction false} LexSwap<T(!new)>(cmp: (T, T) -> Ordering, a: seq<T>, b: seq<T>)
    requires IsOrder(cmp)
    ensures Lex(cmp, b, a) == Lex(cmp, a, b).Reverse()
  {
    if |a| != 0 && |b| != 0 {
      LexSwap(cmp, a[1..], b[1..]);
    }
  }

  lemma {:induction false} LexTransitive<T(!new)>(cmp: (T, T) -> Ordering, a: seq<T>, b: seq<T>, c: seq<T>)
    requires IsOrder(cmp)
    requires Lex(cmp, a, b) == Less && Lex(cmp, b, c) == Less
    ensures Lex(cmp, a, c) == Less
  {
    if |a| != 0 && |b| != 0 && |c| != 0 && cmp(a[0], b[0]) == Equal && cmp(b[0], c[0]) == Equal {
      LexTransitive(cmp, a[1..], b[1..], c[1..]);
    }
  }

  /** `str::cmp`: UTF-8 byte order, which is the order of the scalar values. */
  function CompareText(a: string, b: string): Ordering {
    Lex(CompareChar, a, b)
  }

  lemma TextIsOrder()
    ensures IsOrder(CompareText)
  {
    assert IsOrder(CompareChar);
    forall a: string, b: string
      ensures CompareText(a, b) == Equal <==> a == b
      ensures CompareText(b, a) == CompareText(a, b).Reverse()
    {
      LexEqual(CompareChar, a, b);
      LexSwap(CompareChar, a, b);
    }
    forall a: string, b: string, c: string | CompareText(a, b) == Less && CompareText(b, c) == Less
      ensures CompareText(a, c) == Less
    {
      LexTransitive(CompareChar, a, b, c);
    }
  }
}
