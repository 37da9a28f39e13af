/**
  Boot counting in entry file names, `<id>+<left>[-<done>].conf`: the parser in `bls_parse.rs` and the
  decrement in `bls.rs` that prints the next name and renames the file.
*/
module BootCount {
  import opened Orders
  import opened EspVolume
  import LittleEndian
  import LoaderVariables
  import Paths

  const U32_MAX: nat := 0xFFFF_FFFF
  const EXTENSION := ".conf"

  // ---------------------------------------------------------------------------
  // Decimal numbers
  // ---------------------------------------------------------------------------

  function Digit(n: nat): (c: char)
    requires n < 10
    ensures IsDigit(c) && c as int - '0' as int == n
  {
    ('0' as int + n) as char
  }

  function Print(n: nat): (s: string)
    ensures AllDigits(s) && |s| > 0
  {
    if n < 10 then [Digit(n)] else Print(n / 10) + [Digit(n % 10)]
  }

  /** Right-aligned in `width` characters, filled with zeros. */
  function Padded(s: string, width: nat): (r: string)
    requires AllDigits(s)
    ensures AllDigits(r) && |r| == if |s| < width then width else |s|
    decreases width - |s|
  {
    if |s| >= width then s else Padded("0" + s, width)
  }

  /** Unsigned decimal text of 32 bits. */
  function ParseU32(s: string): Option<nat> {
    if |s| == 0 || !AllDigits(s) || Decimal(s) > U32_MAX then None else Some(Decimal(s))
  }

  lemma {:induction false} PrintValue(n: nat)
    ensures Decimal(Print(n)) == n
  {
    if n < 10 {
      assert [Digit(n)][..0] == "";
    } else {
      PrintValue(n / 10);
      assert Print(n)[..|Print(n)| - 1] == Print(n / 10);
    }
  }

  lemma {:induction false} PaddedValue(s: string, width: nat)
    requires AllDigits(s)
    ensures Decimal(Padded(s, width)) == Decimal(s)
    decreases width - |s|
  {
    if |s| < width {
      ZeroInFront(s);
      PaddedValue("0" + s, width);
    }
  }

  lemma OneDigit(s: string)
    requires |s| == 1 && AllDigits(s)
    ensures Decimal(s) == s[0] as int - '0' as int
  {
    assert s[..0] == "";
  }

  /** No numeral of a larger number is shorter than the printed one. */
  lemma {:induction false} PrintIsShortest(s: string, n: nat)
    requires |s| > 0 && AllDigits(s) && n <= Decimal(s)
    ensures |Print(n)| <= |s|
    decreases |s|
  {
    if |s| == 1 {
      OneDigit(s);
    } else if n >= 10 {
      PrintIsShortest(s[..|s| - 1], n / 10);
    }
  }

  function Numeral(n: nat, width: nat): (s: string)
    ensures AllDigits(s) && |s| > 0
  {
    Padded(Print(n), width)
  }

  lemma NumeralParses(n: nat, width: nat)
    requires n <= U32_MAX
    ensures ParseU32(Numeral(n, width)) == Some(n)
  {
    PrintValue(n);
    PaddedValue(Print(n), width);
  }

  // ---------------------------------------------------------------------------
  // File names
  // ---------------------------------------------------------------------------

  function Trimmed(name: string): (r: string)
    ensures r <= name
    decreases |name|
  {
    if |name| >= |EXTENSION| && name[|name| - |EXTENSION|..] == EXTENSION then
      Trimmed(name[..|name| - |EXTENSION|])
    else name
  }

  /** The last position of `c`, or -1. */
  function Last(s: string, c: char): (p: int)
    ensures -1 <= p < |s| && (p >= 0 ==> s[p] == c)
    ensures forall i | p < i < |s| :: s[i] != c
  {
    if |s| == 0 then -1
    else if s[|s| - 1] == c then |s| - 1
    else Last(s[..|s| - 1], c)
  }

  /** The first position of `c` from `i` on, or the length. */
  function First(s: string, c: char, i: nat): (p: nat)
    requires i <= |s|
    ensures i <= p <= |s| && (p < |s| ==> s[p] == c)
    ensures forall j | i <= j < p :: s[j] != c
    decreases |s| - i
  {
    if i == |s| || s[i] == c then i else First(s, c, i + 1)
  }

  /** Where the digits from `i` on end. */
  function DigitsEnd(s: string, i: nat): (p: nat)
    requires i <= |s|
    ensures i <= p <= |s| && (p < |s| ==> !IsDigit(s[p]))
    ensures forall j | i <= j < p :: IsDigit(s[j])
    decreases |s| - i
  {
    if i == |s| || !IsDigit(s[i]) then i else DigitsEnd(s, i + 1)
  }

  datatype Counted = Counted(id: string, left: Option<nat>, done: Option<nat>)

  function CountedAt(name: string, plus: nat, dash: nat): Counted
    requires plus < dash <= |name|
  {
    Counted(
      name[..plus],
      ParseU32(name[plus + 1..dash]),
      if dash < |name| then ParseU32(name[dash + 1..]) else Some(0))
  }

  function ParseStem(name: string): Counted {
    var plus := Last(name, '+');
    if plus < 0 then Counted(name, None, None) else CountedAt(name, plus, First(name, '-', plus + 1))
  }

  /** The file-name part of `BlsEntry::parse`. */
  function Parse(filename: string): Counted { ParseStem(Trimmed(filename)) }

  datatype CountState = Good | Indeterminate | Bad

  function BootCountState(c: Counted): CountState {
    match c.left
    case None => Good
    case Some(n) => if n == 0 then Bad else Indeterminate
  }

  /** The number of digits after the last marker, wherever in the name that is. */
  function DigitsAfter(name: string, marker: char): nat {
    var at := Last(name, marker);
    if at < 0 then 0 else DigitsEnd(name, at + 1) - (at + 1)
  }

  function CountDigits(filename: string, marker: char): nat { DigitsAfter(Trimmed(filename), marker) }

  function Done(c: Counted): nat { if c.done.Some? then c.done.value else 0 }

  function Max(a: nat, b: nat): nat { if a < b then b else a }

  /** `id` with a count of tries left and, after a dash, tries done. */
  function Suffixed(id: string, left: string, done: Option<string>): string {
    id + "+" + left + (if done.Some? then "-" + done.value else "")
  }

  function NextLeft(c: Counted, width: nat): string
    requires c.left.Some? && c.left.value > 0
  {
    Numeral(c.left.value - 1, Max(width, 1))
  }

  function NextDone(c: Counted, width: nat): Option<string> {
    if width > 0 then Some(Numeral(SaturatingIncrement(Done(c), U32_MAX), width)) else None
  }

  /** One try fewer left and one more done, in the given digit widths; width 0 prints no done count. */
  function NextName(c: Counted, leftWidth: nat, doneWidth: nat): string
    requires c.left.Some? && c.left.value > 0
  {
    Suffixed(c.id, NextLeft(c, leftWidth), NextDone(c, doneWidth)) + EXTENSION
  }

  /** The name `decrement_boot_count` renames to; it refuses uncounted and bad entries. */
  function Decremented(filename: string): Option<string> {
    var c := Parse(filename);
    if c.left.None? || c.left.value == 0 then None
    else Some(NextName(c, CountDigits(filename, '+'), CountDigits(filename, '-')))
  }

  // ---------------------------------------------------------------------------
  // Printing and parsing back
  // ---------------------------------------------------------------------------

  lemma {:induction false} TrimmedDigit(name: string)
    requires |name| > 0 && IsDigit(name[|name| - 1])
    ensures Trimmed(name + EXTENSION) == name
  {
    var full := name + EXTENSION;
    assert full[|full| - |EXTENSION|..] == EXTENSION && full[..|full| - |EXTENSION|] == name;
    if |name| >= |EXTENSION| {
      assert name[|name| - |EXTENSION|..][|EXTENSION| - 1] == name[|name| - 1];
    }
  }

  ghost predicate Numerals(left: string, done: Option<string>) {
    AllDigits(left) && |left| > 0 && (done.Some? ==> AllDigits(done.value) && |done.value| > 0)
  }

  lemma SuffixedAt(id: string, left: string, done: Option<string>)
    requires Numerals(left, done)
    ensures var name, plus, dash := Suffixed(id, left, done), |id|, |id| + 1 + |left|;
      && Last(name, '+') == plus && First(name, '-', plus + 1) == dash
      && name[..plus] == id && name[plus + 1..dash] == left
      && (dash < |name| <==> done.Some?) && (done.Some? ==> name[dash + 1..] == done.value)
      && IsDigit(name[|name| - 1])
  {
    var name, plus, dash := Suffixed(id, left, done), |id|, |id| + 1 + |left|;
    assert name[plus] == '+' && name[..plus] == id && name[plus + 1..dash] == left;
    assert forall i | plus < i < dash :: name[i] == left[i - plus - 1];
    if done.Some? {
      assert name[dash] == '-' && name[dash + 1..] == done.value;
      assert forall i | dash < i < |name| :: name[i] == done.value[i - dash - 1];
    }
  }

  lemma {:induction false} StemParses(name: string, id: string, left: string, done: Option<string>, dash: nat)
    requires Last(name, '+') == |id| < dash <= |name| && First(name, '-', |id| + 1) == dash
    requires name[..|id|] == id && name[|id| + 1..dash] == left && (dash < |name| <==> done.Some?)
    requires done.Some? ==> name[dash + 1..] == done.value
    ensures ParseStem(name) == Counted(id, ParseU32(left), if done.Some? then ParseU32(done.value) else Some(0))
  {
  }

  lemma SuffixedParses(id: string, left: string, done: Option<string>)
    requires Numerals(left, done)
    ensures Parse(Suffixed(id, left, done) + EXTENSION)
      == Counted(id, ParseU32(left), if done.Some? then ParseU32(done.value) else Some(0))
  {
    SuffixedAt(id, left, done);
    StemParses(Suffixed(id, left, done), id, left, done, |id| + 1 + |left|);
    TrimmedDigit(Suffixed(id, left, done));
  }

  lemma DigitsBetween(s: string, i: nat, j: nat)
    requires i <= j <= |s| && AllDigits(s[i..j]) && (j < |s| ==> !IsDigit(s[j]))
    ensures DigitsEnd(s, i) == j
  {
    assert forall k | i <= k < j :: s[k] == s[i..j][k - i];
  }

  lemma SuffixedWidth(id: string, left: string, done: Option<string>)
    requires Numerals(left, done)
    ensures CountDigits(Suffixed(id, left, done) + EXTENSION, '+') == |left|
  {
    var name, plus, dash := Suffixed(id, left, done), |id|, |id| + 1 + |left|;
    SuffixedAt(id, left, done);
    TrimmedDigit(name);
    DigitsBetween(name, plus + 1, dash);
  }

  lemma {:induction false} SuffixedDoneWidth(id: string, left: string, done: string)
    requires Numerals(left, Some(done))
    ensures CountDigits(Suffixed(id, left, Some(done)) + EXTENSION, '-') == |done|
  {
    var name, dash := Suffixed(id, left, Some(done)), |id| + 1 + |left|;
    SuffixedAt(id, left, Some(done));
    TrimmedDigit(name);
    assert name[dash] == '-' && forall i | dash < i < |name| :: name[i] == name[dash + 1..][i - dash - 1];
    assert Last(name, '-') == dash;
    DigitsBetween(name, dash + 1, |name|);
  }

  /** A counted name shows its count of tries left in exactly the digits after the plus. */
  lemma LeftDigits(filename: string) returns (left: string)
    requires Parse(filename).left.Some?
    ensures AllDigits(left) && |left| == CountDigits(filename, '+') && |left| > 0
    ensures Decimal(left) == Parse(filename).left.value <= U32_MAX
    ensures var at := |Parse(filename).id| + 1; at + |left| <= |filename| && left == filename[at..at + |left|]
  {
    var name := Trimmed(filename);
    var plus := Last(name, '+');
    var dash := First(name, '-', plus + 1);
    DigitsBetween(name, plus + 1, dash);
    left := name[plus + 1..dash];
  }

  lemma {:induction false} NextNameParses(c: Counted, leftWidth: nat, doneWidth: nat)
    requires c.left.Some? && 0 < c.left.value <= U32_MAX
    ensures Parse(NextName(c, leftWidth, doneWidth)) ==
      Counted(c.id, Some(c.left.value - 1), Some(if doneWidth > 0 then SaturatingIncrement(Done(c), U32_MAX) else 0))
  {
    NumeralParses(c.left.value - 1, Max(leftWidth, 1));
    NumeralParses(SaturatingIncrement(Done(c), U32_MAX), doneWidth);
    SuffixedParses(c.id, NextLeft(c, leftWidth), NextDone(c, doneWidth));
  }

  lemma {:induction false} NextNameWidths(c: Counted, leftWidth: nat, doneWidth: nat)
    requires c.left.Some? && c.left.value > 0 && |Print(c.left.value - 1)| <= leftWidth
    ensures CountDigits(NextName(c, leftWidth, doneWidth), '+') == leftWidth
    ensures doneWidth > 0 ==> CountDigits(NextName(c, leftWidth, doneWidth), '-') > 0
  {
    SuffixedWidth(c.id, NextLeft(c, leftWidth), NextDone(c, doneWidth));
    if doneWidth > 0 {
      SuffixedDoneWidth(c.id, NextLeft(c, leftWidth), NextDone(c, doneWidth).value);
    }
  }

  /** Digits follow the last dash of the name, so the next name prints a done count. */
  predicate PrintsDone(filename: string) { CountDigits(filename, '-') > 0 }

  /** What `d`, parsed from the name after `c`, must be. */
  predicate Steps(c: Counted, printsDone: bool, d: Counted) {
    && c.left.Some? && c.left.value > 0 && d.id == c.id && d.left == Some(c.left.value - 1)
    && d.done == Some(if printsDone then SaturatingIncrement(Done(c), U32_MAX) else 0)
  }

  /** What parsing the next name gives. */
  lemma {:induction false} DecrementedParses(filename: string)
    requires Parse(filename).left.Some? && Parse(filename).left.value > 0
    ensures Decremented(filename).Some?
    ensures var next := Decremented(filename).value;
      && Steps(Parse(filename), PrintsDone(filename), Parse(next))
      && CountDigits(next, '+') == CountDigits(filename, '+')
      && (PrintsDone(filename) ==> PrintsDone(next))
  {
    var left := LeftDigits(filename);
    PrintIsShortest(left, Parse(filename).left.value - 1);
    NextNameParses(Parse(filename), CountDigits(filename, '+'), CountDigits(filename, '-'));
    NextNameWidths(Parse(filename), CountDigits(filename, '+'), CountDigits(filename, '-'));
  }

  /** `n` decrements in a row, as far as they are not refused. */
  function Decrements(filename: string, n: nat): string
    decreases n
  {
    if n == 0 then filename
    else match Decremented(filename)
      case None => filename
      case Some(next) => Decrements(next, n - 1)
  }

  /** `d` is `c` after `n` tries. */
  predicate After(c: Counted, d: Counted, n: nat) {
    d.id == c.id && c.left.Some? && d.left.Some? && d.left.value + n == c.left.value
  }

  /** The next name, with what the run from it on relies on. */
  lemma {:induction false} NextOf(filename: string, n: nat) returns (next: string)
    requires Parse(filename).left.Some? && 0 < n <= Parse(filename).left.value
    ensures Decrements(filename, n) == Decrements(next, n - 1)
    ensures Steps(Parse(filename), PrintsDone(filename), Parse(next))
    ensures CountDigits(next, '+') == CountDigits(filename, '+') && (PrintsDone(filename) ==> PrintsDone(next))
  {
    DecrementedParses(filename);
    next := Decremented(filename).value;
  }

  /** After `n` decrements `n` tries fewer are left, of the same entry, in the same digit width. */
  lemma {:induction false} AfterDecrements(filename: string, n: nat)
    requires Parse(filename).left.Some? && n <= Parse(filename).left.value
    ensures After(Parse(filename), Parse(Decrements(filename, n)), n)
    ensures CountDigits(Decrements(filename, n), '+') == CountDigits(filename, '+')
    decreases n
  {
    if n == 0 {
    } else {
      var next := NextOf(filename, n);
      AfterDecrements(next, n - 1);
    }
  }

  /** Exactly as many decrements as tries reach the bad state, and only there the step refuses. */
  lemma {:induction false} BadAfterExactly(filename: string, n: nat)
    requires Parse(filename).left.Some? && n <= Parse(filename).left.value
    ensures BootCountState(Parse(Decrements(filename, n))) == Bad <==> n == Parse(filename).left.value
    ensures Decremented(Decrements(filename, n)).None? <==> n == Parse(filename).left.value
  {
    AfterDecrements(filename, n);
  }

  /** Tries left and tries done together. */
  function Tries(c: Counted): nat
    requires c.left.Some?
  {
    c.left.value + Done(c)
  }

  /**
    What `n` decrements have made of the tries: they never grow, they are conserved exactly when a
    done count is printed that does not saturate, and that has then grown by `n`.
  */
  predicate Tallies(c: Counted, printsDone: bool, e: Counted, n: nat) {
    && c.left.Some? && e.left.Some? && Tries(e) <= Tries(c)
    && (Tries(e) == Tries(c) <==> n == 0 || (printsDone && Done(c) + n <= U32_MAX))
    && (printsDone && Done(c) + n <= U32_MAX ==> Done(e) == Done(c) + n)
  }

  /** The parsed names of a run, and which of them print a done count. */
  ghost predicate IsTrace(cs: seq<Counted>, ps: seq<bool>) {
    && |cs| == |ps| > 0 && (forall i | 0 <= i < |cs| :: Done(cs[i]) <= U32_MAX && cs[i].left.Some?)
    && (forall i | 0 < i < |cs| :: Steps(cs[i - 1], ps[i - 1], cs[i]) && (ps[i - 1] ==> ps[i]))
  }

  lemma TraceCons(c: Counted, p: bool, cs: seq<Counted>, ps: seq<bool>)
    requires IsTrace(cs, ps) && Done(c) <= U32_MAX && Steps(c, p, cs[0]) && (p ==> ps[0])
    ensures IsTrace([c] + cs, [p] + ps)
  {
    var ds, qs := [c] + cs, [p] + ps;
    forall i | 0 < i < |ds|
      ensures Steps(ds[i - 1], qs[i - 1], ds[i]) && (qs[i - 1] ==> qs[i])
    {
      assert i > 1 ==> Steps(cs[i - 2], ps[i - 2], cs[i - 1]);
    }
  }

  lemma {:induction false} Trace(filename: string, n: nat) returns (cs: seq<Counted>, ps: seq<bool>)
    requires Parse(filename).left.Some? && n <= Parse(filename).left.value
    ensures IsTrace(cs, ps) && |cs| == n + 1
    ensures cs[0] == Parse(filename) && ps[0] == PrintsDone(filename) && cs[n] == Parse(Decrements(filename, n))
    decreases n
  {
    cs, ps := [Parse(filename)], [PrintsDone(filename)];
    if n == 0 {
    } else {
      var next := NextOf(filename, n);
      var more, marks := Trace(next, n - 1);
      TraceCons(cs[0], ps[0], more, marks);
      cs, ps := cs + more, ps + marks;
    }
  }

  lemma {:induction false} TraceTallies(cs: seq<Counted>, ps: seq<bool>, n: nat)
    requires IsTrace(cs, ps) && n < |cs|
    ensures Tallies(cs[0], ps[0], cs[n], n) && (ps[0] ==> ps[n])
    decreases n
  {
    if n == 0 {
    } else {
      TraceTallies(cs, ps, n - 1);
      assert Steps(cs[n - 1], ps[n - 1], cs[n]);
    }
  }

  /** Over a whole run the tries are conserved exactly when a done count is printed and never saturates. */
  lemma {:induction false} TriesConservedIff(filename: string, n: nat)
    requires Parse(filename).left.Some? && n <= Parse(filename).left.value
    ensures Tallies(Parse(filename), PrintsDone(filename), Parse(Decrements(filename, n)), n)
  {
    var cs, ps := Trace(filename, n);
    TraceTallies(cs, ps, n);
  }

  // ---------------------------------------------------------------------------
  // Names without a done count
  // ---------------------------------------------------------------------------

  lemma {:induction false} DigitsStop(s: string, i: nat, k: nat)
    requires i <= k < |s| && !IsDigit(s[k])
    ensures DigitsEnd(s, i) == DigitsEnd(s[..k], i)
    decreases k - i
  {
    if i < k && IsDigit(s[i]) {
      DigitsStop(s, i + 1, k);
    }
  }

  lemma PlainDash(id: string, left: string)
    requires AllDigits(left) && |left| > 0
    ensures DigitsAfter(Suffixed(id, left, None), '-') == DigitsAfter(id, '-')
  {
    var name := Suffixed(id, left, None);
    assert name[..|id|] == id && name[|id|] == '+';
    assert forall i | |id| < i < |name| :: name[i] == left[i - |id| - 1];
    assert forall i | 0 <= i < |id| :: name[i] == id[i];
    assert Last(name, '-') == Last(id, '-');
    if Last(id, '-') >= 0 {
      DigitsStop(name, Last(id, '-') + 1, |id|);
    }
  }

  /** Such a name gains a done count exactly when its identifier has digits after its last dash. */
  lemma {:induction false} PlainName(id: string, left: string)
    requires AllDigits(left) && |left| > 0 && 0 < Decimal(left) <= U32_MAX
    ensures Decremented(Suffixed(id, left, None) + EXTENSION)
      == Some(NextName(Counted(id, Some(Decimal(left)), Some(0)), |left|, DigitsAfter(id, '-')))
  {
    SuffixedParses(id, left, None);
    SuffixedWidth(id, left, None);
    SuffixedAt(id, left, None);
    TrimmedDigit(Suffixed(id, left, None));
    PlainDash(id, left);
  }

  lemma PlainText(id: string, left: string)
    ensures Suffixed(id, left, None) + EXTENSION == id + "+" + left + ".conf"
  {
    assert id + "+" + left + "" == id + "+" + left;
  }

  /** Without a dash in the identifier, `+3` becomes `+2` with no done part. */
  lemma {:induction false} PlainStaysPlain(id: string, left: string)
    requires AllDigits(left) && |left| > 0 && 0 < Decimal(left) <= U32_MAX && '-' !in id
    ensures Decremented(id + "+" + left + ".conf") == Some(id + "+" + Numeral(Decimal(left) - 1, |left|) + ".conf")
  {
    PlainName(id, left);
    assert Last(id, '-') < 0;
    PlainText(id, left);
    PlainText(id, Numeral(Decimal(left) - 1, |left|));
  }

  /** `+3-1` becomes `+2-2`: one try fewer, one more done, each as wide as before where it fits. */
  lemma {:induction false} CountedName(id: string, left: string, done: string)
    requires AllDigits(left) && |left| > 0 && 0 < Decimal(left) <= U32_MAX
    requires AllDigits(done) && |done| > 0 && Decimal(done) < U32_MAX
    ensures Decremented(id + "+" + left + "-" + done + ".conf")
      == Some(id + "+" + Numeral(Decimal(left) - 1, |left|) + "-" + Numeral(Decimal(done) + 1, |done|) + ".conf")
  {
    SuffixedParses(id, left, Some(done));
    SuffixedWidth(id, left, Some(done));
    SuffixedDoneWidth(id, left, done);
    var l, d := Numeral(Decimal(left) - 1, |left|), Numeral(Decimal(done) + 1, |done|);
    assert Suffixed(id, left, Some(done)) + EXTENSION == id + "+" + left + "-" + done + ".conf";
    assert Suffixed(id, l, Some(d)) + EXTENSION == id + "+" + l + "-" + d + ".conf";
  }

  // ---------------------------------------------------------------------------
  // The rename on the volume
  // ---------------------------------------------------------------------------

  const ENTRIES: seq<string> := ["loader", "entries"]

  /** The path of an entry file in `/loader/entries`. */
  function EntryPath(name: string): string { Paths.Render(ENTRIES) + "/" + name }

  lemma EntryPathJoins(name: string)
    requires Paths.IsClean(name)
    ensures Paths.Join(Paths.Render(ENTRIES), name) == Paths.Ok(EntryPath(name))
  {
    Paths.JoinName(ENTRIES, name);
  }

  lemma DifferentAt(x: string, y: string) returns (k: nat)
    requires |x| == |y| && x != y
    ensures k < |x| && x[k] != y[k]
  {
    k := 0;
    while x[k] == y[k]
      invariant k < |x| && x[..k] == y[..k]
      decreases |x| - k
    {
      assert x[..k + 1] == y[..k + 1];
      assert x[..|x|] == x && y[..|y|] == y;
      k := k + 1;
    }
  }

  lemma LowerDiffers(a: string, b: string, i: nat)
    requires i < |a| && i < |b| && IsDigit(a[i]) && IsDigit(b[i]) && a[i] != b[i]
    ensures Lower(a) != Lower(b)
  {
    assert Lower(a)[i] == a[i] && Lower(b)[i] == b[i];
  }

  lemma {:induction false} NumeralsDiffer(a: string, b: string, at: nat, x: string, y: string)
    requires |x| == |y| && at + |x| <= |a| && at + |x| <= |b| && a[at..at + |x|] == x && b[at..at + |x|] == y
    requires AllDigits(x) && AllDigits(y) && Decimal(x) != Decimal(y)
    ensures Lower(a) != Lower(b)
  {
    var k := DifferentAt(x, y);
    assert a[at + k] == a[at..at + |x|][k] && b[at + k] == b[at..at + |x|][k];
    LowerDiffers(a, b, at + k);
  }

  /** The next name is another file's name, on a filesystem that ignores case too. */
  lemma NextNameDiffers(filename: string)
    requires Parse(filename).left.Some? && Parse(filename).left.value > 0
    ensures Decremented(filename).Some?
    ensures Lower(filename) != Lower(Decremented(filename).value)
  {
    DecrementedParses(filename);
    var next := Decremented(filename).value;
    var before := LeftDigits(filename);
    var after := LeftDigits(next);
    NumeralsDiffer(filename, next, |Parse(filename).id| + 1, before, after);
  }

  lemma LowerConcat(a: string, b: string)
    ensures Lower(a + b) == Lower(a) + Lower(b)
  {
  }

  lemma PathsDiffer(a: string, b: string)
    requires Lower(a) != Lower(b)
    ensures Name(EntryPath(a)) != Name(EntryPath(b))
  {
    var dir := Paths.Render(ENTRIES) + "/";
    LowerConcat(dir, a);
    LowerConcat(dir, b);
    assert Name(EntryPath(a))[|dir|..] == Lower(a);
    assert Name(EntryPath(b))[|dir|..] == Lower(b);
  }

  lemma NextNameHasNoSlash(c: Counted, leftWidth: nat, doneWidth: nat)
    requires '/' !in c.id && c.left.Some? && c.left.value > 0
    ensures '/' !in NextName(c, leftWidth, doneWidth) && |NextName(c, leftWidth, doneWidth)| > 2
  {
    var left := Numeral(c.left.value - 1, Max(leftWidth, 1));
    assert '/' !in c.id + "+" + left;
  }

  lemma NextNameIsClean(filename: string)
    requires Paths.IsClean(filename) && Parse(filename).left.Some? && Parse(filename).left.value > 0
    ensures Decremented(filename).Some? && Paths.IsClean(Decremented(filename).value)
  {
    var c := Parse(filename);
    assert forall i | 0 <= i < |c.id| :: c.id[i] == filename[i];
    NextNameHasNoSlash(c, CountDigits(filename, '+'), CountDigits(filename, '-'));
  }

  /**
    A step loses no entry, whatever the firmware does after the read, exactly when that read fails,
    the next name is a directory, or the read brings everything and no longer file has the next name.
  */
  lemma DecrementIsSafeIff(store: Store, filename: string, d: Delivery)
    requires Parse(filename).left.Some? && Parse(filename).left.value > 0
    requires ReadFile(store, EntryPath(filename)).Ok?
    ensures Decremented(filename).Some?
    ensures var from, to := EntryPath(filename), EntryPath(Decremented(filename).value);
      var content := ReadFile(store, from).value;
      NeverLosesContent(store, from, to, d) <==>
        || d.Failed?
        || IsDirectoryAt(store, Name(to))
        || (Missing(content, d) == [] && |ContentAt(store, Name(to))| <= |content|)
  {
    NextNameDiffers(filename);
    PathsDiffer(filename, Decremented(filename).value);
    RenameIsSafeIff(store, EntryPath(filename), EntryPath(Decremented(filename).value), d);
  }

  /** What the operating system is told about the renamed entry, as a UEFI path. */
  function Announcement(name: string): string { "\\loader\\entries\\" + name }

  /**
    `decrement_boot_count`, for a name from a directory listing. LoaderBootCountPath
    is set exactly after a successful rename.
  */
  method DecrementBootCount(writer: EspWriter, filename: string, d: Delivery, fate: Fate, refused: bool)
    returns (r: Option<string>, announced: Option<seq<LittleEndian.byte>>)
    requires writer.volume.Valid() && Paths.IsClean(filename)
    modifies writer.volume, writer.volume.files, writer.volume.cache
    ensures writer.volume.Valid()
    ensures Decremented(filename).None? ==>
      r == None && writer.volume.Contents() == old(writer.volume.Contents())
    ensures announced == if r.Some? then Some(LoaderVariables.BootCountPath(Announcement(r.value))) else None
    ensures Decremented(filename).Some? ==>
      var op := Rename(EntryPath(filename), EntryPath(Decremented(filename).value), d, fate, refused);
      && writer.volume.Contents() == Written(old(writer.volume.Contents()), op)
      && r == if op.Perform(old(writer.volume.files.store)).result.Ok? then Decremented(filename) else None
  {
    var next := Decremented(filename);
    if next.None? {
      return None, None;
    }
    NextNameIsClean(filename);
    EntryPathJoins(filename);
    EntryPathJoins(next.value);
    var done := writer.RenameIn(Paths.Render(ENTRIES), filename, next.value, d, fate, refused);
    if done.Err? {
      return None, None;
    }
    var path := LoaderVariables.WriteBootCountPath(Announcement(next.value));
    r, announced := next, Some(path);
  }
}
