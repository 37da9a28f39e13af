/**
  UAPI.10 version comparison (`bls_parse.rs`).

  A version string is a sequence of lexemes. `CompareLexemes` is the scanner's decision over the
  lexemes still ahead of its two cursors, which do not stay aligned: a run of zeros met by letters
  is dropped on one side only. `Key` is an independent reading of the lexemes as ranked tokens. The
  scanner is shown to be the lexicographic order of keys, and therefore a total preorder.
*/
module VersionOrder {
  import opened Orders

  predicate IsAlpha(c: char) { 'a' <= c <= 'z' || 'A' <= c <= 'Z' }

  predicate IsMark(c: char) { c == '~' || c == '^' || c == '-' || c == '.' }

  predicate IsVersionChar(c: char) { IsDigit(c) || IsAlpha(c) || IsMark(c) }

  /** The kinds of character the scanner runs over. */
  datatype Kind = Separator | Zero | Digit | Letter {
    predicate Has(c: char) {
      match this
      case Separator => !IsVersionChar(c)
      case Zero => c == '0'
      case Digit => IsDigit(c)
      case Letter => IsAlpha(c)
    }
  }

  /** Where a cursor at `i` stops after running over characters of kind `k`. */
  function End(s: string, i: nat, k: Kind): (j: nat)
    requires i <= |s|
    ensures i <= j <= |s|
    ensures j < |s| ==> !k.Has(s[j])
    ensures i < |s| && k.Has(s[i]) <==> i < j
    decreases |s| - i
  {
    if i < |s| && k.Has(s[i]) then End(s, i + 1, k) else i
  }

  /** The end of a number at `i`: leading zeros, then the digits that count. */
  function NumberEnd(s: string, i: nat): (j: nat)
    requires i <= |s|
    ensures i <= j <= |s|
    ensures i < |s| && IsDigit(s[i]) <==> i < j
  {
    End(s, End(s, i, Zero), Digit)
  }

  /** The number at `i` without its leading zeros. */
  function Digits(s: string, i: nat): string
    requires i <= |s|
  {
    s[End(s, i, Zero)..NumberEnd(s, i)]
  }

  // ---------------------------------------------------------------------------
  // Lexemes
  // ---------------------------------------------------------------------------

  datatype Lexeme = Mark(c: char) | Numeral(digits: string) | Word(text: string)

  /** The lexeme that starts at `j`. */
  function LexemeAt(s: string, j: nat): Lexeme
    requires j < |s| && IsVersionChar(s[j])
  {
    if IsMark(s[j]) then Mark(s[j])
    else if IsDigit(s[j]) then Numeral(Digits(s, j))
    else Word(s[j..End(s, j, Letter)])
  }

  /** Where that lexeme ends. */
  function LexemeEnd(s: string, j: nat): (next: nat)
    requires j < |s| && IsVersionChar(s[j])
    ensures j < next <= |s|
  {
    if IsMark(s[j]) then j + 1 else if IsDigit(s[j]) then NumberEnd(s, j) else End(s, j, Letter)
  }

  /** The lexemes ahead of a cursor at `i`. */
  function Lexemes(s: string, i: nat): seq<Lexeme>
    requires i <= |s|
    decreases |s| - i
  {
    var j := End(s, i, Separator);
    if j == |s| then [] else [LexemeAt(s, j)] + Lexemes(s, LexemeEnd(s, j))
  }

  /** How low the head sorts: tilde, end, dash, caret, dot, then letters and digits. */
  function Rank(x: seq<Lexeme>): nat {
    if |x| == 0 then 1
    else if !x[0].Mark? then 5
    else match x[0].c
      case '~' => 0
      case '-' => 2
      case '^' => 3
      case _ => 4
  }

  function Value(x: Lexeme): string { if x.Numeral? then x.digits else "" }

  function AfterValue(x: seq<Lexeme>): seq<Lexeme>
    requires |x| != 0
  {
    if x[0].Numeral? then x[1..] else x
  }

  /** The decision of `version_compare` on the lexemes ahead of its cursors. */
  function CompareLexemes(x: seq<Lexeme>, y: seq<Lexeme>): Ordering
    decreases |x| + |y|
  {
    if Rank(x) < 5 || Rank(y) < 5 then
      if Rank(x) != Rank(y) then CompareInt(Rank(x), Rank(y))
      else if |x| == 0 then Equal
      else CompareLexemes(x[1..], y[1..])
    else if x[0].Numeral? || y[0].Numeral? then
      var m, n := Value(x[0]), Value(y[0]);
      CompareInt(|m|, |n|).Then(CompareText(m, n)).Then(CompareLexemes(AfterValue(x), AfterValue(y)))
    else
      CompareText(x[0].text, y[0].text).Then(CompareLexemes(x[1..], y[1..]))
  }

  function Compare(a: string, b: string): Ordering {
    CompareLexemes(Lexemes(a, 0), Lexemes(b, 0))
  }

  // ---------------------------------------------------------------------------
  // Tokens and keys
  // ---------------------------------------------------------------------------

  /**
    A ranked token, in increasing order. A run of zeros has no place of its own next to letters:
    it ranks by what follows it, below letters before a low token and above them before a number.
  */
  datatype Token =
    | Low(rank: nat)
    | ZeroLow
    | Name(text: string)
    | ZeroHigh
    | Number(digits: string)
  {
    function Class(): nat {
      match this
      case Low(_) => 0 case ZeroLow => 1 case Name(_) => 2 case ZeroHigh => 3 case Number(_) => 4
    }
  }

  function CompareToken(x: Token, y: Token): Ordering {
    if x.Name? && y.Name? then CompareText(x.text, y.text)
    else if x.Number? && y.Number? then
      CompareInt(|x.digits|, |y.digits|).Then(CompareText(x.digits, y.digits))
    else if x.Low? && y.Low? then CompareInt(x.rank, y.rank)
    else CompareInt(x.Class(), y.Class())
  }

  /** A zero run in front of `key`: absorbed by letters, otherwise a token of its own. */
  function WithZeros(key: seq<Token>): seq<Token>
    requires |key| != 0
  {
    if key[0].Name? then key
    else if key[0].Class() < 2 then [ZeroLow] + key
    else [ZeroHigh] + key
  }

  /** The ranked tokens of a version, closed by the rank of the end. */
  function Key(x: seq<Lexeme>): (k: seq<Token>)
    ensures |k| != 0
  {
    if |x| == 0 then [Low(1)]
    else match x[0]
      case Mark(_) => [Low(Rank(x))] + Key(x[1..])
      case Numeral(m) => if m == "" then WithZeros(Key(x[1..])) else [Number(m)] + Key(x[1..])
      case Word(w) => [Name(w)] + Key(x[1..])
  }

  function CompareKeys(k: seq<Token>, l: seq<Token>): Ordering {
    Lex(CompareToken, k, l)
  }

  lemma TokenIsOrder()
    ensures IsOrder(CompareToken)
  {
    TextIsOrder();
  }

  // ---------------------------------------------------------------------------
  // The scanner compares keys
  // ---------------------------------------------------------------------------

  lemma KeysCons(x: Token, y: Token, k: seq<Token>, l: seq<Token>)
    ensures CompareKeys([x] + k, [y] + l) == CompareToken(x, y).Then(CompareKeys(k, l))
  {
    assert ([x] + k)[1..] == k && ([y] + l)[1..] == l;
  }

  lemma KeysHead(k: seq<Token>, l: seq<Token>)
    requires |k| != 0 && |l| != 0 && CompareToken(k[0], l[0]) != Equal
    ensures CompareKeys(k, l) == CompareToken(k[0], l[0])
  {
  }

  /** Dropping a zero run on both sides never changes the comparison. */
  lemma ZerosBoth(k: seq<Token>, l: seq<Token>)
    requires |k| != 0 && |l| != 0
    ensures CompareKeys(WithZeros(k), WithZeros(l)) == CompareKeys(k, l)
  {
    if !k[0].Name? && !l[0].Name? && (k[0].Class() < 2 <==> l[0].Class() < 2) {
      KeysCons(WithZeros(k)[0], WithZeros(l)[0], k, l);
    }
  }

  /** Dropping a zero run on one side never changes a comparison against letters. */
  lemma ZerosAgainstName(k: seq<Token>, l: seq<Token>)
    requires |k| != 0 && |l| != 0 && l[0].Name?
    ensures CompareKeys(WithZeros(k), l) == CompareKeys(k, l)
    ensures CompareKeys(l, WithZeros(k)) == CompareKeys(l, k)
  {
  }

  /** Two runs, at least one of them numeric, compare by their numbers and then by their rests. */
  lemma {:induction false} CompareRuns(x: seq<Lexeme>, y: seq<Lexeme>)
    requires Rank(x) == Rank(y) == 5 && (x[0].Numeral? || y[0].Numeral?)
    ensures var m, n := Value(x[0]), Value(y[0]);
      CompareKeys(Key(x), Key(y)) ==
      CompareInt(|m|, |n|).Then(CompareText(m, n)).Then(CompareKeys(Key(AfterValue(x)), Key(AfterValue(y))))
  {
    var k, l := Key(AfterValue(x)), Key(AfterValue(y));
    if Value(x[0]) != "" && Value(y[0]) != "" {
      KeysCons(Number(x[0].digits), Number(y[0].digits), k, l);
    } else if x[0].Numeral? && y[0].Numeral? {
      ZerosBoth(k, l);
    } else if x[0].Numeral? {
      ZerosAgainstName(k, l);
    } else {
      ZerosAgainstName(l, k);
    }
  }

  /** The scanner is the lexicographic comparison of the keys. */
  lemma {:induction false} LexemesCompareAsKeys(x: seq<Lexeme>, y: seq<Lexeme>)
    ensures CompareLexemes(x, y) == CompareKeys(Key(x), Key(y))
    decreases |x| + |y|
  {
    if Rank(x) == Rank(y) < 5 && |x| != 0 {
      LexemesCompareAsKeys(x[1..], y[1..]);
      KeysCons(Low(Rank(x)), Low(Rank(y)), Key(x[1..]), Key(y[1..]));
    } else if Rank(x) == Rank(y) == 5 {
      if x[0].Numeral? || y[0].Numeral? {
        CompareRuns(x, y);
        LexemesCompareAsKeys(AfterValue(x), AfterValue(y));
      } else {
        LexemesCompareAsKeys(x[1..], y[1..]);
        KeysCons(Name(x[0].text), Name(y[0].text), Key(x[1..]), Key(y[1..]));
      }
    } else if |x| == |y| == 0 {
      KeysCons(Low(1), Low(1), [], []);
      assert Key(x) == Key(y) == [Low(1)] + [];
    } else {
      KeysHead(Key(x), Key(y));
    }
  }

  // ---------------------------------------------------------------------------
  // Total preorder
  // ---------------------------------------------------------------------------

  /** Two versions compare as the keys of their lexemes, and equal only when the keys agree. */
  lemma CompareIsKeyOrder(a: string, b: string)
    ensures Compare(a, b) == CompareKeys(Key(Lexemes(a, 0)), Key(Lexemes(b, 0)))
    ensures Compare(a, b) == Equal <==> Key(Lexemes(a, 0)) == Key(Lexemes(b, 0))
  {
    LexemesCompareAsKeys(Lexemes(a, 0), Lexemes(b, 0));
    TokenIsOrder();
    LexEqual(CompareToken, Key(Lexemes(a, 0)), Key(Lexemes(b, 0)));
  }

  lemma Swap(a: string, b: string)
    ensures Compare(b, a) == Compare(a, b).Reverse()
  {
    CompareIsKeyOrder(a, b);
    CompareIsKeyOrder(b, a);
    TokenIsOrder();
    LexSwap(CompareToken, Key(Lexemes(a, 0)), Key(Lexemes(b, 0)));
  }

  /** Versions that compare equal are interchangeable in every comparison. */
  lemma EqualIsCongruent(a: string, b: string, c: string)
    requires Compare(a, b) == Equal
    ensures Compare(a, c) == Compare(b, c) && Compare(c, a) == Compare(c, b)
  {
    CompareIsKeyOrder(a, b);
    CompareIsKeyOrder(a, c);
    CompareIsKeyOrder(b, c);
    Swap(a, c);
    Swap(b, c);
  }

  lemma Transitive(a: string, b: string, c: string)
    requires Compare(a, b) != Greater && Compare(b, c) != Greater
    ensures Compare(a, c) != Greater
    ensures Compare(a, b) == Less || Compare(b, c) == Less ==> Compare(a, c) == Less
  {
    if Compare(a, b) == Equal {
      EqualIsCongruent(a, b, c);
    } else if Compare(b, c) == Equal {
      EqualIsCongruent(b, c, a);
    } else {
      CompareIsKeyOrder(a, b);
      CompareIsKeyOrder(b, c);
      CompareIsKeyOrder(a, c);
      TokenIsOrder();
      LexTransitive(CompareToken, Key(Lexemes(a, 0)), Key(Lexemes(b, 0)), Key(Lexemes(c, 0)));
    }
  }

  // ---------------------------------------------------------------------------
  // What the order says about text
  // ---------------------------------------------------------------------------

  /** No number and no word of `p` goes on in `t`. */
  predicate Breaks(p: string, t: string) {
    |p| == 0 || |t| == 0 ||
    var last := p[|p| - 1];
    !(IsDigit(last) && IsDigit(t[0])) && !(IsAlpha(last) && IsAlpha(t[0]))
  }

  lemma {:induction false} EndShift(p: string, t: string, i: nat, k: Kind)
    requires i <= |t|
    ensures End(p + t, |p| + i, k) == |p| + End(t, i, k)
    decreases |t| - i
  {
    if i < |t| && k.Has(t[i]) {
      EndShift(p, t, i + 1, k);
    }
  }

  lemma {:induction false} EndInside(p: string, t: string, i: nat, k: Kind)
    requires i <= |p| && (End(p, i, k) == |p| ==> |t| == 0 || !k.Has(t[0]))
    ensures End(p + t, i, k) == End(p, i, k)
    decreases |p| - i
  {
    if i < |p| && k.Has(p[i]) {
      EndInside(p, t, i + 1, k);
    }
  }

  lemma {:induction false} LastOfRun(s: string, i: nat, k: Kind)
    requires i <= |s| && i < End(s, i, k)
    ensures k.Has(s[End(s, i, k) - 1])
    decreases |s| - i
  {
    if i + 1 < End(s, i, k) {
      LastOfRun(s, i + 1, k);
    }
  }

  lemma {:induction false} SeparatorsThrough(p: string, t: string, i: nat)
    requires i <= |p| && End(p, i, Separator) == |p|
    ensures End(p + t, i, Separator) == End(p + t, |p|, Separator)
    decreases |p| - i
  {
    if i < |p| {
      SeparatorsThrough(p, t, i + 1);
    }
  }

  /** A number ends in `p` as it does without `t`. */
  lemma {:induction false} NumberInside(p: string, t: string, i: nat)
    requires i < |p| && IsDigit(p[i]) && Breaks(p, t)
    ensures NumberEnd(p + t, i) == NumberEnd(p, i) && Digits(p + t, i) == Digits(p, i)
  {
    var z := End(p, i, Zero);
    if z == |p| { LastOfRun(p, i, Zero); }
    EndInside(p, t, i, Zero);
    if z < NumberEnd(p, i) { LastOfRun(p, z, Digit); }
    EndInside(p, t, z, Digit);
  }

  lemma {:induction false} WordInside(p: string, t: string, i: nat)
    requires i < |p| && IsAlpha(p[i]) && Breaks(p, t)
    ensures End(p + t, i, Letter) == End(p, i, Letter)
  {
    LastOfRun(p, i, Letter);
    EndInside(p, t, i, Letter);
  }

  lemma {:induction false} NumberShift(p: string, t: string, i: nat)
    requires i <= |t|
    ensures NumberEnd(p + t, |p| + i) == |p| + NumberEnd(t, i) && Digits(p + t, |p| + i) == Digits(t, i)
  {
    EndShift(p, t, i, Zero);
    EndShift(p, t, End(t, i, Zero), Digit);
  }

  lemma {:induction false} LexemeShift(p: string, t: string, j: nat)
    requires j < |t| && IsVersionChar(t[j])
    ensures LexemeAt(p + t, |p| + j) == LexemeAt(t, j) && LexemeEnd(p + t, |p| + j) == |p| + LexemeEnd(t, j)
  {
    NumberShift(p, t, j);
    EndShift(p, t, j, Letter);
    var e := End(t, j, Letter);
    assert (p + t)[|p| + j..|p| + e] == t[j..e];
  }

  lemma {:induction false} LexemesShift(p: string, t: string, i: nat)
    requires i <= |t|
    ensures Lexemes(p + t, |p| + i) == Lexemes(t, i)
    decreases |t| - i
  {
    EndShift(p, t, i, Separator);
    var j := End(t, i, Separator);
    if j < |t| {
      LexemeShift(p, t, j);
      LexemesShift(p, t, LexemeEnd(t, j));
    }
  }

  lemma {:induction false} LexemeInside(p: string, t: string, j: nat)
    requires j < |p| && IsVersionChar(p[j]) && Breaks(p, t)
    ensures LexemeAt(p + t, j) == LexemeAt(p, j) && LexemeEnd(p + t, j) == LexemeEnd(p, j)
  {
    if IsDigit(p[j]) {
      NumberInside(p, t, j);
    } else if IsAlpha(p[j]) {
      WordInside(p, t, j);
      var e := End(p, j, Letter);
      assert (p + t)[j..e] == p[j..e];
    }
  }

  /** Where no run crosses, the lexemes of a concatenation are those of its parts. */
  lemma {:induction false} LexemesConcat(p: string, t: string, i: nat)
    requires i <= |p| && Breaks(p, t)
    ensures Lexemes(p + t, i) == Lexemes(p, i) + Lexemes(t, 0)
    decreases |p| - i
  {
    var j := End(p, i, Separator);
    if j == |p| {
      SeparatorsThrough(p, t, i);
      LexemesShift(p, t, 0);
    } else {
      EndInside(p, t, i, Separator);
      LexemeInside(p, t, j);
      LexemesConcat(p, t, LexemeEnd(p, j));
    }
  }

  lemma {:induction false} SameLexemesCancel(x: seq<Lexeme>, u: seq<Lexeme>, v: seq<Lexeme>)
    ensures CompareLexemes(x + u, x + v) == CompareLexemes(u, v)
    decreases |x|
  {
    if |x| == 0 {
      assert x + u == u && x + v == v;
    } else {
      assert (x + u)[1..] == x[1..] + u && (x + v)[1..] == x[1..] + v;
      TextIsOrder();
      SameLexemesCancel(x[1..], u, v);
    }
  }

  /** A common beginning never matters, unless a number or a word goes on across its end. */
  lemma PrefixCancels(p: string, a: string, b: string)
    requires Breaks(p, a) && Breaks(p, b)
    ensures Compare(p + a, p + b) == Compare(a, b)
  {
    LexemesConcat(p, a, 0);
    LexemesConcat(p, b, 0);
    SameLexemesCancel(Lexemes(p, 0), Lexemes(a, 0), Lexemes(b, 0));
  }

  lemma {:induction false} TextSnoc(a: string, b: string)
    requires |a| == |b| > 0
    ensures var n := |a| - 1;
      CompareText(a, b) == CompareText(a[..n], b[..n]).Then(CompareChar(a[n], b[n]))
  {
    var n := |a| - 1;
    if n == 0 {
      assert a[1..] == b[1..] == "" && a[..0] == b[..0] == "";
    } else {
      TextSnoc(a[1..], b[1..]);
      assert a[..n][1..] == a[1..][..n - 1] && b[..n][1..] == b[1..][..n - 1];
    }
  }

  /** Numerals of one length compare as text the way their numbers do. */
  lemma {:induction false} SameLengthByValue(m: string, n: string)
    requires AllDigits(m) && AllDigits(n) && |m| == |n|
    ensures CompareText(m, n) == CompareInt(Decimal(m), Decimal(n))
    decreases |m|
  {
    if |m| == 0 {
    } else {
      TextSnoc(m, n);
      SameLengthByValue(m[..|m| - 1], n[..|n| - 1]);
    }
  }

  /** A longer numeral without leading zeros is a larger number. */
  lemma {:induction false} LongerIsLarger(m: string, n: string)
    requires AllDigits(m) && AllDigits(n) && |m| < |n| && n[0] != '0'
    ensures Decimal(m) < Decimal(n)
    decreases |n|
  {
    if |n| == 1 {
      assert n[..0] == "";
    } else {
      LongerIsLarger(if |m| == 0 then m else m[..|m| - 1], n[..|n| - 1]);
    }
  }

  lemma {:induction false} ZerosDoNotCount(m: string, i: nat)
    requires i <= |m| && AllDigits(m)
    ensures Decimal(m[i..]) == Decimal(m[End(m, i, Zero)..])
    decreases |m| - i
  {
    if i < |m| && m[i] == '0' {
      ZerosDoNotCount(m, i + 1);
      assert m[i..] == "0" + m[i + 1..];
      ZeroInFront(m[i + 1..]);
    }
  }

  lemma {:induction false} DigitsEnd(m: string, i: nat)
    requires i <= |m| && AllDigits(m)
    ensures End(m, i, Digit) == |m|
    decreases |m| - i
  {
    if i < |m| {
      DigitsEnd(m, i + 1);
    }
  }

  /** A string of digits is one numeral, without its leading zeros the same number. */
  lemma {:induction false} NumeralLexeme(m: string)
    requires |m| > 0 && AllDigits(m)
    ensures var d := Digits(m, 0);
      && Lexemes(m, 0) == [Numeral(d)] && AllDigits(d) && Decimal(d) == Decimal(m) && (|d| > 0 ==> d[0] != '0')
  {
    DigitsEnd(m, End(m, 0, Zero));
    ZerosDoNotCount(m, 0);
    assert m[0..] == m && End(m, 0, Separator) == 0;
    assert Digits(m, 0) == m[End(m, 0, Zero)..];
    assert Lexemes(m, |m|) == [];
  }

  /** Numbers compare by value, however they are written and whatever comes before them. */
  lemma {:induction false} NumbersByValue(p: string, m: string, n: string)
    requires |m| > 0 && |n| > 0 && AllDigits(m) && AllDigits(n)
    requires |p| > 0 ==> !IsDigit(p[|p| - 1])
    ensures Compare(p + m, p + n) == CompareInt(Decimal(m), Decimal(n))
  {
    PrefixCancels(p, m, n);
    NumeralLexeme(m);
    NumeralLexeme(n);
    var d, e := Digits(m, 0), Digits(n, 0);
    assert CompareLexemes([Numeral(d)], [Numeral(e)]) == CompareInt(|d|, |e|).Then(CompareText(d, e));
    if |d| == |e| {
      SameLengthByValue(d, e);
    } else if |d| < |e| {
      LongerIsLarger(d, e);
    } else {
      LongerIsLarger(e, d);
    }
  }

  predicate AllLetters(s: string) { forall i | 0 <= i < |s| :: IsAlpha(s[i]) }

  lemma {:induction false} LettersEnd(w: string, i: nat)
    requires i <= |w| && AllLetters(w)
    ensures End(w, i, Letter) == |w|
    decreases |w| - i
  {
    if i < |w| {
      LettersEnd(w, i + 1);
    }
  }

  lemma {:induction false} WordLexeme(w: string)
    requires |w| > 0 && AllLetters(w)
    ensures Lexemes(w, 0) == [Word(w)]
  {
    LettersEnd(w, 0);
    assert End(w, 0, Separator) == 0 && w[0..|w|] == w && Lexemes(w, |w|) == [];
  }

  /** Words compare as text. */
  lemma {:induction false} WordsAsText(p: string, v: string, w: string)
    requires |v| > 0 && |w| > 0 && AllLetters(v) && AllLetters(w)
    requires |p| > 0 ==> !IsAlpha(p[|p| - 1])
    ensures Compare(p + v, p + w) == CompareText(v, w)
  {
    PrefixCancels(p, v, w);
    WordLexeme(v);
    WordLexeme(w);
    assert CompareLexemes([Word(v)], [Word(w)]) == CompareText(v, w);
  }

  lemma {:induction false} MarkRank(c: char, s: string)
    requires IsMark(c)
    ensures Rank(Lexemes([c] + s, 0)) == match c case '~' => 0 case '-' => 2 case '^' => 3 case _ => 4
  {
    assert End([c] + s, 0, Separator) == 0;
  }

  /** A mark after `p` against any other version that goes on from `p` with another class. */
  lemma {:induction false} MarkDecides(p: string, c: char, s: string, b: string)
    requires IsMark(c) && Breaks(p, b) && Rank(Lexemes([c] + s, 0)) != Rank(Lexemes(b, 0))
    ensures Compare(p + [c] + s, p + b) == CompareInt(Rank(Lexemes([c] + s, 0)), Rank(Lexemes(b, 0)))
  {
    assert p + [c] + s == p + ([c] + s);
    PrefixCancels(p, [c] + s, b);
  }

  /** Before the end of a version comes only a tilde; a dash, a caret and a dot come after it. */
  lemma {:induction false} MarksAndEnd(p: string, c: char, s: string)
    requires IsMark(c)
    ensures Compare(p + [c] + s, p) == if c == '~' then Less else Greater
  {
    MarkRank(c, s);
    MarkDecides(p, c, s, "");
    assert p + "" == p;
  }

  /** Where a mark stands among the marks. */
  function Place(c: char): nat
    requires IsMark(c)
  {
    match c case '~' => 0 case '-' => 1 case '^' => 2 case '.' => 3
  }

  /** Tildes come before dashes, dashes before carets, carets before dots, whatever comes after them. */
  lemma {:induction false} MarksInOrder(p: string, c: char, s: string, d: char, t: string)
    requires IsMark(c) && IsMark(d) && Place(c) < Place(d)
    ensures Compare(p + [c] + s, p + [d] + t) == Less
  {
    MarkRank(c, s);
    MarkRank(d, t);
    MarkDecides(p, c, s, [d] + t);
    assert p + [d] + t == p + ([d] + t);
  }

  /** Every mark comes before letters and digits. */
  lemma {:induction false} MarksBelowRuns(p: string, c: char, s: string, w: string)
    requires IsMark(c) && |w| > 0 && (IsDigit(w[0]) || IsAlpha(w[0])) && Breaks(p, w)
    ensures Compare(p + [c] + s, p + w) == Less
  {
    MarkRank(c, s);
    assert End(w, 0, Separator) == 0;
    MarkDecides(p, c, s, w);
  }

  /** Characters outside the format only separate: they can be left out where no run would join. */
  lemma {:induction false} SeparatorsVanish(p: string, c: char, s: string)
    requires !IsVersionChar(c) && Breaks(p, s)
    ensures Compare(p + [c] + s, p + s) == Equal
  {
    assert p + [c] + s == p + ([c] + s);
    LexemesConcat(p, [c] + s, 0);
    LexemesConcat(p, s, 0);
    LexemesShift([c], s, 0);
    SeparatorsThrough([c], s, 0);
    assert Lexemes([c] + s, 0) == Lexemes([c] + s, 1);
    CompareIsKeyOrder(p + s, p + s);
  }

  /** Zeros in front of letters do not count at all. */
  lemma {:induction false} ZerosBeforeLetters(p: string, m: string, w: string)
    requires |m| > 0 && (forall i | 0 <= i < |m| :: m[i] == '0') && |w| > 0 && IsAlpha(w[0])
    requires Breaks(p, m) && Breaks(p, w)
    ensures Compare(p + (m + w), p + w) == Equal
  {
    PrefixCancels(p, m + w, w);
    NumeralLexeme(m);
    assert Digits(m, 0) == "";
    LexemesConcat(m, w, 0);
    var x := Lexemes(w, 0);
    assert End(w, 0, Separator) == 0 && x[0].Word?;
    assert ([Numeral("")] + x)[1..] == x;
    assert CompareLexemes([Numeral("")] + x, x) == CompareLexemes(x, x);
    SameLexemesCancel(x, [], []);
    assert x + [] == x;
  }

  /** Letters come before every number but zero. */
  lemma {:induction false} LettersBelowNumbers(p: string, a: string, b: string)
    requires |a| > 0 && IsAlpha(a[0]) && |b| > 0 && '1' <= b[0] <= '9' && Breaks(p, a) && Breaks(p, b)
    ensures Compare(p + a, p + b) == Less
  {
    PrefixCancels(p, a, b);
    assert End(a, 0, Separator) == End(b, 0, Separator) == End(b, 0, Zero) == 0;
    assert |Digits(b, 0)| > 0;
  }

  // ---------------------------------------------------------------------------
  // The scanner itself
  // ---------------------------------------------------------------------------

  /** Moves a cursor past the characters of kind `k`. */
  method Advance(s: string, start: nat, k: Kind) returns (i: nat)
    requires start <= |s|
    ensures i == End(s, start, k)
  {
    i := start;
    while i < |s| && k.Has(s[i])
      invariant start <= i <= |s| && End(s, i, k) == End(s, start, k)
    {
      i := i + 1;
    }
  }

  /** Compares two spans of equal length digit by digit. */
  method CompareDigits(a: string, b: string) returns (r: Ordering)
    requires |a| == |b|
    ensures r == CompareText(a, b)
  {
    for i := 0 to |a|
      invariant CompareText(a, b) == CompareText(a[i..], b[i..])
    {
      if a[i] != b[i] {
        return CompareChar(a[i], b[i]);
      }
      assert a[i..][1..] == a[i + 1..] && b[i..][1..] == b[i + 1..];
    }
    return Equal;
  }

  /** The numeric case: skips leading zeros, then longer is bigger, then digit by digit. */
  method CompareNumbers(a: string, b: string, aFrom: nat, bFrom: nat)
    returns (r: Ordering, ai: nat, bi: nat)
    requires aFrom <= |a| && bFrom <= |b|
    ensures ai == NumberEnd(a, aFrom) && bi == NumberEnd(b, bFrom)
    ensures var m, n := Digits(a, aFrom), Digits(b, bFrom);
      r == CompareInt(|m|, |n|).Then(CompareText(m, n))
  {
    var aStart := Advance(a, aFrom, Zero);
    var bStart := Advance(b, bFrom, Zero);
    ai := Advance(a, aStart, Digit);
    bi := Advance(b, bStart, Digit);
    if ai - aStart != bi - bStart {
      r := CompareInt(ai - aStart, bi - bStart);
    } else {
      r := CompareDigits(a[aStart..ai], b[bStart..bi]);
    }
  }

  /** The alphabetic case: compares the two letter spans as byte strings. */
  method CompareLetters(a: string, b: string, aFrom: nat, bFrom: nat)
    returns (r: Ordering, ai: nat, bi: nat)
    requires aFrom <= |a| && bFrom <= |b|
    ensures ai == End(a, aFrom, Letter) && bi == End(b, bFrom, Letter)
    ensures r == CompareText(a[aFrom..ai], b[bFrom..bi])
  {
    ai := Advance(a, aFrom, Letter);
    bi := Advance(b, bFrom, Letter);
    r := CompareText(a[aFrom..ai], b[bFrom..bi]);
  }

  /** The scanner's comparison from two cursors on. */
  ghost function Ahead(a: string, b: string, ai: nat, bi: nat): Ordering
    requires ai <= |a| && bi <= |b|
  {
    CompareLexemes(Lexemes(a, ai), Lexemes(b, bi))
  }

  /** The cursor is at the end or at a character that counts. */
  predicate AtHead(s: string, i: nat) {
    i <= |s| && (i < |s| ==> IsVersionChar(s[i]))
  }

  function RankAt(s: string, i: nat): nat
    requires i <= |s|
  {
    if i == |s| then 1
    else match s[i]
      case '~' => 0
      case '-' => 2
      case '^' => 3
      case '.' => 4
      case _ => 5
  }

  lemma {:induction false} RankOfHead(s: string, i: nat)
    requires AtHead(s, i)
    ensures Rank(Lexemes(s, i)) == RankAt(s, i)
    ensures RankAt(s, i) < 5 && i < |s| ==> Lexemes(s, i)[1..] == Lexemes(s, i + 1)
  {
  }

  /** Marks and ends decide by their rank, or are stepped over. */
  lemma {:induction false} HeadsDecide(a: string, b: string, ai: nat, bi: nat)
    requires AtHead(a, ai) && AtHead(b, bi)
    ensures var x, y := RankAt(a, ai), RankAt(b, bi);
      x < 5 || y < 5 ==>
        Ahead(a, b, ai, bi) ==
          if x != y then CompareInt(x, y) else if ai == |a| then Equal else Ahead(a, b, ai + 1, bi + 1)
  {
    RankOfHead(a, ai);
    RankOfHead(b, bi);
  }

  datatype Verdict = Decided(r: Ordering) | Same | Neither

  /** Tildes, ends, dashes, carets and dots at the cursors, in this order. */
  method CompareMarks(a: string, b: string, ai: nat, bi: nat) returns (v: Verdict)
    requires ai <= |a| && bi <= |b|
    ensures var x, y := RankAt(a, ai), RankAt(b, bi);
      v == if x == 5 && y == 5 then Neither
           else if x != y then Decided(CompareInt(x, y))
           else if ai == |a| then Decided(Equal)
           else Same
  {
    var aTilde, bTilde := ai < |a| && a[ai] == '~', bi < |b| && b[bi] == '~';
    if aTilde || bTilde {
      if !aTilde { return Decided(Greater); }
      if !bTilde { return Decided(Less); }
      return Same;
    }

    var aEnd, bEnd := ai >= |a|, bi >= |b|;
    if aEnd && bEnd { return Decided(Equal); }
    if aEnd { return Decided(Less); }
    if bEnd { return Decided(Greater); }

    var aDash, bDash := a[ai] == '-', b[bi] == '-';
    if aDash || bDash {
      if !aDash { return Decided(Greater); }
      if !bDash { return Decided(Less); }
      return Same;
    }

    var aCaret, bCaret := a[ai] == '^', b[bi] == '^';
    if aCaret || bCaret {
      if !aCaret { return Decided(Greater); }
      if !bCaret { return Decided(Less); }
      return Same;
    }

    var aDot, bDot := a[ai] == '.', b[bi] == '.';
    if aDot || bDot {
      if !aDot { return Decided(Greater); }
      if !bDot { return Decided(Less); }
      return Same;
    }
    return Neither;
  }

  lemma {:induction false} NumberAt(s: string, i: nat)
    requires i < |s| && (IsDigit(s[i]) || IsAlpha(s[i]))
    ensures var x := Lexemes(s, i);
      && |x| > 0 && !x[0].Mark? && (x[0].Numeral? <==> IsDigit(s[i]))
      && Value(x[0]) == Digits(s, i) && AfterValue(x) == Lexemes(s, NumberEnd(s, i))
  {
    assert End(s, i, Separator) == i;
    if IsAlpha(s[i]) {
      assert End(s, i, Zero) == i && NumberEnd(s, i) == i;
    }
  }

  /** The numbers at the heads and then what comes after them; a missing number is an empty one. */
  lemma {:induction false} NumbersAhead(a: string, b: string, ai: nat, bi: nat)
    requires ai < |a| && bi < |b| && (IsDigit(a[ai]) || IsAlpha(a[ai])) && (IsDigit(b[bi]) || IsAlpha(b[bi]))
    requires IsDigit(a[ai]) || IsDigit(b[bi])
    ensures var m, n := Digits(a, ai), Digits(b, bi);
      Ahead(a, b, ai, bi) ==
        CompareInt(|m|, |n|).Then(CompareText(m, n)).Then(Ahead(a, b, NumberEnd(a, ai), NumberEnd(b, bi)))
  {
    NumberAt(a, ai);
    NumberAt(b, bi);
  }

  /**
    Digits or letters at both heads, so the scanner's last fall-through is never taken. Decides by
    this run, and otherwise leaves the comparison to what comes after it.
  */
  method CompareRun(a: string, b: string, aFrom: nat, bFrom: nat) returns (r: Ordering, ai: nat, bi: nat)
    requires aFrom < |a| && bFrom < |b|
    requires IsDigit(a[aFrom]) || IsAlpha(a[aFrom])
    requires IsDigit(b[bFrom]) || IsAlpha(b[bFrom])
    ensures ai <= |a| && bi <= |b| && aFrom + bFrom < ai + bi
    ensures Ahead(a, b, aFrom, bFrom) == r.Then(Ahead(a, b, ai, bi))
  {
    if IsDigit(a[aFrom]) || IsDigit(b[bFrom]) {
      NumbersAhead(a, b, aFrom, bFrom);
      r, ai, bi := CompareNumbers(a, b, aFrom, bFrom);
    } else {
      r, ai, bi := CompareLetters(a, b, aFrom, bFrom);
    }
  }

  method CompareAt(a: string, b: string, aFrom: nat, bFrom: nat)
    returns (decision: Option<Ordering>, ai: nat, bi: nat)
    requires AtHead(a, aFrom) && AtHead(b, bFrom)
    ensures ai <= |a| && bi <= |b|
    ensures decision.Some? ==> Ahead(a, b, aFrom, bFrom) == decision.value
    ensures decision.None? ==> aFrom + bFrom < ai + bi && Ahead(a, b, aFrom, bFrom) == Ahead(a, b, ai, bi)
  {
    HeadsDecide(a, b, aFrom, bFrom);
    ai, bi := aFrom, bFrom;
    var verdict := CompareMarks(a, b, ai, bi);
    match verdict
    case Decided(r) =>
      decision := Some(r);
    case Same =>
      decision, ai, bi := None, ai + 1, bi + 1;
    case Neither =>
      var c;
      c, ai, bi := CompareRun(a, b, ai, bi);
      decision := if c == Equal then None else Some(c);
  }

  /** Skips the separators at both cursors. */
  method SkipBoth(a: string, b: string, aFrom: nat, bFrom: nat) returns (ai: nat, bi: nat)
    requires aFrom <= |a| && bFrom <= |b|
    ensures aFrom <= ai <= |a| && bFrom <= bi <= |b| && Ahead(a, b, ai, bi) == Ahead(a, b, aFrom, bFrom)
    ensures AtHead(a, ai) && AtHead(b, bi)
  {
    ai := Advance(a, aFrom, Separator);
    bi := Advance(b, bFrom, Separator);
  }

  /** One round: separators are skipped, then marks or runs decide or are passed. */
  method CompareHeads(a: string, b: string, aFrom: nat, bFrom: nat)
    returns (decision: Option<Ordering>, ai: nat, bi: nat)
    requires aFrom <= |a| && bFrom <= |b|
    ensures ai <= |a| && bi <= |b|
    ensures decision.Some? ==> Ahead(a, b, aFrom, bFrom) == decision.value
    ensures decision.None? ==> aFrom + bFrom < ai + bi && Ahead(a, b, aFrom, bFrom) == Ahead(a, b, ai, bi)
  {
    ai, bi := SkipBoth(a, b, aFrom, bFrom);
    decision, ai, bi := CompareAt(a, b, ai, bi);
  }

  /** `version_compare`, cursor by cursor. */
  method VersionCompare(a: string, b: string) returns (r: Ordering)
    ensures r == Compare(a, b)
  {
    var ai: nat, bi: nat := 0, 0;
    while true
      invariant ai <= |a| && bi <= |b|
      invariant Compare(a, b) == Ahead(a, b, ai, bi)
      decreases |a| - ai + |b| - bi
    {
      var decision;
      decision, ai, bi := CompareHeads(a, b, ai, bi);
      if decision.Some? { return decision.value; }
    }
  }
}
