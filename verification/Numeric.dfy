/**
 Conversion of DuckDB scaled integers to Postgres base-10000 numerics and back, with the fixed-width
 arithmetic the code computes in.
 */
module Numeric {
  import opened Results

  const NBASE := 10000
  const DEC_DIGITS := 4

  function Pow10(n: nat): (p: nat)
    ensures p >= 1
  {
    if n == 0 then 1 else 10 * Pow10(n - 1)
  }

  lemma {:induction false} PowAdd(a: nat, b: nat)
    ensures Pow10(a + b) == Pow10(a) * Pow10(b)
    decreases a
  {
    if a > 0 {
      PowAdd(a - 1, b);
    }
  }

  lemma {:induction false} PowGroup(k: nat)
    ensures Pow10(4 * (k + 1)) == Pow10(4 * k) * NBASE
    ensures Pow10(4) == NBASE
  {
    PowFour();
    PowAdd(4 * k, 4);
  }

  lemma {:induction false} PowFour()
    ensures Pow10(0) == 1 && Pow10(1) == 10 && Pow10(2) == 100 && Pow10(3) == 1000 && Pow10(4) == 10000
  {
  }

  // ---------------------------------------------------------------- digit sequences

  predicate IsDigits(ds: seq<nat>)
  {
    forall i :: 0 <= i < |ds| ==> ds[i] < NBASE
  }

  /** The number a most-significant-first sequence of base-10000 digits writes. */
  function DigitsValue(ds: seq<nat>): nat
  {
    if ds == [] then 0 else DigitsValue(ds[..|ds| - 1]) * NBASE + ds[|ds| - 1]
  }

  lemma {:induction false} ValueOfMore(ds: seq<nat>, d: nat)
    ensures DigitsValue(ds + [d]) == DigitsValue(ds) * NBASE + d
  {
    assert (ds + [d])[..|ds|] == ds;
  }

  lemma {:induction false} ValueOfConcat(a: seq<nat>, b: seq<nat>)
    ensures DigitsValue(a + b) == DigitsValue(a) * Pow10(4 * |b|) + DigitsValue(b)
    decreases |b|
  {
    if b == [] {
      assert a + b == a;
    } else {
      var n := |b| - 1;
      ValueOfConcat(a, b[..n]);
      assert a + b == (a + b[..n]) + [b[n]];
      ValueOfMore(a + b[..n], b[n]);
      PowGroup(n);
      Regroup(DigitsValue(a), Pow10(4 * n), DigitsValue(b[..n]), b[n]);
    }
  }

  lemma {:induction false} Regroup(x: nat, p: nat, y: nat, d: nat)
    ensures (x * p + y) * NBASE + d == x * (p * NBASE) + (y * NBASE + d)
  {
    assert (x * p) * NBASE == x * (p * NBASE);
  }

  lemma {:induction false} ValueBelow(ds: seq<nat>)
    requires IsDigits(ds)
    ensures DigitsValue(ds) < Pow10(4 * |ds|)
    decreases |ds|
  {
    if ds != [] {
      var n := |ds| - 1;
      ValueBelow(ds[..n]);
      PowGroup(n);
    }
  }

  lemma {:induction false} ValueGrows(ds: seq<nat>, i: nat)
    requires i <= |ds|
    ensures DigitsValue(ds[..i]) <= DigitsValue(ds)
    decreases |ds|
  {
    if i == |ds| {
      assert ds[..i] == ds;
    } else {
      var n := |ds| - 1;
      ValueGrows(ds[..n], i);
      assert ds[..n][..i] == ds[..i];
    }
  }

  function Zeros(n: nat): (z: seq<nat>)
    ensures |z| == n && forall i :: 0 <= i < n ==> z[i] == 0
  {
    seq(n, _ => 0)
  }

  lemma {:induction false} ZerosAreZero(n: nat)
    ensures DigitsValue(Zeros(n)) == 0
  {
    if n > 0 {
      ZerosAreZero(n - 1);
      assert Zeros(n)[..n - 1] == Zeros(n - 1);
    }
  }

  /** Digits of a number without leading zeros, and its last `k` digits. */
  function IntegralDigits(n: nat): (ds: seq<nat>)
    ensures IsDigits(ds)
  {
    if n == 0 then [] else IntegralDigits(n / NBASE) + [n % NBASE]
  }

  function LastDigits(n: nat, k: nat): (ds: seq<nat>)
    ensures |ds| == k && IsDigits(ds)
  {
    if k == 0 then [] else LastDigits(n / NBASE, k - 1) + [n % NBASE]
  }

  lemma {:induction false} IntegralDigitsValue(n: nat)
    ensures DigitsValue(IntegralDigits(n)) == n
  {
    if n > 0 {
      IntegralDigitsValue(n / NBASE);
      ValueOfMore(IntegralDigits(n / NBASE), n % NBASE);
    }
  }

  lemma {:induction false} LastDigitsValue(n: nat, k: nat)
    requires n < Pow10(4 * k)
    ensures DigitsValue(LastDigits(n, k)) == n
    decreases k
  {
    if k > 0 {
      PowGroup(k - 1);
      LastDigitsValue(n / NBASE, k - 1);
      ValueOfMore(LastDigits(n / NBASE, k - 1), n % NBASE);
    }
  }

  // ---------------------------------------------------------------- numerics

  /** A Postgres numeric: digit `i` counts units of 10000^(weight - i); `dscale` decimals are shown. */
  datatype NumericVar = NumericVar(digits: seq<nat>, weight: int, negative: bool, dscale: nat)

  /** Number of base-10000 digits after the decimal point; negative when integer digits were stripped. */
  function FractionalGroups(n: NumericVar): int { |n.digits| - n.weight - 1 }

  /** The numeric, its sign aside, is exactly `m` divided by 10^s. */
  predicate Denotes(n: NumericVar, m: nat, s: nat)
  {
    var f := FractionalGroups(n);
    if f >= 0 then DigitsValue(n.digits) * Pow10(s) == m * Pow10(4 * f)
    else DigitsValue(n.digits) * Pow10(4 * -f) * Pow10(s) == m
  }

  lemma {:induction false} DenotesUnique(n: NumericVar, m1: nat, m2: nat, s: nat)
    requires Denotes(n, m1, s) && Denotes(n, m2, s)
    ensures m1 == m2
  {
    var f := FractionalGroups(n);
    if f >= 0 {
      CancelRight(m1, m2, Pow10(4 * f));
    }
  }

  lemma {:induction false} CancelRight(a: int, b: int, p: nat)
    requires p >= 1 && a * p == b * p
    ensures a == b
  {
    assert (a - b) * p == 0;
    if a < b {
      assert (a - b) * p <= -1 * p by { MulMono(a - b, -1, p); }
    } else if a > b {
      assert (a - b) * p >= 1 * p by { MulMono(1, a - b, p); }
    }
  }

  lemma {:induction false} MulMono(a: int, b: int, p: nat)
    requires a <= b
    ensures a * p <= b * p
  {
    assert (b - a) * p >= 0;
  }

  // ---------------------------------------------------------------- DuckDB to Postgres

  function Abs(v: int): nat { if v < 0 then -v else v }

  function FractionalDigitCount(scale: nat): nat { (scale + DEC_DIGITS - 1) / DEC_DIGITS }

  function Correction(scale: nat): (c: nat)
    ensures c < 4
  {
    FractionalDigitCount(scale) * DEC_DIGITS - scale
  }

  function Product(a: nat, b: nat): nat { a * b }

  function Quotient(a: nat, p: nat): nat
    requires p >= 1
  {
    a / p
  }

  function WholePart(v: int, scale: nat): nat { Quotient(Abs(v), Pow10(scale)) }

  function FractionPart(v: int, scale: nat): nat { Abs(v) % Pow10(scale) }

  /** The fraction, left-aligned in whole groups of four decimals. */
  function AlignedFraction(v: int, scale: nat): nat
  {
    Product(FractionPart(v, scale), Pow10(Correction(scale)))
  }

  /** The numeric the conversion builds for `v` at `scale`. */
  function NumericOf(v: int, scale: nat): NumericVar
  {
    var whole := IntegralDigits(WholePart(v, scale));
    var part := LastDigits(AlignedFraction(v, scale), FractionalDigitCount(scale));
    NumericVar(whole + part, |whole| - 1, v < 0, scale)
  }

  lemma {:induction false} FractionFits(v: int, scale: nat)
    ensures Product(Pow10(scale), Pow10(Correction(scale))) == Pow10(4 * FractionalDigitCount(scale))
    ensures AlignedFraction(v, scale) < Pow10(4 * FractionalDigitCount(scale))
  {
    PowAdd(scale, Correction(scale));
    var r, p, c := FractionPart(v, scale), Pow10(scale), Pow10(Correction(scale));
    MulMono(r + 1, p, c);
    assert (r + 1) * c == r * c + c;
  }

  /** The digits are base-10000 digits and denote exactly v / 10^scale. */
  lemma {:induction false} NumericOfIsExact(v: int, scale: nat)
    ensures IsDigits(NumericOf(v, scale).digits)
    ensures Denotes(NumericOf(v, scale), Abs(v), scale)
    ensures NumericOf(v, scale).dscale == scale && (NumericOf(v, scale).negative <==> v < 0)
    ensures FractionalGroups(NumericOf(v, scale)) == FractionalDigitCount(scale)
  {
    var p, c, k := Pow10(scale), Pow10(Correction(scale)), FractionalDigitCount(scale);
    var q, r := WholePart(v, scale), FractionPart(v, scale);
    var whole, part := IntegralDigits(q), LastDigits(AlignedFraction(v, scale), k);
    FractionFits(v, scale);
    IntegralDigitsValue(q);
    LastDigitsValue(AlignedFraction(v, scale), k);
    ValueOfConcat(whole, part);
    Collect(q, p, c, r);
    Reassemble(Abs(v), p);
  }

  lemma {:induction false} Reassemble(v: nat, p: nat)
    requires p >= 1
    ensures v / p * p + v % p == v
  {
  }

  lemma {:induction false} Collect(q: nat, p: nat, c: nat, r: nat)
    ensures (q * Product(p, c) + Product(r, c)) * p == (q * p + r) * Product(p, c)
  {
    assert q * (p * c) + r * c == (q * p + r) * c by {
      assert q * (p * c) == (q * p) * c;
    }
    assert ((q * p + r) * c) * p == (q * p + r) * (p * c);
  }

  /** A machine integer type: its size, its largest value, and the length of its table of powers of ten. */
  datatype Width = Width(bytes: nat, max: nat, powers: nat)

  function Pow256(n: nat): nat { if n == 0 then 1 else 256 * Pow256(n - 1) }

  function LowestValue(w: Width): int { -1 - w.max as int }

  predicate IsWidth(w: Width) { NBASE <= w.max < Pow256(w.bytes) && w.max < Pow10(w.powers) }

  lemma {:induction false} BytesBound(n: nat)
    ensures Pow256(n) <= Pow10(3 * n)
  {
    if n > 0 {
      BytesBound(n - 1);
      PowAdd(3, 3 * (n - 1));
      PowFour();
    }
  }

  lemma {:induction false} PowMono(a: nat, b: nat)
    ensures a <= b ==> Pow10(a) <= Pow10(b)
    ensures Pow10(a) < Pow10(b) ==> a < b
    decreases a
  {
    if a > 0 && b > 0 {
      PowMono(a - 1, b - 1);
    }
  }

  /** A number written with `k` base-10000 digits needs less than that many bytes times four. */
  lemma {:induction false} DigitsFitBuffer(w: Width, k: nat)
    requires IsWidth(w) && Pow10(k) <= w.max
    ensures k < 3 * w.bytes
  {
    BytesBound(w.bytes);
    PowMono(k, 3 * w.bytes);
  }

  function Reversed(s: seq<nat>): (r: seq<nat>)
    ensures |r| == |s|
  {
    if s == [] then [] else Reversed(s[1..]) + [s[0]]
  }

  lemma {:induction false} ReversedAppend(s: seq<nat>, d: nat)
    ensures Reversed(s + [d]) == [d] + Reversed(s)
  {
    if s == [] {
      assert s + [d] == [d];
    } else {
      ReversedAppend(s[1..], d);
      assert (s + [d])[1..] == s[1..] + [d];
    }
  }

  /** Copies `src[n-1], ..., src[0]` behind what is already in `digits`. */
  method AppendReversed(src: array<nat>, n: nat, digits: seq<nat>) returns (r: seq<nat>)
    requires n <= src.Length
    ensures r == digits + Reversed(src[..n])
  {
    r := digits;
    var i := n;
    while i > 0
      invariant 0 <= i <= n
      invariant r + Reversed(src[..i]) == digits + Reversed(src[..n])
    {
      assert src[..i] == src[..i - 1] + [src[i - 1]];
      ReversedAppend(src[..i - 1], src[i - 1]);
      assert r + ([src[i - 1]] + Reversed(src[..i - 1])) == r + [src[i - 1]] + Reversed(src[..i - 1]);
      r := r + [src[i - 1]];
      i := i - 1;
    }
    assert Reversed(src[..0]) == [];
    assert r + [] == r;
  }

  /** Splits the integral part into a little-endian buffer. */
  method SplitIntegral(w: Width, whole: nat) returns (buffer: array<nat>, n: nat)
    requires IsWidth(w) && whole <= w.max
    ensures fresh(buffer) && n <= buffer.Length && Reversed(buffer[..n]) == IntegralDigits(whole)
  {
    buffer := new nat[4 * w.bytes];
    n := 0;
    var rest: nat := whole;
    assert buffer[..0] == [];
    while rest > 0
      invariant n <= buffer.Length
      invariant IntegralDigits(rest) + Reversed(buffer[..n]) == IntegralDigits(whole)
      invariant Product(rest, Pow10(4 * n)) <= whole
      decreases rest
    {
      MulMono(1, rest, Pow10(4 * n));
      DigitsFitBuffer(w, 4 * n);
      PowGroup(n);
      OneDigitLess(rest, Pow10(4 * n));
      ghost var before := buffer[..n];
      buffer[n] := rest % NBASE;
      assert buffer[..n + 1] == before + [rest % NBASE];
      ReversedAppend(before, rest % NBASE);
      assert IntegralDigits(rest / NBASE) + [rest % NBASE] + Reversed(before)
          == IntegralDigits(rest / NBASE) + ([rest % NBASE] + Reversed(before));
      rest := rest / NBASE;
      n := n + 1;
    }
    assert [] + Reversed(buffer[..n]) == Reversed(buffer[..n]);
  }

  lemma {:induction false} OneDigitLess(rest: nat, p: nat)
    ensures Product(rest / NBASE, p * NBASE) <= Product(rest, p)
  {
    assert (rest / NBASE) * (p * NBASE) == (rest / NBASE * NBASE) * p;
    MulMono(rest / NBASE * NBASE, rest, p);
  }

  /** Splits the aligned fraction into exactly `k` little-endian digits. */
  method SplitFraction(w: Width, fraction: nat, k: nat) returns (buffer: array<nat>)
    requires k <= 4 * w.bytes
    ensures fresh(buffer) && k <= buffer.Length && Reversed(buffer[..k]) == LastDigits(fraction, k)
  {
    buffer := new nat[4 * w.bytes];
    var rest: nat := fraction;
    assert buffer[..0] == [];
    for i := 0 to k
      invariant LastDigits(rest, k - i) + Reversed(buffer[..i]) == LastDigits(fraction, k)
    {
      ghost var before := buffer[..i];
      buffer[i] := rest % NBASE;
      assert buffer[..i + 1] == before + [rest % NBASE];
      ReversedAppend(before, rest % NBASE);
      assert LastDigits(rest / NBASE, k - i - 1) + [rest % NBASE] + Reversed(before)
          == LastDigits(rest / NBASE, k - i - 1) + ([rest % NBASE] + Reversed(before));
      rest := rest / NBASE;
    }
    assert [] + Reversed(buffer[..k]) == Reversed(buffer[..k]);
  }

  /**
   The conversion in the arithmetic of type `w`; `Err` stands for a value that does not fit the type.
   The scale is one the type can carry.
   */
  method ConvertNumeric(w: Width, value: int, scale: nat) returns (r: Result<NumericVar>)
    requires IsWidth(w) && LowestValue(w) <= value <= w.max && Pow10(scale) <= w.max
    ensures r.Ok? <==> LowestValue(w) < value && AlignedFraction(value, scale) <= w.max
    ensures r.Ok? ==> r.value == NumericOf(value, scale)
  {
    if value == LowestValue(w) {
      return Err;
    }
    var magnitude := Abs(value);
    var whole, fraction := Quotient(magnitude, Pow10(scale)), magnitude % Pow10(scale);
    QuotientSmaller(magnitude, Pow10(scale));
    var integral, n := SplitIntegral(w, whole);
    var k := FractionalDigitCount(scale);
    DigitsFitBuffer(w, scale);
    var aligned := Product(fraction, Pow10(Correction(scale)));
    if aligned > w.max {
      return Err;
    }
    var fractional := SplitFraction(w, aligned, k);
    var digits := AppendReversed(integral, n, []);
    digits := AppendReversed(fractional, k, digits);
    assert [] + IntegralDigits(whole) == IntegralDigits(whole);
    var weight: int := n as int - 1;
    return Ok(NumericVar(digits, weight, value < 0, scale));
  }

  lemma {:induction false} QuotientSmaller(a: nat, p: nat)
    requires p >= 1
    ensures Quotient(a, p) <= a
  {
    MulMono(1, p, Quotient(a, p));
    Reassemble(a, p);
  }

  /** Enough room: when whole groups of the fraction fit the type, only the smallest value fails. */
  lemma {:induction false} RoomForGroups(w: Width, value: int, scale: nat)
    requires Pow10(4 * FractionalDigitCount(scale)) <= w.max
    ensures AlignedFraction(value, scale) <= w.max
  {
    FractionFits(value, scale);
  }

  /** Scale 9 in a 32-bit type: aligning nine decimals to twelve does not fit. */
  lemma {:induction false} NineDecimalsOverflow()
    ensures AlignedFraction(999999999, 9) > 0x7fff_ffff
  {
    PowFour();
    PowAdd(4, 4);
    assert Pow10(8) == 100000000;
    assert Pow10(9) == 1000000000;
    assert Correction(9) == 3;
  }
}
