/**
 Reading a Postgres numeric as a DuckDB scaled integer (`ConvertDecimal`): when the result is exact,
 that stripping zero digits does not matter, and the round trip with the other direction.
 */
module Decimal {
  import opened Results
  import opened Numeric

  // ---------------------------------------------------------------- the two halves of a numeric

  /** The digits before the decimal point, stripped zeros put back. */
  function IntegerDigits(n: NumericVar): (ds: seq<nat>)
    ensures |ds| == if n.weight >= 0 then n.weight + 1 else 0
  {
    if n.weight < 0 then []
    else if |n.digits| >= n.weight + 1 then n.digits[..n.weight + 1]
    else n.digits + Zeros(n.weight + 1 - |n.digits|)
  }

  /** The digits after the decimal point that are present. */
  function FractionDigits(n: NumericVar): seq<nat>
  {
    if |n.digits| <= n.weight + 1 then [] else if n.weight < 0 then n.digits else n.digits[n.weight + 1..]
  }

  /** Powers of ten by which the last fractional digit exceeds the scale; negative when it falls short. */
  function Excess(n: NumericVar): int
  {
    4 * FractionalGroups(n) - n.dscale
  }

  /** The fractional part as the loop accumulates it, with its compensation of the last digit. */
  function ScaledFraction(n: NumericVar): nat
    requires n.digits != []
  {
    var ds := FractionDigits(n);
    if ds == [] then 0
    else
      var head, last := DigitsValue(ds[..|ds| - 1]), ds[|ds| - 1];
      var e := Excess(n);
      if e >= 0 then Product(head, Quotient(NBASE, Pow10(e))) + Quotient(last, Pow10(e))
      else Product(head, Product(NBASE, Pow10(-e))) + Product(last, Pow10(-e))
  }

  function ScaledMagnitude(n: NumericVar): nat
    requires n.digits != []
  {
    Product(DigitsValue(IntegerDigits(n)), Pow10(n.dscale)) + ScaledFraction(n)
  }

  /** What `ConvertDecimal` returns. */
  function DecimalOf(n: NumericVar): int
  {
    if n.digits == [] then 0
    else if n.negative then -(ScaledMagnitude(n) as int) else ScaledMagnitude(n)
  }

  // ---------------------------------------------------------------- when it is exact

  /**
   The scale covers the digits: there are no fractional digits, or the last one holds nothing
   beyond the scale (it exceeds it by at most one group and is divisible), or they are all zero.
   */
  predicate Tidy(n: NumericVar)
  {
    var ds := FractionDigits(n);
    || ds == []
    || Excess(n) <= 0
    || (Excess(n) <= 4 && ds[|ds| - 1] % Pow10(Excess(n)) == 0)
    || DigitsValue(ds) == 0
  }

  lemma {:induction false} HalvesValue(n: NumericVar)
    requires FractionalGroups(n) >= 0
    ensures DigitsValue(n.digits) ==
      Product(DigitsValue(IntegerDigits(n)), Pow10(4 * FractionalGroups(n))) + DigitsValue(FractionDigits(n))
  {
    if n.weight >= 0 {
      ValueOfConcat(IntegerDigits(n), FractionDigits(n));
      assert n.digits == IntegerDigits(n) + FractionDigits(n);
    }
  }

  /** The fraction is right exactly when the numeric is tidy. */
  lemma {:induction false} FractionExactly(n: NumericVar)
    requires n.digits != [] && IsDigits(n.digits) && FractionalGroups(n) >= 0
    ensures Product(DigitsValue(FractionDigits(n)), Pow10(n.dscale))
         == Product(ScaledFraction(n), Pow10(4 * FractionalGroups(n)))
      <==> Tidy(n)
  {
    var ds := FractionDigits(n);
    if ds != [] {
      var head, last := DigitsValue(ds[..|ds| - 1]), ds[|ds| - 1];
      var e, p, q := Excess(n), Pow10(n.dscale), Pow10(4 * FractionalGroups(n));
      if e <= 0 {
        PowAdd(4 * FractionalGroups(n), -e);
        Spread(head, last, Pow10(-e), q);
        if e == 0 { PowFour(); }
      } else {
        PowAdd(n.dscale, e);
        Truncated(head, last, e, p);
      }
    }
  }

  lemma {:induction false} Spread(head: nat, last: nat, c: nat, q: nat)
    ensures (head * NBASE + last) * (q * c) == (head * (NBASE * c) + last * c) * q
  {
    assert head * (NBASE * c) + last * c == (head * NBASE + last) * c;
    assert ((head * NBASE + last) * c) * q == (head * NBASE + last) * (q * c);
  }

  /** The digits `head * NBASE + last` cut at 10^e: exact only when nothing is cut off. */
  lemma {:induction false} Truncated(head: nat, last: nat, e: nat, p: nat)
    requires e > 0 && p >= 1 && last < NBASE
    ensures
      var cut := Product(head, Quotient(NBASE, Pow10(e))) + Quotient(last, Pow10(e));
      (head * NBASE + last) * p == cut * (p * Pow10(e)) <==>
      (e <= 4 && last % Pow10(e) == 0) || head * NBASE + last == 0
  {
    var c := Pow10(e);
    var cut := Product(head, Quotient(NBASE, c)) + Quotient(last, c);
    MoveFactor(head * NBASE + last, cut, c, p);
    if e <= 4 {
      CutAtMostFour(head, last, e);
    } else {
      CutAboveFour(head, last, e);
    }
  }

  lemma {:induction false} CutAboveFour(head: nat, last: nat, e: nat)
    requires e > 4 && last < NBASE
    ensures Product(head, Quotient(NBASE, Pow10(e))) + Quotient(last, Pow10(e)) == 0
  {
    PowMono(5, e);
    PowFour();
    assert Pow10(5) == 100000;
    BelowOne(NBASE, Pow10(e));
    BelowOne(last, Pow10(e));
  }

  lemma {:induction false} MoveFactor(v: nat, cut: nat, c: nat, p: nat)
    requires p >= 1
    ensures v * p == cut * (p * c) <==> v == cut * c
  {
    assert cut * (p * c) == (cut * c) * p;
    if v * p == (cut * c) * p {
      CancelRight(v, cut * c, p);
    }
  }

  lemma {:induction false} BelowOne(a: nat, c: nat)
    requires a < c
    ensures Quotient(a, c) == 0
  {
  }

  lemma {:induction false} CutAtMostFour(head: nat, last: nat, e: nat)
    requires 0 < e <= 4 && last < NBASE
    ensures
      var c := Pow10(e);
      var cut := Product(head, Quotient(NBASE, c)) + Quotient(last, c);
      cut * c == head * NBASE + (last - last % c)
  {
    PowFour();
    var c := Pow10(e);
    Reassemble(last, c);
    assert Quotient(NBASE, c) * c == NBASE;
    Regroup(head, Quotient(NBASE, c), Quotient(last, c), c);
  }

  lemma {:induction false} Regroup(head: nat, q: nat, l: nat, c: nat)
    ensures (head * q + l) * c == head * (q * c) + l * c
  {
    assert head * q * c == head * (q * c);
  }

  /** The result is value times 10^dscale exactly for tidy numerics, and for no others. */
  lemma {:induction false} DecimalExactly(n: NumericVar)
    requires n.digits != [] && IsDigits(n.digits)
    ensures Denotes(n, ScaledMagnitude(n), n.dscale) <==> Tidy(n)
  {
    var f := FractionalGroups(n);
    var whole, p := DigitsValue(IntegerDigits(n)), Pow10(n.dscale);
    if f >= 0 {
      HalvesValue(n);
      FractionExactly(n);
      var q := Pow10(4 * f);
      Distribute(whole, q, DigitsValue(FractionDigits(n)), p);
      Distribute(whole, p, ScaledFraction(n), q);
    } else {
      ValueOfConcat(n.digits, Zeros(-f));
      ZerosAreZero(-f);
    }
  }

  lemma {:induction false} Distribute(a: nat, b: nat, d: nat, p: nat)
    ensures (Product(a, b) + d) * p == a * (b * p) + d * p
    ensures a * (b * p) == a * (p * b)
  {
    assert (a * b + d) * p == (a * b) * p + d * p;
    assert (a * b) * p == a * (b * p);
  }

  // ---------------------------------------------------------------- stripped zeros

  /** `lead` zero digits removed in front and `trail` behind, as Postgres stores numerics. */
  predicate CanStrip(n: NumericVar, lead: nat, trail: nat)
  {
    && lead + trail <= |n.digits|
    && (forall i :: 0 <= i < lead ==> n.digits[i] == 0)
    && (forall i :: |n.digits| - trail <= i < |n.digits| ==> n.digits[i] == 0)
  }

  function Strip(n: NumericVar, lead: nat, trail: nat): NumericVar
    requires CanStrip(n, lead, trail)
  {
    n.(digits := n.digits[lead..|n.digits| - trail], weight := n.weight - lead)
  }

  lemma {:induction false} StripLeadingKeepsValue(n: NumericVar, lead: nat, m: nat, s: nat)
    requires CanStrip(n, lead, 0)
    ensures Denotes(Strip(n, lead, 0), m, s) <==> Denotes(n, m, s)
  {
    var ds := n.digits;
    assert ds[..lead] == Zeros(lead);
    ZerosAreZero(lead);
    ValueOfConcat(ds[..lead], ds[lead..]);
    assert ds == ds[..lead] + ds[lead..];
    assert ds[lead..|ds| - 0] == ds[lead..];
  }

  lemma {:induction false} StripLastKeepsValue(n: NumericVar, m: nat, s: nat)
    requires CanStrip(n, 0, 1)
    ensures Denotes(Strip(n, 0, 1), m, s) <==> Denotes(n, m, s)
  {
    var ds := n.digits;
    var short := ds[..|ds| - 1];
    assert ds[0..|ds| - 1] == short;
    assert ds == short + [0];
    ValueOfMore(short, 0);
    var d, f, p := DigitsValue(short), FractionalGroups(n), Pow10(s);
    assert DigitsValue(ds) == d * NBASE && FractionalGroups(Strip(n, 0, 1)) == f - 1;
    if f >= 1 {
      PowGroup(f - 1);
      CancelGroup(d, p, m, Pow10(4 * (f - 1)));
    } else {
      PowGroup(-f);
      PowFour();
      assert (d * NBASE) * Pow10(4 * -f) == d * (Pow10(4 * -f) * NBASE);
    }
  }

  lemma {:induction false} CancelGroup(d: nat, p: nat, m: nat, q: nat)
    ensures (d * NBASE) * p == m * (q * NBASE) <==> d * p == m * q
  {
    assert (d * NBASE) * p == (d * p) * NBASE;
    assert m * (q * NBASE) == (m * q) * NBASE;
    CancelNBASE(d * p, m * q);
  }

  lemma {:induction false} StripKeepsValue(n: NumericVar, lead: nat, trail: nat, m: nat, s: nat)
    requires CanStrip(n, lead, trail)
    ensures Denotes(Strip(n, lead, trail), m, s) <==> Denotes(n, m, s)
    decreases trail
  {
    if trail == 0 {
      StripLeadingKeepsValue(n, lead, m, s);
    } else {
      StripLastKeepsValue(n, m, s);
      StripInTurn(n, lead, trail);
      StripKeepsValue(Strip(n, 0, 1), lead, trail - 1, m, s);
    }
  }

  lemma {:induction false} StripInTurn(n: NumericVar, lead: nat, trail: nat)
    requires CanStrip(n, lead, trail) && trail > 0
    ensures CanStrip(n, 0, 1) && CanStrip(Strip(n, 0, 1), lead, trail - 1)
    ensures Strip(Strip(n, 0, 1), lead, trail - 1) == Strip(n, lead, trail)
  {
    assert n.digits[0..|n.digits| - 1][lead..|n.digits| - trail] == n.digits[lead..|n.digits| - trail];
  }

  lemma {:induction false} CancelNBASE(a: nat, b: nat)
    ensures a * NBASE == b * NBASE <==> a == b
  {
  }

  /** What the conversion built is tidy, however many zero digits are stripped from it. */
  lemma {:induction false} BuiltIsTidy(v: int, scale: nat, lead: nat, trail: nat)
    requires CanStrip(NumericOf(v, scale), lead, trail)
    ensures Tidy(Strip(NumericOf(v, scale), lead, trail))
  {
    var n := NumericOf(v, scale);
    var n1 := Strip(n, lead, trail);
    NumericOfIsExact(v, scale);
    var ds := FractionDigits(n1);
    if ds != [] && trail == 0 && Excess(n1) > 0 {
      var k := FractionalDigitCount(scale);
      assert Excess(n1) == Correction(scale);
      assert ds[|ds| - 1] == n.digits[|n.digits| - 1];
      assert n.digits[|n.digits| - 1] == AlignedFraction(v, scale) % NBASE;
      AlignedDivides(FractionPart(v, scale), Correction(scale));
    }
  }

  /** A multiple of 10^c leaves a multiple of 10^c when reduced modulo 10000. */
  lemma {:induction false} AlignedDivides(r: nat, c: nat)
    requires c <= 4
    ensures Product(r, Pow10(c)) % NBASE % Pow10(c) == 0
  {
    PowFour();
    var p := Pow10(c);
    var x := r * p;
    var q := Quotient(NBASE, p);
    assert q * p == NBASE;
    assert x % NBASE == x - x / NBASE * NBASE;
    DifferenceOfMultiples(r, x / NBASE, q, p);
    MultipleModulo(r - x / NBASE * q, p);
  }

  lemma {:induction false} DifferenceOfMultiples(r: nat, y: nat, q: nat, p: nat)
    ensures r * p - y * (q * p) == (r - y * q) * p
  {
    assert y * (q * p) == (y * q) * p;
  }

  lemma {:induction false} MultipleModulo(a: int, p: nat)
    requires p >= 1
    ensures (a * p) % p == 0
  {
    assert a * p == p * a + 0;
    DivModUnique(a * p, a, 0, p);
  }

  lemma {:induction false} DivModUnique(x: int, q: int, r: nat, p: nat)
    requires p >= 1 && r < p && x == q * p + r
    ensures x % p == r
  {
    var q1, r1 := x / p, x % p;
    assert x == q1 * p + r1;
    assert (q - q1) * p == r1 - r;
    if q - q1 >= 1 {
      MulMono(1, q - q1, p);
    } else if q - q1 <= -1 {
      MulMono(q - q1, -1, p);
    }
  }

  /** Every scaled integer comes back from Postgres unchanged. */
  lemma {:induction false} RoundTrip(v: int, scale: nat, lead: nat, trail: nat)
    requires CanStrip(NumericOf(v, scale), lead, trail)
    ensures DecimalOf(Strip(NumericOf(v, scale), lead, trail)) == v
  {
    var n := NumericOf(v, scale);
    var n1 := Strip(n, lead, trail);
    NumericOfIsExact(v, scale);
    StripKeepsValue(n, lead, trail, Abs(v), scale);
    if n1.digits != [] {
      BuiltIsTidy(v, scale, lead, trail);
      DecimalExactly(n1);
      DenotesUnique(n1, Abs(v), ScaledMagnitude(n1), scale);
    } else {
      NothingLeft(n1, Abs(v), scale);
    }
  }

  lemma {:induction false} NothingLeft(n: NumericVar, m: nat, s: nat)
    requires n.digits == [] && Denotes(n, m, s)
    ensures m == 0
  {
    var f := FractionalGroups(n);
    if f >= 0 {
      assert 0 * Pow10(4 * f) == 0;
      CancelRight(m, 0, Pow10(4 * f));
    }
  }

  lemma {:induction false} ZeroValue(ds: seq<nat>)
    ensures DigitsValue(ds) == 0 <==> forall i :: 0 <= i < |ds| ==> ds[i] == 0
    decreases |ds|
  {
    if ds != [] {
      var n := |ds| - 1;
      ZeroValue(ds[..n]);
      assert forall i :: 0 <= i < n ==> ds[..n][i] == ds[i];
    }
  }

  /** How many fractional digits there are: all digits behind the point. */
  function FractionSize(n: NumericVar): nat
  {
    if |n.digits| <= n.weight + 1 then 0 else if n.weight < 0 then |n.digits| else |n.digits| - n.weight - 1
  }

  /** The fractional digits are the last digits. */
  lemma {:induction false} FractionAt(n: NumericVar, i: nat)
    ensures |FractionDigits(n)| == FractionSize(n) <= |n.digits|
    ensures i < FractionSize(n) ==> FractionDigits(n)[i] == n.digits[|n.digits| - FractionSize(n) + i]
  {
  }

  /** A fractional digit of a stripped numeric is one of the numeric, at the same distance from its end. */
  lemma {:induction false} StrippedFraction(n: NumericVar, lead: nat, trail: nat, i: nat)
    requires CanStrip(n, lead, trail) && i < FractionSize(Strip(n, lead, trail))
    ensures FractionSize(Strip(n, lead, trail)) + trail <= FractionSize(n)
    ensures |FractionDigits(n)| == FractionSize(n) && |FractionDigits(Strip(n, lead, trail))| == FractionSize(Strip(n, lead, trail))
    ensures FractionDigits(Strip(n, lead, trail))[i] ==
      FractionDigits(n)[FractionSize(n) - trail - FractionSize(Strip(n, lead, trail)) + i]
  {
    var n1 := Strip(n, lead, trail);
    FractionAt(n1, i);
    FractionAt(n, FractionSize(n) - trail - FractionSize(n1) + i);
  }

  /** Stripping keeps a numeric tidy. */
  lemma {:induction false} StripStaysTidy(n: NumericVar, lead: nat, trail: nat)
    requires CanStrip(n, lead, trail) && Tidy(n)
    ensures Tidy(Strip(n, lead, trail))
  {
    var ds, ds1 := FractionDigits(n), FractionDigits(Strip(n, lead, trail));
    assert Excess(Strip(n, lead, trail)) == Excess(n) - 4 * trail;
    if ds1 != [] {
      FractionAt(Strip(n, lead, trail), 0);
      StrippedFraction(n, lead, trail, |ds1| - 1);
      if DigitsValue(ds) == 0 {
        StrippedZeros(n, lead, trail);
      }
    }
  }

  lemma {:induction false} StrippedZeros(n: NumericVar, lead: nat, trail: nat)
    requires CanStrip(n, lead, trail) && DigitsValue(FractionDigits(n)) == 0
    ensures DigitsValue(FractionDigits(Strip(n, lead, trail))) == 0
  {
    var ds1 := FractionDigits(Strip(n, lead, trail));
    ZeroValue(FractionDigits(n));
    FractionAt(Strip(n, lead, trail), 0);
    forall i | 0 <= i < |ds1| ensures ds1[i] == 0 {
      StrippedFraction(n, lead, trail, i);
    }
    ZeroValue(ds1);
  }

  /** Stripping zeros from a tidy numeric, all digits of a zero included, does not change what is read. */
  lemma {:induction false} StripDoesNotMatter(n: NumericVar, lead: nat, trail: nat)
    requires IsDigits(n.digits) && CanStrip(n, lead, trail) && Tidy(n)
    ensures DecimalOf(Strip(n, lead, trail)) == DecimalOf(n)
  {
    var n1 := Strip(n, lead, trail);
    if n.digits != [] {
      DecimalExactly(n);
      StripKeepsValue(n, lead, trail, ScaledMagnitude(n), n.dscale);
      if n1.digits == [] {
        NothingLeft(n1, ScaledMagnitude(n), n.dscale);
      } else {
        StripStaysTidy(n, lead, trail);
        DecimalExactly(n1);
        DenotesUnique(n1, ScaledMagnitude(n), ScaledMagnitude(n1), n.dscale);
      }
    }
  }

  // ---------------------------------------------------------------- the loops, in machine arithmetic

  /** The integer digits, weighted and scaled; `Err` when a step leaves the type. */
  method IntegralPart(w: Width, n: NumericVar) returns (r: Result<nat>)
    requires n.digits != [] && n.weight >= 0
    ensures r.Ok? ==> r.value == Product(DigitsValue(IntegerDigits(n)), Pow10(n.dscale))
    ensures Product(DigitsValue(IntegerDigits(n)), Pow10(n.dscale)) <= w.max ==> r.Ok?
  {
    ghost var ds := IntegerDigits(n);
    MulMono(1, Pow10(n.dscale), DigitsValue(ds));
    var part := n.digits[0];
    var i := 1;
    FirstDigit(ds);
    if part > w.max {
      return Err;
    }
    while i <= n.weight
      invariant 1 <= i <= n.weight + 1 && part == DigitsValue(ds[..i])
    {
      NextDigit(ds, i);
      ValueGrows(ds, i + 1);
      part := part * NBASE;
      if i < |n.digits| {
        part := part + n.digits[i];
      }
      i := i + 1;
      if part > w.max {
        return Err;
      }
    }
    assert ds[..i] == ds;
    part := Product(part, Pow10(n.dscale));
    if part > w.max {
      return Err;
    }
    return Ok(part);
  }

  lemma {:induction false} FirstDigit(ds: seq<nat>)
    requires ds != []
    ensures DigitsValue(ds[..1]) == ds[0] <= DigitsValue(ds)
  {
    assert ds[..1] == [ds[0]];
    assert DigitsValue([ds[0]][..0]) == 0;
    ValueGrows(ds, 1);
  }

  lemma {:induction false} NextDigit(ds: seq<nat>, i: nat)
    requires i < |ds|
    ensures DigitsValue(ds[..i + 1]) == DigitsValue(ds[..i]) * NBASE + ds[i]
  {
    assert ds[..i + 1] == ds[..i] + [ds[i]];
    ValueOfMore(ds[..i], ds[i]);
  }

  /** All intermediates of the fraction loop fit: its result, the scale and one group do. */
  predicate FractionRoom(w: Width, n: NumericVar)
    requires n.digits != []
  {
    ScaledFraction(n) <= w.max && Pow10(n.dscale) <= w.max && Excess(n) <= 4
  }

  method FractionalPart(w: Width, n: NumericVar) returns (r: Result<nat>)
    requires IsWidth(w) && n.digits != [] && IsDigits(n.digits) && |n.digits| > n.weight + 1
    ensures r.Ok? ==> r.value == ScaledFraction(n)
    ensures FractionRoom(w, n) ==> r.Ok?
  {
    if FractionRoom(w, n) {
      RoomForCompensation(w, n);
    }
    var head := LeadingFraction(w, n);
    if head.Err? {
      return Err;
    }
    r := Compensate(w, head.value, n.digits[|n.digits| - 1], Excess(n));
  }

  /** The digits after the decimal point except the last one. */
  method LeadingFraction(w: Width, n: NumericVar) returns (r: Result<nat>)
    requires n.digits != [] && |n.digits| > n.weight + 1
    ensures
      var ds := FractionDigits(n);
      && (r.Ok? ==> r.value == DigitsValue(ds[..|ds| - 1]))
      && (DigitsValue(ds[..|ds| - 1]) <= w.max ==> r.Ok?)
  {
    ghost var ds := FractionDigits(n);
    ghost var start := if n.weight + 1 > 0 then n.weight + 1 else 0;
    var part: nat := 0;
    var i := if n.weight + 1 > 0 then n.weight + 1 else 0;
    assert ds == n.digits[start..];
    while i + 1 < |n.digits|
      invariant start <= i < |n.digits| && part == DigitsValue(ds[..i - start])
    {
      assert ds[..i - start + 1] == ds[..i - start] + [n.digits[i]];
      ValueOfMore(ds[..i - start], n.digits[i]);
      ValueGrows(ds[..|ds| - 1], i - start + 1);
      assert ds[..|ds| - 1][..i - start + 1] == ds[..i - start + 1];
      part := part * NBASE + n.digits[i];
      if part > w.max {
        return Err;
      }
      i := i + 1;
    }
    assert i - start == |ds| - 1;
    return Ok(part);
  }

  /** The last digit `last`, whose place exceeds the scale by 10^e. */
  method Compensate(w: Width, head: nat, last: nat, e: int) returns (r: Result<nat>)
    ensures
      var c := Pow10(if e >= 0 then e else -e);
      var base := if e >= 0 then Quotient(NBASE, c) else Product(NBASE, c);
      var digit := if e >= 0 then Quotient(last, c) else Product(last, c);
      && (r.Ok? ==> r.value == Product(head, base) + digit)
      && ((if e >= 0 then e else -e) < w.powers && c <= w.max && base <= w.max && digit <= w.max && Product(head, base) + digit <= w.max ==> r.Ok?)
  {
    if (if e >= 0 then e else -e) >= w.powers {
      return Err;
    }
    var compensation := Pow10(if e >= 0 then e else -e);
    if compensation > w.max {
      return Err;
    }
    var base, digit;
    if e >= 0 {
      base, digit := Quotient(NBASE, compensation), Quotient(last, compensation);
    } else {
      base, digit := Product(NBASE, compensation), Product(last, compensation);
    }
    if base > w.max || digit > w.max {
      return Err;
    }
    var part := Product(head, base) + digit;
    if part > w.max {
      return Err;
    }
    return Ok(part);
  }

  lemma {:induction false} RoomForCompensation(w: Width, n: NumericVar)
    requires IsWidth(w) && n.digits != [] && IsDigits(n.digits) && |n.digits| > n.weight + 1
    requires FractionRoom(w, n)
    ensures
      var ds, e := FractionDigits(n), Excess(n);
      var head, last := DigitsValue(ds[..|ds| - 1]), ds[|ds| - 1];
      && (if e >= 0 then e else -e) < w.powers
      && (e >= 0 ==> Pow10(e) <= w.max && head <= w.max && Quotient(NBASE, Pow10(e)) <= w.max && Quotient(last, Pow10(e)) <= w.max)
      && (e < 0 ==> Pow10(-e) <= w.max && head <= w.max && Product(NBASE, Pow10(-e)) <= w.max && Product(last, Pow10(-e)) <= w.max)
  {
    var ds, e := FractionDigits(n), Excess(n);
    var head, last := DigitsValue(ds[..|ds| - 1]), ds[|ds| - 1];
    assert ScaledFraction(n) <= w.max;
    if e >= 0 {
      RoomToDivide(w, head, last, e);
    } else {
      assert 4 - e <= n.dscale;
      RoomToMultiply(w, head, last, -e, n.dscale);
    }
  }

  lemma {:induction false} RoomToDivide(w: Width, head: nat, last: nat, e: nat)
    requires IsWidth(w) && e <= 4 && last < NBASE && Product(head, Quotient(NBASE, Pow10(e))) + Quotient(last, Pow10(e)) <= w.max
    ensures e < w.powers && Pow10(e) <= w.max && head <= w.max
    ensures Quotient(NBASE, Pow10(e)) <= w.max && Quotient(last, Pow10(e)) <= w.max
  {
    PowFour();
    PowMono(e, 4);
    PowMono(e, w.powers);
    QuotientSmaller(NBASE, Pow10(e));
    QuotientSmaller(last, Pow10(e));
    HeadBelow(head, Quotient(NBASE, Pow10(e)), Quotient(last, Pow10(e)), w.max);
  }

  lemma {:induction false} RoomToMultiply(w: Width, head: nat, last: nat, e: nat, s: nat)
    requires IsWidth(w) && e > 0 && e + 4 <= s && Pow10(s) <= w.max
    requires Product(head, Product(NBASE, Pow10(e))) + Product(last, Pow10(e)) <= w.max
    ensures e < w.powers && Pow10(e) <= w.max && head <= w.max
    ensures Product(NBASE, Pow10(e)) <= w.max && Product(last, Pow10(e)) <= w.max
  {
    var base := Product(NBASE, Pow10(e));
    PowMono(e, s);
    PowMono(e, w.powers);
    GroupTimes(e);
    PowMono(4 + e, s);
    HeadBelow(head, base, Product(last, Pow10(e)), w.max);
  }

  lemma {:induction false} GroupTimes(e: nat)
    ensures Product(NBASE, Pow10(e)) == Pow10(4 + e)
  {
    PowFour();
    PowAdd(4, e);
  }

  lemma {:induction false} HeadBelow(head: nat, base: nat, rest: nat, max: nat)
    requires base >= 1 && Product(head, base) + rest <= max
    ensures head <= max
  {
    MulMono(1, base, head);
  }

  predicate HasRoom(w: Width, n: NumericVar)
  {
    || (n.digits == [] && n.dscale < w.powers)
    || (n.digits != [] && ScaledMagnitude(n) <= w.max && Pow10(n.dscale) <= w.max && (|n.digits| > n.weight + 1 ==> Excess(n) <= 4))
  }

  /**
   The conversion in the arithmetic of type `w`. It never overflows when the scaled value and the
   power of the scale fit the type and the last digit exceeds the scale by at most one group. A scale
   beyond the table of powers is an error even for a zero.
   */
  method ConvertDecimal(w: Width, n: NumericVar) returns (r: Result<int>)
    requires IsWidth(w) && IsDigits(n.digits)
    ensures r.Ok? ==> r.value == DecimalOf(n)
    ensures HasRoom(w, n) ==> r.Ok?
    ensures n.dscale >= w.powers ==> r.Err?
  {
    if n.digits != [] && HasRoom(w, n) {
      PowMono(n.dscale, w.powers);
    }
    if n.dscale >= w.powers {
      return Err;
    }
    if n.digits == [] {
      return Ok(0);
    }
    var integral: nat, fractional: nat := 0, 0;
    if n.weight >= 0 {
      var part := IntegralPart(w, n);
      if part.Err? {
        return Err;
      }
      integral := part.value;
    }
    if |n.digits| > n.weight + 1 {
      var part := FractionalPart(w, n);
      if part.Err? {
        return Err;
      }
      fractional := part.value;
    }
    var magnitude := integral + fractional;
    if magnitude > w.max {
      return Err;
    }
    return Ok(if n.negative then -(magnitude as int) else magnitude);
  }
}
