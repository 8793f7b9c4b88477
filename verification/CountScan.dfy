/**
 The count-only scan: Postgres returns partial counts, and the scan hands DuckDB empty-bodied chunks
 whose sizes must add up to them.
 */
module CountScan {
  const VECTOR_SIZE: nat := 2048

  function Sum(s: seq<nat>): nat
  {
    if s == [] then 0 else s[0] + Sum(s[1..])
  }

  lemma {:induction false} SumSplits(a: seq<nat>, b: seq<nat>)
    ensures Sum(a + b) == Sum(a) + Sum(b)
  {
    if a == [] {
      assert a + b == b;
    } else {
      SumSplits(a[1..], b);
      assert (a + b)[1..] == a[1..] + b;
    }
  }

  /** The partial counts still to come, and the fields of the local state. */
  datatype Scan = Scan(partials: seq<nat>, outputSize: nat, exhausted: bool)

  function Min(a: nat, b: nat): nat { if a <= b then a else b }

  /** `SetOutputCardinality`: the size of the chunk, and the state it leaves. */
  function SetCardinality(s: Scan): (Scan, nat)
  {
    var n := Min(s.outputSize, VECTOR_SIZE);
    (s.(outputSize := s.outputSize - n), n)
  }

  /** One call of the scan function: it fetches at most one vector's worth of partial counts. */
  function CallScan(s: Scan): (Scan, nat)
  {
    if s.exhausted then SetCardinality(s)
    else
      var k := Min(|s.partials|, VECTOR_SIZE);
      SetCardinality(Scan(s.partials[k..], Sum(s.partials[..k]), |s.partials| < VECTOR_SIZE))
  }

  class LocalState {
    var partials: seq<nat>
    var outputVectorSize: nat
    var exhaustedScan: bool

    ghost function State(): Scan
      reads this
    {
      Scan(partials, outputVectorSize, exhaustedScan)
    }

    method SetOutputCardinality() returns (cardinality: nat)
      modifies this
      ensures (State(), cardinality) == SetCardinality(old(State()))
    {
      cardinality := if outputVectorSize <= VECTOR_SIZE then outputVectorSize else VECTOR_SIZE;
      outputVectorSize := outputVectorSize - cardinality;
    }

    /** The single-threaded scan function in count-only mode. */
    method PostgresScanFunction() returns (cardinality: nat)
      modifies this
      ensures (State(), cardinality) == CallScan(old(State()))
    {
      if exhaustedScan {
        cardinality := SetOutputCardinality();
        return;
      }
      outputVectorSize := 0;
      ghost var all := partials;
      var i := 0;
      while i < VECTOR_SIZE
        invariant 0 <= i <= VECTOR_SIZE && i <= |all| && partials == all[i..]
        invariant outputVectorSize == Sum(all[..i]) && !exhaustedScan
      {
        if partials == [] {
          exhaustedScan := true;
          break;
        }
        SumSplits(all[..i], [partials[0]]);
        assert all[..i] + [partials[0]] == all[..i + 1];
        assert Sum([partials[0]][1..]) == 0;
        outputVectorSize := outputVectorSize + partials[0];
        partials := partials[1..];
        i := i + 1;
      }
      cardinality := SetOutputCardinality();
    }
  }

  /** The chunk sizes DuckDB sees: it asks again until a chunk is empty. */
  function Chunks(s: Scan): seq<nat>
    decreases |s.partials| + (if s.exhausted then 0 else 1), s.outputSize
  {
    var (s1, n) := CallScan(s);
    if n == 0 then [] else [n] + Chunks(s1)
  }

  lemma {:induction false} ChunksFit(s: Scan)
    ensures forall i :: 0 <= i < |Chunks(s)| ==> 0 < Chunks(s)[i] <= VECTOR_SIZE
    decreases |s.partials| + (if s.exhausted then 0 else 1), s.outputSize
  {
    var (s1, n) := CallScan(s);
    if n != 0 {
      ChunksFit(s1);
    }
  }

  lemma {:induction false} ExhaustedEmitsRest(s: Scan)
    requires s.exhausted
    ensures Sum(Chunks(s)) == s.outputSize
    decreases s.outputSize
  {
    var (s1, n) := CallScan(s);
    if n != 0 {
      ExhaustedEmitsRest(s1);
      assert Chunks(s)[1..] == Chunks(s1);
    }
  }

  /**
   No count is lost: the last fetch comes back short, and every full fetch before it fits one chunk
   and is not empty (an empty chunk would end the scan).
   */
  predicate Lossless(partials: seq<nat>)
    decreases |partials|
  {
    || |partials| < VECTOR_SIZE
    || Sum(partials) == 0
    || (0 < Sum(partials[..VECTOR_SIZE]) <= VECTOR_SIZE && Lossless(partials[VECTOR_SIZE..]))
  }

  lemma {:induction false} NothingInvented(partials: seq<nat>, size: nat)
    ensures Sum(Chunks(Scan(partials, size, false))) <= Sum(partials)
    decreases |partials|
  {
    var s := Scan(partials, size, false);
    var (s1, n) := CallScan(s);
    var k := Min(|partials|, VECTOR_SIZE);
    assert partials == partials[..k] + partials[k..];
    SumSplits(partials[..k], partials[k..]);
    if n != 0 {
      assert Chunks(s)[1..] == Chunks(s1);
      if s1.exhausted {
        ExhaustedEmitsRest(s1);
      } else {
        NothingInvented(s1.partials, s1.outputSize);
      }
    }
  }

  /** The chunk sizes add up to the partial counts exactly when no full fetch loses any. */
  lemma {:induction false} ChunksSumToCounts(partials: seq<nat>, size: nat)
    ensures Sum(Chunks(Scan(partials, size, false))) == Sum(partials) <==> Lossless(partials)
    decreases |partials|
  {
    var s := Scan(partials, size, false);
    var (s1, n) := CallScan(s);
    var k := Min(|partials|, VECTOR_SIZE);
    assert partials == partials[..k] + partials[k..];
    SumSplits(partials[..k], partials[k..]);
    if n == 0 {
      assert Sum(partials[..k]) == 0;
    } else {
      assert Chunks(s)[1..] == Chunks(s1);
      if s1.exhausted {
        ExhaustedEmitsRest(s1);
        assert partials[k..] == [];
      } else {
        ChunksSumToCounts(s1.partials, s1.outputSize);
        NothingInvented(s1.partials, s1.outputSize);
      }
    }
  }

  lemma {:induction false} SumOfTwos(n: nat)
    ensures Sum(seq(n, _ => 2)) == 2 * n
  {
    if n > 0 {
      assert seq(n, _ => 2)[1..] == seq(n - 1, _ => 2);
      SumOfTwos(n - 1);
    }
  }

  /** A full fetch of counts of 2 loses half of them. */
  lemma {:induction false} FullFetchLosesCounts()
    ensures
      var partials := seq(VECTOR_SIZE, _ => 2);
      Sum(Chunks(Scan(partials, 0, false))) != Sum(partials)
  {
    var partials := seq(VECTOR_SIZE, _ => 2);
    SumOfTwos(VECTOR_SIZE);
    assert partials[..VECTOR_SIZE] == partials;
    ChunksSumToCounts(partials, 0);
  }

  /** One partial count per worker and one of the leader are far fewer than a vector holds. */
  lemma {:induction false} FewPartialsAreExact(partials: seq<nat>)
    requires |partials| < VECTOR_SIZE
    ensures Sum(Chunks(Scan(partials, 0, false))) == Sum(partials)
  {
    ChunksSumToCounts(partials, 0);
  }
}
