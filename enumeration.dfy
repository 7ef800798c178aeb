/**
 Subsegment enumeration: every contiguous run of units of length 1 up to a
 maximum, shortest runs first and, among runs of one length, by increasing
 start index. The nested loops of the source are the method `Enumerate`; the
 function `Subsegments` is the list they build, and the lemmas say what it
 holds, in what order, and how many.
 */
module Enumeration {
  import opened Units

  /** The runs of exactly `length` units, by increasing start index. When
      `length` exceeds the number of units there are none. */
  function OfLength(units: seq<Unit>, length: nat): (r: seq<Subsegment>)
    requires 1 <= length
    ensures |r| == if length <= |units| then |units| - length + 1 else 0
    ensures forall p :: 0 <= p < |r| ==>
              r[p] == Subsegment(units[p..p + length], p, p + length - 1)
  {
    var count := if length <= |units| then |units| - length + 1 else 0;
    seq(count, p requires 0 <= p < count => Subsegment(units[p..p + length], p, p + length - 1))
  }

  /** The runs of length 1 through `maxLength`, blocks of equal length in
      increasing length order. A maximum below 1 gives no runs. */
  function Subsegments(units: seq<Unit>, maxLength: int): (r: seq<Subsegment>)
    ensures forall seg :: seg in r ==> 1 <= |seg.units| <= maxLength
    decreases maxLength
  {
    if maxLength < 1 then [] else Subsegments(units, maxLength - 1) + OfLength(units, maxLength)
  }

  /** Every enumerated run is a valid run of `units`. */
  lemma {:induction false} SubsegmentsValid(units: seq<Unit>, maxLength: int)
    ensures forall seg :: seg in Subsegments(units, maxLength) ==> ValidIn(units, seg)
    decreases maxLength
  {
    if maxLength >= 1 {
      SubsegmentsValid(units, maxLength - 1);
      var block := OfLength(units, maxLength);
      forall p | 0 <= p < |block|
        ensures ValidIn(units, block[p])
      {
      }
    }
  }

  /** The inner enumeration loop: for every start index at which a run of
      `length` units fits, append the run with its first and last index. */
  method AppendRuns(units: seq<Unit>, length: nat, segs: seq<Subsegment>) returns (r: seq<Subsegment>)
    requires 1 <= length
    ensures r == segs + OfLength(units, length)
  {
    r := segs;
    var startIndex := 0;
    while startIndex < |units| - length + 1
      invariant 0 <= startIndex && (startIndex == 0 || startIndex <= |units| - length + 1)
      invariant r == segs + OfLength(units, length)[..startIndex]
    {
      var lastIndex := startIndex + length - 1;
      assert OfLength(units, length)[..startIndex + 1]
          == OfLength(units, length)[..startIndex] + [OfLength(units, length)[startIndex]];
      r := r + [Subsegment(units[startIndex..lastIndex + 1], startIndex, lastIndex)];
      startIndex := startIndex + 1;
    }
    assert OfLength(units, length)[..startIndex] == OfLength(units, length);
  }

  /** The nested enumeration loops of the source: for every length from 1 to
      `maxLength`, every run of that length, by start index. */
  method Enumerate(units: seq<Unit>, maxLength: int) returns (segs: seq<Subsegment>)
    ensures segs == Subsegments(units, maxLength)
  {
    segs := [];
    var length := 1;
    while length <= maxLength
      invariant 1 <= length && (length == 1 || length <= maxLength + 1)
      invariant segs == Subsegments(units, length - 1)
    {
      segs := AppendRuns(units, length, segs);
      length := length + 1;
    }
  }

  /** Every valid run of at most `maxLength` units is enumerated. */
  lemma {:induction false} SubsegmentsComplete(units: seq<Unit>, maxLength: int, seg: Subsegment)
    requires ValidIn(units, seg) && |seg.units| <= maxLength
    ensures seg in Subsegments(units, maxLength)
    decreases maxLength
  {
    if |seg.units| == maxLength {
      var block := OfLength(units, maxLength);
      assert block[seg.startIndex] == seg;
    } else {
      SubsegmentsComplete(units, maxLength - 1, seg);
    }
  }

  /** A run is enumerated exactly when it is a valid run of `units` of at
      most `maxLength` units: length between 1 and the maximum, last index
      equal to start index plus length minus one, last index in range, and
      the stored units exactly the slice between the two indices. */
  lemma SubsegmentsMembership(units: seq<Unit>, maxLength: int, seg: Subsegment)
    ensures seg in Subsegments(units, maxLength) <==> ValidIn(units, seg) && |seg.units| <= maxLength
  {
    SubsegmentsValid(units, maxLength);
    if ValidIn(units, seg) && |seg.units| <= maxLength {
      SubsegmentsComplete(units, maxLength, seg);
    }
  }

  /** The enumeration order: shorter runs first, then smaller start index. */
  predicate Precedes(a: Subsegment, b: Subsegment)
  {
    |a.units| < |b.units| || (|a.units| == |b.units| && a.startIndex < b.startIndex)
  }

  /** The enumerated runs are strictly ordered by length and then by start
      index (so in particular no run is listed twice). */
  lemma {:induction false} SubsegmentsOrdered(units: seq<Unit>, maxLength: int)
    ensures forall p, q :: 0 <= p < q < |Subsegments(units, maxLength)| ==>
              Precedes(Subsegments(units, maxLength)[p], Subsegments(units, maxLength)[q])
    decreases maxLength
  {
    if maxLength >= 1 {
      var shorter := Subsegments(units, maxLength - 1);
      var block := OfLength(units, maxLength);
      var r := Subsegments(units, maxLength);
      SubsegmentsOrdered(units, maxLength - 1);
      forall p, q | 0 <= p < q < |r|
        ensures Precedes(r[p], r[q])
      {
        if q < |shorter| {
          assert r[p] == shorter[p] && r[q] == shorter[q];
        } else if p < |shorter| {
          assert r[p] == shorter[p] && r[p] in shorter;
          assert r[q] == block[q - |shorter|];
        } else {
          assert r[p] == block[p - |shorter|] && r[q] == block[q - |shorter|];
        }
      }
    }
  }

  /** The number of enumerated runs that have exactly `length` units. */
  function CountOfLength(segs: seq<Subsegment>, length: int): nat
  {
    if segs == [] then 0
    else CountOfLength(segs[..|segs| - 1], length) + (if |segs[|segs| - 1].units| == length then 1 else 0)
  }

  lemma {:induction false} CountOfLengthAppend(a: seq<Subsegment>, b: seq<Subsegment>, length: int)
    ensures CountOfLength(a + b, length) == CountOfLength(a, length) + CountOfLength(b, length)
  {
    if b == [] {
      assert a + b == a;
    } else {
      assert (a + b)[..|a + b| - 1] == a + b[..|b| - 1];
      CountOfLengthAppend(a, b[..|b| - 1], length);
    }
  }

  lemma {:induction false} CountOfLengthUniform(segs: seq<Subsegment>, length: int, n: nat)
    requires forall seg :: seg in segs ==> |seg.units| == n
    ensures CountOfLength(segs, length) == if n == length then |segs| else 0
  {
    if segs != [] {
      assert segs[|segs| - 1] in segs;
      CountOfLengthUniform(segs[..|segs| - 1], length, n);
    }
  }

  /** For n units, every length L with 1 <= L <= maxLength contributes
      n - L + 1 runs when L <= n and none when L > n; no other length occurs. */
  lemma {:induction false} SubsegmentsCountByLength(units: seq<Unit>, maxLength: int, length: int)
    ensures CountOfLength(Subsegments(units, maxLength), length)
         == if 1 <= length <= maxLength && length <= |units| then |units| - length + 1 else 0
    decreases maxLength
  {
    if maxLength >= 1 {
      var block := OfLength(units, maxLength);
      CountOfLengthAppend(Subsegments(units, maxLength - 1), block, length);
      SubsegmentsCountByLength(units, maxLength - 1, length);
      CountOfLengthUniform(block, length, maxLength);
    }
  }

  function Min(a: int, b: int): int
  {
    if a <= b then a else b
  }

  /** The total number of runs: with k = min(maxLength, n), the sum of
      n - L + 1 over L = 1..k, that is k * (2n - k + 1) / 2. */
  lemma {:induction false} SubsegmentsCount(units: seq<Unit>, maxLength: int)
    requires 0 <= maxLength
    ensures 2 * |Subsegments(units, maxLength)| == Min(maxLength, |units|) * (2 * |units| - Min(maxLength, |units|) + 1)
    decreases maxLength
  {
    if maxLength >= 1 {
      var n, m := |units|, maxLength;
      var shorter, block := Subsegments(units, m - 1), OfLength(units, m);
      assert Subsegments(units, m) == shorter + block;
      SubsegmentsCount(units, m - 1);
      if m <= n {
        assert Min(m - 1, n) == m - 1 && Min(m, n) == m;
        assert 2 * |shorter| == (m - 1) * (2 * n - m + 2);
        CountStep(n, m);
      } else {
        assert Min(m - 1, n) == n && Min(m, n) == n && |block| == 0;
      }
    }
  }

  lemma CountStep(n: int, m: int)
    ensures (m - 1) * (2 * n - m + 2) + 2 * (n - m + 1) == m * (2 * n - m + 1)
  {
  }
}
