/** How fft factors the remaining length at each step of its radix loop:
    the first of the small primes 2, 3, 5, 7 that divides the length, or
    the length itself, which then goes to Bluestein's algorithm. */
module Plan {
  import opened Pow2

  /** The radices the loop tries, in the order it tries them. */
  const Factors: seq<nat> := [2, 3, 5, 7]

  /** `fs.find((x) => len % x === 0)`: the index of the first entry of fs
      dividing len, or |fs| when none does. */
  function FindDivisor(fs: seq<nat>, len: nat): (i: nat)
    ensures i <= |fs|
    decreases |fs|
  {
    if |fs| == 0 then 0
    else if fs[0] > 0 && len % fs[0] == 0 then 0
    else 1 + FindDivisor(fs[1..], len)
  }

  /** The radix len1 of the loop: the first factor dividing len, or len
      itself (`?? len`). */
  function Radix(len: nat): nat {
    var i := FindDivisor(Factors, len);
    if i < |Factors| then Factors[i] else len
  }

  /** The index that find returns divides len, and no entry before it does;
      when none is found, no entry divides len. */
  lemma {:induction false} FindDivisorFirst(fs: seq<nat>, len: nat)
    requires forall j :: 0 <= j < |fs| ==> fs[j] > 0
    ensures FindDivisor(fs, len) < |fs| ==> len % fs[FindDivisor(fs, len)] == 0
    ensures forall j :: 0 <= j < FindDivisor(fs, len) ==> len % fs[j] != 0
    decreases |fs|
  {
    if |fs| > 0 && len % fs[0] != 0 {
      FindDivisorFirst(fs[1..], len);
      forall j | 0 < j <= FindDivisor(fs[1..], len)
        ensures fs[j] == fs[1..][j - 1]
      {}
    }
  }

  /** The radix is the first of 2, 3, 5, 7 that divides len, when there is
      one, and len otherwise. */
  lemma RadixChoice(len: nat)
    ensures Radix(len) in Factors ==>
              len % Radix(len) == 0
              && forall j :: 0 <= j < |Factors| && Factors[j] < Radix(len) ==> len % Factors[j] != 0
    ensures Radix(len) !in Factors ==> Radix(len) == len && forall f :: f in Factors ==> len % f != 0
  {
    FindDivisorFirst(Factors, len);
    var i := FindDivisor(Factors, len);
    if i < |Factors| {
      forall j | 0 <= j < |Factors| && Factors[j] < Radix(len)
        ensures j < i
      {}
    } else {
      forall f | f in Factors
        ensures len % f != 0
      {
        var j :| 0 <= j < |Factors| && Factors[j] == f;
      }
    }
  }

  /** The radix is a divisor of len greater than one, so the loop always
      advances, and len2 = len / len1 is a whole number. */
  lemma RadixDivides(len: nat)
    requires len >= 2
    ensures 2 <= Radix(len) <= len && len % Radix(len) == 0
    ensures len / Radix(len) * Radix(len) == len
    ensures 1 <= len / Radix(len) < len
  {
    RadixChoice(len);
    var r := Radix(len);
    assert r >= 2 && len % r == 0 by {
      assert r in Factors ==> r == 2 || r == 3 || r == 5 || r == 7;
    }
    var q := len / r;
    DivMod(len, r);
    QuotientRange(len, r, q);
  }

  lemma DivMod(a: nat, b: nat)
    requires b > 0
    ensures a == b * (a / b) + a % b
  {}

  /** A divisor r >= 2 of len is at most len and leaves a quotient between
      1 and len - 1. */
  lemma QuotientRange(len: nat, r: nat, q: int)
    requires 2 <= r && len >= 2 && len == r * q
    ensures 1 <= q < len && r <= len && q * r == len
  {
    assert q != 0;
    assert r * q >= 2 * q;
    assert r * q >= r;
  }

  /** The radix is neither a listed factor nor the cause of a further step
      only when len has no factor 2, 3, 5 or 7: then len2 = 1, so the
      `unexpected` error is never thrown. */
  lemma RadixLast(len: nat)
    requires len >= 2 && Radix(len) !in Factors
    ensures Radix(len) == len && len / Radix(len) == 1
  {
    RadixChoice(len);
  }

  /** Every step takes one of the three stages: the radix is a listed
      factor, or it is the whole length and nothing is left (len2 = 1). */
  lemma RadixCases(len1: nat, len2: nat)
    requires len1 == Radix(len1 * len2) && len1 * len2 >= 2
    ensures len1 in Factors || len2 == 1
  {
    var len := len1 * len2;
    if len1 !in Factors {
      RadixLast(len);
      assert len1 * len2 == len1 * 1;
      CancelLeft(len1, len2, 1);
    }
  }

  lemma CancelLeft(a: nat, b: nat, c: nat)
    requires a > 0 && a * b == a * c
    ensures b == c
  {
    assert a * (b - c) == 0;
  }

  /** Bluestein's algorithm is reached only for lengths of at least 11:
      every length from 2 to 10 has a factor 2, 3, 5 or 7. */
  lemma BluesteinLength(len: nat)
    requires len >= 2 && Radix(len) !in Factors
    ensures len >= 11
  {
    RadixChoice(len);
    assert len % 2 != 0 && len % 3 != 0 && len % 5 != 0 && len % 7 != 0 by {
      assert 2 in Factors && 3 in Factors && 5 in Factors && 7 in Factors;
    }
  }

  /** The length the radix loop hands to Bluestein's algorithm: len with
      its factors 2, 3, 5 and 7 divided out, in the order the loop takes
      them (1 when none is left). */
  function Rough(len: nat): (r: nat)
    ensures r <= len
    decreases len
  {
    if len >= 2 && Radix(len) in Factors then
      RadixDivides(len);
      Rough(len / Radix(len))
    else len
  }

  /** A step of the loop with a listed radix leaves the same rough part;
      the Bluestein step leaves length 1, whose rough part is smaller. */
  lemma RoughStep(len: nat)
    requires len >= 2
    ensures Radix(len) in Factors ==> Rough(len / Radix(len)) == Rough(len)
    ensures Rough(len / Radix(len)) <= Rough(len)
  {
    if Radix(len) !in Factors {
      RadixLast(len);
    }
  }

  /** Where the loop reaches Bluestein's stage, the whole remaining length
      is the rough part. */
  lemma RoughLast(len: nat)
    requires len >= 2 && Radix(len) !in Factors
    ensures Rough(len) == len
  {}

  /** A power of two has no rough part, so its transform never reaches
      Bluestein's stage. */
  lemma {:induction false} Pow2Rough(len: nat)
    requires IsPow2(len)
    ensures Rough(len) == 1
    decreases len
  {
    if len >= 2 {
      Pow2Radix(len);
      assert Radix(len) == 2 && 2 in Factors;
      RadixDivides(len);
      Pow2Rough(len / 2);
    }
  }

  /** A power of two of at least 2 always takes the radix-2 stage, and what
      is left is again a power of two. */
  lemma Pow2Radix(len: nat)
    requires len >= 2
    ensures IsPow2(len) ==> Radix(len) == 2 && IsPow2(len / 2)
  {
    if IsPow2(len) {
      Pow2Even(len);
    }
  }
}
