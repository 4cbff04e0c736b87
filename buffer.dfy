/** Sample buffers: a Float32Array holding complex samples as interleaved
    (real part, imaginary part) pairs is modelled as a sequence of reals. */
module Buffer {
  import opened Complex

  /** Sample k of an interleaved buffer. */
  function Get(s: seq<real>, k: int): Complex
    requires 0 <= k && 2 * k + 1 < |s|
  {
    Complex(s[2 * k], s[2 * k + 1])
  }

  /** The complex samples an interleaved buffer of even length holds. */
  function Samples(s: seq<real>): (z: seq<Complex>)
    requires |s| % 2 == 0
    ensures |z| == |s| / 2
    ensures forall k :: 0 <= k < |z| ==> z[k] == Get(s, k)
  {
    seq(|s| / 2, k requires 0 <= k < |s| / 2 => Get(s, k))
  }

  /** A buffer of 2 n reals holds n samples. */
  lemma DoubleEven(n: nat)
    ensures (2 * n) % 2 == 0 && (2 * n) / 2 == n
  {}

  /** The interleaved buffer that holds the samples z. */
  function Interleave(z: seq<Complex>): (s: seq<real>)
    ensures |s| == 2 * |z|
    ensures forall k :: 0 <= k < |z| ==> s[2 * k] == z[k].re && s[2 * k + 1] == z[k].im
    decreases |z|
  {
    if |z| == 0 then [] else Interleave(z[..|z| - 1]) + [z[|z| - 1].re, z[|z| - 1].im]
  }

  /** Interleaving and reading back the samples is the identity. */
  lemma SamplesInterleave(z: seq<Complex>)
    ensures Samples(Interleave(z)) == z
  {
  }

  /** A buffer is determined by its samples. */
  lemma InterleaveSamples(s: seq<real>)
    requires |s| % 2 == 0
    ensures Interleave(Samples(s)) == s
  {
    var t := Interleave(Samples(s));
    forall i | 0 <= i < |s|
      ensures t[i] == s[i]
    {
      var k := i / 2;
      assert Samples(s)[k] == Get(s, k);
      if i % 2 == 0 {
        assert i == 2 * k;
      } else {
        assert i == 2 * k + 1;
      }
    }
  }

  /** The buffer with sample k replaced by z. */
  function Put(s: seq<real>, k: int, z: Complex): (t: seq<real>)
    requires 0 <= k && 2 * k + 1 < |s|
    ensures |t| == |s|
  {
    s[2 * k := z.re][2 * k + 1 := z.im]
  }

  /** Writing one sample changes that sample and no other. */
  lemma SamplesPut(s: seq<real>, k: int, z: Complex)
    requires |s| % 2 == 0 && 0 <= k && 2 * k + 1 < |s|
    ensures Samples(Put(s, k, z)) == Samples(s)[k := z]
  {
    var t := Put(s, k, z);
    forall j | 0 <= j < |s| / 2
      ensures Samples(t)[j] == Samples(s)[k := z][j]
    {
      if j != k {
        assert t[2 * j] == s[2 * j] && t[2 * j + 1] == s[2 * j + 1];
      }
    }
  }
}
