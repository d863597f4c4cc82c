/** 32-bit FNV-1a, as the generator uses it to hash zone names
    (update/main.go:80-90). Names are byte strings; the accumulator is a
    `bv32`, so the multiplication wraps around modulo 2^32 as Go's `uint32` does. */
module Fnv {

  /** The 32-bit FNV prime. */
  const Prime: bv32 := 16777619

  /** The 32-bit FNV offset basis. */
  const OffsetBasis: bv32 := 2166136261

  /** One FNV-1a round, the body of the loop in `fnvHash`: xor the byte into
      the accumulator, then multiply by the prime (modulo 2^32, as `uint32`).
      The prime is odd, so the lowest bit after the xor survives the
      multiplication. */
  function Step(acc: bv32, c: bv8): (r: bv32)
    ensures r & 1 == (acc ^ (c as bv32)) & 1
  {
    (acc ^ (c as bv32)) * Prime
  }

  /** The accumulator after folding the bytes of `s`, first to last, into `acc`. */
  function HashFrom(acc: bv32, s: seq<bv8>): bv32
    decreases |s|
  {
    if |s| == 0 then acc else HashFrom(Step(acc, s[0]), s[1..])
  }

  /** The FNV-1a hash of `s`. */
  function Hash(s: seq<bv8>): bv32 {
    HashFrom(OffsetBasis, s)
  }

  /** Folding one more byte at the end is one more round. */
  lemma {:induction false} HashFromSnoc(acc: bv32, s: seq<bv8>, c: bv8)
    ensures HashFrom(acc, s + [c]) == Step(HashFrom(acc, s), c)
    decreases |s|
  {
    if |s| == 0 {
      assert (s + [c])[1..] == [];
    } else {
      assert (s + [c])[1..] == s[1..] + [c];
      HashFromSnoc(Step(acc, s[0]), s[1..], c);
    }
  }

  /** The FNV-1a recurrence: the hash of `s` followed by `c` is one more round
      (`Step`: xor `c` in, multiply by the prime modulo 2^32) on the hash of `s`. */
  lemma HashSnoc(s: seq<bv8>, c: bv8)
    ensures Hash(s + [c]) == Step(Hash(s), c)
  {
    HashFromSnoc(OffsetBasis, s, c);
  }

  /** Hashing a concatenation continues from the hash of the first part. */
  lemma {:induction false} HashAppend(a: seq<bv8>, b: seq<bv8>)
    ensures Hash(a + b) == HashFrom(Hash(a), b)
    decreases |b|
  {
    if |b| == 0 {
      assert a + b == a;
    } else {
      var init := b[..|b| - 1];
      var c := b[|b| - 1];
      assert b == init + [c];
      assert a + b == (a + init) + [c];
      HashAppend(a, init);
      HashFromSnoc(OffsetBasis, a + init, c);
      HashFromSnoc(Hash(a), init, c);
    }
  }

  /** Published FNV-1a 32-bit test vectors. */
  lemma KnownVectors()
    ensures Hash([]) == 0x811c9dc5
    ensures Hash([0x61]) == 0xe40c292c
    ensures Hash([0x66, 0x6f, 0x6f, 0x62, 0x61, 0x72]) == 0xbf9cf968
  {
  }

  /** The loop of `fnvHash`: one round per byte of the name. */
  method FnvHash(s: seq<bv8>) returns (h: bv32)
    ensures h == Hash(s)
  {
    h := OffsetBasis;
    var i := 0;
    while i < |s|
      invariant 0 <= i <= |s|
      invariant h == Hash(s[..i])
    {
      assert Hash(s[..i + 1]) == Step(h, s[i]) by {
        assert s[..i + 1] == s[..i] + [s[i]];
        HashSnoc(s[..i], s[i]);
      }
      h := Step(h, s[i]);
      i := i + 1;
    }
    assert s[..|s|] == s;
  }
}
