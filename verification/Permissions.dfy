/** Conjunction of machine words, one bit at a time. */
module MachineWords {
  lemma LowestBit(p: bv16, r: bv16)
    requires p & r == r
    ensures r & 1 == 1 ==> p & 1 == 1
  {
  }

  lemma OtherBits(p: bv16, r: bv16)
    requires p & r == r
    ensures (p / 2) & (r / 2) == r / 2
  {
  }

  lemma Together(p: bv16, r: bv16)
    requires (r & 1 == 1 ==> p & 1 == 1) && (p / 2) & (r / 2) == r / 2
    ensures p & r == r
  {
  }

  /** All ones from some place down. */
  predicate Ones(m: bv16) {
    m & (m + 1) == 0
  }

  lemma OnesByHalves(m: bv16)
    requires Ones(m)
    ensures Ones(m / 2)
  {
  }

  lemma OnesOfTop()
    ensures Ones(0xffff)
  {
  }

  lemma Extended(h: bv16, m: bv16, b: bv16) returns (v: bv16)
    requires Ones(m) && m != 0 && h <= m / 2 && b <= 1
    ensures v / 2 == h && v & 1 == b && v <= m
  {
    v := 2 * h + b;
  }

  lemma NothingRequired(p: bv16)
    ensures p & 0 == 0
  {
  }

  lemma Halving(v: bv16)
    ensures v != 0 ==> v / 2 < v
    ensures v == 0 ==> v / 2 == 0 && v & 1 == 0
    ensures v != 0 && v / 2 == 0 ==> v & 1 == 1
  {
  }
}

/** What the permission test of `check_permission` means. */
module Permissions {
  import opened NameServerSpec
  import opened MachineWords

  /** Bit `k` of a number in two's complement. */
  predicate Bit(n: int, k: nat)
    decreases k
  {
    if k == 0 then n % 2 == 1 else Bit(n / 2, k - 1)
  }

  /** Every required bit is granted. */
  ghost predicate Allows(granted: int, required: int) {
    forall k: nat :: Bit(required, k) ==> Bit(granted, k)
  }

  lemma {:induction false} NoBits(k: nat)
    ensures !Bit(0, k)
    decreases k
  {
    if k > 0 {
      NoBits(k - 1);
    }
  }

  lemma {:induction false} AllBits(k: nat)
    ensures Bit(-1, k)
    decreases k
  {
    if k > 0 {
      AllBits(k - 1);
    }
  }

  lemma {:induction false} MissingBit(n: int) returns (k: nat)
    requires n != -1
    ensures !Bit(n, k)
    decreases if n < 0 then -n else n
  {
    if n % 2 == 0 {
      k := 0;
    } else {
      k := MissingBit(n / 2);
      k := k + 1;
    }
  }

  lemma AllowsByHalves(p: int, r: int)
    ensures Allows(p, r) <==> (r % 2 == 1 ==> p % 2 == 1) && Allows(p / 2, r / 2)
  {
    if Allows(p, r) {
      assert Bit(r, 0) ==> Bit(p, 0);
      forall k: nat | Bit(r / 2, k) ensures Bit(p / 2, k) {
        assert Bit(r, k + 1) ==> Bit(p, k + 1);
      }
    } else {
      var k: nat :| Bit(r, k) && !Bit(p, k);
      assert k > 0 ==> Bit(r / 2, k - 1) && !Bit(p / 2, k - 1);
    }
  }

  /** The test is a comparison bit by bit, for all numbers. */
  lemma {:induction false} HasBitsExactly(p: int, r: int)
    ensures HasBits(p, r) <==> Allows(p, r)
    decreases if r < 0 then -r else r
  {
    if r == 0 {
      forall k: nat ensures !Bit(r, k) {
        NoBits(k);
      }
    } else if r == -1 {
      forall k: nat ensures Bit(r, k) {
        AllBits(k);
      }
      if p != -1 {
        var k := MissingBit(p);
      }
    } else {
      HasBitsExactly(p / 2, r / 2);
      AllowsByHalves(p, r);
    }
  }

  /** The two permissions are the two lowest bits, and neither one includes the other. */
  lemma AccessBits(p: int)
    ensures HasBits(p, ACCESS_READ) <==> p % 2 == 1
    ensures HasBits(p, ACCESS_WRITE) <==> (p / 2) % 2 == 1
    ensures !HasBits(ACCESS_WRITE, ACCESS_READ) && !HasBits(ACCESS_READ, ACCESS_WRITE)
  {
  }

  // ----- machine words -----

  /** The number that a word stands for. */
  function Number(v: bv16): nat
    decreases v
  {
    if v == 0 then 0 else Halving(v); 2 * Number(v / 2) + (if v & 1 == 1 then 1 else 0)
  }

  lemma NumberByHalves(v: bv16)
    ensures Number(v) / 2 == Number(v / 2)
    ensures Number(v) % 2 == 1 <==> v & 1 == 1
  {
    Halving(v);
  }

  lemma {:induction false} NumberShrinks(v: bv16)
    requires v != 0
    ensures Number(v / 2) < Number(v)
    decreases v
  {
    Halving(v);
    if v / 2 != 0 {
      NumberShrinks(v / 2);
    }
  }

  lemma HasBitsByHalves(p: nat, r: nat)
    ensures HasBits(p, r) <==> (r % 2 == 1 ==> p % 2 == 1) && HasBits(p / 2, r / 2)
  {
  }

  lemma NumbersByHalves(p: bv16, r: bv16)
    ensures HasBits(Number(p), Number(r))
            <==> (r & 1 == 1 ==> p & 1 == 1) && HasBits(Number(p / 2), Number(r / 2))
  {
    NumberByHalves(p);
    NumberByHalves(r);
    HasBitsByHalves(Number(p), Number(r));
  }

  lemma {:induction false} HalvesHaveBits(p: bv16, r: bv16)
    requires r != 0 && p & r == r
    ensures HasBits(Number(p / 2), Number(r / 2))
    decreases Number(r), 0
  {
    NumberShrinks(r);
    OtherBits(p, r);
    VectorHasBits(p / 2, r / 2);
  }

  lemma {:induction false} VectorHasBits(p: bv16, r: bv16)
    requires p & r == r
    ensures HasBits(Number(p), Number(r))
    decreases Number(r), 1
  {
    if r != 0 {
      HalvesHaveBits(p, r);
      LowestBit(p, r);
      NumbersByHalves(p, r);
    }
  }

  lemma {:induction false} BitsOfHalves(p: bv16, r: bv16)
    requires r != 0 && HasBits(Number(p / 2), Number(r / 2))
    ensures (p / 2) & (r / 2) == r / 2
    decreases Number(r), 0
  {
    NumberShrinks(r);
    HasBitsOfVector(p / 2, r / 2);
  }

  lemma {:induction false} HasBitsOfVector(p: bv16, r: bv16)
    requires HasBits(Number(p), Number(r))
    ensures p & r == r
    decreases Number(r), 1
  {
    if r == 0 {
      NothingRequired(p);
    } else {
      NumbersByHalves(p, r);
      BitsOfHalves(p, r);
      Together(p, r);
    }
  }

  /** On sixteen bits the test is the machine's `(perms & required) == required`. */
  lemma HasBitsOfVectors(p: bv16, r: bv16)
    ensures HasBits(Number(p), Number(r)) <==> p & r == r
  {
    if p & r == r {
      VectorHasBits(p, r);
    } else if HasBits(Number(p), Number(r)) {
      HasBitsOfVector(p, r);
    }
  }

  // ----- every number below 65536 is that of a word -----

  lemma {:induction false} WordBelow(n: nat, m: bv16) returns (v: bv16)
    requires n <= Number(m) && Ones(m)
    ensures Number(v) == n && v <= m
    decreases n
  {
    if n == 0 {
      v := 0;
    } else {
      NumberByHalves(m);
      OnesByHalves(m);
      var h := WordBelow(n / 2, m / 2);
      v := Extended(h, m, if n % 2 == 1 then 1 else 0);
      NumberByHalves(v);
    }
  }

  lemma AllOnes()
    ensures Number(0xffff) == 0xffff
  {
    assert Number(0) == 0;
    assert Number(1) == 1;
    assert Number(3) == 3;
    assert Number(7) == 7;
    assert Number(0xf) == 0xf;
    assert Number(0x1f) == 0x1f;
    assert Number(0x3f) == 0x3f;
    assert Number(0x7f) == 0x7f;
    assert Number(0xff) == 0xff;
    assert Number(0x1ff) == 0x1ff;
    assert Number(0x3ff) == 0x3ff;
    assert Number(0x7ff) == 0x7ff;
    assert Number(0xfff) == 0xfff;
    assert Number(0x1fff) == 0x1fff;
    assert Number(0x3fff) == 0x3fff;
    assert Number(0x7fff) == 0x7fff;
  }

  /** The test on numbers below 65536 is the conjunction of their words. */
  lemma HasBitsOfWords(p: nat, r: nat) returns (v: bv16, w: bv16)
    requires p < 0x1_0000 && r < 0x1_0000
    ensures Number(v) == p && Number(w) == r && (HasBits(p, r) <==> v & w == w)
  {
    AllOnes();
    OnesOfTop();
    v := WordBelow(p, 0xffff);
    w := WordBelow(r, 0xffff);
    HasBitsOfVectors(v, w);
  }
}
