/** The word-packed set of visited nodes of src/maludb_ann.c. A 64-bit word is a natural number whose
    shift and or are spelled out bit by bit. */
module Bitset {
  import opened Bytes

  function ShiftRight(w: nat, i: nat): nat {
    if i == 0 then w else ShiftRight(w / 2, i - 1)
  }

  predicate Bit(w: nat, i: nat) {
    ShiftRight(w, i) % 2 == 1
  }

  /** w | (1 << i) */
  function OrBit(w: nat, i: nat): nat {
    if i == 0 then w - w % 2 + 1 else 2 * OrBit(w / 2, i - 1) + w % 2
  }

  lemma {:induction false} OrBitSets(w: nat, i: nat, j: nat)
    ensures Bit(OrBit(w, i), j) <==> i == j || Bit(w, j)
  {
    var r := OrBit(w, i);
    if i > 0 {
      assert r / 2 == OrBit(w / 2, i - 1) && r % 2 == w % 2;
      if j > 0 {
        OrBitSets(w / 2, i - 1, j - 1);
      }
    } else {
      assert r / 2 == w / 2 && r % 2 == 1;
    }
  }

  lemma {:induction false} OrBitStaysInWord(w: nat, i: nat, n: nat)
    requires i < n && w < Pow2(n)
    ensures OrBit(w, i) < Pow2(n)
  {
    if i > 0 {
      OrBitStaysInWord(w / 2, i - 1, n - 1);
    }
  }

  lemma {:induction false} ZeroHasNoBits(i: nat)
    ensures !Bit(0, i)
  {
    if i > 0 {
      ZeroHasNoBits(i - 1);
    }
  }

  /** A set of nodes 0..limit-1 packed 64 to the word. */
  class Bitset {
    const limit: nat
    const bits: array<nat>

    ghost predicate Valid()
      reads bits
    {
      limit <= 64 * bits.Length && forall j :: 0 <= j < bits.Length ==> bits[j] < Pow2(64)
    }

    ghost predicate Has(i: nat)
      requires i < limit && Valid()
      reads bits
    {
      Bit(bits[i / 64], i % 64)
    }

    ghost function Members(): (s: set<nat>)
      requires Valid()
      reads bits
    {
      set i: nat | i < limit && Has(i)
    }

    constructor (n: nat)
      ensures Valid() && limit == n && fresh(bits) && Members() == {}
    {
      limit := n;
      bits := new nat[(n + 63) / 64](_ => 0);
      new;
      forall i: nat | i < n
        ensures !Has(i)
      {
        ZeroHasNoBits(i % 64);
      }
    }

    method Reset()
      requires limit <= 64 * bits.Length
      modifies bits
      ensures Valid() && Members() == {}
    {
      forall j | 0 <= j < bits.Length {
        bits[j] := 0;
      }
      forall i: nat | i < limit
        ensures !Has(i)
      {
        ZeroHasNoBits(i % 64);
      }
    }

    method Test(i: nat) returns (b: bool)
      requires Valid() && i < limit
      ensures b <==> i in Members()
    {
      b := ShiftRight(bits[i / 64], i % 64) % 2 == 1;
    }

    method Set(i: nat)
      requires Valid() && i < limit
      modifies bits
      ensures Valid() && Members() == old(Members()) + {i}
    {
      OrBitStaysInWord(bits[i / 64], i % 64, 64);
      ghost var word := bits[i / 64];
      bits[i / 64] := OrBit(bits[i / 64], i % 64);
      forall j: nat | j < limit
        ensures Has(j) <==> j == i || old(Has(j))
      {
        if j / 64 == i / 64 {
          OrBitSets(word, i % 64, j % 64);
        }
      }
    }
  }
}
