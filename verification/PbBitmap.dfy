/** The set of required fields seen so far, kept as two 32-bit words. */
module PbBitmap {
  import opened Bits
  import opened WordShift
  import opened PbTypes

  /** Bit `n` of a number. */
  predicate Bit(w: nat, n: nat)
    decreases n
  {
    if n == 0 then w % 2 == 1 else Bit(w / 2, n - 1)
  }

  lemma {:induction false} OrBit(a: nat, b: nat, n: nat)
    ensures Bit(Or(a, b), n) <==> Bit(a, n) || Bit(b, n)
    decreases n
  {
    OrStep(a, b);
    hide Or;
    if n > 0 {
      OrBit(a / 2, b / 2, n - 1);
    }
  }

  lemma {:induction false} PowerBit(k: nat, n: nat)
    ensures Bit(Pow2(k), n) <==> n == k
    decreases n
  {
    if n > 0 && k > 0 {
      PowerBit(k - 1, n - 1);
    } else if n > 0 {
      ZeroBit(n - 1);
    }
  }

  lemma {:induction false} ZeroBit(n: nat)
    ensures !Bit(0, n)
    decreases n
  {
    if n > 0 {
      ZeroBit(n - 1);
    }
  }

  lemma {:induction false} OnesBit(r: nat, n: nat)
    ensures Bit(Pow2(r) - 1, n) <==> n < r
    decreases n
  {
    if r == 0 {
      ZeroBit(n);
    } else if n > 0 {
      assert (Pow2(r) - 1) / 2 == Pow2(r - 1) - 1;
      OnesBit(r - 1, n - 1);
    }
  }

  /** A number is determined by its bits. */
  lemma {:induction false} SameBits(a: nat, b: nat)
    requires forall n: nat :: Bit(a, n) <==> Bit(b, n)
    ensures a == b
    decreases a + b
  {
    assert Bit(a, 0) <==> Bit(b, 0);
    if a + b > 0 {
      forall n: nat ensures Bit(a / 2, n) <==> Bit(b / 2, n) {
        assert Bit(a, n + 1) <==> Bit(b, n + 1);
      }
      SameBits(a / 2, b / 2);
    }
  }

  /** `w` is the word for the indices from `base` on. */
  ghost predicate Holds(w: nat, seen: set<nat>, base: nat) {
    forall n: nat :: Bit(w, n) <==> n < 32 && base + n in seen
  }

  lemma {:induction false} SetBit(w: nat, seen: set<nat>, base: nat, k: nat)
    requires Holds(w, seen, base) && k < 32
    ensures Holds(Or(w, Pow2(k)), seen + {base + k}, base)
  {
    forall n: nat ensures Bit(Or(w, Pow2(k)), n) <==> n < 32 && base + n in seen + {base + k} {
      OrBit(w, Pow2(k), n);
      PowerBit(k, n);
    }
  }

  lemma {:induction false} OtherWord(w: nat, seen: set<nat>, base: nat, x: nat)
    requires Holds(w, seen, base) && !(base <= x < base + 32)
    ensures Holds(w, seen + {x}, base)
  {
    forall n: nat ensures Bit(w, n) <==> n < 32 && base + n in seen + {x} {}
  }

  lemma {:induction false} ShiftOnes(r: nat)
    requires r <= 32
    ensures Shr(0xFFFF_FFFF, 32 - r) == Pow2(r) - 1
  {
    Pow2Literals();
    Pow2Add(r, 32 - r);
    hide Pow2;
    OnesQuotient(Pow2(r), Pow2(32 - r));
  }

  lemma {:induction false} OnesQuotient(p: nat, q: nat)
    requires p > 0 && q > 0
    ensures p * q >= 1 && (p * q - 1) / q == p - 1
  {
    assert p * q == (p - 1) * q + q;
    assert (p - 1) * q >= 0;
    DivModUnique(p - 1, q - 1, q);
  }

  /** With no index at or above `base + r` seen, the word equals its mask exactly when all below are. */
  lemma {:induction false} FullWord(w: nat, seen: set<nat>, base: nat, r: nat)
    requires Holds(w, seen, base) && r <= 32
    requires forall x | x in seen :: x < base + 32 ==> x < base + r
    ensures w == Pow2(r) - 1 <==> forall x: nat | base <= x < base + r :: x in seen
  {
    if w == Pow2(r) - 1 {
      forall x: nat | base <= x < base + r ensures x in seen {
        OnesBit(r, x - base);
        assert Bit(w, x - base);
      }
    }
    if forall x: nat | base <= x < base + r :: x in seen {
      forall n: nat ensures Bit(w, n) <==> Bit(Pow2(r) - 1, n) {
        OnesBit(r, n);
        assert n < r ==> base + n in seen;
      }
      SameBits(w, Pow2(r) - 1);
    }
  }

  class Bitmap {
    const words: array<uint32>
    ghost var seen: set<nat>

    ghost predicate Valid()
      reads this, words
    {
      && words.Length == 2 && Holds(words[0], seen, 0) && Holds(words[1], seen, 32)
      && forall x | x in seen :: x < PB_MAX_REQUIRED_FIELDS
    }

    constructor ()
      ensures Valid() && fresh(words) && seen == {}
    {
      words := new uint32[2];
      seen := {};
      new;
      words[0], words[1] := 0, 0;
      forall n: nat ensures !Bit(0, n) {
        ZeroBit(n);
      }
    }

    /** `fields_seen[index >> 5] |= 1 << (index & 31)`. */
    method Mark(index: nat)
      requires Valid() && index < PB_MAX_REQUIRED_FIELDS
      modifies this, words
      ensures Valid() && seen == old(seen) + {index}
    {
      hide Holds, Or, Pow2, Bit;
      var i, k := index / 32, index % 32;
      Pow2Literals();
      Pow2Monotone(k + 1, 32);
      PowerBelow(k);
      OrBound(words[i], Pow2(k), 32);
      SetBit(words[i], seen, 32 * i, k);
      OtherWord(words[1 - i], seen, 32 * (1 - i), index);
      words[i] := Or(words[i], Pow2(k));
      seen := seen + {index};
    }

    /** The check of the first `count` bits. */
    method Complete(count: nat) returns (ok: bool)
      requires Valid() && count <= PB_MAX_REQUIRED_FIELDS && forall x | x in seen :: x < count
      ensures ok <==> forall n: nat | n < count :: n in seen
    {
      hide Holds, Pow2, Bit;
      Pow2Literals();
      for i := 0 to count / 32
        invariant forall n: nat | n < 32 * i :: n in seen
      {
        FullWord(words[i], seen, 32 * i, 32);
        if words[i] != 0xFFFF_FFFF {
          return false;
        }
      }
      if count % 32 != 0 {
        FullWord(words[count / 32], seen, 32 * (count / 32), count % 32);
        ShiftOnes(count % 32);
        if words[count / 32] != Shr(0xFFFF_FFFF, 32 - count % 32) {
          return false;
        }
      }
      return true;
    }
  }

  lemma {:induction false} PowerBelow(k: nat)
    requires k < 32
    ensures Pow2(k) < Pow2(32)
  {
    Pow2Monotone(k + 1, 32);
  }
}
