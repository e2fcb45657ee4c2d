/** The chaining law of the secure channel: the messages of a session are one CBC chain and one CBC-MAC. */
module SecureChain {
  import opened Sequences
  import opened Bits
  import opened Wire
  import opened SecureChannel

  // ---- blocks ----

  lemma {:induction false} XorZero(a: nat)
    ensures Xor(a, 0) == a && Xor(a, a) == 0
    decreases a
  {
    if a > 0 {
      XorZero(a / 2);
    }
  }

  lemma {:induction false} XorSwap(a: nat, b: nat)
    ensures Xor(a, b) == Xor(b, a)
    decreases a + b
  {
    if a > 0 || b > 0 {
      XorSwap(a / 2, b / 2);
    }
  }

  /** The exclusive OR of blocks: zero changes nothing, a block cancels itself, and the order does not matter. */
  lemma {:induction false} XorLaws(a: Block, b: Block)
    ensures XorBlock(a, Zeros(16)) == a && XorBlock(a, a) == Zeros(16) && XorBlock(a, b) == XorBlock(b, a)
  {
    forall i | 0 <= i < 16
      ensures XorBlock(a, Zeros(16))[i] == a[i] && XorBlock(a, a)[i] == 0 && XorBlock(a, b)[i] == XorBlock(b, a)[i]
    {
      XorZero(a[i]);
      XorSwap(a[i], b[i]);
    }
  }

  /** Block `k` of a text. */
  function BlockAt(b: seq<byte>, k: nat): Block
    requires 16 * k + 16 <= |b|
  {
    b[16 * k..16 * k + 16]
  }

  /** Every block of the ciphertext is the encryption of the block of the text and the ciphertext block before it,
      the vector coming before the first. */
  lemma {:induction false} CbcBlocks(c: Cipher, iv: Block, p: seq<byte>, k: nat)
    requires Aligned(p) && 16 * k + 16 <= |p|
    ensures var e := CbcEncrypt(c, iv, p);
      BlockAt(e, k) == c.enc(XorBlock(BlockAt(p, k), if k == 0 then iv else BlockAt(e, k - 1)))
    decreases k
  {
    var block: Block := c.enc(XorBlock(p[..16], iv));
    var e, rest := CbcEncrypt(c, iv, p), CbcEncrypt(c, block, p[16..]);
    assert e == block + rest;
    if k > 0 {
      CbcBlocks(c, block, p[16..], k - 1);
      assert BlockAt(e, k) == BlockAt(rest, k - 1) && BlockAt(p[16..], k - 1) == BlockAt(p, k);
      if k > 1 {
        assert BlockAt(e, k - 1) == BlockAt(rest, k - 2);
      }
    }
  }

  // ---- chains ----

  /** The last `n` bytes. */
  function Suffix(b: seq<byte>, n: nat): (s: seq<byte>)
    requires n <= |b|
    ensures |s| == n
  {
    b[|b| - n..]
  }

  /** A text in two parts: the second goes on from the last ciphertext block of the first. */
  lemma {:induction false} CbcTwoParts(c: Cipher, iv: Block, p: seq<byte>, q: seq<byte>)
    requires Aligned(p) && Aligned(q) && p != []
    ensures |CbcEncrypt(c, iv, p)| >= 16 && Aligned(p + q)
    ensures CbcEncrypt(c, iv, p + q) == CbcEncrypt(c, iv, p) + CbcEncrypt(c, Suffix(CbcEncrypt(c, iv, p), 16), q)
    decreases |p|
  {
    hide CbcEncrypt;
    var block: Block := c.enc(XorBlock(p[..16], iv));
    assert (p + q)[..16] == p[..16] && (p + q)[16..] == p[16..] + q;
    FirstBlock(c, iv, p);
    FirstBlock(c, iv, p + q);
    if |p| == 16 {
      assert p[16..] == [] && [] + q == q;
      NoBlocks(c, block);
      assert block + [] == block && Suffix(block, 16) == block;
    } else {
      CbcTwoParts(c, block, p[16..], q);
      var rest := CbcEncrypt(c, block, p[16..]);
      SuffixOfSum(block, rest, 16);
      Regroup(block, rest, CbcEncrypt(c, Suffix(rest, 16), q));
    }
  }

  lemma {:induction false} FirstBlock(c: Cipher, iv: Block, p: seq<byte>)
    requires Aligned(p) && p != []
    ensures |p| >= 16 && Aligned(p[16..])
    ensures var block: Block := c.enc(XorBlock(p[..16], iv));
      CbcEncrypt(c, iv, p) == block + CbcEncrypt(c, block, p[16..])
  {}

  lemma {:induction false} NoBlocks(c: Cipher, iv: Block)
    ensures CbcEncrypt(c, iv, []) == []
  {}

  lemma {:induction false} Regroup(a: seq<byte>, b: seq<byte>, c: seq<byte>)
    ensures a + (b + c) == a + b + c
  {}

  function Concat(parts: seq<seq<byte>>): seq<byte> {
    if parts == [] then [] else Concat(parts[..|parts| - 1]) + parts[|parts| - 1]
  }

  lemma {:induction false} ConcatSnoc(parts: seq<seq<byte>>, part: seq<byte>)
    ensures Concat(parts + [part]) == Concat(parts) + part
  {
    assert (parts + [part])[..|parts|] == parts;
  }

  /** The padded payloads. */
  function Padded(payloads: seq<seq<byte>>): (p: seq<seq<byte>>)
    ensures |p| == |payloads|
  {
    if payloads == [] then [] else Padded(payloads[..|payloads| - 1]) + [Pad(payloads[|payloads| - 1])]
  }

  /** One end wraps the payloads one after the other. */
  function WrapAll(a: End, payloads: seq<seq<byte>>): (r: (End, seq<seq<byte>>))
    ensures |r.1| == |payloads|
  {
    if payloads == [] then (a, [])
    else
      var (b, wires) := WrapAll(a, payloads[..|payloads| - 1]);
      var (b', wire) := Wrap(b, payloads[|payloads| - 1]);
      (b', wires + [wire])
  }

  predicate NoneEmpty(payloads: seq<seq<byte>>) {
    forall d :: d in payloads ==> d != []
  }

  lemma {:induction false} FrontNotEmpty(payloads: seq<seq<byte>>)
    requires NoneEmpty(payloads) && payloads != []
    ensures NoneEmpty(payloads[..|payloads| - 1]) && payloads[|payloads| - 1] != []
  {
    var front := payloads[..|payloads| - 1];
    assert payloads[|payloads| - 1] in payloads;
    forall d | d in front ensures d != [] {
      assert d in payloads;
    }
  }

  /** What is left of a version-3 message without its tag. */
  function Ciphertexts(wires: seq<seq<byte>>): (e: seq<seq<byte>>)
    requires forall w :: w in wires ==> |w| >= 14
    ensures |e| == |wires|
  {
    if wires == [] then []
    else
      var w := wires[|wires| - 1];
      Ciphertexts(wires[..|wires| - 1]) + [w[..|w| - 14]]
  }

  lemma {:induction false} ConcatAligned(payloads: seq<seq<byte>>)
    ensures Aligned(Concat(Padded(payloads)))
    ensures payloads != [] ==> Concat(Padded(payloads)) != []
  {
    if payloads != [] {
      ConcatAligned(payloads[..|payloads| - 1]);
      ConcatSnoc(Padded(payloads[..|payloads| - 1]), Pad(payloads[|payloads| - 1]));
    }
  }

  // ---- version 2 ----

  /** What the vector is after a chain. */
  ghost predicate Follows(iv: Block, start: Block, chain: seq<byte>) {
    if chain == [] then iv == start else |chain| >= 16 && iv == Suffix(chain, 16)
  }

  lemma {:induction false} ChainOn(c: Cipher, start: Block, iv: Block, p: seq<byte>, q: seq<byte>)
    requires Aligned(p) && Aligned(q) && q != [] && Follows(iv, start, CbcEncrypt(c, start, p))
    ensures Aligned(p + q) && CbcEncrypt(c, start, p + q) == CbcEncrypt(c, start, p) + CbcEncrypt(c, iv, q)
    ensures |CbcEncrypt(c, iv, q)| >= 16 && Follows(Suffix(CbcEncrypt(c, iv, q), 16), start, CbcEncrypt(c, start, p + q))
  {
    if p == [] {
      assert p + q == q && [] + CbcEncrypt(c, iv, q) == CbcEncrypt(c, iv, q);
    } else {
      CbcTwoParts(c, start, p, q);
      var e, f := CbcEncrypt(c, start, p), CbcEncrypt(c, iv, q);
      assert Suffix(e + f, 16) == Suffix(f, 16);
    }
  }

  /** In version 2 the messages put together are the CBC encryption of the padded payloads put together. */
  lemma {:induction false} ChainLaw2(a: End, payloads: seq<seq<byte>>)
    requires a.keys.Version2? && NoneEmpty(payloads)
    ensures Aligned(Concat(Padded(payloads)))
    ensures var (b, wires) := WrapAll(a, payloads);
      && Concat(wires) == CbcEncrypt(a.keys.cipher, a.iv, Concat(Padded(payloads)))
      && b.keys == a.keys && Follows(b.iv, a.iv, Concat(wires))
  {
    ConcatAligned(payloads);
    if payloads != [] {
      var front, data := payloads[..|payloads| - 1], payloads[|payloads| - 1];
      FrontNotEmpty(payloads);
      ChainLaw2(a, front);
      var (b, wires) := WrapAll(a, front);
      ChainOn(a.keys.cipher, a.iv, b.iv, Concat(Padded(front)), Pad(data));
      ConcatSnoc(Padded(front), Pad(data));
      WrapOne2(b, data);
      ConcatSnoc(wires, Wrap(b, data).1);
    }
  }

  /** One message of version 2, and the vector after it. */
  lemma {:induction false} WrapOne2(b: End, data: seq<byte>)
    requires b.keys.Version2? && data != []
    ensures |CbcEncrypt(b.keys.cipher, b.iv, Pad(data))| >= 16
    ensures Wrap(b, data).1 == CbcEncrypt(b.keys.cipher, b.iv, Pad(data))
    ensures Wrap(b, data).0 == b.(iv := Suffix(CbcEncrypt(b.keys.cipher, b.iv, Pad(data)), 16))
  {
    hide CbcEncrypt, Pad;
  }

  // ---- version 3 ----

  /** One message of version 3: the ciphertext, the last 14 bytes of the MAC chain, and the vectors after it. */
  lemma {:induction false} WrapOne3(b: End, data: seq<byte>)
    requires b.keys.Version3? && data != []
    ensures var e := CbcEncrypt(b.keys.encryption, b.encIv, Pad(data));
      && Aligned(e) && |e| >= 16
      && var m := CbcEncrypt(b.keys.mac, b.macIv, e);
         && Wrap(b, data).1 == e + Suffix(m, 14)
         && Wrap(b, data).0 == b.(encIv := Suffix(e, 16), macIv := Suffix(m, 16))
  {
    var e := CbcEncrypt(b.keys.encryption, b.encIv, Pad(data));
    var m := CbcEncrypt(b.keys.mac, b.macIv, e);
    assert Suffix(Suffix(m, 16), 14) == Suffix(m, 14);
    hide CbcEncrypt, Pad;
  }

  /** In version 3 the ciphertexts put together are the CBC encryption of the padded payloads put together, and the
      tag of every message is the end of the CBC-MAC over all ciphertexts up to it. */
  lemma {:induction false} ChainLaw3(a: End, payloads: seq<seq<byte>>)
    requires a.keys.Version3? && NoneEmpty(payloads)
    ensures Aligned(Concat(Padded(payloads)))
    ensures var (b, wires) := WrapAll(a, payloads);
      && (forall w :: w in wires ==> |w| >= 14)
      && var chain := Concat(Ciphertexts(wires));
         && Aligned(chain) && chain == CbcEncrypt(a.keys.encryption, a.encIv, Concat(Padded(payloads)))
         && b.keys == a.keys && Follows(b.encIv, a.encIv, chain) && Follows(b.macIv, a.macIv, CbcEncrypt(a.keys.mac, a.macIv, chain))
         && (payloads != [] ==>
               && |chain| >= 16
               && Suffix(wires[|wires| - 1], 14) == Suffix(CbcEncrypt(a.keys.mac, a.macIv, chain), 14))
  {
    ConcatAligned(payloads);
    if payloads != [] {
      var front, data := payloads[..|payloads| - 1], payloads[|payloads| - 1];
      FrontNotEmpty(payloads);
      ChainLaw3(a, front);
      ConcatSnoc(Padded(front), Pad(data));
      ChainStep3(a, front, data);
    }
  }

  lemma {:induction false} ChainStep3(a: End, front: seq<seq<byte>>, data: seq<byte>)
    requires a.keys.Version3? && data != [] && Aligned(Concat(Padded(front)))
    requires var (b, wires) := WrapAll(a, front);
      && (forall w :: w in wires ==> |w| >= 14)
      && var chain := Concat(Ciphertexts(wires));
         && Aligned(chain) && chain == CbcEncrypt(a.keys.encryption, a.encIv, Concat(Padded(front)))
         && b.keys == a.keys && Follows(b.encIv, a.encIv, chain) && Follows(b.macIv, a.macIv, CbcEncrypt(a.keys.mac, a.macIv, chain))
    ensures Aligned(Concat(Padded(front)) + Pad(data))
    ensures var (b, wires) := WrapAll(a, front);
      var (b', wire) := Wrap(b, data);
      var all := wires + [wire];
      && |wire| >= 14 && (forall w :: w in all ==> |w| >= 14)
      && var chain := Concat(Ciphertexts(all));
         && Aligned(chain) && |chain| >= 16
         && chain == CbcEncrypt(a.keys.encryption, a.encIv, Concat(Padded(front)) + Pad(data))
         && b'.keys == a.keys && Follows(b'.encIv, a.encIv, chain) && Follows(b'.macIv, a.macIv, CbcEncrypt(a.keys.mac, a.macIv, chain))
         && Suffix(wire, 14) == Suffix(CbcEncrypt(a.keys.mac, a.macIv, chain), 14)
  {
    var (b, wires) := WrapAll(a, front);
    var (b', wire) := Wrap(b, data);
    var chain := Concat(Ciphertexts(wires));
    var e := CbcEncrypt(b.keys.encryption, b.encIv, Pad(data));
    var m := CbcEncrypt(b.keys.mac, b.macIv, e);
    hide CbcEncrypt, Pad, Wrap, WrapAll, Padded, Concat, Ciphertexts, Follows;
    WrapOne3(b, data);
    ChainOn(a.keys.encryption, a.encIv, b.encIv, Concat(Padded(front)), Pad(data));
    ChainOn(a.keys.mac, a.macIv, b.macIv, chain, e);
    CutTag(wires, wire, e, Suffix(m, 14));
    ConcatSnoc(Ciphertexts(wires), e);
    SuffixOfSum(CbcEncrypt(a.keys.mac, a.macIv, chain), m, 14);
  }

  lemma {:induction false} SuffixOfSum(a: seq<byte>, b: seq<byte>, n: nat)
    requires n <= |b|
    ensures Suffix(a + b, n) == Suffix(b, n)
  {}

  lemma {:induction false} CutTag(wires: seq<seq<byte>>, wire: seq<byte>, e: seq<byte>, tag: seq<byte>)
    requires (forall w :: w in wires ==> |w| >= 14) && wire == e + tag && |tag| == 14
    ensures forall w :: w in wires + [wire] ==> |w| >= 14
    ensures Ciphertexts(wires + [wire]) == Ciphertexts(wires) + [e] && Suffix(wire, 14) == tag
  {
    assert (wires + [wire])[..|wires|] == wires;
    assert wire[..|wire| - 14] == e;
  }

  // ---- what is accepted ----

  /** What passes as it is: everything without keys, nothing, and replies of a status alone. */
  lemma {:induction false} PassesBare(a: End, data: seq<byte>)
    ensures data == [] || a.keys.NoKeys? ==> Wrap(a, data) == (a, data) && Unwrap(a, data) == (a, Some(data))
    ensures |data| == 2 ==> Unwrap(a, data) == (a, Some(data))
  {
    hide CbcEncrypt, CbcDecrypt, Pad;
  }

  /** The padding is taken off where the last mark stands, and only there. */
  lemma {:induction false} UnpadExactly(p: seq<byte>, l: int, d: seq<byte>)
    requires -1 <= l < |p|
    ensures UnpadFrom(p, l) == Some(d)
       <==> |d| <= l && d == p[..|d|] && p[|d|] == 0x80 && forall i :: |d| < i <= l ==> p[i] != 0x80
    ensures UnpadFrom(p, l).None? <==> forall i :: 0 <= i <= l ==> p[i] != 0x80
    decreases l + 1
  {
    if l >= 0 && p[l] != 0x80 {
      UnpadExactly(p, l - 1, d);
    }
  }

  /** Version-3 data is accepted exactly when it is whole blocks and a tag, the tag is the end of the MAC chain, and
      the decrypted blocks have a padding mark. */
  lemma {:induction false} AcceptedExactly(b: End, data: seq<byte>)
    requires b.keys.Version3? && |data| > 2
    ensures Unwrap(b, data).1.Some?
       <==> && |data| >= 30 && Aligned(data[..|data| - 14])
            && var e := data[..|data| - 14];
               && Suffix(data, 14) == Suffix(CbcEncrypt(b.keys.mac, b.macIv, e), 14)
               && exists i :: 0 <= i < |e| && CbcDecrypt(b.keys.encryption, b.encIv, e)[i] == 0x80
    ensures Unwrap(b, data).1.Some? ==>
      var e := data[..|data| - 14];
      Unwrap(b, data).0 == b.(encIv := Suffix(e, 16), macIv := Suffix(CbcEncrypt(b.keys.mac, b.macIv, e), 16))
  {
    hide Unwrap, CbcEncrypt, CbcDecrypt, Unpad, Suffix;
    if |data| >= 30 && Aligned(data[..|data| - 14]) {
      UnwrapOne3(b, data);
      MarkExists(CbcDecrypt(b.keys.encryption, b.encIv, data[..|data| - 14]));
    } else {
      NotWhole(b, data);
    }
  }

  lemma {:induction false} UnwrapOne3(b: End, data: seq<byte>)
    requires b.keys.Version3? && |data| >= 30 && Aligned(data[..|data| - 14])
    ensures var e := data[..|data| - 14];
      |e| >= 16 && |CbcEncrypt(b.keys.mac, b.macIv, e)| >= 16
    ensures var e := data[..|data| - 14];
      var m := CbcEncrypt(b.keys.mac, b.macIv, e);
      Unwrap(b, data) == if Suffix(data, 14) != Suffix(m, 14) then (b.(macIv := Suffix(m, 16)), None)
                         else (b.(macIv := Suffix(m, 16), encIv := Suffix(e, 16)), Unpad(CbcDecrypt(b.keys.encryption, b.encIv, e)))
  {
    hide CbcEncrypt, CbcDecrypt, Unpad;
    var m := CbcEncrypt(b.keys.mac, b.macIv, data[..|data| - 14]);
    assert Suffix(Suffix(m, 16), 14) == Suffix(m, 14);
  }

  /** Version-2 data is accepted exactly when it is whole blocks with a padding mark; the vector is then its last
      block, and otherwise what it was. */
  lemma {:induction false} AcceptedExactly2(b: End, data: seq<byte>)
    requires b.keys.Version2? && |data| > 2
    ensures Unwrap(b, data).1.Some?
       <==> Aligned(data) && exists i :: 0 <= i < |data| && CbcDecrypt(b.keys.cipher, b.iv, data)[i] == 0x80
    ensures Unwrap(b, data).1.Some? ==> |data| >= 16 && Unwrap(b, data).0 == b.(iv := Suffix(data, 16))
    ensures Unwrap(b, data).1.None? ==> Unwrap(b, data).0 == b
  {
    hide Unwrap, CbcDecrypt, Unpad;
    if Aligned(data) {
      MarkExists(CbcDecrypt(b.keys.cipher, b.iv, data));
    }
    UnwrapOne2(b, data);
  }

  lemma {:induction false} UnwrapOne2(b: End, data: seq<byte>)
    requires b.keys.Version2? && |data| > 2
    ensures !Aligned(data) ==> Unwrap(b, data) == (b, None)
    ensures Aligned(data) ==> |data| >= 16
    ensures Aligned(data) ==>
      var plain := Unpad(CbcDecrypt(b.keys.cipher, b.iv, data));
      Unwrap(b, data) == (if plain.Some? then b.(iv := Suffix(data, 16)) else b, plain)
  {
    hide CbcDecrypt, Unpad;
  }

  lemma {:induction false} NotWhole(b: End, data: seq<byte>)
    requires b.keys.Version3? && |data| > 2 && !(|data| >= 30 && Aligned(data[..|data| - 14]))
    ensures Unwrap(b, data).1 == None
  {}

  lemma {:induction false} MarkExists(p: seq<byte>)
    ensures Unpad(p).Some? <==> exists i :: 0 <= i < |p| && p[i] == 0x80
  {
    UnpadExactly(p, |p| - 1, []);
  }

  /** The bytes of the padding. */
  lemma {:induction false} PadBytes(data: seq<byte>)
    ensures Pad(data)[..|data|] == data && Pad(data)[|data|] == 0x80
    ensures forall i :: |data| < i < |Pad(data)| ==> Pad(data)[i] == 0
    ensures |Pad(data)| % 16 == 0 && |Pad(data)| - |data| <= 16
  {}
}
