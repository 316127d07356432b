/** The eight-byte key Bitcoin Core combines with its block files, and the reader that takes it off again. */
module Obfuscations {
  import opened Common

  // ---------------------------------------------------------------- exclusive or

  /** Exclusive or of two numbers, lowest bit first. */
  function XorBits(a: nat, b: nat): nat
    decreases a + b
  {
    if a == 0 && b == 0 then 0
    else (if a % 2 == b % 2 then 0 else 1) + 2 * XorBits(a / 2, b / 2)
  }

  function Pow2(bits: nat): nat {
    if bits == 0 then 1 else 2 * Pow2(bits - 1)
  }

  lemma {:induction false} XorBitsFit(a: nat, b: nat, bits: nat)
    requires a < Pow2(bits) && b < Pow2(bits)
    ensures XorBits(a, b) < Pow2(bits)
    decreases bits
  {
    if bits > 0 {
      XorBitsFit(a / 2, b / 2, bits - 1);
    }
  }

  function Xor(a: byte, b: byte): byte {
    assert Pow2(4) == 16;
    XorBitsFit(a as nat, b as nat, 8);
    XorBits(a as nat, b as nat) as byte
  }

  lemma LowBit(bit: nat, high: nat)
    requires bit < 2
    ensures (bit + 2 * high) % 2 == bit && (bit + 2 * high) / 2 == high
  {
  }

  lemma {:induction false} XorBitsTwice(a: nat, k: nat)
    ensures XorBits(XorBits(a, k), k) == a
    decreases a + k
  {
    if a != 0 || k != 0 {
      LowBit(if a % 2 == k % 2 then 0 else 1, XorBits(a / 2, k / 2));
      XorBitsTwice(a / 2, k / 2);
    }
  }

  lemma {:induction false} XorBitsZero(a: nat, k: nat)
    ensures XorBits(a, k) == 0 <==> a == k
    decreases a + k
  {
    if a != 0 || k != 0 {
      XorBitsZero(a / 2, k / 2);
    }
  }

  /** Combining with the same byte twice changes nothing. */
  lemma XorTwice(a: byte, k: byte)
    ensures Xor(Xor(a, k), k) == a
  {
    XorBitsTwice(a as nat, k as nat);
  }

  /** Only equal bytes cancel. */
  lemma XorZero(a: byte, k: byte)
    ensures Xor(a, k) == 0 <==> a == k
  {
    XorBitsZero(a as nat, k as nat);
  }

  /** One binary digit. */
  function Bit(n: nat, k: nat): nat {
    if k == 0 then n % 2 else Bit(n / 2, k - 1)
  }

  lemma {:induction false} XorBitsByBit(a: nat, b: nat, k: nat)
    ensures Bit(XorBits(a, b), k) == if Bit(a, k) == Bit(b, k) then 0 else 1
    decreases k
  {
    if a != 0 || b != 0 {
      LowBit(if a % 2 == b % 2 then 0 else 1, XorBits(a / 2, b / 2));
    }
    if k > 0 {
      XorBitsByBit(a / 2, b / 2, k - 1);
    }
  }

  /** Every binary digit of the result is one exactly when the digits of the operands differ. */
  lemma XorByBit(a: byte, b: byte, k: nat)
    ensures Bit(Xor(a, b) as nat, k) == 1 <==> Bit(a as nat, k) != Bit(b as nat, k)
  {
    XorBitsByBit(a as nat, b as nat, k);
  }

  // ---------------------------------------------------------------- the key over a file

  type XorKey = k: Bytes | |k| == 8 witness [0, 0, 0, 0, 0, 0, 0, 0]

  /** The key repeats along the file. */
  function KeyByte(key: XorKey, position: nat): byte {
    if position < 8 then key[position] else KeyByte(key, position - 8)
  }

  lemma EightBack(position: nat)
    requires position >= 8
    ensures (position - 8) % 8 == position % 8
  {
  }

  lemma {:induction false} KeyByteIsIndexed(key: XorKey, position: nat)
    ensures KeyByte(key, position) == key[position % 8]
    decreases position
  {
    if position >= 8 {
      EightBack(position);
      KeyByteIsIndexed(key, position - 8);
    }
  }

  lemma {:induction false} KeyByteIsCyclic(key: XorKey, offset: nat, i: nat)
    ensures KeyByte(key, offset + i) == KeyByte(key, offset % 8 + i)
    decreases offset
  {
    if offset >= 8 {
      EightBack(offset);
      KeyByteIsCyclic(key, offset - 8, i);
    }
  }

  /** The four bytes of the repeated key from an offset on. */
  function KeyWindow(key: XorKey, offset: nat): (w: Bytes)
    ensures |w| == 4
  {
    [KeyByte(key, offset), KeyByte(key, offset + 1), KeyByte(key, offset + 2), KeyByte(key, offset + 3)]
  }

  /** There are only eight windows. */
  lemma KeyWindowIsCyclic(key: XorKey, offset: nat)
    ensures KeyWindow(key, offset) == KeyWindow(key, offset % 8)
  {
    KeyByteIsCyclic(key, offset, 0);
    KeyByteIsCyclic(key, offset, 1);
    KeyByteIsCyclic(key, offset, 2);
    KeyByteIsCyclic(key, offset, 3);
  }

  /** A byte at a position of the file, combined with the key byte that falls there. */
  function Mask(b: byte, key: Option<XorKey>, position: nat): byte {
    match key
    case None => b
    case Some(k) => Xor(b, KeyByte(k, position))
  }

  /** Bytes that start at a position of the file, put under the key or taken from under it. */
  function Masked(bytes: Bytes, key: Option<XorKey>, position: nat): (r: Bytes)
    ensures |r| == |bytes|
    ensures forall i :: 0 <= i < |r| ==> r[i] == Mask(bytes[i], key, position + i)
  {
    seq(|bytes|, i requires 0 <= i < |bytes| => Mask(bytes[i], key, position + i))
  }

  /** Byte `i` is combined, digit by digit, with the key byte at its place in the file, counted modulo eight. */
  lemma MaskedByBit(bytes: Bytes, key: XorKey, position: nat, i: nat, k: nat)
    requires i < |bytes|
    ensures Bit(Masked(bytes, Some(key), position)[i] as nat, k) == 1
       <==> Bit(bytes[i] as nat, k) != Bit(key[(position + i) % 8] as nat, k)
    ensures Masked(bytes, None, position) == bytes
  {
    KeyByteIsIndexed(key, position + i);
    XorByBit(bytes[i], key[(position + i) % 8], k);
  }

  lemma MaskTwice(b: byte, key: Option<XorKey>, position: nat)
    ensures Mask(Mask(b, key, position), key, position) == b
  {
    if key.Some? {
      XorTwice(b, KeyByte(key.value, position));
    }
  }

  /** Putting bytes under the key and taking them off again gives them back, wherever they stand. */
  lemma MaskedTwice(bytes: Bytes, key: Option<XorKey>, position: nat)
    ensures Masked(Masked(bytes, key, position), key, position) == bytes
  {
    forall i | 0 <= i < |bytes| ensures Masked(Masked(bytes, key, position), key, position)[i] == bytes[i] {
      MaskTwice(bytes[i], key, position + i);
    }
  }

  lemma MaskedConcat(a: Bytes, b: Bytes, key: Option<XorKey>, position: nat)
    ensures Masked(a + b, key, position) == Masked(a, key, position) + Masked(b, key, position + |a|)
  {
    assert forall i :: |a| <= i < |a + b| ==> (a + b)[i] == b[i - |a|];
  }
}
