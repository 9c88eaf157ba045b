/** Big-endian bit strings and the bit cursor the QR Code segment decoder reads from.
    The cursor class stands for `com.google.zxing.common.BitSource`, whose source is not
    part of this model: it hands out the bits of a byte array, most significant bit of
    each byte first, and refuses to read past the end. */
module Bits {
  import opened Base

  /** Two to the power `n`; at least one, so even the empty bit string has a value below it. */
  function Pow2(n: nat): (p: nat)
    ensures p >= 1
  {
    if n == 0 then 1 else 2 * Pow2(n - 1)
  }

  /** The powers of two the segment decoder reads widths of. */
  lemma Pow2Table()
    ensures Pow2(4) == 16 && Pow2(6) == 64 && Pow2(7) == 128 && Pow2(8) == 256
    ensures Pow2(10) == 1024 && Pow2(11) == 2048 && Pow2(13) == 0x2000 && Pow2(16) == 0x10000
  {
    assert Pow2(8) == 256;
    assert Pow2(16) == 0x10000;
  }

  /** The unsigned value of a bit string, first bit most significant. */
  function BitsValue(s: seq<bool>): nat
  {
    if s == [] then 0 else 2 * BitsValue(s[..|s| - 1]) + (if s[|s| - 1] then 1 else 0)
  }

  /** The low `n` bits of `v`, most significant first. */
  function ToBits(v: nat, n: nat): (s: seq<bool>)
    ensures |s| == n
  {
    if n == 0 then [] else ToBits(v / 2, n - 1) + [v % 2 == 1]
  }

  /** The bits of a byte array, each byte most significant bit first. */
  function BytesToBits(bytes: seq<byte>): (s: seq<bool>)
    ensures |s| == 8 * |bytes|
  {
    if bytes == [] then [] else BytesToBits(bytes[..|bytes| - 1]) + ToBits(bytes[|bytes| - 1], 8)
  }

  lemma {:induction false} BitsValueBound(s: seq<bool>)
    ensures BitsValue(s) < Pow2(|s|)
  {
    if s != [] {
      BitsValueBound(s[..|s| - 1]);
    }
  }

  /** Writing `v` in `n` bits and reading them back gives `v` when it fits. */
  lemma {:induction false} ToBitsExact(v: nat, n: nat)
    requires v < Pow2(n)
    ensures BitsValue(ToBits(v, n)) == v
  {
    if n > 0 {
      var s := ToBits(v, n);
      assert s[..n - 1] == ToBits(v / 2, n - 1);
      ToBitsExact(v / 2, n - 1);
    }
  }

  /** Reading a bit string as a number and writing the number back in as many bits gives the
      bit string. */
  lemma {:induction false} BitsRoundTrip(s: seq<bool>)
    ensures ToBits(BitsValue(s), |s|) == s
  {
    if s != [] {
      var init := s[..|s| - 1];
      BitsRoundTrip(init);
      var v := BitsValue(s);
      assert v / 2 == BitsValue(init) && (v % 2 == 1) == s[|s| - 1];
      assert s == init + [s[|s| - 1]];
    }
  }

  /** Byte `k` of a byte array occupies bits `8k .. 8k+8` of its bit string. */
  lemma {:induction false} BytesToBitsAt(bytes: seq<byte>, k: nat)
    requires k < |bytes|
    ensures BytesToBits(bytes)[8 * k .. 8 * k + 8] == ToBits(bytes[k], 8)
    decreases |bytes|
  {
    var init := bytes[..|bytes| - 1];
    assert BytesToBits(bytes) == BytesToBits(init) + ToBits(bytes[|bytes| - 1], 8);
    if k < |bytes| - 1 {
      BytesToBitsAt(init, k);
      assert BytesToBits(bytes)[8 * k .. 8 * k + 8] == BytesToBits(init)[8 * k .. 8 * k + 8];
    }
  }

  /** The read cursor over a bit string. */
  class BitSource {
    const bits: seq<bool>
    var offset: nat

    ghost predicate Valid()
      reads this
    {
      offset <= |bits|
    }

    constructor (bytes: seq<byte>)
      ensures Valid()
      ensures bits == BytesToBits(bytes) && offset == 0
    {
      bits := BytesToBits(bytes);
      offset := 0;
    }

    function Available(): (n: nat)
      reads this
      requires Valid()
      ensures offset + n == |bits|
    {
      |bits| - offset
    }

    /** Reads the next `n` bits as an unsigned number; fails, reading nothing, when fewer remain. */
    method ReadBits(n: nat) returns (r: Outcome<nat>)
      requires Valid()
      modifies this
      ensures Valid()
      ensures n <= old(Available()) ==>
                r == Ok(BitsValue(bits[old(offset) .. old(offset) + n])) && offset == old(offset) + n
      ensures n > old(Available()) ==> r.Fail? && offset == old(offset)
    {
      if n > |bits| - offset {
        return Fail("not enough bits available");
      }
      r := Ok(BitsValue(bits[offset .. offset + n]));
      offset := offset + n;
    }
  }
}
