/**
 Byte-order adapter: byte swapping of 1/2/4/8-byte unsigned integers and the
 conversion of a value read from a file in the file's byte order into the
 host's byte order.

 The host's byte order is a compile-time constant in the original program;
 here it is the parameter `hostLittleEndian`, so that every law below holds
 for both kinds of host.
 */
module EndianUtils {

  /* ---------------------------------------------------------------------- */
  /* Byte swapping, one function per width                                  */
  /* ---------------------------------------------------------------------- */

  /** A 1-byte value has nothing to swap. */
  function Byteswap8(v: bv8): bv8
  {
    v
  }

  /** Shifts are computed in 16 bits, which is what the truncating cast back
      to the 16-bit type does to the wider intermediate value. */
  function Byteswap16(v: bv16): bv16
  {
    (v << 8) | (v >> 8)
  }

  function Byteswap32(v: bv32): bv32
  {
    ((v & 0xFF00_0000) >> 24) |
    ((v & 0x00FF_0000) >> 8) |
    ((v & 0x0000_FF00) << 8) |
    ((v & 0x0000_00FF) << 24)
  }

  function Byteswap64(v: bv64): bv64
  {
    ((v & 0xFF00_0000_0000_0000) >> 56) |
    ((v & 0x00FF_0000_0000_0000) >> 40) |
    ((v & 0x0000_FF00_0000_0000) >> 24) |
    ((v & 0x0000_00FF_0000_0000) >> 8) |
    ((v & 0x0000_0000_FF00_0000) << 8) |
    ((v & 0x0000_0000_00FF_0000) << 24) |
    ((v & 0x0000_0000_0000_FF00) << 40) |
    ((v & 0x0000_0000_0000_00FF) << 56)
  }

  /* Byte k of a value, counted from the least significant byte. */

  function Byte16(v: bv16, k: nat): bv8
    requires k < 2
  {
    (if k == 0 then v & 0xFF else v >> 8) as bv8
  }

  function Byte32(v: bv32, k: nat): bv8
    requires k < 4
  {
    var shifted := match k
      case 0 => v
      case 1 => v >> 8
      case 2 => v >> 16
      case _ => v >> 24;
    (shifted & 0xFF) as bv8
  }

  function Byte64(v: bv64, k: nat): bv8
    requires k < 8
  {
    var shifted := match k
      case 0 => v
      case 1 => v >> 8
      case 2 => v >> 16
      case 3 => v >> 24
      case 4 => v >> 32
      case 5 => v >> 40
      case 6 => v >> 48
      case _ => v >> 56;
    (shifted & 0xFF) as bv8
  }

  lemma Byteswap8Identity(v: bv8)
    ensures Byteswap8(v) == v
  {
  }

  /** Byte k of the swapped value is byte n-1-k of the original. */
  lemma Byteswap16Reverses(v: bv16, k: nat)
    requires k < 2
    ensures Byte16(Byteswap16(v), k) == Byte16(v, 1 - k)
  {
    if k == 0 {
    } else {
    }
  }

  lemma Byteswap32Reverses(v: bv32, k: nat)
    requires k < 4
    ensures Byte32(Byteswap32(v), k) == Byte32(v, 3 - k)
  {
    if k == 0 {
    } else if k == 1 {
    } else if k == 2 {
    } else {
    }
  }

  lemma Byteswap64Reverses(v: bv64, k: nat)
    requires k < 8
    ensures Byte64(Byteswap64(v), k) == Byte64(v, 7 - k)
  {
    if k == 0 {
    } else if k == 1 {
    } else if k == 2 {
    } else if k == 3 {
    } else if k == 4 {
    } else if k == 5 {
    } else if k == 6 {
    } else {
    }
  }

  /** Swapping twice gives the value back, at every width. */
  lemma ByteswapInvolution(a: bv8, b: bv16, c: bv32, d: bv64)
    ensures Byteswap8(Byteswap8(a)) == a
    ensures Byteswap16(Byteswap16(b)) == b
    ensures Byteswap32(Byteswap32(c)) == c
    ensures Byteswap64(Byteswap64(d)) == d
  {
  }

  /* ---------------------------------------------------------------------- */
  /* From file byte order to host byte order                                */
  /* ---------------------------------------------------------------------- */

  function FromFileEndian16(v: bv16, fileLittleEndian: bool, hostLittleEndian: bool): bv16
  {
    if fileLittleEndian == hostLittleEndian then v else Byteswap16(v)
  }

  function FromFileEndian32(v: bv32, fileLittleEndian: bool, hostLittleEndian: bool): bv32
  {
    if fileLittleEndian == hostLittleEndian then v else Byteswap32(v)
  }

  function FromFileEndian64(v: bv64, fileLittleEndian: bool, hostLittleEndian: bool): bv64
  {
    if fileLittleEndian == hostLittleEndian then v else Byteswap64(v)
  }

  /** A file in the host's byte order needs no conversion. */
  lemma FromFileEndianMatchingHost(b: bv16, c: bv32, d: bv64, hostLittleEndian: bool)
    ensures FromFileEndian16(b, hostLittleEndian, hostLittleEndian) == b
    ensures FromFileEndian32(c, hostLittleEndian, hostLittleEndian) == c
    ensures FromFileEndian64(d, hostLittleEndian, hostLittleEndian) == d
  {
  }

  /** A file in the other byte order is converted by a byte swap. */
  lemma FromFileEndianOtherHost(b: bv16, c: bv32, d: bv64, hostLittleEndian: bool)
    ensures FromFileEndian16(b, !hostLittleEndian, hostLittleEndian) == Byteswap16(b)
    ensures FromFileEndian32(c, !hostLittleEndian, hostLittleEndian) == Byteswap32(c)
    ensures FromFileEndian64(d, !hostLittleEndian, hostLittleEndian) == Byteswap64(d)
  {
  }

  /** For a fixed file byte order the conversion is its own inverse. */
  lemma FromFileEndianInvolution(b: bv16, c: bv32, d: bv64, fileLittleEndian: bool, hostLittleEndian: bool)
    ensures FromFileEndian16(FromFileEndian16(b, fileLittleEndian, hostLittleEndian), fileLittleEndian, hostLittleEndian) == b
    ensures FromFileEndian32(FromFileEndian32(c, fileLittleEndian, hostLittleEndian), fileLittleEndian, hostLittleEndian) == c
    ensures FromFileEndian64(FromFileEndian64(d, fileLittleEndian, hostLittleEndian), fileLittleEndian, hostLittleEndian) == d
  {
    ByteswapInvolution(0, b, c, d);
  }

  /* ---------------------------------------------------------------------- */
  /* Integers stored as bytes                                               */
  /* ---------------------------------------------------------------------- */

  /** The integer that the bytes `b` encode in the given byte order. Loading
      with the host's order is what copying the bytes into an integer
      variable does. */
  function Load16(b: seq<bv8>, littleEndian: bool): bv16
    requires |b| == 2
  {
    if littleEndian then
      (b[0] as bv16) | ((b[1] as bv16) << 8)
    else
      (b[1] as bv16) | ((b[0] as bv16) << 8)
  }

  function Load32(b: seq<bv8>, littleEndian: bool): bv32
    requires |b| == 4
  {
    if littleEndian then
      (b[0] as bv32) | ((b[1] as bv32) << 8) | ((b[2] as bv32) << 16) | ((b[3] as bv32) << 24)
    else
      (b[3] as bv32) | ((b[2] as bv32) << 8) | ((b[1] as bv32) << 16) | ((b[0] as bv32) << 24)
  }

  function Load64(b: seq<bv8>, littleEndian: bool): bv64
    requires |b| == 8
  {
    if littleEndian then
      (b[0] as bv64) | ((b[1] as bv64) << 8) | ((b[2] as bv64) << 16) | ((b[3] as bv64) << 24) |
      ((b[4] as bv64) << 32) | ((b[5] as bv64) << 40) | ((b[6] as bv64) << 48) | ((b[7] as bv64) << 56)
    else
      (b[7] as bv64) | ((b[6] as bv64) << 8) | ((b[5] as bv64) << 16) | ((b[4] as bv64) << 24) |
      ((b[3] as bv64) << 32) | ((b[2] as bv64) << 40) | ((b[1] as bv64) << 48) | ((b[0] as bv64) << 56)
  }

  /* ---------------------------------------------------------------------- */
  /* The integer value of an encoding                                       */
  /* ---------------------------------------------------------------------- */

  function Pow256(n: nat): nat
  {
    if n == 0 then 1 else 256 * Pow256(n - 1)
  }

  /** The integer the bytes `b` encode, least significant byte first. */
  function LeValue(b: seq<bv8>): nat
  {
    if |b| == 0 then 0 else b[0] as nat + 256 * LeValue(b[1..])
  }

  function Reversed(b: seq<bv8>): (r: seq<bv8>)
    ensures |r| == |b|
    ensures forall i :: 0 <= i < |b| ==> r[i] == b[|b| - 1 - i]
  {
    if |b| == 0 then [] else Reversed(b[1..]) + [b[0]]
  }

  /** The integer the bytes `b` encode in the given byte order: a big-endian
      encoding is the little-endian encoding of the reversed bytes. */
  function ByteValue(b: seq<bv8>, littleEndian: bool): nat
  {
    if littleEndian then LeValue(b) else LeValue(Reversed(b))
  }

  /** The bytes of `lo` are worth their own value, those of `hi` are worth
      256^|lo| times theirs. */
  lemma {:induction false} LeValueAppend(lo: seq<bv8>, hi: seq<bv8>)
    ensures LeValue(lo + hi) == LeValue(lo) + Pow256(|lo|) * LeValue(hi)
    decreases |lo|
  {
    if |lo| > 0 {
      var tail := lo[1..];
      assert (lo + hi)[1..] == tail + hi;
      LeValueAppend(tail, hi);
      var rest, p, h := LeValue(tail), Pow256(|tail|), LeValue(hi);
      assert LeValue(lo + hi) == lo[0] as nat + 256 * (rest + p * h);
      assert LeValue(lo) == lo[0] as nat + 256 * rest;
      assert Pow256(|lo|) == 256 * p;
      MulAssoc256(p, h);
    } else {
      assert lo + hi == hi;
    }
  }

  lemma MulAssoc256(p: nat, h: nat)
    ensures (256 * p) * h == 256 * (p * h)
  {
  }

  lemma LeValueHalves(b: seq<bv8>, lo: seq<bv8>, hi: seq<bv8>)
    requires b == lo + hi
    ensures LeValue(b) == LeValue(lo) + Pow256(|lo|) * LeValue(hi)
  {
    LeValueAppend(lo, hi);
  }

  /* Two halves packed side by side are worth the low half plus the high
     half times the radix of the low half. */

  lemma Pack16(lo: bv8, hi: bv8)
    ensures ((lo as bv16) | ((hi as bv16) << 8)) as nat == lo as nat + 0x100 * hi as nat
  {
  }

  lemma Pack32(lo: bv16, hi: bv16)
    ensures ((lo as bv32) | ((hi as bv32) << 16)) as nat == lo as nat + 0x1_0000 * hi as nat
  {
  }

  lemma Pack64(lo: bv32, hi: bv32)
    ensures ((lo as bv64) | ((hi as bv64) << 32)) as nat == lo as nat + 0x1_0000_0000 * hi as nat
  {
  }

  lemma Halves32(x0: bv8, x1: bv8, x2: bv8, x3: bv8)
    ensures (x0 as bv32) | ((x1 as bv32) << 8) | ((x2 as bv32) << 16) | ((x3 as bv32) << 24)
         == (((x0 as bv16) | ((x1 as bv16) << 8)) as bv32) | ((((x2 as bv16) | ((x3 as bv16) << 8)) as bv32) << 16)
  {
  }

  lemma Halves64(x0: bv8, x1: bv8, x2: bv8, x3: bv8, x4: bv8, x5: bv8, x6: bv8, x7: bv8)
    ensures (x0 as bv64) | ((x1 as bv64) << 8) | ((x2 as bv64) << 16) | ((x3 as bv64) << 24) |
            ((x4 as bv64) << 32) | ((x5 as bv64) << 40) | ((x6 as bv64) << 48) | ((x7 as bv64) << 56)
         == (((x0 as bv32) | ((x1 as bv32) << 8) | ((x2 as bv32) << 16) | ((x3 as bv32) << 24)) as bv64) |
            ((((x4 as bv32) | ((x5 as bv32) << 8) | ((x6 as bv32) << 16) | ((x7 as bv32) << 24)) as bv64) << 32)
  {
  }

  /* Packing bytes least significant first yields their little-endian value. */

  lemma Packed16(x0: bv8, x1: bv8)
    ensures ((x0 as bv16) | ((x1 as bv16) << 8)) as nat == LeValue([x0, x1])
  {
    Pack16(x0, x1);
    LeValue2(x0, x1);
  }

  lemma LeValue2(x0: bv8, x1: bv8)
    ensures LeValue([x0, x1]) == x0 as nat + 0x100 * x1 as nat
  {
    assert [x0, x1][1..] == [x1];
    assert [x1][1..] == [];
    assert LeValue([x1]) == x1 as nat;
  }

  lemma Packed32(x0: bv8, x1: bv8, x2: bv8, x3: bv8)
    ensures ((x0 as bv32) | ((x1 as bv32) << 8) | ((x2 as bv32) << 16) | ((x3 as bv32) << 24)) as nat
         == LeValue([x0, x1, x2, x3])
  {
    var lo := (x0 as bv16) | ((x1 as bv16) << 8);
    var hi := (x2 as bv16) | ((x3 as bv16) << 8);
    Halves32(x0, x1, x2, x3);
    Pack32(lo, hi);
    Packed16(x0, x1);
    Packed16(x2, x3);
    LeValue4(x0, x1, x2, x3);
  }

  lemma LeValue4(x0: bv8, x1: bv8, x2: bv8, x3: bv8)
    ensures LeValue([x0, x1, x2, x3]) == LeValue([x0, x1]) + 0x1_0000 * LeValue([x2, x3])
  {
    LeValueHalves([x0, x1, x2, x3], [x0, x1], [x2, x3]);
    assert Pow256(2) == 0x1_0000;
  }

  lemma Packed64(x0: bv8, x1: bv8, x2: bv8, x3: bv8, x4: bv8, x5: bv8, x6: bv8, x7: bv8)
    ensures ((x0 as bv64) | ((x1 as bv64) << 8) | ((x2 as bv64) << 16) | ((x3 as bv64) << 24) |
             ((x4 as bv64) << 32) | ((x5 as bv64) << 40) | ((x6 as bv64) << 48) | ((x7 as bv64) << 56)) as nat
         == LeValue([x0, x1, x2, x3, x4, x5, x6, x7])
  {
    var lo := (x0 as bv32) | ((x1 as bv32) << 8) | ((x2 as bv32) << 16) | ((x3 as bv32) << 24);
    var hi := (x4 as bv32) | ((x5 as bv32) << 8) | ((x6 as bv32) << 16) | ((x7 as bv32) << 24);
    Halves64(x0, x1, x2, x3, x4, x5, x6, x7);
    Pack64(lo, hi);
    Packed32(x0, x1, x2, x3);
    Packed32(x4, x5, x6, x7);
    LeValue8(x0, x1, x2, x3, x4, x5, x6, x7);
  }

  lemma LeValue8(x0: bv8, x1: bv8, x2: bv8, x3: bv8, x4: bv8, x5: bv8, x6: bv8, x7: bv8)
    ensures LeValue([x0, x1, x2, x3, x4, x5, x6, x7]) == LeValue([x0, x1, x2, x3]) + 0x1_0000_0000 * LeValue([x4, x5, x6, x7])
  {
    LeValueHalves([x0, x1, x2, x3, x4, x5, x6, x7], [x0, x1, x2, x3], [x4, x5, x6, x7]);
    assert Pow256(4) == 0x1_0000_0000;
  }

  /** Loading an encoding gives the integer it encodes. */
  lemma Load16Value(b: seq<bv8>, littleEndian: bool)
    requires |b| == 2
    ensures Load16(b, littleEndian) as nat == ByteValue(b, littleEndian)
  {
    if littleEndian {
      assert b == [b[0], b[1]];
      Packed16(b[0], b[1]);
    } else {
      assert Reversed(b) == [b[1], b[0]];
      Packed16(b[1], b[0]);
    }
  }

  lemma Load32Value(b: seq<bv8>, littleEndian: bool)
    requires |b| == 4
    ensures Load32(b, littleEndian) as nat == ByteValue(b, littleEndian)
  {
    if littleEndian {
      assert b == [b[0], b[1], b[2], b[3]];
      Packed32(b[0], b[1], b[2], b[3]);
    } else {
      assert Reversed(b) == [b[3], b[2], b[1], b[0]];
      Packed32(b[3], b[2], b[1], b[0]);
    }
  }

  lemma Load64Value(b: seq<bv8>, littleEndian: bool)
    requires |b| == 8
    ensures Load64(b, littleEndian) as nat == ByteValue(b, littleEndian)
  {
    if littleEndian {
      assert b == [b[0], b[1], b[2], b[3], b[4], b[5], b[6], b[7]];
      Packed64(b[0], b[1], b[2], b[3], b[4], b[5], b[6], b[7]);
    } else {
      assert Reversed(b) == [b[7], b[6], b[5], b[4], b[3], b[2], b[1], b[0]];
      Packed64(b[7], b[6], b[5], b[4], b[3], b[2], b[1], b[0]);
    }
  }

  /** Load puts byte k of a little-endian encoding, or byte n-1-k of a
      big-endian one, at significance k. */
  lemma Load32Bytes(b: seq<bv8>, littleEndian: bool, k: nat)
    requires |b| == 4 && k < 4
    ensures Byte32(Load32(b, littleEndian), k) == b[if littleEndian then k else 3 - k]
  {
    if k == 0 {
    } else if k == 1 {
    } else if k == 2 {
    } else {
    }
  }

  lemma Load64Bytes(b: seq<bv8>, littleEndian: bool, k: nat)
    requires |b| == 8 && k < 8
    ensures Byte64(Load64(b, littleEndian), k) == b[if littleEndian then k else 7 - k]
  {
    if k == 0 {
    } else if k == 1 {
    } else if k == 2 {
    } else if k == 3 {
    } else if k == 4 {
    } else if k == 5 {
    } else if k == 6 {
    } else {
    }
  }

  /* Byte swapping a packed value packs the bytes in the opposite order. */

  lemma SwapPacked16(x0: bv8, x1: bv8)
    ensures Byteswap16((x0 as bv16) | ((x1 as bv16) << 8)) == (x1 as bv16) | ((x0 as bv16) << 8)
  {
  }

  lemma SwapPacked32(x0: bv8, x1: bv8, x2: bv8, x3: bv8)
    ensures Byteswap32((x0 as bv32) | ((x1 as bv32) << 8) | ((x2 as bv32) << 16) | ((x3 as bv32) << 24))
         == (x3 as bv32) | ((x2 as bv32) << 8) | ((x1 as bv32) << 16) | ((x0 as bv32) << 24)
  {
  }

  lemma SwapPacked64(x0: bv8, x1: bv8, x2: bv8, x3: bv8, x4: bv8, x5: bv8, x6: bv8, x7: bv8)
    ensures Byteswap64((x0 as bv64) | ((x1 as bv64) << 8) | ((x2 as bv64) << 16) | ((x3 as bv64) << 24) |
                       ((x4 as bv64) << 32) | ((x5 as bv64) << 40) | ((x6 as bv64) << 48) | ((x7 as bv64) << 56))
         == (x7 as bv64) | ((x6 as bv64) << 8) | ((x5 as bv64) << 16) | ((x4 as bv64) << 24) |
            ((x3 as bv64) << 32) | ((x2 as bv64) << 40) | ((x1 as bv64) << 48) | ((x0 as bv64) << 56)
  {
  }

  /** Swapping the bytes of an encoding gives the encoding in the other
      byte order. */
  lemma Load16Swapped(b: seq<bv8>, littleEndian: bool)
    requires |b| == 2
    ensures Byteswap16(Load16(b, littleEndian)) == Load16(b, !littleEndian)
  {
    var x0, x1 := b[0], b[1];
    assert Load16(b, true) == (x0 as bv16) | ((x1 as bv16) << 8);
    assert Load16(b, false) == (x1 as bv16) | ((x0 as bv16) << 8);
    if littleEndian {
      SwapPacked16(x0, x1);
    } else {
      SwapPacked16(x1, x0);
    }
  }

  lemma Load32Swapped(b: seq<bv8>, littleEndian: bool)
    requires |b| == 4
    ensures Byteswap32(Load32(b, littleEndian)) == Load32(b, !littleEndian)
  {
    var x0, x1, x2, x3 := b[0], b[1], b[2], b[3];
    assert Load32(b, true) == (x0 as bv32) | ((x1 as bv32) << 8) | ((x2 as bv32) << 16) | ((x3 as bv32) << 24);
    assert Load32(b, false) == (x3 as bv32) | ((x2 as bv32) << 8) | ((x1 as bv32) << 16) | ((x0 as bv32) << 24);
    if littleEndian {
      SwapPacked32(x0, x1, x2, x3);
    } else {
      SwapPacked32(x3, x2, x1, x0);
    }
  }

  lemma Load64Swapped(b: seq<bv8>, littleEndian: bool)
    requires |b| == 8
    ensures Byteswap64(Load64(b, littleEndian)) == Load64(b, !littleEndian)
  {
    var x0, x1, x2, x3, x4, x5, x6, x7 := b[0], b[1], b[2], b[3], b[4], b[5], b[6], b[7];
    assert Load64(b, true) == (x0 as bv64) | ((x1 as bv64) << 8) | ((x2 as bv64) << 16) | ((x3 as bv64) << 24) |
                              ((x4 as bv64) << 32) | ((x5 as bv64) << 40) | ((x6 as bv64) << 48) | ((x7 as bv64) << 56);
    assert Load64(b, false) == (x7 as bv64) | ((x6 as bv64) << 8) | ((x5 as bv64) << 16) | ((x4 as bv64) << 24) |
                               ((x3 as bv64) << 32) | ((x2 as bv64) << 40) | ((x1 as bv64) << 48) | ((x0 as bv64) << 56);
    if littleEndian {
      SwapPacked64(x0, x1, x2, x3, x4, x5, x6, x7);
    } else {
      SwapPacked64(x7, x6, x5, x4, x3, x2, x1, x0);
    }
  }

  /** Reading bytes in host order and converting them from the file's order
      yields the integer the bytes encode in the file's order, whatever the
      host. */
  lemma FromFileEndian16Decodes(b: seq<bv8>, fileLittleEndian: bool, hostLittleEndian: bool)
    requires |b| == 2
    ensures FromFileEndian16(Load16(b, hostLittleEndian), fileLittleEndian, hostLittleEndian) == Load16(b, fileLittleEndian)
  {
    if fileLittleEndian == hostLittleEndian {
      FromFileEndianMatchingHost(Load16(b, hostLittleEndian), 0, 0, hostLittleEndian);
    } else {
      FromFileEndianOtherHost(Load16(b, hostLittleEndian), 0, 0, hostLittleEndian);
      Load16Swapped(b, hostLittleEndian);
    }
  }

  lemma FromFileEndian32Decodes(b: seq<bv8>, fileLittleEndian: bool, hostLittleEndian: bool)
    requires |b| == 4
    ensures FromFileEndian32(Load32(b, hostLittleEndian), fileLittleEndian, hostLittleEndian) == Load32(b, fileLittleEndian)
  {
    if fileLittleEndian == hostLittleEndian {
      FromFileEndianMatchingHost(0, Load32(b, hostLittleEndian), 0, hostLittleEndian);
    } else {
      FromFileEndianOtherHost(0, Load32(b, hostLittleEndian), 0, hostLittleEndian);
      Load32Swapped(b, hostLittleEndian);
    }
  }

  lemma FromFileEndian64Decodes(b: seq<bv8>, fileLittleEndian: bool, hostLittleEndian: bool)
    requires |b| == 8
    ensures FromFileEndian64(Load64(b, hostLittleEndian), fileLittleEndian, hostLittleEndian) == Load64(b, fileLittleEndian)
  {
    if fileLittleEndian == hostLittleEndian {
      FromFileEndianMatchingHost(0, 0, Load64(b, hostLittleEndian), hostLittleEndian);
    } else {
      FromFileEndianOtherHost(0, 0, Load64(b, hostLittleEndian), hostLittleEndian);
      Load64Swapped(b, hostLittleEndian);
    }
  }

  /** Reading bytes in host order and converting them from the file's order
      yields, as an integer, the value the bytes encode in the file's order. */
  lemma FromFileEndian16Value(b: seq<bv8>, fileLittleEndian: bool, hostLittleEndian: bool)
    requires |b| == 2
    ensures FromFileEndian16(Load16(b, hostLittleEndian), fileLittleEndian, hostLittleEndian) as nat == ByteValue(b, fileLittleEndian)
  {
    FromFileEndian16Decodes(b, fileLittleEndian, hostLittleEndian);
    Load16Value(b, fileLittleEndian);
  }

  lemma FromFileEndian32Value(b: seq<bv8>, fileLittleEndian: bool, hostLittleEndian: bool)
    requires |b| == 4
    ensures FromFileEndian32(Load32(b, hostLittleEndian), fileLittleEndian, hostLittleEndian) as nat == ByteValue(b, fileLittleEndian)
  {
    FromFileEndian32Decodes(b, fileLittleEndian, hostLittleEndian);
    Load32Value(b, fileLittleEndian);
  }

  lemma FromFileEndian64Value(b: seq<bv8>, fileLittleEndian: bool, hostLittleEndian: bool)
    requires |b| == 8
    ensures FromFileEndian64(Load64(b, hostLittleEndian), fileLittleEndian, hostLittleEndian) as nat == ByteValue(b, fileLittleEndian)
  {
    FromFileEndian64Decodes(b, fileLittleEndian, hostLittleEndian);
    Load64Value(b, fileLittleEndian);
  }
}
