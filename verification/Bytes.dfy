/**
 Bytes, little-endian integers, checksums and Python slices: the vocabulary that
 the host's Python code and the driver's C code have in common.
 */
module Bytes {

  type byte = b: int | 0 <= b < 256

  type bytes = seq<byte>

  datatype Option<+T> = None | Some(value: T)

  // ---------- bit operations on one byte ----------

  // b | 0x80
  function SetBit7(b: byte): byte {
    if b < 128 then b + 128 else b
  }

  // b & 0x7F
  function ClearBit7(b: byte): byte {
    b % 128
  }

  // b & 0xE3, the header bits that are authenticated (NESN, SN and MD are masked out)
  function MaskE3(b: byte): byte {
    b / 32 * 32 + b % 4
  }

  // bit 3 of a data header, the sequence number SN
  function Sn(b: byte): (r: int)
    ensures r == 0 || r == 1
  {
    b / 8 % 2
  }

  // bit 2 of a data header, the next expected sequence number NESN
  function Nesn(b: byte): (r: int)
    ensures r == 0 || r == 1
  {
    b / 4 % 2
  }

  // (b & 0xF3) | (sn << 3) | (nesn << 2)
  function WithSeqBits(b: byte, sn: int, nesn: int): byte
    requires 0 <= sn <= 1 && 0 <= nesn <= 1
  {
    b / 16 * 16 + sn * 8 + nesn * 4 + b % 4
  }

  // The arithmetic definitions above are the bit operations they stand for.

  lemma DirectionBitOperations(v: bv8)
    ensures (v | 0x80) as int == SetBit7(v as int)
    ensures (v & 0x7F) as int == ClearBit7(v as int)
  {
  }

  lemma MaskOperation(v: bv8)
    ensures (v & 0xE3) as int == MaskE3(v as int)
  {
    HighBits(v);
    LowBits(v);
    assert (v & 0xE3) == (v & 0xE0) + (v & 0x03);
  }

  lemma HighBits(v: bv8)
    ensures (v & 0xE0) as int == v as int / 32 * 32
  {
  }

  lemma LowBits(v: bv8)
    ensures (v & 0x03) as int == v as int % 4
  {
  }

  lemma SnOperation(v: bv8)
    ensures ((v >> 3) & 1) as int == Sn(v as int)
  {
  }

  lemma NesnOperation(v: bv8)
    ensures ((v >> 2) & 1) as int == Nesn(v as int)
  {
  }

  // The whole rewriting of the sequence bits: mask, shift and join.
  lemma SeqBitsOperation(v: bv8, sn: bv8, nesn: bv8)
    requires sn <= 1 && nesn <= 1
    ensures ((v & 0xF3) | (sn << 3) | (nesn << 2)) as int == WithSeqBits(v as int, sn as int, nesn as int)
  {
    SeqBitsParts(v, sn, nesn);
    Nibbles(v >> 4, (sn << 3) + (nesn << 2) + (v & 0x03));
    LowNibble(sn, nesn, v & 0x03);
    HighNibble(v);
    LowBits(v);
  }

  lemma SeqBitsParts(v: bv8, sn: bv8, nesn: bv8)
    requires sn <= 1 && nesn <= 1
    ensures ((v & 0xF3) | (sn << 3) | (nesn << 2)) == ((v >> 4) << 4) + ((sn << 3) + (nesn << 2) + (v & 0x03))
    ensures v >> 4 < 16 && (sn << 3) + (nesn << 2) + (v & 0x03) < 16 && v & 0x03 < 4
  {
  }

  lemma HighNibble(v: bv8)
    ensures (v >> 4) as int == v as int / 16
  {
    assert v == ((v >> 4) << 4) + (v & 0x0F);
    Nibbles(v >> 4, v & 0x0F);
  }

  lemma Nibbles(hi: bv8, lo: bv8)
    requires hi < 16 && lo < 16
    ensures ((hi << 4) + lo) as int == 16 * hi as int + lo as int
  {
  }

  lemma LowNibble(sn: bv8, nesn: bv8, rest: bv8)
    requires sn <= 1 && nesn <= 1 && rest < 4
    ensures ((sn << 3) + (nesn << 2) + rest) as int == 8 * sn as int + 4 * nesn as int + rest as int
  {
  }

  // A 16-bit word and its two bytes.
  lemma WordParts(v: bv16)
    ensures (v & 0xFF) as int == v as int % 256 && (v >> 8) as int == v as int / 256
  {
    SplitWord(v);
    JoinWord(v & 0xFF, v >> 8);
    PartsOf(v as int, (v & 0xFF) as int, (v >> 8) as int);
  }

  lemma SplitWord(v: bv16)
    ensures v == (v & 0xFF) + ((v >> 8) << 8) && v & 0xFF < 256 && v >> 8 < 256
  {
  }

  lemma JoinWord(lo: bv16, hi: bv16)
    requires lo < 256 && hi < 256
    ensures (lo + (hi << 8)) as int == lo as int + 256 * hi as int
  {
  }

  lemma PartsOf(v: int, lo: int, hi: int)
    requires v == lo + 256 * hi && 0 <= lo < 256
    ensures v % 256 == lo && v / 256 == hi
  {
  }

  // v & 0xFFFC, the whole 4-byte words of a 16-bit length.
  lemma WholeWordsOperation(v: bv16)
    ensures (v & 0xFFFC) as int == v as int / 4 * 4
  {
    MaskedParts(v);
    WordParts(v);
    LowByteMask(v & 0xFF);
    WholeWords(v as int, (v & 0xFF) as int, (v >> 8) as int, ((v & 0xFF) & 0xFC) as int);
  }

  lemma MaskedParts(v: bv16)
    ensures (v & 0xFFFC) as int == ((v & 0xFF) & 0xFC) as int + 256 * (v >> 8) as int
    ensures v & 0xFF < 256
  {
    assert v & 0xFFFC == ((v & 0xFF) & 0xFC) + ((v >> 8) << 8);
    JoinWord((v & 0xFF) & 0xFC, v >> 8);
  }

  lemma LowByteMask(lo: bv16)
    requires lo < 256
    ensures (lo & 0xFC) as int == lo as int / 4 * 4
  {
  }

  lemma WholeWords(v: int, lo: int, hi: int, low: int)
    requires lo == v % 256 && hi == v / 256 && low == lo / 4 * 4
    ensures low + 256 * hi == v / 4 * 4
  {
    QuarterOf(v, lo / 4 + 64 * hi, lo % 4);
  }

  lemma QuarterOf(v: int, q: int, r: int)
    requires v == 4 * q + r && 0 <= r < 4
    ensures v / 4 == q
  {
  }

  // Rewriting the sequence bits sets SN and NESN and keeps the six other bits.
  lemma SeqBitsAt(b: byte, sn: int, nesn: int)
    requires 0 <= sn <= 1 && 0 <= nesn <= 1
    ensures Sn(WithSeqBits(b, sn, nesn)) == sn
    ensures Nesn(WithSeqBits(b, sn, nesn)) == nesn
    ensures WithSeqBits(b, sn, nesn) / 16 == b / 16 && WithSeqBits(b, sn, nesn) % 4 == b % 4
  {
    FourBits(WithSeqBits(b, sn, nesn), b / 16, sn, nesn, b % 4);
  }

  lemma FourBits(v: int, q: int, s: int, n: int, r: int)
    requires v == 16 * q + 8 * s + 4 * n + r && 0 <= s <= 1 && 0 <= n <= 1 && 0 <= r < 4
    ensures v / 16 == q && v / 8 % 2 == s && v / 4 % 2 == n && v % 4 == r
  {
    assert v / 4 == 4 * q + 2 * s + n;
    assert v / 8 == 2 * q + s;
  }

  // ---------- checksum ----------

  // The unbounded sum of the bytes, as Python's sum() computes it.
  function Sum(s: bytes): nat {
    if s == [] then 0 else Sum(s[..|s| - 1]) + s[|s| - 1]
  }

  // The sum of the bytes is determined by this: of one byte it is the byte, and it adds up.
  lemma {:induction false} SumAdds(s: bytes, t: bytes)
    ensures Sum([]) == 0 && (forall b: byte :: Sum([b]) == b)
    ensures Sum(s + t) == Sum(s) + Sum(t)
    decreases |t|
  {
    if t == [] {
      assert s + t == s;
    } else {
      var last := |t| - 1;
      SumAdds(s, t[..last]);
      assert (s + t)[..|s| + last] == s + t[..last];
    }
    forall b: byte
      ensures Sum([b]) == b
    {
      assert [b][..0] == [];
    }
  }

  // ---------- little-endian integers ----------

  function Pow256(k: nat): (p: nat)
    ensures p > 0
  {
    if k == 0 then 1 else 256 * Pow256(k - 1)
  }

  // The k low bytes of n, least significant first.
  function LeBytes(n: nat, k: nat): (s: bytes)
    ensures |s| == k
  {
    if k == 0 then [] else [n % 256] + LeBytes(n / 256, k - 1)
  }

  function LeValue(s: bytes): nat {
    if s == [] then 0 else s[0] + 256 * LeValue(s[1..])
  }

  lemma {:induction false} LeRoundTrip(n: nat, k: nat)
    requires n < Pow256(k)
    ensures LeValue(LeBytes(n, k)) == n
  {
    if k > 0 {
      LeRoundTrip(n / 256, k - 1);
      assert LeBytes(n, k)[1..] == LeBytes(n / 256, k - 1);
    }
  }

  lemma {:induction false} LeInjective(s: bytes, t: bytes)
    requires |s| == |t| && LeValue(s) == LeValue(t)
    ensures s == t
  {
    if s != [] {
      assert s[0] == LeValue(s) % 256 && t[0] == LeValue(t) % 256;
      LeInjective(s[1..], t[1..]);
      assert s == [s[0]] + s[1..] && t == [t[0]] + t[1..];
    }
  }

  lemma {:induction false} LeConcat(s: bytes, t: bytes)
    ensures LeValue(s + t) == LeValue(s) + Pow256(|s|) * LeValue(t)
  {
    if s == [] {
      assert s + t == t;
    } else {
      LeConcat(s[1..], t);
      assert (s + t)[1..] == s[1..] + t;
      Distributes(s[0], LeValue(s[1..]), Pow256(|s| - 1), LeValue(t));
    }
  }

  lemma Distributes(first: nat, v: nat, p: nat, w: nat)
    ensures first + 256 * (v + p * w) == (first + 256 * v) + (256 * p) * w
  {
  }

  // ---------- Python slices ----------

  // The index that Python uses for bound i of a slice over n elements.
  function SliceBound(n: nat, i: int): (r: nat)
    ensures r <= n
  {
    var j := if i < 0 then n + i else i;
    if j < 0 then 0 else if j > n then n else j
  }

  // s[lo:hi] in Python
  function PySlice(s: bytes, lo: int, hi: int): bytes {
    var l, h := SliceBound(|s|, lo), SliceBound(|s|, hi);
    if l <= h then s[l..h] else []
  }

  // What the slices in the sources are: from lo to hi, where a negative hi counts from the end;
  // empty if there is nothing between.
  lemma SliceIs(s: bytes, lo: nat, hi: int)
    ensures var end := if hi < 0 then |s| + hi else hi;
            PySlice(s, lo, hi) ==
            if lo >= end || lo >= |s| then [] else s[lo..if end > |s| then |s| else end]
  {
  }
}
