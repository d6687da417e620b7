/**
 ble_phy_rxpdu_copy: the scatter copy of a received PDU into a chain of buffers. Whole words
 go first; the rest of a buffer that is smaller than a word stays unused unless the end of the
 PDU fits into it.
 */
module Mbufs {
  import opened Bytes

  class Mbuf {
    const databuf: array<byte> // omp_databuf_len bytes
    const offset: nat          // where om_data points to
    var len: nat               // om_len

    constructor (size: nat, offset: nat)
      ensures fresh(databuf) && databuf.Length == size && this.offset == offset && len == 0
    {
      databuf := new byte[size](_ => 0);
      this.offset, len := offset, 0;
    }

    ghost function Data(): bytes
      requires offset + len <= databuf.Length
      reads this, databuf
    {
      databuf[offset..offset + len]
    }
  }

  // n & 0xFFFC
  function Words(n: nat): (r: nat)
    ensures r <= n < r + 4 && r % 4 == 0
  {
    n / 4 * 4
  }

  function Flatten(parts: seq<bytes>): bytes {
    if parts == [] then [] else Flatten(parts[..|parts| - 1]) + parts[|parts| - 1]
  }

  function Total(lens: seq<nat>): nat {
    if lens == [] then 0 else Total(lens[..|lens| - 1]) + lens[|lens| - 1]
  }

  // If the om_len of the buffers are the lengths of what they hold, they add up to the length of
  // all that the buffers hold together.
  lemma {:induction false} LengthsAddUp(lens: seq<nat>, parts: seq<bytes>)
    requires |lens| == |parts| && forall i | 0 <= i < |lens| :: lens[i] == |parts[i]|
    ensures Total(lens) == |Flatten(parts)|
  {
    if parts != [] {
      LengthsAddUp(lens[..|lens| - 1], parts[..|parts| - 1]);
    }
  }

  // The room behind om_data: the first buffer also holds the packet header and 4 spare bytes.
  function Room(chain: seq<Mbuf>, pkthdrLen: nat, i: nat): int
    requires i < |chain|
  {
    chain[i].databuf.Length - if i == 0 then pkthdrLen + 4 else 0
  }

  ghost predicate ValidChain(chain: seq<Mbuf>, pkthdrLen: nat) {
    && (forall i | 0 <= i < |chain| ::
          && chain[i].databuf.Length < 0x1_0000 && 0 <= Room(chain, pkthdrLen, i)
          && chain[i].offset + Room(chain, pkthdrLen, i) <= chain[i].databuf.Length)
    && (forall i, j | 0 <= i < j < |chain| :: chain[i] != chain[j] && chain[i].databuf != chain[j].databuf)
  }

  // n bytes fit into the buffers from the i-th on when every buffer that is not the last one
  // used takes whole words only.
  ghost predicate Fits(chain: seq<Mbuf>, pkthdrLen: nat, i: nat, n: nat)
    requires i <= |chain| && ValidChain(chain, pkthdrLen)
    decreases |chain| - i
  {
    i < |chain| && (n <= Room(chain, pkthdrLen, i)
                    || Fits(chain, pkthdrLen, i + 1, n - Words(Room(chain, pkthdrLen, i))))
  }

  // The words that fit into the first k buffers.
  ghost function WordRoom(chain: seq<Mbuf>, pkthdrLen: nat, k: nat): nat
    requires k <= |chain| && ValidChain(chain, pkthdrLen)
  {
    if k == 0 then 0 else WordRoom(chain, pkthdrLen, k - 1) + Room(chain, pkthdrLen, k - 1) / 4 * 4
  }

  ghost predicate FitsUpTo(chain: seq<Mbuf>, pkthdrLen: nat, n: nat, k: nat)
    requires k < |chain| && ValidChain(chain, pkthdrLen)
  {
    var first := chain[0].databuf.Length - pkthdrLen - 4;
    n <= WordRoom(chain, pkthdrLen, k) + if k == 0 then first else chain[k].databuf.Length
  }

  // n bytes fit exactly if some buffer takes the end: whole words in the buffers before it, of
  // which the first has room for what the packet header and 4 bytes leave, and all of its own
  // room.
  lemma FitsIff(chain: seq<Mbuf>, pkthdrLen: nat, n: nat)
    requires chain != [] && ValidChain(chain, pkthdrLen)
    ensures Fits(chain, pkthdrLen, 0, n) <==> exists k: nat :: k < |chain| && FitsUpTo(chain, pkthdrLen, n, k)
  {
    FitsFrom(chain, pkthdrLen, 0, n, n);
  }

  lemma {:induction false} FitsFrom(chain: seq<Mbuf>, pkthdrLen: nat, i: nat, rest: nat, n: nat)
    requires i <= |chain| && ValidChain(chain, pkthdrLen) && rest == n - WordRoom(chain, pkthdrLen, i)
    ensures Fits(chain, pkthdrLen, i, rest) <==>
            exists k: nat :: i <= k < |chain| && FitsUpTo(chain, pkthdrLen, n, k)
    decreases |chain| - i
  {
    if i < |chain| {
      assert FitsUpTo(chain, pkthdrLen, n, i) <==> rest <= Room(chain, pkthdrLen, i);
      if rest > Room(chain, pkthdrLen, i) {
        FitsFrom(chain, pkthdrLen, i + 1, rest - Words(Room(chain, pkthdrLen, i)), n);
      }
    }
  }

  // Two states of a buffer that agree outside n bytes from lo on.
  ghost predicate SameOutside(a: bytes, b: bytes, lo: nat, n: nat) {
    && |a| == |b| && lo + n <= |a|
    && a[..lo] == b[..lo] && a[lo + n..] == b[lo + n..]
  }

  // Copies n bytes word by word to the beginning of the data area.
  method CopyWords(m: Mbuf, src: bytes, at: nat, n: nat)
    requires n % 4 == 0 && at + n <= |src| && m.offset + n <= m.databuf.Length
    modifies m.databuf
    ensures m.databuf[m.offset..m.offset + n] == src[at..at + n]
    ensures SameOutside(m.databuf[..], old(m.databuf[..]), m.offset, n)
  {
    var dst, done := m.offset, 0;
    while done < n
      invariant 0 <= done <= n && done % 4 == 0
      invariant forall k | 0 <= k < m.databuf.Length ::
                  m.databuf[k] == if dst <= k < dst + done then src[at + k - dst] else old(m.databuf[k])
    {
      var w := src[at + done..at + done + 4];
      m.databuf[dst + done] := w[0];
      m.databuf[dst + done + 1] := w[1];
      m.databuf[dst + done + 2] := w[2];
      m.databuf[dst + done + 3] := w[3];
      done := done + 4;
    }
  }

  // The word-aligned part of one buffer: sets its length and copies.
  method FillWords(m: Mbuf, src: bytes, at: nat, room: nat) returns (copied: nat)
    requires at <= |src| && m.offset + room <= m.databuf.Length
    modifies m, m.databuf
    ensures copied == Words(if room < |src| - at then room else |src| - at) == m.len
    ensures m.Data() == src[at..at + copied]
    ensures SameOutside(m.databuf[..], old(m.databuf[..]), m.offset, room)
  {
    copied := Words(if room < |src| - at then room else |src| - at);
    m.len := copied;
    CopyWords(m, src, at, copied);
    Wider(m.databuf[..], old(m.databuf[..]), m.offset, copied, room);
  }

  lemma Wider(a: bytes, b: bytes, lo: nat, n: nat, room: nat)
    requires SameOutside(a, b, lo, n) && n <= room && lo + room <= |a|
    ensures SameOutside(a, b, lo, room)
  {
    assert a[lo + room..] == a[lo + n..][room - n..] && b[lo + room..] == b[lo + n..][room - n..];
  }

  // The bytes that do not fill a word, at the end of the PDU.
  method AppendTail(m: Mbuf, src: bytes, at: nat, room: nat)
    requires at <= |src| && m.len + (|src| - at) <= room && m.offset + room <= m.databuf.Length
    modifies m, m.databuf
    ensures m.len == old(m.len) + (|src| - at) && m.Data() == old(m.Data()) + src[at..]
    ensures SameOutside(m.databuf[..], old(m.databuf[..]), m.offset, room)
  {
    var start := m.offset + m.len;
    forall k | 0 <= k < |src| - at {
      m.databuf[start + k] := src[at + k];
    }
    m.len := m.len + (|src| - at);
  }

  // The first buffers hold `parts`; the ones behind them are as they were, and nothing outside
  // the rooms has changed since the chain's lengths and contents were `lens` and `was`.
  ghost predicate Copied(chain: seq<Mbuf>, pkthdrLen: nat, parts: seq<bytes>, lens: seq<nat>, was: seq<bytes>)
    requires ValidChain(chain, pkthdrLen)
    reads chain, set i | 0 <= i < |chain| :: chain[i].databuf
  {
    && |parts| <= |chain| == |lens| == |was|
    && (forall i | 0 <= i < |parts| ::
          chain[i].len <= Room(chain, pkthdrLen, i) && chain[i].Data() == parts[i])
    && (forall i | |parts| <= i < |chain| :: chain[i].len == lens[i] && chain[i].databuf[..] == was[i])
    && (forall i | 0 <= i < |chain| ::
          SameOutside(chain[i].databuf[..], was[i], chain[i].offset, Room(chain, pkthdrLen, i)))
  }

  ghost function Lengths(chain: seq<Mbuf>): seq<nat>
    reads chain
  {
    seq(|chain|, i requires 0 <= i < |chain| reads chain => chain[i].len)
  }

  ghost function Buffers(chain: seq<Mbuf>): seq<bytes>
    reads chain, set i | 0 <= i < |chain| :: chain[i].databuf
  {
    seq(|chain|, i requires 0 <= i < |chain| reads set j | 0 <= j < |chain| :: chain[j].databuf => chain[i].databuf[..])
  }

  lemma CopiedLengths(chain: seq<Mbuf>, pkthdrLen: nat, parts: seq<bytes>, lens: seq<nat>, was: seq<bytes>)
    requires ValidChain(chain, pkthdrLen) && Copied(chain, pkthdrLen, parts, lens, was)
    ensures Total(Lengths(chain)[..|parts|]) == |Flatten(parts)|
  {
    forall i | 0 <= i < |parts|
      ensures Lengths(chain)[i] == |parts[i]|
    {
      assert chain[i].Data() == parts[i];
    }
    LengthsAddUp(Lengths(chain)[..|parts|], parts);
  }

  // How far the words of the PDU from `pos` on reach in the i-th buffer.
  function NextPos(chain: seq<Mbuf>, pkthdrLen: nat, i: nat, pos: nat, n: nat): (r: nat)
    requires i < |chain| && pos <= n && 0 <= Room(chain, pkthdrLen, i)
    ensures pos <= r <= n
  {
    var room := Room(chain, pkthdrLen, i);
    pos + Words(if room < n - pos then room else n - pos)
  }

  lemma FitsAfterWords(chain: seq<Mbuf>, pkthdrLen: nat, i: nat, pos: nat, n: nat)
    requires i < |chain| && ValidChain(chain, pkthdrLen) && pos <= n
    ensures var pos' := NextPos(chain, pkthdrLen, i, pos, n);
            Fits(chain, pkthdrLen, i, n - pos) <==>
            || n - pos' <= Room(chain, pkthdrLen, i) - (pos' - pos)
            || Fits(chain, pkthdrLen, i + 1, n - pos')
  {
  }

  method FillBuffer(src: bytes, chain: seq<Mbuf>, pkthdrLen: nat, pos: nat, ghost parts: seq<bytes>,
                    ghost lens: seq<nat>, ghost was: seq<bytes>, i: nat) returns (pos': nat)
    requires ValidChain(chain, pkthdrLen) && pos <= |src|
    requires i == |parts| < |chain| && Copied(chain, pkthdrLen, parts, lens, was)
    modifies chain[i], chain[i].databuf
    ensures pos' == NextPos(chain, pkthdrLen, i, pos, |src|) && chain[i].len == pos' - pos
    ensures Copied(chain, pkthdrLen, parts + [src[pos..pos']], lens, was)
  {
    var copied := FillWords(chain[i], src, pos, Room(chain, pkthdrLen, i));
    pos' := pos + copied;
    assert forall j | 0 <= j < |chain| && j != i :: chain[j] != chain[i] && chain[j].databuf != chain[i].databuf;
    assert forall j | 0 <= j < |parts| :: chain[j].Data() == parts[j];
  }

  // Fills the next buffer of the chain with words of the PDU from `pos` on.
  method FillNext(src: bytes, chain: seq<Mbuf>, pkthdrLen: nat, pos: nat, ghost parts: seq<bytes>,
                  ghost lens: seq<nat>, ghost was: seq<bytes>, i: nat)
    returns (pos': nat, ghost parts': seq<bytes>)
    requires ValidChain(chain, pkthdrLen) && pos <= |src|
    requires i == |parts| < |chain| && Copied(chain, pkthdrLen, parts, lens, was)
    requires Flatten(parts) == src[..pos]
    modifies chain[i], chain[i].databuf
    ensures pos <= pos' <= |src| && chain[i].len == pos' - pos && |parts'| == i + 1
    ensures Copied(chain, pkthdrLen, parts', lens, was) && Flatten(parts') == src[..pos']
    ensures Fits(chain, pkthdrLen, i, |src| - pos) <==>
            || |src| - pos' <= Room(chain, pkthdrLen, i) - chain[i].len
            || Fits(chain, pkthdrLen, i + 1, |src| - pos')
  {
    FitsAfterWords(chain, pkthdrLen, i, pos, |src|);
    pos' := FillBuffer(src, chain, pkthdrLen, pos, parts, lens, was, i);
    NextPart(parts, src, pos, pos');
    parts' := parts + [src[pos..pos']];
  }

  // Appends the rest of the PDU to the last buffer filled.
  method Finish(src: bytes, chain: seq<Mbuf>, pkthdrLen: nat, pos: nat, ghost parts: seq<bytes>,
                ghost lens: seq<nat>, ghost was: seq<bytes>, i: nat) returns (ghost parts': seq<bytes>)
    requires ValidChain(chain, pkthdrLen) && pos <= |src|
    requires i + 1 == |parts| <= |chain| && Copied(chain, pkthdrLen, parts, lens, was)
    requires |src| - pos <= Room(chain, pkthdrLen, i) - chain[i].len && Flatten(parts) == src[..pos]
    modifies chain[i], chain[i].databuf
    ensures Copied(chain, pkthdrLen, parts', lens, was) && Flatten(parts') == src
  {
    AppendTail(chain[i], src, pos, Room(chain, pkthdrLen, i));
    LongerTail(parts, src[pos..]);
    parts' := parts[i := parts[i] + src[pos..]];
    assert src[..pos] + src[pos..] == src;
  }

  // Copies the data: the whole PDU if it fits; if not, the null assertion fails. On success the
  // first |parts| buffers hold the PDU in order, their lengths add up to its length, and
  // the buffers behind them are untouched. In no case is a byte outside the room of a buffer written.
  method CopyPdu(src: bytes, chain: seq<Mbuf>, pkthdrLen: nat) returns (ok: bool, ghost parts: seq<bytes>)
    requires chain != [] && ValidChain(chain, pkthdrLen) && |src| < 0x1_0000
    modifies chain, set i | 0 <= i < |chain| :: chain[i].databuf
    ensures ok <==> Fits(chain, pkthdrLen, 0, |src|)
    ensures Copied(chain, pkthdrLen, parts, old(Lengths(chain)), old(Buffers(chain)))
    ensures ok ==> Flatten(parts) == src && Total(Lengths(chain)[..|parts|]) == |src|
    ensures parts != []
  {
    ghost var lens, was := Lengths(chain), Buffers(chain);
    var i, pos := 0, 0;
    pos, parts := FillNext(src, chain, pkthdrLen, 0, [], lens, was, 0);
    while pos < |src|
      invariant 0 <= i < |chain| && 0 <= pos <= |src| && |parts| == i + 1
      invariant chain[i].len <= Room(chain, pkthdrLen, i)
      invariant Copied(chain, pkthdrLen, parts, lens, was) && Flatten(parts) == src[..pos]
      invariant Fits(chain, pkthdrLen, 0, |src|) <==>
                || |src| - pos <= Room(chain, pkthdrLen, i) - chain[i].len
                || Fits(chain, pkthdrLen, i + 1, |src| - pos)
      decreases |chain| - i
    {
      var mbBytes := Room(chain, pkthdrLen, i) - chain[i].len;
      if |src| - pos <= mbBytes {
        parts := Finish(src, chain, pkthdrLen, pos, parts, lens, was, i);
        CopiedLengths(chain, pkthdrLen, parts, lens, was);
        return true, parts;
      }
      i := i + 1;
      if i == |chain| {
        return false, parts;
      }
      pos, parts := FillNext(src, chain, pkthdrLen, pos, parts, lens, was, i);
    }
    ok := true;
    assert src[..pos] == src;
    CopiedLengths(chain, pkthdrLen, parts, lens, was);
  }

  // The contents of all buffers with a header record written into the first one.
  function WithHeader(was: seq<bytes>, at: nat, hdr: bytes): seq<bytes>
    requires was != [] && at + |hdr| <= |was[0]|
  {
    was[0 := was[0][..at] + hdr + was[0][at + |hdr|..]]
  }

  // The header record, in front of the data of the first buffer.
  method CopyHeader(chain: seq<Mbuf>, pkthdrLen: nat, at: nat, hdr: bytes, ghost parts: seq<bytes>,
                    ghost lens: seq<nat>, ghost was: seq<bytes>)
    requires chain != [] && ValidChain(chain, pkthdrLen) && parts != []
    requires was != [] && at + |hdr| <= chain[0].offset <= |was[0]|
    requires Copied(chain, pkthdrLen, parts, lens, was)
    modifies chain[0].databuf
    ensures Copied(chain, pkthdrLen, parts, lens, WithHeader(was, at, hdr))
    ensures chain[0].databuf[at..at + |hdr|] == hdr
  {
    var m := chain[0];
    ghost var a := m.databuf[..];
    forall k | 0 <= k < |hdr| {
      m.databuf[at + k] := hdr[k];
    }
    assert m.databuf[..] == a[..at] + hdr + a[at + |hdr|..];
    SameWithHeader(a, was[0], at, hdr, m.offset, Room(chain, pkthdrLen, 0));
    assert m.Data() == a[m.offset..m.offset + m.len] == parts[0];
    assert forall i | 0 < i < |chain| :: chain[i] != m && chain[i].databuf != m.databuf;
  }

  lemma SameWithHeader(a: bytes, b: bytes, at: nat, hdr: bytes, lo: nat, n: nat)
    requires SameOutside(a, b, lo, n) && at + |hdr| <= lo
    ensures SameOutside(a[..at] + hdr + a[at + |hdr|..], b[..at] + hdr + b[at + |hdr|..], lo, n)
  {
    var x, y := a[..at] + hdr + a[at + |hdr|..], b[..at] + hdr + b[at + |hdr|..];
    assert a[at + |hdr|..lo] == a[..lo][at + |hdr|..] == b[..lo][at + |hdr|..] == b[at + |hdr|..lo];
    assert a[..at] == a[..lo][..at] == b[..lo][..at] == b[..at];
    assert x[..lo] == a[..at] + hdr + a[at + |hdr|..lo];
    assert y[..lo] == b[..at] + hdr + b[at + |hdr|..lo];
    assert x[lo + n..] == a[lo + n..] && y[lo + n..] == b[lo + n..];
  }

  // ble_phy_rxpdu_copy: the data, then the header record `hdr`, which has its place in front of
  // the data of the first buffer.
  method RxPduCopy(src: bytes, chain: seq<Mbuf>, pkthdrLen: nat, at: nat, hdr: bytes)
      returns (ok: bool, ghost parts: seq<bytes>)
    requires chain != [] && ValidChain(chain, pkthdrLen) && |src| < 0x1_0000
    requires at + |hdr| <= chain[0].offset <= chain[0].databuf.Length
    modifies chain, set i | 0 <= i < |chain| :: chain[i].databuf
    ensures ok <==> Fits(chain, pkthdrLen, 0, |src|)
    ensures !ok ==> Copied(chain, pkthdrLen, parts, old(Lengths(chain)), old(Buffers(chain)))
    ensures ok ==> Copied(chain, pkthdrLen, parts, old(Lengths(chain)), WithHeader(old(Buffers(chain)), at, hdr))
    ensures ok ==> Flatten(parts) == src && Total(Lengths(chain)[..|parts|]) == |src|
    ensures ok ==> chain[0].databuf[at..at + |hdr|] == hdr
  {
    ghost var lens, was := Lengths(chain), Buffers(chain);
    ok, parts := CopyPdu(src, chain, pkthdrLen);
    if ok {
      CopyHeader(chain, pkthdrLen, at, hdr, parts, lens, was);
      CopiedLengths(chain, pkthdrLen, parts, lens, WithHeader(was, at, hdr));
    }
  }

  lemma LongerTail(parts: seq<bytes>, tail: bytes)
    requires parts != []
    ensures Flatten(parts[|parts| - 1 := parts[|parts| - 1] + tail]) == Flatten(parts) + tail
  {
    var last := |parts| - 1;
    assert parts[last := parts[last] + tail][..last] == parts[..last];
    assert Flatten(parts[..last]) + (parts[last] + tail) == Flatten(parts[..last]) + parts[last] + tail;
  }

  lemma NextPart(parts: seq<bytes>, src: bytes, pos: nat, pos': nat)
    requires pos <= pos' <= |src| && Flatten(parts) == src[..pos]
    ensures Flatten(parts + [src[pos..pos']]) == src[..pos']
  {
    assert (parts + [src[pos..pos']])[..|parts|] == parts;
    assert src[..pos] + src[pos..pos'] == src[..pos'];
  }
}
