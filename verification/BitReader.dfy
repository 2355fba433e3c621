/**
  The bit reader of breader.c: a 64-bit lookahead in front of a byte buffer, refilled
  without branching. It refines a plain sequence of bits and a position in it.
 */
module BitReader {
  import opened Arith
  import opened Bits

  datatype ByteOrder = LilEndian | BigEndian

  const MAX_READ_BITS: nat := 56

  datatype SeekOp = SeekSet | SeekCur | SeekEnd

  /** The bits of a byte: least significant first in little endian and last in big endian. */
  function ByteStream(b: Byte, bo: ByteOrder): (s: seq<bool>)
    ensures |s| == 8
  {
    if bo == LilEndian then BitsOf(b, 8) else Reverse(BitsOf(b, 8))
  }

  /** The stream that the reader reads, byte by byte. */
  function Stream(data: seq<Byte>, bo: ByteOrder): (s: seq<bool>)
    ensures |s| == 8 * |data|
  {
    if data == [] then [] else ByteStream(data[0], bo) + Stream(data[1..], bo)
  }

  /** Bit `k` of the stream. */
  predicate StreamBit(data: seq<Byte>, bo: ByteOrder, k: nat)
    requires k < 8 * |data|
  {
    Stream(data, bo)[k]
  }

  lemma StreamHead(data: seq<Byte>, bo: ByteOrder, r: nat)
    requires data != [] && r < 8
    ensures StreamBit(data, bo, r) == BitOf(data[0], if bo == LilEndian then r else 7 - r)
  {
  }

  lemma StreamTail(data: seq<Byte>, bo: ByteOrder, k: nat)
    requires 8 <= k < 8 * |data|
    ensures StreamBit(data, bo, k) == StreamBit(data[1..], bo, k - 8)
  {
  }

  /** Bit `r` of byte `b` of the stream. */
  lemma {:induction false} StreamByte(data: seq<Byte>, bo: ByteOrder, b: nat, r: nat, k: nat)
    requires b < |data| && r < 8 && k == 8 * b + r
    ensures StreamBit(data, bo, k) == BitOf(data[b], if bo == LilEndian then r else 7 - r)
    decreases b
  {
    if b == 0 {
      StreamHead(data, bo, r);
    } else {
      StreamTail(data, bo, k);
      StreamByte(data[1..], bo, b - 1, r, k - 8);
    }
  }

  /** Where the lookahead keeps the `i`-th bit ahead: from the bottom in little endian, from the top in big endian. */
  function Slot(bo: ByteOrder, i: nat): nat
    requires i < 64
  {
    if bo == LilEndian then i else 63 - i
  }

  /** `bits` are the next bits of the stream from `pos` on. */
  ghost predicate Streams(data: seq<Byte>, bo: ByteOrder, pos: nat, bits: seq<bool>) {
    && pos + |bits| <= 8 * |data|
    && forall i | 0 <= i < |bits| :: bits[i] == StreamBit(data, bo, pos + i)
  }

  /** A spare bit of the lookahead, behind the counted ones, may be set only if the stream has it set. */
  ghost predicate SpareOk(data: seq<Byte>, bo: ByteOrder, pos: nat, bit: bool) {
    bit ==> pos < 8 * |data| && StreamBit(data, bo, pos)
  }

  /** The lookahead holds the next `cnt` bits of the stream, and beyond them nothing the stream does not have. */
  ghost predicate Ahead(data: seq<Byte>, bo: ByteOrder, pos: nat, lookahead: Word, cnt: nat) {
    && cnt < 64 && pos + cnt <= 8 * |data|
    && (forall i | 0 <= i < cnt :: lookahead[Slot(bo, i)] == StreamBit(data, bo, pos + i))
    && (forall i | cnt <= i < 64 :: SpareOk(data, bo, pos + i, lookahead[Slot(bo, i)]))
  }

  /** Up to eight bytes from `at` on, as one little-endian word. */
  function Load(data: seq<Byte>, at: nat): (w: Word)
    ensures forall i {:trigger w[i]} | 0 <= i < 64 ::
              w[i] == (at + i / 8 < |data| && BitOf(data[at + i / 8], i % 8))
  {
    seq(64, i requires 0 <= i < 64 => at + i / 8 < |data| && BitOf(data[at + i / 8], i % 8))
  }

  /** `HTOLE64` or `HTOBE64` of the loaded word. */
  function Incoming(data: seq<Byte>, bo: ByteOrder, at: nat): Word {
    if bo == LilEndian then Load(data, at) else Bswap(Load(data, at))
  }

  /** `next` shifted behind the bits that are there, and ORed in. */
  function Filled(bo: ByteOrder, lookahead: Word, next: Word, cnt: nat): Word
    requires cnt < 64
  {
    if bo == LilEndian then Or(lookahead, Shl(next, cnt)) else Or(lookahead, Shr(next, cnt))
  }

  lemma Mirror(i: nat)
    requires i < 64
    ensures (63 - i) / 8 == 7 - i / 8 && (63 - i) % 8 == 7 - i % 8
  {
    assert 63 - i == 8 * (7 - i / 8) + (7 - i % 8);
  }

  /** The bit that stands opposite to bit `i` in its byte. */
  function Opposite(i: nat): nat {
    8 * (i / 8) + (7 - i % 8)
  }

  lemma OppositeParts(i: nat)
    ensures Opposite(i) / 8 == i / 8 && Opposite(i) % 8 == 7 - i % 8
    ensures i < 64 ==> Opposite(i) < 64
  {
  }

  lemma SwappedSlot(lookahead: Word, bo: ByteOrder, bo': ByteOrder, i: nat)
    requires bo != bo' && i < 64
    ensures Opposite(i) < 64 && Bswap(lookahead)[Slot(bo', i)] == lookahead[Slot(bo, Opposite(i))]
  {
    OppositeParts(i);
    Mirror(i);
    Mirror(Opposite(i));
  }

  /** `next` holds the stream from byte `at` on, and zeros behind its end. */
  ghost predicate Comes(data: seq<Byte>, bo: ByteOrder, at: nat, next: Word) {
    forall k | 0 <= k < 64 :: next[Slot(bo, k)] == (8 * at + k < 8 * |data| && StreamBit(data, bo, 8 * at + k))
  }

  lemma LoadedBit(data: seq<Byte>, at: nat, byte: nat, r: nat)
    requires byte < 8 && r < 8
    ensures Load(data, at)[8 * byte + r] == (at + byte < |data| && BitOf(data[at + byte], r))
  {
    assert (8 * byte + r) / 8 == byte && (8 * byte + r) % 8 == r;
  }

  lemma BswapAt(w: Word, byte: nat, r: nat)
    requires byte < 8 && r < 8
    ensures Bswap(w)[8 * byte + r] == w[8 * (7 - byte) + r]
  {
    assert (8 * byte + r) / 8 == byte;
  }

  lemma IncomingBit(data: seq<Byte>, bo: ByteOrder, at: nat, byte: nat, r: nat, k: nat)
    requires byte < 8 && r < 8 && k == 8 * byte + r
    ensures Incoming(data, bo, at)[Slot(bo, k)] ==
      (at + byte < |data| && BitOf(data[at + byte], if bo == LilEndian then r else 7 - r))
  {
    if bo == LilEndian {
      LoadedBit(data, at, byte, r);
    } else {
      BswapAt(Load(data, at), 7 - byte, 7 - r);
      LoadedBit(data, at, byte, 7 - r);
    }
  }

  lemma BytePart(k: nat) returns (byte: nat, r: nat)
    ensures k == 8 * byte + r && r < 8
  {
    byte, r := k / 8, k % 8;
  }

  /** Bit `k` of what is loaded, which is bit `p` of the stream. */
  lemma LoadedAt(data: seq<Byte>, bo: ByteOrder, at: nat, k: nat, p: nat)
    requires k < 64 && p == 8 * at + k
    ensures Incoming(data, bo, at)[Slot(bo, k)] == (p < 8 * |data| && StreamBit(data, bo, p))
  {
    var byte, r := BytePart(k);
    IncomingBit(data, bo, at, byte, r, k);
    if at + byte < |data| { StreamByte(data, bo, at + byte, r, p); }
  }

  /** The loaded word, in either byte order, is the stream from byte `at` on. */
  lemma LoadedComes(data: seq<Byte>, bo: ByteOrder, at: nat)
    ensures Comes(data, bo, at, Incoming(data, bo, at))
  {
    forall k | 0 <= k < 64
      ensures Incoming(data, bo, at)[Slot(bo, k)] == (8 * at + k < 8 * |data| && StreamBit(data, bo, 8 * at + k))
    {
      LoadedAt(data, bo, at, k, 8 * at + k);
    }
  }

  lemma FilledAt(bo: ByteOrder, lookahead: Word, next: Word, cnt: nat, i: nat)
    requires cnt < 64 && i < 64
    ensures Filled(bo, lookahead, next, cnt)[Slot(bo, i)]
      == (lookahead[Slot(bo, i)] || (cnt <= i && next[Slot(bo, i - cnt)]))
  {
  }

  /** What the lookahead says of bit `k` ahead, which is bit `p` of the stream. */
  lemma AheadAt(data: seq<Byte>, bo: ByteOrder, pos: nat, lookahead: Word, cnt: nat, k: nat, p: nat)
    requires Ahead(data, bo, pos, lookahead, cnt) && k < 64 && p == pos + k
    ensures k < cnt ==> p < 8 * |data| && lookahead[Slot(bo, k)] == StreamBit(data, bo, p)
    ensures cnt <= k ==> SpareOk(data, bo, p, lookahead[Slot(bo, k)])
  {
    if cnt <= k { assert SpareOk(data, bo, pos + k, lookahead[Slot(bo, k)]); }
  }

  /** Bit `i` ahead, which is bit `p` of the stream, once the bits of `next` are ORed in behind the first `cnt`. */
  lemma FilledBit(data: seq<Byte>, bo: ByteOrder, at: nat, pos: nat, lookahead: Word, next: Word, cnt: nat, i: nat,
                  p: nat, bit: bool)
    requires Ahead(data, bo, pos, lookahead, cnt) && pos + cnt == 8 * at && Comes(data, bo, at, next)
    requires i < 64 && p == pos + i
    requires bit == (lookahead[Slot(bo, i)] || (cnt <= i && next[Slot(bo, i - cnt)]))
    ensures p < 8 * |data| ==> bit == StreamBit(data, bo, p)
    ensures SpareOk(data, bo, p, bit)
  {
    AheadAt(data, bo, pos, lookahead, cnt, i, p);
    if cnt <= i {
      var k := i - cnt;
      assert 8 * at + k == p;
      assert next[Slot(bo, k)] == (8 * at + k < 8 * |data| && StreamBit(data, bo, 8 * at + k));
    }
  }

  /** Why ORing in bytes again does no harm: afterwards every bit of the lookahead that the data reaches is exact. */
  lemma FilledAhead(data: seq<Byte>, bo: ByteOrder, at: nat, pos: nat, lookahead: Word, next: Word, cnt: nat, cnt': nat)
    requires Ahead(data, bo, pos, lookahead, cnt) && pos + cnt == 8 * at && Comes(data, bo, at, next)
    requires cnt <= cnt' < 64 && pos + cnt' <= 8 * |data|
    ensures Ahead(data, bo, pos, Filled(bo, lookahead, next, cnt), cnt')
  {
    var w := Filled(bo, lookahead, next, cnt);
    forall i | 0 <= i < 64
      ensures i < cnt' ==> w[Slot(bo, i)] == StreamBit(data, bo, pos + i)
      ensures SpareOk(data, bo, pos + i, w[Slot(bo, i)])
    {
      FilledAt(bo, lookahead, next, cnt, i);
      FilledBit(data, bo, at, pos, lookahead, next, cnt, i, pos + i, w[Slot(bo, i)]);
    }
  }

  /** Dropping `n` bits from the front. */
  function Dropped(bo: ByteOrder, lookahead: Word, n: nat): Word
    requires n < 64
  {
    if bo == LilEndian then Shr(lookahead, n) else Shl(lookahead, n)
  }

  lemma DroppedBit(bo: ByteOrder, lookahead: Word, n: nat, i: nat)
    requires n < 64 && i < 64
    ensures Dropped(bo, lookahead, n)[Slot(bo, i)] == (i + n < 64 && lookahead[Slot(bo, i + n)])
  {
  }

  lemma DroppedAhead(data: seq<Byte>, bo: ByteOrder, pos: nat, pos': nat, lookahead: Word, w: Word,
                     cnt: nat, cnt': nat)
    requires Ahead(data, bo, pos, lookahead, cnt) && cnt' <= cnt && pos' == pos + (cnt - cnt')
    requires w == Dropped(bo, lookahead, cnt - cnt')
    ensures Ahead(data, bo, pos', w, cnt')
  {
    var n := cnt - cnt';
    forall i | 0 <= i < 64
      ensures i < cnt' ==> w[Slot(bo, i)] == StreamBit(data, bo, pos' + i)
      ensures cnt' <= i ==> SpareOk(data, bo, pos' + i, w[Slot(bo, i)])
    {
      DroppedBit(bo, lookahead, n, i);
      if i + n < 64 {
        AheadAt(data, bo, pos, lookahead, cnt, i + n, pos' + i);
      }
    }
  }

  /** The first `n` bits ahead, in the order of the stream: little endian gives them least significant first. */
  function Peeked(bo: ByteOrder, lookahead: Word, n: nat): (w: Word)
    requires 0 < n < 64
  {
    if bo == LilEndian then LowBits(lookahead, n) else Shr(lookahead, 64 - n)
  }

  function InStreamOrder(bo: ByteOrder, bits: seq<bool>): (r: seq<bool>)
    ensures |r| == |bits|
  {
    if bo == LilEndian then bits else Reverse(bits)
  }

  /** `w` is the number formed by the next `n` bits of the stream. */
  ghost predicate Reads(data: seq<Byte>, bo: ByteOrder, pos: nat, n: nat, w: Word) {
    && n <= 64 && Streams(data, bo, pos, InStreamOrder(bo, w[..n]))
    && forall i | n <= i < 64 :: !w[i]
  }

  lemma PeekedReads(data: seq<Byte>, bo: ByteOrder, pos: nat, lookahead: Word, cnt: nat, n: nat)
    requires Ahead(data, bo, pos, lookahead, cnt) && 0 < n <= cnt
    ensures Reads(data, bo, pos, n, Peeked(bo, lookahead, n))
  {
    var w := Peeked(bo, lookahead, n);
    forall i | 0 <= i < n ensures InStreamOrder(bo, w[..n])[i] == StreamBit(data, bo, pos + i) {
      assert InStreamOrder(bo, w[..n])[i] == lookahead[Slot(bo, i)];
    }
  }

  // ---------------------------------------------------------------- changing the byte order

  lemma OppositeBit(data: seq<Byte>, bo: ByteOrder, bo': ByteOrder, b: nat, r: nat, k: nat, k': nat)
    requires bo != bo' && r < 8 && b < |data| && k == 8 * b + r && k' == 8 * b + 7 - r
    ensures StreamBit(data, bo', k) == StreamBit(data, bo, k')
  {
    StreamByte(data, bo', b, r, k);
    StreamByte(data, bo, b, 7 - r, k');
  }

  lemma OppositeBelow(i: nat, cnt: nat)
    requires cnt % 8 == 0
    ensures i < cnt <==> Opposite(i) < cnt
  {
    OppositeParts(i);
    assert i < cnt <==> i / 8 < cnt / 8;
  }

  lemma SwappedBit(data: seq<Byte>, bo: ByteOrder, bo': ByteOrder, pos: nat, lookahead: Word, cnt: nat, i: nat)
    requires Ahead(data, bo, pos, lookahead, cnt) && bo != bo'
    requires pos % 8 == 0 && cnt % 8 == 0 && i < 64
    ensures var b := Bswap(lookahead)[Slot(bo', i)];
            if i < cnt then b == StreamBit(data, bo', pos + i) else SpareOk(data, bo', pos + i, b)
  {
    var j := Opposite(i);
    SwappedSlot(lookahead, bo, bo', i);
    OppositeBelow(i, cnt);
    var b, r := pos / 8 + i / 8, i % 8;
    assert pos + i == 8 * b + r && pos + j == 8 * b + 7 - r;
    if b < |data| { OppositeBit(data, bo, bo', b, r, pos + i, pos + j); }
    if cnt <= j { assert SpareOk(data, bo, pos + j, lookahead[Slot(bo, j)]); }
  }

  /** At a byte boundary, swapping the bytes of the lookahead turns it into the lookahead of the other byte order. */
  lemma SwappedAhead(data: seq<Byte>, bo: ByteOrder, bo': ByteOrder, pos: nat, lookahead: Word, cnt: nat)
    requires Ahead(data, bo, pos, lookahead, cnt) && bo != bo'
    requires pos % 8 == 0 && cnt % 8 == 0
    ensures Ahead(data, bo', pos, Bswap(lookahead), cnt)
  {
    var w := Bswap(lookahead);
    forall i | 0 <= i < 64
      ensures i < cnt ==> w[Slot(bo', i)] == StreamBit(data, bo', pos + i)
      ensures cnt <= i ==> SpareOk(data, bo', pos + i, w[Slot(bo', i)])
    {
      SwappedBit(data, bo, bo', pos, lookahead, cnt, i);
    }
  }

  lemma {:induction false} OnesBits(n: nat, i: nat)
    requires i < n
    ensures BitsOf(Pow2(n) - 1, n)[i]
  {
    assert (Pow2(n) - 1) / 2 == Pow2(n - 1) - 1;
    if i > 0 { OnesBits(n - 1, i - 1); }
  }

  lemma OnesByte(i: nat)
    requires i < 8
    ensures BitOf(255, i)
  {
    assert Pow2(8) == 256;
    OnesBits(8, i);
  }

  lemma OnesStream(data: seq<Byte>, bo: ByteOrder, k: nat)
    requires k < 8 * |data| && forall i | 0 <= i < |data| :: data[i] == 255
    ensures StreamBit(data, bo, k)
  {
    OnesByte(k % 8);
    OnesByte(7 - k % 8);
    StreamByte(data, bo, k / 8, k % 8, k);
  }

  /** A lookahead that is right for a stream of ones. */
  function OnesAhead(bo: ByteOrder, cnt: nat): Word
    requires cnt < 64
  {
    seq(64, i requires 0 <= i < 64 => Slot(bo, i) < cnt)
  }

  /**
    The failing family: a stream of ones, and a reader in the middle of a byte told to go on in the other byte order.
   */
  lemma MidByteSwap(data: seq<Byte>, bo: ByteOrder, bo': ByteOrder, pos: nat, n: nat, cnt: nat)
    requires bo != bo' && pos % 8 != 0 && n <= cnt < 64 && pos + cnt == 8 * |data|
    requires forall k | 0 <= k < |data| :: data[k] == 255
    ensures Ahead(data, bo, pos, OnesAhead(bo, cnt), cnt)
    ensures !Ahead(data, bo', pos + n, Dropped(bo', Bswap(OnesAhead(bo, cnt)), n), cnt - n)
  {
    OnesAreAhead(data, bo, pos, cnt);
    var i := LastOfByte(pos, cnt, 8 * |data|);
    SwappedOnes(bo, bo', n, cnt, i);
    NotSpare(data, bo', pos + n, Dropped(bo', Bswap(OnesAhead(bo, cnt)), n), cnt - n, i - n);
  }

  lemma OnesAreAhead(data: seq<Byte>, bo: ByteOrder, pos: nat, cnt: nat)
    requires cnt < 64 && pos + cnt == 8 * |data| && forall k | 0 <= k < |data| :: data[k] == 255
    ensures Ahead(data, bo, pos, OnesAhead(bo, cnt), cnt)
  {
    forall k | 0 <= k < 8 * |data| ensures StreamBit(data, bo, k) {
      OnesStream(data, bo, k);
    }
  }

  lemma SwappedOnes(bo: ByteOrder, bo': ByteOrder, n: nat, cnt: nat, i: nat)
    requires bo != bo' && n <= cnt <= i < 64 && Opposite(i) < cnt
    ensures Dropped(bo', Bswap(OnesAhead(bo, cnt)), n)[Slot(bo', i - n)]
  {
    SwappedSlot(OnesAhead(bo, cnt), bo, bo', i);
    DroppedBit(bo', Bswap(OnesAhead(bo, cnt)), n, i - n);
  }

  /** The last bit of the byte in which the lookahead ends. */
  lemma LastOfByte(pos: nat, cnt: nat, end: nat) returns (i: nat)
    requires pos % 8 != 0 && cnt < 64 && pos + cnt == end && end % 8 == 0
    ensures cnt <= i < 64 && Opposite(i) < cnt
  {
    i := 8 * (cnt / 8) + 7;
    OppositeParts(i);
  }

  lemma NotSpare(data: seq<Byte>, bo: ByteOrder, pos: nat, w: Word, cnt: nat, k: nat)
    requires cnt <= k < 64 && pos + k >= 8 * |data| && w[Slot(bo, k)]
    ensures !Ahead(data, bo, pos, w, cnt)
  {
    assert !SpareOk(data, bo, pos + k, w[Slot(bo, k)]);
  }

  lemma OnesUpTo(end: nat) returns (data: seq<Byte>)
    requires end % 8 == 0
    ensures end == 8 * |data| && forall k | 0 <= k < |data| :: data[k] == 255
  {
    data := seq(end / 8, _ => 255);
  }

  /**
    Swapping the byte order and then skipping `n` of the bits ahead, as aligning does, is sound for every stream and
    every lookahead exactly at a byte boundary.
   */
  lemma SwapNeedsByteBoundary(bo: ByteOrder, bo': ByteOrder, pos: nat, n: nat, cnt: nat)
    requires bo != bo' && n <= cnt < 64 && (pos + cnt) % 8 == 0
    ensures (forall data: seq<Byte>, lookahead: Word | Ahead(data, bo, pos, lookahead, cnt) ::
               Ahead(data, bo', pos + n, Dropped(bo', Bswap(lookahead), n), cnt - n))
            <==> pos % 8 == 0
  {
    if pos % 8 == 0 {
      assert cnt % 8 == 0;
      forall data: seq<Byte>, lookahead: Word | Ahead(data, bo, pos, lookahead, cnt)
        ensures Ahead(data, bo', pos + n, Dropped(bo', Bswap(lookahead), n), cnt - n)
      {
        SwappedAtByte(data, bo, bo', pos, n, lookahead, cnt);
      }
    } else {
      var data := OnesUpTo(pos + cnt);
      MidByteSwap(data, bo, bo', pos, n, cnt);
    }
  }

  lemma SwappedAtByte(data: seq<Byte>, bo: ByteOrder, bo': ByteOrder, pos: nat, n: nat, lookahead: Word, cnt: nat)
    requires bo != bo' && n <= cnt < 64 && pos % 8 == 0 && cnt % 8 == 0
    requires Ahead(data, bo, pos, lookahead, cnt)
    ensures Ahead(data, bo', pos + n, Dropped(bo', Bswap(lookahead), n), cnt - n)
  {
    SwappedAhead(data, bo, bo', pos, lookahead, cnt);
    DroppedAhead(data, bo', pos, pos + n, Bswap(lookahead), Dropped(bo', Bswap(lookahead), n), cnt, cnt - n);
  }

  /** `struct breader`. */
  class Reader {
    const data: seq<Byte>
    var bo: ByteOrder
    var at: nat            // read_ptr - start_ptr
    var lookahead: Word
    var cnt: nat           // lookahead_bit_cnt
    var pos: nat           // tot_bit_cnt

    /** `cnt` bits are in the lookahead, and they end where the reader goes on to load. */
    ghost predicate Placed()
      reads this
    {
      at <= |data| && cnt < 64 && pos + cnt == 8 * at
    }

    /** The lookahead holds what the stream holds from bit `pos` on. */
    ghost predicate Right()
      reads this
    {
      Ahead(data, bo, pos, lookahead, cnt)
    }

    ghost predicate Valid()
      reads this
    {
      Placed() && Right()
    }

    function End(): nat {
      8 * |data|
    }

    /** `breader_init`. */
    constructor (data: seq<Byte>, bo: ByteOrder)
      ensures Valid() && this.data == data && this.bo == bo && pos == 0 && cnt == 0
    {
      this.data := data;
      this.bo := bo;
      at, lookahead, cnt, pos := 0, Zero(), 0, 0;
    }

    /** `breader_set_bo`. The lookahead stays right if the reader is at a byte boundary. */
    method SetBo(bo': ByteOrder)
      requires Placed()
      modifies this`bo, this`lookahead
      ensures Placed() && bo == bo'
      ensures lookahead == if old(bo) == bo' then old(lookahead) else Bswap(old(lookahead))
      ensures old(Right()) && (old(bo) == bo' || pos % 8 == 0) ==> Right()
    {
      if bo == bo' {
        return;
      }
      if Right() && pos % 8 == 0 { SwappedAhead(data, bo, bo', pos, lookahead, cnt); }
      lookahead := Bswap(lookahead);
      bo := bo';
    }

    /** `breader_peek`: the number formed by the next `n` bits. */
    method Peek(n: nat) returns (w: Word)
      requires Placed() && 0 < n <= cnt
      ensures w == Peeked(bo, lookahead, n)
      ensures Right() ==> Reads(data, bo, pos, n, w)
    {
      if Right() { PeekedReads(data, bo, pos, lookahead, cnt, n); }
      w := Peeked(bo, lookahead, n);
    }

    /** `breader_consume`. */
    method Consume(n: nat)
      requires Placed() && n <= cnt
      modifies this`lookahead, this`cnt, this`pos
      ensures Placed() && pos == old(pos) + n && cnt == old(cnt) - n
      ensures lookahead == Dropped(bo, old(lookahead), n)
      ensures old(Right()) ==> Right()
    {
      ghost var pos0, lookahead0, cnt0, right := pos, lookahead, cnt, Right();
      lookahead := Dropped(bo, lookahead, n);
      cnt := cnt - n;
      pos := pos + n;
      if right { DroppedAhead(data, bo, pos0, pos, lookahead0, lookahead, cnt0, cnt); }
    }

    /** `breader_refill`: afterwards at least 56 bits are ahead, or all that are left. */
    method Refill() returns (avail: nat)
      requires Placed()
      modifies this`lookahead, this`cnt, this`at
      ensures Placed() && avail == cnt && old(cnt) <= cnt
      ensures cnt >= Min(MAX_READ_BITS, End() - pos)
      ensures lookahead == Filled(bo, old(lookahead), Incoming(data, bo, old(at)), old(cnt))
      ensures old(Right()) ==> Right()
    {
      UsedBytes(cnt);
      var used := (63 - cnt) / 8;
      if |data| - at >= 8 {
        RefillMany(used);
      } else {
        RefillFew(used);
      }
      avail := cnt;
    }

    /** Eight bytes or more are left: no need to look how many are used. */
    method RefillMany(used: nat)
      requires Placed() && |data| - at >= 8 && used == (63 - cnt) / 8 && 56 <= cnt + 8 * used < 64
      modifies this`lookahead, this`cnt, this`at
      ensures Placed() && cnt == old(cnt) + 8 * used
      ensures lookahead == Filled(bo, old(lookahead), Incoming(data, bo, old(at)), old(cnt))
      ensures old(Right()) ==> Right()
    {
      Or56(cnt);
      var next := Incoming(data, bo, at);
      if Right() {
        LoadedComes(data, bo, at);
        FilledAhead(data, bo, at, pos, lookahead, next, cnt, cnt + 8 * used);
      }
      lookahead := Filled(bo, lookahead, next, cnt);
      at := at + used;
      cnt := OrNat(cnt, MAX_READ_BITS);
    }

    /** Fewer than eight bytes are left. */
    method RefillFew(used: nat)
      requires Placed() && 56 <= cnt + 8 * used < 64
      modifies this`lookahead, this`cnt, this`at
      ensures Placed() && cnt == old(cnt) + 8 * Min(used, |data| - old(at))
      ensures lookahead == Filled(bo, old(lookahead), Incoming(data, bo, old(at)), old(cnt))
      ensures old(Right()) ==> Right()
    {
      var n := |data| - at;
      var usedBytes := if n < used then n else used;
      var next := Incoming(data, bo, at);
      if Right() {
        LoadedComes(data, bo, at);
        FilledAhead(data, bo, at, pos, lookahead, next, cnt, cnt + 8 * usedBytes);
      }
      lookahead := Filled(bo, lookahead, next, cnt);
      at := at + usedBytes;
      cnt := cnt + usedBytes * 8;
    }

    /**
      `breader_consume_checked`: `n` bits further, or to the end if that comes first. Going past the
      lookahead empties it, which makes it right whatever it held.
     */
    method ConsumeChecked(n: nat)
      requires Placed()
      modifies this`lookahead, this`cnt, this`pos, this`at
      ensures Placed() && pos == Min(old(pos) + n, End())
      ensures n <= old(cnt) ==> lookahead == Dropped(bo, old(lookahead), n)
      ensures old(Right()) || n > old(cnt) ==> Right()
    {
      if n <= cnt {
        Consume(n);
        return;
      }
      var toConsume := n - cnt;
      Consume(cnt);
      lookahead := Zero();
      SkipUnread(toConsume);
    }

    /** The second part of it: whole bytes are skipped without loading them. */
    method SkipUnread(toConsume: nat)
      requires Placed() && cnt == 0 && lookahead == Zero()
      modifies this`lookahead, this`cnt, this`pos, this`at
      ensures Placed() && pos == Min(old(pos) + toConsume, End()) && Right()
    {
      var bytes := toConsume / 8;
      var availBytes := |data| - at;
      if availBytes <= bytes {
        at := at + availBytes;
        pos := pos + availBytes * 8;
      } else {
        at := at + bytes;
        pos := pos + bytes * 8;
        var bits := toConsume % 8;
        var avail := Refill();
        Consume(bits);
      }
    }

    /** `breader_align`, for a power of two `align`. */
    method Align(align: nat)
      requires Placed() && align > 0
      modifies this`lookahead, this`cnt, this`pos, this`at
      ensures Placed() && pos == Min(RoundUp(old(pos), align), End())
      ensures old(Right() || SkipsAll(align)) ==> Right()
    {
      var newPos := RoundUp(pos, align);
      RoundUpLeast(pos, align);
      ConsumeChecked(newPos - pos);
    }

    /** Aligning goes past the lookahead. */
    ghost predicate SkipsAll(align: nat)
      requires align > 0
      reads this
    {
      RoundUp(pos, align) > pos + cnt
    }

    /** `breader_byte_aligned`. */
    method ByteAligned() returns (b: bool)
      requires Placed()
      ensures b <==> pos % 8 == 0
    {
      b := cnt % 8 == 0;
    }

    /** `breader_bits_remaining`. */
    method BitsRemaining() returns (n: nat)
      requires Placed()
      ensures n == End() - pos
    {
      n := (|data| - at) * 8 + cnt;
    }

    /** `breader_has_bits_remaining`. */
    method HasBitsRemaining() returns (b: bool)
      requires Placed()
      ensures b <==> pos < End()
    {
      b := cnt > 0 || at < |data|;
    }

    /** `breader_read_bits`: the number formed by the next `n` bits, or `UINT64_MAX` if there are fewer. */
    method ReadBits(n: nat) returns (w: Word)
      requires Placed() && 0 < n <= MAX_READ_BITS
      modifies this`lookahead, this`cnt, this`pos, this`at
      ensures Placed() && (old(Right()) ==> Right())
      ensures if old(pos) + n <= End() then pos == old(pos) + n else pos == old(pos) && w == Ones()
      ensures old(Right()) && pos > old(pos) ==> Reads(data, bo, old(pos), n, w)
    {
      if cnt < n {
        var len := Refill();
        if len < n {
          return Ones();
        }
      }
      w := Peek(n);
      Consume(n);
    }

    /** `breader_read_bytes`, at a byte boundary: where the `n` bytes start, if there are that many. */
    method ReadBytes(n: nat) returns (ok: bool, start: nat)
      requires Placed() && pos % 8 == 0
      modifies this`lookahead, this`cnt, this`pos, this`at
      ensures Placed() && (ok <==> old(pos) + 8 * n <= End())
      ensures ok ==> start == old(pos) / 8 && pos == old(pos) + 8 * n
      ensures !ok ==> pos == old(pos)
      ensures old(Right()) ==> Right()
    {
      start := 0;
      var availBytes := BytesRemaining();
      ok := availBytes >= n;
      if !ok {
        return;
      }
      start := PeekBytes();
      ConsumeChecked(n * 8);
    }

    /** `breader_bytes_remaining`, at a byte boundary. */
    method BytesRemaining() returns (n: nat)
      requires Placed() && pos % 8 == 0
      ensures 8 * n == End() - pos
    {
      n := (|data| - at) + cnt / 8;
    }

    /** `breader_peek_bytes`, at a byte boundary: which byte comes next. */
    method PeekBytes() returns (start: nat)
      requires Placed() && pos % 8 == 0
      ensures start == pos / 8
    {
      start := at - cnt / 8;
    }

    /**
      `breader_seek`: to a byte from the start, or to so many bytes behind the last one loaded, or to the end;
      never past the end, and always with an empty lookahead.
     */
    method Seek(off: nat, whence: SeekOp)
      requires Placed()
      modifies this`lookahead, this`cnt, this`pos, this`at
      ensures Valid() && cnt == 0
      ensures pos == match whence
        case SeekSet => Min(8 * off, End())
        case SeekCur => Min(old(pos + cnt) + 8 * off, End())
        case SeekEnd => End()
    {
      match whence {
        case SeekSet =>
          if off < |data| {
            at := off;
          } else {
            at := |data|;
          }
        case SeekCur =>
          if off < |data| - at {
            at := at + off;
          } else {
            at := |data|;
          }
        case SeekEnd =>
          at := |data|;
      }
      pos := at * 8;
      lookahead := Zero();
      cnt := 0;
    }
  }

  /** The next multiple of `align`. */
  function RoundUp(pos: nat, align: nat): nat
    requires align > 0
  {
    var t := pos + align - 1;
    t - t % align
  }

  lemma RoundUpLeast(pos: nat, align: nat)
    requires align > 0
    ensures var r := RoundUp(pos, align);
            pos <= r < pos + align && r % align == 0
  {
    var t := pos + align - 1;
    assert t - t % align == align * (t / align);
    ModOf(t / align, align, 0);
  }

  /** The code's `(pos + align - 1) & -align` in 64 bits is that for every power of two. */
  lemma RoundUpIsMasked(pos: nat, k: nat)
    requires k < 64 && pos + Pow2(k) - 1 < Pow2(64)
    ensures Pow2(k) <= Pow2(64) && RoundUp(pos, Pow2(k)) == And(pos + Pow2(k) - 1, Pow2(64) - Pow2(k))
  {
    RoundUpMask(pos, k, 64);
  }

  lemma RoundUpMask(pos: nat, k: nat, n: nat)
    requires k < n && pos + Pow2(k) - 1 < Pow2(n)
    ensures Pow2(k) <= Pow2(n) && RoundUp(pos, Pow2(k)) == And(pos + Pow2(k) - 1, Pow2(n) - Pow2(k))
  {
    RoundUpClears(pos, Pow2(k));
    AndClears(pos + Pow2(k) - 1, n, k);
  }

  lemma RoundUpClears(pos: nat, align: nat)
    requires align > 0
    ensures var t := pos + align - 1; RoundUp(pos, align) == t - t % align
  {
  }

  lemma UsedBytes(cnt: nat)
    requires cnt < 64
    ensures 56 <= cnt + 8 * ((63 - cnt) / 8) < 64
  {
  }
}
