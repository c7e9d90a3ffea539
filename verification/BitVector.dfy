/** Bit vectors as they cross process borders: packed into bytes, in chunks. */
module BitVector {
  import opened FatCodec
  import opened Bits

  /** Bit `i`, false past the end. */
  predicate BitOr0(bits: seq<bool>, i: nat) {
    i < |bits| && bits[i]
  }

  /** A byte from the bits `8 * j` to `8 * j + k` of the vector, low bit first. */
  function PackByte(bits: seq<bool>, j: nat, k: nat): byte
    requires k <= 8
  {
    if k == 0 then 0 else PutBit(PackByte(bits, j, k - 1), k - 1, BitOr0(bits, 8 * j + k - 1))
  }

  lemma {:induction false} PackByteTest(bits: seq<bool>, j: nat, k: nat, i: nat)
    requires k <= 8
    ensures TestBit(PackByte(bits, j, k), i) == (i < k && BitOr0(bits, 8 * j + i))
  {
    if k == 0 {
      ZeroBits(i);
    } else {
      PackByteTest(bits, j, k - 1, i);
      PutTest(PackByte(bits, j, k - 1), k - 1, BitOr0(bits, 8 * j + k - 1), i);
    }
  }

  /** `BitVec::into_vec`: the bits in bytes; the unused bits of the last byte are 0. */
  function Pack(bits: seq<bool>): (bytes: seq<byte>)
    ensures |bytes| == (|bits| + 7) / 8
  {
    seq((|bits| + 7) / 8, j requires 0 <= j => PackByte(bits, j, 8))
  }

  /** `BitVec::from_vec`: all bits of the bytes. */
  function Unpack(bytes: seq<byte>): (bits: seq<bool>)
    ensures |bits| == 8 * |bytes|
  {
    BitsOf(bytes, 8 * |bytes|)
  }

  /** The round trip keeps every bit and adds clear bits up to a whole byte. */
  lemma UnpackPack(bits: seq<bool>)
    ensures |bits| <= |Unpack(Pack(bits))| < |bits| + 8
    ensures forall i | 0 <= i < |Unpack(Pack(bits))| :: Unpack(Pack(bits))[i] == BitOr0(bits, i)
  {
    var bytes := Pack(bits);
    forall i | 0 <= i < |Unpack(bytes)|
      ensures Unpack(bytes)[i] == BitOr0(bits, i)
    {
      var j, k := i / 8, i % 8;
      BitsAt(bytes, 8 * |bytes|, j, k);
      PackByteTest(bits, j, 8, k);
    }
  }

  predicate SameBit(a: seq<bool>, i: nat, b: seq<bool>, j: nat, m: nat) {
    BitOr0(a, 8 * i + m) == BitOr0(b, 8 * j + m)
  }

  lemma {:induction false} PackByteSame(a: seq<bool>, i: nat, b: seq<bool>, j: nat, k: nat)
    requires k <= 8 && forall m | 0 <= m < k :: SameBit(a, i, b, j, m)
    ensures PackByte(a, i, k) == PackByte(b, j, k)
  {
    if k > 0 {
      PackByteSame(a, i, b, j, k - 1);
      assert SameBit(a, i, b, j, k - 1);
    }
  }

  /** Cutting a vector at a whole byte and packing the parts packs the whole. */
  lemma PackAppend(a: seq<bool>, b: seq<bool>)
    requires |a| % 8 == 0
    ensures Pack(a + b) == Pack(a) + Pack(b)
  {
    var n := |a| / 8;
    forall j | 0 <= j < |Pack(a + b)|
      ensures Pack(a + b)[j] == (Pack(a) + Pack(b))[j]
    {
      if j < n {
        PackByteSame(a + b, j, a, j, 8);
      } else {
        PackByteSame(a + b, j, b, j - n, 8);
      }
    }
  }

  // ---- the hand-over ----

  const CHUNK: nat := 10 * 1024 * 1024

  /** The sender in files2fs: the bit vector and how many of its bits were sent. */
  class Sender {
    const bits: seq<bool>
    var sent: nat

    constructor (bits: seq<bool>)
      ensures this.bits == bits && sent == 0
    {
      this.bits, sent := bits, 0;
    }

    ghost predicate Valid()
      reads this
    {
      sent % 8 == 0 && sent < |bits|
    }

    /** The answer to a request: the next chunk, and whether it is the last. */
    method Next() returns (chunk: seq<byte>, last: bool)
      requires Valid()
      modifies this
      ensures last <==> sent == |bits|
      ensures !last ==> Valid() && sent == old(sent) + CHUNK
      ensures old(sent) < sent <= |bits| && sent <= old(sent) + CHUNK && chunk == Pack(bits[old(sent)..sent])
    {
      var stop := if sent + CHUNK < |bits| then sent + CHUNK else |bits|;
      chunk := Pack(bits[sent..stop]);
      sent := stop;
      last := stop == |bits|;
    }
  }

  /**
   The vector goes from files2fs to fs2dev chunk by chunk; the receiver appends the bytes. An empty
   vector has no chunk to send, which the sender does not survive.
   */
  method Forward(bits: seq<bool>) returns (ok: bool, buf: seq<byte>)
    ensures ok <==> bits != []
    ensures ok ==> buf == Pack(bits)
  {
    buf := [];
    ok := |bits| > 0;
    if !ok { return; }
    var sender := new Sender(bits);
    var last := false;
    assert buf == Pack(bits[..0]);
    while !last
      invariant sender.sent <= |bits| && sender.bits == bits && (last <==> sender.sent == |bits|) && (!last ==> sender.Valid())
      invariant fresh(sender) && buf == Pack(bits[..sender.sent])
      decreases |bits| - sender.sent
    {
      ghost var p := sender.sent;
      var chunk;
      chunk, last := sender.Next();
      PackAppend(bits[..p], bits[p..sender.sent]);
      assert bits[..p] + bits[p..sender.sent] == bits[..sender.sent];
      buf := buf + chunk;
    }
    assert bits[..sender.sent] == bits;
  }
}
