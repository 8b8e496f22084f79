/** On-disk layout of the file system (kernel/include/fs.h): constants, the block
    type and the two views of a block, 256 32-bit words and 1024 bytes. */
module Layout {
  import opened Basics

  const BSIZE := 1024
  const NDIRECT := 11
  const NADDR := 256                            // NINDIRECT == NADDR_PER_BLOCK
  const MAXFILE := 65803                        // NDIRECT + 256 + 256 * 256
  const BPB := 8192                             // bitmap bits per block
  const UINT_LIMIT := 0x1_0000_0000

  type Word = w: int | 0 <= w < 0x1_0000_0000

  /** A disk block, as the words that `(uint*)bp->data` shows. */
  type Block = b: seq<Word> | |b| == 256 witness seq(256, _ => 0)

  function ZeroBlock(): (b: Block)
    ensures forall i :: 0 <= i < 256 ==> b[i] == 0
  {
    seq(256, _ => 0)
  }

  /** Byte k of a little-endian word. */
  function WordByte(w: Word, k: nat): Byte
  {
    if k == 0 then w % 256
    else if k == 1 then w / 256 % 256
    else if k == 2 then w / 65536 % 256
    else w / 16777216 % 256
  }

  function MakeWord(b0: Byte, b1: Byte, b2: Byte, b3: Byte): Word
  {
    b0 + 256 * b1 + 65536 * b2 + 16777216 * b3
  }

  lemma WordRoundTrip(b0: Byte, b1: Byte, b2: Byte, b3: Byte)
    ensures var w := MakeWord(b0, b1, b2, b3);
            WordByte(w, 0) == b0 && WordByte(w, 1) == b1 && WordByte(w, 2) == b2 && WordByte(w, 3) == b3
  {
    var w := MakeWord(b0, b1, b2, b3);
    assert w == b0 + 256 * (b1 + 256 * (b2 + 256 * b3));
    assert w / 256 == b1 + 256 * (b2 + 256 * b3);
    assert w / 65536 == b2 + 256 * b3;
    assert w / 16777216 == b3;
  }

  /** The 1024 bytes of a block. */
  function Bytes(b: Block): (r: seq<Byte>)
    ensures |r| == BSIZE
  {
    seq(1024, o requires 0 <= o < 1024 => WordByte(b[o / 4], o % 4))
  }

  /** The block holding the given 1024 bytes. */
  function Pack(bs: seq<Byte>): Block
    requires |bs| == BSIZE
  {
    seq(256, i requires 0 <= i < 256 => MakeWord(bs[4 * i], bs[4 * i + 1], bs[4 * i + 2], bs[4 * i + 3]))
  }

  lemma PackRoundTrip(bs: seq<Byte>)
    requires |bs| == BSIZE
    ensures Bytes(Pack(bs)) == bs
  {
    var r := Bytes(Pack(bs));
    forall o | 0 <= o < BSIZE
      ensures r[o] == bs[o]
    {
      var i := o / 4;
      WordRoundTrip(bs[4 * i], bs[4 * i + 1], bs[4 * i + 2], bs[4 * i + 3]);
      assert Pack(bs)[i] == MakeWord(bs[4 * i], bs[4 * i + 1], bs[4 * i + 2], bs[4 * i + 3]);
      assert o == 4 * i + o % 4;
    }
  }

  function SpliceSeq(bs: seq<Byte>, at: nat, data: seq<Byte>): (r: seq<Byte>)
    requires at + |data| <= |bs|
    ensures |r| == |bs|
    ensures forall o :: 0 <= o < |bs| ==> r[o] == if at <= o < at + |data| then data[o - at] else bs[o]
  {
    bs[..at] + data + bs[at + |data|..]
  }

  /** memmove of `data` into the block's bytes at position `at`. */
  function Splice(b: Block, at: nat, data: seq<Byte>): Block
    requires at + |data| <= BSIZE
  {
    Pack(SpliceSeq(Bytes(b), at, data))
  }

  lemma SpliceBytes(b: Block, at: nat, data: seq<Byte>)
    requires at + |data| <= BSIZE
    ensures Bytes(Splice(b, at, data)) == SpliceSeq(Bytes(b), at, data)
  {
    PackRoundTrip(SpliceSeq(Bytes(b), at, data));
  }

  lemma ChunkIndex(off: nat, k: nat)
    requires off % BSIZE + k < BSIZE
    ensures (off + k) / BSIZE == off / BSIZE && (off + k) % BSIZE == off % BSIZE + k
  {}

  lemma ZeroBytes(o: nat)
    requires o < BSIZE
    ensures Bytes(ZeroBlock())[o] == 0
  {}

  /** write_head: the count and the list go into the header block, the rest of it stays. */
  function HeadImage(n: nat, block: seq<nat>, h: Block): (r: Block)
    requires n <= LOGSIZE == |block| && forall i :: 0 <= i < n ==> block[i] < UINT_LIMIT
    ensures r[0] == n && forall i :: 0 <= i < n ==> r[1 + i] == block[i]
  {
    seq(256, j requires 0 <= j < 256 => if j == 0 then n else if j <= n then block[j - 1] else h[j])
  }
}
