/**
 WvCounterModeEncoder (wvcountermode.cc): a block cipher in counter mode (NIST SP 800-38A, section 6.5), with a
 little-endian counter. The input and the output buffer hand out their bytes in chunks whose boundaries have
 nothing to do with each other or with the cipher blocks.
 */
module CounterMode {
  import opened Slices

  newtype byte = b: int | 0 <= b < 256

  // ----- the counter -----

  /** The number a little-endian counter stands for. */
  function Value(s: seq<byte>): nat {
    if s == [] then 0 else s[0] as nat + 256 * Value(s[1..])
  }

  /** 256 to the given power. */
  function Power(n: nat): (r: nat)
    ensures r > 0
  {
    if n == 0 then 1 else 256 * Power(n - 1)
  }

  /** A counter with the carry passed on from its first byte. */
  function Incremented(s: seq<byte>): (r: seq<byte>)
    ensures |r| == |s|
  {
    if s == [] then []
    else if s[0] == 255 then [0] + Incremented(s[1..])
    else [s[0] + 1] + s[1..]
  }

  lemma {:induction false} ValueBound(s: seq<byte>)
    ensures Value(s) < Power(|s|)
  {
    if s != [] {
      ValueBound(s[1..]);
    }
  }

  /** incrcounter adds 1 modulo 256^countersize. */
  lemma {:induction false} IncrementedValue(s: seq<byte>)
    ensures Value(Incremented(s)) == if Value(s) + 1 == Power(|s|) then 0 else Value(s) + 1
  {
    if s != [] {
      var t := Incremented(s);
      ValueBound(s[1..]);
      if s[0] == 255 {
        IncrementedValue(s[1..]);
        assert t[1..] == Incremented(s[1..]);
      } else {
        assert t[1..] == s[1..];
      }
    }
  }

  lemma {:induction false} ValueInjective(s: seq<byte>, t: seq<byte>)
    requires |s| == |t| && Value(s) == Value(t)
    ensures s == t
  {
    if s != [] {
      assert s[0] as nat == Value(s) % 256 && t[0] as nat == Value(t) % 256;
      ValueInjective(s[1..], t[1..]);
      assert s == [s[0]] + s[1..] && t == [t[0]] + t[1..];
    }
  }

  /** The counter after k increments. */
  function Advanced(s: seq<byte>, k: nat): (r: seq<byte>)
    ensures |r| == |s|
  {
    if k == 0 then s else Incremented(Advanced(s, k - 1))
  }

  lemma {:induction false} AdvancedTwice(s: seq<byte>, j: nat, k: nat)
    ensures Advanced(Advanced(s, j), k) == Advanced(s, j + k)
  {
    if k > 0 {
      AdvancedTwice(s, j, k - 1);
    }
  }

  lemma {:induction false} AdvancedValue(s: seq<byte>, k: nat)
    requires k < Power(|s|)
    ensures Value(Advanced(s, k))
            == if Value(s) + k < Power(|s|) then Value(s) + k else Value(s) + k - Power(|s|)
  {
    ValueBound(s);
    if k > 0 {
      AdvancedValue(s, k - 1);
      IncrementedValue(Advanced(s, k - 1));
    }
  }

  /** No two blocks of a message of up to 256^countersize blocks use the same counter. */
  lemma CountersDistinct(s: seq<byte>, j: nat, k: nat)
    requires j < k < Power(|s|)
    ensures Advanced(s, j) != Advanced(s, k)
  {
    ValueBound(s);
    AdvancedValue(s, j);
    AdvancedValue(s, k);
  }

  /** The carry has gone through the first i bytes. */
  ghost predicate Carried(was: seq<byte>, now: seq<byte>, i: nat) {
    && i <= |was| == |now|
    && (forall k :: 0 <= k < i ==> was[k] == 255 && now[k] == 0)
    && forall k :: i <= k < |was| ==> now[k] == was[k]
  }

  /** The carry stops at the first byte that does not wrap, or runs out of the counter. */
  lemma {:induction false} CarryEnds(was: seq<byte>, now: seq<byte>, i: nat)
    requires Carried(was, now, i) && (i < |was| ==> was[i] != 255)
    ensures Incremented(was) == if i < |was| then now[i := was[i] + 1] else now
    decreases |was|
  {
    if i > 0 {
      CarryEnds(was[1..], now[1..], i - 1);
      assert now == [0] + now[1..];
    } else {
      assert now == was;
      if was != [] {
        assert was[0 := was[0] + 1] == [was[0] + 1] + was[1..];
      }
    }
  }

  // ----- exclusive or -----

  function XorBits(a: nat, b: nat, bits: nat): (r: nat)
    ensures r < Exp2(bits)
  {
    if bits == 0 then 0 else (if a % 2 == b % 2 then 0 else 1) + 2 * XorBits(a / 2, b / 2, bits - 1)
  }

  function Exp2(n: nat): nat {
    if n == 0 then 1 else 2 * Exp2(n - 1)
  }

  lemma {:induction false} XorBitsTwice(a: nat, b: nat, bits: nat)
    requires a < Exp2(bits)
    ensures XorBits(XorBits(a, b, bits), b, bits) == a
  {
    if bits > 0 {
      XorBitsTwice(a / 2, b / 2, bits - 1);
      XorBitsParts(a, b, bits);
    }
  }

  lemma XorBitsParts(a: nat, b: nat, bits: nat)
    requires bits > 0
    ensures XorBits(a, b, bits) % 2 == if a % 2 == b % 2 then 0 else 1
    ensures XorBits(a, b, bits) / 2 == XorBits(a / 2, b / 2, bits - 1)
  {
    LowBit(if a % 2 == b % 2 then 0 else 1, XorBits(a / 2, b / 2, bits - 1));
  }

  lemma LowBit(low: nat, high: nat)
    requires low < 2
    ensures (low + 2 * high) % 2 == low && (low + 2 * high) / 2 == high
  {
  }

  lemma Exp2Of8()
    ensures Exp2(8) == 256
  {
    assert Exp2(3) == 8 && Exp2(5) == 32;
    assert Exp2(6) == 64;
  }

  function Xor(a: byte, b: byte): byte {
    Exp2Of8();
    XorBits(a as nat, b as nat, 8) as byte
  }

  lemma XorTwice(a: byte, b: byte)
    ensures Xor(Xor(a, b), b) == a
  {
    Exp2Of8();
    XorBitsTwice(a as nat, b as nat, 8);
  }

  /** Bit i of a number. */
  predicate Bit(a: nat, i: nat) {
    if i == 0 then a % 2 == 1 else Bit(a / 2, i - 1)
  }

  lemma {:induction false} XorBitsIs(a: nat, b: nat, bits: nat, i: nat)
    requires i < bits
    ensures Bit(XorBits(a, b, bits), i) <==> Bit(a, i) != Bit(b, i)
  {
    XorBitsParts(a, b, bits);
    if i > 0 {
      XorBitsIs(a / 2, b / 2, bits - 1, i - 1);
    }
  }

  /** A bit of the exclusive or is set exactly if it is set in one of the two. */
  lemma XorIsBitwise(a: byte, b: byte, i: nat)
    requires i < 8
    ensures Bit(Xor(a, b) as nat, i) <==> Bit(a as nat, i) != Bit(b as nat, i)
  {
    Exp2Of8();
    XorBitsIs(a as nat, b as nat, 8, i);
  }

  lemma {:induction false} XorBitsCommutes(a: nat, b: nat, bits: nat)
    ensures XorBits(a, b, bits) == XorBits(b, a, bits)
  {
    if bits > 0 {
      XorBitsCommutes(a / 2, b / 2, bits - 1);
    }
  }

  lemma XorCommutes(a: byte, b: byte)
    ensures Xor(a, b) == Xor(b, a)
  {
    XorBitsCommutes(a as nat, b as nat, 8);
  }

  /** Two sequences of equal length, byte by byte. */
  function XorAll(s: seq<byte>, t: seq<byte>): (r: seq<byte>)
    requires |s| == |t|
    ensures |r| == |s|
  {
    seq(|s|, i requires 0 <= i < |s| => Xor(s[i], t[i]))
  }

  lemma XorAllTwice(s: seq<byte>, t: seq<byte>)
    requires |s| == |t|
    ensures XorAll(XorAll(s, t), t) == s
  {
    forall i | 0 <= i < |s|
      ensures XorAll(XorAll(s, t), t)[i] == s[i]
    {
      XorTwice(s[i], t[i]);
    }
  }

  // ----- the key stream -----

  type Encoder = seq<byte> -> seq<byte>

  /** The underlying encoder turns a block into a block of the same size, if the call does not fail. */
  ghost predicate BlockEncoder(encode: Encoder, size: nat) {
    forall block: seq<byte> :: |block| == size ==> |encode(block)| == size
  }

  /** The encoded values of successive counters. */
  function KeyStream(encode: Encoder, counter: seq<byte>, blocks: nat): seq<byte> {
    if blocks == 0 then [] else KeyStream(encode, counter, blocks - 1) + encode(Advanced(counter, blocks - 1))
  }

  lemma {:induction false} KeyStreamLength(encode: Encoder, counter: seq<byte>, blocks: nat)
    requires BlockEncoder(encode, |counter|)
    ensures |KeyStream(encode, counter, blocks)| == blocks * |counter|
  {
    if blocks > 0 {
      KeyStreamLength(encode, counter, blocks - 1);
      assert blocks * |counter| == (blocks - 1) * |counter| + |counter|;
    }
  }

  lemma {:induction false} KeyStreamJoined(encode: Encoder, counter: seq<byte>, j: nat, k: nat)
    ensures KeyStream(encode, counter, j + k)
            == KeyStream(encode, counter, j) + KeyStream(encode, Advanced(counter, j), k)
  {
    if k == 0 {
      assert KeyStream(encode, counter, j) + [] == KeyStream(encode, counter, j);
    } else {
      var m, later := j + (k - 1), Advanced(counter, j);
      KeyStreamJoined(encode, counter, j, k - 1);
      AdvancedTwice(counter, j, k - 1);
      assert KeyStream(encode, counter, j + k) == KeyStream(encode, counter, m) + encode(Advanced(counter, m));
      Joined(KeyStream(encode, counter, j), KeyStream(encode, later, k - 1), encode(Advanced(counter, m)));
    }
  }

  /** Block i of the key stream is the encoded counter after i increments. */
  lemma {:induction false} KeyStreamBlock(encode: Encoder, counter: seq<byte>, blocks: nat, i: nat)
    requires BlockEncoder(encode, |counter|) && i < blocks
    ensures (i + 1) * |counter| <= |KeyStream(encode, counter, blocks)|
    ensures KeyStream(encode, counter, blocks)[i * |counter|..(i + 1) * |counter|] == encode(Advanced(counter, i))
  {
    var size := |counter|;
    KeyStreamLength(encode, counter, blocks - 1);
    KeyStreamLength(encode, counter, blocks);
    SizesGrow(i, blocks, size);
    var before, last := KeyStream(encode, counter, blocks - 1), encode(Advanced(counter, blocks - 1));
    assert KeyStream(encode, counter, blocks) == before + last;
    if i == blocks - 1 {
      assert (before + last)[|before|..|before| + size] == last;
    } else {
      KeyStreamBlock(encode, counter, blocks - 1, i);
      SliceOfFront(before, last, i * size, (i + 1) * size);
    }
  }

  lemma SliceOfFront(s: seq<byte>, t: seq<byte>, lo: nat, hi: nat)
    requires lo <= hi <= |s|
    ensures (s + t)[lo..hi] == s[lo..hi]
  {
  }

  lemma SizesGrow(i: nat, blocks: nat, size: nat)
    requires i < blocks
    ensures i * size <= (i + 1) * size == i * size + size <= blocks * size
    ensures blocks * size == (blocks - 1) * size + size
    ensures i < blocks - 1 ==> (i + 1) * size <= (blocks - 1) * size
  {
  }

  /** The blocks a message of n bytes needs. */
  function BlocksFor(n: nat, size: nat): nat
    requires size > 0
  {
    if n == 0 then 0 else if n <= size then 1 else 1 + BlocksFor(n - size, size)
  }

  lemma {:induction false} EnoughBlocks(n: nat, size: nat)
    requires size > 0
    ensures n <= BlocksFor(n, size) * size
    decreases n
  {
    if n > size {
      EnoughBlocks(n - size, size);
      var m := BlocksFor(n - size, size);
      assert (1 + m) * size == size + m * size;
    }
  }

  lemma {:induction false} BlocksOfWhole(blocks: nat, rest: nat, size: nat)
    requires size > 0
    ensures BlocksFor(blocks * size + rest, size) == blocks + BlocksFor(rest, size)
    decreases blocks
  {
    if blocks > 0 {
      BlocksOfWhole(blocks - 1, rest, size);
      assert blocks * size + rest - size == (blocks - 1) * size + rest;
      if (blocks - 1) * size + rest == 0 {
        assert rest == 0;
      }
    }
  }

  /** What the encoder does to a message, from a given counter on: exclusive or with the key stream. */
  ghost function Encoded(encode: Encoder, counter: seq<byte>, message: seq<byte>): (r: seq<byte>)
    requires |counter| > 0 && BlockEncoder(encode, |counter|)
    ensures |r| == |message|
  {
    XorAll(message, KeyBytes(encode, counter, |message|))
  }

  ghost function KeyBytes(encode: Encoder, counter: seq<byte>, n: nat): (r: seq<byte>)
    requires |counter| > 0 && BlockEncoder(encode, |counter|)
    ensures |r| == n
  {
    EnoughBlocks(n, |counter|);
    KeyStreamLength(encode, counter, BlocksFor(n, |counter|));
    KeyStream(encode, counter, BlocksFor(n, |counter|))[..n]
  }

  /** Byte j of block i of an encoded message is that byte of the message, exclusive or byte j of the encoded counter
      after i increments. */
  lemma EncodedByte(encode: Encoder, counter: seq<byte>, message: seq<byte>, i: nat, j: nat, p: nat)
    requires |counter| > 0 && BlockEncoder(encode, |counter|)
    requires j < |counter| && p == i * |counter| + j && p < |message|
    ensures Encoded(encode, counter, message)[p] == Xor(message[p], encode(Advanced(counter, i))[j])
  {
    var n := BlocksFor(|message|, |counter|);
    EnoughBlocks(|message|, |counter|);
    BlockIsNeeded(i, n, |counter|, p);
    KeyByte(encode, counter, n, i, j, p);
  }

  lemma KeyByte(encode: Encoder, counter: seq<byte>, n: nat, i: nat, j: nat, p: nat)
    requires BlockEncoder(encode, |counter|) && i < n && j < |counter| && p == i * |counter| + j
    ensures p < |KeyStream(encode, counter, n)|
    ensures KeyStream(encode, counter, n)[p] == encode(Advanced(counter, i))[j]
  {
    var lo, hi := i * |counter|, (i + 1) * |counter|;
    KeyStreamBlock(encode, counter, n, i);
    OneMoreBlock(i, |counter|);
    ByteOfSlice(KeyStream(encode, counter, n), lo, hi, j);
  }

  lemma ByteOfSlice(s: seq<byte>, lo: nat, hi: nat, j: nat)
    requires lo <= hi <= |s| && j < hi - lo
    ensures s[lo..hi][j] == s[lo + j]
  {
  }

  lemma BlockIsNeeded(i: nat, n: nat, size: nat, p: nat)
    requires i * size <= p < n * size
    ensures i < n
  {
    if i >= n {
      SizesInOrder(n, i, size);
    }
  }

  lemma SizesInOrder(n: nat, i: nat, size: nat)
    requires n <= i
    ensures n * size <= i * size
  {
    assert i * size == n * size + (i - n) * size;
  }

  /** Encoding again from the same counter restores the message. */
  lemma EncodedTwice(encode: Encoder, counter: seq<byte>, message: seq<byte>)
    requires |counter| > 0 && BlockEncoder(encode, |counter|)
    ensures Encoded(encode, counter, Encoded(encode, counter, message)) == message
  {
    XorAllTwice(message, KeyBytes(encode, counter, |message|));
  }

  /** Splitting a message at a block boundary makes no difference. */
  lemma EncodedSplit(encode: Encoder, counter: seq<byte>, blocks: nat, a: seq<byte>, b: seq<byte>)
    requires |counter| > 0 && BlockEncoder(encode, |counter|) && |a| == blocks * |counter|
    ensures Encoded(encode, counter, a + b)
            == Encoded(encode, counter, a) + Encoded(encode, Advanced(counter, blocks), b)
  {
    KeyBytesJoined(encode, counter, blocks, |a|, |b|);
    XorAllJoined(a, b, KeyBytes(encode, counter, |a|), KeyBytes(encode, Advanced(counter, blocks), |b|));
  }

  lemma XorAllJoined(a: seq<byte>, b: seq<byte>, s: seq<byte>, t: seq<byte>)
    requires |a| == |s| && |b| == |t|
    ensures XorAll(a + b, s + t) == XorAll(a, s) + XorAll(b, t)
  {
  }

  lemma KeyBytesJoined(encode: Encoder, counter: seq<byte>, blocks: nat, n: nat, m: nat)
    requires |counter| > 0 && BlockEncoder(encode, |counter|) && n == blocks * |counter|
    ensures KeyBytes(encode, counter, n + m)
            == KeyBytes(encode, counter, n) + KeyBytes(encode, Advanced(counter, blocks), m)
  {
    var size, later := |counter|, Advanced(counter, blocks);
    var whole, rest := KeyStream(encode, counter, blocks), KeyStream(encode, later, BlocksFor(m, size));
    KeyBytesOfWhole(encode, counter, blocks);
    BlocksOfWhole(blocks, m, size);
    KeyStreamJoined(encode, counter, blocks, BlocksFor(m, size));
    KeyStreamLength(encode, counter, blocks);
    EnoughBlocks(m, size);
    KeyStreamLength(encode, later, BlocksFor(m, size));
    FirstOfJoined(whole, rest, m);
  }

  lemma FirstOfJoined(s: seq<byte>, t: seq<byte>, m: nat)
    requires m <= |t|
    ensures (s + t)[..|s| + m] == s + t[..m]
  {
  }

  lemma {:induction false} KeyBytesOfWhole(encode: Encoder, start: seq<byte>, blocks: nat)
    requires 0 < |start| && BlockEncoder(encode, |start|)
    ensures BlocksFor(blocks * |start|, |start|) == blocks
    ensures KeyBytes(encode, start, blocks * |start|) == KeyStream(encode, start, blocks)
  {
    BlocksOfWhole(blocks, 0, |start|);
    KeyStreamLength(encode, start, blocks);
    AllOf(KeyStream(encode, start, blocks));
  }

  lemma AllOf(s: seq<byte>)
    ensures s[..|s|] == s
  {
  }

  /** The number of whole blocks in n bytes. */
  function WholeBlocks(n: nat, size: nat): (r: nat)
    requires size > 0
  {
    if n < size then 0 else 1 + WholeBlocks(n - size, size)
  }

  lemma {:induction false} WholeBlocksAfter(blocks: nat, rest: nat, size: nat)
    requires 0 < size
    ensures WholeBlocks(blocks * size + rest, size) == blocks + WholeBlocks(rest, size)
  {
    if blocks > 0 {
      WholeBlocksAfter(blocks - 1, rest, size);
      assert blocks * size == (blocks - 1) * size + size;
    }
  }

  /** The key stream for a message whose last block is cut short. */
  lemma {:induction false} KeyBytesOfPart(encode: Encoder, start: seq<byte>, blocks: nat, rest: nat)
    requires 0 < rest < |start| && BlockEncoder(encode, |start|)
    ensures KeyBytes(encode, start, blocks * |start| + rest)
            == KeyStream(encode, start, blocks) + encode(Advanced(start, blocks))[..rest]
  {
    BlocksOfWhole(blocks, rest, |start|);
    KeyStreamLength(encode, start, blocks);
    FirstOfJoined(KeyStream(encode, start, blocks), encode(Advanced(start, blocks)), rest);
  }

  // ----- calls that fail -----

  /** No call before the n-th one fails. */
  ghost predicate NoFailure(fails: nat -> bool, n: nat) {
    forall i: nat :: i < n ==> !fails(i)
  }

  /** Of n calls, r succeed before the first one that fails. */
  ghost predicate Reaches(fails: nat -> bool, n: nat, r: nat) {
    r <= n && NoFailure(fails, r) && (r < n ==> fails(r))
  }

  /** How many blocks _encode encodes when nothing fails. */
  function Needed(avail: nat, size: nat, flush: bool): nat
    requires size > 0
  {
    if flush then BlocksFor(avail, size) else WholeBlocks(avail, size)
  }

  /** Aborted stands for the assertion of unalloc. */
  datatype Outcome = Success | Failed | Aborted

  // ----- the encoder -----

  /** A buffer that hands out its bytes in chunks of any positive size. */
  class WvBuf {
    var data: seq<byte>
    const chunk: nat -> nat
    var calls: nat

    constructor (data: seq<byte>, chunk: nat -> nat)
      ensures this.data == data && this.chunk == chunk
    {
      this.data := data;
      this.chunk := chunk;
      calls := 0;
    }

    /** optpeekable, and optgettable for offset 0: the size of the contiguous chunk at the offset. */
    method ChunkAt(offset: nat) returns (n: nat)
      requires offset <= |data|
      modifies this`calls
      ensures n <= |data| - offset && (offset < |data| ==> 0 < n)
    {
      n := chunk(calls);
      calls := calls + 1;
      if n > |data| - offset {
        n := |data| - offset;
      }
      if n == 0 && offset < |data| {
        n := 1;
      }
    }

    method Get(n: nat) returns (s: seq<byte>)
      requires n <= |data|
      modifies this`data
      ensures s == old(data)[..n] && data == old(data)[n..]
    {
      s := data[..n];
      data := data[n..];
    }

    method Put(s: seq<byte>)
      modifies this`data
      ensures data == old(data) + s
    {
      data := data + s;
    }

    /** unalloc: fails its assertion when there is less than that. */
    method Unalloc(n: nat) returns (ok: bool)
      modifies this`data
      ensures ok == (n <= |old(data)|)
      ensures data == if ok then old(data)[..|old(data)| - n] else old(data)
    {
      ok := n <= |data|;
      if ok {
        data := data[..|data| - n];
      }
    }
  }

  /** incrcounter: increments bytes until one does not wrap to zero. */
  method IncrCounter(counter: array<byte>)
    modifies counter
    ensures counter[..] == Incremented(old(counter[..]))
  {
    ghost var was := counter[..];
    var i := 0;
    while i < counter.Length
      invariant 0 <= i <= counter.Length
      invariant Carried(was, counter[..], i)
    {
      if counter[i] == 255 {
        counter[i] := 0;
      } else {
        CarryEnds(was, counter[..], i);
        counter[i] := counter[i] + 1;
        return;
      }
      i := i + 1;
    }
    CarryEnds(was, counter[..], i);
  }

  /** The loop of _encode over the whole blocks: it stops where the encoder fails; call n of the encoder is for block
      n. What it leaves of the input is len. */
  method AppendWhole(encode: Encoder, fails: nat -> bool, counter: array<byte>, avail: nat, outbuf: WvBuf)
    returns (success: bool, len: nat, blocks: nat)
    requires counter.Length > 0
    modifies counter, outbuf`data
    ensures avail == blocks * counter.Length + len && success == (len < counter.Length)
    ensures NoFailure(fails, blocks) && (!success ==> fails(blocks))
    ensures Streaming(encode, old(counter[..]), old(outbuf.data), blocks, counter[..], outbuf.data)
  {
    ghost var start, before := counter[..], outbuf.data;
    success, len, blocks := true, avail, 0;
    assert before + [] == before;
    while len >= counter.Length
      invariant avail == blocks * counter.Length + len && success && NoFailure(fails, blocks)
      invariant Streaming(encode, start, before, blocks, counter[..], outbuf.data)
    {
      success := !fails(blocks);
      if !success {
        break;
      }
      AppendBlock(encode, counter, outbuf, start, before, blocks);
      OneMoreBlock(blocks, counter.Length);
      blocks := blocks + 1;
      len := len - counter.Length;
    }
  }

  /** One byte, and an encoder that always fails: nothing fails before the part of a block, and that does. */
  lemma LastBlockCanFail(size: nat)
    requires size > 1
    ensures var fails := (n: nat) => true;
            NoFailure(fails, WholeBlocks(1, size)) && !NoFailure(fails, Needed(1, size, true))
  {
    var fails := (n: nat) => true;
    assert Needed(1, size, true) == 1 && fails(0);
  }

  /** The output has grown by the key stream of so many blocks, and the counter has counted them. */
  ghost predicate Streaming(encode: Encoder, start: seq<byte>, before: seq<byte>, blocks: nat,
                            counter: seq<byte>, now: seq<byte>)
  {
    counter == Advanced(start, blocks) && now == before + KeyStream(encode, start, blocks)
  }

  /** One round of the loop. */
  method AppendBlock(encode: Encoder, counter: array<byte>, outbuf: WvBuf,
                     ghost start: seq<byte>, ghost before: seq<byte>, ghost blocks: nat)
    requires Streaming(encode, start, before, blocks, counter[..], outbuf.data)
    modifies counter, outbuf`data
    ensures Streaming(encode, start, before, blocks + 1, counter[..], outbuf.data)
  {
    Joined(before, KeyStream(encode, start, blocks), encode(counter[..]));
    outbuf.Put(encode(counter[..]));
    IncrCounter(counter);
  }

  lemma OneMoreBlock(blocks: nat, size: nat)
    ensures (blocks + 1) * size == blocks * size + size
  {
  }

  /** The number of values of a size_t; what is in memory is less. */
  const SIZES: nat := 0x1_0000_0000_0000_0000

  /** What comes of the key stream part of _encode, if it encodes so many blocks before a call fails, or all it needs:
      how it ends, how much of the input there is a key stream for, and what that and the counter are. */
  ghost predicate Streamed(encode: Encoder, start: seq<byte>, before: seq<byte>, avail: nat, flush: bool, blocks: nat,
                           outcome: Outcome, used: nat, counter: seq<byte>, now: seq<byte>)
    requires |start| > 0 && BlockEncoder(encode, |start|)
  {
    var size := |start|;
    var needed := Needed(avail, size, flush);
    && outcome == (if blocks == needed then Success else if blocks < WholeBlocks(avail, size) then Failed else Aborted)
    && used == (if blocks == needed && flush then avail else blocks * size) <= avail
    && counter == Advanced(start, blocks) && now == before + KeyBytes(encode, start, used)
  }

  /** The key stream part of _encode: appends whole blocks, and on flush a part of one more. Where the encoder fails it
      stops; but where it fails for the part, the amount to take off again is less than 0, which as a size_t is more
      than any buffer has. */
  method AppendKeyStream(encode: Encoder, fails: nat -> bool, counter: array<byte>, avail: nat, outbuf: WvBuf,
                         flush: bool)
    returns (outcome: Outcome, used: nat, blocks: nat)
    requires counter.Length > 0 && BlockEncoder(encode, counter.Length) && |outbuf.data| + avail < SIZES
    modifies counter, outbuf`data
    ensures Reaches(fails, Needed(avail, counter.Length, flush), blocks)
    ensures Streamed(encode, old(counter[..]), old(outbuf.data), avail, flush, blocks,
                     outcome, used, counter[..], outbuf.data)
  {
    ghost var start, before := counter[..], outbuf.data;
    var offset := |outbuf.data|;
    var success, len;
    success, len, blocks := AppendWhole(encode, fails, counter, avail, outbuf);
    StreamedWhole(encode, fails, start, before, avail, flush, blocks, len, counter[..], outbuf.data);
    outcome := if success then Success else Failed;
    if flush && len != 0 && success {
      success := !fails(blocks);
      if success {
        AppendPart(encode, counter, len, outbuf);
        StreamedPart(encode, fails, start, before, avail, blocks, len, counter[..], outbuf.data);
        len := 0;
        blocks := blocks + 1;
      } else {
        var ok := TakeOff(outbuf, offset, avail, len);
        outcome := if ok then Failed else Aborted;
      }
    }
    used := avail - len;
  }

  /** After the loop: what is left is a block, or part of one, or nothing. */
  lemma {:induction false} StreamedWhole(
    encode: Encoder, fails: nat -> bool, start: seq<byte>, before: seq<byte>, avail: nat, flush: bool, blocks: nat,
    len: nat, counter: seq<byte>, now: seq<byte>)
    requires NoFailure(fails, blocks) && (len >= |start| ==> fails(blocks))
    requires |start| > 0 && BlockEncoder(encode, |start|) && avail == blocks * |start| + len
    requires Streaming(encode, start, before, blocks, counter, now)
    ensures var outcome :=
              if len >= |start| then Failed else if flush && len > 0 then Aborted else Success;
            Streamed(encode, start, before, avail, flush, blocks, outcome, avail - len, counter, now)
    ensures len >= |start| || !flush || len == 0 || fails(blocks) ==>
              Reaches(fails, Needed(avail, |start|, flush), blocks)
    ensures |now| == |before| + blocks * |start|
  {
    WholeBlocksAfter(blocks, len, |start|);
    BlocksOfWhole(blocks, len, |start|);
    KeyBytesOfWhole(encode, start, blocks);
    KeyStreamLength(encode, start, blocks);
  }

  /** Encodes the counter, and takes off what is too much. */
  method AppendPart(encode: Encoder, counter: array<byte>, len: nat, outbuf: WvBuf)
    requires len < counter.Length && BlockEncoder(encode, counter.Length)
    modifies counter, outbuf`data
    ensures outbuf.data == old(outbuf.data) + encode(old(counter[..]))[..len]
    ensures counter[..] == Incremented(old(counter[..]))
  {
    ghost var before, block := outbuf.data, encode(counter[..]);
    outbuf.Put(encode(counter[..]));
    var _ := outbuf.Unalloc(counter.Length - len);
    FirstOfJoined(before, block, len);
    IncrCounter(counter);
  }

  lemma {:induction false} StreamedPart(
    encode: Encoder, fails: nat -> bool, start: seq<byte>, before: seq<byte>, avail: nat, blocks: nat, len: nat,
    counter: seq<byte>, now: seq<byte>)
    requires NoFailure(fails, blocks) && !fails(blocks)
    requires 0 < len < |start| && BlockEncoder(encode, |start|) && avail == blocks * |start| + len
    requires counter == Advanced(start, blocks + 1)
    requires now == before + KeyStream(encode, start, blocks) + encode(Advanced(start, blocks))[..len]
    ensures Streamed(encode, start, before, avail, true, blocks + 1, Success, avail, counter, now)
    ensures Reaches(fails, Needed(avail, |start|, true), blocks + 1)
  {
    BlocksOfWhole(blocks, len, |start|);
    KeyBytesOfPart(encode, start, blocks, len);
    Joined(before, KeyStream(encode, start, blocks), encode(Advanced(start, blocks))[..len]);
  }

  /** Takes off outbuf.used() - offset - avail bytes, which are less than none. */
  method TakeOff(outbuf: WvBuf, offset: nat, avail: nat, ghost len: nat) returns (ok: bool)
    requires len > 0 && |outbuf.data| + len == offset + avail < SIZES
    modifies outbuf`data
    ensures !ok && outbuf.data == old(outbuf.data)
  {
    ok := outbuf.Unalloc((|outbuf.data| - offset - avail) % SIZES);
  }

  /** A buffer with the first n bytes of the input mixed in from an offset on. */
  function Mixed(out: seq<byte>, offset: nat, input: seq<byte>, n: nat): (r: seq<byte>)
    requires n <= |input| && offset + n <= |out|
    ensures |r| == |out|
  {
    seq(|out|, k requires 0 <= k < |out| =>
      if offset <= k < offset + n then Xor(out[k], input[k - offset]) else out[k])
  }

  lemma MixedIn(out: seq<byte>, keys: seq<byte>, input: seq<byte>, n: nat)
    requires n == |keys| <= |input|
    ensures Mixed(out + keys, |out|, input, n) == out + XorAll(input[..n], keys)
  {
    forall k | 0 <= k < n
      ensures Mixed(out + keys, |out|, input, n)[|out| + k] == XorAll(input[..n], keys)[k]
    {
      XorCommutes(keys[k], input[k]);
    }
  }

  /** The inner loop: dataout is the chunk of the output buffer at the offset. */
  method MixChunk(outbuf: WvBuf, offset: nat, datain: seq<byte>, len: nat)
    requires len == |datain| && offset + len <= |outbuf.data|
    modifies outbuf`data
    ensures outbuf.data == Mixed(old(outbuf.data), offset, datain, len)
  {
    var i := 0;
    while i < len
      invariant 0 <= i <= len && |outbuf.data| == |old(outbuf.data)|
      invariant outbuf.data == Mixed(old(outbuf.data), offset, datain, i)
    {
      outbuf.data := outbuf.data[offset + i := Xor(outbuf.data[offset + i], datain[i])];
      i := i + 1;
    }
  }

  lemma MixedTwice(out: seq<byte>, offset: nat, input: seq<byte>, n: nat, m: nat)
    requires n + m <= |input| && offset + n + m <= |out|
    ensures Mixed(Mixed(out, offset, input, n), offset + n, input[n..], m) == Mixed(out, offset, input, n + m)
  {
  }

  lemma MixedOfPrefix(out: seq<byte>, offset: nat, input: seq<byte>, n: nat)
    requires n <= |input| && offset + n <= |out|
    ensures Mixed(out, offset, input[..n], n) == Mixed(out, offset, input, n)
  {
  }

  /** The second part of _encode: mixes the data into the key stream, chunk by chunk. */
  method MixData(inbuf: WvBuf, outbuf: WvBuf, start: nat, total: nat)
    requires inbuf != outbuf && total <= |inbuf.data| && start + total == |outbuf.data|
    modifies inbuf, outbuf
    ensures inbuf.data == old(inbuf.data)[total..]
    ensures outbuf.data == Mixed(old(outbuf.data), start, old(inbuf.data), total)
  {
    var offset, avail := start, total;
    ghost var out, input := outbuf.data, inbuf.data;
    while avail > 0
      invariant 0 <= avail <= total && (avail > 0 ==> offset == start + (total - avail))
      invariant Mixing(out, input, start, total - avail, outbuf.data, inbuf.data)
    {
      offset, avail := MixOne(inbuf, outbuf, offset, avail, out, input, start, total - avail);
    }
  }

  /** So many bytes of the input are mixed in, and taken. */
  ghost predicate Mixing(out: seq<byte>, input: seq<byte>, start: nat, done: nat, now: seq<byte>, rest: seq<byte>) {
    && done <= |input| && start + done <= |out|
    && now == Mixed(out, start, input, done) && rest == input[done..]
  }

  /** One round of the loop: mixes in what is contiguous in both buffers. */
  method MixOne(inbuf: WvBuf, outbuf: WvBuf, offset: nat, avail: nat,
                ghost out: seq<byte>, ghost input: seq<byte>, ghost start: nat, ghost done: nat)
    returns (offset': nat, avail': nat)
    requires inbuf != outbuf && 0 < avail && done + avail <= |input|
    requires offset == start + done && offset + avail == |outbuf.data|
    requires Mixing(out, input, start, done, outbuf.data, inbuf.data)
    modifies inbuf, outbuf
    ensures avail' < avail && (avail' > 0 ==> offset' == offset + (avail - avail'))
    ensures Mixing(out, input, start, done + (avail - avail'), outbuf.data, inbuf.data)
  {
    offset', avail' := offset, avail;
    var len := outbuf.ChunkAt(offset);
    var lenopt := inbuf.ChunkAt(0);
    if len > lenopt {
      len := lenopt;
    }
    MixedMore(out, input, start, done, outbuf.data, inbuf.data, len);
    var datain := inbuf.Get(len);
    if len >= avail {
      len := avail;
      avail' := 0;
    } else {
      avail' := avail - len;
      offset' := offset + len;
    }
    MixChunk(outbuf, offset, datain, len);
  }

  lemma MixedMore(out: seq<byte>, input: seq<byte>, start: nat, done: nat, now: seq<byte>, rest: seq<byte>, len: nat)
    requires Mixing(out, input, start, done, now, rest) && done + len <= |input| && start + done + len <= |out|
    ensures Mixing(out, input, start, done + len, Mixed(now, start + done, rest[..len], len), rest[len..])
  {
    MixedOfPrefix(now, start + done, rest, len);
    MixedTwice(out, start, input, done, len);
  }

  /** _encode: consumes all the input on flush, and the largest whole number of blocks otherwise; if the encoder fails,
      what was encoded by then. The assertion fails exactly if the encoder fails for the first time for a last block
      that is cut short. */
  method Encode(encode: Encoder, fails: nat -> bool, counter: array<byte>, inbuf: WvBuf, outbuf: WvBuf, flush: bool)
    returns (outcome: Outcome, used: nat, blocks: nat)
    requires inbuf != outbuf && counter.Length > 0 && BlockEncoder(encode, counter.Length)
    requires |outbuf.data| + |inbuf.data| < SIZES
    modifies counter, inbuf, outbuf
    ensures var avail, size := |old(inbuf.data)|, counter.Length;
            var needed := Needed(avail, size, flush);
            && Reaches(fails, needed, blocks)
            && (outcome == Success <==> NoFailure(fails, needed))
            && (outcome == Aborted <==> !NoFailure(fails, needed) && NoFailure(fails, WholeBlocks(avail, size)))
            && used == if outcome == Success && flush then avail else blocks * size
    ensures counter[..] == Advanced(old(counter[..]), blocks)
    ensures used <= |old(inbuf.data)|
    ensures outcome != Aborted ==>
              && inbuf.data == old(inbuf.data)[used..]
              && outbuf.data == old(outbuf.data) + Encoded(encode, old(counter[..]), old(inbuf.data)[..used])
    ensures outcome == Aborted ==> inbuf.data == old(inbuf.data)
  {
    ghost var start, before, input := counter[..], outbuf.data, inbuf.data;
    var offset := |outbuf.data|;
    outcome, used, blocks := AppendKeyStream(encode, fails, counter, |inbuf.data|, outbuf, flush);
    if outcome == Aborted {
      return;
    }
    MixedIn(before, KeyBytes(encode, start, used), input, used);
    MixData(inbuf, outbuf, offset, used);
  }
}
