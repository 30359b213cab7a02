/** Buffers as (address, size) descriptors over one memory, and the byte sequence that a
    list of buffers stands for. */
module Buffers {

  type Byte = b: int | 0 <= b < 256

  /** asio::mutable_buffer and asio::const_buffer. */
  datatype Buffer = Buffer(data: nat, size: nat)

  const EMPTY := Buffer(0, 0)

  function Min(a: nat, b: nat): nat { if a < b then a else b }

  /** operator+(b, start) */
  function Plus(b: Buffer, start: nat): (rest: Buffer)
    ensures rest.size == if start < b.size then b.size - start else 0
  {
    if start > b.size then EMPTY else Buffer(b.data + start, b.size - start)
  }

  /** buffer(b, max_size_in_bytes) */
  function Limited(b: Buffer, max: nat): Buffer {
    Buffer(b.data, if b.size < max then b.size else max)
  }

  // ---------- the flattened sequence ----------

  /** How many bytes the first i blocks hold. */
  function Before(bs: seq<Buffer>, i: nat): nat
    requires i <= |bs|
  {
    if i == 0 then 0 else Before(bs, i - 1) + bs[i - 1].size
  }

  function Total(bs: seq<Buffer>): nat {
    Before(bs, |bs|)
  }

  lemma {:induction false} BeforeMonotone(bs: seq<Buffer>, i: nat, j: nat)
    requires i <= j <= |bs|
    ensures Before(bs, i) <= Before(bs, j)
    decreases j
  {
    if i < j {
      BeforeMonotone(bs, i, j - 1);
    }
  }

  /** The addresses of a block, in order. */
  function BlockAddresses(b: Buffer): (at: seq<nat>)
    ensures |at| == b.size
    ensures forall i | 0 <= i < |at| :: at[i] == b.data + i
    decreases b.size
  {
    if b.size == 0 then [] else BlockAddresses(Buffer(b.data, b.size - 1)) + [b.data + b.size - 1]
  }

  /** The addresses of the bytes of the first i blocks, in order. */
  function AddressesTo(bs: seq<Buffer>, i: nat): (at: seq<nat>)
    requires i <= |bs|
    ensures |at| == Before(bs, i)
  {
    if i == 0 then [] else AddressesTo(bs, i - 1) + BlockAddresses(bs[i - 1])
  }

  function Addresses(bs: seq<Buffer>): (at: seq<nat>)
    ensures |at| == Total(bs)
  {
    AddressesTo(bs, |bs|)
  }

  lemma {:induction false} AddressesPrefix(bs: seq<Buffer>, i: nat, j: nat)
    requires i <= j <= |bs|
    ensures AddressesTo(bs, i) <= AddressesTo(bs, j)
    decreases j
  {
    if i < j {
      AddressesPrefix(bs, i, j - 1);
    }
  }

  predicate Fits(bs: seq<Buffer>, memory: nat) {
    forall i | 0 <= i < |bs| :: bs[i].data + bs[i].size <= memory
  }

  predicate InRange(at: seq<nat>, memory: nat) {
    forall i | 0 <= i < |at| :: at[i] < memory
  }

  lemma {:induction false} AddressesFit(bs: seq<Buffer>, i: nat, memory: nat)
    requires i <= |bs| && Fits(bs, memory)
    ensures InRange(AddressesTo(bs, i), memory)
  {
    if i != 0 {
      AddressesFit(bs, i - 1, memory);
    }
  }

  /** The bytes of the first i blocks, in order. */
  function FlatTo(m: seq<Byte>, bs: seq<Buffer>, i: nat): (bytes: seq<Byte>)
    requires i <= |bs| && Fits(bs, |m|)
    ensures |bytes| == Before(bs, i)
  {
    if i == 0 then [] else FlatTo(m, bs, i - 1) + m[bs[i - 1].data..bs[i - 1].data + bs[i - 1].size]
  }

  /** What the program means by the bytes of a buffer sequence. */
  function Flat(m: seq<Byte>, bs: seq<Buffer>): (bytes: seq<Byte>)
    requires Fits(bs, |m|)
    ensures |bytes| == Total(bs)
  {
    FlatTo(m, bs, |bs|)
  }

  lemma {:induction false} FlatPrefix(m: seq<Byte>, bs: seq<Buffer>, i: nat, j: nat)
    requires i <= j <= |bs| && Fits(bs, |m|)
    ensures FlatTo(m, bs, i) <= FlatTo(m, bs, j)
    decreases j
  {
    if i < j {
      FlatPrefix(m, bs, i, j - 1);
    }
  }

  lemma LastBlockAt(m: seq<Byte>, bs: seq<Buffer>, i: nat, x: nat)
    requires 0 < i <= |bs| && Fits(bs, |m|) && Before(bs, i - 1) <= x < Before(bs, i)
    ensures var a := bs[i - 1].data + x - Before(bs, i - 1);
      AddressesTo(bs, i)[x] == a < |m| && FlatTo(m, bs, i)[x] == m[a]
  {
    var b := bs[i - 1];
    assert FlatTo(m, bs, i)[x] == m[b.data..b.data + b.size][x - Before(bs, i - 1)];
  }

  /** The flattened bytes are the memory at the flattened addresses. */
  lemma {:induction false} FlatAt(m: seq<Byte>, bs: seq<Buffer>, i: nat, x: nat)
    requires i <= |bs| && Fits(bs, |m|) && x < Before(bs, i)
    ensures AddressesTo(bs, i)[x] < |m| && FlatTo(m, bs, i)[x] == m[AddressesTo(bs, i)[x]]
  {
    hide AddressesTo, FlatTo;
    if x < Before(bs, i - 1) {
      FlatAt(m, bs, i - 1, x);
      FlatPrefix(m, bs, i - 1, i);
      AddressesPrefix(bs, i - 1, i);
    } else {
      LastBlockAt(m, bs, i, x);
    }
  }

  /** Byte `off` of block `i` is byte Before(bs, i) + off of the whole. */
  lemma AddressAt(bs: seq<Buffer>, i: nat, off: nat)
    requires i < |bs| && off < bs[i].size
    ensures Before(bs, i) + off < Total(bs)
    ensures Addresses(bs)[Before(bs, i) + off] == bs[i].data + off
  {
    AddressesPrefix(bs, i + 1, |bs|);
    assert AddressesTo(bs, i + 1)[Before(bs, i) + off] == BlockAddresses(bs[i])[off];
  }

  lemma SliceOfSlice<T>(s: seq<T>, a: nat, b: nat, i: nat, j: nat)
    requires a <= b <= |s| && i <= j <= b - a
    ensures s[a..b][i..j] == s[a + i..a + j]
  {
    var block := s[a..b];
    forall k | 0 <= k < j - i
      ensures block[i..j][k] == s[a + i..a + j][k]
    {
      assert block[i..j][k] == block[i + k] == s[a + i + k];
    }
  }

  /** buffer_size over a buffer sequence. */
  method BufferSize(bs: seq<Buffer>) returns (total: nat)
    ensures total == |Addresses(bs)|
  {
    total := 0;
    for i := 0 to |bs|
      invariant total == Before(bs, i)
    {
      total := total + bs[i].size;
    }
  }
}
