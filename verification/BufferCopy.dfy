/** The looping forms of buffer_copy, which write memory in place. */
module BufferCopy {
  import opened Wrappers
  import opened Buffers

  // ---------- writing bytes to addresses ----------

  /** The memory after the bytes of `data` have been written to the addresses `at`, first to last. */
  function Scatter(m: seq<Byte>, at: seq<nat>, data: seq<Byte>): (m': seq<Byte>)
    requires |at| == |data| && InRange(at, |m|)
    ensures |m'| == |m|
  {
    if at == [] then m
    else
      var n := |at| - 1;
      Scatter(m, at[..n], data[..n])[at[n] := data[n]]
  }

  lemma {:induction false} ScatterAppend(m: seq<Byte>, a: seq<nat>, b: seq<nat>, d: seq<Byte>, e: seq<Byte>)
    requires |a| == |d| && |b| == |e| && InRange(a, |m|) && InRange(b, |m|)
    ensures Scatter(m, a + b, d + e) == Scatter(Scatter(m, a, d), b, e)
  {
    if b == [] {
      assert a + b == a && d + e == d;
    } else {
      var n := |b| - 1;
      assert (a + b)[..|a| + n] == a + b[..n];
      assert (d + e)[..|d| + n] == d + e[..n];
      ScatterAppend(m, a, b[..n], d, e[..n]);
    }
  }

  /** An address that is not written keeps its byte. */
  lemma {:induction false} ScatterFrame(m: seq<Byte>, at: seq<nat>, data: seq<Byte>, a: nat)
    requires |at| == |data| && InRange(at, |m|) && a < |m| && a !in at
    ensures Scatter(m, at, data)[a] == m[a]
  {
    if at != [] {
      var n := |at| - 1;
      ScatterFrame(m, at[..n], data[..n], a);
    }
  }

  predicate AllDifferent(at: seq<nat>) {
    forall j, k | 0 <= j < |at| && 0 <= k < |at| && j != k :: at[j] != at[k]
  }

  /** Addresses that are all different hold the data afterwards. */
  lemma {:induction false} ScatterAt(m: seq<Byte>, at: seq<nat>, data: seq<Byte>, i: nat)
    requires |at| == |data| && InRange(at, |m|) && i < |at|
    requires AllDifferent(at)
    ensures Scatter(m, at, data)[at[i]] == data[i]
  {
    var n := |at| - 1;
    if i < n {
      ScatterAt(m, at[..n], data[..n], i);
    }
  }

  lemma {:induction false} ScatterBlock(m: seq<Byte>, b: Buffer, data: seq<Byte>)
    requires b.data + b.size <= |m| && |data| == b.size
    ensures Scatter(m, BlockAddresses(b), data) == m[..b.data] + data + m[b.data + b.size..]
    decreases b.size
  {
    if b.size != 0 {
      var n := b.size - 1;
      assert BlockAddresses(b)[..n] == BlockAddresses(Buffer(b.data, n));
      ScatterBlock(m, Buffer(b.data, n), data[..n]);
    }
  }

  // ---------- what a copy does ----------

  /** Two blocks share no byte. */
  predicate Separate(a: Buffer, b: Buffer) {
    a.size == 0 || b.size == 0 || a.data + a.size <= b.data || b.data + b.size <= a.data
  }

  predicate Covers(b: Buffer, address: nat) {
    b.data <= address < b.data + b.size
  }

  lemma SeparateMeans(a: Buffer, b: Buffer)
    ensures Separate(a, b) <==> !exists x :: Covers(a, x) && Covers(b, x)
  {
    if !Separate(a, b) {
      var x := if a.data < b.data then b.data else a.data;
      assert Covers(a, x) && Covers(b, x);
    }
  }

  /** No target block overlaps a source block: memcpy demands it. */
  predicate Apart(ts: seq<Buffer>, ss: seq<Buffer>) {
    forall i, j | 0 <= i < |ts| && 0 <= j < |ss| :: Separate(ts[i], ss[j])
  }

  /** No two target blocks overlap. */
  predicate SelfApart(ts: seq<Buffer>) {
    forall i, j | 0 <= i < j < |ts| :: Separate(ts[i], ts[j])
  }

  /** The memory after the first n bytes of the source have gone to the first n bytes of the target. */
  function Copied(m: seq<Byte>, ts: seq<Buffer>, ss: seq<Buffer>, n: nat): (m': seq<Byte>)
    requires Fits(ts, |m|) && Fits(ss, |m|) && n <= Total(ts) && n <= Total(ss)
    ensures |m'| == |m|
  {
    AddressesFit(ts, |ts|, |m|);
    Scatter(m, Addresses(ts)[..n], Flat(m, ss)[..n])
  }

  /** Block i at offset off is where byte n of a buffer sequence lies, or would lie. */
  predicate Cursor(bs: seq<Buffer>, i: nat, off: nat, n: nat) {
    && i <= |bs|
    && (if i < |bs| then off <= bs[i].size else off == 0)
    && n == Before(bs, i) + off
  }

  lemma CursorAdvances(bs: seq<Buffer>, i: nat, off: nat, n: nat, k: nat)
    requires i < |bs| && Cursor(bs, i, off, n) && off + k <= bs[i].size
    ensures Cursor(bs, i, off + k, n + k) && n + k <= Total(bs)
    ensures off + k == bs[i].size ==> Cursor(bs, i + 1, 0, n + k)
  {
    BeforeMonotone(bs, i + 1, |bs|);
  }

  /** A range inside block i extends the flattened addresses up to it. */
  lemma AddressRange(bs: seq<Buffer>, i: nat, off: nat, n: nat, k: nat)
    requires i < |bs| && Cursor(bs, i, off, n) && off + k <= bs[i].size
    ensures n + k <= Total(bs)
    ensures Addresses(bs)[..n + k] == Addresses(bs)[..n] + BlockAddresses(Buffer(bs[i].data + off, k))
  {
    AddressesPrefix(bs, i + 1, |bs|);
    hide AddressesTo, Before;
    var block := BlockAddresses(bs[i]);
    PrefixPieces(Addresses(bs), AddressesTo(bs, i), block, off, k);
    assert block[off..off + k] == BlockAddresses(Buffer(bs[i].data + off, k));
  }

  lemma PrefixPieces<T>(all: seq<T>, first: seq<T>, block: seq<T>, off: nat, k: nat)
    requires first + block <= all && off + k <= |block|
    ensures all[..|first| + off + k] == all[..|first| + off] + block[off..off + k]
  {
    var n := |first| + off;
    assert all[..n + k] == (first + block)[..n + k] == first + block[..off + k];
    assert all[..n] == (first + block)[..n] == first + block[..off];
    assert block[..off + k] == block[..off] + block[off..off + k];
  }

  lemma FlatRange(m: seq<Byte>, bs: seq<Buffer>, i: nat, off: nat, n: nat, k: nat)
    requires Fits(bs, |m|)
    requires i < |bs| && Cursor(bs, i, off, n) && off + k <= bs[i].size
    ensures n + k <= Total(bs) && bs[i].data + off + k <= |m|
    ensures Flat(m, bs)[..n + k] == Flat(m, bs)[..n] + m[bs[i].data + off..bs[i].data + off + k]
  {
    FlatPrefix(m, bs, i + 1, |bs|);
    hide FlatTo, Before;
    var block := m[bs[i].data..bs[i].data + bs[i].size];
    PrefixPieces(Flat(m, bs), FlatTo(m, bs, i), block, off, k);
    SliceOfSlice(m, bs[i].data, bs[i].data + bs[i].size, off, off + k);
  }

  lemma {:induction false} AddressInBlock(bs: seq<Buffer>, n: nat, a: nat)
    requires n <= |bs| && a in AddressesTo(bs, n)
    ensures exists i :: 0 <= i < n && bs[i].data <= a < bs[i].data + bs[i].size
  {
    if a in BlockAddresses(bs[n - 1]) {
      assert bs[n - 1].data <= a < bs[n - 1].data + bs[n - 1].size;
    } else {
      AddressInBlock(bs, n - 1, a);
    }
  }

  /** A block that is apart from every target keeps its bytes. */
  lemma SourceKept(m: seq<Byte>, ts: seq<Buffer>, ss: seq<Buffer>, n: nat, b: Buffer)
    requires Fits(ts, |m|) && Fits(ss, |m|) && n <= Total(ts) && n <= Total(ss)
    requires b.data + b.size <= |m| && forall i | 0 <= i < |ts| :: Separate(ts[i], b)
    ensures Copied(m, ts, ss, n)[b.data..b.data + b.size] == m[b.data..b.data + b.size]
  {
    AddressesFit(ts, |ts|, |m|);
    var m' := Copied(m, ts, ss, n);
    forall a | b.data <= a < b.data + b.size
      ensures m'[a] == m[a]
    {
      if a in Addresses(ts) {
        AddressInBlock(ts, |ts|, a);
      }
      ScatterFrame(m, Addresses(ts)[..n], Flat(m, ss)[..n], a);
    }
  }

  lemma SourceRangeKept(m: seq<Byte>, ts: seq<Buffer>, ss: seq<Buffer>, n: nat, j: nat, from: nat, k: nat)
    requires Fits(ts, |m|) && Fits(ss, |m|) && Apart(ts, ss) && n <= Total(ts) && n <= Total(ss)
    requires j < |ss| && ss[j].data <= from && from + k <= ss[j].data + ss[j].size
    ensures Copied(m, ts, ss, n)[from..from + k] == m[from..from + k]
  {
    forall i | 0 <= i < |ts|
      ensures Separate(ts[i], Buffer(from, k))
    {
      assert Separate(ts[i], ss[j]);
    }
    SourceKept(m, ts, ss, n, Buffer(from, k));
  }

  lemma ScatterMore(m: seq<Byte>, at: seq<nat>, data: seq<Byte>, n: nat, to: seq<nat>, piece: seq<Byte>)
    requires InRange(at, |m|) && |to| == |piece| && n + |to| <= |at| && n + |to| <= |data|
    requires at[..n + |to|] == at[..n] + to && data[..n + |to|] == data[..n] + piece
    ensures InRange(to, |m|)
    ensures Scatter(m, at[..n + |to|], data[..n + |to|]) == Scatter(Scatter(m, at[..n], data[..n]), to, piece)
  {
    forall i | 0 <= i < |to|
      ensures to[i] < |m|
    {
      assert to[i] == (at[..n] + to)[n + i] == at[n + i];
    }
    ScatterAppend(m, at[..n], to, data[..n], piece);
  }

  /** Copying a further range of source block j to a range of target block i extends the copy. */
  lemma ExtendCopy(m: seq<Byte>, ts: seq<Buffer>, ss: seq<Buffer>, n: nat, i: nat, toff: nat, j: nat, soff: nat,
                   to: Buffer, from: nat)
    requires Fits(ts, |m|) && Fits(ss, |m|) && Apart(ts, ss)
    requires i < |ts| && toff + to.size <= ts[i].size && Cursor(ts, i, toff, n)
    requires j < |ss| && soff + to.size <= ss[j].size && Cursor(ss, j, soff, n)
    requires to.data == ts[i].data + toff && from == ss[j].data + soff
    requires n <= Total(ts) && n <= Total(ss)
    ensures n + to.size <= Total(ts) && n + to.size <= Total(ss)
    ensures to.data + to.size <= |m| && from + to.size <= |m|
    ensures Copied(m, ts, ss, n + to.size) ==
      Scatter(Copied(m, ts, ss, n), BlockAddresses(to), Copied(m, ts, ss, n)[from..from + to.size])
  {
    hide Scatter, AddressesTo, FlatTo, Before, BlockAddresses;
    AddressRange(ts, i, toff, n, to.size);
    FlatRange(m, ss, j, soff, n, to.size);
    SourceRangeKept(m, ts, ss, n, j, from, to.size);
    AddressesFit(ts, |ts|, |m|);
    ScatterMore(m, Addresses(ts), Flat(m, ss), n, BlockAddresses(to), m[from..from + to.size]);
  }

  // ---------- the methods ----------

  /** memcpy */
  method MemCpy(memory: array<Byte>, to: nat, from: nat, n: nat)
    requires to + n <= memory.Length && from + n <= memory.Length
    requires Separate(Buffer(to, n), Buffer(from, n))
    modifies memory
    ensures memory[..] == Scatter(old(memory[..]), BlockAddresses(Buffer(to, n)), old(memory[from..from + n]))
  {
    hide Scatter, BlockAddresses;
    forall i | to <= i < to + n {
      memory[i] := memory[from + (i - to)];
    }
    ghost var m := old(memory[..]);
    assert memory[..] == m[..to] + m[from..from + n] + m[to + n..];
    ScatterBlock(old(memory[..]), Buffer(to, n), old(memory[from..from + n]));
  }

  /** buffer_copy(mutable_buffer, const_buffer) */
  method CopyBlock(memory: array<Byte>, target: Buffer, source: Buffer) returns (n: nat)
    requires target.data + target.size <= memory.Length && source.data + source.size <= memory.Length
    requires Separate(target, source)
    modifies memory
    ensures n == Min(target.size, source.size)
    ensures memory[..] == Scatter(old(memory[..]), BlockAddresses(Buffer(target.data, n)),
                                  old(memory[source.data..source.data + n]))
  {
    hide Scatter, BlockAddresses;
    var targetSize, sourceSize := target.size, source.size;
    n := if targetSize < sourceSize then targetSize else sourceSize;
    MemCpy(memory, target.data, source.data, n);
  }

  /** buffer_copy(mutable_buffer, const_buffer, max) */
  method CopyBlockLimited(memory: array<Byte>, target: Buffer, source: Buffer, max: nat) returns (n: nat)
    requires target.data + target.size <= memory.Length && source.data + source.size <= memory.Length
    requires Separate(target, source)
    modifies memory
    ensures n == Min(max, Min(target.size, source.size))
    ensures memory[..] == Scatter(old(memory[..]), BlockAddresses(Buffer(target.data, n)),
                                  old(memory[source.data..source.data + n]))
  {
    hide Scatter, BlockAddresses;
    n := CopyBlock(memory, Limited(target, max), source);
  }

  /** The state of the loop of a copy: `now` is `m` after n bytes, and both cursors are at byte n. */
  ghost predicate Progress(m: seq<Byte>, now: seq<Byte>, ts: seq<Buffer>, ss: seq<Buffer>,
                           i: nat, toff: nat, j: nat, soff: nat, n: nat) {
    && Fits(ts, |m|) && Fits(ss, |m|) && Apart(ts, ss)
    && n <= Total(ts) && n <= Total(ss)
    && Cursor(ts, i, toff, n) && Cursor(ss, j, soff, n)
    && now == Copied(m, ts, ss, n)
  }

  function Capped(limit: Option<nat>, n: nat): nat {
    match limit
    case None => n
    case Some(max) => Min(max, n)
  }

  /** Copies what source block j at soff and target block i at toff have in common, up to the limit. */
  method CopyRange(memory: array<Byte>, ghost m: seq<Byte>, ts: seq<Buffer>, ss: seq<Buffer>, ghost total: nat,
                   i: nat, toff: nat, j: nat, soff: nat, limit: Option<nat>) returns (n: nat)
    requires Progress(m, memory[..], ts, ss, i, toff, j, soff, total) && i < |ts| && j < |ss|
    modifies memory
    ensures n == Capped(limit, Min(Plus(ts[i], toff).size, Plus(ss[j], soff).size))
    ensures total + n <= Total(ts) && total + n <= Total(ss) && memory[..] == Copied(m, ts, ss, total + n)
  {
    hide Scatter, AddressesTo, FlatTo, Before, BlockAddresses;
    assert Separate(ts[i], ss[j]);
    match limit {
      case None => n := CopyBlock(memory, Plus(ts[i], toff), Plus(ss[j], soff));
      case Some(max) => n := CopyBlockLimited(memory, Plus(ts[i], toff), Plus(ss[j], soff), max);
    }
    ExtendCopy(m, ts, ss, total, i, toff, j, soff, Buffer(ts[i].data + toff, n), ss[j].data + soff);
  }

  /** Where the iterator and the offset into its block go after k bytes. */
  method Advance(bs: seq<Buffer>, i: nat, off: nat, ghost n: nat, k: nat) returns (i': nat, off': nat)
    requires i < |bs| && Cursor(bs, i, off, n) && k <= Plus(bs[i], off).size
    ensures Cursor(bs, i', off', n + k)
    ensures i' == if k == Plus(bs[i], off).size then i + 1 else i
  {
    CursorAdvances(bs, i, off, n, k);
    if k == Plus(bs[i], off).size {
      i', off' := i + 1, 0;
    } else {
      i', off' := i, off + k;
    }
  }

  /** One round of the loop. */
  method CopyRound(memory: array<Byte>, ghost m: seq<Byte>, ts: seq<Buffer>, ss: seq<Buffer>, ghost total: nat,
                   i: nat, toff: nat, j: nat, soff: nat, limit: Option<nat>)
    returns (n: nat, i': nat, toff': nat, j': nat, soff': nat)
    requires Progress(m, memory[..], ts, ss, i, toff, j, soff, total) && i < |ts| && j < |ss|
    modifies memory
    ensures Progress(m, memory[..], ts, ss, i', toff', j', soff', total + n)
    ensures i <= i' <= |ts| && j <= j' <= |ss|
    ensures limit.Some? ==> n <= limit.value
    ensures i < i' || j < j' || (limit.Some? && n == limit.value)
  {
    hide Copied, Before;
    n := CopyRange(memory, m, ts, ss, total, i, toff, j, soff, limit);
    i', toff' := Advance(ts, i, toff, total, n);
    j', soff' := Advance(ss, j, soff, total, n);
  }

  lemma ProgressStarts(m: seq<Byte>, ts: seq<Buffer>, ss: seq<Buffer>)
    requires Fits(ts, |m|) && Fits(ss, |m|) && Apart(ts, ss)
    ensures Progress(m, m, ts, ss, 0, 0, 0, 0, 0)
  {
  }

  lemma ProgressEnds(m: seq<Byte>, now: seq<Byte>, ts: seq<Buffer>, ss: seq<Buffer>,
                     i: nat, toff: nat, j: nat, soff: nat, n: nat)
    requires Progress(m, now, ts, ss, i, toff, j, soff, n)
    ensures n <= Total(ts) && n <= Total(ss) && now == Copied(m, ts, ss, n)
    ensures i == |ts| ==> n == Total(ts)
    ensures j == |ss| ==> n == Total(ss)
  {
  }

  /** buffer_copy(MutableBufferSequence, ConstBufferSequence, max) */
  method CopySequencesLimited(memory: array<Byte>, ts: seq<Buffer>, ss: seq<Buffer>, max: nat) returns (total: nat)
    requires Fits(ts, memory.Length) && Fits(ss, memory.Length) && Apart(ts, ss)
    modifies memory
    ensures total == Min(max, Min(Total(ts), Total(ss)))
    ensures memory[..] == Copied(old(memory[..]), ts, ss, total)
  {
    hide Progress, Copied, Before;
    ghost var m := memory[..];
    total := 0;
    var ti: nat, targetOffset: nat, si: nat, sourceOffset: nat := 0, 0, 0, 0;
    ProgressStarts(m, ts, ss);
    while total != max && ti != |ts| && si != |ss|
      invariant Progress(m, memory[..], ts, ss, ti, targetOffset, si, sourceOffset, total)
      invariant total <= max && ti <= |ts| && si <= |ss|
      decreases |ts| - ti + |ss| - si, max - total
    {
      var n;
      n, ti, targetOffset, si, sourceOffset :=
        CopyRound(memory, m, ts, ss, total, ti, targetOffset, si, sourceOffset, Some(max - total));
      total := total + n;
    }
    ProgressEnds(m, memory[..], ts, ss, ti, targetOffset, si, sourceOffset, total);
  }

  /** buffer_copy(MutableBufferSequence, ConstBufferSequence) */
  method CopySequences(memory: array<Byte>, ts: seq<Buffer>, ss: seq<Buffer>) returns (total: nat)
    requires Fits(ts, memory.Length) && Fits(ss, memory.Length) && Apart(ts, ss)
    modifies memory
    ensures total == Min(Total(ts), Total(ss))
    ensures memory[..] == Copied(old(memory[..]), ts, ss, total)
  {
    hide Progress, Copied, Before;
    ghost var m := memory[..];
    total := 0;
    var ti: nat, targetOffset: nat, si: nat, sourceOffset: nat := 0, 0, 0, 0;
    ProgressStarts(m, ts, ss);
    while ti != |ts| && si != |ss|
      invariant Progress(m, memory[..], ts, ss, ti, targetOffset, si, sourceOffset, total)
      invariant ti <= |ts| && si <= |ss|
      decreases |ts| - ti + |ss| - si
    {
      var n;
      n, ti, targetOffset, si, sourceOffset :=
        CopyRound(memory, m, ts, ss, total, ti, targetOffset, si, sourceOffset, None);
      total := total + n;
    }
    ProgressEnds(m, memory[..], ts, ss, ti, targetOffset, si, sourceOffset, total);
  }

  // ---------- one buffer on one side ----------

  lemma OneBuffer(b: Buffer, n: nat)
    requires n <= b.size
    ensures Before([b], 0) == 0 && Total([b]) == b.size && Cursor([b], 0, n, n)
  {
    assert Before([b], 1) == Before([b], 0) + b.size;
  }

  /** buffer_copy(mutable_buffer, ConstBufferSequence) */
  method CopyFromSequence(memory: array<Byte>, target: Buffer, ss: seq<Buffer>) returns (total: nat)
    requires target.data + target.size <= memory.Length && Fits(ss, memory.Length) && Apart([target], ss)
    modifies memory
    ensures total == Min(Total([target]), Total(ss))
    ensures memory[..] == Copied(old(memory[..]), [target], ss, total)
  {
    hide Copied, Before;
    ghost var m := memory[..];
    total := 0;
    var j, targetBuffer := 0, target;
    ProgressStarts(m, [target], ss);
    OneBuffer(target, 0);
    while targetBuffer.size != 0 && j != |ss|
      invariant j <= |ss| && total <= target.size && total <= Total(ss)
      invariant targetBuffer == Plus(target, total)
      invariant memory[..] == Copied(m, [target], ss, total)
      invariant targetBuffer.size != 0 ==> Cursor(ss, j, 0, total)
    {
      OneBuffer(target, total);
      var n := CopyRange(memory, m, [target], ss, total, 0, total, j, 0, None);
      CursorAdvances(ss, j, 0, total, n);
      total := total + n;
      targetBuffer := Plus(targetBuffer, n);
      j := j + 1;
    }
    OneBuffer(target, total);
  }

  /** buffer_copy(MutableBufferSequence, const_buffer) */
  method CopyToSequence(memory: array<Byte>, ts: seq<Buffer>, source: Buffer) returns (total: nat)
    requires source.data + source.size <= memory.Length && Fits(ts, memory.Length) && Apart(ts, [source])
    modifies memory
    ensures total == Min(Total(ts), Total([source]))
    ensures memory[..] == Copied(old(memory[..]), ts, [source], total)
  {
    hide Copied, Before;
    ghost var m := memory[..];
    total := 0;
    var i, sourceBuffer := 0, source;
    ProgressStarts(m, ts, [source]);
    OneBuffer(source, 0);
    while sourceBuffer.size != 0 && i != |ts|
      invariant i <= |ts| && total <= source.size && total <= Total(ts)
      invariant sourceBuffer == Plus(source, total)
      invariant memory[..] == Copied(m, ts, [source], total)
      invariant sourceBuffer.size != 0 ==> Cursor(ts, i, 0, total)
    {
      OneBuffer(source, total);
      var n := CopyRange(memory, m, ts, [source], total, i, 0, 0, total, None);
      CursorAdvances(ts, i, 0, total, n);
      total := total + n;
      sourceBuffer := Plus(sourceBuffer, n);
      i := i + 1;
    }
    OneBuffer(source, total);
  }

  /** Truncating the one buffer to `max` loses nothing that a copy of at most `max` bytes needs. */
  lemma TruncationIsEnough(m: seq<Byte>, b: Buffer, bs: seq<Buffer>, max: nat, n: nat)
    requires b.data + b.size <= |m| && Fits(bs, |m|) && n <= max && n <= b.size && n <= Total(bs)
    ensures Total([Limited(b, max)]) == Min(max, b.size)
    ensures Copied(m, [Limited(b, max)], bs, n) == Copied(m, [b], bs, n)
    ensures Copied(m, bs, [Limited(b, max)], n) == Copied(m, bs, [b], n)
  {
    var c := Limited(b, max);
    OneBuffer(b, n);
    OneBuffer(c, n);
    assert Addresses([c])[..n] == Addresses([b])[..n] by {
      assert AddressesTo([b], 1) == AddressesTo([b], 0) + BlockAddresses(b);
      assert AddressesTo([c], 1) == AddressesTo([c], 0) + BlockAddresses(c);
    }
    assert Flat(m, [c])[..n] == Flat(m, [b])[..n] by {
      assert FlatTo(m, [b], 1) == FlatTo(m, [b], 0) + m[b.data..b.data + b.size];
      assert FlatTo(m, [c], 1) == FlatTo(m, [c], 0) + m[c.data..c.data + c.size];
    }
  }

  /** buffer_copy(mutable_buffer, ConstBufferSequence, max) */
  method CopyFromSequenceLimited(memory: array<Byte>, target: Buffer, ss: seq<Buffer>, max: nat) returns (total: nat)
    requires target.data + target.size <= memory.Length && Fits(ss, memory.Length) && Apart([target], ss)
    modifies memory
    ensures total == Min(max, Min(Total([target]), Total(ss)))
    ensures memory[..] == Copied(old(memory[..]), [target], ss, total)
  {
    hide Copied, Before;
    ghost var m := memory[..];
    OneBuffer(target, 0);
    TruncationIsEnough(m, target, ss, max, 0);
    assert Apart([Limited(target, max)], ss) by {
      forall j | 0 <= j < |ss| ensures Separate(Limited(target, max), ss[j]) {
        assert Separate([target][0], ss[j]);
      }
    }
    total := CopyFromSequence(memory, Limited(target, max), ss);
    TruncationIsEnough(m, target, ss, max, total);
  }

  /** buffer_copy(MutableBufferSequence, const_buffer, max) */
  method CopyToSequenceLimited(memory: array<Byte>, ts: seq<Buffer>, source: Buffer, max: nat) returns (total: nat)
    requires source.data + source.size <= memory.Length && Fits(ts, memory.Length) && Apart(ts, [source])
    modifies memory
    ensures total == Min(max, Min(Total(ts), Total([source])))
    ensures memory[..] == Copied(old(memory[..]), ts, [source], total)
  {
    hide Copied, Before;
    ghost var m := memory[..];
    OneBuffer(source, 0);
    TruncationIsEnough(m, source, ts, max, 0);
    assert Apart(ts, [Limited(source, max)]) by {
      forall i | 0 <= i < |ts| ensures Separate(ts[i], Limited(source, max)) {
        assert Separate(ts[i], [source][0]);
      }
    }
    total := CopyToSequence(memory, ts, Limited(source, max));
    TruncationIsEnough(m, source, ts, max, total);
  }

  // ---------- what the copy means for its user ----------

  lemma {:induction false} AddressesDistinct(bs: seq<Buffer>, i: nat)
    requires i <= |bs| && SelfApart(bs)
    ensures AllDifferent(AddressesTo(bs, i))
  {
    if i != 0 {
      AddressesDistinct(bs, i - 1);
      var at, block, all := AddressesTo(bs, i - 1), BlockAddresses(bs[i - 1]), AddressesTo(bs, i);
      forall j, k | 0 <= j < |all| && 0 <= k < |all| && j < k
        ensures all[j] != all[k]
      {
        if j < |at| <= k {
          AddressInBlock(bs, i - 1, at[j]);
          var b :| 0 <= b < i - 1 && bs[b].data <= at[j] < bs[b].data + bs[b].size;
          assert Separate(bs[b], bs[i - 1]);
          assert all[j] == at[j] && all[k] == block[k - |at|];
        } else if |at| <= j {
          assert all[j] == block[j - |at|] && all[k] == block[k - |at|];
        } else {
          assert all[j] == at[j] && all[k] == at[k];
        }
      }
    }
  }

  /** The first n bytes of the target are the first n bytes of the source, and no byte outside them has changed. */
  lemma CopyDelivers(m: seq<Byte>, ts: seq<Buffer>, ss: seq<Buffer>, n: nat)
    requires Fits(ts, |m|) && Fits(ss, |m|) && SelfApart(ts) && n <= Total(ts) && n <= Total(ss)
    ensures Flat(Copied(m, ts, ss, n), ts)[..n] == Flat(m, ss)[..n]
    ensures forall a | 0 <= a < |m| && a !in Addresses(ts)[..n] :: Copied(m, ts, ss, n)[a] == m[a]
  {
    var m', at, data := Copied(m, ts, ss, n), Addresses(ts)[..n], Flat(m, ss)[..n];
    AddressesFit(ts, |ts|, |m|);
    AddressesDistinct(ts, |ts|);
    assert m' == Scatter(m, at, data);
    hide Scatter, FlatTo, AddressesTo, Copied;
    forall x | 0 <= x < n
      ensures Flat(m', ts)[x] == data[x]
    {
      FlatAt(m', ts, |ts|, x);
      ScatterAt(m, at, data, x);
      assert at[x] == Addresses(ts)[x];
    }
    assert Flat(m', ts)[..n] == data;
    forall a | 0 <= a < |m| && a !in at
      ensures m'[a] == m[a]
    {
      ScatterFrame(m, at, data, a);
    }
  }

  /** The source reads the same after the copy. */
  lemma {:induction false} CopyKeepsSource(m: seq<Byte>, ts: seq<Buffer>, ss: seq<Buffer>, n: nat, j: nat)
    requires Fits(ts, |m|) && Fits(ss, |m|) && Apart(ts, ss) && n <= Total(ts) && n <= Total(ss) && j <= |ss|
    ensures FlatTo(Copied(m, ts, ss, n), ss, j) == FlatTo(m, ss, j)
  {
    if j != 0 {
      CopyKeepsSource(m, ts, ss, n, j - 1);
      SourceRangeKept(m, ts, ss, n, j - 1, ss[j - 1].data, ss[j - 1].size);
    }
  }

  lemma {:induction false} ScatterSame(m: seq<Byte>, at: seq<nat>, data: seq<Byte>)
    requires |at| == |data| && InRange(at, |m|)
    requires forall i | 0 <= i < |at| :: m[at[i]] == data[i]
    ensures Scatter(m, at, data) == m
  {
    if at != [] {
      ScatterSame(m, at[..|at| - 1], data[..|at| - 1]);
    }
  }

  /** Copying the bytes back leaves the memory as the first copy made it. */
  lemma CopyingBackChangesNothing(m: seq<Byte>, ts: seq<Buffer>, ss: seq<Buffer>, n: nat)
    requires Fits(ts, |m|) && Fits(ss, |m|) && SelfApart(ts) && Apart(ts, ss) && n <= Total(ts) && n <= Total(ss)
    ensures Copied(Copied(m, ts, ss, n), ss, ts, n) == Copied(m, ts, ss, n)
  {
    var m' := Copied(m, ts, ss, n);
    CopyDelivers(m, ts, ss, n);
    CopyKeepsSource(m, ts, ss, n, |ss|);
    AddressesFit(ss, |ss|, |m'|);
    assert Copied(m', ss, ts, n) == Scatter(m', Addresses(ss)[..n], Flat(m', ts)[..n]);
    hide Scatter, FlatTo, AddressesTo, Copied;
    forall x | 0 <= x < n
      ensures m'[Addresses(ss)[..n][x]] == Flat(m', ts)[..n][x]
    {
      FlatAt(m', ss, |ss|, x);
      assert Flat(m, ss)[..n][x] == Flat(m, ss)[x];
    }
    ScatterSame(m', Addresses(ss)[..n], Flat(m', ts)[..n]);
  }
}
