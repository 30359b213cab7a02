/** asio::buffers_iterator: a random access cursor over the bytes of a buffer sequence. */
module BuffersIterator {
  import opened Buffers

  // ---------- the place of a position ----------

  /** Block i at offset off is the place of position p: strictly inside a non-empty block, or past the last one. */
  predicate IsPlace(bs: seq<Buffer>, i: nat, off: nat, p: nat) {
    && i <= |bs|
    && p == Before(bs, i) + off
    && (if i < |bs| then off < bs[i].size else off == 0)
  }

  /** Searches the blocks from the i-th on for the one that holds byte p. */
  function PlaceFrom(bs: seq<Buffer>, i: nat, p: nat): (nat, nat)
    requires i <= |bs| && Before(bs, i) <= p
    decreases |bs| - i
  {
    if i == |bs| then (i, 0)
    else if p < Before(bs, i + 1) then (i, p - Before(bs, i))
    else PlaceFrom(bs, i + 1, p)
  }

  lemma {:induction false} PlaceFromIsPlace(bs: seq<Buffer>, i: nat, p: nat)
    requires i <= |bs| && Before(bs, i) <= p <= Total(bs)
    ensures var (j, off) := PlaceFrom(bs, i, p); IsPlace(bs, j, off, p)
    decreases |bs| - i
  {
    if i < |bs| && p >= Before(bs, i + 1) {
      PlaceFromIsPlace(bs, i + 1, p);
    }
  }

  /** A position has one place. */
  lemma PlaceUnique(bs: seq<Buffer>, i: nat, off: nat, i': nat, off': nat, p: nat)
    requires IsPlace(bs, i, off, p) && IsPlace(bs, i', off', p)
    ensures i == i' && off == off'
  {
    if i < i' {
      BeforeMonotone(bs, i + 1, i');
    } else if i' < i {
      BeforeMonotone(bs, i' + 1, i);
    }
  }

  /** The search finds the place of every position, and nothing else is its place. */
  lemma PlaceIsFound(bs: seq<Buffer>, i: nat, off: nat, p: nat)
    requires p <= Total(bs)
    ensures IsPlace(bs, i, off, p) <==> (i, off) == PlaceFrom(bs, 0, p)
  {
    PlaceFromIsPlace(bs, 0, p);
    var (j, o) := PlaceFrom(bs, 0, p);
    if IsPlace(bs, i, off, p) {
      PlaceUnique(bs, i, off, j, o, p);
    }
  }

  /** The byte at a place is the byte of the flattened sequence. */
  lemma ByteAtPlace(m: seq<Byte>, bs: seq<Buffer>, i: nat, off: nat, p: nat)
    requires Fits(bs, |m|) && IsPlace(bs, i, off, p) && i < |bs|
    ensures p < Total(bs) && m[bs[i].data + off] == Flat(m, bs)[p]
  {
    AddressAt(bs, i, off);
    FlatAt(m, bs, |bs|, p);
  }

  // ---------- the iterator ----------

  class Iterator {
    const bufs: seq<Buffer>
    const begin: nat
    const end: nat
    var currentBuffer: Buffer
    var currentBufferPosition: nat
    var current: nat
    var position: nat

    /** The canonical state.  At the end, currentBuffer may be left over from earlier. */
    predicate Valid()
      reads this
    {
      && begin == 0 && end == |bufs|
      && IsPlace(bufs, current, currentBufferPosition, position)
      && (current < end ==> currentBuffer == bufs[current])
    }

    /** begin(buffers) */
    constructor Begin(bs: seq<Buffer>)
      ensures Valid() && bufs == bs && position == 0
    {
      bufs, begin, end := bs, 0, |bs|;
      currentBuffer, currentBufferPosition, current, position := EMPTY, 0, 0, 0;
      new;
      while current != end
        invariant 0 <= current <= end && Before(bufs, current) == 0
        invariant begin == 0 && end == |bufs| && currentBufferPosition == 0 && position == 0
      {
        currentBuffer := bufs[current];
        if currentBuffer.size > 0 {
          break;
        }
        current := current + 1;
      }
    }

    /** end(buffers) */
    constructor End(bs: seq<Buffer>)
      ensures Valid() && bufs == bs && position == Total(bs)
    {
      bufs, begin, end := bs, 0, |bs|;
      currentBuffer, currentBufferPosition, current, position := EMPTY, 0, 0, 0;
      new;
      while current != end
        invariant 0 <= current <= end && position == Before(bufs, current)
        invariant begin == 0 && end == |bufs| && currentBufferPosition == 0
      {
        var buffer := bufs[current];
        position := position + buffer.size;
        current := current + 1;
      }
    }

    constructor Copy(from: Iterator)
      requires from.Valid()
      ensures Valid() && bufs == from.bufs && position == from.position
    {
      bufs, begin, end := from.bufs, from.begin, from.end;
      currentBuffer, currentBufferPosition := from.currentBuffer, from.currentBufferPosition;
      current, position := from.current, from.position;
    }

    /** Past the end exactly at the total size. */
    lemma EndIsTotal()
      requires Valid()
      ensures position <= Total(bufs) && (current == end <==> position == Total(bufs))
      ensures current == end ==> currentBufferPosition == 0
    {
      if current < end {
        BeforeMonotone(bufs, current + 1, |bufs|);
      }
    }

    method Dereference(memory: array<Byte>) returns (b: Byte)
      requires Valid() && position < Total(bufs) && Fits(bufs, memory.Length)
      ensures b == Flat(memory[..], bufs)[position]
    {
      EndIsTotal();
      ByteAtPlace(memory[..], bufs, current, currentBufferPosition, position);
      b := memory[currentBuffer.data + currentBufferPosition];
    }

    /** operator[] */
    method At(memory: array<Byte>, difference: int) returns (b: Byte)
      requires Valid() && 0 <= position + difference < Total(bufs) && Fits(bufs, memory.Length)
      ensures b == Flat(memory[..], bufs)[position + difference]
    {
      var tmp := new Iterator.Copy(this);
      tmp.Advance(difference);
      b := tmp.Dereference(memory);
    }

    method Increment()
      requires Valid() && position < Total(bufs)
      modifies this
      ensures Valid() && position == old(position) + 1
    {
      EndIsTotal();
      assert current != end;
      position := position + 1;
      currentBufferPosition := currentBufferPosition + 1;
      if currentBufferPosition != currentBuffer.size {
        return;
      }
      current := current + 1;
      currentBufferPosition := 0;
      while current != end
        invariant current <= end == |bufs| && begin == 0
        invariant position == Before(bufs, current) == old(position) + 1 && currentBufferPosition == 0
      {
        currentBuffer := bufs[current];
        if currentBuffer.size > 0 {
          return;
        }
        current := current + 1;
      }
    }

    method Decrement()
      requires Valid() && position > 0
      modifies this
      ensures Valid() && position == old(position) - 1
    {
      position := position - 1;
      if currentBufferPosition != 0 {
        currentBufferPosition := currentBufferPosition - 1;
        return;
      }
      var iter: nat := current;
      while iter != begin
        invariant 0 <= iter <= current && unchanged(this`current) && position + 1 == Before(bufs, iter)
        invariant currentBufferPosition == 0 && position == old(position) - 1
      {
        iter := iter - 1;
        var buffer := bufs[iter];
        var bufferSize := buffer.size;
        if bufferSize > 0 {
          current := iter;
          currentBuffer := buffer;
          currentBufferPosition := bufferSize - 1;
          return;
        }
      }
    }

    method Advance(n: int)
      requires Valid() && 0 <= position + n <= Total(bufs)
      modifies this
      ensures Valid() && position == old(position) + n
    {
      if n > 0 {
        AdvanceForward(n);
      } else if n < 0 {
        AdvanceBackward(-n);
      }
    }

    method AdvanceForward(distance: nat)
      requires Valid() && distance > 0 && position + distance <= Total(bufs)
      modifies this
      ensures Valid() && position == old(position) + distance
      ensures current == end ==> currentBuffer == EMPTY
    {
      EndIsTotal();
      assert current != end;
      var n: nat := distance;
      while true
        invariant begin == 0 && end == |bufs| && current < end && currentBuffer == bufs[current]
        invariant currentBufferPosition <= currentBuffer.size
        invariant position == Before(bufs, current) + currentBufferPosition
        invariant position + n == old(position) + distance
        decreases end - current
      {
        var balance := currentBuffer.size - currentBufferPosition;
        if balance > n {
          position := position + n;
          currentBufferPosition := currentBufferPosition + n;
          return;
        }
        BeforeMonotone(bufs, current + 1, |bufs|);
        n := n - balance;
        position := position + balance;
        current := current + 1;
        if current == end {
          assert n == 0;
          currentBuffer := EMPTY;
          currentBufferPosition := 0;
          return;
        }
        currentBuffer := bufs[current];
        currentBufferPosition := 0;
      }
    }

    /** While a distance remains, an earlier block holds bytes. */
    method AdvanceBackward(distance: nat)
      requires Valid() && 0 < distance <= position
      modifies this
      ensures Valid() && position == old(position) - distance
    {
      var n: nat := distance;
      while true
        invariant begin == 0 && end == |bufs| && current <= end
        invariant current < end ==> currentBuffer == bufs[current] && currentBufferPosition <= currentBuffer.size
        invariant current == end ==> currentBufferPosition == 0
        invariant position == Before(bufs, current) + currentBufferPosition
        invariant 0 < n <= position && position - n == old(position) - distance
        decreases current
      {
        if currentBufferPosition >= n {
          position := position - n;
          currentBufferPosition := currentBufferPosition - n;
          return;
        }
        n := n - currentBufferPosition;
        position := position - currentBufferPosition;
        assert current != begin;
        StepBack();
      }
    }

    /** Finds the previous non-empty block and stands after its last byte. */
    method StepBack()
      requires begin == 0 && end == |bufs| && current <= end && 0 < position == Before(bufs, current)
      modifies this`current, this`currentBuffer, this`currentBufferPosition
      ensures current < old(current) && currentBuffer == bufs[current] && currentBufferPosition == currentBuffer.size
      ensures position == Before(bufs, current) + currentBufferPosition
    {
      var iter: nat := current;
      while iter != begin
        invariant iter <= current == old(current) && position == Before(bufs, iter)
      {
        iter := iter - 1;
        var buffer := bufs[iter];
        var bufferSize := buffer.size;
        if bufferSize > 0 {
          current := iter;
          currentBuffer := buffer;
          currentBufferPosition := bufferSize;
          break;
        }
      }
    }

    /** operator==; iterators over the same buffers are equal exactly when they stand at the same place. */
    method Equal(other: Iterator) returns (same: bool)
      requires Valid() && other.Valid() && bufs == other.bufs
      ensures same <==> current == other.current && currentBufferPosition == other.currentBufferPosition
    {
      same := position == other.position;
      if same {
        PlaceUnique(bufs, current, currentBufferPosition, other.current, other.currentBufferPosition, position);
      }
    }

    /** The number of bytes from here to the other place. */
    method DistanceTo(other: Iterator) returns (d: int)
      requires Valid() && other.Valid() && bufs == other.bufs
      ensures d == Before(bufs, other.current) + other.currentBufferPosition
                   - (Before(bufs, current) + currentBufferPosition)
    {
      d := other.position - position;
    }

    /** operator<: the lexicographic order of the places. */
    method Less(other: Iterator) returns (less: bool)
      requires Valid() && other.Valid() && bufs == other.bufs
      ensures less <==> (current < other.current ||
                         (current == other.current && currentBufferPosition < other.currentBufferPosition))
    {
      var d := DistanceTo(other);
      less := d > 0;
      if current < other.current {
        BeforeMonotone(bufs, current + 1, other.current);
      } else if other.current < current {
        BeforeMonotone(bufs, other.current + 1, current);
      }
    }
  }

  /** Iterators over the same buffers at the same position are in the same state,
      but for the buffer that one at the end no longer uses. */
  lemma SameState(a: Iterator, b: Iterator)
    requires a.Valid() && b.Valid() && a.bufs == b.bufs && a.position == b.position
    ensures a.current == b.current && a.currentBufferPosition == b.currentBufferPosition
    ensures a.current != a.end ==> a.currentBuffer == b.currentBuffer
  {
    PlaceUnique(a.bufs, a.current, a.currentBufferPosition, b.current, b.currentBufferPosition, a.position);
  }

  /** advance(n) against |n| single steps. */
  method AdvanceIsSteps(a: Iterator, b: Iterator, n: int)
    requires a != b && a.Valid() && b.Valid() && a.bufs == b.bufs && a.position == b.position
    requires 0 <= a.position + n <= Total(a.bufs)
    modifies a, b
    ensures a.Valid() && b.Valid() && a.position == old(a.position) + n
    ensures a.current == b.current && a.currentBufferPosition == b.currentBufferPosition
    ensures a.current != a.end ==> a.currentBuffer == b.currentBuffer
  {
    a.Advance(n);
    var k := 0;
    while k != n
      invariant b.Valid() && b.position == old(b.position) + k
      invariant a.Valid() && a.position == old(a.position) + n
      invariant if n < 0 then n <= k <= 0 else 0 <= k <= n
      decreases if n < 0 then k - n else n - k
    {
      if n < 0 {
        b.Decrement();
        k := k - 1;
      } else {
        b.Increment();
        k := k + 1;
      }
    }
    SameState(a, b);
  }

  /** advance(m) then advance(n) against advance(m + n), whatever their signs. */
  method AdvancesAdd(a: Iterator, b: Iterator, m: int, n: int)
    requires a != b && a.Valid() && b.Valid() && a.bufs == b.bufs && a.position == b.position
    requires 0 <= a.position + m <= Total(a.bufs) && 0 <= a.position + m + n <= Total(a.bufs)
    modifies a, b
    ensures a.Valid() && b.Valid() && a.position == old(a.position) + m + n
    ensures a.current == b.current && a.currentBufferPosition == b.currentBufferPosition
    ensures a.current != a.end ==> a.currentBuffer == b.currentBuffer
  {
    a.Advance(m);
    a.Advance(n);
    b.Advance(m + n);
    SameState(a, b);
  }

  /** for (i = buffers_begin(bs); i != buffers_end(bs); ++i) visits the flattened bytes in order. */
  method Traverse(memory: array<Byte>, bs: seq<Buffer>) returns (bytes: seq<Byte>)
    requires Fits(bs, memory.Length)
    ensures bytes == Flat(memory[..], bs)
  {
    hide FlatTo, Before, IsPlace;
    var i := new Iterator.Begin(bs);
    var e := new Iterator.End(bs);
    bytes := [];
    var atEnd := i.Equal(e);
    i.EndIsTotal();
    e.EndIsTotal();
    while !atEnd
      invariant fresh(i) && fresh(e) && i != e && i.Valid() && e.Valid() && i.bufs == e.bufs == bs
      invariant e.current == e.end && e.currentBufferPosition == 0
      invariant i.position <= Total(bs) && (atEnd <==> i.position == Total(bs))
      invariant bytes == Flat(memory[..], bs)[..i.position]
      decreases Total(bs) - i.position
    {
      var b := i.Dereference(memory);
      bytes := bytes + [b];
      i.Increment();
      atEnd := i.Equal(e);
      i.EndIsTotal();
    }
  }
}
