/** asio::basic_streambuf: a growing buffer whose input sequence is a bounded FIFO queue. */
module Streambuf {
  import opened Wrappers
  import opened Buffers
  import opened CharTraits

  const BUFFER_DELTA := 128

  datatype Error = LengthError

  function Max(a: nat, b: nat): nat { if a < b then b else a }

  /** What a refused reservation leaves of the input sequence q that starts at offset g of
      the array: its tail has been moved down over its own beginning. */
  function Refused(q: seq<Byte>, g: nat): (q': seq<Byte>)
    ensures |q'| == |q|
  {
    if 0 < g < |q| then q[g..] + q[|q| - g..] else q
  }

  /** Refusal is harmless, whatever the contents, exactly when the input sequence starts
      at the front of the array or is no longer than the space in front of it. */
  lemma RefusalHarmless(size: nat, g: nat)
    ensures (forall q: seq<Byte> | |q| == size :: Refused(q, g) == q) <==> (g == 0 || g >= size)
  {
    if 0 < g < size {
      var q := seq<Byte>(size, i => if i == 0 then 1 else 0);
      assert Refused(q, g)[0] == q[g] != q[0];
    }
  }

  /** For given contents: exactly when they repeat with period g. */
  lemma RefusalKeepsPeriodic(q: seq<Byte>, g: nat)
    ensures Refused(q, g) == q <==> (g == 0 || forall i | 0 <= i < |q| - g :: q[i] == q[i + g])
  {
    if 0 < g < |q| {
      var q' := Refused(q, g);
      forall i | 0 <= i < |q|
        ensures q'[i] == if i < |q| - g then q[i + g] else q[i]
      {
      }
    }
  }

  class Streambuf {
    const maxSize: nat
    var buffer: array<Byte>
    var capacity: nat
    var eback: nat
    var gptr: nat
    var egptr: nat
    var pbase: nat
    var pptr: nat
    var epptr: nat
    // every character committed or put, and every character consumed or got
    ghost var accepted: seq<Byte>
    ghost var taken: seq<Byte>

    predicate Valid()
      reads this
    {
      && 0 == eback <= gptr <= egptr <= pptr <= epptr <= maxSize
      && pbase <= pptr
      && buffer.Length == Max(epptr, 1) <= capacity
    }

    /** The input sequence. */
    function Input(): (q: seq<Byte>)
      requires Valid()
      reads this, buffer
      ensures |q| == Size() <= maxSize
    {
      buffer[gptr..pptr]
    }

    /** The output sequence that is at hand. */
    function Output(): (area: seq<Byte>)
      requires Valid()
      reads this, buffer
      ensures |area| == epptr - pptr
    {
      buffer[pptr..epptr]
    }

    /** Everything accepted has been taken or is still in the queue, in order. */
    ghost predicate Conserved()
      requires Valid()
      reads this, buffer
    {
      accepted == taken + Input()
    }

    constructor (maximumSize: nat)
      ensures Valid() && maxSize == maximumSize && fresh(buffer)
      ensures Input() == [] && gptr == 0 && epptr == Min(maximumSize, 128)
      ensures accepted == [] && taken == [] && Conserved()
    {
      maxSize := maximumSize;
      var pend := if maximumSize < BUFFER_DELTA then maximumSize else BUFFER_DELTA;
      var length := if pend < 1 then 1 else pend;
      buffer := new Byte[length](_ => 0);
      capacity := length;
      eback, gptr, egptr := 0, 0, 0;
      pbase, pptr, epptr := 0, 0, pend;
      accepted, taken := [], [];
    }

    function Size(): nat
      requires Valid()
      reads this
    {
      pptr - gptr
    }

    /** std::vector::resize for a size that is not smaller. */
    method Resize(length: nat)
      requires buffer.Length <= capacity && length >= buffer.Length
      modifies this`buffer, this`capacity
      ensures buffer == old(buffer) || fresh(buffer)
      ensures buffer.Length == length <= capacity && capacity >= old(capacity)
      ensures buffer[..old(buffer.Length)] == old(buffer[..])
    {
      var before := buffer;
      buffer := new Byte[length](i requires 0 <= i < length reads before => if i < before.Length then before[i] else 0);
      var grown: nat :| length <= grown && capacity <= grown;
      capacity := grown;
    }

    /** std::memmove of `n` characters to the front. */
    method MoveToFront(from: nat, n: nat)
      requires from + n <= buffer.Length
      modifies buffer
      ensures buffer[..n] == old(buffer[from..from + n])
      ensures buffer[n..] == old(buffer[n..])
    {
      forall i | 0 <= i < n {
        buffer[i] := buffer[from + i];
      }
    }

    /** The array when the reservation is refused after the move. */
    lemma AfterRefusal(before: seq<Byte>, moved: seq<Byte>, g: nat, p: nat)
      requires g <= p <= |before| == |moved|
      requires moved[..p - g] == before[g..p] && moved[p - g..] == before[p - g..]
      ensures moved[g..p] == Refused(before[g..p], g) && moved[p..] == before[p..]
    {
      var q, n := before[g..p], p - g;
      forall a | 0 <= a < |moved|
        ensures moved[a] == if a < n then before[a + g] else before[a]
      {
        if a < n {
          assert moved[..n][a] == before[g..p][a];
        } else {
          assert moved[n..][a - n] == before[n..][a - n];
        }
      }
      forall i | 0 <= i < n
        ensures moved[g..p][i] == Refused(q, g)[i]
      {
        assert moved[g..p][i] == moved[g + i];
      }
    }

    /** Moves the input sequence to the front of the array; the positions do not follow yet. */
    method Shift() returns (pnext: nat)
      requires Valid()
      modifies buffer
      ensures pnext == Size() <= pptr <= buffer.Length && buffer[..pnext] == old(Input())
      ensures Input() == Refused(old(Input()), gptr) && Output() == old(Output())
    {
      pnext := pptr;
      ghost var before := buffer[..];
      if gptr > 0 {
        pnext := pnext - gptr;
        MoveToFront(gptr, pnext);
      }
      AfterRefusal(before, buffer[..], gptr, pptr);
      assert buffer[pptr..epptr] == buffer[..][pptr..][..epptr - pptr];
    }

    /** Makes the array large enough for n characters after the first pnext, unless that exceeds max_size. */
    method Grow(pnext: nat, n: nat) returns (pend: Option<nat>)
      requires Valid() && pnext <= pptr
      modifies this`buffer, this`capacity
      ensures buffer == old(buffer) || fresh(buffer)
      ensures capacity >= old(capacity)
      ensures pend.None? <==> pnext + n > maxSize
      ensures pend.None? ==> unchanged(this) && Valid()
      ensures pend.Some? ==> pnext <= pend.value <= maxSize
      ensures pend.Some? ==> pend.value == Max(epptr, pnext + n) && buffer.Length == Max(pend.value, 1) <= capacity
      ensures buffer[..pnext] == old(buffer[..pnext])
    {
      if n > epptr - pnext {
        if n <= maxSize && pnext <= maxSize - n {
          var length := if pnext + n < 1 then 1 else pnext + n;
          ghost var before := buffer[..];
          Resize(length);
          assert buffer[..pnext] == buffer[..|before|][..pnext];
          return Some(pnext + n);
        }
        return None;
      }
      return Some(epptr);
    }

    /** setg and setp for an input sequence at the front. */
    method Rebase(pnext: nat, pend: nat)
      requires pnext <= pend <= maxSize && buffer.Length == Max(pend, 1) <= capacity
      modifies this`eback, this`gptr, this`egptr, this`pbase, this`pptr, this`epptr
      ensures Valid() && gptr == 0 && egptr == pptr == pbase == pnext && epptr == pend
      ensures Input() == buffer[..pnext]
    {
      eback, gptr, egptr := 0, 0, pnext;
      pbase, pptr, epptr := pnext, pnext, pend;
    }

    /** Reserves by moving the input sequence to the front and growing the array as needed.
        False stands for the length_error that is thrown. */
    method MakeRoom(n: nat) returns (ok: bool)
      requires Valid() && n > epptr - pptr
      modifies this`buffer, this`capacity, this`eback, this`gptr, this`egptr, this`pbase, this`pptr, this`epptr, buffer
      ensures Valid() && (buffer == old(buffer) || fresh(buffer)) && capacity >= old(capacity)
      ensures ok <==> old(Size()) + n <= maxSize
      ensures ok ==> gptr == 0 && egptr == pptr == pbase == old(Size()) && epptr == Max(old(epptr), old(Size()) + n)
      ensures ok ==> Input() == old(Input())
      ensures !ok ==> unchanged(this) && Input() == Refused(old(Input()), old(gptr)) && Output() == old(Output())
    {
      hide Valid;
      var pnext := Shift();
      var pend := Grow(pnext, n);
      if pend.None? {
        return false;
      }
      Rebase(pnext, pend.value);
      return true;
    }

    method Reserve(n: nat) returns (ok: bool)
      requires Valid()
      modifies this`buffer, this`capacity, this`eback, this`gptr, this`egptr, this`pbase, this`pptr, this`epptr, buffer
      ensures Valid() && (buffer == old(buffer) || fresh(buffer)) && capacity >= old(capacity)
      ensures ok <==> old(Size()) + n <= maxSize
      ensures n <= old(epptr - pptr) ==> unchanged(this) && unchanged(buffer)
      ensures ok && n > old(epptr - pptr) ==>
        gptr == 0 && egptr == pptr == pbase == old(Size()) && epptr == Max(old(epptr), old(Size()) + n)
      ensures ok ==> Input() == old(Input()) && n <= epptr - pptr
      ensures !ok ==> unchanged(this) && Input() == Refused(old(Input()), old(gptr)) && Output() == old(Output())
    {
      if n <= epptr - pptr {
        return true;
      }
      ok := MakeRoom(n);
    }

    method Prepare(n: nat) returns (r: Result<Buffer, Error>)
      requires Valid()
      modifies this`buffer, this`capacity, this`eback, this`gptr, this`egptr, this`pbase, this`pptr, this`epptr, buffer
      ensures Valid() && (buffer == old(buffer) || fresh(buffer)) && capacity >= old(capacity)
      ensures r.Err? <==> old(Size()) + n > maxSize
      ensures r.Ok? ==> Input() == old(Input()) && r.value == Buffer(pptr, n) && n <= |Output()|
      ensures r.Ok? && n <= old(epptr - pptr) ==> unchanged(this) && unchanged(buffer)
      ensures r.Ok? && n > old(epptr - pptr) ==>
        gptr == 0 && egptr == pptr == old(Size()) && epptr == Max(old(epptr), old(Size()) + n)
      ensures r.Ok? && old(Conserved()) ==> Conserved()
      ensures r.Err? ==> unchanged(this) && Input() == Refused(old(Input()), old(gptr))
    {
      hide Streambuf.Valid, Streambuf.Input, Streambuf.Output;
      var ok := Reserve(n);
      r := if ok then Ok(Buffer(pptr, n)) else Err(LengthError);
    }

    lemma InBuffer()
      requires Valid()
      ensures Input() == buffer[..][gptr..pptr] && Output() == buffer[..][pptr..epptr]
    {
    }

    lemma CommitMoves(all: seq<Byte>, g: nat, p: nat, e: nat, k: nat)
      requires g <= p <= p + k <= e <= |all|
      ensures all[p..p + k] == all[p..e][..k]
      ensures all[g..p + k] == all[g..p] + all[p..e][..k] && all[p + k..e] == all[p..e][k..]
    {
      SliceOfSlice(all, p, e, 0, k);
      SliceOfSlice(all, p, e, k, e - p);
      assert all[p..e][k..] == all[p..e][k..e - p];
      assert all[g..p + k] == all[g..p] + all[p..p + k];
    }

    method Commit(n: nat)
      requires Valid()
      modifies this`pptr, this`egptr, this`accepted
      ensures Valid()
      ensures var k := Min(n, |old(Output())|);
        && Input() == old(Input()) + old(Output())[..k] && Output() == old(Output())[k..]
        && accepted == old(accepted) + old(Output())[..k]
      ensures egptr == pptr
      ensures old(Conserved()) ==> Conserved()
    {
      hide Streambuf.Input, Streambuf.Output;
      var k := if pptr + n > epptr then epptr - pptr else n;
      InBuffer();
      CommitMoves(buffer[..], gptr, pptr, epptr, k);
      accepted := accepted + Output()[..k];
      pptr := pptr + k;
      egptr := pptr;
      InBuffer();
    }

    /** gbump */
    method Bump(k: nat)
      requires Valid() && gptr + k <= egptr
      modifies this`gptr, this`taken
      ensures Valid() && gptr == old(gptr) + k && Output() == old(Output())
      ensures Input() == old(Input())[k..] && taken == old(taken) + old(Input())[..k]
      ensures old(Conserved()) ==> Conserved()
    {
      hide Streambuf.Input, Streambuf.Output;
      ghost var q := Input();
      InBuffer();
      SliceOfSlice(buffer[..], gptr, pptr, k, |q|);
      assert q[k..|q|] == q[k..] && q == q[..k] + q[k..];
      taken := taken + q[..k];
      gptr := gptr + k;
      InBuffer();
    }

    method Consume(n: nat)
      requires Valid()
      modifies this`eback, this`gptr, this`egptr, this`taken
      ensures Valid()
      ensures var k := Min(n, old(Size()));
        && Input() == old(Input())[k..] && Output() == old(Output())
        && taken == old(taken) + old(Input())[..k] && gptr == old(gptr) + k
      ensures egptr == pptr
      ensures old(Conserved()) ==> Conserved()
    {
      hide Streambuf.Input, Streambuf.Output;
      InBuffer();
      if egptr < pptr {
        eback, egptr := 0, pptr;
      }
      InBuffer();
      Bump(if gptr + n > pptr then pptr - gptr else n);
    }

    method Underflow() returns (c: IntType)
      requires Valid()
      modifies this`eback, this`egptr
      ensures Valid() && Input() == old(Input()) && Output() == old(Output())
      ensures c == if Input() == [] then EOF else Input()[0]
      ensures egptr == if Input() == [] then old(egptr) else pptr
    {
      if gptr < pptr {
        eback, egptr := 0, pptr;
        c := buffer[gptr];
      } else {
        c := EOF;
      }
    }

    method Append(c: Byte)
      requires Valid() && pptr < epptr
      modifies this`pptr, this`accepted, buffer
      ensures Valid() && pptr == old(pptr) + 1
      ensures Input() == old(Input()) + [c] && accepted == old(accepted) + [c]
      ensures old(Conserved()) ==> Conserved()
    {
      ghost var q := Input();
      buffer[pptr] := c;
      pptr := pptr + 1;
      assert Input() == q + [c];
      accepted := accepted + [c];
    }

    /** Throws exactly when the queue is full, and then nothing has been moved. */
    method Overflow(c: IntType) returns (r: Result<IntType, Error>)
      requires Valid()
      modifies this, buffer
      ensures Valid() && (buffer == old(buffer) || fresh(buffer)) && capacity >= old(capacity)
      ensures c == EOF ==> r == Ok(NotEof(c)) && unchanged(this) && unchanged(buffer)
      ensures c != EOF ==> (r.Err? <==> old(Size()) == maxSize)
      ensures c != EOF && r.Ok? ==>
        && r.value == c && Input() == old(Input()) + [c]
        && accepted == old(accepted) + [c] && taken == old(taken)
      ensures r.Err? ==> unchanged(this) && gptr == 0 && Input() == old(Input())
      ensures c != EOF && r.Ok? ==>
        && gptr == (if old(pptr < epptr) then old(gptr) else 0)
        && epptr == if old(pptr < epptr) then old(epptr)
                    else Max(old(epptr), old(Size()) + Min(128, maxSize - old(Size())))
      ensures old(Conserved()) ==> Conserved()
    {
      if c == EOF {
        return Ok(NotEof(c));
      }
      if pptr == epptr {
        var bufferSize := pptr - gptr;
        var n := BUFFER_DELTA;
        if bufferSize < maxSize && maxSize - bufferSize < BUFFER_DELTA {
          n := maxSize - bufferSize;
        }
        var ok := Reserve(n);
        if !ok {
          return Err(LengthError);
        }
      }
      Append(c);
      return Ok(c);
    }

    // The public functions of std::streambuf, as section 27.6.3 of ISO/IEC 14882:2011 defines
    // them on the virtual ones.

    method Sputc(c: Byte) returns (r: Result<IntType, Error>)
      requires Valid()
      modifies this, buffer
      ensures Valid() && (buffer == old(buffer) || fresh(buffer))
      ensures (r.Err? <==> old(Size()) == maxSize) && taken == old(taken)
      ensures r.Ok? ==> r.value == c && Input() == old(Input()) + [c] && accepted == old(accepted) + [c]
      ensures r.Err? ==> unchanged(this) && gptr == 0 && Input() == old(Input())
      ensures r.Ok? ==>
        && gptr == (if old(pptr < epptr) then old(gptr) else 0)
        && epptr == if old(pptr < epptr) then old(epptr)
                    else Max(old(epptr), old(Size()) + Min(128, maxSize - old(Size())))
      ensures old(Conserved()) ==> Conserved()
    {
      if pptr < epptr {
        Append(c);
        r := Ok(c);
      } else {
        r := Overflow(c);
      }
    }

    method Sgetc() returns (c: IntType)
      requires Valid()
      modifies this`eback, this`egptr
      ensures Valid() && Input() == old(Input()) && Output() == old(Output())
      ensures c == if Input() == [] then EOF else Input()[0]
    {
      if gptr < egptr {
        c := buffer[gptr];
      } else {
        c := Underflow();
      }
    }

    method Sbumpc() returns (c: IntType)
      requires Valid()
      modifies this
      ensures Valid() && buffer == old(buffer) && Output() == old(Output()) && accepted == old(accepted)
      ensures gptr == old(gptr) + Min(1, old(Size())) && epptr == old(epptr)
      ensures old(Input()) == [] ==> c == EOF && Input() == [] && taken == old(taken)
      ensures old(Input()) != [] ==> c == old(Input())[0] && Input() == old(Input())[1..] && taken == old(taken) + [c]
      ensures old(Conserved()) ==> Conserved()
    {
      if gptr < egptr {
        c := buffer[gptr];
      } else {
        c := Underflow();
        if c == EOF {
          return;
        }
      }
      Bump(1);
    }

    /** read_size_helper: as much as fits, but at least something while there is room. */
    function ReadSizeHelper(maxRead: nat): (n: nat)
      requires Valid()
      reads this
      ensures Size() + n <= maxSize && n <= maxRead
      ensures n == 0 <==> maxRead == 0 || Size() == maxSize
      // less than what is wanted and fits only when the allocation is used up and 512 is reached
      ensures n == maxRead || Size() + n == maxSize || (n >= 512 && Size() + n >= capacity)
      ensures n > 512 ==> Size() + n <= capacity
    {
      Min(Max(512, capacity - Size()), Min(maxRead, maxSize - Size()))
    }
  }

  /** The caller writes to the memory that prepare returned. */
  method Fill(sb: Streambuf, area: Buffer, data: seq<Byte>)
    requires sb.Valid() && area.data == sb.pptr && |data| <= area.size <= |sb.Output()|
    modifies sb.buffer
    ensures sb.Valid() && sb.Input() == old(sb.Input())
    ensures sb.Output() == data + old(sb.Output())[|data|..]
  {
    forall i | 0 <= i < |data| {
      sb.buffer[area.data + i] := data[i];
    }
  }

  method Full() returns (sb: Streambuf)
    ensures fresh(sb) && fresh(sb.buffer) && sb.Valid() && sb.maxSize == 4 && sb.gptr == 0
    ensures sb.Input() == sb.accepted == [1, 2, 3, 4] && sb.taken == []
  {
    hide Streambuf.Valid, Streambuf.Input, Streambuf.Output;
    sb := new Streambuf(4);
    var area := sb.Prepare(4);
    Fill(sb, area.value, [1, 2, 3, 4]);
    sb.Commit(4);
    assert sb.Input() == [1, 2, 3, 4];
  }

  /** A queue that a refused prepare damages: 2, 3, 4 becomes 3, 4, 4. */
  method RefusalDamages() returns (sb: Streambuf)
    ensures sb.Valid() && sb.accepted == [1, 2, 3, 4] && sb.taken == [1]
    ensures sb.Input() == [3, 4, 4] && !sb.Conserved()
  {
    hide Streambuf.Valid, Streambuf.Input, Streambuf.Output;
    sb := Full();
    sb.Consume(1);
    assert sb.Input() == [2, 3, 4] && sb.Conserved();
    var refused := sb.Prepare(2);
    assert refused.Err?;
    assert sb.Input() == Refused([2, 3, 4], 1) == [2, 3, 4][1..] + [2, 3, 4][2..];
  }
}
