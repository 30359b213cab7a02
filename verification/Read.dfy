/** asio::read into a streambuf until a completion condition is met. */
module Read {
  import opened Buffers
  import opened Streambuf
  import opened CompletionCondition

  /** A SyncReadStream: the bytes the peer will still send. */
  class Stream {
    var remaining: seq<Byte>
    ghost var failures: nat      // how often read_some has failed
    ghost var asked: seq<nat>    // how much each read_some was offered

    constructor (bytes: seq<Byte>)
      ensures remaining == bytes && failures == 0 && asked == []
    {
      remaining := bytes;
      failures, asked := 0, [];
    }

    /** read_some: either fails, or moves at least one byte and at most what is asked for. */
    method ReadSome(sb: Streambuf, area: Buffer) returns (n: nat, failed: bool)
      requires sb.Valid() && area.data == sb.pptr && 0 < area.size <= |sb.Output()|
      modifies this, sb.buffer
      ensures sb.Valid() && sb.Input() == old(sb.Input())
      ensures n <= area.size && (failed <==> n == 0)
      ensures failures == old(failures) + (if failed then 1 else 0) && asked == old(asked) + [area.size]
      ensures n <= |old(remaining)| && remaining == old(remaining)[n..]
      ensures sb.Output()[..n] == old(remaining)[..n]
    {
      asked := asked + [area.size];
      failed := *;
      if failed || remaining == [] {
        Fill(sb, area, []);
        failures := failures + 1;
        return 0, true;
      }
      n :| 1 <= n <= area.size && n <= |remaining|;
      Fill(sb, area, remaining[..n]);
      remaining := remaining[n..];
    }
  }

  /** One step of the read loop: prepare, read_some, commit.  It appends a prefix of what the stream holds. */
  method ReadStep(s: Stream, sb: Streambuf, available: nat) returns (n: nat, failed: bool)
    requires sb.Valid() && 0 < available && sb.Size() + available <= sb.maxSize
    modifies s, sb, sb.buffer
    ensures sb.Valid() && (sb.buffer == old(sb.buffer) || fresh(sb.buffer))
    ensures n <= available && (failed <==> n == 0)
    ensures s.failures == old(s.failures) + (if failed then 1 else 0) && s.asked == old(s.asked) + [available]
    ensures n <= |old(s.remaining)| && s.remaining == old(s.remaining)[n..]
    ensures sb.Input() == old(sb.Input()) + old(s.remaining)[..n]
    ensures old(sb.Conserved()) ==> sb.Conserved()
  {
    hide Streambuf.Valid, Streambuf.Input, Streambuf.Output;
    var area := sb.Prepare(available);
    assert area.Ok?;
    n, failed := s.ReadSome(sb, area.value);
    sb.Commit(n);
  }

  /** With `total` bytes read and `room` left in the buffer at the start, a read asks for n bytes: all that is wanted
      and fits, or at least 512 of it. */
  predicate AsksFor(c: Condition, room: nat, total: nat, n: nat) {
    && total <= room
    && var most := Min(c.Apply(false, total), room - total);
       Min(512, most) <= n <= most
  }

  /** So does every read of a transfer, a last one that fails included. */
  predicate WellAsked(c: Condition, room: nat, steps: seq<nat>, asked: seq<nat>) {
    && |steps| <= |asked| <= |steps| + 1
    && forall i | 0 <= i < |asked| :: AsksFor(c, room, Sum(steps[..i]), asked[i])
  }

  lemma NothingAsked(c: Condition, room: nat)
    ensures WellAsked(c, room, [], [])
  {
  }

  lemma AskedOnce(c: Condition, room: nat, steps: seq<nat>, asked: seq<nat>, n: nat)
    requires WellAsked(c, room, steps, asked) && |asked| == |steps| && AsksFor(c, room, Sum(steps), n)
    ensures WellAsked(c, room, steps, asked + [n])
  {
    hide AsksFor, Sum;
    assert steps[..|steps|] == steps;
  }

  lemma SteppedOnce(c: Condition, room: nat, steps: seq<nat>, asked: seq<nat>, n: nat)
    requires WellAsked(c, room, steps, asked) && |asked| == |steps| + 1
    ensures WellAsked(c, room, steps + [n], asked)
  {
    hide AsksFor, Sum;
    forall i | 0 <= i < |asked|
      ensures AsksFor(c, room, Sum((steps + [n])[..i]), asked[i])
    {
      assert (steps + [n])[..i] == steps[..i];
    }
  }

  /** Reads until the condition holds, the buffer is full or a read fails, whichever is first: a failed
      read is the last. */
  method ReadUntil(s: Stream, sb: Streambuf, c: Condition)
    returns (total: nat, failed: bool, ghost steps: seq<nat>, ghost asked: seq<nat>)
    requires sb.Valid()
    modifies s, sb, sb.buffer
    ensures sb.Valid()
    ensures total <= |old(s.remaining)| && s.remaining == old(s.remaining)[total..]
    ensures sb.Input() == old(sb.Input()) + old(s.remaining)[..total]
    ensures old(sb.Conserved()) ==> sb.Conserved()
    ensures Transfer(c, steps) && Sum(steps) == total
    ensures s.failures == old(s.failures) + if failed then 1 else 0
    ensures failed || c.Apply(false, total) == 0 || sb.Size() == sb.maxSize
    ensures s.asked == old(s.asked) + asked && |asked| == |steps| + if failed then 1 else 0
    ensures WellAsked(c, sb.maxSize - old(sb.Size()), steps, asked)
  {
    hide Transfer, Sum, WellAsked;
    total, failed, steps, asked := 0, false, [], [];
    NoStep(c);
    NothingAsked(c, sb.maxSize - sb.Size());
    ghost var room := sb.maxSize - sb.Size();
    var available := sb.ReadSizeHelper(c.Apply(failed, total));
    ghost var q, all := sb.Input(), s.remaining;
    while available > 0
      invariant sb.Valid() && (sb.buffer == old(sb.buffer) || fresh(sb.buffer))
      invariant available == sb.ReadSizeHelper(c.Apply(failed, total))
      invariant total <= |all| && s.remaining == all[total..] && sb.Input() == q + all[..total]
      invariant old(sb.Conserved()) ==> sb.Conserved()
      invariant s.failures == old(s.failures) + if failed then 1 else 0
      invariant Transfer(c, steps) && Sum(steps) == total && sb.Size() == sb.maxSize - room + total
      invariant s.asked == old(s.asked) + asked && |asked| == |steps| + if failed then 1 else 0
      invariant WellAsked(c, room, steps, asked)
      decreases sb.maxSize - sb.Size(), if failed then 0 else 1
    {
      assert !failed;
      var n;
      n, failed := ReadStep(s, sb, available);
      AskedOnce(c, room, steps, asked, available);
      asked := asked + [available];
      if n > 0 {
        OneMoreStep(c, steps, n);
        SteppedOnce(c, room, steps, asked, n);
        steps := steps + [n];
      }
      Longer(q, all, total, n);
      total := total + n;
      available := sb.ReadSizeHelper(c.Apply(failed, total));
    }
  }

  lemma Longer(q: seq<Byte>, all: seq<Byte>, total: nat, n: nat)
    requires total + n <= |all|
    ensures q + all[..total + n] == q + all[..total] + all[total..][..n] && all[total + n..] == all[total..][n..]
  {
    assert all[..total + n] == all[..total] + all[total..][..n];
  }

  /** What each condition promises about the number of bytes read. */
  method ReadAmounts(s: Stream, sb: Streambuf, c: Condition) returns (total: nat, failed: bool)
    requires sb.Valid()
    modifies s, sb, sb.buffer
    ensures sb.Valid() && total <= |old(s.remaining)|
    ensures sb.Input() == old(sb.Input()) + old(s.remaining)[..total]
    ensures c.TransferExactly? ==> total <= c.size
    ensures c.TransferAtLeast? && c.minimum > 0 ==> total <= c.minimum + 65535
    ensures failed <==> s.failures > old(s.failures)
    ensures !failed && sb.Size() < sb.maxSize ==>
      match c
      case TransferAll => false
      case TransferAtLeast(minimum) => total >= minimum
      case TransferExactly(size) => total == size
  {
    ghost var steps, asked;
    total, failed, steps, asked := ReadUntil(s, sb, c);
    match c {
      case TransferAll => AllNeverStops(c, false, total);
      case TransferAtLeast(minimum) => AtLeastReaches(minimum, steps);
      case TransferExactly(size) => ExactlyIsExact(size, steps);
    }
  }
}
