// Runs of the nulll device over a sequence of file operations. The device's
// mutex serialises concurrent callers, so every concurrent execution is one
// of these sequences (in some order the model leaves open); the properties
// below hold for every order.

module NulllTraces {
  import opened Nulll

  /** One file operation on the device, with the choices the environment made. */
  datatype Call =
    | WriteCall(size: ULong, interrupted: bool)
    | ReadCall(size: ULong)
    | LseekCall(offset: LOff, orig: int)
    | IoctlCall(cmd: UInt, interrupted: bool, fault: bool)

  /** The counter, and the position of the one open file the calls go through. */
  datatype State = State(written: ULong, pos: LOff)

  datatype Effect = Effect(reply: Reply, next: State)

  /** One call: writes go through WriteTransition, queries through IoctlReply. */
  function Step(capacity: ULong, s: State, c: Call): (e: Effect)
    ensures !c.WriteCall? ==> e.next.written == s.written
    ensures c.LseekCall? ==> e.next.pos == 0 && e.reply == Reply(Success(0), None)
    ensures !c.LseekCall? ==> e.next.pos == s.pos
    ensures c.ReadCall? ==> e.reply == Reply(Success(0), None)
    ensures e.reply.delivered.Some? ==> e.reply.delivered == Some(s.written)
    ensures capacity != 0 && s.written <= capacity ==> e.next.written <= capacity
  {
    match c
    case WriteCall(size, interrupted) =>
      var t := WriteTransition(capacity, s.written, size, interrupted);
      Effect(Reply(t.result, None), s.(written := t.written))
    case ReadCall(_) => Effect(Reply(Success(0), None), s)
    case LseekCall(_, _) => Effect(Reply(Success(0), None), s.(pos := 0))
    case IoctlCall(cmd, interrupted, fault) => Effect(IoctlReply(s.written, cmd, interrupted, fault), s)
  }

  datatype Trace = Trace(replies: seq<Reply>, final: State)

  /** The replies to a sequence of calls, one per call, and the state after the last. */
  function Run(capacity: ULong, s: State, calls: seq<Call>): (t: Trace)
    ensures |t.replies| == |calls|
    decreases |calls|
  {
    if calls == [] then Trace([], s)
    else
      var e := Step(capacity, s, calls[0]);
      var rest := Run(capacity, e.next, calls[1..]);
      Trace([e.reply] + rest.replies, rest.final)
  }

  /** The total size of the write calls whose reply is a success. */
  function Accepted(calls: seq<Call>, replies: seq<Reply>): (total: nat)
    requires |replies| == |calls|
    decreases |calls|
  {
    if calls == [] then 0
    else
      (if calls[0].WriteCall? && replies[0].result.Success? then calls[0].size else 0)
      + Accepted(calls[1..], replies[1..])
  }

  /** How many replies carry the result `o`. */
  function CountResult(replies: seq<Reply>, o: Outcome): (count: nat)
    ensures count <= |replies|
    decreases |replies|
  {
    if replies == [] then 0
    else (if replies[0].result == o then 1 else 0) + CountResult(replies[1..], o)
  }

  /** No sequence of calls pushes the counter past a non-zero capacity. */
  lemma {:induction false} RunKeepsBound(capacity: ULong, s: State, calls: seq<Call>)
    requires capacity != 0 && s.written <= capacity
    ensures Run(capacity, s, calls).final.written <= capacity
    decreases |calls|
  {
    if calls != [] {
      RunKeepsBound(capacity, Step(capacity, s, calls[0]).next, calls[1..]);
    }
  }

  /**
   * For every run, the counter is its start value plus the sizes of exactly
   * the accepted writes, modulo 2^64: no update is lost and none is counted
   * twice.
   */
  lemma {:induction false} RunAccountingMod(capacity: ULong, s: State, calls: seq<Call>)
    ensures var t := Run(capacity, s, calls);
            t.final.written == (s.written + Accepted(calls, t.replies)) % ULONG_MODULUS
    decreases |calls|
  {
    if calls != [] {
      var e := Step(capacity, s, calls[0]);
      RunAccountingMod(capacity, e.next, calls[1..]);
      var t := Run(capacity, s, calls);
      var rest := Run(capacity, e.next, calls[1..]);
      assert t.replies[0] == e.reply && t.replies[1..] == rest.replies;
      var first := if calls[0].WriteCall? && e.reply.result.Success? then calls[0].size else 0;
      assert Accepted(calls, t.replies) == first + Accepted(calls[1..], rest.replies);
      assert e.next.written == (s.written + first) % ULONG_MODULUS;
      ModAddAssoc(s.written + first, Accepted(calls[1..], rest.replies));
    }
  }

  /** ((a mod 2^64) + b) mod 2^64 == (a + b) mod 2^64. */
  lemma ModAddAssoc(a: nat, b: nat)
    ensures (a % ULONG_MODULUS + b) % ULONG_MODULUS == (a + b) % ULONG_MODULUS
  {
  }

  /**
   * While the accepted sizes do not overflow the counter, it is exactly its
   * start value plus those sizes, so it never goes down.
   */
  lemma RunAccounting(capacity: ULong, s: State, calls: seq<Call>)
    requires s.written + Accepted(calls, Run(capacity, s, calls).replies) < ULONG_MODULUS
    ensures var t := Run(capacity, s, calls);
            t.final.written == s.written + Accepted(calls, t.replies) &&
            s.written <= t.final.written
  {
    RunAccountingMod(capacity, s, calls);
  }

  /**
   * From a fresh device with a capacity, while the accepted sizes do not
   * overflow, they sum to at most the capacity and a size query reports
   * exactly that sum.
   */
  lemma AcceptedWithinCapacity(capacity: ULong, calls: seq<Call>, pos: LOff)
    requires capacity != 0 && Accepted(calls, Run(capacity, State(0, pos), calls).replies) < ULONG_MODULUS
    ensures var t := Run(capacity, State(0, pos), calls);
            Accepted(calls, t.replies) <= capacity &&
            t.final.written == Accepted(calls, t.replies) &&
            IoctlReply(t.final.written, BLKGETSIZE64, false, false).delivered == Some(Accepted(calls, t.replies))
  {
    RunAccounting(capacity, State(0, pos), calls);
    RunKeepsBound(capacity, State(0, pos), calls);
  }

  /**
   * With the wrap of nulll.c:49 and :54, the accepted sizes can exceed the
   * capacity: writes of 10 and 2^64 - 5 bytes at capacity 100 are both
   * accepted, and the counter ends at 5.
   */
  lemma AcceptedCanExceedCapacity()
    ensures var calls := [WriteCall(10, false), WriteCall(ULONG_MODULUS - 5, false)];
            var t := Run(100, State(0, 0), calls);
            t.replies == [Reply(Success(10), None), Reply(Success(ULONG_MODULUS - 5), None)] &&
            Accepted(calls, t.replies) == ULONG_MODULUS + 5 &&
            t.final.written == 5
  {
    var calls := [WriteCall(10, false), WriteCall(ULONG_MODULUS - 5, false)];
    var last := calls[1..];
    assert last[1..] == [];
    assert Run(100, State(10, 0), last) == Trace([Reply(Success(ULONG_MODULUS - 5), None)], State(5, 0));
    var t := Run(100, State(0, 0), calls);
    assert t == Trace([Reply(Success(10), None), Reply(Success(ULONG_MODULUS - 5), None)], State(5, 0));
    assert Accepted(last, t.replies[1..]) == ULONG_MODULUS - 5;
  }

  /**
   * Drives the device's own methods through a sequence of calls, one after
   * the other: the replies, the counter and the file position are those of Run.
   */
  method RunDevice(d: Device, f: OpenFile, calls: seq<Call>) returns (replies: seq<Reply>)
    modifies d, f
    ensures var t := Run(d.capacity, State(old(d.written), old(f.pos)), calls);
            replies == t.replies && d.written == t.final.written && f.pos == t.final.pos
  {
    ghost var whole := Run(d.capacity, State(d.written, f.pos), calls);
    replies := [];
    var i := 0;
    while i < |calls|
      invariant 0 <= i <= |calls|
      invariant var m := Run(d.capacity, State(d.written, f.pos), calls[i..]);
                whole == Trace(replies + m.replies, m.final)
      decreases |calls| - i
    {
      ghost var before := State(d.written, f.pos);
      assert calls[i..][0] == calls[i] && calls[i..][1..] == calls[i + 1..];
      var reply: Reply;
      match calls[i] {
        case WriteCall(size, interrupted) =>
          var r := d.Write(f, size, 0, interrupted);
          reply := Reply(r, None);
        case ReadCall(size) =>
          var r := d.Read(f, size, 0);
          reply := Reply(r, None);
        case LseekCall(offset, orig) =>
          var at := d.Lseek(f, offset, orig);
          reply := Reply(Success(at), None);
        case IoctlCall(cmd, interrupted, fault) =>
          var r, delivered := d.Ioctl(f, cmd, 0, interrupted, fault);
          reply := Reply(r, delivered);
      }
      assert Step(d.capacity, before, calls[i]) == Effect(reply, State(d.written, f.pos));
      replies := replies + [reply];
      i := i + 1;
    }
    assert calls[i..] == [];
  }

  /** Reads, seeks and queries leave the counter alone, so every query they surround agrees. */
  lemma {:induction false} QueriesWithoutWritesAgree(capacity: ULong, s: State, calls: seq<Call>)
    requires forall i :: 0 <= i < |calls| ==> !calls[i].WriteCall?
    ensures var t := Run(capacity, s, calls);
            t.final.written == s.written &&
            forall i :: 0 <= i < |t.replies| && t.replies[i].delivered.Some? ==>
              t.replies[i].delivered == Some(s.written)
    decreases |calls|
  {
    if calls != [] {
      var e := Step(capacity, s, calls[0]);
      QueriesWithoutWritesAgree(capacity, e.next, calls[1..]);
      var t := Run(capacity, s, calls);
      var rest := Run(capacity, e.next, calls[1..]);
      assert t.replies == [e.reply] + rest.replies;
      forall i | 0 <= i < |t.replies| && t.replies[i].delivered.Some?
        ensures t.replies[i].delivered == Some(s.written)
      {
        if i > 0 {
          assert t.replies[i] == rest.replies[i - 1];
        }
      }
    }
  }

  /** `n` writers, each writing one byte, none interrupted. */
  function UnitWrites(n: nat): (calls: seq<Call>)
    ensures |calls| == n && forall i :: 0 <= i < n ==> calls[i] == WriteCall(1, false)
  {
    if n == 0 then [] else [WriteCall(1, false)] + UnitWrites(n - 1)
  }

  function Min(a: int, b: int): (m: int)
    ensures m <= a && m <= b && (m == a || m == b)
  {
    if a <= b then a else b
  }

  /**
   * One-byte writers against a capacity: exactly as many succeed as there is
   * room left, every other one fails with ENOSPC, and the counter ends at the
   * number of successes.
   */
  lemma {:induction false} UnitWritersFillCapacity(capacity: ULong, w: ULong, pos: LOff, n: nat)
    requires 0 < capacity < ULONG_MODULUS - 1 && w <= capacity
    ensures var t := Run(capacity, State(w, pos), UnitWrites(n));
            var room := Min(n, capacity - w);
            CountResult(t.replies, Success(1)) == room &&
            CountResult(t.replies, Failure(ENOSPC)) == n - room &&
            t.final.written == w + room
    decreases n
  {
    if n > 0 {
      var calls := UnitWrites(n);
      assert calls[0] == WriteCall(1, false) && calls[1..] == UnitWrites(n - 1);
      var e := Step(capacity, State(w, pos), calls[0]);
      UnitWritersFillCapacity(capacity, e.next.written, pos, n - 1);
      var t := Run(capacity, State(w, pos), calls);
      var rest := Run(capacity, e.next, calls[1..]);
      assert t.replies[0] == e.reply && t.replies[1..] == rest.replies;
      if w < capacity {
        assert e.reply.result == Success(1) && e.next.written == w + 1;
      } else {
        assert e.reply.result == Failure(ENOSPC) && e.next.written == w;
      }
    }
  }

  /**
   * T concurrent one-byte writers against capacity T - 1: T - 1 succeed, one
   * fails with ENOSPC, and a size query afterwards reports T - 1.
   */
  lemma OneWriterTooMany(t: nat, pos: LOff)
    requires 2 <= t < ULONG_MODULUS
    ensures var run := Run(t - 1, State(0, pos), UnitWrites(t));
            CountResult(run.replies, Success(1)) == t - 1 &&
            CountResult(run.replies, Failure(ENOSPC)) == 1 &&
            IoctlReply(run.final.written, BLKGETSIZE64, false, false).delivered == Some(t - 1)
  {
    UnitWritersFillCapacity(t - 1, 0, pos, t);
  }

  /** Capacity 100: write 60, 50, 40, 1, then ask for the size. */
  lemma CapacityHundredRun()
    ensures var t := Run(100, State(0, 0),
                         [WriteCall(60, false), WriteCall(50, false), WriteCall(40, false),
                          WriteCall(1, false), IoctlCall(BLKGETSIZE64, false, false)]);
            t.replies == [Reply(Success(60), None), Reply(Failure(ENOSPC), None),
                          Reply(Success(40), None), Reply(Failure(ENOSPC), None),
                          Reply(Success(0), Some(100))] &&
            t.final.written == 100
  {
    var full := State(100, 0);
    var ask := [IoctlCall(BLKGETSIZE64, false, false)];
    assert ask[1..] == [];
    assert Run(100, full, ask) == Trace([Reply(Success(0), Some(100))], full);
    var one := [WriteCall(1, false)] + ask;
    assert one[1..] == ask;
    var r1 := [Reply(Failure(ENOSPC), None), Reply(Success(0), Some(100))];
    assert Run(100, full, one) == Trace(r1, full);
    var forty := [WriteCall(40, false)] + one;
    assert forty[1..] == one;
    var r40 := [Reply(Success(40), None)] + r1;
    assert Run(100, State(60, 0), forty) == Trace(r40, full);
    var fifty := [WriteCall(50, false)] + forty;
    assert fifty[1..] == forty;
    var r50 := [Reply(Failure(ENOSPC), None)] + r40;
    assert Run(100, State(60, 0), fifty) == Trace(r50, full);
    var calls := [WriteCall(60, false)] + fifty;
    assert calls[1..] == fifty;
    assert Run(100, State(0, 0), calls) == Trace([Reply(Success(60), None)] + r50, full);
    assert calls == [WriteCall(60, false), WriteCall(50, false), WriteCall(40, false),
                     WriteCall(1, false), IoctlCall(BLKGETSIZE64, false, false)];
  }
}
