// A model of the throttled null character device "nulll": every write is
// discarded but accounted against a cumulative counter `written`, which a
// load-time `capacity` (0 = no limit) caps. Write and ioctl each run as one
// critical section; read and lseek take no lock. What the environment decides
// (an interrupted lock wait, a faulting copy to user memory) arrives as a
// boolean parameter.

module Nulll {

  /** `unsigned long` and `size_t` on a 64-bit kernel. */
  const ULONG_MODULUS: int := 0x1_0000_0000_0000_0000
  type ULong = x: int | 0 <= x < ULONG_MODULUS

  /** `unsigned int`, the type of an ioctl command number. */
  type UInt = x: int | 0 <= x < 0x1_0000_0000

  /** `loff_t`, a signed 64-bit file offset. */
  type LOff = x: int | -0x8000_0000_0000_0000 <= x < 0x8000_0000_0000_0000

  /** The block-layer "size in bytes" query, _IOR(0x12, 114, size_t). */
  const BLKGETSIZE64: UInt := 0x8008_1272

  datatype Option<T> = None | Some(value: T)

  /** `a + b` on `unsigned long`: the sum wraps around modulo 2^64. */
  function AddULong(a: ULong, b: ULong): (r: ULong)
    ensures a + b < ULONG_MODULUS ==> r == a + b
    ensures a + b >= ULONG_MODULUS ==> r < a && r < b && r == a + b - ULONG_MODULUS
  {
    (a + b) % ULONG_MODULUS
  }

  /** The kernel error numbers this device can return, negated, as results. */
  datatype Errno = EFAULT | ENOSPC | ERESTARTSYS | ENOIOCTLCMD {
    function Number(): (n: nat)
      ensures 0 < n
      ensures n < 4096  // below -MAX_ERRNO a negative return is not an error
    {
      match this
      case EFAULT => 14
      case ENOSPC => 28
      case ERESTARTSYS => 512
      case ENOIOCTLCMD => 515
    }
  }

  /** Half of 2^64: `ssize_t` and `long` hold -SIGNED_HALF .. SIGNED_HALF - 1. */
  const SIGNED_HALF: int := 0x8000_0000_0000_0000

  /** What a file operation returns: a count or a negated errno. */
  datatype Outcome = Success(value: ULong) | Failure(errno: Errno) {
    /**
     * The value the C function returns: a 64-bit signed integer with the same
     * bits as the count, so a count of 2^63 or more reads as negative.
     */
    function Code(): (r: int)
      ensures -SIGNED_HALF <= r < SIGNED_HALF
      ensures Success? ==> (r - value) % ULONG_MODULUS == 0
      ensures Success? && value < SIGNED_HALF ==> r == value
      ensures Failure? ==> r == -(errno.Number() as int) && -4096 < r < 0
    {
      match this
      case Success(n) => if n < SIGNED_HALF then n else n - ULONG_MODULUS
      case Failure(e) => -(e.Number() as int)
    }
  }

  /**
   * While counts stay below 2^63, every exit path of every operation is told
   * apart by its return value, and a return value is non-negative exactly on
   * success.
   */
  lemma CodeDetermines(a: Outcome, b: Outcome)
    ensures (a.Success? ==> a.value < SIGNED_HALF) && (b.Success? ==> b.value < SIGNED_HALF) ==>
              (a.Code() == b.Code() <==> a == b)
    ensures a.Code() >= 0 <==> a.Success? && a.value < SIGNED_HALF
  {
  }

  /**
   * The `ssize_t` result of nulll.c:56: an accepted write of 2^64 - 28 bytes
   * returns the same value as the -ENOSPC of nulll.c:50.
   */
  lemma HugeWriteLooksLikeNoSpace()
    ensures Success(ULONG_MODULUS - 28).Code() == Failure(ENOSPC).Code() == -28
  {
  }

  /** The admission rule of nulll_write: unlimited, or the (wrapped) sum fits. */
  predicate Admits(capacity: ULong, written: ULong, size: ULong) {
    capacity == 0 || AddULong(written, size) <= capacity
  }

  datatype Transition = Transition(result: Outcome, written: ULong)

  /**
   * The critical section of nulll_write, as a function of the counter before
   * the call: all or nothing, with the exact error of each early exit.
   */
  function WriteTransition(capacity: ULong, written: ULong, size: ULong, interrupted: bool): (t: Transition)
    ensures interrupted ==> t == Transition(Failure(ERESTARTSYS), written)
    ensures !interrupted && !Admits(capacity, written, size) ==> t == Transition(Failure(ENOSPC), written)
    ensures !interrupted && Admits(capacity, written, size) ==>
              t == Transition(Success(size), AddULong(written, size))
    ensures capacity != 0 && written <= capacity ==> t.written <= capacity
  {
    if interrupted then Transition(Failure(ERESTARTSYS), written)
    else if capacity != 0 && AddULong(written, size) > capacity then Transition(Failure(ENOSPC), written)
    else Transition(Success(size), AddULong(written, size))
  }

  /** A write either is accepted whole, advancing the counter by `size`, or changes nothing. */
  lemma WriteAllOrNothing(capacity: ULong, written: ULong, size: ULong, interrupted: bool)
    ensures var t := WriteTransition(capacity, written, size, interrupted);
            (t.result == Success(size) && t.written == AddULong(written, size)) ||
            (t.result.Failure? && t.written == written)
  {
  }

  /** Without overflow, an accepted write adds exactly `size` and the counter never goes down. */
  lemma WriteGrowsWithoutOverflow(capacity: ULong, written: ULong, size: ULong, interrupted: bool)
    requires written + size < ULONG_MODULUS
    ensures var t := WriteTransition(capacity, written, size, interrupted);
            written <= t.written &&
            (t.result.Success? <==> !interrupted && (capacity == 0 || written + size <= capacity)) &&
            (t.result.Success? ==> t.written == written + size)
  {
  }

  /**
   * With the wrap-around of nulll.c:49 and :54, a huge `size` passes the
   * capacity check and the counter goes down: the bound survives, growth does not.
   * With the largest capacity, a full counter wraps back to 0 on a one-byte write.
   */
  lemma WrapLetsCounterShrink()
    ensures var t := WriteTransition(100, 10, ULONG_MODULUS - 5, false);
            t == Transition(Success(ULONG_MODULUS - 5), 5) && t.written < 10
    ensures var full := ULONG_MODULUS - 1;
            WriteTransition(full, full, 1, false) == Transition(Success(1), 0)
  {
  }

  datatype Reply = Reply(result: Outcome, delivered: Option<ULong>)

  /** nulll_ioctl: only BLKGETSIZE64 is answered, with the counter copied out as it is. */
  function IoctlReply(written: ULong, cmd: UInt, interrupted: bool, fault: bool): (r: Reply)
    ensures cmd != BLKGETSIZE64 ==> r == Reply(Failure(ENOIOCTLCMD), None)
    ensures cmd == BLKGETSIZE64 && interrupted ==> r == Reply(Failure(ERESTARTSYS), None)
    ensures cmd == BLKGETSIZE64 && !interrupted && fault ==> r == Reply(Failure(EFAULT), None)
    ensures r.result.Success? <==> cmd == BLKGETSIZE64 && !interrupted && !fault
    ensures r.result.Success? ==> r == Reply(Success(0), Some(written))
  {
    if cmd == BLKGETSIZE64 then
      if interrupted then Reply(Failure(ERESTARTSYS), None)
      else if fault then Reply(Failure(EFAULT), None)
      else Reply(Success(0), Some(written))
    else Reply(Failure(ENOIOCTLCMD), None)
  }

  /** The per-open-file state the device touches: the file position `f_pos`. */
  class OpenFile {
    var pos: LOff

    constructor (pos: LOff)
      ensures this.pos == pos
    {
      this.pos := pos;
    }
  }

  /** The device's module-level state: the load-time capacity and the counter. */
  class Device {
    const capacity: ULong  // 0 stands for no limit
    var written: ULong

    /** The capacity bound; it holds from loading on. */
    ghost predicate Valid()
      reads this
    {
      capacity != 0 ==> written <= capacity
    }

    constructor (capacity: ULong)
      ensures this.capacity == capacity && written == 0 && Valid()
    {
      this.capacity := capacity;
      written := 0;
    }

    /** nulll_read: end of file, always; nothing is touched. */
    method Read(file: OpenFile, size: ULong, off: LOff) returns (r: Outcome)
      ensures r == Success(0)
    {
      r := Success(0);
    }

    /** nulll_write: the buffer is never looked at and `off` plays no part. */
    method Write(file: OpenFile, size: ULong, off: LOff, interrupted: bool) returns (r: Outcome)
      modifies this
      ensures Transition(r, written) == WriteTransition(capacity, old(written), size, interrupted)
      ensures old(Valid()) ==> Valid()
    {
      if interrupted {
        r := Failure(ERESTARTSYS);
        return;
      }
      if capacity != 0 && AddULong(written, size) > capacity {
        r := Failure(ENOSPC);
        return;
      }
      written := AddULong(written, size);
      r := Success(size);
    }

    /** nulll_lseek: whatever the request, the position collapses to 0. */
    method Lseek(file: OpenFile, offset: LOff, orig: int) returns (r: LOff)
      modifies file
      ensures file.pos == 0 && r == 0
    {
      file.pos := 0;
      r := file.pos;
    }

    /** nulll_ioctl: answers BLKGETSIZE64 under the lock; reads the counter only. */
    method Ioctl(file: OpenFile, cmd: UInt, arg: ULong, interrupted: bool, fault: bool)
      returns (r: Outcome, delivered: Option<ULong>)
      ensures Reply(r, delivered) == IoctlReply(written, cmd, interrupted, fault)
    {
      r, delivered := Success(0), None;
      if cmd == BLKGETSIZE64 {
        if interrupted {
          r := Failure(ERESTARTSYS);
          return;
        }
        if fault {
          r := Failure(EFAULT);
        } else {
          delivered := Some(written);
        }
      } else {
        r := Failure(ENOIOCTLCMD);
      }
    }
  }

  /** Two size queries with no write between them report the same counter. */
  method QueryTwice(d: Device, file: OpenFile) returns (first: Option<ULong>, second: Option<ULong>)
    ensures first == second == Some(d.written)
  {
    var r;
    r, first := d.Ioctl(file, BLKGETSIZE64, 0, false, false);
    r := d.Read(file, 4096, 0);
    r, second := d.Ioctl(file, BLKGETSIZE64, 0, false, false);
  }

  /** The capacity-100 walk-through, against the class's contracts alone. */
  method CapacityHundred() returns (total: Option<ULong>)
    ensures total == Some(100)
  {
    var d := new Device(100);
    var f := new OpenFile(0);
    var r := d.Write(f, 60, 0, false);
    assert r == Success(60) && d.written == 60;
    r := d.Write(f, 50, 0, false);
    assert r == Failure(ENOSPC) && d.written == 60;
    r := d.Write(f, 40, 0, false);
    assert r == Success(40) && d.written == 100;
    r := d.Write(f, 1, 0, false);
    assert r == Failure(ENOSPC) && d.written == 100;
    r, total := d.Ioctl(f, BLKGETSIZE64, 0, false, false);
  }
}
