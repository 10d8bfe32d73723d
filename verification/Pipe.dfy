/** pipewrite and piperead (pipe.c): a ring buffer with free-running 32-bit counters, shared by any
    number of readers and writers. The pipe's lock makes everything between two sleeps one step. */
module Pipe {
  import opened Blocks

  const PIPESIZE := 512

  /** struct pipe, and every byte ever written to it and read from it. */
  datatype State = State(data: seq<Byte>, nread: Uint, nwrite: Uint, readopen: bool, writeopen: bool,
                         written: seq<Byte>, taken: seq<Byte>)

  /** The counters are the numbers of bytes read and written, modulo 2^32; at most PIPESIZE bytes are
      in flight, and each sits in its slot. */
  ghost predicate Inv(s: State) {
    && |s.data| == PIPESIZE
    && s.taken <= s.written && |s.written| - |s.taken| <= PIPESIZE
    && s.nread == |s.taken| % 0x1_0000_0000 && s.nwrite == |s.written| % 0x1_0000_0000
    && forall k :: |s.taken| <= k < |s.written| ==> s.data[k % PIPESIZE] == s.written[k]
  }

  // ---------- one critical section of each call ----------

  predicate Full(s: State) { s.nwrite == AddUint(s.nread, PIPESIZE) }
  predicate Empty(s: State) { s.nread == s.nwrite }

  /** p->data[p->nwrite++ % PIPESIZE] = c */
  function Put(s: State, c: Byte): State
    requires |s.data| == PIPESIZE
  {
    s.(data := s.data[s.nwrite % PIPESIZE := c], nwrite := AddUint(s.nwrite, 1), written := s.written + [c])
  }

  /** p->data[p->nread++ % PIPESIZE] */
  function Get(s: State): (State, Byte)
    requires |s.data| == PIPESIZE
  {
    var c := s.data[s.nread % PIPESIZE];
    (s.(nread := AddUint(s.nread, 1), taken := s.taken + [c]), c)
  }

  /** The tests on the wrapping counters say what they mean because PIPESIZE divides 2^32. */
  lemma {:induction false} CountersExact(s: State)
    requires Inv(s)
    ensures Full(s) <==> |s.written| - |s.taken| == PIPESIZE
    ensures Empty(s) <==> s.written == s.taken
    ensures s.nwrite % PIPESIZE == |s.written| % PIPESIZE && s.nread % PIPESIZE == |s.taken| % PIPESIZE
  {
    SlotOf(|s.written|);
    SlotOf(|s.taken|);
    var d := |s.written| - |s.taken|;
    assert s.nwrite == AddUint(s.nread, d) by { WrapAdd(|s.taken|, d); }
  }

  lemma {:induction false} SlotOf(n: nat)
    ensures n % 0x1_0000_0000 % PIPESIZE == n % PIPESIZE
  {
    var q := n / 0x1_0000_0000;
    assert n == 0x1_0000_0000 * q + n % 0x1_0000_0000;
    var r := n % 0x1_0000_0000;
    var k := 0x80_0000 * q + r / PIPESIZE;
    assert n == PIPESIZE * k + r % PIPESIZE;
    Remainder(k, r % PIPESIZE);
  }

  lemma {:induction false} Remainder(k: nat, r: nat)
    requires r < PIPESIZE
    ensures (PIPESIZE * k + r) % PIPESIZE == r
  {
  }

  lemma {:induction false} WrapAdd(a: nat, b: nat)
    ensures (a + b) % 0x1_0000_0000 == (a % 0x1_0000_0000 + b) % 0x1_0000_0000
  {
    assert a + b == 0x1_0000_0000 * (a / 0x1_0000_0000) + (a % 0x1_0000_0000 + b);
  }

  lemma {:induction false} PutInv(s: State, c: Byte)
    requires Inv(s) && !Full(s)
    ensures Inv(Put(s, c))
  {
    CountersExact(s);
    WrapAdd(|s.written|, 1);
    var s' := Put(s, c);
    forall k | |s'.taken| <= k < |s'.written| ensures s'.data[k % PIPESIZE] == s'.written[k] {
      if k < |s.written| {
        DifferentSlots(k, |s.written|);
      }
    }
  }

  /** Less than PIPESIZE apart means different slots. */
  lemma {:induction false} DifferentSlots(a: nat, b: nat)
    requires a < b < a + PIPESIZE
    ensures a % PIPESIZE != b % PIPESIZE
  {
  }

  lemma {:induction false} GetInv(s: State)
    requires Inv(s) && !Empty(s)
    ensures Inv(Get(s).0) && Get(s).1 == s.written[|s.taken|]
  {
    CountersExact(s);
    WrapAdd(|s.taken|, 1);
  }

  // ---------- the loops ----------

  /** pipewrite's loop: bytes go in one by one until there are none left or the pipe is full. */
  function Fill(s: State, bytes: seq<Byte>): (r: State)
    requires |s.data| == PIPESIZE
    ensures |r.data| == PIPESIZE
    decreases |bytes|
  {
    if bytes == [] || Full(s) then s else Fill(Put(s, bytes[0]), bytes[1..])
  }

  /** piperead's loop: bytes come out one by one until there are n or the pipe is empty. */
  function Drain(s: State, n: nat): (r: State)
    requires |s.data| == PIPESIZE
    ensures |r.data| == PIPESIZE
    decreases n
  {
    if n == 0 || Empty(s) then s else Drain(Get(s).0, n - 1)
  }

  /** pipealloc, on a page that holds anything. */
  function Start(data: seq<Byte>): State { State(data, 0, 0, true, true, [], []) }

  /** What a critical section of pipewrite may end with. */
  datatype WriteEnd = AllWritten | Asleep(i: nat) | Broken

  class PipeBuffer {
    var data: array<Byte>
    var nread: Uint
    var nwrite: Uint
    var readopen: bool
    var writeopen: bool
    ghost var written: seq<Byte>
    ghost var taken: seq<Byte>

    ghost function Abs(): State
      reads this, data
    {
      State(data[..], nread, nwrite, readopen, writeopen, written, taken)
    }

    ghost predicate Valid()
      reads this, data
    {
      Inv(Abs())
    }

    /** pipealloc */
    constructor ()
      ensures Valid() && fresh(data) && data.Length == PIPESIZE && Abs() == Start(data[..])
      ensures readopen && writeopen && written == taken == []
    {
      data := new Byte[PIPESIZE](_ => 0);
      nread, nwrite, readopen, writeopen := 0, 0, true, true;
      written, taken := [], [];
    }

    /** pipewrite from byte i on, until it returns or sleeps: it sleeps only when the buffer is full and
        a reader may come, and everything it took from addr is in the pipe in order. */
    method Pipewrite(addr: seq<Byte>, i: nat, killed: bool) returns (r: WriteEnd, n: nat)
      requires Valid() && i <= |addr|
      modifies this`nwrite, this`written, data
      ensures Valid() && data == old(data) && Abs() == Fill(old(Abs()), addr[i..]) && i <= n <= |addr|
      ensures written == old(written) + addr[i..n]
      ensures r.AllWritten? <==> n == |addr|
      ensures !r.AllWritten? ==> |written| - |taken| == PIPESIZE
      ensures r.Asleep? ==> r.i == n && readopen && !killed
      ensures r.Broken? ==> !readopen || killed
    {
      n := i;
      while n < |addr|
        invariant i <= n <= |addr| && Valid() && written == old(written) + addr[i..n] && taken == old(taken)
        invariant Fill(Abs(), addr[n..]) == Fill(old(Abs()), addr[i..])
      {
        CountersExact(Abs());
        if nwrite == AddUint(nread, PIPESIZE) {
          if !readopen || killed {
            return Broken, n;
          }
          return Asleep(n), n;
        }
        ghost var s := Abs();
        PutInv(s, addr[n]);
        data[nwrite % PIPESIZE] := addr[n];
        nwrite := AddUint(nwrite, 1);
        written := written + [addr[n]];
        assert Abs() == Put(s, addr[n]);
        assert addr[n..][1..] == addr[n + 1..];
        n := n + 1;
      }
      return AllWritten, n;
    }

    /** p->data[p->nread++ % PIPESIZE] */
    method Take() returns (c: Byte)
      requires Valid() && !Empty(Abs())
      modifies this`nread, this`taken
      ensures Valid() && Abs() == Get(old(Abs())).0 && taken == old(taken) + [c]
    {
      ghost var s := Abs();
      GetInv(s);
      c := data[nread % PIPESIZE];
      nread := AddUint(nread, 1);
      taken := taken + [c];
      assert Abs() == Get(s).0;
    }

    /** piperead after its waiting loop: it takes the oldest bytes, as many as asked for or there are. */
    method Piperead(n: nat) returns (addr: seq<Byte>)
      requires Valid()
      modifies this`nread, this`taken
      ensures Valid() && Abs() == Drain(old(Abs()), n) && taken == old(taken) + addr
      ensures |addr| == if n < |old(written)| - |old(taken)| then n else |old(written)| - |old(taken)|
    {
      addr := [];
      var i := 0;
      while i < n
        invariant 0 <= i <= n && |addr| == i && Valid() && taken == old(taken) + addr
        invariant Drain(Abs(), n - i) == Drain(old(Abs()), n)
      {
        CountersExact(Abs());
        if nread == nwrite {
          break;
        }
        var c := Take();
        addr := addr + [c];
        i := i + 1;
      }
      CountersExact(Abs());
    }

    /** pipeclose: shuts one end; the pipe goes when both are shut. */
    method Pipeclose(writable: bool) returns (freed: bool)
      requires Valid()
      modifies this`readopen, this`writeopen
      ensures Valid() && Abs() == Next(old(Abs()), if writable then CloseWrite else CloseRead)
      ensures writeopen == (old(writeopen) && !writable) && readopen == (old(readopen) && writable)
      ensures freed <==> !readopen && !writeopen
    {
      if writable {
        writeopen := false;
      } else {
        readopen := false;
      }
      freed := !readopen && !writeopen;
    }

    /** The waiting test of piperead: sleep only on an empty pipe that may still be written. */
    method MustWait() returns (wait: bool)
      requires Valid()
      ensures wait <==> written == taken && writeopen
    {
      CountersExact(Abs());
      wait := nread == nwrite && writeopen;
    }
  }

  // ---------- all interleavings ----------

  /** One critical section of some process: it writes bytes until the pipe is full, reads until it is empty, or
      closes an end. */
  datatype Step = Write(bytes: seq<Byte>) | Read(n: nat) | CloseRead | CloseWrite

  function Next(s: State, t: Step): (r: State)
    requires |s.data| == PIPESIZE
    ensures |r.data| == PIPESIZE
  {
    match t
    case Write(bytes) => Fill(s, bytes)
    case Read(n) => Drain(s, n)
    case CloseRead => s.(readopen := false)
    case CloseWrite => s.(writeopen := false)
  }

  lemma {:induction false} FillInv(s: State, bytes: seq<Byte>)
    requires Inv(s)
    ensures Inv(Fill(s, bytes)) && Fill(s, bytes).taken == s.taken
    ensures Fill(s, bytes).readopen == s.readopen && Fill(s, bytes).writeopen == s.writeopen
    decreases |bytes|
  {
    if bytes != [] && !Full(s) {
      PutInv(s, bytes[0]);
      FillInv(Put(s, bytes[0]), bytes[1..]);
    }
  }

  lemma {:induction false} DrainInv(s: State, n: nat)
    requires Inv(s)
    ensures Inv(Drain(s, n)) && Drain(s, n).written == s.written
    ensures Drain(s, n).readopen == s.readopen && Drain(s, n).writeopen == s.writeopen
    decreases n
  {
    if n > 0 && !Empty(s) {
      GetInv(s);
      DrainInv(Get(s).0, n - 1);
    }
  }

  function Run(s: State, steps: seq<Step>): (r: State)
    requires |s.data| == PIPESIZE
    ensures |r.data| == PIPESIZE
  {
    if steps == [] then s else Next(Run(s, steps[..|steps| - 1]), steps[|steps| - 1])
  }

  /** The n bytes in the ring from the read position on. */
  function InFlight(s: State, n: nat): seq<Byte>
    requires |s.data| == PIPESIZE
  {
    if n == 0 then [] else InFlight(s, n - 1) + [s.data[(s.nread + n - 1) % PIPESIZE]]
  }

  lemma {:induction false} InFlightExact(s: State, n: nat)
    requires Inv(s) && n <= |s.written| - |s.taken|
    ensures s.taken + InFlight(s, n) == s.written[..|s.taken| + n]
  {
    if n > 0 {
      InFlightExact(s, n - 1);
      var k := |s.taken| + (n - 1);
      InFlightByte(s, n - 1, k);
      assert s.written[..k + 1] == s.written[..k] + [s.written[k]];
    }
  }

  lemma {:induction false} InFlightByte(s: State, n: nat, k: nat)
    requires Inv(s) && k == |s.taken| + n < |s.written|
    ensures s.data[(s.nread + n) % PIPESIZE] == s.written[k]
  {
    SlotOf(|s.taken|);
    ShiftSlot(s.nread, |s.taken|, n);
    assert s.data[k % PIPESIZE] == s.written[k];
  }

  lemma {:induction false} ShiftSlot(a: nat, b: nat, k: nat)
    requires a % PIPESIZE == b % PIPESIZE
    ensures (a + k) % PIPESIZE == (b + k) % PIPESIZE
  {
  }

  lemma {:induction false} NextInv(s: State, t: Step)
    requires Inv(s)
    ensures Inv(Next(s, t))
  {
    match t {
      case Write(bytes) => FillInv(s, bytes);
      case Read(n) => DrainInv(s, n);
      case CloseRead =>
      case CloseWrite =>
    }
  }

  lemma {:induction false} RunInv(s: State, steps: seq<Step>)
    requires Inv(s)
    ensures Inv(Run(s, steps))
  {
    if steps != [] {
      RunInv(s, steps[..|steps| - 1]);
      NextInv(Run(s, steps[..|steps| - 1]), steps[|steps| - 1]);
    }
  }

  lemma {:induction false} NextEnds(s: State, t: Step)
    requires Inv(s)
    ensures Next(s, t).readopen == (s.readopen && t != CloseRead)
    ensures Next(s, t).writeopen == (s.writeopen && t != CloseWrite)
  {
    match t {
      case Write(bytes) => FillInv(s, bytes);
      case Read(n) => DrainInv(s, n);
      case CloseRead =>
      case CloseWrite =>
    }
  }

  /** In every run each end is open exactly until it is closed. */
  lemma {:induction false} EndsExact(data: seq<Byte>, steps: seq<Step>)
    requires |data| == PIPESIZE
    ensures Run(Start(data), steps).readopen <==> CloseRead !in steps
    ensures Run(Start(data), steps).writeopen <==> CloseWrite !in steps
  {
    if steps != [] {
      var n := |steps| - 1;
      EndsExact(data, steps[..n]);
      assert steps == steps[..n] + [steps[n]];
      RunInv(Start(data), steps[..n]);
      NextEnds(Run(Start(data), steps[..n]), steps[n]);
    }
  }

  /** From an empty pipe, whatever readers and writers do, in whatever order: the bytes read followed by the
      bytes in the ring are the bytes written, and the wrapping counters differ by the ring's length, at
      most PIPESIZE. */
  lemma {:induction false} Fifo(data: seq<Byte>, steps: seq<Step>)
    requires |data| == PIPESIZE
    ensures var r := Run(Start(data), steps);
            && |r.taken| <= |r.written| <= |r.taken| + PIPESIZE
            && r.taken + InFlight(r, |r.written| - |r.taken|) == r.written
            && (r.nwrite - r.nread) % 0x1_0000_0000 == |r.written| - |r.taken|
  {
    RunInv(Start(data), steps);
    var r := Run(Start(data), steps);
    var d := |r.written| - |r.taken|;
    InFlightExact(r, d);
    assert r.written[..|r.taken| + d] == r.written;
    CounterGap(|r.taken|, d);
  }

  lemma {:induction false} CounterGap(a: nat, d: nat)
    requires d <= PIPESIZE
    ensures ((a + d) % 0x1_0000_0000 - a % 0x1_0000_0000) % 0x1_0000_0000 == d
  {
    WrapAdd(a, d);
  }
}
