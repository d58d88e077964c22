/** A pipe's ring buffer with its free-running 32-bit counters: what one stretch of
    pipewrite or piperead under the pipe's lock does to the bytes waiting in the pipe. */
module Pipe {

  const PIPESIZE: nat := 512
  const WORD: nat := 0x1_0000_0000

  type Byte = b: int | 0 <= b < 256

  /** How a stretch ends: the call returns n or the bytes read, it returns -1, or it sleeps. */
  datatype Ending = Done | Failed | MustSleep

  // ----- What the stretches do to the waiting bytes -----

  /** The index reached by a writer that goes on from i. */
  function WriteEnd(waiting: seq<Byte>, addr: seq<Byte>, i: nat): (k: nat)
    requires i <= |addr| && |waiting| <= PIPESIZE
    ensures i <= k <= |addr|
  {
    if |addr| - i <= PIPESIZE - |waiting| then |addr| else i + PIPESIZE - |waiting|
  }

  function WriteEnding(waiting: seq<Byte>, addr: seq<Byte>, i: nat, readopen: bool, killed: bool): Ending
    requires i <= |addr| && |waiting| <= PIPESIZE
  {
    if WriteEnd(waiting, addr, i) == |addr| then Done
    else if !readopen || killed then Failed
    else MustSleep
  }

  function ReadEnding(waiting: seq<Byte>, writeopen: bool, killed: bool): Ending {
    if waiting != [] || !writeopen then Done
    else if killed then Failed
    else MustSleep
  }

  function Taken(waiting: seq<Byte>, n: nat): nat {
    if n <= |waiting| then n else |waiting|
  }

  // ----- The ring -----

  function Used(nread: nat, nwrite: nat): nat {
    (nwrite - nread) % 0x1_0000_0000
  }

  ghost predicate Ring(data: seq<Byte>, nread: nat, nwrite: nat) {
    |data| == PIPESIZE && nread < WORD && nwrite < WORD && Used(nread, nwrite) <= PIPESIZE
  }

  ghost function Waiting(data: seq<Byte>, nread: nat, nwrite: nat): (w: seq<Byte>)
    requires Ring(data, nread, nwrite)
    ensures |w| == Used(nread, nwrite)
  {
    seq(Used(nread, nwrite), k requires k >= 0 => data[(nread + k) % 512])
  }

  lemma Full(nread: nat, nwrite: nat)
    requires nread < WORD && nwrite < WORD && Used(nread, nwrite) <= PIPESIZE
    ensures nwrite == (nread + PIPESIZE) % 0x1_0000_0000 <==> Used(nread, nwrite) == PIPESIZE
  {
  }

  lemma Put(data: seq<Byte>, nread: nat, nwrite: nat, b: Byte)
    requires Ring(data, nread, nwrite) && Used(nread, nwrite) < PIPESIZE
    ensures var data', next := data[nwrite % 512 := b], (nwrite + 1) % 0x1_0000_0000;
      Ring(data', nread, next) && Waiting(data', nread, next) == Waiting(data, nread, nwrite) + [b]
  {
  }

  lemma Get(data: seq<Byte>, nread: nat, nwrite: nat)
    requires Ring(data, nread, nwrite) && nread != nwrite
    ensures var w, next := Waiting(data, nread, nwrite), (nread + 1) % 0x1_0000_0000;
      w != [] && w[0] == data[nread % 512] && Ring(data, next, nwrite) && Waiting(data, next, nwrite) == w[1..]
  {
  }

  class PipeBuffer {
    const data: array<Byte>
    var nread: nat
    var nwrite: nat
    var readopen: bool
    var writeopen: bool

    ghost predicate Valid()
      reads this, data
    {
      data.Length == PIPESIZE && Ring(data[..], nread, nwrite)
    }

    ghost function Contents(): (w: seq<Byte>)
      requires Valid()
      reads this, data
      ensures |w| <= PIPESIZE
    {
      Waiting(data[..], nread, nwrite)
    }

    /** pipealloc. */
    constructor ()
      ensures fresh(data) && Valid() && Contents() == [] && readopen && writeopen
    {
      data := new Byte[PIPESIZE](_ => 0);
      nread, nwrite, readopen, writeopen := 0, 0, true, true;
    }

    /** pipewrite from acquiring the lock, or from waking up with i bytes written, to the
        next sleep or return. `woke` says whether it called wakeup(&p->nread). */
    method PipeWrite(addr: seq<Byte>, start: nat, killed: bool) returns (i: nat, end: Ending, woke: bool)
      requires Valid() && start <= |addr|
      modifies data, this`nwrite
      ensures Valid()
      ensures i == WriteEnd(old(Contents()), addr, start)
      ensures end == WriteEnding(old(Contents()), addr, start, readopen, killed)
      ensures Contents() == old(Contents()) + addr[start..i]
      ensures i == |addr| || |Contents()| == PIPESIZE
      ensures end.Done? <==> i == |addr|
      ensures end.Failed? <==> i < |addr| && (!readopen || killed)
      ensures woke <==> !end.Failed?
    {
      i := start;
      while i < |addr|
        invariant Valid() && start <= i <= |addr|
        invariant |old(Contents())| + i - start <= PIPESIZE
        invariant Contents() == old(Contents()) + addr[start..i]
      {
        Full(nread, nwrite);
        if nwrite == (nread + PIPESIZE) % 0x1_0000_0000 {
          if !readopen || killed {
            return i, Failed, false;
          }
          return i, MustSleep, true;
        }
        Put(data[..], nread, nwrite, addr[i]);
        assert addr[start..i + 1] == addr[start..i] + [addr[i]];
        AppendOne(old(Contents()), addr[start..i], addr[i]);
        data[nwrite % 512] := addr[i];
        nwrite := (nwrite + 1) % 0x1_0000_0000;
        i := i + 1;
      }
      return i, Done, true;
    }

    /** piperead from acquiring the lock, or from waking up, to the next sleep or return.
        It calls wakeup(&p->nwrite) exactly when it is done. */
    method PipeRead(n: nat, killed: bool) returns (bytes: seq<Byte>, end: Ending)
      requires Valid()
      modifies this`nread
      ensures Valid()
      ensures end == ReadEnding(old(Contents()), writeopen, killed)
      ensures bytes == if end.Done? then old(Contents())[..Taken(old(Contents()), n)] else []
      ensures Contents() == old(Contents())[|bytes|..]
      ensures bytes <= old(Contents()) && |bytes| <= n
      ensures end.Done? ==> |bytes| == n || Contents() == []
      ensures end.Done? <==> old(Contents()) != [] || !writeopen
      ensures end.Failed? <==> old(Contents()) == [] && writeopen && killed
    {
      bytes := [];
      if nread == nwrite && writeopen {
        return bytes, if killed then Failed else MustSleep;
      }

      ghost var w := Contents();
      for i := 0 to n
        invariant Valid() && i <= |w| && i == |bytes|
        invariant bytes == w[..i] && Contents() == w[i..]
      {
        if nread == nwrite {
          break;
        }
        Get(data[..], nread, nwrite);
        assert w[i..][1..] == w[i + 1..] && w[..i] + [w[i]] == w[..i + 1];
        bytes := bytes + [data[nread % 512]];
        nread := (nread + 1) % 0x1_0000_0000;
      }
      end := Done;
    }

    /** pipeclose: the other side's sleepers are woken; the buffer is freed when both ends
        are closed. */
    method PipeClose(writable: bool) returns (freed: bool, wokeReaders: bool, wokeWriters: bool)
      requires Valid()
      modifies this`readopen, this`writeopen
      ensures Valid() && Contents() == old(Contents())
      ensures writeopen == (old(writeopen) && !writable) && readopen == (old(readopen) && writable)
      ensures freed <==> !readopen && !writeopen
      ensures wokeReaders <==> writable
      ensures wokeWriters <==> !writable
    {
      wokeReaders, wokeWriters := false, false;
      if writable {
        writeopen := false;
        wokeReaders := true;
      } else {
        readopen := false;
        wokeWriters := true;
      }
      freed := !readopen && !writeopen;
    }
  }

  lemma AppendOne(a: seq<Byte>, b: seq<Byte>, c: Byte)
    ensures a + b + [c] == a + (b + [c])
  {
  }
}
