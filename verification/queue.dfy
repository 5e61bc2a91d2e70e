/**
  The shared request buffer of `src/request.c`: an ordered, bounded sequence
  of admitted requests. The lock and the two condition variables are not
  modelled; a wait on a condition becomes a precondition of the operation.
 */
module RequestQueue {

  /** One admitted connection: its socket, the file size as stored, the path. */
  datatype Request = Request(fd: int, filesize: int, filename: string)

  const Int32Modulus: int := 0x1_0000_0000
  const Int32Min: int := -0x8000_0000
  const Int32Max: int := 0x7fff_ffff

  /**
    Storing a file size into the C `int` field `filesize`: the value is
    reduced modulo 2^32 into the signed 32-bit range (the GCC rule for an
    out-of-range conversion to a signed type).
   */
  function ToInt32(n: int): (r: int)
    ensures Int32Min <= r <= Int32Max
    ensures (n - r) % Int32Modulus == 0
    ensures Int32Min <= n <= Int32Max ==> r == n
  {
    var m := n % Int32Modulus;
    if m <= Int32Max then m else m - Int32Modulus
  }

  /** The record built at admission from the socket, `st_size` and the path. */
  function MakeRequest(fd: int, stSize: nat, filename: string): (req: Request)
    ensures req.fd == fd && req.filename == filename
    ensures req.filesize == ToInt32(stSize)
    ensures stSize <= Int32Max ==> req.filesize == stSize
    ensures stSize > Int32Max ==> req.filesize != stSize
  {
    Request(fd, ToInt32(stSize), filename)
  }

  /**
    Sizes past the `int` range are stored wrapped: a file of 2^32 + 10 bytes
    is recorded as 10 bytes, and one of exactly 2^31 bytes as -2^31.
   */
  lemma HugeFilesWrap(fd: int, filename: string)
    ensures MakeRequest(fd, Int32Modulus + 10, filename).filesize == 10
    ensures MakeRequest(fd, Int32Max + 1, filename).filesize == Int32Min
  {
  }

  /** Enqueue waits while the buffer is full, then stores at index `count`. */
  function Enqueue(q: seq<Request>, req: Request, capacity: nat): (q': seq<Request>)
    requires |q| < capacity
    ensures |q'| == |q| + 1 <= capacity
    ensures q'[..|q|] == q
    ensures q'[|q|] == req
  {
    q + [req]
  }

  /**
    Dequeue's removal: the entry at `idx` leaves, the survivors keep their
    relative order and close the gap.
   */
  function RemoveAt(q: seq<Request>, idx: nat): (q': seq<Request>)
    requires idx < |q|
    ensures |q'| == |q| - 1
    ensures forall j :: 0 <= j < idx ==> q'[j] == q[j]
    ensures forall j :: idx <= j < |q'| ==> q'[j] == q[j + 1]
    ensures multiset(q') + multiset{q[idx]} == multiset(q)
  {
    assert q == q[..idx] + [q[idx]] + q[idx + 1..];
    q[..idx] + q[idx + 1..]
  }

  /**
    The removal as the worker performs it: save the chosen entry, copy every
    later entry one slot to the left, then drop the last slot.
   */
  method ShiftOut(q: seq<Request>, idx: nat) returns (saved: Request, q': seq<Request>)
    requires idx < |q|
    ensures saved == q[idx]
    ensures q' == RemoveAt(q, idx)
  {
    saved := q[idx];
    var buf := q;
    var i := idx;
    while i < |q| - 1
      invariant idx <= i <= |q| - 1
      invariant |buf| == |q|
      invariant buf[..idx] == q[..idx]
      invariant forall j :: idx <= j < i ==> buf[j] == q[j + 1]
      invariant buf[i..] == q[i..]
    {
      buf := buf[i := buf[i + 1]];
      i := i + 1;
    }
    q' := buf[..|q| - 1];
    assert q' == q[..idx] + q[idx + 1..];
  }

  /** No socket appears twice among the queued requests. */
  predicate DistinctFds(q: seq<Request>)
  {
    forall i, j :: 0 <= i < j < |q| ==> q[i].fd != q[j].fd
  }

  /** What holds of the buffer between any two critical sections. */
  predicate QueueInvariant(q: seq<Request>, capacity: nat)
  {
    |q| <= capacity && DistinctFds(q)
  }

  /** Admitting a request on a socket not already queued keeps the invariant. */
  lemma EnqueueKeepsInvariant(q: seq<Request>, req: Request, capacity: nat)
    requires QueueInvariant(q, capacity) && |q| < capacity
    requires forall j :: 0 <= j < |q| ==> q[j].fd != req.fd
    ensures QueueInvariant(Enqueue(q, req, capacity), capacity)
  {
  }

  /** Removing any entry keeps the invariant. */
  lemma RemoveAtKeepsInvariant(q: seq<Request>, idx: nat, capacity: nat)
    requires QueueInvariant(q, capacity) && idx < |q|
    ensures QueueInvariant(RemoveAt(q, idx), capacity)
  {
  }
}
