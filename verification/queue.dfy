/**
 The string queue of `queue.c`: a singly-linked chain of owned strings with a
 cached tail pointer and an element counter. A queue is a value; each
 operation returns the queue as the C function leaves it. A NULL `queue_t *`
 is `None`, and the outcome of each `malloc` is an input.
 */
module StringQueue {
  import opened CStrings
  import opened Chain
  import opened Sorting

  datatype Option<T> = None | Some(value: T)

  /**
   A `queue_t`: `chain` lists the values met following `next` from `head`,
   `tail` is the value of the node the tail pointer designates (`None` for
   NULL), and `size` is the counter.
   */
  datatype Queue = Queue(chain: seq<CStr>, tail: Option<CStr>, size: nat)

  function Last(s: seq<CStr>): CStr
    requires |s| > 0
  {
    s[|s| - 1]
  }

  /**
   What every operation relies on: the counter is the chain's length, and a
   non-empty queue's tail pointer designates its last node. After the last
   element is removed the tail pointer is left dangling, so an empty queue
   says nothing about it.
   */
  predicate Valid(q: Queue) {
    && q.size == |q.chain|
    && (q.size >= 1 ==> q.tail == Some(Last(q.chain)))
  }

  /** A possibly NULL queue pointer whose queue, if any, is valid. */
  predicate ValidPtr(p: Option<Queue>) {
    p.Some? ==> Valid(p.value)
  }

  /** What an insertion returns and the queue it leaves behind. */
  datatype Inserted = Inserted(ok: bool, q: Option<Queue>)

  /** What a removal returns, the queue it leaves, and the caller's buffer afterwards. */
  datatype Removed = Removed(ok: bool, q: Option<Queue>, sp: Option<seq<byte>>)

  /** `q_new`: a fresh empty queue, or NULL when `malloc` fails. */
  function New(mallocOk: bool): (p: Option<Queue>)
    ensures p.Some? <==> mallocOk
    ensures p.Some? ==> Valid(p.value) && p.value.chain == [] && p.value.size == 0
    ensures p.Some? ==> p.value.tail == None
  {
    if mallocOk then Some(Queue([], None, 0)) else None
  }

  /**
   `q_insert_head`: `nodeOk` and `valueOk` are the outcomes of allocating the
   node and the copy of `s`. On success the new node points at the old head
   and becomes the tail too when the counter was 0.
   */
  function InsertHead(p: Option<Queue>, s: CStr, nodeOk: bool, valueOk: bool): (r: Inserted)
    requires ValidPtr(p)
    ensures r.ok <==> p.Some? && nodeOk && valueOk
    ensures !r.ok ==> r.q == p
    ensures r.ok ==> r.q.Some? && Valid(r.q.value)
    ensures r.ok ==> r.q.value.chain == [s] + p.value.chain && r.q.value.size == p.value.size + 1
    ensures r.ok && p.value.size == 0 ==> r.q.value.tail == Some(s)
    ensures r.ok && p.value.size > 0 ==> r.q.value.tail == p.value.tail
  {
    if p.None? then Inserted(false, p)
    else if !nodeOk then Inserted(false, p)
    else if !valueOk then Inserted(false, p)
    else
      var q := p.value;
      var tail := if q.size == 0 then Some(s) else q.tail;
      Inserted(true, Some(Queue([s] + q.chain, tail, q.size + 1)))
  }

  /**
   `q_insert_tail`: same allocation failures as `InsertHead`. On success the
   new node becomes the head when the counter was 0 and is otherwise linked
   after the tail node; either way it becomes the tail.
   */
  function InsertTail(p: Option<Queue>, s: CStr, nodeOk: bool, valueOk: bool): (r: Inserted)
    requires ValidPtr(p)
    ensures r.ok <==> p.Some? && nodeOk && valueOk
    ensures !r.ok ==> r.q == p
    ensures r.ok ==> r.q.Some? && Valid(r.q.value)
    ensures r.ok ==> r.q.value.chain == p.value.chain + [s] && r.q.value.size == p.value.size + 1
    ensures r.ok ==> r.q.value.tail == Some(s)
    ensures r.ok && p.value.size == 0 ==> r.q.value.chain[0] == s
  {
    if p.None? then Inserted(false, p)
    else if !nodeOk then Inserted(false, p)
    else if !valueOk then Inserted(false, p)
    else
      var q := p.value;
      var chain := if q.size == 0 then [s] else q.chain + [s];
      Inserted(true, Some(Queue(chain, Some(s), q.size + 1)))
  }

  /** The string a reader finds in a buffer of `bufsize` bytes that received `v`, truncated to fit. */
  function Truncated(v: CStr, bufsize: nat): CStr
    requires bufsize >= 1
  {
    if |v| < bufsize then v else v[..bufsize - 1]
  }

  /**
   The copy-out of `q_remove_head`: `copy_len` is the smaller of `bufsize - 1`
   and the value's length; a terminator is written at `copy_len` and the first
   `copy_len` bytes of the value before it. `buf` is the caller's buffer of at
   least `bufsize` bytes.
   */
  function CopyOut(v: CStr, buf: seq<byte>, bufsize: nat): (r: seq<byte>)
    requires 1 <= bufsize <= |buf|
    ensures |r| == |buf|
    ensures ReadCStr(r) == Truncated(v, bufsize)
    ensures forall i | bufsize <= i < |buf| :: r[i] == buf[i]
  {
    var copyLen := if bufsize - 1 > |v| then |v| else bufsize - 1;
    var terminated := buf[..copyLen] + [NUL] + buf[copyLen + 1..];
    var r := v[..copyLen] + terminated[copyLen..];
    assert r == v[..copyLen] + [NUL] + buf[copyLen + 1..];
    ReadTerminated(v[..copyLen], buf[copyLen + 1..]);
    r
  }

  /**
   `q_remove_head`: fails on a NULL or empty queue, leaving everything as it
   was. Otherwise, when a buffer `sp` is supplied, copies the head value into
   it truncated to `bufsize - 1` bytes plus a terminator, then unlinks the
   head node and decrements the counter. The tail pointer is not touched.
   A failing call never reads `bufsize`; a successful one with a buffer needs
   room for at least the terminator.
   */
  function RemoveHead(p: Option<Queue>, sp: Option<seq<byte>>, bufsize: nat): (r: Removed)
    requires ValidPtr(p)
    requires sp.Some? && p.Some? && p.value.size > 0 ==> 1 <= bufsize <= |sp.value|
    ensures r.ok <==> p.Some? && p.value.size > 0
    ensures !r.ok ==> r.q == p && r.sp == sp
    ensures r.ok ==> r.q.Some? && Valid(r.q.value)
    ensures r.ok ==> r.q.value.chain == p.value.chain[1..] && r.q.value.size == p.value.size - 1
    ensures r.ok ==> r.q.value.tail == p.value.tail
    ensures r.sp.Some? <==> sp.Some?
    ensures r.ok && sp.Some? ==> |r.sp.value| == |sp.value|
    ensures r.ok && sp.Some? ==> ReadCStr(r.sp.value) == Truncated(p.value.chain[0], bufsize)
    ensures r.ok && sp.Some? ==> forall i | bufsize <= i < |sp.value| :: r.sp.value[i] == sp.value[i]
  {
    if p.None? || p.value.size == 0 then Removed(false, p, sp)
    else
      var q := p.value;
      var out := if sp.Some? then Some(CopyOut(q.chain[0], sp.value, bufsize)) else None;
      Removed(true, Some(Queue(q.chain[1..], q.tail, q.size - 1)), out)
  }

  /** `q_size`: 0 for NULL, otherwise the counter, which is the number of nodes. */
  function Size(p: Option<Queue>): (n: nat)
    ensures p.None? ==> n == 0
    ensures ValidPtr(p) && p.Some? ==> n == |p.value.chain|
  {
    if p.None? then 0 else p.value.size
  }

  /**
   `q_reverse`: nothing happens for NULL or fewer than two elements.
   Otherwise the tail pointer moves to the old head and the links are
   reversed, the old tail becoming the head.
   */
  function Reverse(p: Option<Queue>): (r: Option<Queue>)
    requires ValidPtr(p)
    ensures r.Some? <==> p.Some?
    ensures ValidPtr(r)
    ensures p.Some? && p.value.size <= 1 ==> r == p
    ensures p.Some? ==> r.value.chain == Rev(p.value.chain) && r.value.size == p.value.size
    ensures p.Some? && p.value.size >= 1 ==> r.value.tail == Some(p.value.chain[0])
  {
    if p.None? || p.value.size <= 1 then p
    else
      var q := p.value;
      var chain := Rev(q.chain);
      assert Last(chain) == q.chain[0];
      Some(Queue(chain, Some(q.chain[0]), q.size))
  }

  /**
   `q_reverse` as written: the tail pointer is set to the head first, then
   the three-pointer loop re-links the chain and `middle` becomes the head.
   */
  method ReverseInPlace(p: Option<Queue>) returns (r: Option<Queue>)
    requires ValidPtr(p)
    ensures r == Reverse(p)
  {
    if p.None? || p.value.size <= 1 {
      return p;
    }
    var q := p.value;
    var tail := Some(q.chain[0]);
    var chain := ReverseLinks(q.chain);
    r := Some(Queue(chain, tail, q.size));
  }

  /**
   `q_sort`: nothing happens for NULL or fewer than two elements. Otherwise
   the chain is merge sorted and the tail pointer is walked forward to the
   new last node.
   */
  function Sort(p: Option<Queue>): (r: Option<Queue>)
    requires ValidPtr(p)
    ensures r.Some? <==> p.Some?
    ensures ValidPtr(r)
    ensures p.Some? && p.value.size <= 1 ==> r == p
    ensures p.Some? ==> Sorted(r.value.chain)
    ensures p.Some? ==> multiset(r.value.chain) == multiset(p.value.chain)
    ensures p.Some? ==> r.value.size == p.value.size
  {
    if p.None? || p.value.size <= 1 then p
    else
      var q := p.value;
      var chain := MergeSort(q.chain);
      assert |chain| == |multiset(chain)| == |q.chain|;
      Some(Queue(chain, Some(Last(chain)), q.size))
  }
}
