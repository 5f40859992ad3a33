/**
 Properties of sequences of queue operations: FIFO and LIFO order, the size
 accounting over any sequence of calls, reversal as its own inverse, and the
 sort's idempotence, and two worked examples.
 */
module QueueTraces {
  import opened CStrings
  import opened Chain
  import opened Sorting
  import opened StringQueue

  /** `q_insert_tail` of each value in turn, every allocation succeeding. */
  function FillTail(p: Option<Queue>, vs: seq<CStr>): (r: Option<Queue>)
    requires ValidPtr(p)
    ensures ValidPtr(r) && (r.Some? <==> p.Some?)
    ensures p.Some? ==> r.value.chain == p.value.chain + vs
    decreases |vs|
  {
    if |vs| == 0 then p
    else
      var q := InsertTail(p, vs[0], true, true).q;
      assert p.Some? ==> q.value.chain + vs[1..] == p.value.chain + vs;
      FillTail(q, vs[1..])
  }

  /** `q_insert_head` of each value in turn, every allocation succeeding. */
  function FillHead(p: Option<Queue>, vs: seq<CStr>): (r: Option<Queue>)
    requires ValidPtr(p)
    ensures ValidPtr(r) && (r.Some? <==> p.Some?)
    ensures p.Some? ==> r.value.chain == Rev(vs) + p.value.chain
    decreases |vs|
  {
    if |vs| == 0 then p
    else
      var q := InsertHead(p, vs[0], true, true).q;
      assert p.Some? ==> Rev(vs[1..]) + q.value.chain == Rev(vs) + p.value.chain;
      FillHead(q, vs[1..])
  }

  /** The strings read back from the caller's buffer, and the queue afterwards. */
  datatype Drained = Drained(values: seq<CStr>, q: Option<Queue>)

  /**
   Up to `n` calls of `q_remove_head`, each with the same buffer of
   `|buf|` bytes, reading the buffer after every successful call; stops at
   the first failure.
   */
  function Drain(p: Option<Queue>, n: nat, buf: seq<byte>): (r: Drained)
    requires ValidPtr(p) && |buf| >= 1
    ensures ValidPtr(r.q) && (r.q.Some? <==> p.Some?)
    decreases n
  {
    if n == 0 then Drained([], p)
    else
      var step := RemoveHead(p, Some(buf), |buf|);
      if !step.ok then Drained([], p)
      else
        var rest := Drain(step.q, n - 1, step.sp.value);
        Drained([ReadCStr(step.sp.value)] + rest.values, rest.q)
  }

  /** Every value fits a buffer of `bufsize` bytes with its terminator. */
  predicate FitIn(vs: seq<CStr>, bufsize: nat) {
    forall i | 0 <= i < |vs| :: |vs[i]| < bufsize
  }

  /**
   One successful removal inside `Drain`: the head value is read back, and
   draining continues on the shorter queue `q` with the buffer as left, `b`.
   */
  lemma DrainStep(p: Option<Queue>, n: nat, buf: seq<byte>) returns (q: Option<Queue>, b: seq<byte>)
    requires ValidPtr(p) && |buf| >= 1 && p.Some? && 0 < n && 0 < p.value.size
    requires FitIn(p.value.chain, |buf|)
    ensures ValidPtr(q) && q.Some? && |b| == |buf| && FitIn(q.value.chain, |b|)
    ensures q.value.chain == p.value.chain[1..] && q.value.size == p.value.size - 1
    ensures Drain(p, n, buf).values == [p.value.chain[0]] + Drain(q, n - 1, b).values
    ensures Drain(p, n, buf).q == Drain(q, n - 1, b).q
  {
    var step := RemoveHead(p, Some(buf), |buf|);
    q, b := step.q, step.sp.value;
  }

  lemma SplitOffHead<T>(c: seq<T>, n: nat)
    requires 0 < n <= |c|
    ensures c[..n] == [c[0]] + c[1..][..n - 1] && c[n..] == c[1..][n - 1..]
  {
  }

  /** Draining `n` elements yields the first `n` values in chain order and leaves the rest queued. */
  lemma {:induction false} DrainTakesPrefix(p: Option<Queue>, n: nat, buf: seq<byte>)
    requires ValidPtr(p) && |buf| >= 1 && p.Some?
    requires n <= p.value.size && FitIn(p.value.chain, |buf|)
    ensures Drain(p, n, buf).values == p.value.chain[..n]
    ensures Drain(p, n, buf).q.value.chain == p.value.chain[n..]
    ensures Drain(p, n, buf).q.value.size == p.value.size - n
    decreases n
  {
    if n > 0 {
      var q, b := DrainStep(p, n, buf);
      DrainTakesPrefix(q, n - 1, b);
      SplitOffHead(p.value.chain, n);
    }
  }

  /** Draining as many elements as the queue holds reads back the whole chain and empties it. */
  lemma DrainAll(p: Option<Queue>, buf: seq<byte>)
    requires ValidPtr(p) && |buf| >= 1 && p.Some? && FitIn(p.value.chain, |buf|)
    ensures Drain(p, p.value.size, buf).values == p.value.chain
    ensures Size(Drain(p, p.value.size, buf).q) == 0
  {
    DrainTakesPrefix(p, p.value.size, buf);
    assert p.value.chain[..p.value.size] == p.value.chain;
  }

  /**
   FIFO: inserting values at the tail of a new queue and then removing as
   many from the head reads them back in insertion order and leaves the
   queue empty.
   */
  lemma Fifo(vs: seq<CStr>, buf: seq<byte>)
    requires |buf| >= 1 && FitIn(vs, |buf|)
    ensures Drain(FillTail(New(true), vs), |vs|, buf).values == vs
    ensures Size(Drain(FillTail(New(true), vs), |vs|, buf).q) == 0
  {
    var p := FillTail(New(true), vs);
    assert p.value.chain == vs && p.value.size == |vs|;
    DrainAll(p, buf);
  }

  /**
   LIFO: inserting values at the head of a new queue and then removing as
   many from the head reads them back in reverse order.
   */
  lemma Lifo(vs: seq<CStr>, buf: seq<byte>)
    requires |buf| >= 1 && FitIn(vs, |buf|)
    ensures Drain(FillHead(New(true), vs), |vs|, buf).values == Rev(vs)
    ensures Size(Drain(FillHead(New(true), vs), |vs|, buf).q) == 0
  {
    var p := FillHead(New(true), vs);
    var c := p.value.chain;
    assert c == Rev(vs) && p.value.size == |vs|;
    forall i | 0 <= i < |c|
      ensures |c[i]| < |buf|
    {
      assert c[i] == vs[|vs| - 1 - i];
    }
    DrainAll(p, buf);
  }

  /** One call of the queue's interface, with the outcomes of its allocations. */
  datatype Op =
    | InsertHeadOp(s: CStr, nodeOk: bool, valueOk: bool)
    | InsertTailOp(s: CStr, nodeOk: bool, valueOk: bool)
    | RemoveHeadOp(sp: Option<seq<byte>>, bufsize: nat)
    | ReverseOp
    | SortOp

  /**
   A call the interface allows on the queue `p`: a removal that will succeed
   with a buffer needs room for at least the terminator. A removal from a NULL
   or empty queue returns before `bufsize` is used, so any `bufsize` is fine.
   */
  predicate Callable(p: Option<Queue>, op: Op) {
    op.RemoveHeadOp? && op.sp.Some? && Size(p) > 0 ==> 1 <= op.bufsize <= |op.sp.value|
  }

  /** The queue after a sequence of calls, with how many insertions and removals succeeded. */
  datatype Tally = Tally(q: Option<Queue>, inserted: nat, removed: nat)

  /** Performs one call; at most one insertion or removal succeeds. */
  function Step(p: Option<Queue>, op: Op): (t: Tally)
    requires ValidPtr(p) && Callable(p, op)
    ensures ValidPtr(t.q) && (t.q.Some? <==> p.Some?)
    ensures Size(t.q) + t.removed == Size(p) + t.inserted
    ensures t.inserted + t.removed <= 1
  {
    match op
    case InsertHeadOp(s, nodeOk, valueOk) =>
      var r := InsertHead(p, s, nodeOk, valueOk);
      Tally(r.q, if r.ok then 1 else 0, 0)
    case InsertTailOp(s, nodeOk, valueOk) =>
      var r := InsertTail(p, s, nodeOk, valueOk);
      Tally(r.q, if r.ok then 1 else 0, 0)
    case RemoveHeadOp(sp, bufsize) =>
      var r := RemoveHead(p, sp, bufsize);
      Tally(r.q, 0, if r.ok then 1 else 0)
    case ReverseOp =>
      Tally(Reverse(p), 0, 0)
    case SortOp =>
      Tally(Sort(p), 0, 0)
  }

  /** Every call of `ops`, made in order from `p`, is allowed on the queue it meets. */
  predicate CallableFrom(p: Option<Queue>, ops: seq<Op>)
    requires ValidPtr(p)
    decreases |ops|
  {
    |ops| == 0 || (Callable(p, ops[0]) && CallableFrom(Step(p, ops[0]).q, ops[1..]))
  }

  /** Performs the calls in order. */
  function Run(p: Option<Queue>, ops: seq<Op>): (t: Tally)
    requires ValidPtr(p) && CallableFrom(p, ops)
    ensures ValidPtr(t.q) && (t.q.Some? <==> p.Some?)
    ensures Size(t.q) + t.removed == Size(p) + t.inserted
    decreases |ops|
  {
    if |ops| == 0 then Tally(p, 0, 0)
    else
      var s := Step(p, ops[0]);
      var t := Run(s.q, ops[1..]);
      Tally(t.q, s.inserted + t.inserted, s.removed + t.removed)
  }

  /** From a new queue, the size is the number of successful insertions minus successful removals. */
  lemma SizeAccounting(ops: seq<Op>)
    requires CallableFrom(New(true), ops)
    ensures Size(Run(New(true), ops).q) == Run(New(true), ops).inserted - Run(New(true), ops).removed
  {
  }

  /** Reversing twice restores the queue: chain, counter and tail pointer. */
  lemma ReverseTwice(p: Option<Queue>)
    requires ValidPtr(p)
    ensures Reverse(Reverse(p)) == p
  {
    if p.Some? && p.value.size > 1 {
      var c := p.value.chain;
      RevRev(c);
      assert Rev(c)[0] == Last(c);
    }
  }

  /** Sorting a sorted queue changes nothing, so sorting twice is sorting once. */
  lemma SortOfSorted(p: Option<Queue>)
    requires ValidPtr(p) && p.Some? && Sorted(p.value.chain)
    ensures Sort(p) == p
  {
    MergeSortOfSorted(p.value.chain);
  }

  /** Sorting is idempotent. */
  lemma SortTwice(p: Option<Queue>)
    requires ValidPtr(p)
    ensures Sort(Sort(p)) == Sort(p)
  {
    if p.Some? {
      SortOfSorted(Sort(p));
    }
  }

  /** The sorted queue is the only sorted arrangement of the queue's values. */
  lemma SortIsTheSortedPermutation(p: Option<Queue>, c: seq<CStr>)
    requires ValidPtr(p) && p.Some?
    requires Sorted(c) && multiset(c) == multiset(p.value.chain)
    ensures Sort(p).value.chain == c
  {
    SortedUnique(Sort(p).value.chain, c);
  }

  /**
   Inserting "banana", "apple", "cherry" at the tail of a new queue and
   sorting gives alphabetical order.
   */
  lemma SortExample(apple: CStr, banana: CStr, cherry: CStr, p: Option<Queue>)
    requires apple == [97, 112, 112, 108, 101]
    requires banana == [98, 97, 110, 97, 110, 97]
    requires cherry == [99, 104, 101, 114, 114, 121]
    requires p == FillTail(New(true), [banana, apple, cherry])
    ensures Sort(p).value.chain == [apple, banana, cherry]
    ensures Size(Sort(p)) == 3
  {
    var c := [apple, banana, cherry];
    assert p.value.chain == [banana, apple, cherry];
    assert StrLe(apple, banana) && StrLe(banana, cherry) && StrLe(apple, cherry);
    assert Sorted(c);
    assert multiset(c) == multiset(p.value.chain);
    SortIsTheSortedPermutation(p, c);
  }

  const A: CStr := [97]
  const B: CStr := [98]

  /** Inserting "a" then "b" at the head gives ["b", "a"]; reversing gives ["a", "b"]. */
  lemma ReverseExample()
    ensures FillHead(New(true), [A, B]).value.chain == [B, A]
    ensures Reverse(FillHead(New(true), [A, B])).value.chain == [A, B]
  {
    var p := FillHead(New(true), [A, B]);
    assert Rev([A, B]) == [B, A];
    assert Rev([B, A]) == [A, B];
  }
}
