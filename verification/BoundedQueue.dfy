/** A bounded first-in first-out queue: the abstract object the ring refines. */
module BoundedQueue {
  import opened Machine

  datatype Option<+T> = None | Some(value: T)

  datatype Op<+T> = Enqueue(x: T) | Dequeue(x: T)

  /** One operation. Enqueue needs room; Dequeue(x) needs x at the head. */
  function Apply<T(==)>(capacity: int, q: seq<T>, op: Op<T>): Option<seq<T>> {
    match op
    case Enqueue(x) => if |q| < capacity then Some(q + [x]) else None
    case Dequeue(x) => if |q| > 0 && q[0] == x then Some(q[1..]) else None
  }

  function Run<T(==)>(capacity: int, q: seq<T>, ops: seq<Op<T>>): Option<seq<T>>
    decreases |ops|
  {
    if ops == [] then Some(q)
    else
      match Apply(capacity, q, ops[0])
      case None => None
      case Some(q') => Run(capacity, q', ops[1..])
  }

  function Enqueued<T>(ops: seq<Op<T>>): seq<T> {
    if ops == [] then []
    else (if ops[0].Enqueue? then [ops[0].x] else []) + Enqueued(ops[1..])
  }

  function Dequeued<T>(ops: seq<Op<T>>): seq<T> {
    if ops == [] then []
    else (if ops[0].Dequeue? then [ops[0].x] else []) + Dequeued(ops[1..])
  }

  /** Nothing is lost, duplicated or reordered, and the bound is kept, over any run. */
  lemma {:induction false} Fifo<T>(capacity: int, q: seq<T>, ops: seq<Op<T>>)
    requires Run(capacity, q, ops).Some? && |q| <= capacity
    ensures q + Enqueued(ops) == Dequeued(ops) + Run(capacity, q, ops).value
    ensures |Run(capacity, q, ops).value| <= capacity
    decreases |ops|
  {
    if ops == [] {
      assert q + [] == [] + q;
    } else {
      var q' := Apply(capacity, q, ops[0]).value;
      Fifo(capacity, q', ops[1..]);
      var out := Run(capacity, q', ops[1..]).value;
      match ops[0]
      case Enqueue(x) =>
        ConcatAssoc(q, [x], Enqueued(ops[1..]));
        assert [] + Dequeued(ops[1..]) == Dequeued(ops[1..]);
      case Dequeue(x) =>
        assert q == [x] + q';
        assert [] + Enqueued(ops[1..]) == Enqueued(ops[1..]);
        ConcatAssoc([x], q', Enqueued(ops[1..]));
        ConcatAssoc([x], Dequeued(ops[1..]), out);
    }
  }
}
