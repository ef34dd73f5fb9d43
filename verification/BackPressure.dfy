/** The lazily erased send buffer of external/uWebSockets/AsyncSocketData.h. */
module BackPressure {

  const UINT32: nat := 0x1_0000_0000
  const ZERO: char := 0 as char

  /** The buffer, with bytes at its front that count as erased. */
  datatype Buffer = Buffer(bytes: seq<char>, pending: nat)

  datatype Op = Append(data: seq<char>) | Erase(count: nat) | Resize(size: nat) | Reserve(size: nat) | Clear

  predicate IsBuffer(b: Buffer) {
    b.pending <= |b.bytes| && b.pending < UINT32
  }

  /** The bytes at data() up to length(). */
  function Live(b: Buffer): seq<char>
    requires IsBuffer(b)
  {
    b.bytes[b.pending..]
  }

  function Resized(bytes: seq<char>, size: nat): (r: seq<char>)
    ensures |r| == size
  {
    if size <= |bytes| then bytes[..size] else bytes + seq(size - |bytes|, _ => ZERO)
  }

  /** erase: the count is added in 32 bits, and bytes are moved only when more than a 32nd is pending. */
  function Erased(b: Buffer, count: nat): Buffer {
    var p := (b.pending + count) % UINT32;
    if p > |b.bytes| / 32 then Buffer(if p <= |b.bytes| then b.bytes[p..] else [], 0) else Buffer(b.bytes, p)
  }

  function Step(b: Buffer, op: Op): Buffer {
    match op
    case Append(data) => Buffer(b.bytes + data, b.pending)
    case Erase(count) => Erased(b, count)
    case Resize(size) => Buffer(Resized(b.bytes, size + b.pending), b.pending)
    case Reserve(_) => b
    case Clear => Buffer([], 0)
  }

  /** Bytes an operation moves to the front. */
  function Moved(b: Buffer, op: Op): nat {
    if op.Erase? && (b.pending + op.count) % UINT32 > |b.bytes| / 32 && (b.pending + op.count) % UINT32 <= |b.bytes|
    then |b.bytes| - (b.pending + op.count) % UINT32
    else 0
  }

  /** A simple queue that erases at once. */
  function Eager(q: seq<char>, op: Op): seq<char> {
    match op
    case Append(data) => q + data
    case Erase(count) => if count <= |q| then q[count..] else []
    case Resize(size) => Resized(q, size)
    case Reserve(_) => q
    case Clear => []
  }

  /** What a caller of erase must keep to: no more than the length, and a pending count within 32 bits. */
  predicate Allowed(b: Buffer, op: Op) {
    op.Erase? ==> b.pending + op.count <= |b.bytes| && b.pending + op.count < UINT32
  }

  lemma StepRefines(b: Buffer, op: Op)
    requires IsBuffer(b) && Allowed(b, op)
    ensures IsBuffer(Step(b, op)) && Live(Step(b, op)) == Eager(Live(b), op)
  {
    match op
    case Append(data) => assert (b.bytes + data)[b.pending..] == b.bytes[b.pending..] + data;
    case Erase(count) =>
      assert (b.pending + count) % UINT32 == b.pending + count;
      assert b.bytes[b.pending..][count..] == b.bytes[b.pending + count..];
    case Resize(size) =>
      var r := Resized(b.bytes, size + b.pending);
      assert r[b.pending..] == Resized(Live(b), size);
    case Reserve(_) =>
    case Clear =>
  }

  /** One erase within the length does what an eager erase does exactly when the
      pending count does not pass 32 bits. */
  lemma EraseExactly(b: Buffer, count: nat)
    requires IsBuffer(b) && b.pending + count <= |b.bytes| && count < UINT32
    ensures IsBuffer(Erased(b, count))
    ensures Live(Erased(b, count)) == Eager(Live(b), Erase(count)) <==> b.pending + count < UINT32
  {
    if b.pending + count < UINT32 {
      StepRefines(b, Erase(count));
    } else {
      var p := b.pending + count - UINT32;
      assert (b.pending + count) % UINT32 == p;
      assert |Live(Erased(b, count))| == |b.bytes| - p;
      assert |Eager(Live(b), Erase(count))| == |b.bytes| - p - UINT32;
    }
  }

  // ---------------------------------------------------------------- runs

  function Run(b: Buffer, ops: seq<Op>): Buffer
    decreases |ops|
  {
    if ops == [] then b else Run(Step(b, ops[0]), ops[1..])
  }

  function EagerRun(q: seq<char>, ops: seq<Op>): seq<char>
    decreases |ops|
  {
    if ops == [] then q else EagerRun(Eager(q, ops[0]), ops[1..])
  }

  predicate AllAllowed(b: Buffer, ops: seq<Op>)
    decreases |ops|
  {
    ops == [] || (Allowed(b, ops[0]) && AllAllowed(Step(b, ops[0]), ops[1..]))
  }

  function TotalMoved(b: Buffer, ops: seq<Op>): nat
    decreases |ops|
  {
    if ops == [] then 0 else Moved(b, ops[0]) + TotalMoved(Step(b, ops[0]), ops[1..])
  }

  function TotalErased(ops: seq<Op>): nat {
    if ops == [] then 0 else (if ops[0].Erase? then ops[0].count else 0) + TotalErased(ops[1..])
  }

  /** The buffer is a byte queue: over every run the live bytes are those of a
      queue that erases eagerly, and the pending count stays within the buffer. */
  lemma {:induction false} RefinesQueue(b: Buffer, ops: seq<Op>)
    requires IsBuffer(b) && AllAllowed(b, ops)
    ensures IsBuffer(Run(b, ops)) && Live(Run(b, ops)) == EagerRun(Live(b), ops)
    decreases |ops|
  {
    if ops != [] {
      hide Step, Eager, Live, IsBuffer;
      StepRefines(b, ops[0]);
      RefinesQueue(Step(b, ops[0]), ops[1..]);
    }
  }

  /** Each moved byte is paid for by an erased one. */
  lemma StepPays(b: Buffer, op: Op)
    requires IsBuffer(b) && Allowed(b, op)
    ensures Moved(b, op) + 31 * Step(b, op).pending <= 31 * (b.pending + if op.Erase? then op.count else 0)
  {
    if op.Erase? {
      assert (b.pending + op.count) % UINT32 == b.pending + op.count;
    }
  }

  lemma {:induction false} RunPays(b: Buffer, ops: seq<Op>)
    requires IsBuffer(b) && AllAllowed(b, ops)
    ensures TotalMoved(b, ops) + 31 * Run(b, ops).pending <= 31 * (b.pending + TotalErased(ops))
    decreases |ops|
  {
    if ops != [] {
      hide Step, Moved, Allowed, IsBuffer;
      StepPays(b, ops[0]);
      StepRefines(b, ops[0]);
      RunPays(Step(b, ops[0]), ops[1..]);
    }
  }

  /** Lazy erasing is amortised: over every run from empty, the bytes moved are at
      most 31 times the bytes erased. */
  lemma Amortised(ops: seq<Op>)
    requires AllAllowed(Buffer([], 0), ops)
    ensures TotalMoved(Buffer([], 0), ops) <= 31 * TotalErased(ops)
  {
    RunPays(Buffer([], 0), ops);
  }

  /** No more than a 32nd of the buffer is dead. */
  predicate IsDense(b: Buffer) {
    31 * |b.bytes| <= 32 * (|b.bytes| - b.pending)
  }

  /** Every operation keeps the buffer dense, except a resize to less than 31
      times the pending count. */
  lemma StepDense(b: Buffer, op: Op)
    requires IsBuffer(b) && Allowed(b, op) && IsDense(b)
    ensures IsDense(Step(b, op)) <==> (op.Resize? ==> 31 * b.pending <= op.size)
  {
    if op.Erase? {
      assert (b.pending + op.count) % UINT32 == b.pending + op.count;
    }
  }

  predicate NoShrink(b: Buffer, ops: seq<Op>)
    decreases |ops|
  {
    ops == [] || ((ops[0].Resize? ==> 31 * b.pending <= ops[0].size) && NoShrink(Step(b, ops[0]), ops[1..]))
  }

  /** Dense after each of the operations. */
  predicate StaysDense(b: Buffer, ops: seq<Op>) {
    forall k | 0 <= k <= |ops| :: IsDense(Run(b, ops[..k]))
  }

  lemma StaysDenseStep(b: Buffer, ops: seq<Op>)
    requires ops != []
    ensures StaysDense(b, ops) <==> IsDense(b) && StaysDense(Step(b, ops[0]), ops[1..])
  {
    hide Step, IsDense;
    assert ops[..0] == [];
    assert forall k | 1 <= k <= |ops| :: ops[..k][0] == ops[0] && ops[..k][1..] == ops[1..][..k - 1];
    if StaysDense(b, ops) {
      assert IsDense(Run(b, ops[..0]));
      forall k | 0 <= k <= |ops[1..]|
        ensures IsDense(Run(Step(b, ops[0]), ops[1..][..k]))
      {
        assert IsDense(Run(b, ops[..k + 1]));
      }
    }
    if IsDense(b) && StaysDense(Step(b, ops[0]), ops[1..]) {
      forall k | 0 <= k <= |ops|
        ensures IsDense(Run(b, ops[..k]))
      {
        if k > 0 {
          assert IsDense(Run(Step(b, ops[0]), ops[1..][..k - 1]));
        }
      }
    }
  }

  /** A run keeps a dense buffer dense throughout, if and only if none of its
      resizes goes below 31 times the pending count. */
  lemma {:induction false} RunDense(b: Buffer, ops: seq<Op>)
    requires IsBuffer(b) && AllAllowed(b, ops) && IsDense(b)
    ensures StaysDense(b, ops) <==> NoShrink(b, ops)
    decreases |ops|
  {
    if ops == [] {
      assert ops[..0] == [];
    } else {
      hide Step, Allowed, IsBuffer, IsDense, StaysDense;
      StepDense(b, ops[0]);
      StepRefines(b, ops[0]);
      StaysDenseStep(b, ops);
      if IsDense(Step(b, ops[0])) {
        RunDense(Step(b, ops[0]), ops[1..]);
      } else {
        NotDenseNow(Step(b, ops[0]), ops[1..]);
      }
    }
  }

  lemma NotDenseNow(b: Buffer, ops: seq<Op>)
    requires !IsDense(b)
    ensures !StaysDense(b, ops)
  {
    hide IsDense;
    assert Run(b, ops[..0]) == b;
  }

  /** 64 bytes, of which two are erased and all but ten cut off: a sixth is dead. */
  lemma ResizeLeavesSparse()
    ensures var ops := [Append(seq(64, _ => ZERO)), Erase(2), Resize(10)];
            AllAllowed(Buffer([], 0), ops) && !IsDense(Run(Buffer([], 0), ops))
  {
    var ops := [Append(seq(64, _ => ZERO)), Erase(2), Resize(10)];
    var b1 := Step(Buffer([], 0), ops[0]);
    var b2 := Step(b1, ops[1]);
    assert |b1.bytes| == 64 && b2 == Buffer(b1.bytes, 2);
    var b3 := Step(b2, ops[2]);
    assert |b3.bytes| == 12 && b3.pending == 2;
    assert ops[1..] == [Erase(2), Resize(10)] && ops[1..][1..] == [Resize(10)] && ops[1..][1..][1..] == [];
    assert Run(b3, []) == b3;
    assert Run(b2, [Resize(10)]) == b3;
    assert Run(b1, [Erase(2), Resize(10)]) == b3;
  }

  // ---------------------------------------------------------------- in place

  class SendBuffer {
    var bytes: seq<char>
    var pending: nat

    ghost function Now(): Buffer
      reads this
    {
      Buffer(bytes, pending)
    }

    constructor ()
      ensures Now() == Buffer([], 0)
    {
      bytes, pending := [], 0;
    }

    method Append(data: seq<char>)
      modifies `bytes
      ensures Now() == Step(old(Now()), Op.Append(data))
    {
      bytes := bytes + data;
    }

    method Erase(count: nat)
      modifies this
      ensures Now() == Step(old(Now()), Op.Erase(count))
    {
      pending := (pending + count) % UINT32;
      if pending > |bytes| / 32 {
        bytes := if pending <= |bytes| then bytes[pending..] else [];
        pending := 0;
      }
    }

    method Resize(size: nat)
      modifies `bytes
      ensures Now() == Step(old(Now()), Op.Resize(size))
    {
      bytes := Resized(bytes, size + pending);
    }

    method Clear()
      modifies this
      ensures Now() == Step(old(Now()), Op.Clear)
    {
      pending := 0;
      bytes := [];
    }

    method Length() returns (n: nat)
      requires IsBuffer(Now())
      ensures n == |Live(Now())|
    {
      n := |bytes| - pending;
    }

    method Data() returns (data: seq<char>)
      requires IsBuffer(Now())
      ensures data == Live(Now())
    {
      data := bytes[pending..];
    }
  }
}
