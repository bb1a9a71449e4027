/** Runs of operations on a buffer, which behaves as a byte queue. */
module BufferRuns {
  import opened Buffers

  datatype Op =
    | Write(data: string)
    | Fill(data: string)   // bytes are put behind the writing cursor and then made readable, as a read does
    | Take(size: nat)
    | TakeAll
    | Discard              // `Clear`
    | Reserve(size: nat)

  // What the operation adds to the queue.
  function Added(op: Op): string {
    if op.Write? || op.Fill? then op.data else []
  }

  // How many bytes it removes; a retrieval of more than is readable is not allowed and removes nothing.
  function Removed(queue: string, op: Op): (n: nat)
    ensures n <= |queue|
  {
    match op
    case Take(size) => if size <= |queue| then size else 0
    case TakeAll => |queue|
    case Discard => |queue|
    case _ => 0
  }

  function Step(queue: string, op: Op): string {
    queue[Removed(queue, op)..] + Added(op)
  }

  function Queue(queue: string, ops: seq<Op>): string {
    if ops == [] then queue else Step(Queue(queue, ops[..|ops| - 1]), ops[|ops| - 1])
  }

  function Input(ops: seq<Op>): string {
    if ops == [] then [] else Input(ops[..|ops| - 1]) + Added(ops[|ops| - 1])
  }

  // The bytes that have left the queue, by retrieval or by clearing.
  function Output(queue: string, ops: seq<Op>): string {
    if ops == [] then []
    else
      var before := Queue(queue, ops[..|ops| - 1]);
      Output(queue, ops[..|ops| - 1]) + before[..Removed(before, ops[|ops| - 1])]
  }

  lemma OneStep(output: string, before: string, n: nat, added: string)
    requires n <= |before|
    ensures output + before[..n] + (before[n..] + added) == output + before + added
  {
    assert before == before[..n] + before[n..];
  }

  /** Over any run, the bytes that have left followed by the bytes still readable are the bytes put in, in order. */
  lemma {:induction false} FirstInFirstOut(queue: string, ops: seq<Op>)
    ensures Output(queue, ops) + Queue(queue, ops) == queue + Input(ops)
  {
    if ops == [] {
      assert [] + queue == queue + [];
    } else {
      var front, op := ops[..|ops| - 1], ops[|ops| - 1];
      var before := Queue(queue, front);
      FirstInFirstOut(queue, front);
      OneStep(Output(queue, front), before, Removed(before, op), Added(op));
      assert queue + Input(front) + Added(op) == queue + (Input(front) + Added(op));
    }
  }

  // As much as fits is put behind the writing cursor and becomes readable, the rest is appended.
  method FillIn(buffer: Buffer, data: string)
    requires buffer.Valid()
    modifies buffer, buffer.buf
    ensures buffer.Valid() && (buffer.buf == old(buffer.buf) || fresh(buffer.buf))
    ensures buffer.Contents() == old(buffer.Contents()) + data
  {
    var n := if |data| < buffer.WritableSize() then |data| else buffer.WritableSize();
    ghost var before := buffer.Contents();
    PutBehind(buffer, data[..n]);
    buffer.HasWritten(n);
    buffer.Append(data[n..]);
    TwoParts(before, data, n);
  }

  method PutBehind(buffer: Buffer, data: string)
    requires buffer.Valid() && |data| <= buffer.WritableSize()
    modifies buffer.buf
    ensures buffer.Valid() && buffer.Contents() == old(buffer.Contents())
    ensures buffer.buf[buffer.writePos..buffer.writePos + |data|] == data
  {
    buffer.Store(data);
    assert buffer.buf[buffer.readPos..buffer.writePos] == buffer.buf[..buffer.writePos][buffer.readPos..];
  }

  // One operation; what it removes is returned.
  method Apply(buffer: Buffer, op: Op) returns (taken: string)
    requires buffer.Valid()
    modifies buffer, buffer.buf
    ensures buffer.Valid() && (buffer.buf == old(buffer.buf) || fresh(buffer.buf))
    ensures buffer.Contents() == Step(old(buffer.Contents()), op)
    ensures taken == old(buffer.Contents())[..Removed(old(buffer.Contents()), op)]
  {
    taken := "";
    match op {
      case Write(data) => buffer.Append(data);
      case Fill(data) => FillIn(buffer, data);
      case Reserve(size) => buffer.EnsureWriteableSize(size);
      case Take(size) =>
        if size <= buffer.ReadableSize() {
          taken := buffer.ReadableString();
          taken := taken[..size];
          buffer.Retrieve(size);
        }
      case TakeAll => taken := buffer.RetrieveAllToString();
      case Discard =>
        taken := buffer.ReadableString();
        buffer.Clear();
    }
  }

  /** A run of operations on a buffer is the same run on the queue of its readable bytes. */
  method Replay(buffer: Buffer, ops: seq<Op>) returns (output: string)
    requires buffer.Valid()
    modifies buffer, buffer.buf
    ensures buffer.Valid() && buffer.Contents() == Queue(old(buffer.Contents()), ops)
    ensures output == Output(old(buffer.Contents()), ops)
  {
    output := "";
    for i := 0 to |ops|
      invariant buffer.Valid() && (buffer.buf == old(buffer.buf) || fresh(buffer.buf))
      invariant buffer.Contents() == Queue(old(buffer.Contents()), ops[..i])
      invariant output == Output(old(buffer.Contents()), ops[..i])
    {
      assert ops[..i + 1][..i] == ops[..i];
      var taken := Apply(buffer, ops[i]);
      output := output + taken;
    }
    assert ops[..|ops|] == ops;
  }
}
