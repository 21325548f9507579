/** datastruct/kfifo.c without the lock: one reader and one writer, interleaved byte by byte. */
module KfifoConcurrent {
  import opened Arithmetic
  import opened KfifoIndex
  import opened Kfifo

  // A call compares its count with what the other side's index allows, looks at that index again
  // for the value of the min macro, copies its bytes in any order, and then publishes its own
  // index.  The two indices and the bytes of the buffer are shared; everything else belongs to one
  // side.  Memory is sequentially consistent.  The history fields `written` and `read` collect
  // what was put and got so far.

  /**
    A call of __kfifo_put in progress: after the comparison, the memory from the caller's pointer
    on and whether the count was less; then the bytes to go in, and which of them are copied.
   */
  datatype Writer =
    | Resting
    | Offering(memory: seq<Byte>, count: nat, less: bool)
    | Putting(data: seq<Byte>, copied: set<nat>)

  /** A call of __kfifo_get in progress: the same, with the bytes that are filled in. */
  datatype Reader =
    | Waiting
    | Asking(memory: seq<Byte>, count: nat, less: bool)
    | Getting(dst: seq<Byte>, filled: set<nat>)

  datatype State = State(
    buf: seq<Byte>, input: nat, output: nat,
    writer: Writer, reader: Reader,
    written: seq<Byte>, read: seq<Byte>)

  datatype Step =
    | PutStart(memory: seq<Byte>, count: nat)
    | PutSize
    | PutByte(i: nat)
    | PutPublish
    | GetStart(memory: seq<Byte>, count: nat)
    | GetSize
    | GetByte(j: nat)
    | GetPublish

  function Init(buf: seq<Byte>): State {
    State(buf, 0, 0, Resting, Waiting, [], [])
  }

  /** fifo->size - fifo->in + fifo->out, unsigned. */
  function Room(s: State): nat {
    (|s.buf| - s.input + s.output) % WRAP
  }

  /** fifo->in - fifo->out, unsigned. */
  function Used(s: State): nat {
    (s.input - s.output) % WRAP
  }

  predicate Enabled(s: State, e: Step) {
    match e
    case PutStart(memory, count) => s.writer.Resting? && count <= |memory| && |s.buf| <= |memory|
    case PutSize => s.writer.Offering?
    case PutByte(i) => s.writer.Putting? && i !in s.writer.copied && i < |s.writer.data| <= |s.buf|
    case PutPublish => s.writer.Putting? && forall i: nat :: i < |s.writer.data| ==> i in s.writer.copied
    case GetStart(memory, count) => s.reader.Waiting? && count <= |memory| && |s.buf| <= |memory|
    case GetSize => s.reader.Asking?
    case GetByte(j) => s.reader.Getting? && j !in s.reader.filled && j < |s.reader.dst| <= |s.buf|
    case GetPublish => s.reader.Getting? && forall j: nat :: j < |s.reader.dst| ==> j in s.reader.filled
  }

  /** The value of min(count, most), when count was less than what most was a moment ago, or not. */
  function Bytes(memory: seq<Byte>, count: nat, less: bool, most: nat): seq<Byte> {
    var len := if less then count else most;
    if len <= |memory| then memory[..len] else memory
  }

  function Next(s: State, e: Step): State
    requires RingSize(|s.buf|) && Enabled(s, e)
  {
    MaskIsSlot(s.input, |s.buf|);
    MaskIsSlot(s.output, |s.buf|);
    match e
    case PutStart(memory, count) =>
      s.(writer := Offering(memory, count, count < Room(s)))
    case PutSize =>
      s.(writer := Putting(Bytes(s.writer.memory, s.writer.count, s.writer.less, Room(s)), {}))
    case PutByte(i) =>
      var k := CopySlot(And(s.input, |s.buf| - 1), i, |s.buf|);
      s.(buf := s.buf[k := s.writer.data[i]], writer := Putting(s.writer.data, s.writer.copied + {i}))
    case PutPublish =>
      s.(input := (s.input + |s.writer.data|) % WRAP, written := s.written + s.writer.data, writer := Resting)
    case GetStart(memory, count) =>
      s.(reader := Asking(memory, count, count < Used(s)))
    case GetSize =>
      s.(reader := Getting(Bytes(s.reader.memory, s.reader.count, s.reader.less, Used(s)), {}))
    case GetByte(j) =>
      var k := CopySlot(And(s.output, |s.buf| - 1), j, |s.buf|);
      s.(reader := Getting(s.reader.dst[j := s.buf[k]], s.reader.filled + {j}))
    case GetPublish =>
      s.(output := (s.output + |s.reader.dst|) % WRAP, read := s.read + s.reader.dst, reader := Waiting)
  }

  // ---------- the invariant ----------

  /** The indices are the lengths of the histories, wrapped, and the ring is not overrun. */
  predicate IndicesOk(s: State) {
    && RingSize(|s.buf|)
    && s.input == |s.written| % WRAP && s.output == |s.read| % WRAP
    && |s.read| <= |s.written| <= |s.read| + |s.buf|
  }

  /** Bytes put and not yet got are in the ring. */
  ghost predicate BufferOk(s: State)
    requires |s.buf| > 0
  {
    forall a: nat {:trigger Rem(a, |s.buf|)} :: |s.read| <= a < |s.written| ==> s.buf[Rem(a, |s.buf|)] == s.written[a]
  }

  /** The writer has room for its bytes, and those copied are in place. */
  ghost predicate WriterOk(s: State)
    requires |s.buf| > 0
  {
    match s.writer
    case Resting => true
    case Offering(memory, count, less) =>
      && count <= |memory| && |s.buf| <= |memory|
      && (less ==> |s.written| + count <= |s.read| + |s.buf|)
    case Putting(data, copied) =>
      && |s.written| + |data| <= |s.read| + |s.buf|
      && (forall i: nat {:trigger data[i]} :: i < |data| && i in copied ==>
            s.buf[SlotAt(|s.written|, i, |s.buf|)] == data[i])
  }

  /** The reader's bytes were all put already, and those copied are right. */
  ghost predicate ReaderOk(s: State)
  {
    match s.reader
    case Waiting => true
    case Asking(memory, count, less) =>
      && count <= |memory| && |s.buf| <= |memory|
      && (less ==> |s.read| + count <= |s.written|)
    case Getting(dst, filled) =>
      && |s.read| + |dst| <= |s.written|
      && (forall j: nat {:trigger dst[j]} :: j < |dst| && j in filled ==> dst[j] == s.written[|s.read| + j])
  }

  ghost predicate Inv(s: State) {
    && IndicesOk(s) && |s.buf| > 0
    && BufferOk(s) && WriterOk(s) && ReaderOk(s)
    && s.read == s.written[..|s.read|]
  }

  /** What the unsigned differences mean. */
  lemma IndexDistance(s: State)
    requires IndicesOk(s)
    ensures 0 < |s.buf| < WRAP && WRAP % |s.buf| == 0
    ensures Used(s) == |s.written| - |s.read| && Room(s) == |s.buf| - Used(s)
  {
    RingSizeFacts(|s.buf|);
    WrappedDistance(|s.written|, |s.read|);
    RoomLeft(s.input, s.output, |s.buf|);
  }

  /** Where the copies go. */
  lemma CopyTarget(s: State, a: nat, i: nat)
    requires RingSize(|s.buf|) && i < |s.buf|
    ensures |s.buf| > 0 && And(a % WRAP, |s.buf| - 1) < |s.buf|
    ensures CopySlot(And(a % WRAP, |s.buf| - 1), i, |s.buf|) == SlotAt(a, i, |s.buf|)
  {
    RingSizeFacts(|s.buf|);
    MaskIsSlot(a % WRAP, |s.buf|);
    CopySlotRight(a % WRAP, i, |s.buf|);
    SlotOfWrapped(a, i, |s.buf|);
  }

  lemma PutStartKeeps(s: State, memory: seq<Byte>, count: nat)
    requires Inv(s) && Enabled(s, PutStart(memory, count))
    ensures Inv(Next(s, PutStart(memory, count)))
  {
    IndexDistance(s);
  }

  /** Whatever happened since the comparison, there is room for the bytes. */
  lemma PutSizeKeeps(s: State)
    requires Inv(s) && Enabled(s, PutSize)
    ensures Inv(Next(s, PutSize))
  {
    IndexDistance(s);
  }

  /** A byte of the writer lands outside of what the reader may look at. */
  lemma PutByteKeeps(s: State, i: nat)
    requires Inv(s) && Enabled(s, PutByte(i))
    ensures Inv(Next(s, PutByte(i)))
  {
    CopyTarget(s, |s.written|, i);
    PutByteBuffer(s, i, Next(s, PutByte(i)).buf);
    PutByteCopied(s, i, Next(s, PutByte(i)).buf);
  }

  /** The reader's bytes are untouched by a copy of the writer. */
  lemma PutByteBuffer(s: State, i: nat, buf: seq<Byte>)
    requires Inv(s) && s.writer.Putting? && i < |s.writer.data|
    requires buf == s.buf[SlotAt(|s.written|, i, |s.buf|) := s.writer.data[i]]
    ensures BufferOk(s.(buf := buf))
  {
    var n, m := |s.buf|, |s.written|;
    forall a: nat | |s.read| <= a < m
      ensures buf[Rem(a, n)] == s.written[a]
    {
      if Rem(a, n) == SlotAt(m, i, n) {
        RemUnique(a, m + i, n);
      }
    }
  }

  /** A copy of the writer does not undo the others. */
  lemma PutByteCopied(s: State, i: nat, buf: seq<Byte>)
    requires Inv(s) && s.writer.Putting? && i < |s.writer.data|
    requires buf == s.buf[SlotAt(|s.written|, i, |s.buf|) := s.writer.data[i]]
    ensures WriterOk(s.(buf := buf, writer := Putting(s.writer.data, s.writer.copied + {i})))
  {
    var n, m := |s.buf|, |s.written|;
    forall j: nat | j < |s.writer.data| && j in s.writer.copied + {i}
      ensures buf[SlotAt(m, j, n)] == s.writer.data[j]
    {
      if SlotAt(m, j, n) == SlotAt(m, i, n) {
        RemUnique(m + j, m + i, n);
      } else {
        assert s.buf[SlotAt(m, j, n)] == s.writer.data[j];
      }
    }
  }

  /** The bytes of a finished put are in the ring behind the others. */
  lemma PublishedBuffer(s: State, written: seq<Byte>)
    requires Inv(s) && Enabled(s, PutPublish) && written == s.written + s.writer.data
    ensures forall a: nat {:trigger Rem(a, |s.buf|)} :: |s.read| <= a < |written| ==>
      s.buf[Rem(a, |s.buf|)] == written[a]
  {
    var n, m := |s.buf|, |s.written|;
    forall a: nat | |s.read| <= a < |written|
      ensures s.buf[Rem(a, n)] == written[a]
    {
      if a >= m {
        assert s.writer.data[a - m] == s.buf[SlotAt(m, a - m, n)];
      }
    }
  }

  lemma PutPublishKeeps(s: State)
    requires Inv(s) && Enabled(s, PutPublish)
    ensures Inv(Next(s, PutPublish))
  {
    WrappedAdd(|s.written|, |s.writer.data|);
    PublishedBuffer(s, s.written + s.writer.data);
  }

  lemma GetStartKeeps(s: State, memory: seq<Byte>, count: nat)
    requires Inv(s) && Enabled(s, GetStart(memory, count))
    ensures Inv(Next(s, GetStart(memory, count)))
  {
    IndexDistance(s);
  }

  lemma GetSizeKeeps(s: State)
    requires Inv(s) && Enabled(s, GetSize)
    ensures Inv(Next(s, GetSize))
  {
    IndexDistance(s);
  }

  lemma GetByteKeeps(s: State, j: nat)
    requires Inv(s) && Enabled(s, GetByte(j))
    ensures Inv(Next(s, GetByte(j)))
  {
    CopyTarget(s, |s.read|, j);
  }

  lemma GetPublishKeeps(s: State)
    requires Inv(s) && Enabled(s, GetPublish)
    ensures Inv(Next(s, GetPublish))
  {
    var s' := Next(s, GetPublish);
    WrappedAdd(|s.read|, |s.reader.dst|);
    forall j: nat | j < |s.reader.dst|
      ensures s.reader.dst[j] == s.written[|s.read| + j]
    {
    }
    assert s'.read == s.written[..|s'.read|];
  }

  lemma StepKeeps(s: State, e: Step)
    requires Inv(s) && Enabled(s, e)
    ensures Inv(Next(s, e))
  {
    match e
    case PutStart(memory, count) => PutStartKeeps(s, memory, count);
    case PutSize => PutSizeKeeps(s);
    case PutByte(i) => PutByteKeeps(s, i);
    case PutPublish => PutPublishKeeps(s);
    case GetStart(memory, count) => GetStartKeeps(s, memory, count);
    case GetSize => GetSizeKeeps(s);
    case GetByte(j) => GetByteKeeps(s, j);
    case GetPublish => GetPublishKeeps(s);
  }

  // ---------- whole runs ----------

  /** The states of a run, each a step after the one before. */
  ghost predicate Run(states: seq<State>, steps: seq<Step>, size: nat) {
    && |states| == |steps| + 1 && RingSize(size)
    && |states[0].buf| == size && states[0] == Init(states[0].buf)
    && forall i: nat {:trigger steps[i]} :: i < |steps| ==>
         |states[i].buf| == size && Enabled(states[i], steps[i]) && states[i + 1] == Next(states[i], steps[i])
  }

  lemma {:induction false} RunKeeps(states: seq<State>, steps: seq<Step>, size: nat, i: nat)
    requires Run(states, steps, size) && i < |states|
    ensures Inv(states[i])
  {
    if i == 0 {
      RingSizeFacts(size);
    } else {
      RunKeeps(states, steps, size, i - 1);
      assert Enabled(states[i - 1], steps[i - 1]);
      StepKeeps(states[i - 1], steps[i - 1]);
    }
  }

  /**
    In every run: what the reader got is a prefix of what the writer put, the unsigned difference
    of the indices is the number of bytes between them and never exceeds the size, also after
    the indices wrapped, and no slot is in use by calls of both sides at once.
   */
  lemma FifoOrder(states: seq<State>, steps: seq<Step>, size: nat, i: nat)
    requires Run(states, steps, size) && i < |states|
    ensures var s := states[i];
      && |s.read| <= |s.written| && s.read == s.written[..|s.read|]
      && Used(s) == |s.written| - |s.read| <= size
    ensures var s := states[i];
      s.writer.Putting? && s.reader.Getting? ==> forall p: nat, q: nat :: p < |s.writer.data| && q < |s.reader.dst| ==>
        SlotAt(|s.written|, p, size) != SlotAt(|s.read|, q, size)
  {
    RunKeeps(states, steps, size, i);
    var s := states[i];
    RunSize(states, steps, size, i);
    IndexDistance(s);
    if s.writer.Putting? && s.reader.Getting? {
      forall p: nat, q: nat | p < |s.writer.data| && q < |s.reader.dst|
        ensures SlotAt(|s.written|, p, size) != SlotAt(|s.read|, q, size)
      {
        if SlotAt(|s.written|, p, size) == SlotAt(|s.read|, q, size) {
          RemUnique(|s.written| + p, |s.read| + q, size);
        }
      }
    }
  }

  /** A call in progress can always go on: it looks again, has a byte to copy, or may publish. */
  lemma NeverStuck(s: State)
    requires Inv(s)
    ensures s.writer.Offering? ==> Enabled(s, PutSize)
    ensures s.reader.Asking? ==> Enabled(s, GetSize)
    ensures s.writer.Putting? ==> Enabled(s, PutPublish) || exists i: nat :: Enabled(s, PutByte(i))
    ensures s.reader.Getting? ==> Enabled(s, GetPublish) || exists j: nat :: Enabled(s, GetByte(j))
  {
    if s.writer.Putting? && !Enabled(s, PutPublish) {
      var i: nat :| i < |s.writer.data| && i !in s.writer.copied;
      assert Enabled(s, PutByte(i));
    }
    if s.reader.Getting? && !Enabled(s, GetPublish) {
      var j: nat :| j < |s.reader.dst| && j !in s.reader.filled;
      assert Enabled(s, GetByte(j));
    }
  }

  lemma NextSize(s: State, e: Step)
    requires RingSize(|s.buf|) && Enabled(s, e)
    ensures |Next(s, e).buf| == |s.buf|
  {
  }

  lemma RunSize(states: seq<State>, steps: seq<Step>, size: nat, i: nat)
    requires Run(states, steps, size) && i < |states|
    ensures |states[i].buf| == size
  {
    if i > 0 {
      assert Enabled(states[i - 1], steps[i - 1]);
      NextSize(states[i - 1], steps[i - 1]);
    }
  }

  // ---------- the second look ----------

  /** Until it looks again, a put remembers the comparison, and its room can only grow. */
  lemma {:induction false} Offered(states: seq<State>, steps: seq<Step>, size: nat, i: nat, j: nat)
    requires Run(states, steps, size) && i < j < |states| && steps[i].PutStart?
    requires forall k: nat :: i < k < j ==> !steps[k].PutSize?
    ensures states[j].writer == Offering(steps[i].memory, steps[i].count, steps[i].count < Room(states[i]))
    ensures Room(states[i]) <= Room(states[j])
  {
    var s := states[j - 1];
    if i < j - 1 {
      Offered(states, steps, size, i, j - 1);
    }
    RunKeeps(states, steps, size, j - 1);
    RunKeeps(states, steps, size, j);
    IndexDistance(s);
    IndexDistance(states[j]);
    assert Enabled(s, steps[j - 1]);
    NextSize(s, steps[j - 1]);
  }

  lemma {:induction false} Asked(states: seq<State>, steps: seq<Step>, size: nat, i: nat, j: nat)
    requires Run(states, steps, size) && i < j < |states| && steps[i].GetStart?
    requires forall k: nat :: i < k < j ==> !steps[k].GetSize?
    ensures states[j].reader == Asking(steps[i].memory, steps[i].count, steps[i].count < Used(states[i]))
    ensures Used(states[i]) <= Used(states[j])
  {
    var s := states[j - 1];
    if i < j - 1 {
      Asked(states, steps, size, i, j - 1);
    }
    RunKeeps(states, steps, size, j - 1);
    RunKeeps(states, steps, size, j);
    IndexDistance(s);
    IndexDistance(states[j]);
    assert Enabled(s, steps[j - 1]);
    NextSize(s, steps[j - 1]);
  }

  /** The second look decides on the bytes. */
  lemma Sized(s: State)
    requires Inv(s)
    ensures s.writer.Offering? ==>
      && Next(s, PutSize).writer == Putting(Bytes(s.writer.memory, s.writer.count, s.writer.less, Room(s)), {})
      && Room(s) <= |s.writer.memory| && s.writer.count <= |s.writer.memory|
      && (s.writer.less ==> s.writer.count <= Room(s))
    ensures s.reader.Asking? ==>
      && Next(s, GetSize).reader == Getting(Bytes(s.reader.memory, s.reader.count, s.reader.less, Used(s)), {})
      && Used(s) <= |s.reader.memory| && s.reader.count <= |s.reader.memory|
      && (s.reader.less ==> s.reader.count <= Used(s))
  {
    IndexDistance(s);
  }

  /**
    How many bytes a put takes when the comparison is step i and the second look step j: never
    more than there is room for, at least what the comparison saw of the count, and more than the
    caller offered exactly if the room was not more than the count at first and is at last.
   */
  lemma PutTakes(states: seq<State>, steps: seq<Step>, size: nat, i: nat, j: nat)
    requires Run(states, steps, size) && i < j < |steps| && steps[i].PutStart? && steps[j].PutSize?
    requires forall k: nat :: i < k < j ==> !steps[k].PutSize?
    ensures states[j + 1].writer.Putting?
    ensures var data, count, first, last := states[j + 1].writer.data, steps[i].count, Room(states[i]), Room(states[j]);
      && data <= steps[i].memory && |data| <= last
      && (|data| >= count || |data| >= first)
      && (|data| > count <==> first <= count < last)
  {
    Offered(states, steps, size, i, j);
    RunKeeps(states, steps, size, j);
    assert Enabled(states[j], steps[j]);
    Sized(states[j]);
  }

  /** The same for a get: it writes beyond the caller's count exactly if the queue has grown beyond it in between. */
  lemma GetTakes(states: seq<State>, steps: seq<Step>, size: nat, i: nat, j: nat)
    requires Run(states, steps, size) && i < j < |steps| && steps[i].GetStart? && steps[j].GetSize?
    requires forall k: nat :: i < k < j ==> !steps[k].GetSize?
    ensures states[j + 1].reader.Getting?
    ensures var dst, count, first, last := states[j + 1].reader.dst, steps[i].count, Used(states[i]), Used(states[j]);
      && dst <= steps[i].memory && |dst| <= last
      && (|dst| >= count || |dst| >= first)
      && (|dst| > count <==> first <= count < last)
  {
    Asked(states, steps, size, i, j);
    RunKeeps(states, steps, size, j);
    assert Enabled(states[j], steps[j]);
    Sized(states[j]);
  }

  /** A run goes on with any enabled step. */
  lemma Onwards(states: seq<State>, steps: seq<Step>, size: nat, e: Step)
    returns (states': seq<State>, steps': seq<Step>)
    requires Run(states, steps, size) && Enabled(states[|steps|], e)
    ensures |states[|steps|].buf| == size
    ensures states' == states + [Next(states[|steps|], e)] && steps' == steps + [e] && Run(states', steps', size)
  {
    RunSize(states, steps, size, |steps|);
    states', steps' := states + [Next(states[|steps|], e)], steps + [e];
    forall i: nat | i < |steps'|
      ensures |states'[i].buf| == size && Enabled(states'[i], steps'[i])
        && states'[i + 1] == Next(states'[i], steps'[i])
    {
      assert i < |steps| ==> Enabled(states[i], steps[i]);
    }
  }

  /** A get of no bytes has compared, and a put of one byte is about to copy it. */
  lemma BothBegun(memory: seq<Byte>) returns (states: seq<State>, steps: seq<Step>)
    requires RingSize(|memory|)
    ensures Run(states, steps, |memory|) && steps == [GetStart(memory, 0), PutStart(memory, 1), PutSize]
    ensures states[0] == Init(memory) && states[3].written == [] && states[3].read == []
    ensures states[3].writer.Putting? && |states[3].writer.data| == 1 && states[3].writer.copied == {}
  {
    var size := |memory|;
    RingSizeFacts(size);
    states, steps := [Init(memory)], [];
    states, steps := Onwards(states, steps, size, GetStart(memory, 0));
    states, steps := Onwards(states, steps, size, PutStart(memory, 1));
    states, steps := Onwards(states, steps, size, PutSize);
    PutTakes(states, steps, size, 1, 2);
  }

  /** A get of no bytes from an empty ring of any size, while a byte is put: one byte is written to the caller. */
  lemma GetTooMany(memory: seq<Byte>) returns (states: seq<State>, steps: seq<Step>)
    requires RingSize(|memory|)
    ensures Run(states, steps, |memory|) && |steps| == 6
    ensures steps[0] == GetStart(memory, 0) && steps[5] == GetSize
    ensures states[6].reader.Getting? && |states[6].reader.dst| == 1
  {
    var size := |memory|;
    RingSizeFacts(size);
    states, steps := BothBegun(memory);
    RunSize(states, steps, size, 3);
    states, steps := Onwards(states, steps, size, PutByte(0));
    states, steps := Onwards(states, steps, size, PutPublish);
    assert |states[5].written| == 1 && states[5].read == [];
    Asked(states, steps, size, 0, 5);
    RunKeeps(states, steps, size, 5);
    IndexDistance(states[5]);
    states, steps := Onwards(states, steps, size, GetSize);
    Sized(states[5]);
  }
}
