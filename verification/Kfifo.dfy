/**
  datastruct/kfifo.c and kfifo.h: the byte ring as an object, used by one thread at a time (the
  locked interface).  KfifoConcurrent has the unlocked interface with a reader and a writer.
 */
module Kfifo {
  import opened Arithmetic
  import opened KfifoIndex

  lemma RingSizeFacts(size: nat)
    requires RingSize(size)
    ensures 0 < size < WRAP && WRAP % size == 0
  {
    var j: nat :| j <= 31 && size == Pow2(j);
    Pow2Values();
    Pow2Monotone(j, 32);
    SizeDivides(j);
  }

  /** index & (size - 1) is the index's slot. */
  lemma MaskIsSlot(x: nat, size: nat)
    requires RingSize(size)
    ensures size > 0 && And(x, size - 1) == Rem(x, size)
  {
    var j: nat :| j <= 31 && size == Pow2(j);
    RemIsRemainder(x, size);
    MaskIsRemainder(x, j);
  }

  /** The bytes from index out on. */
  function Ring(buf: seq<Byte>, out: nat, n: nat): (r: seq<Byte>)
    requires |buf| > 0
    ensures |r| == n
  {
    seq(n, i requires 0 <= i < n => buf[SlotAt(out, i, |buf|)])
  }

  /** k is one of the n slots from index start on. */
  predicate Touched(k: nat, start: nat, n: nat, s: nat)
    requires s > 0
  {
    exists i: nat :: i < n && k == SlotAt(start, i, s)
  }

  /** buf' has the bytes of data from index start on, and is otherwise buf. */
  ghost predicate Written(buf: seq<Byte>, buf': seq<Byte>, start: nat, data: seq<Byte>) {
    && |buf'| == |buf| > 0
    && (forall i: nat {:trigger SlotAt(start, i, |buf|)} :: i < |data| ==> buf'[SlotAt(start, i, |buf|)] == data[i])
    && (forall k: nat {:trigger buf'[k]} :: k < |buf| && !Touched(k, start, |data|, |buf|) ==> buf'[k] == buf[k])
  }

  /** The slots behind the end of the queue are not those of its bytes. */
  lemma NotTouched(out: nat, len: nat, k: nat, n: nat, s: nat)
    requires 0 < s && k < len && len + n <= s && WRAP % s == 0
    ensures !Touched(SlotAt(out, k, s), (out + len) % WRAP, n, s)
  {
    var start := (out + len) % WRAP;
    forall i: nat | i < n
      ensures SlotAt(out, k, s) != SlotAt(start, i, s)
    {
      SlotOfWrapped(out + len, i, s);
      if SlotAt(out, k, s) == SlotAt(out + len, i, s) {
        RemUnique(out + k, out + len + i, s);
      }
    }
  }

  /** Writing behind the end of the queue appends to it. */
  lemma WrittenAppends(buf: seq<Byte>, buf': seq<Byte>, out: nat, len: nat, start: nat, data: seq<Byte>)
    requires Written(buf, buf', start, data) && len + |data| <= |buf| && WRAP % |buf| == 0
    requires start == (out + len) % WRAP
    ensures Ring(buf', out, len + |data|) == Ring(buf, out, len) + data
  {
    var s := |buf|;
    forall k: nat | k < len + |data|
      ensures Ring(buf', out, len + |data|)[k] == (Ring(buf, out, len) + data)[k]
    {
      if k < len {
        NotTouched(out, len, k, |data|, s);
      } else {
        SlotOfWrapped(out + len, k - len, s);
        assert buf'[SlotAt(start, k - len, s)] == data[k - len];
        assert out + len + (k - len) == out + k;
      }
    }
  }

  /** Reading on from a wrapped index. */
  lemma RingSuffix(buf: seq<Byte>, out: nat, n: nat, len: nat)
    requires |buf| > 0 && WRAP % |buf| == 0 && n <= len
    ensures Ring(buf, (out + n) % WRAP, len - n) == Ring(buf, out, len)[n..]
  {
    forall i: nat | i < len - n
      ensures Ring(buf, (out + n) % WRAP, len - n)[i] == Ring(buf, out, len)[n..][i]
    {
      SlotOfWrapped(out + n, i, |buf|);
      assert out + n + i == out + (n + i);
    }
  }

  /** memcpy between different arrays. */
  method MemCpy(dst: array<Byte>, d: nat, src: array<Byte>, s: nat, n: nat)
    requires dst != src && d + n <= dst.Length && s + n <= src.Length
    modifies dst
    ensures forall k :: 0 <= k < dst.Length ==> dst[k] == if d <= k < d + n then src[s + (k - d)] else old(dst[k])
  {
    for i := 0 to n
      invariant forall k :: 0 <= k < dst.Length ==> dst[k] == if d <= k < d + i then src[s + (k - d)] else old(dst[k])
    {
      dst[d + i] := src[s + i];
    }
  }

  /** struct kfifo. */
  class Fifo {
    const buffer: array<Byte>
    const size: nat
    var input: nat
    var output: nat

    ghost predicate Valid()
      reads this
    {
      && RingSize(size) && buffer.Length == size
      && input < WRAP && output < WRAP && Len() <= size
    }

    /** __kfifo_len. */
    function Len(): (n: nat)
      reads this
    {
      (input - output) % WRAP
    }

    /** The bytes in the queue, oldest first. */
    ghost function Contents(): (s: seq<Byte>)
      requires Valid()
      reads this, buffer
      ensures |s| == Len()
    {
      RingSizeFacts(size);
      Ring(buffer[..], output, Len())
    }

    /** kfifo_init, with a size as kfifo_alloc makes it. */
    constructor (buffer: array<Byte>)
      requires RingSize(buffer.Length)
      ensures Valid() && this.buffer == buffer && Contents() == []
    {
      this.buffer, size := buffer, buffer.Length;
      input, output := 0, 0;
    }

    /** __kfifo_reset. */
    method Reset()
      requires Valid()
      modifies this`input, this`output
      ensures Valid() && Contents() == [] && input == output == 0
    {
      input, output := 0, 0;
    }

    /** The two copies of __kfifo_put. */
    method CopyIn(src: array<Byte>, len: nat)
      requires Valid() && src != buffer && len <= src.Length && len <= size
      modifies buffer
      ensures Written(old(buffer[..]), buffer[..], input, src[..len])
    {
      MaskIsSlot(input, size);
      var off := And(input, size - 1);
      var l := Min(len, size - off);
      MemCpy(buffer, off, src, 0, l);
      MemCpy(buffer, 0, src, l, len - l);
      forall i: nat | i < len
        ensures buffer[SlotAt(input, i, size)] == src[i]
      {
        CopySlotRight(input, i, size);
      }
      forall k: nat | k < size && !Touched(k, input, len, size)
        ensures buffer[k] == old(buffer[k])
      {
        var i := if k >= off then k - off else k + size - off;
        CopySlotRight(input, i, size);
      }
    }

    /** __kfifo_put: as many bytes as there is room for go to the end of the queue. */
    method Put(src: array<Byte>, count: nat) returns (len: nat)
      requires Valid() && src != buffer && count <= src.Length && count < WRAP
      modifies this`input, buffer
      ensures Valid() && len == Min(count, size - old(Len()))
      ensures Contents() == old(Contents()) + src[..len]
    {
      RingSizeFacts(size);
      ghost var n, start := Len(), input;
      RoomLeft(input, output, size);
      len := Min(count, (size - input + output) % WRAP);
      CopyIn(src, len);
      WrittenAppends(old(buffer[..]), buffer[..], output, n, input, src[..len]);
      LenAfterPut(input, output, len, size);
      input := (input + len) % WRAP;
    }

    /** The two copies of __kfifo_get. */
    method CopyOut(dst: array<Byte>, len: nat)
      requires Valid() && dst != buffer && len <= dst.Length && len <= size
      modifies dst
      ensures dst[..] == Ring(buffer[..], output, len) + old(dst[len..])
    {
      MaskIsSlot(output, size);
      var off := And(output, size - 1);
      var l := Min(len, size - off);
      MemCpy(dst, 0, buffer, off, l);
      MemCpy(dst, l, buffer, 0, len - l);
      forall i: nat | i < len
        ensures dst[i] == buffer[SlotAt(output, i, size)]
      {
        CopySlotRight(output, i, size);
      }
      assert dst[..len] == Ring(buffer[..], output, len);
      assert dst[len..] == old(dst[len..]);
    }

    /** __kfifo_get: as many bytes as there are leave the front of the queue. */
    method Get(dst: array<Byte>, count: nat) returns (len: nat)
      requires Valid() && dst != buffer && count <= dst.Length && count < WRAP
      modifies this`output, dst
      ensures Valid() && len == Min(count, old(Len()))
      ensures dst[..] == old(Contents())[..len] + old(dst[len..])
      ensures Contents() == old(Contents())[len..]
    {
      RingSizeFacts(size);
      ghost var n := Len();
      len := Min(count, (input - output) % WRAP);
      CopyOut(dst, len);
      assert Ring(buffer[..], output, len) == Ring(buffer[..], output, n)[..len];
      RingSuffix(buffer[..], output, len, n);
      LenAfterGet(input, output, len);
      output := (output + len) % WRAP;
    }

    /** kfifo_get: putting both indices back to zero when the queue runs empty does not show. */
    method LockedGet(dst: array<Byte>, count: nat) returns (len: nat)
      requires Valid() && dst != buffer && count <= dst.Length && count < WRAP
      modifies this`input, this`output, dst
      ensures Valid() && len == Min(count, old(Len()))
      ensures dst[..] == old(Contents())[..len] + old(dst[len..])
      ensures Contents() == old(Contents())[len..]
      ensures Contents() == [] ==> input == output == 0
      ensures Contents() != [] ==> input == old(input)
    {
      len := Get(dst, count);
      EmptyIndices(input, output);
      if input == output {
        Reset();
      }
    }
  }

  /** size - in + out in unsigned arithmetic is the room left. */
  lemma RoomLeft(input: nat, output: nat, size: nat)
    requires input < WRAP && output < WRAP && size < WRAP && (input - output) % WRAP <= size
    ensures (size - input + output) % WRAP == size - (input - output) % WRAP
    ensures input == (output + (input - output) % WRAP) % WRAP
  {
    assert size - input + output == size - (input - output);
    if input >= output {
      assert (input - output) % WRAP == input - output;
    } else {
      assert (input - output) % WRAP == input - output + WRAP;
    }
  }

  /** The queue is empty exactly if the indices agree. */
  lemma EmptyIndices(input: nat, output: nat)
    requires input < WRAP && output < WRAP
    ensures (input - output) % WRAP == 0 <==> input == output
  {
    if input >= output {
      assert (input - output) % WRAP == input - output;
    } else {
      assert (input - output) % WRAP == input - output + WRAP;
    }
  }

  lemma LenAfterPut(input: nat, output: nat, len: nat, size: nat)
    requires input < WRAP && output < WRAP && (input - output) % WRAP + len <= size < WRAP
    ensures ((input + len) % WRAP - output) % WRAP == (input - output) % WRAP + len
  {
  }

  lemma LenAfterGet(input: nat, output: nat, len: nat)
    requires input < WRAP && output < WRAP && len <= (input - output) % WRAP
    ensures (input - (output + len) % WRAP) % WRAP == (input - output) % WRAP - len
  {
  }
}
