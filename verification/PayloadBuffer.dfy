/** The bounded growable buffer under every encoder: heap storage while small,
    an anonymous mapping once large. */
module PayloadBuffers {
  import opened Basics

  /** At this size storage becomes a mapping. */
  const MMAP_THRESHOLD: nat := 2 * 1024 * 1024

  datatype Outcome = Done | TooLarge | AllocationFailed

  function SaturatingDouble(n: nat): (r: nat)
    ensures r == Min(2 * n, USIZE_MAX)
  {
    if 2 * n > USIZE_MAX then USIZE_MAX else 2 * n
  }

  class PayloadBuffer {
    /** Heap storage; unused once `mapped` is set. */
    var heap: Text
    var heapCapacity: nat
    var mapped: array?<byte>
    var len: nat
    const maxLen: nat

    /** Bytes moved by migrations into a mapping, over the buffer's life. */
    ghost var copied: nat

    function Capacity(): nat
      reads this
    {
      if mapped == null then heapCapacity else mapped.Length
    }

    ghost predicate Valid()
      reads this, mapped
    {
      // migrations cost at most two copies of the content
      Sound() && copied <= 2 * len
    }

    ghost predicate Sound()
      reads this, mapped
    {
      && len <= maxLen <= USIZE_MAX && len <= Capacity() <= USIZE_MAX
      && (mapped == null ==> |heap| == len && copied == 0)
      // a mapping is never smaller than its threshold
      && (mapped != null ==> MMAP_THRESHOLD <= mapped.Length <= maxLen)
      // what was moved so far fits into a mapping that can still grow
      && (mapped != null && mapped.Length < maxLen ==> copied <= mapped.Length)
    }

    function Contents(): (s: Text)
      requires Sound()
      reads this, mapped
      ensures |s| == len
    {
      if mapped == null then heap else mapped[..len]
    }

    constructor (maxLen: nat)
      requires maxLen <= USIZE_MAX
      ensures Valid() && Contents() == [] && this.maxLen == maxLen && mapped == null
    {
      this.heap, this.heapCapacity, this.mapped, this.len := [], 0, null, 0;
      this.maxLen, this.copied := maxLen, 0;
    }

    /** Chooses the initial storage; a hint above the limit is ignored. */
    constructor WithCapacityHint(expected: Option<nat>, maxLen: nat)
      requires maxLen <= USIZE_MAX
      ensures Valid() && Contents() == [] && this.maxLen == maxLen
      ensures mapped == null || fresh(mapped)
      ensures expected.Some? && expected.value <= maxLen ==> Capacity() >= expected.value
    {
      var capacity := if expected.Some? && expected.value <= maxLen then expected.value else 0;
      this.heap, this.heapCapacity, this.mapped, this.len := [], 0, null, 0;
      this.maxLen, this.copied := maxLen, 0;
      if capacity >= MMAP_THRESHOLD {
        this.mapped := new byte[capacity](_ => 0);
      } else {
        this.heapCapacity := capacity;
      }
    }

    /** Appends `bytes`, or changes nothing. The system may refuse memory only
        when the storage has to grow. */
    method ExtendFromSlice(bytes: Text) returns (r: Outcome)
      requires Valid()
      modifies this, mapped
      ensures Valid() && (mapped == old(mapped) || fresh(mapped))
      ensures r == TooLarge <==> old(len) + |bytes| > maxLen
      ensures Contents() == if r == Done then old(Contents()) + bytes else old(Contents())
      ensures r == AllocationFailed ==> old(len) + |bytes| > old(Capacity())
    {
      var next := len + |bytes|;
      if next > maxLen {
        return TooLarge;
      }
      var grown := EnsureCapacity(next);
      if !grown {
        return AllocationFailed;
      }
      if mapped == null {
        heap := heap + bytes;
      } else {
        ghost var before := mapped[..len];
        forall i | 0 <= i < |bytes| {
          mapped[len + i] := bytes[i];
        }
        assert mapped[..next] == before + bytes;
      }
      len := next;
      r := Done;
    }

    /** Room for `required` bytes. The content never changes; growing by less
        than the threshold always finds heap storage. */
    method EnsureCapacity(required: nat) returns (ok: bool)
      requires Valid() && len <= required <= maxLen
      modifies this`heapCapacity, this`mapped, this`copied
      ensures Sound() && Contents() == old(Contents()) && (mapped == old(mapped) || fresh(mapped))
      ensures ok ==> required <= Capacity() && copied <= 2 * required
      ensures !ok ==> Valid() && old(Capacity()) < required
    {
      var current := Capacity();
      if required <= current {
        return true;
      }
      if required < MMAP_THRESHOLD {
        assert mapped == null;
        ok := *;
        if ok {
          var capacity: nat :| required <= capacity <= USIZE_MAX;
          heapCapacity := capacity;
        }
        return;
      }
      var capacity := Min(Max(required, SaturatingDouble(current)), maxLen);
      ok := *;
      if !ok {
        return;
      }
      var replacement := new byte[capacity](_ => 0);
      if mapped == null {
        forall i | 0 <= i < len {
          replacement[i] := heap[i];
        }
      } else {
        forall i | 0 <= i < len {
          replacement[i] := mapped[i];
        }
      }
      assert replacement[..len] == Contents();
      copied := copied + len;
      mapped := replacement;
    }

    /** The finished bytes and what they keep allocated. */
    method Freeze() returns (bytes: Text, allocatedBytes: nat)
      requires Valid()
      ensures bytes == Contents()
      ensures allocatedBytes == if len == 0 then 0 else Capacity()
    {
      if len == 0 {
        return [], 0;
      }
      bytes := if mapped == null then heap else mapped[..len];
      allocatedBytes := Capacity();
    }
  }

  /** `with_capacity_hint`: null when the first allocation is refused. */
  method Allocate(expected: Option<nat>, maxLen: nat) returns (buffer: PayloadBuffer?)
    requires maxLen <= USIZE_MAX
    ensures buffer != null ==> fresh(buffer) && buffer.Valid() && buffer.Contents() == [] && buffer.maxLen == maxLen
    ensures buffer != null ==> buffer.mapped == null || fresh(buffer.mapped)
  {
    var granted: bool := *;
    buffer := null;
    if granted {
      buffer := new PayloadBuffer.WithCapacityHint(expected, maxLen);
    }
  }

  /** Concatenation of the chunks whose append was accepted. */
  function Accepted(chunks: seq<Text>, outcomes: seq<Outcome>): Text
    requires |chunks| == |outcomes|
  {
    if chunks == [] then []
    else
      var n := |chunks| - 1;
      Accepted(chunks[..n], outcomes[..n]) + if outcomes[n] == Done then chunks[n] else []
  }

  /** Any run of appends: the buffer holds the accepted chunks in order, and a
      chunk is refused as too large exactly when it would pass the limit. */
  method AppendAll(buffer: PayloadBuffer, chunks: seq<Text>) returns (outcomes: seq<Outcome>)
    requires buffer.Valid() && buffer.Contents() == []
    modifies buffer, buffer.mapped
    ensures |outcomes| == |chunks| && buffer.Valid()
    ensures buffer.Contents() == Accepted(chunks, outcomes)
    ensures forall i | 0 <= i < |chunks| ::
              outcomes[i] == TooLarge <==> |Accepted(chunks[..i], outcomes[..i])| + |chunks[i]| > buffer.maxLen
  {
    outcomes := [];
    for n := 0 to |chunks|
      invariant |outcomes| == n && buffer.Valid()
      invariant buffer.mapped == old(buffer.mapped) || fresh(buffer.mapped)
      invariant buffer.Contents() == Accepted(chunks[..n], outcomes)
      invariant forall i | 0 <= i < n ::
                  outcomes[i] == TooLarge <==> |Accepted(chunks[..i], outcomes[..i])| + |chunks[i]| > buffer.maxLen
    {
      var r := buffer.ExtendFromSlice(chunks[n]);
      ghost var before := outcomes;
      outcomes := outcomes + [r];
      assert outcomes[..n] == before && chunks[..n + 1][..n] == chunks[..n];
      assert forall i | 0 <= i < n :: outcomes[..i] == before[..i];
    }
    assert chunks[..|chunks|] == chunks;
  }
}
