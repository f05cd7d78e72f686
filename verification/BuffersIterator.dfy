/** The random-access iterator over the bytes of a buffer sequence, asio/buffers_iterator.hpp. */
module BuffersIterator {
  import opened Bytes
  import opened Buffers

  /** A place in a buffer sequence: byte `offset` of buffer `index`. */
  datatype Place = Place(index: nat, offset: nat)

  /** The number of bytes before a place. */
  function PositionOf(bs: seq<Buffer>, p: Place): nat
    requires p.index <= |bs|
  {
    |Flat(bs[..p.index])| + p.offset
  }

  /** The place of a byte that exists, or the end.  Places in empty buffers are neither. */
  ghost predicate Canonical(bs: seq<Buffer>, p: Place) {
    && p.index <= |bs|
    && if p.index < |bs| then p.offset < bs[p.index].size else p.offset == 0
  }

  /** The place of the byte at a position. */
  function Locate(bs: seq<Buffer>, position: nat): (p: Place)
    requires position <= |Flat(bs)|
  {
    if bs == [] then Place(0, 0)
    else if position < bs[0].size then Place(0, position)
    else
      var p := Locate(bs[1..], position - bs[0].size);
      Place(p.index + 1, p.offset)
  }

  lemma {:induction false} LocateCanonical(bs: seq<Buffer>, position: nat)
    requires position <= |Flat(bs)|
    ensures Canonical(bs, Locate(bs, position)) && PositionOf(bs, Locate(bs, position)) == position
  {
    if bs != [] && position >= bs[0].size {
      var p := Locate(bs[1..], position - bs[0].size);
      LocateCanonical(bs[1..], position - bs[0].size);
      assert bs[..p.index + 1][1..] == bs[1..][..p.index];
    }
  }

  /** A position has one canonical place, however many empty buffers lie around it. */
  lemma {:induction false} CanonicalUnique(bs: seq<Buffer>, p: Place)
    requires Canonical(bs, p)
    ensures PositionOf(bs, p) <= |Flat(bs)|
    ensures p == Locate(bs, PositionOf(bs, p))
  {
    if bs != [] && p.index > 0 {
      var q := Place(p.index - 1, p.offset);
      assert bs[..p.index][1..] == bs[1..][..q.index];
      CanonicalUnique(bs[1..], q);
    }
  }

  /** What a canonical place shows is the byte of the flat sequence at its position. */
  lemma CanonicalByte(bs: seq<Buffer>, p: Place)
    requires Canonical(bs, p) && p.index < |bs|
    ensures PositionOf(bs, p) < |Flat(bs)|
    ensures Flat(bs)[PositionOf(bs, p)] == bs[p.index].data + p.offset
  {
    FlatAt(bs, p.index, p.offset);
    var left := bs[p.index].Plus(p.offset);
    assert Flat(bs)[PositionOf(bs, p)] == left.Addresses()[0];
  }

  // ----- Moving by a distance -----

  /** Where an iterator at `p` is after moving by `n`. */
  function Moved(bs: seq<Buffer>, p: Place, n: int): Place
    requires p.index <= |bs| && 0 <= PositionOf(bs, p) + n <= |Flat(bs)|
  {
    Locate(bs, PositionOf(bs, p) + n)
  }

  lemma MovesCompose(bs: seq<Buffer>, p: Place, m: int, n: int)
    requires Canonical(bs, p)
    requires 0 <= PositionOf(bs, p) + m <= |Flat(bs)| && 0 <= PositionOf(bs, p) + m + n <= |Flat(bs)|
    ensures Canonical(bs, Moved(bs, p, m)) && PositionOf(bs, Moved(bs, p, m)) == PositionOf(bs, p) + m
    ensures Moved(bs, Moved(bs, p, m), n) == Moved(bs, p, m + n)
  {
    LocateCanonical(bs, PositionOf(bs, p) + m);
  }

  lemma MoveUndone(bs: seq<Buffer>, p: Place, n: int)
    requires Canonical(bs, p) && 0 <= PositionOf(bs, p) + n <= |Flat(bs)|
    ensures Canonical(bs, Moved(bs, p, n)) && PositionOf(bs, Moved(bs, p, n)) == PositionOf(bs, p) + n
    ensures PositionOf(bs, p) <= |Flat(bs)| && Moved(bs, Moved(bs, p, n), -n) == p
  {
    LocateCanonical(bs, PositionOf(bs, p) + n);
    CanonicalUnique(bs, p);
  }

  /** Single increments for a positive distance, single decrements for a negative one. */
  function Steps(bs: seq<Buffer>, p: Place, n: int): Place
    requires Canonical(bs, p) && 0 <= PositionOf(bs, p) + n <= |Flat(bs)|
    decreases if n < 0 then 0 - n else n
  {
    if n == 0 then p
    else
      var step := if n > 0 then 1 else -1;
      CanonicalUnique(bs, p);
      MovesCompose(bs, p, step, n - step);
      Steps(bs, Moved(bs, p, step), n - step)
  }

  /** Moving by a distance, of either sign, is moving by that many single steps. */
  lemma {:induction false} MoveIsSteps(bs: seq<Buffer>, p: Place, n: int)
    requires Canonical(bs, p) && 0 <= PositionOf(bs, p) + n <= |Flat(bs)|
    ensures Moved(bs, p, n) == Steps(bs, p, n)
    decreases if n < 0 then 0 - n else n
  {
    CanonicalUnique(bs, p);
    if n != 0 {
      var step := if n > 0 then 1 else -1;
      MovesCompose(bs, p, step, n - step);
      MoveIsSteps(bs, Moved(bs, p, step), n - step);
    }
  }

  lemma BeginToEnd(bs: seq<Buffer>)
    ensures Canonical(bs, Locate(bs, 0)) && PositionOf(bs, Locate(bs, 0)) == 0
    ensures Moved(bs, Locate(bs, 0), |Flat(bs)|) == Place(|bs|, 0)
  {
    LocateCanonical(bs, 0);
    assert bs[..|bs|] == bs;
    CanonicalUnique(bs, Place(|bs|, 0));
  }

  // ----- The iterator -----

  class Iterator {
    const buffers: seq<Buffer>
    var currentBuffer: Buffer
    var currentBufferPosition: nat
    var current: nat
    var position: nat

    ghost function Here(): Place
      reads this
    {
      Place(current, currentBufferPosition)
    }

    /** The current buffer is not read at the end, where begin, end and the moves leave different ones. */
    ghost predicate Valid()
      reads this
    {
      && Canonical(buffers, Here())
      && position == PositionOf(buffers, Here())
      && (current < |buffers| ==> currentBuffer == buffers[current])
    }

    constructor Begin(buffers: seq<Buffer>)
      ensures this.buffers == buffers && Valid() && position == 0 && Here() == Locate(buffers, 0)
    {
      this.buffers := buffers;
      currentBuffer := Buffer(0, 0);
      currentBufferPosition, current, position := 0, 0, 0;
      new;
      FindNonEmpty();
      CanonicalUnique(buffers, Here());
    }

    /** The loop of begin and increment: stops at a buffer that is not empty, or at the end. */
    method FindNonEmpty()
      requires current <= |buffers| && currentBufferPosition == 0 && position == |Flat(buffers[..current])|
      modifies `current, `currentBuffer
      ensures Valid()
    {
      while current != |buffers|
        invariant current <= |buffers| && position == |Flat(buffers[..current])|
      {
        currentBuffer := buffers[current];
        if currentBuffer.size > 0 {
          return;
        }
        FlatAt(buffers, current, 0);
        current := current + 1;
      }
    }

    constructor End(buffers: seq<Buffer>)
      ensures this.buffers == buffers && Valid() && position == |Flat(buffers)|
      ensures Here() == Locate(buffers, |Flat(buffers)|)
    {
      this.buffers := buffers;
      currentBuffer := Buffer(0, 0);
      currentBufferPosition, current, position := 0, 0, 0;
      new;
      while current != |buffers|
        invariant current <= |buffers| && currentBufferPosition == 0
        invariant position == |Flat(buffers[..current])|
      {
        var buffer := buffers[current];
        FlatAt(buffers, current, 0);
        position := position + buffer.size;
        current := current + 1;
      }
      assert buffers[..|buffers|] == buffers;
      CanonicalUnique(buffers, Here());
    }

    method Dereference(mem: array<Byte>) returns (b: Byte)
      requires Valid() && current != |buffers| && InMemory(buffers, mem.Length)
      ensures position < |Flat(buffers)| && Flat(buffers)[position] < mem.Length
      ensures b == mem[Flat(buffers)[position]]
    {
      CanonicalByte(buffers, Here());
      b := mem[currentBuffer.data + currentBufferPosition];
    }

    method Increment()
      requires Valid() && current != |buffers|
      modifies this
      ensures old(position) + 1 <= |Flat(buffers)|
      ensures Valid() && position == old(position) + 1
      ensures Here() == Moved(buffers, old(Here()), 1)
    {
      CanonicalByte(buffers, Here());
      FlatAt(buffers, current, 0);
      position := position + 1;
      currentBufferPosition := currentBufferPosition + 1;
      if currentBufferPosition != currentBuffer.size {
        CanonicalUnique(buffers, Here());
        return;
      }
      current := current + 1;
      currentBufferPosition := 0;
      FindNonEmpty();
      CanonicalUnique(buffers, Here());
    }

    method Decrement()
      requires Valid() && position > 0
      modifies this
      ensures old(position) <= |Flat(buffers)|
      ensures Valid() && position == old(position) - 1
      ensures Here() == Moved(buffers, old(Here()), -1)
    {
      ghost var start := Here();
      CanonicalUnique(buffers, start);
      position := position - 1;
      if currentBufferPosition != 0 {
        currentBufferPosition := currentBufferPosition - 1;
        CanonicalUnique(buffers, Here());
        return;
      }
      var iter: nat := current;
      while iter != 0
        invariant position == old(position) - 1 && start == old(Here())
        invariant 0 <= iter <= current == old(current) && currentBufferPosition == 0
        invariant position + 1 == |Flat(buffers[..iter])| == PositionOf(buffers, start)
      {
        iter := iter - 1;
        FlatAt(buffers, iter, 0);
        var buffer := buffers[iter];
        if buffer.size > 0 {
          current := iter;
          currentBuffer := buffer;
          currentBufferPosition := buffer.size - 1;
          assert position == PositionOf(buffers, Here());
          CanonicalUnique(buffers, Here());
          return;
        }
      }
      assert false;
    }

    /** Requires the distance to stay within the sequence, as the assertions of the source do. */
    method Advance(n: int)
      requires Valid() && 0 <= position + n <= |Flat(buffers)|
      modifies this
      ensures Valid() && position == old(position) + n
      ensures Here() == Moved(buffers, old(Here()), n)
    {
      if n > 0 {
        AdvanceForward(n);
      } else if n < 0 {
        AdvanceBack(-n);
      } else {
        CanonicalUnique(buffers, Here());
      }
    }

    /** The loop of advance for a positive distance. */
    method AdvanceForward(distance: nat)
      requires Valid() && distance > 0 && position + distance <= |Flat(buffers)|
      modifies this
      ensures Valid() && position == old(position) + distance
      ensures Here() == Moved(buffers, old(Here()), distance)
    {
      var n: int := distance;
      NotAtEnd(buffers, Here());
      while true
        invariant current < |buffers| && currentBuffer == buffers[current] && n >= 0
        invariant currentBufferPosition <= currentBuffer.size
        invariant position == PositionOf(buffers, Here())
        invariant position + n == old(position) + distance
        decreases |buffers| - current
      {
        var currentBufferBalance := currentBuffer.size - currentBufferPosition;
        FlatAt(buffers, current, currentBufferPosition);
        if currentBufferBalance > n {
          position := position + n;
          currentBufferPosition := currentBufferPosition + n;
          CanonicalUnique(buffers, Here());
          return;
        }
        n := n - currentBufferBalance;
        position := position + currentBufferBalance;
        current := current + 1;
        if current == |buffers| {
          assert buffers[..current] == buffers;
          assert n == 0;
          currentBuffer := Buffer(0, 0);
          currentBufferPosition := 0;
          CanonicalUnique(buffers, Here());
          return;
        }
        currentBuffer := buffers[current];
        currentBufferPosition := 0;
      }
    }

    /** The loop of advance for a negative distance. */
    method AdvanceBack(distance: nat)
      requires Valid() && 0 < distance <= position
      modifies this
      ensures old(position) <= |Flat(buffers)|
      ensures Valid() && position == old(position) - distance
      ensures Here() == Moved(buffers, old(Here()), 0 - distance)
    {
      var absN: int := distance;
      CanonicalUnique(buffers, Here());
      while true
        invariant current <= |buffers| && absN > 0
        invariant current < |buffers| ==> currentBuffer == buffers[current]
        invariant current < |buffers| ==> currentBufferPosition <= currentBuffer.size
        invariant current == |buffers| ==> currentBufferPosition == 0
        invariant position == PositionOf(buffers, Here()) && absN <= position
        invariant position - absN == old(position) - distance
        decreases current
      {
        if currentBufferPosition >= absN {
          position := position - absN;
          currentBufferPosition := currentBufferPosition - absN;
          CanonicalUnique(buffers, Here());
          return;
        }
        absN := absN - currentBufferPosition;
        position := position - currentBufferPosition;
        assert current != 0;
        FindPrevious();
      }
    }

    /** Finds the previous non-empty buffer and goes past its last byte. */
    method FindPrevious()
      requires 0 < current <= |buffers|
      requires 0 < position == |Flat(buffers[..current])|
      modifies `current, `currentBuffer, `currentBufferPosition
      ensures current < old(current) && currentBuffer == buffers[current]
      ensures currentBufferPosition == currentBuffer.size > 0
      ensures position == PositionOf(buffers, Here())
    {
      var iter: nat := current;
      while iter != 0
        invariant 0 <= iter <= current == old(current)
        invariant position == |Flat(buffers[..iter])|
      {
        iter := iter - 1;
        FlatAt(buffers, iter, 0);
        var buffer := buffers[iter];
        if buffer.size > 0 {
          current := iter;
          currentBuffer := buffer;
          currentBufferPosition := buffer.size;
          return;
        }
      }
      assert false;
    }
  }

  lemma NotAtEnd(bs: seq<Buffer>, p: Place)
    requires Canonical(bs, p) && PositionOf(bs, p) < |Flat(bs)|
    ensures p.index < |bs|
  {
    assert bs[..|bs|] == bs;
  }
}

/** Reading a buffer sequence byte by byte, and copying it into one buffer. */
module Linearise {
  import opened Bytes
  import opened Buffers
  import opened BufferCopy
  import opened BuffersIterator

  /** The range from buffers_begin to buffers_end; iterators are equal when their positions are. */
  method ReadAll(mem: array<Byte>, bs: seq<Buffer>) returns (s: seq<Byte>)
    requires InMemory(bs, mem.Length)
    ensures s == Contents(mem[..], bs)
  {
    var it := new Iterator.Begin(bs);
    var end := new Iterator.End(bs);
    FlatBounds(bs, mem.Length);
    hide Contents, Flat, InMemory;
    ghost var contents := Contents(mem[..], bs);
    s := [];
    while it.position != end.position
      invariant fresh(it) && it.buffers == bs && it.Valid()
      invariant it.position <= end.position == |Flat(bs)|
      invariant contents == Contents(mem[..], bs) && s == contents[..it.position]
      decreases |Flat(bs)| - it.position
    {
      NotAtEnd(bs, it.Here());
      var b := it.Dereference(mem);
      assert b == contents[it.position];
      s := s + [b];
      it.Increment();
    }
  }

  /**
    After buffer_copy into a single buffer of buffer_size bytes, that buffer
    shows what an iterator reads from the sequence.
    */
  method LineariseAndRead(mem: array<Byte>, target: Buffer, sources: seq<Buffer>) returns (n: nat, s: seq<Byte>)
    requires InMemory([target], mem.Length) && InMemory(sources, mem.Length)
    requires Separate(Flat([target]), Flat(sources))
    requires target.size == |Flat(sources)|
    modifies mem
    ensures n == target.size
    ensures s == Contents(mem[..], [target]) == old(Contents(mem[..], sources))
  {
    FlatOne(target);
    n := CopyOneMany(mem, target, sources, target.size);
    CopiedContents(old(mem[..]), mem[..], [target], sources);
    s := ReadAll(mem, sources);
  }

  lemma CopiedContents(before: seq<Byte>, after: seq<Byte>, targets: seq<Buffer>, sources: seq<Buffer>)
    requires InMemory(targets, |before|) && InMemory(sources, |before|)
    requires Separate(Flat(targets), Flat(sources)) && |Flat(targets)| == |Flat(sources)|
    requires Copied(before, after, Flat(targets), Flat(sources), |Flat(targets)|)
    ensures Contents(after, targets) == Contents(before, sources) == Contents(after, sources)
  {
    var ta, sa := Flat(targets), Flat(sources);
    forall i | 0 <= i < |sa| ensures after[sa[i]] == before[sa[i]] {
      assert sa[i] !in ta[..|ta|];
    }
  }
}
