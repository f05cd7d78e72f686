/** Buffers of asio/buffer.hpp: an address range each, in one memory, and the sequences of them. */
module Buffers {
  import opened Bytes

  /** mutable_buffer or const_buffer */
  datatype Buffer = Buffer(data: nat, size: nat) {
    /** operator+ and operator+= */
    function Plus(n: nat): Buffer {
      var offset := if n < size then n else size;
      Buffer(data + offset, size - offset)
    }

    /** asio::buffer(b, max_size_in_bytes) */
    function Limited(max: nat): Buffer {
      Buffer(data, if size < max then size else max)
    }

    /** The addresses of the buffer's bytes, in order. */
    function Addresses(): (a: seq<nat>)
      ensures |a| == size
      ensures forall i :: 0 <= i < size ==> a[i] == data + i
    {
      seq(size, i => data + i)
    }
  }

  /** Offsetting drops bytes at the front, limiting at the back, and neither more than there are. */
  lemma PlusAndLimited(b: Buffer, n: nat)
    ensures b.Plus(n).Addresses() == if n <= b.size then b.Addresses()[n..] else []
    ensures b.Limited(n).Addresses() == if n <= b.size then b.Addresses()[..n] else b.Addresses()
  {
  }

  function Min(a: nat, b: nat): nat {
    if a < b then a else b
  }

  /** The addresses of all bytes of a buffer sequence, in order. */
  function Flat(bs: seq<Buffer>): seq<nat> {
    if bs == [] then [] else bs[0].Addresses() + Flat(bs[1..])
  }

  ghost predicate InMemory(bs: seq<Buffer>, size: nat) {
    forall i :: 0 <= i < |bs| && bs[i].size > 0 ==> bs[i].data + bs[i].size <= size
  }

  lemma {:induction false} FlatConcat(a: seq<Buffer>, b: seq<Buffer>)
    ensures Flat(a + b) == Flat(a) + Flat(b)
  {
    if a == [] {
      assert a + b == b;
    } else {
      assert (a + b)[1..] == a[1..] + b;
      FlatConcat(a[1..], b);
    }
  }

  lemma FlatOne(b: Buffer)
    ensures Flat([b]) == b.Addresses()
  {
    assert [b][1..] == [];
  }

  /** What is left of buffer `i` after its first `offset` bytes is a stretch of the whole sequence. */
  lemma FlatAt(bs: seq<Buffer>, i: nat, offset: nat)
    requires i < |bs| && offset <= bs[i].size
    ensures |Flat(bs[..i + 1])| == |Flat(bs[..i])| + bs[i].size <= |Flat(bs)|
    ensures var p := |Flat(bs[..i])| + offset;
            Flat(bs)[p..|Flat(bs[..i + 1])|] == bs[i].Plus(offset).Addresses()
  {
    assert bs == bs[..i] + ([bs[i]] + bs[i + 1..]);
    assert bs[..i + 1] == bs[..i] + [bs[i]];
    FlatConcat(bs[..i], [bs[i]] + bs[i + 1..]);
    FlatConcat([bs[i]], bs[i + 1..]);
    FlatConcat(bs[..i], [bs[i]]);
    FlatOne(bs[i]);
  }

  /** A sequence lies in memory exactly when all its bytes do; an empty buffer may point anywhere. */
  lemma {:induction false} FlatBounds(bs: seq<Buffer>, size: nat)
    ensures InMemory(bs, size) ==> forall i :: 0 <= i < |Flat(bs)| ==> Flat(bs)[i] < size
    ensures (forall i :: 0 <= i < |Flat(bs)| ==> Flat(bs)[i] < size) ==> InMemory(bs, size)
  {
    if bs != [] {
      FlatBounds(bs[1..], size);
      var b, flat := bs[0], Flat(bs);
      if forall i :: 0 <= i < |flat| ==> flat[i] < size {
        assert b.size > 0 ==> flat[b.size - 1] == b.data + b.size - 1;
        forall i | 0 <= i < |Flat(bs[1..])| ensures Flat(bs[1..])[i] < size {
          assert Flat(bs[1..])[i] == flat[b.size + i];
        }
        assert InMemory(bs[1..], size);
        forall i | 0 < i < |bs| && bs[i].size > 0 ensures bs[i].data + bs[i].size <= size {
          assert bs[i] == bs[1..][i - 1];
        }
      }
    }
  }

  /** buffer_size */
  method BufferSize(bs: seq<Buffer>) returns (total: nat)
    ensures total == |Flat(bs)|
  {
    total := 0;
    var iter := 0;
    while iter != |bs|
      invariant 0 <= iter <= |bs|
      invariant total == |Flat(bs[..iter])|
    {
      FlatAt(bs, iter, 0);
      total := total + bs[iter].size;
      iter := iter + 1;
    }
    assert bs[..iter] == bs;
  }

  /** The bytes that a buffer sequence shows. */
  function Contents(mem: seq<Byte>, bs: seq<Buffer>): (c: seq<Byte>)
    requires InMemory(bs, |mem|)
    ensures |c| == |Flat(bs)|
    ensures forall i :: 0 <= i < |c| ==> Flat(bs)[i] < |mem| && c[i] == mem[Flat(bs)[i]]
  {
    FlatBounds(bs, |mem|);
    seq(|Flat(bs)|, i requires 0 <= i < |Flat(bs)| => mem[Flat(bs)[i]])
  }
}
