/** The overloads of buffer_copy in asio/buffer.hpp. */
module BufferCopy {
  import opened Bytes
  import opened Buffers

  /** Target bytes are all different, and none is a source byte: memcpy must not see overlapping regions. */
  ghost predicate Separate(target: seq<nat>, source: seq<nat>) {
    && (forall i, j :: 0 <= i < j < |target| ==> target[i] != target[j])
    && (forall i, j :: 0 <= i < |target| && 0 <= j < |source| ==> target[i] != source[j])
  }

  ghost predicate Below(addresses: seq<nat>, size: nat) {
    forall i :: 0 <= i < |addresses| ==> addresses[i] < size
  }

  /** The first `n` source bytes have been written to the target addresses, and nothing else changed. */
  ghost predicate Copied(before: seq<Byte>, after: seq<Byte>, target: seq<nat>, source: seq<nat>, n: nat)
  {
    && Below(target, |before|) && Below(source, |before|)
    && |after| == |before| && n <= |target| && n <= |source|
    && (forall i :: 0 <= i < n ==> after[target[i]] == before[source[i]])
    && (forall a :: 0 <= a < |before| && a !in target[..n] ==> after[a] == before[a])
  }

  /** What memcpy of `k` bytes does to the memory. */
  ghost predicate MemCopied(before: seq<Byte>, after: seq<Byte>, target: nat, source: nat, k: nat)
    requires target + k <= |before| && source + k <= |before|
  {
    && |after| == |before|
    && (forall a :: target <= a < target + k ==> after[a] == before[source + (a - target)])
    && (forall a :: 0 <= a < |before| && !(target <= a < target + k) ==> after[a] == before[a])
  }

  /** buffer_copy_1 */
  method BufferCopy1(mem: array<Byte>, target: Buffer, source: Buffer) returns (n: nat)
    requires target.size > 0 ==> target.data + target.size <= mem.Length
    requires source.size > 0 ==> source.data + source.size <= mem.Length
    requires Separate(target.Addresses(), source.Addresses())
    modifies mem
    ensures n == Min(target.size, source.size)
    ensures n == 0 ==> mem[..] == old(mem[..])
    ensures n > 0 ==> MemCopied(old(mem[..]), mem[..], target.data, source.data, n)
  {
    n := if target.size < source.size then target.size else source.size;
    if n > 0 {
      forall i | 0 <= i < n {
        mem[target.data + i] := mem[source.data + i];
      }
    }
  }

  /** The next bytes of both sequences are those of `tb` and `sb`; copying between them extends what was copied. */
  lemma CopiedMore(m0: seq<Byte>, m1: seq<Byte>, m2: seq<Byte>, target: seq<nat>, source: seq<nat>, n: nat,
                   tb: Buffer, sb: Buffer, k: nat)
    requires Separate(target, source)
    requires k <= tb.size && k <= sb.size
    requires n + tb.size <= |target| && target[n..n + tb.size] == tb.Addresses()
    requires n + sb.size <= |source| && source[n..n + sb.size] == sb.Addresses()
    requires Copied(m0, m1, target, source, n)
    requires tb.data + k <= |m1| && sb.data + k <= |m1| && MemCopied(m1, m2, tb.data, sb.data, k)
    ensures Copied(m0, m2, target, source, n + k)
  {
    InStretch(target, n, tb, n + k);
    InStretch(source, n, sb, n + k);
    assert target[..n + k] == target[..n] + target[n..n + k];
    forall i | 0 <= i < n + k ensures m2[target[i]] == m0[source[i]] {
      if i < n {
        assert target[i] !in target[n..n + k];
        assert m2[target[i]] == m1[target[i]];
      } else {
        assert source[i] !in target[..n];
        assert m2[target[i]] == m1[source[i]] == m0[source[i]];
      }
    }
  }

  /** The addresses of a stretch that a buffer covers. */
  lemma InStretch(addresses: seq<nat>, n: nat, b: Buffer, m: nat)
    requires n <= m <= n + b.size <= |addresses| && addresses[n..n + b.size] == b.Addresses()
    ensures forall i :: n <= i < m ==> addresses[i] == b.data + (i - n)
    ensures forall a: nat :: a in addresses[n..m] <==> b.data <= a < b.data + (m - n)
  {
    assert forall i :: n <= i < m ==> addresses[i] == addresses[n..n + b.size][i - n];
    assert addresses[n..m] == b.Addresses()[..m - n];
    forall a: nat | b.data <= a < b.data + (m - n) ensures a in addresses[n..m] {
      assert addresses[n..m][a - b.data] == a;
    }
  }

  /** Stretches of separate sequences are separate. */
  lemma SeparateParts(target: seq<nat>, source: seq<nat>, i: nat, i': nat, j: nat, j': nat)
    requires Separate(target, source) && i <= i' <= |target| && j <= j' <= |source|
    ensures Separate(target[i..i'], source[j..j'])
  {
  }

  // ----- Cursors -----

  /** A cursor into a buffer sequence: `offset` bytes into buffer `iter`, `total` bytes from the start. */
  ghost predicate At(bs: seq<Buffer>, iter: nat, offset: nat, total: nat)
    ensures At(bs, iter, offset, total) ==> iter <= |bs|
  {
    && iter <= |bs| && total == |Flat(bs[..iter])| + offset
    && if iter < |bs| then offset <= bs[iter].size else offset == 0
  }

  lemma AtEnd(bs: seq<Buffer>, iter: nat, offset: nat, total: nat)
    requires At(bs, iter, offset, total)
    ensures total <= |Flat(bs)|
    ensures iter == |bs| ==> total == |Flat(bs)|
  {
    if iter < |bs| {
      FlatAt(bs, iter, offset);
    }
    assert bs[..|bs|] == bs;
  }

  /** `b` shows bytes from the cursor on, all within the cursor's buffer. */
  ghost predicate Shows(b: Buffer, bs: seq<Buffer>, iter: nat, offset: nat) {
    iter < |bs| && b.data == bs[iter].Plus(offset).data && b.size <= bs[iter].Plus(offset).size
  }

  /** Those bytes are the next of the sequence. */
  lemma ShownStretch(b: Buffer, bs: seq<Buffer>, iter: nat, offset: nat, total: nat)
    requires At(bs, iter, offset, total) && Shows(b, bs, iter, offset)
    ensures total + b.size <= |Flat(bs)| && Flat(bs)[total..total + b.size] == b.Addresses()
  {
    var rest := bs[iter].Plus(offset);
    FlatAt(bs, iter, offset);
    assert rest.Addresses()[..b.size] == b.Addresses();
    assert Flat(bs)[total..total + b.size] == Flat(bs)[total..total + rest.size][..b.size];
  }

  /** Where the cursor goes when `k` bytes are done. */
  lemma AtMore(bs: seq<Buffer>, iter: nat, offset: nat, total: nat, k: nat)
    requires At(bs, iter, offset, total) && iter < |bs| && k <= bs[iter].Plus(offset).size
    ensures k == bs[iter].Plus(offset).size ==> At(bs, iter + 1, 0, total + k)
    ensures At(bs, iter, offset + k, total + k)
  {
    FlatAt(bs, iter, offset);
  }

  /** buffer_copy_1 between the bytes at two cursors. */
  method CopyAt(mem: array<Byte>, tb: Buffer, sb: Buffer, ghost m0: seq<Byte>,
                ghost targets: seq<Buffer>, ghost ti: nat, ghost to: nat,
                ghost sources: seq<Buffer>, ghost si: nat, ghost so: nat, ghost total: nat) returns (k: nat)
    requires Separate(Flat(targets), Flat(sources))
    requires Copied(m0, mem[..], Flat(targets), Flat(sources), total)
    requires At(targets, ti, to, total) && Shows(tb, targets, ti, to)
    requires At(sources, si, so, total) && Shows(sb, sources, si, so)
    modifies mem
    ensures k == Min(tb.size, sb.size)
    ensures Copied(m0, mem[..], Flat(targets), Flat(sources), total + k)
    ensures k == targets[ti].Plus(to).size ==> At(targets, ti + 1, 0, total + k)
    ensures At(targets, ti, to + k, total + k)
    ensures k == sources[si].Plus(so).size ==> At(sources, si + 1, 0, total + k)
    ensures At(sources, si, so + k, total + k)
  {
    ghost var before, ta, sa := mem[..], Flat(targets), Flat(sources);
    ShownStretch(tb, targets, ti, to, total);
    ShownStretch(sb, sources, si, so, total);
    AtMore(targets, ti, to, total, Min(tb.size, sb.size));
    AtMore(sources, si, so, total, Min(tb.size, sb.size));
    SeparateParts(ta, sa, total, total + tb.size, total, total + sb.size);
    InBounds(ta, total, tb, mem.Length);
    InBounds(sa, total, sb, mem.Length);
    hide Flat, At, Shows;
    k := BufferCopy1(mem, tb, sb);
    if k > 0 {
      CopiedMore(m0, before, mem[..], ta, sa, total, tb, sb, k);
    }
  }

  lemma InBounds(addresses: seq<nat>, n: nat, b: Buffer, size: nat)
    requires Below(addresses, size) && n + b.size <= |addresses| && addresses[n..n + b.size] == b.Addresses()
    ensures b.size > 0 ==> b.data + b.size <= size
  {
    if b.size > 0 {
      assert addresses[n + b.size - 1] == b.Addresses()[b.size - 1];
    }
  }

  lemma StartCopy(m: seq<Byte>, targets: seq<Buffer>, sources: seq<Buffer>)
    requires InMemory(targets, |m|) && InMemory(sources, |m|)
    ensures Copied(m, m, Flat(targets), Flat(sources), 0)
    ensures At(targets, 0, 0, 0) && At(sources, 0, 0, 0)
  {
    FlatBounds(targets, |m|);
    FlatBounds(sources, |m|);
  }

  // ----- The overloads -----

  /** one_buffer, one_buffer */
  method CopyOneOne(mem: array<Byte>, target: Buffer, source: Buffer, max: nat) returns (total: nat)
    requires InMemory([target], mem.Length) && InMemory([source], mem.Length)
    requires Separate(Flat([target]), Flat([source]))
    modifies mem
    ensures total == Min(max, Min(|Flat([target])|, |Flat([source])|))
    ensures Copied(old(mem[..]), mem[..], Flat([target]), Flat([source]), total)
  {
    ghost var m0 := mem[..];
    StartCopy(m0, [target], [source]);
    hide Flat, Separate, Copied, At;
    total := CopyAt(mem, target, source.Limited(max), m0, [target], 0, 0, [source], 0, 0, 0);
    FlatOne(target);
    FlatOne(source);
  }

  /** one_buffer, multiple_buffers */
  method CopyOneMany(mem: array<Byte>, target: Buffer, sources: seq<Buffer>, max: nat) returns (total: nat)
    requires InMemory([target], mem.Length) && InMemory(sources, mem.Length)
    requires Separate(Flat([target]), Flat(sources))
    modifies mem
    ensures total == Min(max, Min(|Flat([target])|, |Flat(sources)|))
    ensures Copied(old(mem[..]), mem[..], Flat([target]), Flat(sources), total)
  {
    ghost var m0 := mem[..];
    StartCopy(m0, [target], sources);
    hide Flat, Separate, Copied, At;
    total := 0;
    var sourceIter := 0;
    var targetBuffer := target.Limited(max);
    ghost var limit := targetBuffer.size;
    while targetBuffer.size != 0 && sourceIter != |sources|
      invariant targetBuffer == target.Limited(max).Plus(total) && total <= limit && sourceIter <= |sources|
      invariant At([target], 0, total, total)
      invariant targetBuffer.size != 0 ==> At(sources, sourceIter, 0, total)
      invariant total <= |Flat(sources)|
      invariant Copied(m0, mem[..], Flat([target]), Flat(sources), total)
    {
      var sourceBuffer := sources[sourceIter];
      var bytesCopied := CopyAt(mem, targetBuffer, sourceBuffer, m0, [target], 0, total, sources, sourceIter, 0, total);
      AtEnd(sources, sourceIter, bytesCopied, total + bytesCopied);
      total := total + bytesCopied;
      targetBuffer := targetBuffer.Plus(bytesCopied);
      sourceIter := sourceIter + 1;
    }
    FlatOne(target);
    if targetBuffer.size != 0 {
      AtEnd(sources, sourceIter, 0, total);
    }
  }

  /** multiple_buffers, one_buffer */
  method CopyManyOne(mem: array<Byte>, targets: seq<Buffer>, source: Buffer, max: nat) returns (total: nat)
    requires InMemory(targets, mem.Length) && InMemory([source], mem.Length)
    requires Separate(Flat(targets), Flat([source]))
    modifies mem
    ensures total == Min(max, Min(|Flat(targets)|, |Flat([source])|))
    ensures Copied(old(mem[..]), mem[..], Flat(targets), Flat([source]), total)
  {
    ghost var m0 := mem[..];
    StartCopy(m0, targets, [source]);
    hide Flat, Separate, Copied, At;
    total := 0;
    var targetIter := 0;
    var sourceBuffer := source.Limited(max);
    ghost var limit := sourceBuffer.size;
    while sourceBuffer.size != 0 && targetIter != |targets|
      invariant sourceBuffer == source.Limited(max).Plus(total) && total <= limit && targetIter <= |targets|
      invariant At([source], 0, total, total)
      invariant sourceBuffer.size != 0 ==> At(targets, targetIter, 0, total)
      invariant total <= |Flat(targets)|
      invariant Copied(m0, mem[..], Flat(targets), Flat([source]), total)
    {
      var targetBuffer := targets[targetIter];
      var bytesCopied := CopyAt(mem, targetBuffer, sourceBuffer, m0, targets, targetIter, 0, [source], 0, total, total);
      AtEnd(targets, targetIter, bytesCopied, total + bytesCopied);
      total := total + bytesCopied;
      sourceBuffer := sourceBuffer.Plus(bytesCopied);
      targetIter := targetIter + 1;
    }
    FlatOne(source);
    if sourceBuffer.size != 0 {
      AtEnd(targets, targetIter, 0, total);
    }
  }

  /** multiple_buffers, multiple_buffers */
  method CopyManyMany(mem: array<Byte>, targets: seq<Buffer>, sources: seq<Buffer>) returns (total: nat)
    requires InMemory(targets, mem.Length) && InMemory(sources, mem.Length)
    requires Separate(Flat(targets), Flat(sources))
    modifies mem
    ensures total == Min(|Flat(targets)|, |Flat(sources)|)
    ensures Copied(old(mem[..]), mem[..], Flat(targets), Flat(sources), total)
  {
    ghost var m0 := mem[..];
    StartCopy(m0, targets, sources);
    hide Flat, Separate, Copied, At;
    total := 0;
    var targetIter, targetBufferOffset := 0, 0;
    var sourceIter, sourceBufferOffset := 0, 0;
    while targetIter != |targets| && sourceIter != |sources|
      invariant At(targets, targetIter, targetBufferOffset, total)
      invariant At(sources, sourceIter, sourceBufferOffset, total)
      invariant Copied(m0, mem[..], Flat(targets), Flat(sources), total)
      decreases |targets| - targetIter + |sources| - sourceIter
    {
      var targetBuffer := targets[targetIter].Plus(targetBufferOffset);
      var sourceBuffer := sources[sourceIter].Plus(sourceBufferOffset);
      var bytesCopied := CopyAt(mem, targetBuffer, sourceBuffer, m0, targets, targetIter, targetBufferOffset,
                                sources, sourceIter, sourceBufferOffset, total);
      total := total + bytesCopied;
      if bytesCopied == targetBuffer.size {
        targetIter, targetBufferOffset := targetIter + 1, 0;
      } else {
        targetBufferOffset := targetBufferOffset + bytesCopied;
      }
      if bytesCopied == sourceBuffer.size {
        sourceIter, sourceBufferOffset := sourceIter + 1, 0;
      } else {
        sourceBufferOffset := sourceBufferOffset + bytesCopied;
      }
    }
    AtEnd(targets, targetIter, targetBufferOffset, total);
    AtEnd(sources, sourceIter, sourceBufferOffset, total);
  }

  /** multiple_buffers, multiple_buffers, with a limit */
  method CopyManyManyLimited(mem: array<Byte>, targets: seq<Buffer>, sources: seq<Buffer>, max: nat)
      returns (total: nat)
    requires InMemory(targets, mem.Length) && InMemory(sources, mem.Length)
    requires Separate(Flat(targets), Flat(sources))
    modifies mem
    ensures total == Min(max, Min(|Flat(targets)|, |Flat(sources)|))
    ensures Copied(old(mem[..]), mem[..], Flat(targets), Flat(sources), total)
  {
    ghost var m0 := mem[..];
    StartCopy(m0, targets, sources);
    hide Flat, Separate, Copied, At;
    total := 0;
    var targetIter, targetBufferOffset := 0, 0;
    var sourceIter, sourceBufferOffset := 0, 0;
    while total != max && targetIter != |targets| && sourceIter != |sources|
      invariant total <= max
      invariant At(targets, targetIter, targetBufferOffset, total)
      invariant At(sources, sourceIter, sourceBufferOffset, total)
      invariant Copied(m0, mem[..], Flat(targets), Flat(sources), total)
      decreases |targets| - targetIter + |sources| - sourceIter, max - total
    {
      var targetBuffer := targets[targetIter].Plus(targetBufferOffset);
      var sourceBuffer := sources[sourceIter].Plus(sourceBufferOffset);
      var bytesCopied := CopyAt(mem, targetBuffer, sourceBuffer.Limited(max - total), m0,
                                targets, targetIter, targetBufferOffset,
                                sources, sourceIter, sourceBufferOffset, total);
      total := total + bytesCopied;
      if bytesCopied == targetBuffer.size {
        targetIter, targetBufferOffset := targetIter + 1, 0;
      } else {
        targetBufferOffset := targetBufferOffset + bytesCopied;
      }
      if bytesCopied == sourceBuffer.size {
        sourceIter, sourceBufferOffset := sourceIter + 1, 0;
      } else {
        sourceBufferOffset := sourceBufferOffset + bytesCopied;
      }
    }
    AtEnd(targets, targetIter, targetBufferOffset, total);
    AtEnd(sources, sourceIter, sourceBufferOffset, total);
  }
}
