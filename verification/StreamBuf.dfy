/**
  The buffer of asio/basic_streambuf.hpp: an input and an output sequence in one
  array, between pointers that are kept here as offsets from its start.
  */
module StreamBuf {
  import opened Bytes
  import opened Buffers
  import opened Options

  const BUFFER_DELTA := 128

  // ----- What a streambuf is: a queue of bytes followed by room to write -----

  /** The state as a value: the whole array, the get pointer, the end of the get area, the put pointer and its end. */
  datatype View = View(buffer: seq<Byte>, gptr: nat, egptr: nat, pptr: nat, epptr: nat, maxSize: nat) {
    ghost predicate Valid() {
      && gptr <= egptr <= pptr <= epptr <= maxSize
      && |buffer| == Max(epptr, 1)
    }

    /** The input sequence: what data() shows. */
    function Input(): (s: seq<Byte>)
      requires gptr <= pptr <= |buffer|
    {
      buffer[gptr..pptr]
    }

    /** The output sequence: what prepare() gives out, and what has been written into it. */
    function Output(): (s: seq<Byte>)
      requires pptr <= epptr <= |buffer|
    {
      buffer[pptr..epptr]
    }

    function Size(): nat
      requires gptr <= pptr
    {
      pptr - gptr
    }
  }

  function Max(a: nat, b: nat): nat {
    if a < b then b else a
  }

  /** std::vector::resize to a larger size */
  function Resized(b: seq<Byte>, n: nat): (r: seq<Byte>)
    requires |b| <= n
    ensures |r| == n && b <= r
  {
    b + Zeros(n - |b|)
  }

  /** memmove of the bytes from `gnext` to `pnext` to the start */
  function Compacted(b: seq<Byte>, gnext: nat, pnext: nat): (r: seq<Byte>)
    requires gnext <= pnext <= |b|
    ensures |r| == |b|
  {
    b[gnext..pnext] + b[pnext - gnext..]
  }

  function Construct(maxSize: nat): (v: View)
  {
    var pend := Min(maxSize, BUFFER_DELTA);
    View(Zeros(Max(pend, 1)), 0, 0, 0, pend, maxSize)
  }

  /** reserve: the new state, and whether it returned rather than throwing. */
  function Reserve(v: View, n: nat): (r: (View, bool))
    requires v.Valid()
  {
    if n <= v.epptr - v.pptr then (v, true)
    else Regrown(v.(buffer := if v.gptr > 0 then Compacted(v.buffer, v.gptr, v.pptr) else v.buffer), n)
  }

  /** The part of reserve after the bytes are moved: new pointers, and a larger array if it takes one. */
  function Regrown(v: View, n: nat): (r: (View, bool))
    requires v.Valid()
  {
    var pnext := v.pptr - v.gptr;
    if n <= v.epptr - pnext then
      (v.(gptr := 0, egptr := pnext, pptr := pnext), true)
    else if n <= v.maxSize && pnext <= v.maxSize - n then
      var pend := pnext + n;
      (View(Resized(v.buffer, Max(pend, 1)), 0, pnext, pnext, pend, v.maxSize), true)
    else
      (v, false)
  }

  function Write(v: View, s: seq<Byte>): View
    requires v.Valid()
  {
    if |s| <= v.epptr - v.pptr then
      v.(buffer := v.buffer[..v.pptr] + s + v.buffer[v.pptr + |s|..])
    else v
  }

  function Commit(v: View, n: nat): View
    requires v.Valid()
  {
    var k := Min(n, v.epptr - v.pptr);
    v.(pptr := v.pptr + k, egptr := v.pptr + k)
  }

  function Consume(v: View, n: nat): View
    requires v.Valid()
  {
    var k := if v.gptr + n > v.pptr then v.pptr - v.gptr else n;
    v.(egptr := v.pptr, gptr := v.gptr + k)
  }

  /** underflow: the new state and the character, None for eof. */
  function Underflow(v: View): (r: (View, Option<Byte>))
    requires v.Valid()
  {
    if v.gptr < v.pptr then (v.(egptr := v.pptr), Some(v.buffer[v.gptr])) else (v, None)
  }

  /** How much overflow reserves for a character on a full put area. */
  function OverflowRoom(v: View): (n: nat)
    requires v.Valid()
    ensures n > 0
  {
    var room := v.maxSize - v.Size();
    if v.Size() < v.maxSize && room < BUFFER_DELTA then room else BUFFER_DELTA
  }

  /** The put area before overflow writes into it. */
  function RoomMade(v: View): (r: (View, bool))
    requires v.Valid()
    ensures r.0.Valid() && r.0.maxSize == v.maxSize && (r.1 ==> r.0.pptr < r.0.epptr && r.0.Input() == v.Input())
    ensures r.1 <==> v.Output() != [] || v.Size() < v.maxSize
    ensures !r.1 ==> r.0 == v
  {
    hide Reserve;
    ReserveResult(v, OverflowRoom(v));
    if v.pptr == v.epptr then Reserve(v, OverflowRoom(v)) else (v, true)
  }

  /** overflow of a character, or of eof: the new state, and whether it returned rather than throwing. */
  function Overflow(v: View, c: Option<Byte>): (r: (View, bool))
    requires v.Valid()
  {
    match c
    case None => (v, true)
    case Some(b) =>
      var (w, ok) := RoomMade(v);
      if ok then (w.(buffer := w.buffer[w.pptr := b], pptr := w.pptr + 1), true) else (w, false)
  }

  // ----- What the operations do to the two sequences -----

  lemma ConstructResult(maxSize: nat)
    ensures Construct(maxSize).Valid() && Construct(maxSize).Input() == []
    ensures Construct(maxSize).maxSize == maxSize
    ensures |Construct(maxSize).Output()| == if maxSize < 128 then maxSize else 128
  {
  }

  /** The pointers start over at the start of the array, which grows only when the bytes do not fit in it. */
  lemma RegrownResult(v: View, n: nat)
    requires v.Valid()
    ensures var (w, ok) := Regrown(v, n);
            && w.Valid() && w.maxSize == v.maxSize
            && (ok <==> v.Size() + n <= v.maxSize)
            && (ok ==> w.gptr == 0 && w.egptr == w.pptr)
            && (if ok then w.Input() == v.buffer[..v.Size()] else w == v)
            && (ok ==> |w.Output()| == if n <= v.epptr - v.Size() then v.epptr - v.Size() else n)
            && (ok ==> |w.buffer| == if v.Size() + n <= v.epptr then |v.buffer| else Max(v.Size() + n, 1))
  {
    var pend := v.Size() + n;
    if v.epptr < pend <= v.maxSize {
      var larger := Resized(v.buffer, Max(pend, 1));
      hide Resized;
      assert larger[..v.Size()] == v.buffer[..v.Size()];
    }
  }

  /** reserve throws exactly when the bytes would not fit in max_size; otherwise it keeps the input and makes room. */
  lemma ReserveResult(v: View, n: nat)
    requires v.Valid()
    ensures var (w, ok) := Reserve(v, n);
            && w.Valid() && w.maxSize == v.maxSize
            && (ok <==> v.Size() + n <= v.maxSize)
            && (ok ==> w.Input() == v.Input() && |w.Output()| >= n)
            && (!ok ==> w == v.(buffer := w.buffer) && (v.gptr == 0 ==> w == v))
  {
    if n > v.epptr - v.pptr {
      var buffer := if v.gptr > 0 then Compacted(v.buffer, v.gptr, v.pptr) else v.buffer;
      assert buffer[..v.Size()] == v.Input();
      hide Compacted, Regrown;
      RegrownResult(v.(buffer := buffer), n);
    }
  }

  /** reserve keeps the room there is, if it is enough; else it makes all the array has, or what is asked for. */
  lemma ReserveRoom(v: View, n: nat)
    requires v.Valid() && v.Size() + n <= v.maxSize
    ensures var (w, ok) := Reserve(v, n);
            && ok && w.Valid()
            && if n <= |v.Output()| then w == v
               else |w.Output()| == Max(v.epptr - v.Size(), n) && w.egptr == w.pptr
  {
    hide Compacted, Regrown;
    if n > v.epptr - v.pptr {
      RegrownResult(v.(buffer := if v.gptr > 0 then Compacted(v.buffer, v.gptr, v.pptr) else v.buffer), n);
    }
  }

  /** A new streambuf serves every request up to the maximum it was made with. */
  lemma NewServesMaximum(maxSize: nat, n: nat)
    ensures Construct(maxSize).Valid() && (Reserve(Construct(maxSize), n).1 <==> n <= maxSize)
  {
    hide Construct, Reserve;
    ConstructResult(maxSize);
    ReserveResult(Construct(maxSize), n);
  }

  lemma WriteResult(v: View, s: seq<Byte>)
    requires v.Valid() && |s| <= |v.Output()|
    ensures var w := Write(v, s);
            w.Valid() && w.maxSize == v.maxSize && w.Input() == v.Input() && w.Output() == s + v.Output()[|s|..]
  {
    var b := Write(v, s).buffer;
    var front := v.buffer[..v.pptr];
    assert b[..v.pptr] == front && b[v.pptr..v.pptr + |s|] == s;
    assert b[v.pptr + |s|..v.epptr] == v.buffer[v.pptr + |s|..v.epptr] == v.Output()[|s|..];
    assert b[v.gptr..v.pptr] == front[v.gptr..] == v.Input();
  }

  lemma CommitResult(v: View, n: nat)
    requires v.Valid()
    ensures var w, k := Commit(v, n), Min(n, |v.Output()|);
            && w.Valid() && w.maxSize == v.maxSize
            && w.Input() == v.Input() + v.Output()[..k] && w.Output() == v.Output()[k..] && w.egptr == w.pptr
  {
    var k, w := Min(n, |v.Output()|), Commit(v, n);
    assert w == v.(pptr := v.pptr + k, egptr := v.pptr + k);
    assert w.Input() == v.buffer[v.gptr..v.pptr + k] && w.Output() == v.buffer[v.pptr + k..v.epptr];
    assert v.Input() == v.buffer[v.gptr..v.pptr] && v.Output() == v.buffer[v.pptr..v.epptr];
    assert k <= |v.Output()|;
    hide Commit, Min;
    Stretches(v.buffer, v.gptr, v.pptr, v.pptr + k, v.epptr);
  }

  /** Neighbouring stretches, joined and cut. */
  lemma Stretches(b: seq<Byte>, i: nat, j: nat, k: nat, m: nat)
    requires i <= j <= k <= m <= |b|
    ensures b[i..j] + b[j..k] == b[i..k] && b[j..m][..k - j] == b[j..k] && b[j..m][k - j..] == b[k..m]
  {
  }

  lemma ConsumeResult(v: View, n: nat)
    requires v.Valid()
    ensures var w := Consume(v, n);
            && w.Valid() && w.maxSize == v.maxSize
            && w.Input() == v.Input()[Min(n, v.Size())..] && w.Output() == v.Output() && w.egptr == w.pptr
  {
  }

  lemma UnderflowResult(v: View)
    requires v.Valid()
    ensures var (w, c) := Underflow(v);
            && w.Valid() && w.maxSize == v.maxSize && w.Input() == v.Input() && w.Output() == v.Output()
            && c == (if v.Input() == [] then None else Some(v.Input()[0]))
            && (if c.Some? then w == v.(egptr := v.pptr) else w == v)
  {
  }

  /** A character is refused, and nothing changes, exactly when a full put area meets an input of max_size bytes. */
  lemma OverflowResult(v: View, c: Option<Byte>)
    requires v.Valid()
    ensures var (w, ok) := Overflow(v, c);
            && w.Valid() && w.maxSize == v.maxSize
            && (ok <==> c == None || v.Output() != [] || v.Size() < v.maxSize)
            && (if ok && c.Some? then w.Input() == v.Input() + [c.value] else w.Input() == v.Input() && w == v)
  {
    hide RoomMade;
    if c.Some? && RoomMade(v).1 {
      AppendOne(RoomMade(v).0, c.value);
    }
  }

  /** A character goes into the put area; a full one first gets room for 128 more, or for as many as max_size leaves. */
  lemma OverflowMakesRoom(v: View, b: Byte)
    requires v.Valid() && Overflow(v, Some(b)).1
    ensures var w := Overflow(v, Some(b)).0;
            && w.Valid()
            && if v.Output() != [] then w.Output() == v.Output()[1..] && w.egptr == v.egptr
               else w.egptr == w.pptr - 1
                    && |w.Output()| == Max(v.epptr - v.Size(), Min(128, v.maxSize - v.Size())) - 1
  {
    RoomMadeRoom(v);
    AppendOne(RoomMade(v).0, b);
    hide RoomMade;
  }

  lemma RoomMadeIs(v: View)
    requires v.Valid()
    ensures RoomMade(v) == if v.pptr == v.epptr then Reserve(v, OverflowRoom(v)) else (v, true)
  {
    hide Reserve, OverflowRoom;
  }

  lemma OverflowRoomIs(v: View)
    requires v.Valid() && v.Size() < v.maxSize
    ensures OverflowRoom(v) == Min(128, v.maxSize - v.Size())
  {
  }

  lemma RoomMadeRoom(v: View)
    requires v.Valid() && RoomMade(v).1
    ensures var w := RoomMade(v).0;
            if v.Output() != [] then w == v
            else w.egptr == w.pptr && |w.Output()| == Max(v.epptr - v.Size(), Min(128, v.maxSize - v.Size()))
  {
    hide Reserve, RoomMade, OverflowRoom;
    RoomMadeIs(v);
    if v.pptr == v.epptr {
      OverflowRoomIs(v);
      ReserveRoom(v, OverflowRoom(v));
    }
  }

  lemma AppendOne(w: View, b: Byte)
    requires w.Valid() && w.pptr < w.epptr
    ensures var x := w.(buffer := w.buffer[w.pptr := b], pptr := w.pptr + 1);
            x.Valid() && x.Input() == w.Input() + [b] && x.Output() == w.Output()[1..]
  {
  }

  /** What is prepared, written and committed arrives at the end of the input. */
  lemma PrepareWriteCommit(v: View, n: nat, s: seq<Byte>)
    requires v.Valid() && v.Size() + n <= v.maxSize && |s| <= n
    ensures Reserve(v, n).1 && Reserve(v, n).0.Valid() && Write(Reserve(v, n).0, s).Valid()
    ensures Commit(Write(Reserve(v, n).0, s), |s|).Valid()
    ensures Commit(Write(Reserve(v, n).0, s), |s|).Input() == v.Input() + s
  {
    ReserveResult(v, n);
    WriteResult(Reserve(v, n).0, s);
    CommitResult(Write(Reserve(v, n).0, s), |s|);
  }

  // ----- A failed prepare -----

  /**
    reserve moves the input to the start of the array before it throws, and then
    leaves the pointers where they were.  The input survives exactly when no
    byte of it was to be moved onto a different one: always when the get pointer
    is at the start, or when no more input is left than was consumed.
    */
  lemma FailedReserve(v: View, n: nat)
    requires v.Valid() && v.Size() + n > v.maxSize
    ensures var w := Reserve(v, n).0;
            && w.Valid()
            && (w.Input() == v.Input() <==>
                  v.gptr == 0 || forall j :: v.gptr <= j < v.Size() ==> v.Input()[j] == v.Input()[j - v.gptr])
  {
    ReserveResult(v, n);
    var w := Reserve(v, n).0;
    if v.gptr > 0 {
      assert w == v.(buffer := Compacted(v.buffer, v.gptr, v.pptr));
      hide Reserve;
      MovedInput(v);
      SameWhenMovedIff(v.Input(), w.Input(), v.gptr);
    }
  }

  /** The input as it reads when its bytes have been moved but the pointers have not. */
  lemma MovedInput(v: View)
    requires v.Valid()
    ensures var w := v.(buffer := Compacted(v.buffer, v.gptr, v.pptr));
            && w.Valid()
            && forall j :: 0 <= j < v.Size() ==>
                 w.Input()[j] == v.Input()[if j + v.gptr < v.Size() then j + v.gptr else j]
  {
    var b := Compacted(v.buffer, v.gptr, v.pptr);
    var w := v.(buffer := b);
    forall j | 0 <= j < v.Size()
      ensures w.Input()[j] == v.Input()[if j + v.gptr < v.Size() then j + v.gptr else j]
    {
      assert w.Input()[j] == b[v.gptr + j];
      if j + v.gptr < v.Size() {
        assert b[v.gptr + j] == v.buffer[v.gptr..v.pptr][v.gptr + j];
      } else {
        assert b[v.gptr + j] == v.buffer[v.gptr + j];
      }
    }
  }

  lemma SameWhenMovedIff(x: seq<Byte>, y: seq<Byte>, g: nat)
    requires |x| == |y| && forall j :: 0 <= j < |x| ==> y[j] == x[if j + g < |x| then j + g else j]
    ensures y == x <==> forall j :: g <= j < |x| ==> x[j] == x[j - g]
  {
    if y == x {
      forall j | g <= j < |x| ensures x[j] == x[j - g] {
        assert y[j - g] == x[j];
      }
    }
    if forall j :: g <= j < |x| ==> x[j] == x[j - g] {
      forall j | 0 <= j < |x| ensures y[j] == x[j] {
        if j + g < |x| {
          assert x[j + g] == x[j + g - g];
        }
      }
    }
  }

  /** One byte consumed of three, and a request that does not fit: the bytes left to read have changed. */
  lemma FailedReserveExample()
    ensures var v := Consume(View([1, 2, 3], 0, 3, 3, 3, 3), 1);
            && v.Valid() && v.Input() == [2, 3]
            && !Reserve(v, 2).1 && Reserve(v, 2).0.Valid() && Reserve(v, 2).0.Input() == [3, 3]
  {
    var v := Consume(View([1, 2, 3], 0, 3, 3, 3, 3), 1);
    assert Compacted(v.buffer, 1, 3) == [2, 3, 3];
  }

  // ----- Runs -----

  datatype Op =
    | OpPrepare(n: nat)
    | OpWrite(s: seq<Byte>)
    | OpCommit(n: nat)
    | OpConsume(n: nat)
    | OpUnderflow
    | OpOverflow(c: Option<Byte>)

  /** The state after an operation, and whether it was carried out: no exception, nothing written past the put area. */
  function Step(v: View, op: Op): (r: (View, bool))
    requires v.Valid()
  {
    match op
    case OpPrepare(n) => Reserve(v, n)
    case OpWrite(s) => (Write(v, s), |s| <= v.epptr - v.pptr)
    case OpCommit(n) => (Commit(v, n), true)
    case OpConsume(n) => (Consume(v, n), true)
    case OpUnderflow => (Underflow(v).0, true)
    case OpOverflow(c) => Overflow(v, c)
  }

  /** An operation is refused only for want of room. */
  lemma StepSucceedsIff(v: View, op: Op)
    requires v.Valid()
    ensures Step(v, op).1 <==>
            match op
            case OpPrepare(n) => v.Size() + n <= v.maxSize
            case OpWrite(s) => |s| <= |v.Output()|
            case OpOverflow(c) => c == None || v.Output() != [] || v.Size() < v.maxSize
            case _ => true
  {
    hide Reserve, Commit, Consume, Underflow, Overflow;
    match op {
      case OpPrepare(n) => ReserveResult(v, n);
      case OpOverflow(c) => OverflowResult(v, c);
      case _ =>
    }
  }

  /** The bytes an operation adds to the end of the input. */
  function Appended(v: View, op: Op): seq<Byte>
    requires v.Valid()
  {
    match op
    case OpCommit(n) => v.Output()[..Min(n, |v.Output()|)]
    case OpOverflow(Some(b)) => if Overflow(v, op.c).1 then [b] else []
    case _ => []
  }

  /** The bytes it takes from the front. */
  function Taken(v: View, op: Op): seq<Byte>
    requires v.Valid()
  {
    match op
    case OpConsume(n) => v.Input()[..Min(n, v.Size())]
    case _ => []
  }

  lemma StepResult(v: View, op: Op)
    requires v.Valid()
    ensures Step(v, op).0.Valid() && Step(v, op).0.maxSize == v.maxSize
    ensures Step(v, op).1 ==> Taken(v, op) + Step(v, op).0.Input() == v.Input() + Appended(v, op)
  {
    hide Reserve, Commit, Consume, Underflow, Overflow;
    match op {
      case OpPrepare(n) => ReserveResult(v, n);
      case OpWrite(s) =>
        if |s| <= |v.Output()| {
          WriteResult(v, s);
        }
      case OpCommit(n) => CommitResult(v, n);
      case OpConsume(n) => ConsumeResult(v, n);
      case OpUnderflow => UnderflowResult(v);
      case OpOverflow(c) => OverflowResult(v, c);
    }
  }

  /** A run of operations up to the first that fails: the end state, and all bytes added and taken on the way. */
  function Run(v: View, ops: seq<Op>): (r: (View, seq<Byte>, seq<Byte>))
    requires v.Valid()
    decreases |ops|
  {
    StepResult(v, if ops == [] then OpUnderflow else ops[0]);
    if ops == [] || !Step(v, ops[0]).1 then (v, [], [])
    else
      var (end, added, taken) := Run(Step(v, ops[0]).0, ops[1..]);
      (end, Appended(v, ops[0]) + added, Taken(v, ops[0]) + taken)
  }

  /**
    First in, first out, over any run: what was taken, followed by what is still
    there, is what was there, followed by what was added; and the pointers stay
    in order, within max_size.
    */
  lemma {:induction false} RunIsFifo(v: View, ops: seq<Op>)
    requires v.Valid()
    ensures var (end, added, taken) := Run(v, ops);
            end.Valid() && end.maxSize == v.maxSize && taken + end.Input() == v.Input() + added
    decreases |ops|
  {
    if ops != [] {
      StepResult(v, ops[0]);
      var w := Step(v, ops[0]).0;
      if Step(v, ops[0]).1 {
        RunIsFifo(w, ops[1..]);
        var (end, added, taken) := Run(w, ops[1..]);
        hide Step, Appended, Taken;
        FifoStep(v.Input(), Appended(v, ops[0]), Taken(v, ops[0]), w.Input(), added, taken, end.Input());
      }
    }
  }

  lemma FifoStep(s: seq<Byte>, a: seq<Byte>, t: seq<Byte>, s': seq<Byte>, a': seq<Byte>, t': seq<Byte>, s'': seq<Byte>)
    requires t + s' == s + a && t' + s'' == s' + a'
    ensures (t + t') + s'' == s + (a + a')
  {
    assert (t + t') + s'' == t + (t' + s'');
    assert t + (s' + a') == (t + s') + a';
  }

  // ----- basic_streambuf -----

  class BasicStreambuf {
    var buffer: array<Byte>
    var gptr: nat
    var egptr: nat
    var pptr: nat
    var epptr: nat
    const maxSize: nat

    ghost function AsView(): View
      reads this, buffer
    {
      View(buffer[..], gptr, egptr, pptr, epptr, maxSize)
    }

    ghost predicate Valid()
      reads this, buffer
    {
      AsView().Valid()
    }

    constructor (maximumSize: nat)
      ensures Valid() && fresh(buffer) && AsView() == Construct(maximumSize)
      ensures maxSize == maximumSize
    {
      maxSize := maximumSize;
      var pend := Min(maximumSize, BUFFER_DELTA);
      buffer := new Byte[Max(pend, 1)](i => 0);
      gptr, egptr, pptr, epptr := 0, 0, 0, pend;
      new;
      ConstructResult(maximumSize);
      assert buffer[..] == Zeros(Max(pend, 1));
    }

    method GetSize() returns (n: nat)
      requires Valid()
      ensures n == |AsView().Input()|
    {
      n := pptr - gptr;
    }

    method Data() returns (s: seq<Byte>)
      requires Valid()
      ensures s == AsView().Input()
    {
      s := buffer[gptr..pptr];
    }

    /** Returns false where the source throws std::length_error. */
    method Prepare(n: nat) returns (ok: bool)
      requires Valid()
      modifies this, buffer
      ensures Valid() && (buffer == old(buffer) || fresh(buffer))
      ensures (AsView(), ok) == Reserve(old(AsView()), n)
      ensures ok <==> |old(AsView().Input())| + n <= maxSize
      ensures ok ==> AsView().Input() == old(AsView().Input()) && |AsView().Output()| >= n
    {
      ReserveResult(AsView(), n);
      hide Reserve;
      ok := ReserveSpace(n);
    }

    /** What the holder of a prepared buffer writes into it. */
    method WriteOutput(s: seq<Byte>)
      requires Valid() && |s| <= |AsView().Output()|
      modifies buffer
      ensures Valid() && AsView() == Write(old(AsView()), s)
    {
      WriteResult(AsView(), s);
      CopyInto(buffer, pptr, s);
    }

    method DoCommit(n: nat)
      requires Valid()
      modifies this
      ensures Valid() && buffer == old(buffer) && AsView() == Commit(old(AsView()), n)
      ensures AsView().Input() == old(AsView().Input()) + old(AsView().Output())[..Min(n, |old(AsView().Output())|)]
    {
      CommitResult(AsView(), n);
      var k := Min(n, epptr - pptr);
      pptr := pptr + k;
      egptr := pptr;
    }

    method DoConsume(n: nat)
      requires Valid()
      modifies this
      ensures Valid() && buffer == old(buffer) && AsView() == Consume(old(AsView()), n)
      ensures AsView().Input() == old(AsView().Input())[Min(n, |old(AsView().Input())|)..]
    {
      ConsumeResult(AsView(), n);
      var k := n;
      if egptr < pptr {
        egptr := pptr;
      }
      if gptr + n > pptr {
        k := pptr - gptr;
      }
      gptr := gptr + k;
    }

    method DoUnderflow() returns (c: Option<Byte>)
      requires Valid()
      modifies this
      ensures Valid() && buffer == old(buffer) && (AsView(), c) == Underflow(old(AsView()))
    {
      UnderflowResult(AsView());
      if gptr < pptr {
        egptr := pptr;
        c := Some(buffer[gptr]);
      } else {
        c := None;
      }
    }

    /** Returns false where the source throws std::length_error. */
    method DoOverflow(c: Option<Byte>) returns (ok: bool)
      requires Valid()
      modifies this, buffer
      ensures Valid() && (buffer == old(buffer) || fresh(buffer))
      ensures (AsView(), ok) == Overflow(old(AsView()), c)
      ensures !ok <==> c.Some? && |old(AsView().Input())| == maxSize && old(AsView().Output()) == []
      ensures AsView().Input() == old(AsView().Input()) + (if ok && c.Some? then [c.value] else [])
    {
      OverflowResult(AsView(), c);
      if c.None? {
        return true;
      }
      hide Overflow;
      ok := OverflowChar(c.value);
    }

    /** The branch of overflow for a character. */
    method OverflowChar(b: Byte) returns (ok: bool)
      requires Valid()
      modifies this, buffer
      ensures buffer == old(buffer) || fresh(buffer)
      ensures (AsView(), ok) == Overflow(old(AsView()), Some(b))
    {
      ghost var v := AsView();
      ghost var (w, enough) := RoomMade(v);
      ghost var end := if enough then w.(buffer := w.buffer[w.pptr := b], pptr := w.pptr + 1) else w;
      assert Overflow(v, Some(b)) == (end, enough);
      assert v.pptr != v.epptr ==> RoomMade(v) == (v, true);
      hide Overflow, RoomMade, Reserve, OverflowRoom;
      ok := true;
      if pptr == epptr {
        ok := RoomForOne();
      }
      assert AsView() == w && ok == enough;
      if ok {
        PutChar(b);
      }
    }

    method RoomForOne() returns (ok: bool)
      requires Valid() && pptr == epptr
      modifies this, buffer
      ensures Valid() && (buffer == old(buffer) || fresh(buffer))
      ensures (AsView(), ok) == RoomMade(old(AsView()))
      ensures ok ==> pptr < epptr
    {
      ReserveResult(AsView(), OverflowRoom(AsView()));
      ghost var needed := OverflowRoom(AsView());
      var bufferSize := pptr - gptr;
      var room: nat := BUFFER_DELTA;
      if bufferSize < maxSize && maxSize - bufferSize < BUFFER_DELTA {
        room := maxSize - bufferSize;
      }
      assert room == needed;
      hide Reserve, OverflowRoom;
      ok := ReserveSpace(room);
    }

    method PutChar(b: Byte)
      requires Valid() && pptr < epptr
      modifies this, buffer
      ensures Valid() && buffer == old(buffer)
      ensures var w := old(AsView()); AsView() == w.(buffer := w.buffer[w.pptr := b], pptr := w.pptr + 1)
    {
      AppendOne(AsView(), b);
      buffer[pptr] := b;
      pptr := pptr + 1;
    }

    /** reserve */
    method ReserveSpace(n: nat) returns (ok: bool)
      requires Valid()
      modifies this, buffer
      ensures buffer == old(buffer) || fresh(buffer)
      ensures (AsView(), ok) == Reserve(old(AsView()), n)
    {
      ghost var v := AsView();
      if n <= epptr - pptr {
        return true;
      }
      if gptr > 0 {
        Compact();
      }
      assert AsView() == v.(buffer := if v.gptr > 0 then Compacted(v.buffer, v.gptr, v.pptr) else v.buffer);
      hide Compacted, Resized, Regrown;
      ok := Regrow(n);
    }

    method Regrow(n: nat) returns (ok: bool)
      requires Valid()
      modifies this
      ensures buffer == old(buffer) || fresh(buffer)
      ensures (AsView(), ok) == Regrown(old(AsView()), n)
    {
      hide Resized;
      var pnext, pend := pptr - gptr, epptr;
      if n > pend - pnext {
        if n <= maxSize && pnext <= maxSize - n {
          pend := pnext + n;
          Resize(Max(pend, 1));
        } else {
          return false;
        }
      }
      gptr, egptr, pptr, epptr := 0, pnext, pnext, pend;
      ok := true;
    }

    /** memmove of the input to the start of the array */
    method Compact()
      requires gptr <= pptr <= buffer.Length
      modifies buffer
      ensures buffer[..] == Compacted(old(buffer[..]), gptr, pptr)
    {
      CopyInto(buffer, 0, buffer[gptr..pptr]);
    }

    /** std::vector::resize to a larger size; the new elements are zero. */
    method Resize(n: nat)
      requires buffer.Length <= n
      modifies `buffer
      ensures fresh(buffer) && buffer[..] == Resized(old(buffer[..]), n)
    {
      var larger := new Byte[n](i => 0);
      assert larger[..] == Zeros(n);
      CopyInto(larger, 0, buffer[..]);
      buffer := larger;
    }
  }
}
