/** The lock-free statistics cells seen by one thread: single additions, batches, nulls and reset. */
module HighPerformance {
  import opened RealSeq
  import Ring

  /** The scalar cells; the clock cells are left out. */
  datatype Figures = Figures(count: nat, valids: nat, nulls: nat, sum: real, sumSquares: real,
                             min: Ext, max: Ext, first: real, last: real)

  /** The sliding window: next ticket, slots, and whether every slot has been written. */
  datatype Slots = Slots(writeIndex: nat, ring: seq<real>, full: bool)

  datatype Cells = Cells(figures: Figures, slots: Slots, version: nat)

  const NO_FIGURES := Figures(0, 0, 0, 0.0, 0.0, PosInf, NegInf, 0.0, 0.0)

  /** The slot of a ticket. */
  function SlotOf(ticket: nat, size: nat): (i: nat)
    requires size > 0
    ensures i < size && (ticket < size ==> i == ticket)
  {
    ticket % size
  }

  function AddFigure(f: Figures, v: real): Figures {
    Figures(f.count + 1, f.valids + 1, f.nulls, f.sum + v, f.sumSquares + Square(v),
            Lesser(f.min, Fin(v)), Greater(f.max, Fin(v)), if f.count == 0 then v else f.first, v)
  }

  function AddSlot(s: Slots, v: real): Slots {
    if |s.ring| == 0 then s
    else Slots(s.writeIndex + 1, s.ring[SlotOf(s.writeIndex, |s.ring|) := v], s.full || s.writeIndex >= |s.ring| - 1)
  }

  /** What one AddValue does to the cells. */
  function AddOne(c: Cells, v: real): Cells {
    Cells(AddFigure(c.figures, v), AddSlot(c.slots, v), c.version + 1)
  }

  /** Repeated single additions, in order. */
  function AddAll(c: Cells, vs: seq<real>): Cells {
    if vs == [] then c else AddOne(AddAll(c, vs[..|vs| - 1]), vs[|vs| - 1])
  }

  /** The ring after writing `vs` from ticket `start` on. */
  function WriteAll(ring: seq<real>, start: nat, vs: seq<real>): (r: seq<real>)
    requires |ring| > 0
    ensures |r| == |ring|
  {
    if vs == [] then ring
    else WriteAll(ring, start, vs[..|vs| - 1])[SlotOf(start + |vs| - 1, |ring|) := vs[|vs| - 1]]
  }

  function BatchFigures(f: Figures, vs: seq<real>): Figures
    requires vs != []
  {
    Figures(f.count + |vs|, f.valids + |vs|, f.nulls, f.sum + Sum(vs), f.sumSquares + SumSquares(vs),
            Lesser(f.min, MinOf(vs)), Greater(f.max, MaxOf(vs)), if f.count == 0 then vs[0] else f.first, vs[|vs| - 1])
  }

  function BatchSlots(s: Slots, vs: seq<real>): Slots {
    if |s.ring| == 0 then s
    else Slots(s.writeIndex + |vs|, WriteAll(s.ring, s.writeIndex, vs), s.full || s.writeIndex + |vs| >= |s.ring|)
  }

  /** The cells after a batch, computed from totals over the batch. */
  function BatchCells(c: Cells, vs: seq<real>): Cells
    requires vs != []
  {
    Cells(BatchFigures(c.figures, vs), BatchSlots(c.slots, vs), c.version + |vs|)
  }

  lemma FigureStep(f: Figures, front: seq<real>, x: real)
    ensures front != [] ==> AddFigure(BatchFigures(f, front), x) == BatchFigures(f, front + [x])
    ensures AddFigure(f, x) == BatchFigures(f, [x])
  {
    hide Sum, SumSquares, MinOf, MaxOf, Square;
    AppendOne(front, x);
    AppendOne([], x);
    Empties();
    assert [] + [x] == [x];
  }

  lemma SlotStep(s: Slots, front: seq<real>, x: real)
    ensures front != [] ==> AddSlot(BatchSlots(s, front), x) == BatchSlots(s, front + [x])
    ensures AddSlot(s, x) == BatchSlots(s, [x])
  {
    hide SlotOf;
    assert (front + [x])[..|front|] == front;
    assert [x][..0] == [];
    if |s.ring| > 0 {
      assert WriteAll(s.ring, s.writeIndex, [x][..0]) == s.ring;
    }
  }

  /** The batch totals reach the same cells as repeated single additions, whatever was added before
      and however long the batch is compared with the window. */
  lemma {:induction false} BatchIsRepeatedSingles(c: Cells, vs: seq<real>)
    requires vs != []
    ensures AddAll(c, vs) == BatchCells(c, vs)
  {
    hide AddFigure, BatchFigures, AddSlot, BatchSlots;
    var front, x := vs[..|vs| - 1], vs[|vs| - 1];
    assert vs == front + [x];
    FigureStep(c.figures, front, x);
    SlotStep(c.slots, front, x);
    if front == [] {
      assert AddAll(c, front) == c;
      assert vs == [x];
    } else {
      BatchIsRepeatedSingles(c, front);
    }
  }

  /** After a batch the slots hold its last values: every one of the last `window` tickets is still
      in its own slot, even when the batch is longer than the window. */
  lemma {:induction false} WriteAllKeepsLast(ring: seq<real>, start: nat, vs: seq<real>, i: nat)
    requires |vs| - |ring| <= i < |vs| && |ring| > 0
    ensures WriteAll(ring, start, vs)[SlotOf(start + i, |ring|)] == vs[i]
  {
    hide SlotOf;
    var last := |vs| - 1;
    if i < last {
      DistinctSlots(start + i, start + last, |ring|);
      WriteAllKeepsLast(ring, start, vs[..last], i);
    }
  }

  /** Tickets closer than a full turn never share a slot. */
  lemma DistinctSlots(a: nat, b: nat, size: nat)
    requires a < b < a + size
    ensures SlotOf(a, size) != SlotOf(b, size)
  {
    var q := b / size - a / size;
    assert a == size * (a / size) + a % size && b == size * (b / size) + b % size;
    if a % size == b % size {
      assert b - a == size * q;
      Ring.MultipleTooFar(size, q);
    }
  }

  class HighPerformanceStats {
    var figures: Figures
    var writeIndex: nat
    var windowFull: bool
    var cacheVersion: nat
    const ringBuffer: array<real>

    function State(): Cells
      reads this, ringBuffer
    {
      Cells(figures, Slots(writeIndex, ringBuffer[..], windowFull), cacheVersion)
    }

    constructor (windowSize: int)
      ensures fresh(ringBuffer)
      ensures
        var size := if windowSize < 0 then 0 else if windowSize > 1_000_000 then 1_000_000 else windowSize;
        State() == Cells(NO_FIGURES, Slots(0, seq(size, _ => 0.0), false), 0)
    {
      var size := if windowSize < 0 then 0 else if windowSize > 1_000_000 then 1_000_000 else windowSize;
      ringBuffer := new real[size](_ => 0.0);
      figures, writeIndex, windowFull, cacheVersion := NO_FIGURES, 0, false, 0;
      new;
      assert ringBuffer[..] == seq(size, _ => 0.0);
    }

    method AddValue(value: real)
      modifies this, ringBuffer
      ensures State() == AddOne(old(State()), value)
    {
      hide Square, SlotOf;
      var f := figures.(count := figures.count + 1, valids := figures.valids + 1);
      f := f.(sum := f.sum + value);
      f := f.(sumSquares := f.sumSquares + Square(value));
      if f.count == 1 {
        f := f.(first := value);
      }
      f := f.(last := value);
      if Fin(value).Below(f.min) {
        f := f.(min := Fin(value));
      }
      if f.max.Below(Fin(value)) {
        f := f.(max := Fin(value));
      }
      figures := f;
      var size := ringBuffer.Length;
      if size > 0 {
        var index := writeIndex;
        writeIndex := writeIndex + 1;
        ringBuffer[SlotOf(index, size)] := value;
        if index >= size - 1 {
          windowFull := true;
        }
      }
      cacheVersion := cacheVersion + 1;
    }

    /** A batch leaves the same cells as adding its values one by one. */
    method AddBatch(values: seq<real>)
      modifies this, ringBuffer
      ensures State() == AddAll(old(State()), values)
    {
      if |values| == 0 {
        return;
      }
      hide AddAll, WriteAll, BatchFigures;
      BatchIsRepeatedSingles(State(), values);
      figures := AddTotals(figures, values);
      if ringBuffer.Length > 0 {
        var startIndex := writeIndex;
        writeIndex := writeIndex + |values|;
        WriteRing(startIndex, values);
        if startIndex + |values| >= ringBuffer.Length {
          windowFull := true;
        }
      }
      cacheVersion := cacheVersion + |values|;
    }

    method WriteRing(startIndex: nat, values: seq<real>)
      requires ringBuffer.Length > 0
      modifies ringBuffer
      ensures ringBuffer[..] == WriteAll(old(ringBuffer[..]), startIndex, values)
    {
      hide SlotOf;
      ghost var ring := ringBuffer[..];
      for i := 0 to |values|
        invariant ringBuffer[..] == WriteAll(ring, startIndex, values[..i])
      {
        assert values[..i + 1][..i] == values[..i];
        ringBuffer[SlotOf(startIndex + i, ringBuffer.Length)] := values[i];
      }
      assert values[..|values|] == values;
    }

    method AddNull()
      modifies this`figures, this`cacheVersion
      ensures State() == old(State()).(figures := old(figures).(nulls := old(figures.nulls) + 1,
                                                                count := old(figures.count) + 1),
                                       version := old(cacheVersion) + 1)
    {
      figures := figures.(nulls := figures.nulls + 1, count := figures.count + 1);
      cacheVersion := cacheVersion + 1;
    }

    /** Reset clears everything except the first and last value cells. */
    method Reset()
      modifies this, ringBuffer
      ensures State() == Cells(NO_FIGURES.(first := old(figures.first), last := old(figures.last)),
                               Slots(0, seq(ringBuffer.Length, _ => 0.0), false), 0)
    {
      figures := NO_FIGURES.(first := figures.first, last := figures.last);
      writeIndex, windowFull, cacheVersion := 0, false, 0;
      for i := 0 to ringBuffer.Length
        modifies ringBuffer
        invariant forall j | 0 <= j < i :: ringBuffer[j] == 0.0
      {
        ringBuffer[i] := 0.0;
      }
      assert ringBuffer[..] == seq(ringBuffer.Length, _ => 0.0);
    }
  }

  /** Summarises a batch locally and applies the totals to the scalar cells. */
  method AddTotals(figures: Figures, values: seq<real>) returns (f: Figures)
    requires values != []
    ensures f == BatchFigures(figures, values)
  {
    hide Sum, SumSquares, MinOf, MaxOf;
    var localSum, localSumSquares, localMin, localMax := Summarise(values);
    f := figures.(count := figures.count + |values|, valids := figures.valids + |values|);
    f := f.(sum := f.sum + localSum);
    f := f.(sumSquares := f.sumSquares + localSumSquares);
    if f.count == |values| {
      f := f.(first := values[0]);
    }
    f := f.(last := values[|values| - 1]);
    if Fin(localMin).Below(f.min) {
      f := f.(min := Fin(localMin));
    }
    if f.max.Below(Fin(localMax)) {
      f := f.(max := Fin(localMax));
    }
  }

  /** The local totals of a batch. */
  method Summarise(values: seq<real>) returns (sum: real, sumSquares: real, min: real, max: real)
    requires values != []
    ensures sum == Sum(values) && sumSquares == SumSquares(values)
    ensures MinOf(values) == Fin(min) && MaxOf(values) == Fin(max)
  {
    hide Square;
    sum, sumSquares, min, max := 0.0, 0.0, values[0], values[0];
    for i := 0 to |values|
      invariant sum == Sum(values[..i]) && sumSquares == SumSquares(values[..i])
      invariant if i == 0 then min == max == values[0]
                else MinOf(values[..i]) == Fin(min) && MaxOf(values[..i]) == Fin(max)
    {
      AppendOne(values[..i], values[i]);
      assert values[..i + 1] == values[..i] + [values[i]];
      sum, sumSquares := sum + values[i], sumSquares + Square(values[i]);
      if values[i] < min {
        min := values[i];
      }
      if values[i] > max {
        max := values[i];
      }
    }
    assert values[..|values|] == values;
  }
}
