/**
 The growable vector: capacity doubles when it is full and halves when only a quarter is in use. The
 capacity arithmetic is a function of its own, so that bounds over all runs are lemmas about it.
 */
module CVector {
  import opened Basics

  const MIN_LEN := 256

  datatype Status = Success | Failed | PopBackError

  // ---------------------------------------------------------------- capacities

  /** Length, capacity, and the number of elements reallocation has moved so far. */
  datatype Shape = Shape(len: nat, tot: nat, moved: nat)

  datatype Op = Push | Pop | Remove(index: nat)

  const EMPTY := Shape(0, MIN_LEN, 0)

  /** The capacity test of `cvector_pushback`, before the element is stored. */
  function Grown(s: Shape): Shape {
    if s.len >= s.tot then s.(tot := 2 * s.tot, moved := s.moved + s.tot) else s
  }

  /** The capacity test of `cvector_popback` and `cvector_rm`, after the length went down. */
  function Shrunk(s: Shape): Shape {
    if s.tot >= 4 * MIN_LEN && s.len <= s.tot / 4 then s.(tot := s.tot / 2, moved := s.moved + s.tot / 2) else s
  }

  function Next(s: Shape, op: Op): Shape {
    match op
    case Push => Grown(s).(len := s.len + 1)
    case Pop => if s.len == 0 then s else Shrunk(s.(len := s.len - 1))
    case Remove(index) => if index >= s.len then s else Shrunk(s.(len := s.len - 1))
  }

  function After(s: Shape, ops: seq<Op>): Shape
    decreases |ops|
  {
    if ops == [] then s else After(Next(s, ops[0]), ops[1..])
  }

  function Power2(k: nat): (p: nat)
    ensures p >= 1
  {
    if k == 0 then 1 else 2 * Power2(k - 1)
  }

  /** The capacity is 256 times a power of two. */
  ghost predicate IsCapacity(tot: nat) {
    exists k: nat :: tot == MIN_LEN * Power2(k)
  }

  /** The length fits, and a capacity above 512 is below four times the length. */
  ghost predicate Fits(s: Shape) {
    IsCapacity(s.tot) && s.len <= s.tot && (s.tot <= 2 * MIN_LEN || s.tot < 4 * s.len)
  }

  /** Doubling and halving a capacity. */
  lemma PowerStep(k: nat)
    ensures Power2(k + 1) == 2 * Power2(k)
    ensures IsCapacity(MIN_LEN * Power2(k))
  {
    CapacityOf(k, MIN_LEN * Power2(k));
  }

  lemma CapacityOf(k: nat, tot: nat)
    requires tot == MIN_LEN * Power2(k)
    ensures IsCapacity(tot)
  {}

  lemma Halves(x: nat, y: nat, tot: nat)
    requires x == 2 * y && tot == MIN_LEN * x
    ensures tot % 4 == 0 && tot / 2 == MIN_LEN * y
  {
    var z := 128 * y;
    assert tot == 4 * z && MIN_LEN * y == 2 * z;
    FourTimes(z);
  }

  lemma FourTimes(z: nat)
    ensures 4 * z % 4 == 0 && 4 * z / 2 == 2 * z
  {}

  lemma CapacityStep(tot: nat)
    requires IsCapacity(tot)
    ensures tot >= MIN_LEN && IsCapacity(2 * tot)
    ensures tot == MIN_LEN || (tot % 4 == 0 && tot / 2 >= MIN_LEN && IsCapacity(tot / 2))
  {
    var k: nat :| tot == MIN_LEN * Power2(k);
    hide IsCapacity, Power2;
    PowerStep(k);
    CapacityOf(k + 1, 2 * tot);
    if k > 0 {
      PowerStep(k - 1);
      Halves(Power2(k), Power2(k - 1), tot);
      CapacityOf(k - 1, tot / 2);
    } else {
      PowerZero();
    }
  }

  lemma PowerZero()
    ensures Power2(0) == 1
  {}

  /**
   The capacities in numbers: doubled when a full vector grows, halved when at least 1024 are there and at
   most a quarter of them is still used; each time the elements that fit are moved.
   */
  lemma CapacityRule(s: Shape, op: Op)
    requires Fits(s)
    ensures var t := Next(s, op);
            var removes := s.len > 0 && (op == Pop || (op.Remove? && op.index < s.len));
            && t.len == (if op == Push then s.len + 1 else if removes then s.len - 1 else s.len)
            && t.tot == (if op == Push && s.len == s.tot then 2 * s.tot
                         else if removes && s.tot >= 1024 && 4 * (s.len - 1) <= s.tot then s.tot / 2
                         else s.tot)
            && t.moved == s.moved + (if t.tot == s.tot then 0 else if t.tot > s.tot then s.tot else t.tot)
  {
    CapacityStep(s.tot);
    hide IsCapacity;
  }

  /** What is saved up for the next reallocation. */
  function Potential(s: Shape): int {
    if 2 * s.len >= s.tot then 2 * s.len - s.tot
    else if s.tot >= 4 * MIN_LEN then s.tot - 2 * s.len
    else 0
  }

  /** One operation pays for its reallocation out of the potential and adds at most 2 to it. */
  lemma NextKeeps(s: Shape, op: Op)
    requires Fits(s)
    ensures Fits(Next(s, op))
    ensures Next(s, op).moved + Potential(Next(s, op)) <= s.moved + Potential(s) + 2
    ensures Potential(s) >= 0
  {
    CapacityStep(s.tot);
    hide IsCapacity;
  }

  /** Over any operations the elements moved are paid for, and the capacity stays in proportion. */
  lemma {:induction false} RunKeeps(s: Shape, ops: seq<Op>)
    requires Fits(s)
    ensures Fits(After(s, ops))
    ensures After(s, ops).moved + Potential(After(s, ops)) <= s.moved + Potential(s) + 2 * |ops|
    decreases |ops|
  {
    if ops != [] {
      NextKeeps(s, ops[0]);
      RunKeeps(Next(s, ops[0]), ops[1..]);
    }
  }

  /**
   Over any n operations on an empty vector, reallocation moves at most 2n elements in total, and the
   capacity is 256 times a power of two that is at most 512 or below four times the length.
   */
  lemma AmortizedBound(ops: seq<Op>)
    ensures After(EMPTY, ops).moved <= 2 * |ops|
    ensures Fits(After(EMPTY, ops))
  {
    PowerStep(0);
    RunKeeps(EMPTY, ops);
    NextKeeps(After(EMPTY, ops), Pop);
  }

  // ---------------------------------------------------------------- the vector

  class Vector<T(0)> {
    var data: array<T>
    var len: nat
    /** Elements moved by reallocation so far. */
    ghost var moved: nat

    ghost function ShapeOf(): Shape
      reads this
    {
      Shape(len, data.Length, moved)
    }

    ghost predicate Valid()
      reads this
    {
      Fits(ShapeOf())
    }

    /** The abstract value. */
    ghost function Contents(): seq<T>
      reads this, data
      requires Valid()
    {
      data[..len]
    }

    /** `cvector_create`. */
    constructor ()
      ensures Valid() && fresh(data) && Contents() == [] && ShapeOf() == EMPTY
    {
      data := new T[MIN_LEN];
      len, moved := 0, 0;
      PowerStep(0);
    }

    /** `realloc` to another capacity: the elements that fit are moved. */
    method Realloc(tot: nat)
      requires len <= tot && len <= data.Length
      modifies this`data, this`moved
      ensures fresh(data) && data.Length == tot && data[..len] == old(data[..len])
      ensures moved == old(moved) + if tot < old(data.Length) then tot else old(data.Length)
    {
      var n := if tot < data.Length then tot else data.Length;
      var d := new T[tot];
      forall i | 0 <= i < n {
        d[i] := data[i];
      }
      data := d;
      moved := moved + n;
    }

    /** `cvector_pushback`. */
    method PushBack(memb: T) returns (status: Status)
      requires Valid()
      modifies this, data
      ensures Valid() && (data == old(data) || fresh(data))
      ensures status == Success && Contents() == old(Contents()) + [memb]
      ensures ShapeOf() == Next(old(ShapeOf()), Push)
    {
      hide IsCapacity;
      NextKeeps(ShapeOf(), Push);
      if len >= data.Length {
        Realloc(2 * data.Length);
      }
      data[len] := memb;
      len := len + 1;
      return Success;
    }

    /** The capacity test after an element went away. */
    method ShrinkIfSparse()
      requires len <= data.Length
      modifies this`data, this`moved
      ensures data == old(data) || fresh(data)
      ensures ShapeOf() == Shrunk(old(ShapeOf())) && len <= data.Length && data[..len] == old(data[..len])
    {
      if data.Length >= 4 * MIN_LEN && len <= data.Length / 4 {
        Realloc(data.Length / 2);
      }
    }

    /** `cvector_popback`: the newest element, or an error on an empty vector. */
    method PopBack() returns (status: Status, memb: T)
      requires Valid()
      modifies this
      ensures Valid() && (data == old(data) || fresh(data))
      ensures status == if old(len) == 0 then PopBackError else Success
      ensures status == Success ==> old(Contents()) == Contents() + [memb]
      ensures status != Success ==> Contents() == old(Contents())
      ensures ShapeOf() == Next(old(ShapeOf()), Pop)
    {
      hide IsCapacity;
      NextKeeps(ShapeOf(), Pop);
      if len == 0 {
        memb := *;
        return PopBackError, memb;
      }
      len := len - 1;
      memb := data[len];
      assert old(data[..len]) == data[..len] + [memb];
      ShrinkIfSparse();
      status := Success;
    }

    /**
     The copy of `cvector_rm`: all slots behind the removed element move down, and one more is read
     behind them. The result tells whether that one still lies in the buffer.
     */
    method MoveDown(index: nat) returns (inside: bool)
      requires index < len <= data.Length
      modifies data
      ensures data[..len - 1] == Without(old(data[..len]), index)
      ensures inside == (len < data.Length)
    {
      ghost var was := data[..len];
      inside := len < data.Length;
      var beyond: T := if inside then data[len] else data[len - 1];
      forall i | index <= i < len {
        data[i] := if i + 1 < len then data[i + 1] else beyond;
      }
      forall i | 0 <= i < len - 1
        ensures data[i] == Without(was, index)[i]
      {
        assert was[i] == old(data[i]) && was[i + 1] == old(data[i + 1]);
      }
    }

    /**
     `cvector_rm_at` and `cvector_rm`: the following elements move down by one. The copy stays inside
     the buffer exactly when the vector is not full.
     */
    method RemoveAt(index: nat) returns (status: Status, inside: bool)
      requires Valid()
      modifies this, data
      ensures Valid() && (data == old(data) || fresh(data))
      ensures status == if index >= old(len) then Failed else Success
      ensures Contents() == if index >= old(len) then old(Contents()) else Without(old(Contents()), index)
      ensures ShapeOf() == Next(old(ShapeOf()), Remove(index))
      ensures inside <==> index >= old(len) || old(len) < old(data.Length)
    {
      hide IsCapacity;
      NextKeeps(ShapeOf(), Remove(index));
      if index >= len {
        return Failed, true;
      }
      inside := MoveDown(index);
      len := len - 1;
      ShrinkIfSparse();
      status := Success;
    }
  }
}
