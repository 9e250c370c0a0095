/**
 How the `DataOperator` tree hands out storage ids: a node's own data first, then its children's trees one
 after the other. Any tree of this shape, then what `iterate` visits in it.
 */
module Layout {
  import Bits

  /** A device class: how many data it declares, and how many copies of which child class it has. */
  datatype Level =
    | Leaf(count: nat)
    | Branch(count: nat, subCount: nat, sub: Level)

  function DataCount(l: Level): nat {
    match l
    case Leaf(count) => count
    case Branch(count, subCount, sub) => count + subCount * DataCount(sub)
  }

  /** Storage offset of the i-th child of a node at `offset`. */
  function SubOffset(l: Level, offset: nat, i: nat): nat
    requires l.Branch?
  {
    offset + l.count + i * DataCount(l.sub)
  }

  function Range(start: nat, n: nat): seq<nat> {
    seq(n, i => start + i)
  }

  /** Every id in the order `init_storage_info` assigns them. */
  function AllIds(l: Level, offset: nat): seq<nat>
    decreases l, 1
  {
    match l
    case Leaf(count) => Range(offset, count)
    case Branch(count, subCount, _) => Range(offset, count) + SubIds(l, offset, subCount)
  }

  function SubIds(l: Level, offset: nat, n: nat): seq<nat>
    requires l.Branch?
    decreases l, 0, n
  {
    if n == 0 then [] else SubIds(l, offset, n - 1) + AllIds(l.sub, SubOffset(l, offset, n - 1))
  }

  lemma RangeConcat(start: nat, n: nat, m: nat)
    ensures Range(start, n) + Range(start + n, m) == Range(start, n + m)
  {
  }

  lemma NoIds(start: nat)
    ensures Range(start, 0) == []
  {
  }

  /** The ranges of all nodes tile [offset, offset + data_count) in order, without gap or overlap. */
  lemma {:induction false} IdsTile(l: Level, offset: nat)
    ensures AllIds(l, offset) == Range(offset, DataCount(l))
    decreases l, 1
  {
    if l.Branch? {
      SubIdsTile(l, offset, l.subCount);
      RangeConcat(offset, l.count, l.subCount * DataCount(l.sub));
    }
  }

  lemma {:induction false} SubIdsTile(l: Level, offset: nat, n: nat)
    requires l.Branch?
    ensures SubIds(l, offset, n) == Range(offset + l.count, n * DataCount(l.sub))
    decreases l, 0, n
  {
    hide DataCount, Range, AllIds;
    var d := DataCount(l.sub);
    if n > 0 {
      SubIdsTile(l, offset, n - 1);
      IdsTile(l.sub, SubOffset(l, offset, n - 1));
      Bits.MulMonotone(0, n - 1, d);
      Bits.LessOne(n, d);
      RangeConcat(offset + l.count, (n - 1) * d, d);
    } else {
      NoIds(offset + l.count);
    }
  }

  // ---------------------------------------------------------------- addresses

  /** A datum by the path of child numbers to its node and its number among the node's data. */
  datatype Address = Address(path: seq<nat>, index: nat)

  ghost predicate Exists(l: Level, a: Address)
    decreases |a.path|
  {
    if a.path == [] then a.index < l.count
    else l.Branch? && a.path[0] < l.subCount && Exists(l.sub, Address(a.path[1..], a.index))
  }

  /** The storage id the nested `sub` calls arrive at. */
  function IdOf(l: Level, offset: nat, a: Address): nat
    requires Exists(l, a)
    decreases |a.path|
  {
    if a.path == [] then offset + a.index
    else IdOf(l.sub, SubOffset(l, offset, a.path[0]), Address(a.path[1..], a.index))
  }

  lemma ChildFits(l: Level, i: nat)
    requires l.Branch? && i < l.subCount
    ensures l.count + i * DataCount(l.sub) + DataCount(l.sub) <= DataCount(l)
  {
    Bits.MulMonotone(i + 1, l.subCount, DataCount(l.sub));
    assert (i + 1) * DataCount(l.sub) == i * DataCount(l.sub) + DataCount(l.sub);
  }

  lemma {:induction false} IdInRange(l: Level, offset: nat, a: Address)
    requires Exists(l, a)
    ensures offset <= IdOf(l, offset, a) < offset + DataCount(l)
    decreases |a.path|
  {
    if a.path != [] {
      IdInRange(l.sub, SubOffset(l, offset, a.path[0]), Address(a.path[1..], a.index));
      ChildFits(l, a.path[0]);
    } else if l.Branch? {
      Bits.MulMonotone(0, l.subCount, DataCount(l.sub));
    }
  }

  lemma PositiveFactor(a: nat, b: nat)
    requires a * b > 0
    ensures b > 0
  {
  }

  /** Every id of the tree belongs to a datum. */
  lemma {:induction false} EveryIdAddressed(l: Level, offset: nat, id: nat) returns (a: Address)
    requires offset <= id < offset + DataCount(l)
    ensures Exists(l, a) && IdOf(l, offset, a) == id
    decreases l
  {
    if id < offset + l.count {
      a := Address([], id - offset);
    } else {
      var d, rest := DataCount(l.sub), id - offset - l.count;
      PositiveFactor(l.subCount, d);
      var i := rest / d;
      assert rest == i * d + rest % d;
      assert i < l.subCount by { Bits.MulMonotone(l.subCount, i, d); }
      var b := EveryIdAddressed(l.sub, SubOffset(l, offset, i), id);
      a := Address([i] + b.path, b.index);
      assert a.path[1..] == b.path;
    }
  }

  /** No two data share an id. */
  lemma {:induction false} IdsInjective(l: Level, offset: nat, a: Address, b: Address)
    requires Exists(l, a) && Exists(l, b) && IdOf(l, offset, a) == IdOf(l, offset, b)
    ensures a == b
    decreases |a.path|
  {
    if a.path == [] || b.path == [] {
      BelowChildren(l, offset, a);
      BelowChildren(l, offset, b);
    } else {
      var a', b' := Address(a.path[1..], a.index), Address(b.path[1..], b.index);
      IdInRange(l.sub, SubOffset(l, offset, a.path[0]), a');
      IdInRange(l.sub, SubOffset(l, offset, b.path[0]), b');
      SameChild(a.path[0], b.path[0], DataCount(l.sub), IdOf(l, offset, a) - offset - l.count);
      IdsInjective(l.sub, SubOffset(l, offset, a.path[0]), a', b');
      assert a.path == [a.path[0]] + a'.path && b.path == [b.path[0]] + b'.path;
    }
  }

  lemma BelowChildren(l: Level, offset: nat, a: Address)
    requires Exists(l, a)
    ensures IdOf(l, offset, a) < offset + l.count <==> a.path == []
  {
    if a.path != [] {
      IdInRange(l.sub, SubOffset(l, offset, a.path[0]), Address(a.path[1..], a.index));
      Bits.MulMonotone(0, a.path[0], DataCount(l.sub));
    }
  }

  lemma SameChild(i: nat, j: nat, d: nat, at: int)
    requires i * d <= at < i * d + d && j * d <= at < j * d + d
    ensures i == j
  {
    Bits.MulMonotone(i + 1, j, d);
    Bits.MulMonotone(j + 1, i, d);
    assert (i + 1) * d == i * d + d && (j + 1) * d == j * d + d;
  }

  // ---------------------------------------------------------------- iterate

  /** The ids `iterate<Data>` calls back with, for the datum with this number at this depth. */
  function Visited(l: Level, offset: nat, depth: nat, index: nat): seq<nat>
    decreases l, 1
  {
    if depth == 0 then [offset + index]
    else if l.Leaf? then []
    else VisitedIn(l, offset, depth, index, l.subCount)
  }

  function VisitedIn(l: Level, offset: nat, depth: nat, index: nat, n: nat): seq<nat>
    requires l.Branch? && depth > 0
    decreases l, 0, n
  {
    if n == 0 then []
    else VisitedIn(l, offset, depth, index, n - 1) + Visited(l.sub, SubOffset(l, offset, n - 1), depth - 1, index)
  }

  /** `iterate` as the loop and recursion it is. */
  method Iterate(l: Level, offset: nat, depth: nat, index: nat) returns (ids: seq<nat>)
    ensures ids == Visited(l, offset, depth, index)
    decreases l
  {
    if depth == 0 {
      return [offset + index];
    }
    ids := [];
    if l.Branch? {
      for i := 0 to l.subCount
        invariant ids == VisitedIn(l, offset, depth, index, i)
      {
        var more := Iterate(l.sub, SubOffset(l, offset, i), depth - 1, index);
        ids := ids + more;
      }
    }
  }

  ghost predicate Increasing(s: seq<nat>) {
    forall i, j :: 0 <= i < j < |s| ==> s[i] < s[j]
  }

  ghost predicate Between(s: seq<nat>, low: nat, high: nat) {
    forall i :: 0 <= i < |s| ==> low <= s[i] < high
  }

  /** The depth holds a datum with this number. */
  ghost predicate Declares(l: Level, depth: nat, index: nat)
    decreases depth
  {
    if depth == 0 then index < l.count else l.Branch? && Declares(l.sub, depth - 1, index)
  }

  lemma {:induction false} VisitedIncreasing(l: Level, offset: nat, depth: nat, index: nat)
    requires Declares(l, depth, index)
    ensures Increasing(Visited(l, offset, depth, index))
    ensures Between(Visited(l, offset, depth, index), offset, offset + DataCount(l))
    decreases l, 1
  {
    if depth > 0 {
      VisitedInIncreasing(l, offset, depth, index, l.subCount);
    } else if l.Branch? {
      Bits.MulMonotone(0, l.subCount, DataCount(l.sub));
    }
  }

  lemma {:induction false} VisitedInIncreasing(l: Level, offset: nat, depth: nat, index: nat, n: nat)
    requires l.Branch? && depth > 0 && Declares(l, depth, index)
    ensures Increasing(VisitedIn(l, offset, depth, index, n))
    ensures Between(VisitedIn(l, offset, depth, index, n), offset + l.count, offset + l.count + n * DataCount(l.sub))
    decreases l, 0, n
  {
    if n > 0 {
      VisitedInIncreasing(l, offset, depth, index, n - 1);
      VisitedIncreasing(l.sub, SubOffset(l, offset, n - 1), depth - 1, index);
      var d := DataCount(l.sub);
      Bits.LessOne(n, d);
      Bits.MulMonotone(0, n - 1, d);
      hide DataCount, Increasing, Between, Declares;
      IncreasingConcat(VisitedIn(l, offset, depth, index, n - 1),
                       Visited(l.sub, SubOffset(l, offset, n - 1), depth - 1, index),
                       offset + l.count, offset + l.count + (n - 1) * d, offset + l.count + n * d);
    }
  }

  lemma IncreasingConcat(s: seq<nat>, t: seq<nat>, low: nat, mid: nat, high: nat)
    requires Increasing(s) && Increasing(t) && Between(s, low, mid) && Between(t, mid, high) && low <= mid <= high
    ensures Increasing(s + t) && Between(s + t, low, high)
  {
  }

  /** Everything visited is that datum of some node at that depth. */
  lemma {:induction false} VisitedIsDatum(l: Level, offset: nat, depth: nat, index: nat, id: nat) returns (a: Address)
    requires Declares(l, depth, index) && id in Visited(l, offset, depth, index)
    ensures |a.path| == depth && a.index == index && Exists(l, a) && IdOf(l, offset, a) == id
    decreases l, 1
  {
    if depth == 0 {
      a := Address([], index);
    } else {
      var i, b := VisitedInIsDatum(l, offset, depth, index, l.subCount, id);
      a := Address([i] + b.path, index);
      assert a.path[1..] == b.path;
    }
  }

  lemma {:induction false} VisitedInIsDatum(l: Level, offset: nat, depth: nat, index: nat, n: nat, id: nat)
    returns (i: nat, b: Address)
    requires l.Branch? && depth > 0 && Declares(l, depth, index) && n <= l.subCount
    requires id in VisitedIn(l, offset, depth, index, n)
    ensures i < n && |b.path| == depth - 1 && b.index == index
    ensures Exists(l.sub, b) && IdOf(l.sub, SubOffset(l, offset, i), b) == id
    decreases l, 0, n
  {
    if id in VisitedIn(l, offset, depth, index, n - 1) {
      i, b := VisitedInIsDatum(l, offset, depth, index, n - 1, id);
    } else {
      i := n - 1;
      b := VisitedIsDatum(l.sub, SubOffset(l, offset, i), depth - 1, index, id);
    }
  }

  /** And every such datum is visited. */
  lemma {:induction false} DatumIsVisited(l: Level, offset: nat, a: Address)
    requires Exists(l, a)
    ensures Declares(l, |a.path|, a.index) && IdOf(l, offset, a) in Visited(l, offset, |a.path|, a.index)
    decreases |a.path|
  {
    if a.path != [] {
      DatumIsVisited(l.sub, SubOffset(l, offset, a.path[0]), Address(a.path[1..], a.index));
      ChildVisited(l, offset, |a.path|, a.index, a.path[0], l.subCount, IdOf(l, offset, a));
    }
  }

  lemma {:induction false} ChildVisited(l: Level, offset: nat, depth: nat, index: nat, i: nat, n: nat, id: nat)
    requires l.Branch? && depth > 0 && i < n
    requires id in Visited(l.sub, SubOffset(l, offset, i), depth - 1, index)
    ensures id in VisitedIn(l, offset, depth, index, n)
    decreases n
  {
    if i < n - 1 { ChildVisited(l, offset, depth, index, i, n - 1, id); }
  }

  /** `iterate<Data>` visits each id of that datum exactly once, in increasing order, and nothing else. */
  lemma IterateVisitsOnce(l: Level, offset: nat, depth: nat, index: nat)
    requires Declares(l, depth, index)
    ensures var ids := Visited(l, offset, depth, index);
      && Increasing(ids)
      && forall a :: Exists(l, a) ==> (IdOf(l, offset, a) in ids <==> |a.path| == depth && a.index == index)
  {
    VisitedIncreasing(l, offset, depth, index);
    var ids := Visited(l, offset, depth, index);
    hide Visited;
    forall a | Exists(l, a)
      ensures IdOf(l, offset, a) in ids <==> |a.path| == depth && a.index == index
    {
      if IdOf(l, offset, a) in ids {
        var b := VisitedIsDatum(l, offset, depth, index, IdOf(l, offset, a));
        IdsInjective(l, offset, a, b);
      } else {
        DatumIsVisited(l, offset, a);
      }
    }
  }
}
