/** Finite rectangles of cells and their sizes. */
module CellSets {
  import opened Arithmetic

  ghost function Interval(a: int, b: int): (s: set<int>)
    ensures forall x :: x in s <==> a <= x < b
    decreases b - a
  {
    if a >= b then {} else Interval(a, b - 1) + {b - 1}
  }

  ghost function Cross<T>(a: set<T>, b: set<T>): (s: set<(T, T)>) {
    set x, y | x in a && y in b :: (x, y)
  }

  lemma {:induction false} IntervalSize(a: int, b: int)
    requires a <= b
    ensures |Interval(a, b)| == b - a
    decreases b - a
  {
    if a < b {
      IntervalSize(a, b - 1);
    }
  }

  lemma {:induction false} CrossOne<T>(x: T, b: set<T>)
    ensures |Cross({x}, b)| == |b|
  {
    if b == {} {
      assert Cross({x}, b) == {};
    } else {
      var y :| y in b;
      CrossOne(x, b - {y});
      assert Cross({x}, b) == Cross({x}, b - {y}) + {(x, y)};
    }
  }

  lemma CrossSplit<T>(a: set<T>, b: set<T>, x: T)
    requires x in a
    ensures Cross(a, b) == Cross(a - {x}, b) + Cross({x}, b) && Cross(a - {x}, b) !! Cross({x}, b)
  {
  }

  lemma SizeWithout<T>(a: set<T>, x: T)
    requires x in a
    ensures |a| == |a - {x}| + 1
  {
  }

  /** A rectangle has as many cells as its sides say. */
  lemma {:induction false} CrossSize<T>(a: set<T>, b: set<T>)
    ensures |Cross(a, b)| == |a| * |b|
  {
    if a == {} {
      assert Cross(a, b) == {};
    } else {
      var x :| x in a;
      var rest := a - {x};
      CrossSize(rest, b);
      CrossOne(x, b);
      CrossSplit(a, b, x);
      hide Cross;
      UnionSize(Cross(rest, b), Cross({x}, b));
      DistributeRight(|rest|, 1, |b|);
      SizeWithout(a, x);
    }
  }

  lemma UnionSize<T>(a: set<T>, b: set<T>)
    requires a !! b
    ensures |a + b| == |a| + |b|
  {
  }

}
