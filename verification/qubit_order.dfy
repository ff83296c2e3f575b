/** Qubits and the deterministic qubit orderings used by the core.

    A qubit is modelled by its line index: `LineQubit(x)` is the integer `x`,
    and the ordering `sorted()` uses on qubits is the ordering of integers. */
module QubitOrder {

  type Qubit = int

  /** `LineQubit.range(n)`: the qubits `0, 1, ..., n - 1`, in that order. */
  function LineRange(n: nat): (r: seq<Qubit>)
    ensures |r| == n
    ensures forall i :: 0 <= i < n ==> r[i] == i
    ensures StrictlyIncreasing(r)
  {
    seq(n, i => i)
  }

  /** Sorted and free of duplicates. */
  predicate StrictlyIncreasing(s: seq<Qubit>) {
    forall i, j :: 0 <= i < j < |s| ==> s[i] < s[j]
  }

  /** Every non-empty finite set of qubits has a least element. */
  lemma {:induction false} LeastExists(s: set<Qubit>)
    requires s != {}
    ensures exists m :: m in s && forall y :: y in s ==> m <= y
    decreases |s|
  {
    if forall y :: y !in s {
      assert false;
    }
    var x :| x in s;
    var rest := s - {x};
    assert s == rest + {x};
    if rest != {} {
      LeastExists(rest);
      var m :| m in rest && forall y :: y in rest ==> m <= y;
      if x < m {
        assert forall y :: y in s ==> y == x || y in rest;
      } else {
        assert forall y :: y in s ==> y == x || y in rest;
        assert m in s;
      }
    } else {
      assert s == {x};
    }
  }

  /** The least qubit of a non-empty set. */
  function Least(s: set<Qubit>): (m: Qubit)
    requires s != {}
    ensures m in s
    ensures forall y :: y in s ==> m <= y
  {
    LeastExists(s);
    var m :| m in s && forall y :: y in s ==> m <= y;
    m
  }

  /** `sorted(s)` for a set `s` of qubits: its elements in increasing order. */
  function SortedElements(s: set<Qubit>): (r: seq<Qubit>)
    ensures StrictlyIncreasing(r)
    ensures forall q :: q in r <==> q in s
    ensures |r| == |s|
    decreases |s|
  {
    if s == {} then []
    else
      var m := Least(s);
      var rest := SortedElements(s - {m});
      assert forall q :: q in rest ==> m < q;
      [m] + rest
  }

  /** A sorted duplicate-free sequence is determined by its elements, so the
      sequence `SortedElements` returns is the only possible answer. */
  lemma {:induction false} StrictlyIncreasingUnique(a: seq<Qubit>, b: seq<Qubit>)
    requires StrictlyIncreasing(a) && StrictlyIncreasing(b)
    requires forall q :: q in a <==> q in b
    ensures a == b
    decreases |a|
  {
    assert (a == []) == (b == []) by {
      if a != [] {
        assert a[0] in a;
      }
      if b != [] {
        assert b[0] in b;
      }
    }
    if a != [] {
      assert a[0] == b[0] by {
        assert a[0] in a && b[0] in b;
        assert a[0] in b && b[0] in a;
        assert forall q :: q in b ==> b[0] <= q;
        assert forall q :: q in a ==> a[0] <= q;
      }
      assert forall q :: q in a[1..] <==> q in b[1..] by {
        forall q
          ensures q in a[1..] <==> q in b[1..]
        {
          if q in a[1..] {
            assert q in b && q != b[0];
          }
          if q in b[1..] {
            assert q in a && q != a[0];
          }
        }
      }
      StrictlyIncreasingUnique(a[1..], b[1..]);
      assert a == [a[0]] + a[1..] && b == [b[0]] + b[1..];
    }
  }
}
