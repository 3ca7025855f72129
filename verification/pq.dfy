/** The `PriorityQueue` of `ucs` and `a_star`: entries are `(priority, path)` tuples and
    `get` removes the least one in Python's tuple order, which compares priorities and
    then paths, lists and strings alike lexicographically. */
module PriorityQueue {
  import opened Graph

  type Entry = (int, seq<Node>)

  /** Python's `<` on strings: by code point, a proper prefix first. */
  predicate StrLess(a: string, b: string) {
    |b| > 0 && (|a| == 0 || a[0] < b[0] || (a[0] == b[0] && StrLess(a[1..], b[1..])))
  }

  /** Python's `<` on lists of strings. */
  predicate ListLess(a: seq<string>, b: seq<string>) {
    |b| > 0 && (|a| == 0 || StrLess(a[0], b[0]) || (a[0] == b[0] && ListLess(a[1..], b[1..])))
  }

  /** Python's `<` on `(priority, path)` tuples. */
  predicate EntryLess(x: Entry, y: Entry) {
    x.0 < y.0 || (x.0 == y.0 && ListLess(x.1, y.1))
  }

  lemma {:induction false} StrLessIrreflexive(a: string)
    ensures !StrLess(a, a)
  {
    if |a| > 0 {
      StrLessIrreflexive(a[1..]);
    }
  }

  lemma {:induction false} StrLessTransitive(a: string, b: string, c: string)
    requires StrLess(a, b) && StrLess(b, c)
    ensures StrLess(a, c)
  {
    if |a| > 0 && a[0] == b[0] && b[0] == c[0] {
      StrLessTransitive(a[1..], b[1..], c[1..]);
    }
  }

  lemma {:induction false} StrLessTotal(a: string, b: string)
    ensures a == b || StrLess(a, b) || StrLess(b, a)
  {
    if |a| > 0 && |b| > 0 && a[0] == b[0] {
      StrLessTotal(a[1..], b[1..]);
      if a[1..] == b[1..] {
        assert a == [a[0]] + a[1..] && b == [b[0]] + b[1..];
      }
    }
  }

  lemma {:induction false} ListLessIrreflexive(a: seq<string>)
    ensures !ListLess(a, a)
  {
    if |a| > 0 {
      StrLessIrreflexive(a[0]);
      ListLessIrreflexive(a[1..]);
    }
  }

  lemma {:induction false} ListLessTransitive(a: seq<string>, b: seq<string>, c: seq<string>)
    requires ListLess(a, b) && ListLess(b, c)
    ensures ListLess(a, c)
  {
    if |a| > 0 {
      if StrLess(a[0], b[0]) && StrLess(b[0], c[0]) {
        StrLessTransitive(a[0], b[0], c[0]);
      } else if a[0] == b[0] && b[0] == c[0] {
        ListLessTransitive(a[1..], b[1..], c[1..]);
      }
    }
  }

  lemma {:induction false} ListLessTotal(a: seq<string>, b: seq<string>)
    ensures a == b || ListLess(a, b) || ListLess(b, a)
  {
    if |a| > 0 && |b| > 0 {
      StrLessTotal(a[0], b[0]);
      if a[0] == b[0] {
        ListLessTotal(a[1..], b[1..]);
        if a[1..] == b[1..] {
          assert a == [a[0]] + a[1..] && b == [b[0]] + b[1..];
        }
      }
    }
  }

  /** Tuple order is a strict total order: irreflexive, transitive, and any two
      different entries are ordered one way or the other. */
  lemma EntryLessStrictTotal(x: Entry, y: Entry, z: Entry)
    ensures !EntryLess(x, x)
    ensures EntryLess(x, y) && EntryLess(y, z) ==> EntryLess(x, z)
    ensures x == y || EntryLess(x, y) || EntryLess(y, x)
  {
    ListLessIrreflexive(x.1);
    ListLessTotal(x.1, y.1);
    if EntryLess(x, y) && EntryLess(y, z) && x.0 == y.0 && y.0 == z.0 {
      ListLessTransitive(x.1, y.1, z.1);
    }
  }

  /** `q.get()`: the position of the least entry; every other entry is equal to it or
      greater. */
  method PopMin(q: seq<Entry>) returns (k: nat)
    requires |q| > 0
    ensures k < |q| && forall i :: 0 <= i < |q| ==> q[i] == q[k] || EntryLess(q[k], q[i])
  {
    k := 0;
    var i := 1;
    EntryLessStrictTotal(q[0], q[0], q[0]);
    while i < |q|
      invariant 1 <= i <= |q| && k < i
      invariant forall j :: 0 <= j < i ==> !EntryLess(q[j], q[k])
    {
      if EntryLess(q[i], q[k]) {
        forall j | 0 <= j < i
          ensures !EntryLess(q[j], q[i])
        {
          EntryLessStrictTotal(q[j], q[i], q[k]);
        }
        EntryLessStrictTotal(q[i], q[i], q[i]);
        k := i;
      }
      i := i + 1;
    }
    forall j | 0 <= j < |q|
      ensures q[j] == q[k] || EntryLess(q[k], q[j])
    {
      EntryLessStrictTotal(q[j], q[k], q[k]);
    }
  }

  /** The least entry has the least priority. */
  lemma LeastHasLeastPriority(q: seq<Entry>, k: nat)
    requires k < |q| && forall i :: 0 <= i < |q| ==> q[i] == q[k] || EntryLess(q[k], q[i])
    ensures forall i :: 0 <= i < |q| ==> q[k].0 <= q[i].0
  {
  }

  /** The paths of the entries, in queue order. */
  function Paths(q: seq<Entry>): (ps: seq<seq<Node>>)
    ensures |ps| == |q| && forall i :: 0 <= i < |q| ==> ps[i] == q[i].1
  {
    seq(|q|, i requires 0 <= i < |q| => q[i].1)
  }

  /** The queue without position `k`. */
  function RemoveAt(q: seq<Entry>, k: nat): (rest: seq<Entry>)
    requires k < |q|
    ensures |rest| == |q| - 1
    ensures forall i :: 0 <= i < k ==> rest[i] == q[i]
    ensures forall i :: k <= i < |rest| ==> rest[i] == q[i + 1]
  {
    q[..k] + q[k + 1..]
  }
}
