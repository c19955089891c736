/**
 * Feature classes as the orchestrator sees them: the identity of a class
 * together with the side and priority its `@Feature` annotation declares,
 * and the stable ordering by priority that `Mod.run` applies to them.
 */
module FeatureTypes {

  /** The execution side a feature belongs to. */
  datatype Side = Common | Client | Server

  /**
   * A feature class. Reflection and the annotation are replaced by the data
   * they provide: the class's name (its identity), its side and its priority.
   */
  datatype FeatureType = FeatureType(name: string, side: Side, priority: int)

  /** Lower priorities come first. */
  ghost predicate SortedByPriority(s: seq<FeatureType>)
  {
    forall i, j :: 0 <= i < j < |s| ==> s[i].priority <= s[j].priority
  }

  /** The classes of `s` that have priority `p`, in the order of `s`. */
  function WithPriority(s: seq<FeatureType>, p: int): seq<FeatureType>
  {
    if s == [] then []
    else (if s[0].priority == p then [s[0]] else []) + WithPriority(s[1..], p)
  }

  /**
   * Puts `c` in front of the first class whose priority is not lower than
   * its own, so that `c` stays ahead of the classes of equal priority.
   */
  function InsertByPriority(c: FeatureType, s: seq<FeatureType>): (r: seq<FeatureType>)
    requires SortedByPriority(s)
    ensures SortedByPriority(r)
    ensures multiset(r) == multiset(s) + multiset{c}
    ensures forall p :: WithPriority(r, p) == (if c.priority == p then [c] else []) + WithPriority(s, p)
  {
    if s == [] || c.priority <= s[0].priority then
      ConsSorted(c, s);
      WithPriorityCons(c, s);
      [c] + s
    else
      var rest := InsertByPriority(c, s[1..]);
      LowerBound(s, c, rest);
      ConsSorted(s[0], rest);
      InsertStable(c, s[0], s[1..], rest);
      assert s == [s[0]] + s[1..];
      [s[0]] + rest
  }

  /**
   * The order `classes.sort(Comparator.comparing(priority))` leaves a list
   * in: sorted by priority, a permutation of its input, and stable, that is
   * the classes of any one priority keep the order in which they were added.
   */
  function SortByPriority(s: seq<FeatureType>): (r: seq<FeatureType>)
    ensures SortedByPriority(r)
    ensures multiset(r) == multiset(s)
    ensures forall p :: WithPriority(r, p) == WithPriority(s, p)
  {
    if s == [] then []
    else
      assert s == [s[0]] + s[1..];
      WithPriorityCons(s[0], s[1..]);
      InsertByPriority(s[0], SortByPriority(s[1..]))
  }

  /**
   * Sortedness and stability together fix the order completely: an
   * arrangement that is sorted and keeps every priority's classes in the
   * same order as another sorted one is that one.
   */
  lemma {:induction false} StableSortIsUnique(a: seq<FeatureType>, b: seq<FeatureType>)
    requires SortedByPriority(a) && SortedByPriority(b)
    requires forall p :: WithPriority(a, p) == WithPriority(b, p)
    ensures a == b
  {
    if a == [] && b == [] {
    } else if a == [] {
      LeadingPriorityPresent(b);
      assert false;
    } else if b == [] {
      LeadingPriorityPresent(a);
      assert false;
    } else {
      MinimumFirst(a, b);
      assert a == [a[0]] + a[1..] && b == [b[0]] + b[1..];
      WithPriorityCons(a[0], a[1..]);
      WithPriorityCons(b[0], b[1..]);
      SortedTail(a);
      SortedTail(b);
      assert forall q :: WithPriority(a[1..], q) == WithPriority(b[1..], q) by {
        forall q ensures WithPriority(a[1..], q) == WithPriority(b[1..], q) {
          var front := if a[0].priority == q then [a[0]] else [];
          assert WithPriority(a, q) == front + WithPriority(a[1..], q);
          assert WithPriority(b, q) == front + WithPriority(b[1..], q);
          assert WithPriority(a[1..], q) == WithPriority(a, q)[|front|..];
        }
      }
      StableSortIsUnique(a[1..], b[1..]);
    }
  }

  /** `SortByPriority` is the only sorted, stable arrangement of `s`. */
  lemma SortByPriorityIsUnique(s: seq<FeatureType>, r: seq<FeatureType>)
    requires SortedByPriority(r)
    requires forall p :: WithPriority(r, p) == WithPriority(s, p)
    ensures r == SortByPriority(s)
  {
    StableSortIsUnique(r, SortByPriority(s));
  }

  /** `WithPriority` of a sequence with one class in front. */
  lemma WithPriorityCons(x: FeatureType, s: seq<FeatureType>)
    ensures forall p :: WithPriority([x] + s, p) == (if x.priority == p then [x] else []) + WithPriority(s, p)
  {
    assert ([x] + s)[1..] == s;
  }

  /** Placing `x` in front commutes with inserting a class of another priority. */
  lemma InsertStable(c: FeatureType, x: FeatureType, s: seq<FeatureType>, rest: seq<FeatureType>)
    requires x.priority != c.priority
    requires forall p :: WithPriority(rest, p) == (if c.priority == p then [c] else []) + WithPriority(s, p)
    ensures forall p :: WithPriority([x] + rest, p) == (if c.priority == p then [c] else []) + WithPriority([x] + s, p)
  {
    forall p ensures WithPriority([x] + rest, p) == (if c.priority == p then [c] else []) + WithPriority([x] + s, p) {
      if x.priority == p {
        InsertStableAtFront(c, x, s, rest);
      } else if c.priority == p {
        InsertStableAtInserted(c, x, s, rest);
      } else {
        InsertStableElsewhere(c, x, s, rest, p);
      }
    }
  }

  /** For the priority of `x`, both sides start with `x`. */
  lemma InsertStableAtFront(c: FeatureType, x: FeatureType, s: seq<FeatureType>, rest: seq<FeatureType>)
    requires x.priority != c.priority
    requires WithPriority(rest, x.priority) == WithPriority(s, x.priority)
    ensures WithPriority([x] + rest, x.priority) == WithPriority([x] + s, x.priority)
  {
    assert ([x] + rest)[1..] == rest && ([x] + s)[1..] == s;
  }

  /** For the priority of `c`, `x` is passed over on both sides. */
  lemma InsertStableAtInserted(c: FeatureType, x: FeatureType, s: seq<FeatureType>, rest: seq<FeatureType>)
    requires x.priority != c.priority
    requires WithPriority(rest, c.priority) == [c] + WithPriority(s, c.priority)
    ensures WithPriority([x] + rest, c.priority) == [c] + WithPriority([x] + s, c.priority)
  {
    assert ([x] + rest)[1..] == rest && ([x] + s)[1..] == s;
    assert WithPriority([x] + s, c.priority) == WithPriority(s, c.priority);
  }

  /** For any other priority, neither `x` nor `c` is selected. */
  lemma InsertStableElsewhere(c: FeatureType, x: FeatureType, s: seq<FeatureType>, rest: seq<FeatureType>, p: int)
    requires x.priority != p && c.priority != p
    requires WithPriority(rest, p) == WithPriority(s, p)
    ensures WithPriority([x] + rest, p) == WithPriority([x] + s, p)
  {
    assert ([x] + rest)[1..] == rest && ([x] + s)[1..] == s;
  }

  /** What `InsertByPriority` moves `c` past has a priority lower than `c`'s. */
  lemma LowerBound(s: seq<FeatureType>, c: FeatureType, rest: seq<FeatureType>)
    requires s != [] && SortedByPriority(s) && s[0].priority < c.priority
    requires multiset(rest) == multiset(s[1..]) + multiset{c}
    ensures forall k :: 0 <= k < |rest| ==> s[0].priority <= rest[k].priority
  {
    forall k | 0 <= k < |rest| ensures s[0].priority <= rest[k].priority {
      assert rest[k] in multiset(rest);
      if rest[k] != c {
        assert rest[k] in s[1..];
      }
    }
  }

  /** A class no later than anything in a sorted sequence can go in front of it. */
  lemma ConsSorted(x: FeatureType, s: seq<FeatureType>)
    requires SortedByPriority(s)
    requires forall k :: 0 <= k < |s| ==> x.priority <= s[k].priority
    ensures SortedByPriority([x] + s)
  {
    var r := [x] + s;
    forall i, j | 0 <= i < j < |r| ensures r[i].priority <= r[j].priority {
      if i == 0 { assert r[j] == s[j - 1]; } else { assert r[i] == s[i - 1] && r[j] == s[j - 1]; }
    }
  }

  lemma SortedTail(s: seq<FeatureType>)
    requires s != [] && SortedByPriority(s)
    ensures SortedByPriority(s[1..])
  {
    forall i, j | 0 <= i < j < |s| - 1 ensures s[1..][i].priority <= s[1..][j].priority {
      assert s[1..][i] == s[i + 1] && s[1..][j] == s[j + 1];
    }
  }

  /** A non-empty sequence has classes of its first class's priority. */
  lemma LeadingPriorityPresent(s: seq<FeatureType>)
    requires s != []
    ensures WithPriority(s, s[0].priority) != []
  {
  }

  /** `WithPriority` keeps every class of the priority it selects. */
  lemma {:induction false} WithPriorityHas(s: seq<FeatureType>, i: nat)
    requires i < |s|
    ensures s[i] in WithPriority(s, s[i].priority)
  {
    if i > 0 {
      WithPriorityHas(s[1..], i - 1);
      assert s[1..][i - 1] == s[i];
    }
  }

  /** A class that `WithPriority` selects is in the sequence and has that priority. */
  lemma {:induction false} WithPriorityFrom(s: seq<FeatureType>, p: int, c: FeatureType)
    requires c in WithPriority(s, p)
    ensures c in s && c.priority == p
  {
    if s != [] && !(s[0].priority == p && c == s[0]) {
      WithPriorityFrom(s[1..], p, c);
    }
  }

  /** The first class of a sorted sequence has the lowest priority in it. */
  lemma LeastFirst(s: seq<FeatureType>, c: FeatureType)
    requires SortedByPriority(s) && c in s
    ensures s[0].priority <= c.priority
  {
    var j :| 0 <= j < |s| && s[j] == c;
    if j > 0 {
      assert s[0].priority <= s[j].priority;
    }
  }

  /** Two sorted arrangements with the same classes per priority start with the same class. */
  lemma MinimumFirst(a: seq<FeatureType>, b: seq<FeatureType>)
    requires a != [] && b != []
    requires SortedByPriority(a) && SortedByPriority(b)
    requires forall p :: WithPriority(a, p) == WithPriority(b, p)
    ensures a[0] == b[0]
  {
    var p, q := a[0].priority, b[0].priority;
    WithPriorityHas(a, 0);
    assert WithPriority(a, p) == WithPriority(b, p);
    WithPriorityFrom(b, p, a[0]);
    LeastFirst(b, a[0]);
    WithPriorityHas(b, 0);
    assert WithPriority(a, q) == WithPriority(b, q);
    WithPriorityFrom(a, q, b[0]);
    LeastFirst(a, b[0]);
    assert WithPriority(a, p)[0] == a[0];
    assert WithPriority(b, p)[0] == b[0];
  }

}
