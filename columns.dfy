/**
 * The board column sequencer of the Jira client: the distinct states of the
 * active tasks, in first-seen order (`[...new Set(states)]`), sorted stably
 * by the state's position in a fixed column order, with the states the
 * order does not list placed last.
 *
 * The sequencing lemmas are stated for any column order without repeated
 * entries and then applied to the board's own order.
 */
module Columns {
  import opened Seqs
  import opened StableSort
  import opened Tasks

  /** The fixed order of the board's columns. */
  const ColumnOrder: seq<string> := [
    "Backlog",
    "Blocked",
    "In Analysis",
    "To Do",
    "Ready for Engineering",
    "Ready to Start",
    "In Progress",
    "In Validation"
  ]

  lemma ColumnOrderDistinct()
    ensures |ColumnOrder| == 8
    ensures NoDuplicates(ColumnOrder)
  {
  }

  /** The comparator passed to `sort`. */
  function Compare(a: string, b: string): int
  {
    var indexA := IndexOf(ColumnOrder, a);
    var indexB := IndexOf(ColumnOrder, b);
    if indexA == -1 && indexB == -1 then 0
    else if indexA == -1 then 1
    else if indexB == -1 then -1
    else indexA - indexB
  }

  /**
   * The place a state sorts to under a column order: its index in the order,
   * or the order's length for a state the order does not list.
   */
  function RankIn(order: seq<string>, s: string): (k: nat)
    ensures k <= |order|
    ensures k < |order| <==> s in order
    ensures k < |order| ==> order[k] == s
  {
    if order == [] then 0
    else if order[0] == s then 0
    else 1 + RankIn(order[1..], s)
  }

  /** The rank of a listed state is what `indexOf` finds for it; `indexOf` finds nothing for an unlisted one. */
  lemma {:induction false} RankIsIndex(order: seq<string>, s: string)
    ensures s in order ==> IndexOf(order, s) == RankIn(order, s)
    ensures s !in order ==> IndexOf(order, s) == -1
  {
    if order != [] && order[0] != s {
      RankIsIndex(order[1..], s);
    }
  }

  /** `RankIn` as the sort key of a column order. */
  function RankKey(order: seq<string>): string -> nat
  {
    s => RankIn(order, s)
  }

  /**
   * The comparator orders states by rank: it returns a negative number, zero
   * or a positive number exactly when the first state's rank is lower, the
   * same or higher. Sorting with it is therefore the stable sort by rank.
   */
  lemma CompareIsByRank(a: string, b: string)
    ensures Compare(a, b) < 0 <==> RankIn(ColumnOrder, a) < RankIn(ColumnOrder, b)
    ensures Compare(a, b) == 0 <==> RankIn(ColumnOrder, a) == RankIn(ColumnOrder, b)
    ensures Compare(a, b) > 0 <==> RankIn(ColumnOrder, a) > RankIn(ColumnOrder, b)
  {
    RankIsIndex(ColumnOrder, a);
    RankIsIndex(ColumnOrder, b);
  }

  /** In an order without repeated entries, an entry's rank is its index. */
  lemma RankOfEntry(order: seq<string>, i: int)
    requires NoDuplicates(order) && 0 <= i < |order|
    ensures RankIn(order, order[i]) == i
  {
    var k := RankIn(order, order[i]);
    assert order[k] == order[i];
  }

  /** `tasks.map(task => task.state)` */
  function States(tasks: seq<Task>): (r: seq<string>)
    ensures |r| == |tasks|
    ensures forall i :: 0 <= i < |tasks| ==> r[i] == tasks[i].state
  {
    if tasks == [] then [] else [tasks[0].state] + States(tasks[1..])
  }

  /**
   * `[...new Set(xs)]`: each element once, in the order of its first
   * occurrence in `xs`.
   */
  function Distinct(xs: seq<string>): (r: seq<string>)
    ensures NoDuplicates(r)
    ensures forall x :: x in r <==> x in xs
    ensures forall i, j :: 0 <= i < j < |r| ==> IndexOf(xs, r[i]) < IndexOf(xs, r[j])
  {
    if xs == [] then []
    else
      var init := xs[..|xs| - 1];
      var x := xs[|xs| - 1];
      var d := Distinct(init);
      assert xs == init + [x];
      if x in d then
        DistinctKeep(init, x, d);
        d
      else
        DistinctAdd(init, x, d);
        d + [x]
  }

  /** The first indices of the distinct elements do not change when an element is appended to the input. */
  lemma DistinctIndices(init: seq<string>, x: string, d: seq<string>)
    requires forall y :: y in d ==> y in init
    ensures forall i :: 0 <= i < |d| ==> IndexOf(init + [x], d[i]) == IndexOf(init, d[i])
  {
    forall i | 0 <= i < |d| ensures IndexOf(init + [x], d[i]) == IndexOf(init, d[i]) {
      IndexOfSnoc(init, x, d[i]);
    }
  }

  /** An element already in the `Set` leaves it unchanged. */
  lemma DistinctKeep(init: seq<string>, x: string, d: seq<string>)
    requires forall y :: y in d <==> y in init
    requires forall i, j :: 0 <= i < j < |d| ==> IndexOf(init, d[i]) < IndexOf(init, d[j])
    requires x in d
    ensures forall y :: y in d <==> y in init + [x]
    ensures forall i, j :: 0 <= i < j < |d| ==> IndexOf(init + [x], d[i]) < IndexOf(init + [x], d[j])
  {
    DistinctIndices(init, x, d);
  }

  /** A new element is added to the `Set` at the end. */
  lemma DistinctAdd(init: seq<string>, x: string, d: seq<string>)
    requires NoDuplicates(d)
    requires forall y :: y in d <==> y in init
    requires forall i, j :: 0 <= i < j < |d| ==> IndexOf(init, d[i]) < IndexOf(init, d[j])
    requires x !in d
    ensures NoDuplicates(d + [x])
    ensures forall y :: y in d + [x] <==> y in init + [x]
    ensures forall i, j :: 0 <= i < j < |d + [x]| ==> IndexOf(init + [x], (d + [x])[i]) < IndexOf(init + [x], (d + [x])[j])
  {
    DistinctIndices(init, x, d);
    IndexOfSnoc(init, x, x);
    var r := d + [x];
    forall i, j | 0 <= i < j < |r| ensures IndexOf(init + [x], r[i]) < IndexOf(init + [x], r[j]) {
      assert r[i] == d[i];
      if j < |d| {
        assert r[j] == d[j];
      }
    }
  }

  /** The column sequence for the given task states: the distinct states, sorted stably with `Compare`. */
  function SequenceColumns(states: seq<string>): seq<string>
  {
    Sort(Distinct(states), RankKey(ColumnOrder))
  }

  /** `columnIds`: the column sequence of the active tasks. */
  function ColumnIds(tasks: seq<Task>): seq<string>
  {
    SequenceColumns(States(tasks))
  }

  /** The entries of `order` from index `j` on that some state names, in their order. */
  function PresentFrom(order: seq<string>, j: nat, states: seq<string>): seq<string>
    decreases |order| - j
  {
    if j >= |order| then []
    else (if order[j] in states then [order[j]] else []) + PresentFrom(order, j + 1, states)
  }

  /**
   * The entries of `order` from index `j` on that some state names: exactly
   * those, with strictly increasing ranks from `j` on.
   */
  lemma PresentFromSpec(order: seq<string>, j: nat, states: seq<string>)
    requires NoDuplicates(order)
    ensures var p := PresentFrom(order, j, states);
      forall x :: x in p <==> x in states && j <= RankIn(order, x) < |order|
    ensures var p := PresentFrom(order, j, states);
      forall i :: 0 <= i < |p| ==> j <= RankIn(order, p[i]) < |order|
    ensures var p := PresentFrom(order, j, states);
      forall i, i' :: 0 <= i < i' < |p| ==> RankIn(order, p[i]) < RankIn(order, p[i'])
  {
    PresentFromMembers(order, j, states);
    PresentFromRanks(order, j, states);
  }

  /** A state is among the entries present from `j` on exactly when it is a state ranked `j` or later. */
  lemma {:induction false} PresentFromMembers(order: seq<string>, j: nat, states: seq<string>)
    requires NoDuplicates(order)
    ensures forall x :: x in PresentFrom(order, j, states) <==> x in states && j <= RankIn(order, x) < |order|
    decreases |order| - j
  {
    if j < |order| {
      PresentFromMembers(order, j + 1, states);
      RankOfEntry(order, j);
      var rest := PresentFrom(order, j + 1, states);
      var p := PresentFrom(order, j, states);
      if order[j] in states {
        assert p == [order[j]] + rest;
      } else {
        assert p == rest;
      }
      forall x ensures x in p <==> x in states && j <= RankIn(order, x) < |order| {
        if RankIn(order, x) == j {
          assert x == order[j];
        }
      }
    }
  }

  /** The entries of `p` have ranks in `order` from `j` on, strictly increasing. */
  predicate RanksFrom(order: seq<string>, j: nat, p: seq<string>)
  {
    (forall i :: 0 <= i < |p| ==> j <= RankIn(order, p[i]) < |order|) &&
    (forall i, i' :: 0 <= i < i' < |p| ==> RankIn(order, p[i]) < RankIn(order, p[i']))
  }

  /** The entries present from `j` on have ranks from `j` on, strictly increasing. */
  lemma {:induction false} PresentFromRanks(order: seq<string>, j: nat, states: seq<string>)
    requires NoDuplicates(order)
    ensures RanksFrom(order, j, PresentFrom(order, j, states))
    decreases |order| - j
  {
    if j < |order| {
      var rest := PresentFrom(order, j + 1, states);
      PresentFromRanks(order, j + 1, states);
      if order[j] in states {
        PresentFromCons(order, j, states, rest);
      } else {
        assert PresentFrom(order, j, states) == rest;
      }
    }
  }

  /** When the j-th entry is present it comes first, ahead of the entries present after it. */
  lemma PresentFromCons(order: seq<string>, j: nat, states: seq<string>, rest: seq<string>)
    requires NoDuplicates(order) && j < |order| && order[j] in states
    requires rest == PresentFrom(order, j + 1, states)
    requires RanksFrom(order, j + 1, rest)
    ensures RanksFrom(order, j, PresentFrom(order, j, states))
  {
    var p := PresentFrom(order, j, states);
    assert p == [order[j]] + rest;
    RankOfEntry(order, j);
    forall i | 0 < i < |p| ensures p[i] == rest[i - 1] {
    }
  }

  /** Every entry present is an entry of the order. */
  lemma {:induction false} PresentListed(order: seq<string>, j: nat, states: seq<string>)
    ensures forall i :: 0 <= i < |PresentFrom(order, j, states)| ==> PresentFrom(order, j, states)[i] in order
    decreases |order| - j
  {
    if j < |order| {
      PresentListed(order, j + 1, states);
    }
  }

  /** The only entry of rank `k` is the k-th one. */
  lemma {:induction false} PresentFromWithRank(order: seq<string>, j: nat, states: seq<string>, k: nat)
    requires NoDuplicates(order) && k < |order|
    ensures WithKey(PresentFrom(order, j, states), RankKey(order), k)
         == if j <= k && order[k] in states then [order[k]] else []
    decreases |order| - j
  {
    if j < |order| {
      var key := RankKey(order);
      var rest := PresentFrom(order, j + 1, states);
      PresentFromWithRank(order, j + 1, states, k);
      if order[j] in states {
        assert PresentFrom(order, j, states) == [order[j]] + rest;
        WithKeyAppend([order[j]], rest, key, k);
        RankOfEntry(order, j);
        assert WithKey([order[j]], key, k) == if j == k then [order[j]] else [];
      } else {
        assert PresentFrom(order, j, states) == rest;
      }
    }
  }

  /** In a sequence without duplicates, the elements of rank `k < |order|` are the k-th entry, if it occurs. */
  lemma {:induction false} DistinctWithRank(order: seq<string>, s: seq<string>, k: nat)
    requires NoDuplicates(order) && NoDuplicates(s) && k < |order|
    ensures WithKey(s, RankKey(order), k) == if order[k] in s then [order[k]] else []
  {
    if s != [] {
      assert NoDuplicates(s[1..]);
      DistinctWithRank(order, s[1..], k);
      RankOfEntry(order, k);
      assert s == [s[0]] + s[1..];
      assert s[0] == order[k] ==> order[k] !in s[1..];
    }
  }

  /**
   * The reference definition of the column sequence: the entries of the
   * order that some state names, in the order's order, followed by the
   * states the order does not list, in the order in which they first occur.
   */
  function ReferenceColumns(order: seq<string>, states: seq<string>): seq<string>
  {
    PresentFrom(order, 0, states) + WithKey(Distinct(states), RankKey(order), |order|)
  }

  /** The reference columns are sorted by rank and hold, for each rank, what the distinct states hold. */
  lemma {:induction false} ReferenceIsStableSorted(order: seq<string>, states: seq<string>)
    requires NoDuplicates(order)
    ensures SortedBy(ReferenceColumns(order, states), RankKey(order))
    ensures forall k :: WithKey(ReferenceColumns(order, states), RankKey(order), k)
                     == WithKey(Distinct(states), RankKey(order), k)
  {
    var key := RankKey(order);
    var d := Distinct(states);
    var p := PresentFrom(order, 0, states);
    var u := WithKey(d, key, |order|);
    PresentFromSpec(order, 0, states);
    WithKeyMembers(d, key, |order|);
    assert forall i :: 0 <= i < |u| ==> key(u[i]) == |order| by {
      forall i | 0 <= i < |u| ensures key(u[i]) == |order| {
        assert u[i] in u;
      }
    }
    SortedAppend(p, u, key);
    forall k: nat ensures WithKey(p + u, key, k) == WithKey(d, key, k) {
      WithKeyAppend(p, u, key, k);
      if k < |order| {
        WithKeyNone(u, key, k);
        PresentFromWithRank(order, 0, states, k);
        DistinctWithRank(order, d, k);
      } else if k == |order| {
        WithKeyNone(p, key, k);
        WithKeyAll(u, key, k);
      } else {
        WithKeyNone(p, key, k);
        WithKeyNone(u, key, k);
        WithKeyNone(d, key, k);
      }
    }
  }

  /** Sorting the distinct states stably by rank yields exactly the reference column sequence. */
  lemma {:induction false} SortIsReference(order: seq<string>, states: seq<string>)
    requires NoDuplicates(order)
    ensures Sort(Distinct(states), RankKey(order)) == ReferenceColumns(order, states)
  {
    ReferenceIsStableSorted(order, states);
    SortedUnique(Sort(Distinct(states), RankKey(order)), ReferenceColumns(order, states), RankKey(order));
  }

  /** The reference columns hold no state twice and exactly the states that occur. */
  lemma {:induction false} ReferenceMembers(order: seq<string>, states: seq<string>)
    requires NoDuplicates(order)
    ensures NoDuplicates(ReferenceColumns(order, states))
    ensures forall s :: s in ReferenceColumns(order, states) <==> s in states
  {
    var key := RankKey(order);
    var d := Distinct(states);
    var p := PresentFrom(order, 0, states);
    var u := WithKey(d, key, |order|);
    var r := p + u;
    PresentFromSpec(order, 0, states);
    WithKeyMembers(d, key, |order|);
    forall i, j | 0 <= i < j < |r| ensures r[i] != r[j] {
      if j < |p| {
        assert RankIn(order, p[i]) < RankIn(order, p[j]);
      } else if i >= |p| {
        assert r[i] == u[i - |p|] && r[j] == u[j - |p|];
      } else {
        assert r[i] == p[i] && r[j] == u[j - |p|];
        assert r[j] in u;
      }
    }
    forall s ensures s in r <==> s in states {
      assert s in r <==> s in p || s in u;
    }
  }

  /** In the reference columns the listed columns come first, in the order's order. */
  lemma {:induction false} ReferenceListedFirst(order: seq<string>, states: seq<string>)
    requires NoDuplicates(order)
    ensures var r := ReferenceColumns(order, states);
      forall i, j :: 0 <= i < |r| && 0 <= j < |r| && r[i] in order && r[j] !in order ==> i < j
    ensures var r := ReferenceColumns(order, states);
      forall i, j :: 0 <= i < j < |r| && r[i] in order && r[j] in order ==>
        IndexOf(order, r[i]) < IndexOf(order, r[j])
  {
    var key := RankKey(order);
    var d := Distinct(states);
    var p := PresentFrom(order, 0, states);
    var u := WithKey(d, key, |order|);
    var r := p + u;
    PresentFromSpec(order, 0, states);
    WithKeyMembers(d, key, |order|);
    forall i | |p| <= i < |r| ensures r[i] !in order {
      assert r[i] == u[i - |p|] && r[i] in u;
    }
    forall i, j | 0 <= i < j < |r| && r[i] in order && r[j] in order
      ensures IndexOf(order, r[i]) < IndexOf(order, r[j])
    {
      assert r[i] == p[i] && r[j] == p[j];
      RankIsIndex(order, r[i]);
      RankIsIndex(order, r[j]);
    }
  }

  /** The index of a state's first occurrence in `states`, as a function. */
  function FirstSeen(states: seq<string>): string -> int
  {
    x => IndexOf(states, x)
  }

  /** The unlisted states, selected from the distinct states, keep their first-seen order. */
  lemma UnlistedInFirstSeenOrder(order: seq<string>, states: seq<string>)
    ensures IncreasingBy(WithKey(Distinct(states), RankKey(order), |order|), FirstSeen(states))
  {
    assert IncreasingBy(Distinct(states), FirstSeen(states));
    WithKeyKeepsOrder(Distinct(states), RankKey(order), |order|, FirstSeen(states));
  }

  /** In the reference columns the unlisted states keep the order in which they first occur. */
  lemma ReferenceUnlistedOrder(order: seq<string>, states: seq<string>)
    requires NoDuplicates(order)
    ensures var r := ReferenceColumns(order, states);
      forall i, j :: 0 <= i < j < |r| && r[i] !in order && r[j] !in order ==>
        IndexOf(states, r[i]) < IndexOf(states, r[j])
  {
    var p := PresentFrom(order, 0, states);
    var u := WithKey(Distinct(states), RankKey(order), |order|);
    PresentListed(order, 0, states);
    UnlistedInFirstSeenOrder(order, states);
    assert forall i, j :: 0 <= i < j < |u| ==> IndexOf(states, u[i]) < IndexOf(states, u[j]) by {
      forall i, j | 0 <= i < j < |u| ensures IndexOf(states, u[i]) < IndexOf(states, u[j]) {
        assert FirstSeen(states)(u[i]) < FirstSeen(states)(u[j]);
      }
    }
    ListedThenFirstSeen(p, u, order, states);
  }

  /**
   * After a prefix of listed states, states in first-seen order stay in
   * first-seen order among the unlisted states of the whole.
   */
  lemma ListedThenFirstSeen(p: seq<string>, u: seq<string>, order: seq<string>, states: seq<string>)
    requires forall i :: 0 <= i < |p| ==> p[i] in order
    requires forall i, j :: 0 <= i < j < |u| ==> IndexOf(states, u[i]) < IndexOf(states, u[j])
    ensures var r := p + u;
      forall i, j :: 0 <= i < j < |r| && r[i] !in order && r[j] !in order ==>
        IndexOf(states, r[i]) < IndexOf(states, r[j])
  {
    var r := p + u;
    forall i, j | 0 <= i < j < |r| && r[i] !in order && r[j] !in order
      ensures IndexOf(states, r[i]) < IndexOf(states, r[j])
    {
      if |p| <= i {
        assert r[i] == u[i - |p|] && r[j] == u[j - |p|];
      }
    }
  }

  /** The board's column sequence is the reference sequence for its column order. */
  lemma SequenceColumnsIsReference(states: seq<string>)
    ensures SequenceColumns(states) == ReferenceColumns(ColumnOrder, states)
  {
    ColumnOrderDistinct();
    SortIsReference(ColumnOrder, states);
  }

  /**
   * The column sequence of some task states has no state twice, holds exactly
   * the states that occur, puts every listed column before every unlisted
   * state, lists the listed columns in column order and the unlisted states
   * in the order in which they first occur.
   */
  lemma SequenceColumnsProperties(states: seq<string>)
    ensures NoDuplicates(SequenceColumns(states))
    ensures forall s :: s in SequenceColumns(states) <==> s in states
    ensures var r := SequenceColumns(states);
      forall i, j :: 0 <= i < |r| && 0 <= j < |r| && r[i] in ColumnOrder && r[j] !in ColumnOrder ==> i < j
    ensures var r := SequenceColumns(states);
      forall i, j :: 0 <= i < j < |r| && r[i] in ColumnOrder && r[j] in ColumnOrder ==>
        IndexOf(ColumnOrder, r[i]) < IndexOf(ColumnOrder, r[j])
    ensures var r := SequenceColumns(states);
      forall i, j :: 0 <= i < j < |r| && r[i] !in ColumnOrder && r[j] !in ColumnOrder ==>
        IndexOf(states, r[i]) < IndexOf(states, r[j])
  {
    SequenceColumnsIsReference(states);
    ColumnOrderDistinct();
    ReferenceMembers(ColumnOrder, states);
    ReferenceListedFirst(ColumnOrder, states);
    ReferenceUnlistedOrder(ColumnOrder, states);
  }

  /** A sequence without repeated elements is its own distinct sequence. */
  lemma {:induction false} DistinctUnchanged(xs: seq<string>)
    requires NoDuplicates(xs)
    ensures Distinct(xs) == xs
  {
    if xs != [] {
      var init := xs[..|xs| - 1];
      NoDuplicatesInit(xs);
      DistinctUnchanged(init);
      DistinctSnocNew(init, xs[|xs| - 1]);
      assert xs == init + [xs[|xs| - 1]];
    }
  }

  /** A new element goes to the end of the `Set`. */
  lemma DistinctSnocNew(init: seq<string>, x: string)
    requires x !in init
    ensures Distinct(init + [x]) == Distinct(init) + [x]
  {
    var xs := init + [x];
    assert xs[..|xs| - 1] == init;
  }


  /** The columns of some tasks are their states, each once. */
  lemma ColumnIdsStates(tasks: seq<Task>)
    ensures NoDuplicates(ColumnIds(tasks))
    ensures forall c :: c in ColumnIds(tasks) <==> exists t :: t in tasks && t.state == c
  {
    var states := States(tasks);
    SequenceColumnsProperties(states);
    forall c ensures c in states <==> exists t :: t in tasks && t.state == c {
      if c in states {
        var i :| 0 <= i < |states| && states[i] == c;
        assert tasks[i] in tasks && tasks[i].state == c;
      }
      if exists t :: t in tasks && t.state == c {
        var t :| t in tasks && t.state == c;
        var i :| 0 <= i < |tasks| && tasks[i] == t;
        assert states[i] == c;
      }
    }
  }

  /**
   * With the priority order `a`, `b`, `c` and the states `c`, `b`, `u` (`u`
   * unlisted), the columns are `b`, `c`, `u`: the listed states by priority,
   * the unlisted one after them.
   */
  lemma SortExample(a: string, b: string, c: string, u: string)
    requires a != b && a != c && b != c && u != a && u != b && u != c
    ensures Sort(Distinct([c, b, u]), RankKey([a, b, c])) == [b, c, u]
  {
    ExampleColumns([a, b, c], [c, b, u]);
  }

  /** Three distinct priorities `a`, `b`, `c`, and the states `c`, `b` and one unlisted state. */
  predicate ExampleShape(order: seq<string>, states: seq<string>)
  {
    |order| == 3 && |states| == 3
    && order[0] != order[1] && order[0] != order[2] && order[1] != order[2]
    && states[0] == order[2] && states[1] == order[1] && states[2] !in order
  }

  /** The example's column sequence, for any order and states of its shape. */
  lemma ExampleColumns(order: seq<string>, states: seq<string>)
    requires ExampleShape(order, states)
    ensures Sort(Distinct(states), RankKey(order)) == [order[1], order[2], states[2]]
  {
    assert NoDuplicates(order);
    ExampleReference(order, states);
    SortIsReference(order, states);
  }

  /** The example's reference columns: the two listed states by priority, then the unlisted one. */
  lemma ExampleReference(order: seq<string>, states: seq<string>)
    requires ExampleShape(order, states)
    ensures ReferenceColumns(order, states) == [order[1], order[2], states[2]]
  {
    ExampleDistinct(order, states);
    ExamplePresent(order, states);
    ExampleUnlisted(order, states);
    assert ReferenceColumns(order, states) == [order[1], order[2]] + [states[2]];
  }

  /** The example's states are already distinct. */
  lemma ExampleDistinct(order: seq<string>, states: seq<string>)
    requires ExampleShape(order, states)
    ensures Distinct(states) == states
  {
    assert states[2] != states[0] && states[2] != states[1];
    assert NoDuplicates(states);
    DistinctUnchanged(states);
  }

  /** Of the order, the example's states name the second and third entries. */
  lemma ExamplePresent(order: seq<string>, states: seq<string>)
    requires ExampleShape(order, states)
    ensures PresentFrom(order, 0, states) == [order[1], order[2]]
  {
    assert PresentFrom(order, 3, states) == [];
    assert PresentFrom(order, 2, states) == [order[2]];
    assert PresentFrom(order, 1, states) == [order[1], order[2]];
  }

  /** The only unlisted state of the example is its third. */
  lemma ExampleUnlisted(order: seq<string>, states: seq<string>)
    requires ExampleShape(order, states)
    ensures WithKey(states, RankKey(order), 3) == [states[2]]
  {
    assert NoDuplicates(order);
    var key := RankKey(order);
    RankOfEntry(order, 1);
    RankOfEntry(order, 2);
    assert key(states[0]) == 2 && key(states[1]) == 1;
    assert key(states[2]) == 3;
    assert states == states[..2] + [states[2]];
    WithKeyAppend(states[..2], [states[2]], key, 3);
    WithKeyNone(states[..2], key, 3);
    WithKeyAll([states[2]], key, 3);
  }

  /**
   * Under the priority order "Backlog", "To Do", "In Progress", the states
   * "In Progress", "To Do", "Unknown" become the columns "To Do",
   * "In Progress", "Unknown".
   */
  lemma SortExampleStates()
    ensures Sort(Distinct(["In Progress", "To Do", "Unknown"]), RankKey(["Backlog", "To Do", "In Progress"]))
      == ["To Do", "In Progress", "Unknown"]
  {
    SortExample("Backlog", "To Do", "In Progress", "Unknown");
  }
}
