/**
 * The to-do list box as a sequence of strings, and what `add_task`,
 * `complete_task` and `delete_task` leave in it, defined without reference
 * to the order in which the handlers visit the selection. The class in
 * module Pomodoro runs the handlers' own loops and is proved to end in
 * these results.
 */
module TaskList {
  import opened Options

  /** The text `complete_task` puts before a finished task. */
  const CompletedPrefix := "[Completed] "

  function Mark(task: string): string {
    CompletedPrefix + task
  }

  /** What the list box's `curselection()` gives: strictly increasing indices of existing rows. */
  predicate ValidSelection(sel: seq<nat>, n: nat) {
    (forall i, j :: 0 <= i < j < |sel| ==> sel[i] < sel[j]) &&
    (forall i :: 0 <= i < |sel| ==> sel[i] < n)
  }

  function Selected(sel: seq<nat>): set<nat> {
    set k | k in sel
  }

  /** The list box's `delete(i)` of one row. */
  function RemoveAt<T>(xs: seq<T>, i: nat): (r: seq<T>)
    requires i < |xs|
    ensures |r| == |xs| - 1
  {
    xs[..i] + xs[i + 1..]
  }

  /** The elements of `xs`, whose first sits at index `base`, that are not at an index in `drop`. */
  function Keep<T>(xs: seq<T>, drop: set<nat>, base: nat): seq<T>
    decreases |xs|
  {
    if xs == [] then []
    else (if base in drop then [] else [xs[0]]) + Keep(xs[1..], drop, base + 1)
  }

  /** The rows whose index is not selected, in their original order. */
  function Unselected<T>(xs: seq<T>, sel: seq<nat>): seq<T> {
    Keep(xs, Selected(sel), 0)
  }

  /** The marked texts of the selected rows, the highest index first. */
  function MarkedDescending(xs: seq<string>, sel: seq<nat>): seq<string>
    requires forall i :: 0 <= i < |sel| ==> sel[i] < |xs|
  {
    if sel == [] then [] else MarkedDescending(xs, sel[1..]) + [Mark(xs[sel[0]])]
  }

  /** The list after `add_task` with the dialog's answer (`None` when cancelled). */
  function AfterAdd(xs: seq<string>, task: Option<string>): seq<string> {
    if task.Some? && task.value != "" then xs + [task.value] else xs
  }

  /** The list after `complete_task`. */
  function AfterComplete(xs: seq<string>, sel: seq<nat>): seq<string>
    requires ValidSelection(sel, |xs|)
  {
    Unselected(xs, sel) + MarkedDescending(xs, sel)
  }

  /** The list after `delete_task`. */
  function AfterDelete<T>(xs: seq<T>, sel: seq<nat>): seq<T> {
    Unselected(xs, sel)
  }

  // ---------------------------------------------------------------------
  // Keep

  lemma {:induction false} KeepAppend<T>(a: seq<T>, b: seq<T>, drop: set<nat>, base: nat)
    ensures Keep(a + b, drop, base) == Keep(a, drop, base) + Keep(b, drop, base + |a|)
    decreases |a|
  {
    if a != [] {
      assert (a + b)[1..] == a[1..] + b;
      KeepAppend(a[1..], b, drop, base + 1);
    } else {
      assert a + b == b;
    }
  }

  lemma {:induction false} KeepNothingDropped<T>(a: seq<T>, drop: set<nat>, base: nat)
    requires forall i: nat :: base <= i < base + |a| ==> i !in drop
    ensures Keep(a, drop, base) == a
    decreases |a|
  {
    if a != [] {
      KeepNothingDropped(a[1..], drop, base + 1);
    }
  }

  lemma {:induction false} KeepSameDrop<T>(a: seq<T>, d: set<nat>, e: set<nat>, base: nat)
    requires forall i: nat :: base <= i < base + |a| ==> (i in d <==> i in e)
    ensures Keep(a, d, base) == Keep(a, e, base)
    decreases |a|
  {
    if a != [] {
      KeepSameDrop(a[1..], d, e, base + 1);
    }
  }

  /**
   * Dropping one more index `p`, below every index already dropped, is the
   * list box's `delete(p)` on what is kept: the rows before `p` have not moved.
   */
  lemma KeepDropOneMore<T>(xs: seq<T>, drop: set<nat>, p: nat)
    requires p < |xs| && forall d :: d in drop ==> p < d
    ensures p < |Keep(xs, drop, 0)| && Keep(xs, drop, 0)[p] == xs[p]
    ensures Keep(xs, drop + {p}, 0) == RemoveAt(Keep(xs, drop, 0), p)
  {
    var pre, rest := xs[..p], xs[p + 1..];
    assert xs == pre + ([xs[p]] + rest);
    KeepAppend(pre, [xs[p]] + rest, drop, 0);
    KeepAppend(pre, [xs[p]] + rest, drop + {p}, 0);
    KeepNothingDropped(pre, drop, 0);
    KeepNothingDropped(pre, drop + {p}, 0);
    assert ([xs[p]] + rest)[1..] == rest;
    KeepSameDrop(rest, drop, drop + {p}, p + 1);
    var kept := Keep(rest, drop, p + 1);
    assert Keep(xs, drop, 0) == pre + ([xs[p]] + kept);
    assert Keep(xs, drop + {p}, 0) == pre + kept;
  }

  /** `x` is kept exactly when it sits at some index that is not dropped. */
  lemma {:induction false} KeepMembers<T>(xs: seq<T>, drop: set<nat>, base: nat, x: T)
    ensures x in Keep(xs, drop, base) <==>
      exists j :: 0 <= j < |xs| && base + j !in drop && xs[j] == x
    decreases |xs|
  {
    if xs != [] {
      var tail := xs[1..];
      var kept := Keep(tail, drop, base + 1);
      KeepMembers(tail, drop, base + 1, x);
      assert Keep(xs, drop, base) == (if base in drop then [] else [xs[0]]) + kept;
      if x in kept {
        var j :| 0 <= j < |tail| && base + 1 + j !in drop && tail[j] == x;
        assert base + (j + 1) !in drop && xs[j + 1] == x;
      }
      if exists j :: 0 <= j < |xs| && base + j !in drop && xs[j] == x {
        var j :| 0 <= j < |xs| && base + j !in drop && xs[j] == x;
        if j > 0 {
          assert base + 1 + (j - 1) !in drop && tail[j - 1] == x;
        }
      }
    }
  }

  /** The indices `base`, `base + 1`, ..., `base + n - 1`. */
  function Indices(base: nat, n: nat): (r: seq<nat>)
    ensures |r| == n && forall k :: 0 <= k < n ==> r[k] == base + k
  {
    seq(n, k => base + k)
  }

  /** The indices among `base`, ..., `base + n - 1` that `drop` misses, in order. */
  function KeptIndices(base: nat, n: nat, drop: set<nat>): seq<nat> {
    Keep(Indices(base, n), drop, base)
  }

  /** Unfolding `KeptIndices` once. */
  lemma KeptIndicesCons(base: nat, n: nat, drop: set<nat>)
    requires n > 0
    ensures KeptIndices(base, n, drop) ==
      (if base in drop then [] else [base]) + KeptIndices(base + 1, n - 1, drop)
  {
    var all := Indices(base, n);
    assert all[0] == base && all[1..] == Indices(base + 1, n - 1);
  }

  /** The kept indices stay within range. */
  lemma {:induction false} KeptIndicesInRange(base: nat, n: nat, drop: set<nat>)
    ensures forall k :: 0 <= k < |KeptIndices(base, n, drop)| ==>
      base <= KeptIndices(base, n, drop)[k] < base + n
    decreases n
  {
    if n > 0 {
      KeptIndicesCons(base, n, drop);
      KeptIndicesInRange(base + 1, n - 1, drop);
      var rest := KeptIndices(base + 1, n - 1, drop);
      var ix := KeptIndices(base, n, drop);
      if base !in drop {
        forall k | 0 < k < |ix|
          ensures base < ix[k] < base + n
        {
          assert ix[k] == rest[k - 1];
        }
      }
    }
  }

  /** The kept indices come in increasing order. */
  lemma {:induction false} KeptIndicesIncrease(base: nat, n: nat, drop: set<nat>)
    ensures forall i, j :: 0 <= i < j < |KeptIndices(base, n, drop)| ==>
      KeptIndices(base, n, drop)[i] < KeptIndices(base, n, drop)[j]
    decreases n
  {
    if n > 0 {
      KeptIndicesCons(base, n, drop);
      KeptIndicesIncrease(base + 1, n - 1, drop);
      KeptIndicesInRange(base + 1, n - 1, drop);
      var rest := KeptIndices(base + 1, n - 1, drop);
      var ix := KeptIndices(base, n, drop);
      if base !in drop {
        forall i, j | 0 <= i < j < |ix|
          ensures ix[i] < ix[j]
        {
          assert ix[j] == rest[j - 1];
          if i > 0 {
            assert ix[i] == rest[i - 1];
          }
        }
      }
    }
  }

  /** As many indices are kept as rows. */
  lemma {:induction false} KeptIndicesLength<T>(xs: seq<T>, drop: set<nat>, base: nat)
    ensures |KeptIndices(base, |xs|, drop)| == |Keep(xs, drop, base)|
    decreases |xs|
  {
    if xs != [] {
      assert Indices(base, |xs|)[1..] == Indices(base + 1, |xs[1..]|);
      KeptIndicesLength(xs[1..], drop, base + 1);
    }
  }

  /**
   * Keeping from `xs` is keeping from its indices and then looking the rows
   * up: the `k`-th kept row is the row at the `k`-th kept index.
   */
  lemma {:induction false} KeptRowAt<T>(xs: seq<T>, drop: set<nat>, base: nat, k: nat)
    requires k < |Keep(xs, drop, base)|
    ensures k < |KeptIndices(base, |xs|, drop)|
    ensures base <= KeptIndices(base, |xs|, drop)[k] < base + |xs|
    ensures Keep(xs, drop, base)[k] == xs[KeptIndices(base, |xs|, drop)[k] - base]
    decreases |xs|
  {
    KeptIndicesLength(xs, drop, base);
    KeptIndicesInRange(base, |xs|, drop);
    KeptIndicesCons(base, |xs|, drop);
    var rest := KeptIndices(base + 1, |xs[1..]|, drop);
    var kept := Keep(xs[1..], drop, base + 1);
    if base in drop {
      KeptRowAt(xs[1..], drop, base + 1, k);
      assert kept[k] == xs[1..][rest[k] - (base + 1)];
    } else if k > 0 {
      KeptRowAt(xs[1..], drop, base + 1, k - 1);
      assert kept[k - 1] == xs[1..][rest[k - 1] - (base + 1)];
    }
  }

  // ---------------------------------------------------------------------
  // The selection, first index peeled off

  /**
   * The step both loops rely on: removing the lowest selected row `sel[0]`
   * from what is left once the higher ones are gone hits the right row.
   */
  lemma UnselectedStep<T>(xs: seq<T>, sel: seq<nat>)
    requires ValidSelection(sel, |xs|) && sel != []
    ensures sel[0] < |Unselected(xs, sel[1..])|
    ensures Unselected(xs, sel[1..])[sel[0]] == xs[sel[0]]
    ensures Unselected(xs, sel) == RemoveAt(Unselected(xs, sel[1..]), sel[0])
  {
    var higher := Selected(sel[1..]);
    forall d | d in higher
      ensures sel[0] < d
    {
      var k :| 0 <= k < |sel[1..]| && sel[1..][k] == d;
      assert sel[k + 1] == d;
    }
    assert Selected(sel) == higher + {sel[0]} by {
      forall d | d in Selected(sel)
        ensures d in higher + {sel[0]}
      {
        var k :| 0 <= k < |sel| && sel[k] == d;
        if k > 0 {
          assert sel[1..][k - 1] == d;
        }
      }
    }
    KeepDropOneMore(xs, higher, sel[0]);
  }

  /** With nothing selected every row stays. */
  lemma UnselectedNone<T>(xs: seq<T>)
    ensures Unselected(xs, []) == xs
  {
    assert Selected([]) == {};
    KeepNothingDropped(xs, {}, 0);
  }

  /** Deleting the selected rows shortens the list by the size of the selection. */
  lemma {:induction false} UnselectedLength<T>(xs: seq<T>, sel: seq<nat>)
    requires ValidSelection(sel, |xs|)
    ensures |Unselected(xs, sel)| == |xs| - |sel|
    decreases |sel|
  {
    if sel == [] {
      UnselectedNone(xs);
    } else {
      assert ValidSelection(sel[1..], |xs|);
      UnselectedLength(xs, sel[1..]);
      UnselectedStep(xs, sel);
    }
  }

  /** The unselected indices, in increasing order. */
  function UnselectedIndices(n: nat, sel: seq<nat>): seq<nat> {
    KeptIndices(0, n, Selected(sel))
  }

  /**
   * The rows left after removing the selection, as an index map: an
   * increasing enumeration of exactly the unselected indices, and the
   * `k`-th row left is the row at the `k`-th of them.
   */
  lemma UnselectedIndexMap<T>(xs: seq<T>, sel: seq<nat>)
    ensures var ix, r := UnselectedIndices(|xs|, sel), Unselected(xs, sel);
      |ix| == |r| &&
      (forall i, j :: 0 <= i < j < |ix| ==> ix[i] < ix[j]) &&
      (forall j: nat :: j < |xs| ==> (j in ix <==> j !in sel)) &&
      (forall k :: 0 <= k < |ix| ==> ix[k] < |xs| && r[k] == xs[ix[k]])
  {
    var ix := UnselectedIndices(|xs|, sel);
    KeptIndicesIncrease(0, |xs|, Selected(sel));
    KeptIndicesInRange(0, |xs|, Selected(sel));
    KeptIndicesLength(xs, Selected(sel), 0);
    forall k | 0 <= k < |ix|
      ensures ix[k] < |xs| && Unselected(xs, sel)[k] == xs[ix[k]]
    {
      KeptRowAt(xs, Selected(sel), 0, k);
    }
    forall j: nat | j < |xs|
      ensures j in ix <==> j !in sel
    {
      KeepMembers<nat>(Indices(0, |xs|), Selected(sel), 0, j);
      if j !in sel {
        assert Indices(0, |xs|)[j] == j;
      }
    }
  }

  /** A row survives deletion exactly when it is at an unselected index. */
  lemma UnselectedMembers<T>(xs: seq<T>, sel: seq<nat>, x: T)
    ensures x in Unselected(xs, sel) <==>
      exists j :: 0 <= j < |xs| && j !in sel && xs[j] == x
  {
    KeepMembers(xs, Selected(sel), 0, x);
  }

  /** The `k`-th marked text belongs to the `k`-th selected row counted from the top index down. */
  lemma {:induction false} MarkedDescendingAt(xs: seq<string>, sel: seq<nat>, k: nat)
    requires forall i :: 0 <= i < |sel| ==> sel[i] < |xs|
    requires k < |sel|
    ensures |MarkedDescending(xs, sel)| == |sel|
    ensures MarkedDescending(xs, sel)[k] == Mark(xs[sel[|sel| - 1 - k]])
    decreases |sel|
  {
    if k < |sel| - 1 {
      MarkedDescendingAt(xs, sel[1..], k);
    } else if |sel| > 1 {
      MarkedDescendingAt(xs, sel[1..], 0);
    }
  }

  // ---------------------------------------------------------------------
  // The three handlers

  /** Adding appends a non-empty answer and ignores an empty or cancelled one. */
  lemma AddEffect(xs: seq<string>, task: Option<string>)
    ensures task.Some? && task.value != "" ==> AfterAdd(xs, task) == xs + [task.value]
    ensures task.None? || task.value == "" ==> AfterAdd(xs, task) == xs
  {
  }

  /**
   * Completing keeps the length, keeps the unselected rows in order at the
   * front and puts the marked selected rows behind them, highest index first.
   */
  lemma CompleteEffect(xs: seq<string>, sel: seq<nat>)
    requires ValidSelection(sel, |xs|)
    ensures var r, ix := AfterComplete(xs, sel), UnselectedIndices(|xs|, sel);
      |sel| <= |xs| && |r| == |xs| && |ix| == |xs| - |sel| &&
      (forall i, j :: 0 <= i < j < |ix| ==> ix[i] < ix[j]) &&
      (forall j: nat :: j < |xs| ==> (j in ix <==> j !in sel)) &&
      (forall k :: 0 <= k < |ix| ==> ix[k] < |xs| && r[k] == xs[ix[k]]) &&
      forall j :: |xs| - |sel| <= j < |xs| ==> r[j] == Mark(xs[sel[|xs| - 1 - j]])
  {
    UnselectedLength(xs, sel);
    UnselectedIndexMap(xs, sel);
    var r := AfterComplete(xs, sel);
    var u := Unselected(xs, sel);
    if sel != [] {
      MarkedDescendingAt(xs, sel, 0);
    }
    assert r[..|u|] == u;
    forall j | |xs| - |sel| <= j < |xs|
      ensures r[j] == Mark(xs[sel[|xs| - 1 - j]])
    {
      MarkedDescendingAt(xs, sel, j - |u|);
    }
  }

  /**
   * Deleting shortens the list by the size of the selection and leaves
   * exactly the rows at the unselected indices, in their original order.
   */
  lemma DeleteEffect<T>(xs: seq<T>, sel: seq<nat>, x: T)
    requires ValidSelection(sel, |xs|)
    ensures |AfterDelete(xs, sel)| == |xs| - |sel|
    ensures var r, ix := AfterDelete(xs, sel), UnselectedIndices(|xs|, sel);
      |ix| == |r| &&
      (forall i, j :: 0 <= i < j < |ix| ==> ix[i] < ix[j]) &&
      (forall j: nat :: j < |xs| ==> (j in ix <==> j !in sel)) &&
      (forall k :: 0 <= k < |ix| ==> ix[k] < |xs| && r[k] == xs[ix[k]])
    ensures x in AfterDelete(xs, sel) <==> exists j :: 0 <= j < |xs| && j !in sel && xs[j] == x
  {
    UnselectedLength(xs, sel);
    UnselectedIndexMap(xs, sel);
    UnselectedMembers(xs, sel, x);
  }

  /** Three tasks added, the first and last deleted: only the middle one is left. */
  lemma DeleteExample()
    ensures AfterDelete(["A", "B", "C"], [0, 2]) == ["B"]
  {
    var xs, sel := ["A", "B", "C"], [0, 2];
    assert ValidSelection(sel, 3);
    UnselectedStep(xs, sel);
    UnselectedStep(xs, sel[1..]);
    assert sel[1..][1..] == [];
    UnselectedNone(xs);
  }

  /** One task added and completed: a single row that reads as completed. */
  lemma CompleteExample()
    ensures AfterComplete(AfterAdd([], Some("Buy milk")), [0]) == ["[Completed] Buy milk"]
  {
    var xs := AfterAdd([], Some("Buy milk"));
    assert xs == ["Buy milk"];
    UnselectedStep(xs, [0]);
    assert [0][1..] == [];
    UnselectedNone(xs);
    assert Unselected(xs, [0]) == [];
    assert MarkedDescending(xs, [0]) == [Mark("Buy milk")];
    assert Mark("Buy milk") == "[Completed] Buy milk";
  }
}
