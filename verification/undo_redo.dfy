/** The `useUndoRedo` hook: a current value with a bounded linear undo history.
    React's asynchronous state cells become one immutable record, and every
    operation is a pure transition on it. */
module UndoRedo {

  /** The hook's default bound on the undo stack. */
  const DefaultMaxHistory: nat := 50

  /** `past` is oldest first, so its last entry is the next value `undo` restores;
      `future` is nearest first, so its first entry is the next value `redo` restores. */
  datatype History<T> = History(past: seq<T>, current: T, future: seq<T>)

  /** The hook's initial state: no history in either direction. */
  function Init<T>(initial: T): (h: History<T>)
    ensures h.current == initial && !CanUndo(h) && !CanRedo(h)
  {
    History([], initial, [])
  }

  /** `canUndo`: exactly when `undo` would change the state. */
  function CanUndo<T>(h: History<T>): (b: bool)
    ensures b <==> Undo(h) != h
  {
    assert |h.past| > 0 ==> |Undo(h).future| == |h.future| + 1;
    |h.past| > 0
  }

  /** `canRedo`: exactly when `redo` would change the state. */
  function CanRedo<T>(h: History<T>): (b: bool)
    ensures b <==> Redo(h) != h
  {
    assert |h.future| > 0 ==> |Redo(h).past| == |h.past| + 1;
    |h.future| > 0
  }

  /** `a` is a (possibly empty) tail of `b`. */
  predicate IsSuffix<T(==)>(a: seq<T>, b: seq<T>)
  {
    |a| <= |b| && a == b[|b| - |a|..]
  }

  function Min(a: int, b: int): int
  {
    if a < b then a else b
  }

  /** The newest `n` entries of `s`; the oldest ones are the ones dropped. */
  function Newest<T(==)>(s: seq<T>, n: nat): (r: seq<T>)
    ensures |r| == Min(|s|, n)
  {
    if |s| > n then s[|s| - n..] else s
  }

  /** What `Newest` keeps is a tail of its input. */
  lemma NewestIsSuffix<T>(s: seq<T>, n: nat)
    ensures IsSuffix(Newest(s, n), s)
  {
  }

  /** `setState(next)`. A value equal to the current one is ignored entirely;
      any other value becomes current, the old current value becomes the newest
      undo entry, the undo stack is cut to its newest `maxHistory` entries and
      the redo stack is emptied. */
  function SetState<T(==)>(h: History<T>, next: T, maxHistory: nat): (r: History<T>)
    ensures r.current == next
    ensures next == h.current ==> r == h
    ensures next != h.current ==>
              && r.future == []
              && |r.past| == Min(|h.past| + 1, maxHistory)
  {
    if next == h.current then h
    else History(Newest(h.past + [h.current], maxHistory), next, [])
  }

  /** The undo stack after an accepted `setState` is a tail of the old stack
      followed by the old current value: together with its length, the entries
      that go are the oldest. */
  lemma SetStateDropsOldest<T>(h: History<T>, next: T, maxHistory: nat)
    requires next != h.current
    ensures IsSuffix(SetState(h, next, maxHistory).past, h.past + [h.current])
  {
    NewestIsSuffix(h.past + [h.current], maxHistory);
  }

  /** `setState(prev => f(prev))`: the updater is applied to the current value,
      and the result goes through the same change test and history update as a
      plain value. */
  function Update<T(==)>(h: History<T>, f: T -> T, maxHistory: nat): (r: History<T>)
    ensures r == SetState(h, f(h.current), maxHistory)
    ensures r.current == f(h.current)
    ensures f(h.current) == h.current ==> r == h
    ensures f(h.current) != h.current ==>
              && r.future == []
              && |r.past| == Min(|h.past| + 1, maxHistory)
              && IsSuffix(r.past, h.past + [h.current])
              && (maxHistory > 0 ==> r.past[|r.past| - 1] == h.current)
  {
    var next := f(h.current);
    if next == h.current then h
    else
      SetStateDropsOldest(h, next, maxHistory);
      SetState(h, next, maxHistory)
  }

  /** `undo()`: with an empty undo stack nothing happens; otherwise the newest undo
      entry becomes current and the old current value is put in front of the redo stack. */
  function Undo<T>(h: History<T>): (r: History<T>)
    ensures |h.past| == 0 ==> r == h
    ensures |h.past| > 0 ==>
              && r.current == h.past[|h.past| - 1]
              && r.past + [r.current] == h.past
              && r.future == [h.current] + h.future
  {
    if |h.past| == 0 then h
    else History(h.past[..|h.past| - 1], h.past[|h.past| - 1], [h.current] + h.future)
  }

  /** `redo()`: with an empty redo stack nothing happens; otherwise the first redo
      entry becomes current and the old current value is appended to the undo stack.
      The hook does not cut the undo stack here. */
  function Redo<T>(h: History<T>): (r: History<T>)
    ensures |h.future| == 0 ==> r == h
    ensures |h.future| > 0 ==>
              && r.current == h.future[0]
              && r.past == h.past + [h.current]
              && [r.current] + r.future == h.future
  {
    if |h.future| == 0 then h
    else History(h.past + [h.current], h.future[0], h.future[1..])
  }

  /** `reset(v)`: replace the value without recording history. */
  function Reset<T>(h: History<T>, v: T): (r: History<T>)
    ensures r.current == v && !CanUndo(r) && !CanRedo(r)
  {
    History([], v, [])
  }

  /** Setting the same value twice records only one history entry. */
  lemma SetStateTwice<T>(h: History<T>, v: T, maxHistory: nat)
    ensures SetState(SetState(h, v, maxHistory), v, maxHistory) == SetState(h, v, maxHistory)
  {
  }

  /** `undo` then `redo` restores the exact triple. */
  lemma UndoRedoRoundTrip<T>(h: History<T>)
    requires CanUndo(h)
    ensures Redo(Undo(h)) == h
  {
    var u := Undo(h);
    assert u.past + [u.current] == h.past;
    assert u.future[1..] == h.future;
  }

  /** `redo` then `undo` restores the exact triple. */
  lemma RedoUndoRoundTrip<T>(h: History<T>)
    requires CanRedo(h)
    ensures Undo(Redo(h)) == h
  {
    var d := Redo(h);
    assert d.past[..|d.past| - 1] == h.past;
    assert [d.current] + d.future == h.future;
  }

  /** The history never holds more than `maxHistory` values besides the current one. */
  predicate Bounded<T>(h: History<T>, maxHistory: nat)
  {
    |h.past| + |h.future| <= maxHistory
  }

  /** The operations a user can trigger. */
  datatype Action<T> = Set(value: T) | UndoAction | RedoAction | ResetAction(value: T)

  function Step<T(==)>(h: History<T>, a: Action<T>, maxHistory: nat): History<T>
  {
    match a
    case Set(v) => SetState(h, v, maxHistory)
    case UndoAction => Undo(h)
    case RedoAction => Redo(h)
    case ResetAction(v) => Reset(h, v)
  }

  /** The actions applied in order. */
  function Run<T(==)>(h: History<T>, actions: seq<Action<T>>, maxHistory: nat): History<T>
    decreases |actions|
  {
    if |actions| == 0 then h else Run(Step(h, actions[0], maxHistory), actions[1..], maxHistory)
  }

  /** One action keeps the bound: `undo` and `redo` move one value between the
      stacks, `setState` cuts `past` and empties `future`, `reset` empties both. */
  lemma StepBounded<T>(h: History<T>, a: Action<T>, maxHistory: nat)
    requires Bounded(h, maxHistory)
    ensures Bounded(Step(h, a, maxHistory), maxHistory)
  {
  }

  /** From the initial state, every sequence of actions keeps
      `|past| + |future| <= maxHistory`. */
  lemma {:induction false} RunBounded<T>(h: History<T>, actions: seq<Action<T>>, maxHistory: nat)
    requires Bounded(h, maxHistory)
    ensures Bounded(Run(h, actions, maxHistory), maxHistory)
    decreases |actions|
  {
    if |actions| > 0 {
      StepBounded(h, actions[0], maxHistory);
      RunBounded(Step(h, actions[0], maxHistory), actions[1..], maxHistory);
    }
  }

  /** Consecutive values differ, so every `setState` of them is accepted. */
  ghost predicate AllChanges<T>(start: T, values: seq<T>)
  {
    && (|values| > 0 ==> values[0] != start)
    && forall i, j :: 0 <= i < j < |values| && j == i + 1 ==> values[i] != values[j]
  }

  /** `setState` with each value in turn. */
  function SetAll<T(==)>(h: History<T>, values: seq<T>, maxHistory: nat): History<T>
    decreases |values|
  {
    if |values| == 0 then h
    else SetState(SetAll(h, values[..|values| - 1], maxHistory), values[|values| - 1], maxHistory)
  }

  /** Cutting to the newest `n` before appending changes nothing about the newest `n` after. */
  lemma NewestAppend<T>(a: seq<T>, b: seq<T>, n: nat)
    ensures Newest(Newest(a, n) + b, n) == Newest(a + b, n)
  {
    var na := Newest(a, n);
    if |na + b| > n {
      var l, r := (na + b)[|na + b| - n..], (a + b)[|a + b| - n..];
      forall i | 0 <= i < n
        ensures l[i] == r[i]
      {
        var k := |na + b| - n + i;
        if k >= |na| {
          assert l[i] == b[k - |na|];
        } else {
          assert l[i] == a[|a| - |na| + k];
        }
      }
    }
  }

  /** One accepted `setState` appends the old current value to the undo stack
      before cutting it, so the cut commutes with the append. */
  lemma SetStateEvicts<T>(prev: History<T>, next: T, maxHistory: nat, older: seq<T>)
    requires prev.past == Newest(older, maxHistory) && prev.current != next
    ensures SetState(prev, next, maxHistory).past == Newest(older + [prev.current], maxHistory)
  {
    NewestAppend(older, [prev.current], maxHistory);
  }

  /** After accepted `setState` calls, the undo stack is the newest `maxHistory`
      values of the whole sequence of superseded values, oldest first: eviction
      is first in, first out. */
  lemma {:induction false} SetAllEvictsOldest<T>(h: History<T>, values: seq<T>, maxHistory: nat)
    requires |values| > 0 && AllChanges(h.current, values)
    ensures SetAll(h, values, maxHistory).current == values[|values| - 1]
    ensures SetAll(h, values, maxHistory).future == []
    ensures SetAll(h, values, maxHistory).past
            == Newest(h.past + [h.current] + values[..|values| - 1], maxHistory)
    decreases |values|
  {
    var m := maxHistory;
    var p := h.past + [h.current];
    var n := |values|;
    if n == 1 {
      assert values[..0] == [];
      assert p + values[..0] == p;
    } else {
      AllChangesPrefix(h.current, values, n - 1);
      SetAllEvictsOldest(h, values[..n - 1], m);
      assert values[n - 2] != values[n - 1];
      SetAllStep(h, values, m);
    }
  }

  /** A prefix of a sequence of accepted values is accepted too. */
  lemma AllChangesPrefix<T>(start: T, values: seq<T>, k: nat)
    requires AllChanges(start, values) && k <= |values|
    ensures AllChanges(start, values[..k])
  {
    var init := values[..k];
    forall i, j | 0 <= i < j < |init| && j == i + 1
      ensures init[i] != init[j]
    {
      assert init[i] == values[i] && init[j] == values[j];
    }
  }

  /** The inductive step of `SetAllEvictsOldest`: one more accepted value. */
  lemma SetAllStep<T>(h: History<T>, values: seq<T>, maxHistory: nat)
    requires |values| >= 2 && values[|values| - 2] != values[|values| - 1]
    requires var init := values[..|values| - 1];
             var prev := SetAll(h, init, maxHistory);
             && prev.current == init[|init| - 1]
             && prev.past == Newest(h.past + [h.current] + init[..|init| - 1], maxHistory)
    ensures SetAll(h, values, maxHistory).current == values[|values| - 1]
    ensures SetAll(h, values, maxHistory).future == []
    ensures SetAll(h, values, maxHistory).past
            == Newest(h.past + [h.current] + values[..|values| - 1], maxHistory)
  {
    var n, p := |values|, h.past + [h.current];
    var init := values[..n - 1];
    assert init[..n - 2] == values[..n - 2];
    SetStateEvicts(SetAll(h, init, maxHistory), values[n - 1], maxHistory, p + values[..n - 2]);
    assert p + values[..n - 2] + [values[n - 2]] == p + values[..n - 1];
  }

  /** With room for two entries, committing b, c, d after a evicts a; two undos
      reach b and a third is impossible. */
  lemma EvictionScenario<T>(a: T, b: T, c: T, d: T)
    requires a != b && b != c && c != d
    ensures var h := SetAll(Init(a), [b, c, d], 2);
            && h.past == [b, c] && h.current == d
            && Undo(Undo(h)).current == b && !CanUndo(Undo(Undo(h)))
  {
    var values := [b, c, d];
    assert AllChanges(a, values);
    SetAllEvictsOldest(Init(a), values, 2);
    assert [] + [a] + values[..2] == [a, b, c];
  }
}
