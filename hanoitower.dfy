/**
  The generalised Tower of Hanoi search problem: any number of slots, any
  starting arrangement. A state is a sequence of slots; each slot is a stack of
  integer disks whose LAST element is its top. States are values, so every
  successor is an independent copy of its parent.
 */
module HanoiTower {

  type Stack = seq<int>
  type State = seq<Stack>

  /** Move the top disk of slot `leaving` onto slot `arriving`. */
  datatype Action = Action(leaving: nat, arriving: nat)

  /** One entry of the successor list: the new state, the action, the step cost. */
  datatype Successor = Successor(state: State, action: Action, cost: int)

  datatype Error = EmptyRange   // random.randint(0, -1): no slot to choose from

  datatype Result<T> = Success(value: T) | Failure(error: Error)

  /* ---------------------------------------------------------------------- */
  /* Disks and moves                                                         */
  /* ---------------------------------------------------------------------- */

  /** The top disk of a non-empty slot. */
  function Top(x: Stack): int
    requires x != []
  {
    x[|x| - 1]
  }

  /** The multiset of all disks of a state, over every slot. */
  function Disks(s: State): multiset<int>
  {
    if s == [] then multiset{} else Disks(s[..|s| - 1]) + multiset(s[|s| - 1])
  }

  /** The disks 1..h, each once. */
  function Range(h: nat): multiset<int>
  {
    if h == 0 then multiset{} else Range(h - 1) + multiset{h}
  }

  /** A well-formed tower of `h` disks on `n` slots: every disk 1..h exactly once. */
  predicate IsTowerOf(s: State, h: nat, n: nat)
  {
    |s| == n && Disks(s) == Range(h)
  }

  /**
    The move rule: the leaving slot holds a disk, and the arriving slot is
    either empty or has a strictly larger top disk.
   */
  predicate Legal(s: State, l: nat, a: nat)
    requires l < |s| && a < |s|
    ensures Legal(s, l, a) ==> l != a   // a slot's top is never smaller than itself
  {
    s[l] != [] && (s[a] != [] ==> Top(s[l]) < Top(s[a]))
  }

  /**
    The state after popping the top of slot `l` and appending it to slot `a`,
    applied in this order to a copy of `s`.
   */
  function Move(s: State, l: nat, a: nat): (r: State)
    requires l < |s| && a < |s| && s[l] != []
    ensures |r| == |s|
    ensures l != a ==> r[l] == s[l][..|s[l]| - 1] && r[a] == s[a] + [Top(s[l])]
    ensures l == a ==> r == s   // pop then append on one list restores it
    ensures forall i :: 0 <= i < |s| && i != l && i != a ==> r[i] == s[i]
  {
    var popped := s[l := s[l][..|s[l]| - 1]];
    assert l == a ==> popped[a] + [Top(s[l])] == s[l];
    popped[a := popped[a] + [Top(s[l])]]
  }

  /** A successor entry is a legal move of `s`, applied, at step cost 1. */
  predicate IsMoveOf(s: State, e: Successor)
  {
    && e.action.leaving < |s| && e.action.arriving < |s|
    && Legal(s, e.action.leaving, e.action.arriving)
    && e.state == Move(s, e.action.leaving, e.action.arriving)
    && e.cost == 1
  }

  /** Lexicographic order on actions: by leaving slot, then by arriving slot. */
  predicate Before(x: Action, y: Action)
  {
    x.leaving < y.leaving || (x.leaving == y.leaving && x.arriving < y.arriving)
  }

  /* ---------------------------------------------------------------------- */
  /* The successor list                                                      */
  /* ---------------------------------------------------------------------- */

  /** The entries produced for leaving slot `l` with arriving slots 0..a-1. */
  function Row(s: State, n: nat, l: nat, a: nat): seq<Successor>
    requires l < n <= |s| && a <= n
  {
    if a == 0 then []
    else
      Row(s, n, l, a - 1)
      + (if Legal(s, l, a - 1) then [Successor(Move(s, l, a - 1), Action(l, a - 1), 1)] else [])
  }

  /** The entries produced for leaving slots 0..l-1. */
  function Rows(s: State, n: nat, l: nat): seq<Successor>
    requires l <= n <= |s|
  {
    if l == 0 then [] else Rows(s, n, l - 1) + Row(s, n, l - 1, n)
  }

  /**
    The row for leaving slot `l`: only legal moves out of `l`, by increasing
    arriving slot, and every legal move out of `l` to a slot below `a`.
   */
  lemma {:induction false} RowSpec(s: State, n: nat, l: nat, a: nat)
    requires l < n <= |s| && a <= n
    ensures forall i :: 0 <= i < |Row(s, n, l, a)| ==>
      Row(s, n, l, a)[i].action.leaving == l && Row(s, n, l, a)[i].action.arriving < a
      && IsMoveOf(s, Row(s, n, l, a)[i])
    ensures forall i, j :: 0 <= i < j < |Row(s, n, l, a)| ==>
      Row(s, n, l, a)[i].action.arriving < Row(s, n, l, a)[j].action.arriving
    ensures forall b :: 0 <= b < a && Legal(s, l, b) ==>
      Successor(Move(s, l, b), Action(l, b), 1) in Row(s, n, l, a)
  {
    if a > 0 {
      RowSpec(s, n, l, a - 1);
    }
  }

  /**
    The rows for leaving slots below `l`: only legal moves, in order of leaving
    then arriving slot, and every legal move out of a slot below `l`.
   */
  lemma {:induction false} RowsSpec(s: State, n: nat, l: nat)
    requires l <= n <= |s|
    ensures forall i :: 0 <= i < |Rows(s, n, l)| ==>
      Rows(s, n, l)[i].action.leaving < l && Rows(s, n, l)[i].action.arriving < n
      && IsMoveOf(s, Rows(s, n, l)[i])
    ensures forall i, j :: 0 <= i < j < |Rows(s, n, l)| ==>
      Before(Rows(s, n, l)[i].action, Rows(s, n, l)[j].action)
    ensures forall k, b :: 0 <= k < l && 0 <= b < n && Legal(s, k, b) ==>
      Successor(Move(s, k, b), Action(k, b), 1) in Rows(s, n, l)
  {
    if l > 0 {
      RowsSpec(s, n, l - 1);
      RowSpec(s, n, l - 1, n);
      var prefix: seq<Successor>, row: seq<Successor> := Rows(s, n, l - 1), Row(s, n, l - 1, n);
      assert Rows(s, n, l) == prefix + row;
      assert forall i, j :: 0 <= i < |prefix| <= j < |prefix| + |row| ==>
        Before((prefix + row)[i].action, (prefix + row)[j].action);
    }
  }

  /**
    The successors of `s` over its first `n` slots: exactly the legal moves,
    each once, none from a slot to itself, ordered by leaving then arriving slot.
   */
  function Successors(s: State, n: nat): (r: seq<Successor>)
    requires n <= |s|
    ensures forall e :: e in r ==> IsMoveOf(s, e) && e.action.leaving < n && e.action.arriving < n
    ensures forall e :: e in r ==> e.action.leaving != e.action.arriving
    ensures forall l, a :: 0 <= l < n && 0 <= a < n && Legal(s, l, a) ==>
      Successor(Move(s, l, a), Action(l, a), 1) in r
    ensures forall i, j :: 0 <= i < j < |r| ==> Before(r[i].action, r[j].action)
    ensures forall i, j :: 0 <= i < |r| && 0 <= j < |r| && r[i].action == r[j].action ==> i == j
  {
    RowsSpec(s, n, n);
    var r := Rows(s, n, n);
    assert forall i, j :: 0 <= i < |r| && 0 <= j < |r| && i != j ==> r[i].action != r[j].action by {
      forall i, j | 0 <= i < |r| && 0 <= j < |r| && i != j
        ensures r[i].action != r[j].action
      {
        if i < j { assert Before(r[i].action, r[j].action); }
        else { assert Before(r[j].action, r[i].action); }
      }
    }
    r
  }

  /* ---------------------------------------------------------------------- */
  /* The goal test                                                           */
  /* ---------------------------------------------------------------------- */

  /** The non-empty slots of a state, in slot order. */
  function NonEmptySlots(s: State): (r: seq<Stack>)
    ensures |r| <= |s|
    ensures forall x :: x in r ==> x != []
    ensures r == [] <==> forall j :: 0 <= j < |s| ==> s[j] == []
  {
    if s == [] then []
    else (if s[0] != [] then [s[0]] else []) + NonEmptySlots(s[1..])
  }

  /** Inserts `v` into a non-increasing stack, keeping it non-increasing. */
  function Insert(v: int, t: Stack): (r: Stack)
    ensures multiset(r) == multiset(t) + multiset{v}
    ensures NonIncreasing(t) ==> NonIncreasing(r)
    ensures r != [] && (r[0] == v || (t != [] && r[0] == t[0]))
  {
    if t == [] then [v]
    else if v >= t[0] then [v] + t
    else
      assert t == [t[0]] + t[1..];
      [t[0]] + Insert(v, t[1..])
  }

  /** Sorting largest-first: the meaning of `sorted(x, reverse=True)` for integers. */
  function SortDescending(x: Stack): (r: Stack)
    ensures multiset(r) == multiset(x)
    ensures NonIncreasing(r)
  {
    if x == [] then []
    else
      assert x == [x[0]] + x[1..];
      Insert(x[0], SortDescending(x[1..]))
  }

  /** Read bottom to top, the disks never grow. */
  predicate NonIncreasing(x: Stack)
  {
    forall i, j :: 0 <= i < j < |x| ==> x[i] >= x[j]
  }

  /** Slot `k` is the only non-empty slot of `s`. */
  predicate OnlyNonEmpty(s: State, k: int)
  {
    0 <= k < |s| && s[k] != [] && forall j :: 0 <= j < |s| && j != k ==> s[j] == []
  }

  /**
    The goal test as the source computes it: exactly one slot is non-empty,
    and the first non-empty slot equals its own descending sort. Both
    conditions are evaluated, and the second indexes the first non-empty slot
    unconditionally, so some slot must hold a disk.
   */
  predicate IsGoalState(s: State)
    requires exists j :: 0 <= j < |s| && s[j] != []
    ensures IsGoalState(s) <==> IsGoal(s)
  {
    var slots := NonEmptySlots(s);
    var allInOneSlot := |slots| == 1;
    var ordered := slots[0] == SortDescending(slots[0]);
    allInOneSlot && ordered
  }

  /**
    The goal test with the second condition evaluated only when the first
    holds: defined on every state, and false on a state without disks.
   */
  predicate IsGoal(s: State)
    ensures IsGoal(s) ==> exists j :: 0 <= j < |s| && s[j] != []
  {
    var slots := NonEmptySlots(s);
    |slots| == 1 && slots[0] == SortDescending(slots[0])
  }

  /* ---------------------------------------------------------------------- */
  /* The initial-state builder                                               */
  /* ---------------------------------------------------------------------- */

  /**
    The tower before the shuffle: disk k+1 appended to slot `choices[k]`, for
    k in increasing order.
   */
  function Placement(choices: seq<int>, n: nat): (r: State)
    requires forall k :: 0 <= k < |choices| ==> 0 <= choices[k] < n
    ensures |r| == n
  {
    if choices == [] then seq(n, _ => [])
    else
      var p, c := Placement(choices[..|choices| - 1], n), choices[|choices| - 1];
      p[c := p[c] + [|choices|]]
  }

  /** Each slot of `s` holds the same disks as the same slot of `t`. */
  predicate SlotwisePermutation(s: State, t: State)
  {
    |s| == |t| && forall i :: 0 <= i < |s| ==> multiset(s[i]) == multiset(t[i])
  }

  /**
    A choice is a value `random.randint(0, n - 1)` can return; when `n == 0`
    that call raises before any choice is consulted.
   */
  predicate ValidChoices(choices: seq<int>, n: nat)
  {
    forall k :: 0 <= k < |choices| ==> n == 0 || 0 <= choices[k] < n
  }

  /**
    Builds a start state: disk i (for i = 1..hanoiSize) goes to slot
    `choices[i - 1]`, then every slot is permuted arbitrarily. With no slot to
    choose from and at least one disk, the random draw fails.
   */
  method CreateRandomHanoiTower(hanoiSize: nat, slotSize: nat, choices: seq<int>)
    returns (r: Result<State>)
    requires |choices| == hanoiSize && ValidChoices(choices, slotSize)
    ensures r.Failure? <==> hanoiSize >= 1 && slotSize == 0
    ensures r.Success? ==> SlotwisePermutation(r.value, Placement(choices, slotSize))
    ensures r.Success? ==> IsTowerOf(r.value, hanoiSize, slotSize)
  {
    var tower: State := seq(slotSize, _ => []);
    var i := 1;
    while i <= hanoiSize
      invariant 1 <= i <= hanoiSize + 1
      invariant slotSize == 0 ==> i == 1
      invariant tower == Placement(choices[..i - 1], slotSize)
    {
      if slotSize == 0 {
        return Failure(EmptyRange);
      }
      var position := choices[i - 1];
      assert choices[..i] == choices[..i - 1] + [position];
      tower := tower[position := tower[position] + [i]];
      i := i + 1;
    }
    assert choices[..hanoiSize] == choices;
    ghost var placed := tower;
    var j := 0;
    while j < |tower|
      invariant |tower| == |placed| && 0 <= j <= |tower|
      invariant forall k :: 0 <= k < j ==> multiset(tower[k]) == multiset(placed[k])
      invariant forall k :: j <= k < |tower| ==> tower[k] == placed[k]
    {
      var shuffled :| multiset(shuffled) == multiset(tower[j]);
      tower := tower[j := shuffled];
      j := j + 1;
    }
    PlacementHoldsRange(choices, slotSize);
    SlotwisePermutationKeepsDisks(tower, placed);
    r := Success(tower);
  }

  /* ---------------------------------------------------------------------- */
  /* The problem object                                                      */
  /* ---------------------------------------------------------------------- */

  /** The search problem: its sizes and the start state built once, at construction. */
  class HanoiTowerSearchProblem {
    const hanoiSize: nat
    const slotSize: nat
    const hanoiTower: State

    predicate Valid()
    {
      IsTowerOf(hanoiTower, hanoiSize, slotSize)
    }

    /** Builds the start state; the source raises when there are disks but no slot. */
    constructor (hanoiSize: nat, slotSize: nat, choices: seq<int>)
      requires |choices| == hanoiSize && ValidChoices(choices, slotSize)
      requires hanoiSize == 0 || slotSize > 0
      ensures this.hanoiSize == hanoiSize && this.slotSize == slotSize
      ensures SlotwisePermutation(hanoiTower, Placement(choices, slotSize))
      ensures Valid()
    {
      var tower := CreateRandomHanoiTower(hanoiSize, slotSize, choices);
      this.hanoiSize := hanoiSize;
      this.slotSize := slotSize;
      this.hanoiTower := tower.value;
    }

    /** The stored start state, the same on every call. */
    method GetStartState() returns (r: State)
      requires Valid()
      ensures r == hanoiTower
      ensures IsTowerOf(r, hanoiSize, slotSize)
    {
      r := hanoiTower;
    }

    /**
      Every legal move over the first `slotSize` slots, in the order of the
      nested loop over leaving and arriving slot. Slots beyond `slotSize` are
      never read; fewer slots than `slotSize` make the source fail on indexing.
     */
    method GetSuccessors(state: State) returns (successors: seq<Successor>)
      requires slotSize <= |state|
      ensures successors == Successors(state, slotSize)
    {
      successors := [];
      var leaving := 0;
      while leaving < slotSize
        invariant 0 <= leaving <= slotSize
        invariant successors == Rows(state, slotSize, leaving)
      {
        var arriving := 0;
        while arriving < slotSize
          invariant 0 <= arriving <= slotSize
          invariant successors == Rows(state, slotSize, leaving) + Row(state, slotSize, leaving, arriving)
        {
          var leavingStack := state[leaving];
          if state[leaving] != [] {
            var arrivingStack := state[arriving];
            if arrivingStack != [] {
              if leavingStack[|leavingStack| - 1] < arrivingStack[|arrivingStack| - 1] {
                var successor := state;
                var disk := successor[leaving][|successor[leaving]| - 1];
                successor := successor[leaving := successor[leaving][..|successor[leaving]| - 1]];
                successor := successor[arriving := successor[arriving] + [disk]];
                assert successor == Move(state, leaving, arriving);
                successors := successors + [Successor(successor, Action(leaving, arriving), 1)];
              }
            } else {
              var successor := state;
              var disk := successor[leaving][|successor[leaving]| - 1];
              successor := successor[leaving := successor[leaving][..|successor[leaving]| - 1]];
              successor := successor[arriving := successor[arriving] + [disk]];
              assert successor == Move(state, leaving, arriving);
              successors := successors + [Successor(successor, Action(leaving, arriving), 1)];
            }
          }
          arriving := arriving + 1;
        }
        leaving := leaving + 1;
      }
    }
  }

  /* ---------------------------------------------------------------------- */
  /* Lemmas                                                                  */
  /* ---------------------------------------------------------------------- */

  /** Replacing one slot by a slot holding `extra` more disks adds `extra` to the total. */
  lemma {:induction false} DisksGrow(s: State, i: nat, x: Stack, extra: multiset<int>)
    requires i < |s| && multiset(x) == multiset(s[i]) + extra
    ensures Disks(s[i := x]) == Disks(s) + extra
  {
    var t := s[i := x];
    var front, last := s[..|s| - 1], s[|s| - 1];
    assert Disks(s) == Disks(front) + multiset(last);
    if i == |s| - 1 {
      assert t[..|t| - 1] == front;
    } else {
      assert t[..|t| - 1] == front[i := x];
      assert t[|t| - 1] == last;
      DisksGrow(front, i, x, extra);
    }
  }

  /** A move neither creates nor destroys disks, and keeps the number of slots. */
  lemma MoveConservesDisks(s: State, l: nat, a: nat)
    requires l < |s| && a < |s| && s[l] != []
    ensures |Move(s, l, a)| == |s| && Disks(Move(s, l, a)) == Disks(s)
  {
    var x := s[l];
    var d := Top(x);
    var rest := x[..|x| - 1];
    var popped := s[l := rest];
    assert x == rest + [d];
    assert popped[l := x] == s;
    DisksGrow(popped, l, x, multiset{d});
    DisksGrow(popped, a, popped[a] + [d], multiset{d});
  }

  /** Every successor has as many slots and the same disks as its parent. */
  lemma SuccessorsConserveDisks(s: State, n: nat)
    requires n <= |s|
    ensures forall e :: e in Successors(s, n) ==> |e.state| == |s| && Disks(e.state) == Disks(s)
  {
    forall e | e in Successors(s, n)
      ensures |e.state| == |s| && Disks(e.state) == Disks(s)
    {
      MoveConservesDisks(s, e.action.leaving, e.action.arriving);
    }
  }

  /** `t` is one of the successor states of `s`. */
  ghost predicate SuccessorOf(s: State, t: State, n: nat)
  {
    n <= |s| && exists e :: e in Successors(s, n) && e.state == t
  }

  /** Every state reachable from the start by successor steps is a tower of the same disks. */
  lemma {:induction false} ReachableStatesConserveDisks(chain: seq<State>, h: nat, n: nat)
    requires chain != [] && IsTowerOf(chain[0], h, n)
    requires forall i :: 0 <= i < |chain| - 1 ==> SuccessorOf(chain[i], chain[i + 1], n)
    ensures IsTowerOf(chain[|chain| - 1], h, n)
  {
    if |chain| > 1 {
      var prefix := chain[..|chain| - 1];
      ReachableStatesConserveDisks(prefix, h, n);
      var s, t := chain[|chain| - 2], chain[|chain| - 1];
      assert SuccessorOf(s, t, n);
      SuccessorsConserveDisks(s, n);
    }
  }

  /** Two slotwise permutations of each other hold the same disks overall. */
  lemma {:induction false} SlotwisePermutationKeepsDisks(s: State, t: State)
    requires SlotwisePermutation(s, t)
    ensures Disks(s) == Disks(t)
  {
    if s != [] {
      SlotwisePermutationKeepsDisks(s[..|s| - 1], t[..|t| - 1]);
    }
  }

  /** Before the shuffle, the tower holds the disks 1..|choices|, each once. */
  lemma {:induction false} PlacementHoldsRange(choices: seq<int>, n: nat)
    requires forall k :: 0 <= k < |choices| ==> 0 <= choices[k] < n
    ensures Disks(Placement(choices, n)) == Range(|choices|)
  {
    if choices == [] {
      EmptySlotsHoldNothing(Placement(choices, n));
    } else {
      var m := |choices|;
      var p, c := Placement(choices[..m - 1], n), choices[m - 1];
      PlacementHoldsRange(choices[..m - 1], n);
      assert Disks(p) == Range(m - 1);
      assert Placement(choices, n) == p[c := p[c] + [m]];
      DisksGrow(p, c, p[c] + [m], multiset{m});
    }
  }

  /** A state of empty slots holds no disk. */
  lemma {:induction false} EmptySlotsHoldNothing(s: State)
    requires forall j :: 0 <= j < |s| ==> s[j] == []
    ensures Disks(s) == multiset{}
  {
    if s != [] {
      EmptySlotsHoldNothing(s[..|s| - 1]);
    }
  }

  /** `Range(h)` holds each of 1..h exactly once and nothing else. */
  lemma {:induction false} RangeExactlyOnce(h: nat, d: int)
    ensures Range(h)[d] == if 1 <= d <= h then 1 else 0
  {
    if h > 0 {
      RangeExactlyOnce(h - 1, d);
    }
  }

  /** Before the shuffle, every slot is strictly increasing and holds disks in 1..|choices|. */
  lemma {:induction false} PlacementIncreasing(choices: seq<int>, n: nat)
    requires forall k :: 0 <= k < |choices| ==> 0 <= choices[k] < n
    ensures forall j :: 0 <= j < n ==> StrictlyIncreasing(Placement(choices, n)[j])
    ensures forall j, i :: 0 <= j < n && 0 <= i < |Placement(choices, n)[j]| ==>
      1 <= Placement(choices, n)[j][i] <= |choices|
  {
    if choices != [] {
      PlacementIncreasing(choices[..|choices| - 1], n);
    }
  }

  /** Read bottom to top, the disks strictly grow. */
  predicate StrictlyIncreasing(x: Stack)
  {
    forall i, j :: 0 <= i < j < |x| ==> x[i] < x[j]
  }

  /** A tower of `h` disks, such as a successful build, holds every disk 1..h exactly once. */
  lemma BuiltTowerHoldsEachDiskOnce(s: State, h: nat, n: nat, d: int)
    requires IsTowerOf(s, h, n)
    ensures Disks(s)[d] == if 1 <= d <= h then 1 else 0
  {
    RangeExactlyOnce(h, d);
  }

  /** A stack equals its descending sort exactly when it is non-increasing. */
  lemma {:induction false} SortedFixpoint(x: Stack)
    ensures x == SortDescending(x) <==> NonIncreasing(x)
  {
    if x != [] && NonIncreasing(x) {
      SortedFixpoint(x[1..]);
      assert NonIncreasing(x[1..]);
      if x[1..] != [] {
        assert x[0] >= x[1..][0];
      }
      assert [x[0]] + x[1..] == x;
    }
  }

  /** Exactly one non-empty slot, as the filtered list sees it. */
  lemma {:induction false} OneNonEmptySlot(s: State)
    ensures |NonEmptySlots(s)| == 1 <==> exists k :: OnlyNonEmpty(s, k)
    ensures forall k :: OnlyNonEmpty(s, k) ==> NonEmptySlots(s) == [s[k]]
  {
    if s != [] {
      var rest := s[1..];
      OneNonEmptySlot(rest);
      if s[0] != [] {
        if |NonEmptySlots(s)| == 1 {
          assert OnlyNonEmpty(s, 0) by {
            forall j | 0 < j < |s| ensures s[j] == [] { assert s[j] == rest[j - 1]; }
          }
        }
        forall k | OnlyNonEmpty(s, k) ensures NonEmptySlots(s) == [s[k]] {
          assert k == 0;
          assert forall j :: 0 <= j < |rest| ==> rest[j] == s[j + 1];
        }
      } else {
        if |NonEmptySlots(s)| == 1 {
          var k :| OnlyNonEmpty(rest, k);
          assert OnlyNonEmpty(s, k + 1);
        }
        forall k | OnlyNonEmpty(s, k) ensures NonEmptySlots(s) == [s[k]] {
          assert OnlyNonEmpty(rest, k - 1);
        }
      }
    }
  }

  /**
    The goal test holds exactly when one slot is non-empty and that slot is
    sorted largest at the bottom.
   */
  lemma GoalStateMeaning(s: State)
    ensures IsGoal(s) <==> exists k :: OnlyNonEmpty(s, k) && NonIncreasing(s[k])
  {
    OneNonEmptySlot(s);
    if IsGoal(s) {
      var k :| OnlyNonEmpty(s, k);
      SortedFixpoint(s[k]);
    }
    if exists k :: OnlyNonEmpty(s, k) && NonIncreasing(s[k]) {
      var k :| OnlyNonEmpty(s, k) && NonIncreasing(s[k]);
      SortedFixpoint(s[k]);
    }
  }

  /** A state without disks has no first non-empty slot for the source's test to index. */
  lemma EmptyStateHasNoSlotToTest()
    ensures var s: State := [[], [], []];
      !(exists j :: 0 <= j < |s| && s[j] != []) && NonEmptySlots(s) == [] && !IsGoal(s)
  {
    var s: State := [[], [], []];
    assert forall j :: 0 <= j < |s| ==> s[j] == [];
  }

  /** Read bottom to top, the disks strictly shrink. */
  predicate StrictlyDecreasing(x: Stack)
  {
    forall i, j :: 0 <= i < j < |x| ==> x[i] > x[j]
  }

  /** When only slot `k` holds disks, it holds all of them. */
  lemma {:induction false} OnlySlotHoldsAllDisks(s: State, k: int)
    requires 0 <= k < |s| && forall j :: 0 <= j < |s| && j != k ==> s[j] == []
    ensures Disks(s) == multiset(s[k])
  {
    var front := s[..|s| - 1];
    if k == |s| - 1 {
      EmptySlotsHoldNothing(front);
    } else {
      OnlySlotHoldsAllDisks(front, k);
    }
  }

  /** Equal values at two positions of a stack give that value a count of at least 2. */
  lemma NoRepeatedDisk(x: Stack, i: int, j: int)
    requires 0 <= i < j < |x| && x[i] == x[j]
    ensures multiset(x)[x[i]] >= 2
  {
    assert x == x[..i] + [x[i]] + x[i + 1..j] + [x[j]] + x[j + 1..];
  }

  /** A tower with at least one disk has a non-empty slot, so the goal test is defined on it. */
  lemma TowerHasNonEmptySlot(s: State, h: nat, n: nat)
    requires IsTowerOf(s, h, n) && h >= 1
    ensures exists j :: 0 <= j < |s| && s[j] != []
  {
    RangeExactlyOnce(h, h);
    if forall j :: 0 <= j < |s| ==> s[j] == [] {
      EmptySlotsHoldNothing(s);
      assert false;
    }
  }

  /**
    On a tower of distinct disks 1..h (h >= 1), the goal is all disks in one
    slot with each disk smaller than every disk below it.
   */
  lemma GoalTowerIsStrictlyDecreasing(s: State, h: nat, n: nat)
    requires IsTowerOf(s, h, n) && h >= 1
    ensures exists j :: 0 <= j < |s| && s[j] != []
    ensures IsGoalState(s) <==> exists k :: OnlyNonEmpty(s, k) && StrictlyDecreasing(s[k])
  {
    TowerHasNonEmptySlot(s, h, n);
    GoalStateMeaning(s);
    forall k | OnlyNonEmpty(s, k) && NonIncreasing(s[k])
      ensures StrictlyDecreasing(s[k])
    {
      OnlySlotHoldsAllDisks(s, k);
      forall i, j | 0 <= i < j < |s[k]| ensures s[k][i] > s[k][j] {
        if s[k][i] == s[k][j] {
          NoRepeatedDisk(s[k], i, j);
          RangeExactlyOnce(h, s[k][i]);
          assert false;
        }
      }
    }
  }

  /** From [[3, 1], [2], []], the top disk 1 may move onto the empty slot 2. */
  lemma MoveOntoEmptySlotExample()
    ensures Successor([[3], [2], [1]], Action(0, 2), 1) in Successors([[3, 1], [2], []], 3)
  {
    var s: State := [[3, 1], [2], []];
    assert Legal(s, 0, 2);
    var r := Move(s, 0, 2);
    assert s[0][..1] == [3];
    assert r[0] == [3] && r[1] == [2] && r[2] == [1];
    assert r == [[3], [2], [1]];
  }

  /** All disks gathered largest-first in one slot is a goal. */
  lemma GatheredIsGoal()
    ensures var s: State := [[], [], [3, 2, 1]]; s[2] != [] && IsGoalState(s)
  {
    var s: State := [[], [], [3, 2, 1]];
    assert s[2] != [];
    assert OnlyNonEmpty(s, 2) && NonIncreasing(s[2]);
    GoalStateMeaning(s);
    assert IsGoal(s);
  }

  /** Disks spread over several slots are not a goal. */
  lemma SpreadIsNotGoal()
    ensures var s: State := [[3], [2], [1]]; s[0] != [] && !IsGoalState(s)
  {
    var s: State := [[3], [2], [1]];
    assert s[0] != [];
    GoalStateMeaning(s);
    forall k ensures !OnlyNonEmpty(s, k) {
      if k == 0 { assert s[1] != []; } else if 0 < k < 3 { assert s[0] != []; }
    }
  }

  /** All disks gathered smallest-first is not a goal. */
  lemma AscendingIsNotGoal()
    ensures var s: State := [[], [], [1, 2, 3]]; s[2] != [] && !IsGoalState(s)
  {
    var s: State := [[], [], [1, 2, 3]];
    assert OnlyNonEmpty(s, 2);
    OneNonEmptySlot(s);
    assert !NonIncreasing(s[2]) by { assert s[2][0] < s[2][1]; }
    assert SortDescending(s[2]) != s[2];
  }
}
