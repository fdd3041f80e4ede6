# Generalised Tower of Hanoi as a search problem

This project models the Hanoi tower search problem of `pacman/search/hanoitower.py` in
Dafny and proves properties of the model. The problem allows any number of slots and any
starting arrangement. A state is a sequence of `slot_size` stacks of integer disks, and the
last element of each stack is its top. The problem gives a generic search engine three
things: a start state, a goal test and a successor generator.

Everything is in one module, `HanoiTower` (`hanoitower.dfy`):

- **State and moves.** `State` is `seq<seq<int>>`. Dafny sequences are values, so each
  successor is an independent copy of its parent. This is what `deepcopy` provides in the
  source. `Legal` is the move rule: the leaving slot is non-empty, and the arriving slot is
  empty or has a strictly larger top disk. `Move` pops the top of one slot and appends it
  to another. `Disks` is the multiset of all disks in a state.
- **Successor generator.** `HanoiTowerSearchProblem.GetSuccessors` is the source's nested
  loop. It appends `(state, action, 1)` entries to a list, and it is proved equal to the
  specification function `Successors`. The contract of `Successors` states what the list
  is: only legal moves, every legal move, each action once, and no move from a slot to
  itself. Entries are ordered by leaving slot, then by arriving slot.
- **Goal test.** `IsGoalState` computes the goal test as the source does: it counts the
  non-empty slots, and it compares the first non-empty slot with its own descending sort.
  `SortDescending` is an insertion sort. It stands in for Python's `sorted(x, reverse=True)`,
  which gives the same value on integers.
- **Initial-state builder.** `CreateRandomHanoiTower` places disk `i` in slot
  `choices[i-1]`, then permutes each slot arbitrarily. The caller supplies the `choices`
  that `random.randint` would draw. The shuffle is a nondeterministic choice of any
  permutation of the slot.
- **Problem object.** `HanoiTowerSearchProblem` stores `hanoiSize`, `slotSize` and the
  start tower built once by its constructor. `GetStartState` returns that stored tower.

## Model

| member | source | states |
|---|---|---|
| `HanoiTower.HanoiTowerSearchProblem.GetSuccessors` | pacman/search/hanoitower.py:46-62 | The nested loop over leaving and arriving slots returns exactly `Successors(state, slotSize)`. The properties below therefore hold for its output. |
| `HanoiTower.Successors` | pacman/search/hanoitower.py:47-60 | Every entry is a legal move of `s`, applied, at cost 1. No entry moves a slot onto itself. Every legal `(l, a)` pair gives an entry. Entries are strictly ordered by leaving slot, then arriving slot, so each action appears once. |
| `HanoiTower.RowSpec` | pacman/search/hanoitower.py:48-60 | For one leaving slot, the inner loop produces only legal moves out of that slot, in increasing arriving order, and every legal move out of it. |
| `HanoiTower.RowsSpec` | pacman/search/hanoitower.py:47-60 | After the first `l` leaving slots, the list holds only legal moves out of those slots, in lexicographic order, and all of them. |
| `HanoiTower.Legal` | pacman/search/hanoitower.py:50-53 | The move guard: the leaving slot is non-empty, and the arriving slot is empty or has a strictly larger top disk. A legal move never has the same leaving and arriving slot, because the guard would compare a top disk with itself. |
| `HanoiTower.Move` | pacman/search/hanoitower.py:54-55 | A move is one pop/push on a copy. The slot count is unchanged. For `l != a`, the leaving slot loses its top disk and the arriving slot gains that disk on top. For `l == a`, the pop and append on one list give back the original state. Every other slot is unchanged. |
| `HanoiTower.MoveConservesDisks` | pacman/search/hanoitower.py:54-55 | A move keeps the number of slots and the multiset of disks. |
| `HanoiTower.SuccessorsConserveDisks` | pacman/search/hanoitower.py:54-60 | Every successor has as many slots and the same disks as its parent. |
| `HanoiTower.ReachableStatesConserveDisks` | pacman/search/hanoitower.py:54-60 | Every state reached from a tower of disks `1..h` by successor steps is still a tower of disks `1..h`, each disk exactly once. |
| `HanoiTower.MoveOntoEmptySlotExample` | pacman/search/hanoitower.py:57-60 | From `[[3, 1], [2], []]`, moving slot 0 onto the empty slot 2 gives `[[3], [2], [1]]` at cost 1. |
| `HanoiTower.NonEmptySlots` | pacman/search/hanoitower.py:32-33 | The filtered list of non-empty slots. Every entry is non-empty, and the list is empty exactly when every slot is empty. |
| `HanoiTower.OneNonEmptySlot` | pacman/search/hanoitower.py:32 | Condition 1 (exactly one non-empty slot) holds exactly when some slot `k` is the only non-empty slot. The filtered list is then `[s[k]]`. |
| `HanoiTower.IsGoalState` | pacman/search/hanoitower.py:32-35 | The source's test as written. It is defined only when some slot is non-empty, because line 33 indexes `[0]` unconditionally. Where defined, it agrees with `IsGoal`, and `GoalStateMeaning` gives its meaning. |
| `HanoiTower.IsGoal` | pacman/search/hanoitower.py:32-35 | The total version of the test, with condition 2 evaluated only when condition 1 holds. It holds only on a state with a non-empty slot, so it is false on a state without disks. |
| `HanoiTower.SortDescending` | pacman/search/hanoitower.py:33 | The descending sort returns a permutation of its input that is non-increasing. |
| `HanoiTower.SortedFixpoint` | pacman/search/hanoitower.py:33 | A stack equals its descending sort exactly when it is non-increasing from bottom to top. |
| `HanoiTower.GoalStateMeaning` | pacman/search/hanoitower.py:32-35 | The total goal test holds exactly when one slot is non-empty and that slot is non-increasing from bottom to top. Through `IsGoalState`'s agreement with it, the same holds for the source's test wherever that test is defined. |
| `HanoiTower.GoalTowerIsStrictlyDecreasing` | pacman/search/hanoitower.py:32-35 | On a tower of disks `1..h` with `h >= 1`, the goal test is defined. It holds exactly when all disks are in one slot and strictly decrease from bottom to top. |
| `HanoiTower.TowerHasNonEmptySlot` | pacman/search/hanoitower.py:33 | A tower with at least one disk has a non-empty slot, so the `[0]` index in the goal test is in range. |
| `HanoiTower.EmptyStateHasNoSlotToTest` | pacman/search/hanoitower.py:33 | On `[[], [], []]`, no slot is non-empty and the filtered list is empty, so the source's `[0]` fails. The total test is false there. |
| `HanoiTower.GatheredIsGoal` | pacman/search/hanoitower.py:32-35 | `[[], [], [3, 2, 1]]` is a goal. |
| `HanoiTower.SpreadIsNotGoal` | pacman/search/hanoitower.py:32-35 | `[[3], [2], [1]]` is not a goal. |
| `HanoiTower.AscendingIsNotGoal` | pacman/search/hanoitower.py:32-35 | `[[], [], [1, 2, 3]]` is not a goal. |
| `HanoiTower.CreateRandomHanoiTower` | pacman/search/hanoitower.py:74-80 | Fails exactly when there is a disk but no slot to draw. Otherwise the result has `slotSize` slots, each slot a permutation of the pre-shuffle placement, and holds every disk `1..hanoiSize` exactly once. |
| `HanoiTower.Placement` | pacman/search/hanoitower.py:74-77 | The tower before the shuffle has `n` slots. |
| `HanoiTower.PlacementHoldsRange` | pacman/search/hanoitower.py:75-77 | Before the shuffle, the tower holds exactly the disks `1..hanoiSize`. |
| `HanoiTower.PlacementIncreasing` | pacman/search/hanoitower.py:75-77 | Before the shuffle, every slot is strictly increasing from bottom to top and holds only disks in `1..hanoiSize`. |
| `HanoiTower.SlotwisePermutationKeepsDisks` | pacman/search/hanoitower.py:78-79 | Shuffling within slots does not change the multiset of all disks. |
| `HanoiTower.RangeExactlyOnce` | pacman/search/hanoitower.py:75 | The disks `1..h` each occur exactly once, and no other value occurs. |
| `HanoiTower.BuiltTowerHoldsEachDiskOnce` | pacman/search/hanoitower.py:74-80 | In a tower of `h` disks, such as a successful build, each integer `1..h` appears exactly once across the slots, and nothing else appears. |
| `HanoiTower.HanoiTowerSearchProblem.constructor` | pacman/search/hanoitower.py:14-18 | Stores both sizes and a start tower built from the choices. That tower is a valid tower of disks `1..hanoiSize` on `slotSize` slots. |
| `HanoiTower.HanoiTowerSearchProblem.GetStartState` | pacman/search/hanoitower.py:20-24 | Returns the stored start tower, the same value on every call. It is a valid tower. |

## Left out

- The generic search engine (`search.SearchProblem`, `search.breadthFirstSearch`) is not part of this model. Its behaviour is not visible here.
- The `__main__` playback loop is console demo code with `print` and `input`, so it is left out.
- The random source is left out. `random.randint` is replaced by the caller's `choices`. `random.shuffle` is replaced by an arbitrary permutation of each slot. The model proves only what holds for every choice.
- `copy.deepcopy` is replaced by value semantics. Object identity and aliasing are not modelled.
- HanoiTower.CreateRandomHanoiTower: sizes are `nat`. In Python, a negative `hanoi_size` or `slot_size` acts as an empty range, and that case is not modelled.
- HanoiTower.HanoiTowerSearchProblem.constructor: requires `hanoiSize == 0 || slotSize > 0`. Otherwise `__init__` lets the `ValueError` from `random.randint(0, -1)` escape. That error path is modelled on `CreateRandomHanoiTower`, which returns `Failure(EmptyRange)`.
- HanoiTower.HanoiTowerSearchProblem.GetSuccessors: requires `slotSize <= |state|`. A shorter state makes the source's indexing raise `IndexError`. Slots beyond `slotSize` are never read, as in the source.
- Disks are modelled as integers. The source compares list elements with `<`, and only integers are ever placed.
- The class fields are `const`. Nothing in the source reassigns them after `__init__`.

In two places the code differs from the problem's intended contract. This model follows the code:

- The intended contract is that `slot_size = 0` always fails. The code returns `[]` when `hanoi_size = 0` and raises only when there is a disk to place.
- The intended contract is that a problem with no disks simply never reaches the goal. The code's goal test raises on a state without disks (see Findings).

## Findings

| source | as written | input that shows it | evidently intended | confidence | as-written member | corrected member |
|---|---|---|---|---|---|---|
| pacman/search/hanoitower.py:33 | Condition 2 is evaluated even when condition 1 is false, and it indexes `[0]` of the list of non-empty slots. | The state `[[], [], []]`, which is the start state when `hanoi_size = 0` and `slot_size = 3`. The filtered list is empty, so `[0]` raises `IndexError`. | The goal test returns `False` on a state without disks. | high; not executed | `HanoiTower.EmptyStateHasNoSlotToTest` (with `HanoiTower.IsGoalState`, which needs a non-empty slot) | `HanoiTower.GoalStateMeaning` (on `HanoiTower.IsGoal`, which is defined on every state and false on this one) |
