/**
 * The quicksort automaton of quickSort.h as an object: the globals of
 * quickSort.h:22-27 become fields, `lines` an array of keys, and each
 * routine a method proved to do what QuickSortSpec says one call does.
 */
module QuickSortMachine {
  import opened QuickSortSpec

  class SortAutomaton {
    /** The keys (`angle` fields) of `lines`. */
    const lines: array<int>
    var left: int
    var right: int
    var pivotIndex: int
    var i: int
    var j: int
    var state: Phase
    var sorting: bool
    /** std::stack of pending ranges; its top is the last element. */
    var stack: seq<Range>

    /** The globals as one value. */
    ghost function Snap(): Snapshot
      reads this, lines
    {
      Snapshot(lines[..], left, right, pivotIndex, i, j, state, sorting, stack)
    }

    /** The globals with their initial values (quickSort.h:22-27), over given keys. */
    constructor (keys: seq<int>)
      ensures Snap() == Initial(keys)
      ensures fresh(lines)
    {
      lines := new int[|keys|](k => if 0 <= k < |keys| then keys[k] else 0);
      left, right, pivotIndex, i, j := 0, -1, -1, 0, 0;
      state := Partition;
      sorting := false;
      stack := [];
      new;
      assert lines[..] == keys by {
        assert forall k | 0 <= k < |keys| :: lines[k] == keys[k];
      }
    }

    /** swap(Line&, Line&) at quickSort.h:40-44 on the keys at p and q. */
    method Exchange(p: int, q: int)
      requires 0 <= p < lines.Length && 0 <= q < lines.Length
      modifies lines
      ensures lines[..] == Swapped(old(lines[..]), p, q)
    {
      var t := lines[p];
      lines[p] := lines[q];
      lines[q] := t;
    }

    /** quicksort(leftBound, rightBound) at quickSort.h:61-73. */
    method QuickSort(leftBound: int, rightBound: int)
      modifies this
      ensures Snap() == QuickSortSpec.QuickSort(old(Snap()), leftBound, rightBound)
    {
      if leftBound < rightBound {
        left := leftBound;
        right := rightBound;
        pivotIndex := rightBound;
        i := left - 1;
        j := left;
        state := Partition;
      } else {
        sorting := false;
      }
    }

    /** Pops the top range and opens a frame on it, or ends the run
        (quickSort.h:99-106, 111-118). */
    method PopOrFinish()
      modifies this
      ensures Snap() == PopOrStop(old(Snap()))
    {
      if |stack| > 0 {
        var bounds := stack[|stack| - 1];
        stack := stack[..|stack| - 1];
        QuickSort(bounds.0, bounds.1);
      } else {
        sorting := false;
      }
    }

    /** updateSort() at quickSort.h:75-121: one micro-step. */
    method UpdateSort()
      requires Indexable(Snap())
      modifies this, lines
      ensures Snap() == Step(old(Snap()))
    {
      if !sorting {
        return;
      }
      if state == Partition {
        PartitionTick();
      } else if state == Swap {
        state := Recurse;
      } else {
        RecurseTick();
      }
    }

    /** The PARTITION branch, quickSort.h:78-91: one comparison, or the pivot placement. */
    method PartitionTick()
      requires sorting && state == Partition && Indexable(Snap())
      modifies this, lines
      ensures Snap() == Step(old(Snap()))
    {
      PartitionStep(Snap());
      if j < right {
        CompareTick();
      } else {
        PlaceTick();
      }
    }

    /** One comparison of the scan, quickSort.h:79-85: a key at most the pivot
        is exchanged to the end of the low part; j always advances. */
    method CompareTick()
      requires sorting && state == Partition && Indexable(Snap()) && j < right
      modifies this, lines
      ensures Snap() ==
        if old(lines[j] <= lines[pivotIndex]) then
          old(Snap()).(keys := Swapped(old(lines[..]), old(i) + 1, old(j)), i := old(i) + 1, j := old(j) + 1)
        else
          old(Snap()).(j := old(j) + 1)
    {
      if lines[j] <= lines[pivotIndex] {
        i := i + 1;
        Exchange(i, j);
      }
      j := j + 1;
    }

    /** The pivot placement, quickSort.h:86-90. */
    method PlaceTick()
      requires sorting && state == Partition && Indexable(Snap())
      modifies this, lines
      ensures Snap() == old(Snap()).(keys := Swapped(old(lines[..]), old(i) + 1, old(pivotIndex)), i := old(i) + 1, state := Swap)
    {
      i := i + 1;
      Exchange(i, pivotIndex);
      state := Swap;
    }

    /** The RECURSE branch, quickSort.h:95-120: defer one side, of at most half the frame, and continue with the other. */
    method RecurseTick()
      requires sorting && state == Recurse
      modifies this
      ensures Snap() == RecurseStep(old(Snap()))
    {
      if i - 1 - left > right - i {
        if i + 1 < right {
          stack := stack + [(i + 1, right)];
        }
        if left < i - 1 {
          QuickSort(left, i - 1);
        } else {
          PopOrFinish();
        }
      } else {
        if left < i - 1 {
          stack := stack + [(left, i - 1)];
        }
        if i + 1 < right {
          QuickSort(i + 1, right);
        } else {
          PopOrFinish();
        }
      }
    }

    /** The Space handler at quickSort.h:159-163: when idle, clear the stack,
        set `sorting` and open the frame over all keys. */
    method Start()
      modifies this
      ensures Snap() == if old(sorting) then old(Snap()) else Begin(old(Snap()))
    {
      if !sorting {
        stack := [];
        sorting := true;
        QuickSort(0, lines.Length - 1);
      }
    }

    /** The update loop of quickSort.h:168-171 without its clock: step until
        `sorting` is false. The run always ends, sorted and permuted. */
    method RunToEnd()
      requires Inv(Snap())
      modifies this, lines
      ensures Snap() == Run(old(Snap()))
      ensures !sorting && Sorted(lines[..]) && multiset(lines[..]) == multiset(old(lines[..]))
    {
      while sorting
        invariant Inv(Snap())
        invariant Run(Snap()) == Run(old(Snap()))
        decreases Unsorted(Snap()), Rank(Snap()), ScanLeft(Snap())
      {
        ghost var before := Snap();
        StepKeepsInv(before);
        StepProgresses(before);
        UpdateSort();
      }
    }
  }

  /** A whole session: load the keys, press Space once, and step until the
      automaton stops. The result is the keys in non-decreasing order. */
  method SortKeys(keys: seq<int>) returns (sorted: seq<int>)
    ensures Sorted(sorted) && multiset(sorted) == multiset(keys)
  {
    var m := new SortAutomaton(keys);
    m.Start();
    BeginInv(Initial(keys));
    m.RunToEnd();
    sorted := m.lines[..];
  }
}
