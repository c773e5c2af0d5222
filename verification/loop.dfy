/**
 * The loop of the batch run over the roster, reduced to each entry's fate:
 * which entries it writes a file for, and where and how it ends.
 */
module Loop {
  /** What happens to one roster entry. */
  datatype Step =
    | Skip                                           // "Skipping roll ...: missing or invalid data."
    | Emit(name: string, position: nat, roll: string)
    | Crash                                          // `.strip()` on an integer name, or `open` on the output path, raises

  /** How the run ended. */
  datatype Status =
    | Completed
    | RosterMissing          // opening `info.json` raised before any entry was read
    | CrashedAt(index: nat)  // the entry at `index` raised; it and later entries were never written

  /** Which entries the loop writes a file for, and how the loop ends. */
  datatype Walk = Walk(emitted: seq<nat>, status: Status)

  /** Where a loop over `count` entries that ended with `status` stopped reading them. */
  function StopIndex(count: nat, status: Status): (n: nat)
    ensures n <= count
  {
    if status.CrashedAt? && status.index < count then status.index else count
  }

  /**
   * The loop over `infos` from index `from` on, given each entry's fate:
   * emitting entries are listed in roster order, skipped ones do not stop
   * the loop, and a crashing entry ends it there.
   */
  function WalkFrom(steps: seq<Step>, from: nat): (w: Walk)
    requires from <= |steps|
    ensures !w.status.RosterMissing?
    ensures w.status.CrashedAt? ==> from <= w.status.index < |steps| && steps[w.status.index].Crash?
    ensures forall i :: from <= i < StopIndex(|steps|, w.status) ==> !steps[i].Crash?
    ensures forall k :: 0 <= k < |w.emitted| ==>
      from <= w.emitted[k] < StopIndex(|steps|, w.status) && steps[w.emitted[k]].Emit?
    decreases |steps| - from
  {
    if from == |steps| then Walk([], Completed)
    else
      match steps[from]
      case Crash => Walk([], CrashedAt(from))
      case Skip => WalkFrom(steps, from + 1)
      case Emit(_, _, _) =>
        var rest := WalkFrom(steps, from + 1);
        Walk([from] + rest.emitted, rest.status)
  }

  /** The walk lists the entries it emits in roster order. */
  lemma {:induction false} WalkSorted(steps: seq<Step>, from: nat)
    requires from <= |steps|
    ensures forall k, l :: 0 <= k < l < |WalkFrom(steps, from).emitted| ==>
      WalkFrom(steps, from).emitted[k] < WalkFrom(steps, from).emitted[l]
    decreases |steps| - from
  {
    if from < |steps| && !steps[from].Crash? {
      WalkSorted(steps, from + 1);
      var rest := WalkFrom(steps, from + 1).emitted;
      var e := WalkFrom(steps, from).emitted;
      if steps[from].Emit? {
        assert e == [from] + rest;
        forall k, l | 0 <= k < l < |e| ensures e[k] < e[l] {
          assert e[l] == rest[l - 1] && from + 1 <= rest[l - 1];
          if k > 0 {
            assert e[k] == rest[k - 1];
          }
        }
      } else {
        assert e == rest;
      }
    }
  }

  /** Every emitting entry before the walk stops is listed. */
  lemma {:induction false} WalkComplete(steps: seq<Step>, from: nat)
    requires from <= |steps|
    ensures forall i :: from <= i < StopIndex(|steps|, WalkFrom(steps, from).status) && steps[i].Emit? ==>
      i in WalkFrom(steps, from).emitted
    decreases |steps| - from
  {
    if from < |steps| && !steps[from].Crash? {
      WalkComplete(steps, from + 1);
    }
  }

  /** The emitting steps from `from` on. */
  function CountEmits(steps: seq<Step>, from: nat): nat
    requires from <= |steps|
    decreases |steps| - from
  {
    if from == |steps| then 0
    else (if steps[from].Emit? then 1 else 0) + CountEmits(steps, from + 1)
  }

  lemma {:induction false} WalkCount(steps: seq<Step>, from: nat)
    requires from <= |steps|
    requires forall i :: from <= i < |steps| ==> !steps[i].Crash?
    ensures WalkFrom(steps, from).status == Completed
    ensures |WalkFrom(steps, from).emitted| == CountEmits(steps, from)
    decreases |steps| - from
  {
    if from < |steps| {
      WalkCount(steps, from + 1);
    }
  }
}
