/**
 The one-shot result cell behind every dialog (a `TaskCompletionSource`): it starts
 unset, the first `SetResult` stores its value, and every later `SetResult` raises
 `InvalidOperationException` and leaves the stored value as it was.
 */
module Completion {
  import opened Options

  datatype Cell<T> = Unset | Set(value: T)

  /** What one `SetResult` call does: it completes the cell, or it raises and the cell is unchanged. */
  datatype Settlement<T> = Settled(cell: Cell<T>) | AlreadyCompleted(cell: Cell<T>)

  function SetResult<T>(cell: Cell<T>, v: T): (s: Settlement<T>)
    ensures s.cell.Set?
    ensures s.Settled? <==> cell.Unset?
    ensures s.Settled? ==> s.cell.value == v
    ensures s.AlreadyCompleted? ==> s.cell == cell
  {
    match cell
    case Unset => Settled(Set(v))
    case Set(_) => AlreadyCompleted(cell)
  }

  /** What the awaiting caller resumes with: the stored value once the cell is set, nothing while it is unset. */
  function Awaited<T>(cell: Cell<T>): (r: Option<T>)
    ensures r.Some? <==> cell.Set?
    ensures cell.Set? ==> r == Some(cell.value)
  {
    match cell
    case Unset => None
    case Set(v) => Some(v)
  }

  /** A run of `SetResult` calls in order: the final cell and how many of the calls raised. */
  function SetResults<T>(cell: Cell<T>, vs: seq<T>): (Cell<T>, nat)
    decreases |vs|
  {
    if |vs| == 0 then (cell, 0)
    else
      var s := SetResult(cell, vs[0]);
      var (final, raised) := SetResults(s.cell, vs[1..]);
      (final, raised + if s.AlreadyCompleted? then 1 else 0)
  }

  /** Once set, the cell keeps its value through any further calls, each of which raises. */
  lemma {:induction false} CompletedCellIsStable<T>(cell: Cell<T>, vs: seq<T>)
    requires cell.Set?
    ensures SetResults(cell, vs) == (cell, |vs|)
    decreases |vs|
  {
    if |vs| > 0 {
      CompletedCellIsStable(cell, vs[1..]);
    }
  }

  /** From an unset cell, the first call's value is the one awaited, and every later call raises. */
  lemma FirstSettlementWins<T>(vs: seq<T>)
    requires |vs| > 0
    ensures SetResults(Unset, vs) == (Set(vs[0]), |vs| - 1)
    ensures Awaited(SetResults(Unset, vs).0) == Some(vs[0])
  {
    CompletedCellIsStable(Set(vs[0]), vs[1..]);
  }
}
