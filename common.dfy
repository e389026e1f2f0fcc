/** Option and Result types shared by every module of the model. */
module Common {

  datatype Option<+T> = None | Some(value: T)

  /** The outcome of an operation that the application can reject. */
  datatype Result<+T, +E> = Ok(value: T) | Err(error: E)

  /** True when no two positions of `s` hold the same value. */
  predicate Distinct<T(==)>(s: seq<T>)
  {
    forall i, j | 0 <= i < j < |s| :: s[i] != s[j]
  }

  /** The positions `i` with `mask[i]`, in ascending order: how a boolean row
      mask (`df[mask]`) selects rows. */
  function KeepWhere(mask: seq<bool>): (r: seq<nat>)
    ensures |r| <= |mask|
    ensures forall k | 0 <= k < |r| :: r[k] < |mask| && mask[r[k]]
    ensures forall i | 0 <= i < |mask| && mask[i] :: i in r
    ensures forall a, b | 0 <= a < b < |r| :: r[a] < r[b]
  {
    if mask == [] then []
    else
      var p := KeepWhere(mask[..|mask| - 1]);
      if mask[|mask| - 1] then p + [|mask| - 1] else p
  }
}
