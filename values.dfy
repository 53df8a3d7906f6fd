/** Value types shared by the two solvers: an optional value (Python's `None`)
    and the non-negative costs extended with an infinity (`math.inf`). */
module Values {

  datatype Option<T> = None | Some(value: T)

  /** A cost that is either a finite natural number or infinity. */
  datatype Ext = Fin(value: nat) | Inf

  /** `a + w` where `inf + w == inf`. */
  function Add(a: Ext, w: nat): (r: Ext)
    ensures r.Fin? <==> a.Fin?
    ensures r.Fin? ==> r.value >= a.value
  {
    match a
    case Fin(v) => Fin(v + w)
    case Inf => Inf
  }

  /** Strict comparison `a < b`: `inf < inf` is false, every finite value is below `inf`. */
  predicate Less(a: Ext, b: Ext)
  {
    a.Fin? && (b.Inf? || a.value < b.value)
  }

  /** `a <= b` with every value below `inf`. */
  predicate Le(a: Ext, b: Ext)
  {
    b.Inf? || (a.Fin? && a.value <= b.value)
  }
}
