/**
 Row filters: a comparison against a literal, and the filter that applies
 such a comparison to one named column (or lets every row through).
 */
module Filter {

  /**
   A comparison holding the literal it compares against.  Equality is the
   one kind of comparison there is.
   */
  datatype Comparison = EqualsStr(val: string)
  {
    /** The literal given at construction. */
    function GetVal(): (v: string)
      ensures this == EqualsStr(v)
    {
      val
    }

    /** Whether `x` passes the comparison. */
    predicate Holds(x: string)
      ensures Holds(x) <==> x == GetVal()
    {
      match this
      case EqualsStr(v) => v == x
    }
  }

  /**
   A filter on the column named `header`, or the default filter, which has
   no comparison and an empty header.
   */
  datatype CsvFilter = NoOp | Filtered(header: string, comp: Comparison)
  {
    /** Whether a row whose filter-column value is `x` is kept. */
    predicate Accepts(x: string)
      ensures NoOp? ==> Accepts(x)
      ensures Filtered? ==> (Accepts(x) <==> comp.Holds(x))
    {
      match this
      case NoOp => true
      case Filtered(_, c) => c.Holds(x)
    }

    /** The column the filter looks at; empty for the default filter. */
    function GetHeader(): (h: string)
      ensures NoOp? ==> h == []
      ensures Filtered? ==> h == header
    {
      match this
      case NoOp => []
      case Filtered(h, _) => h
    }
  }

  /** An equality filter accepts exactly the cells equal to its literal. */
  lemma EqualsFilterSpec(h: string, v: string, x: string)
    ensures Filtered(h, EqualsStr(v)).Accepts(x) <==> x == v
    ensures Filtered(h, EqualsStr(v)).GetHeader() == h
  {
  }
}
