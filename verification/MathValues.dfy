/** The values expressions work on: scalars, labelled numbers, labelled time series, or no data. */
module MathValues {
  import opened Wrappers

  /** A float64, with rounding and signed zero left aside. */
  datatype Float = NaN | NegInf | Fin(r: real) | PosInf

  const ZERO := Fin(0.0)
  const ONE := Fin(1.0)

  function Truth(b: bool): Float
  {
    if b then ONE else ZERO
  }

  /** IEEE order: false whenever a NaN is involved. */
  predicate Less(a: Float, b: Float)
  {
    match (a, b)
    case (NaN, _) => false
    case (_, NaN) => false
    case (Fin(x), Fin(y)) => x < y
    case (NegInf, _) => !b.NegInf?
    case (_, PosInf) => !a.PosInf?
    case (_, _) => false
  }

  /** IEEE equality: a NaN equals nothing. */
  predicate Same(a: Float, b: Float)
  {
    !a.NaN? && a == b
  }

  function Negate(a: Float): Float
  {
    match a
    case NaN => NaN
    case NegInf => PosInf
    case PosInf => NegInf
    case Fin(r) => Fin(-r)
  }

  type Labels = map<string, string>

  datatype Point = Point(time: int, value: Option<Float>)

  datatype Value =
    | Scalar(name: string, value: Option<Float>)
    | Number(name: string, labels: Labels, value: Option<Float>)
    | Series(name: string, labels: Labels, points: seq<Point>)
    | NoData
  {
    function GetLabels(): Labels
    {
      if Number? || Series? then labels else map[]
    }
  }

  type Results = seq<Value>

  type Vars = map<string, Results>

  /** Indexing the Go map: a missing name reads as an empty result. */
  function Lookup(vars: Vars, name: string): Results
  {
    if name in vars then vars[name] else []
  }

  ghost predicate AgreeOn(vars: Vars, vars': Vars, names: seq<string>)
  {
    forall i | 0 <= i < |names| :: Lookup(vars, names[i]) == Lookup(vars', names[i])
  }

  /**
    The numeric library behind the expressions: float arithmetic on two operands that are not
    NaN, the built-in functions, series reduction and series resampling.
  */
  datatype Library = Library(
    arith: (string, Float, Float) -> Float,
    call: (string, string, seq<Arg>) -> Result<Results>,
    reduce: (string, string, string, Value) -> Result<Value>,      // refID, reducer, mapper, series
    resample: (string, string, Value) -> Result<Value>,            // refID, parameters, series
    classicReduce: (string, Value) -> Option<Float>)               // reducer, series

  datatype Arg = ArgText(text: string) | ArgResults(results: Results)
}
