/** Scalar values and named properties: `DataType`, `data_value` and
    `data_property` of tfs_dataframe.h. */
module Values {
  import opened Bytes
  import opened Results

  /** The TFS type tags, numbered as the C++ enum numbers them. */
  datatype DataType = S | LE | D | B | C

  function TagCode(t: DataType): (n: nat)
    ensures n < 5
  {
    match t
    case S => 0
    case LE => 1
    case D => 2
    case B => 3
    case C => 4
  }

  /** The enumerator a 4-byte tag read from a stream denotes, if any. */
  function TagOfCode(n: nat): (r: Option<DataType>)
    ensures r.Some? <==> n < 5
    ensures r.Some? ==> TagCode(r.value) == n
  {
    if n == 0 then Some(S)
    else if n == 1 then Some(LE)
    else if n == 2 then Some(D)
    else if n == 3 then Some(B)
    else if n == 4 then Some(C)
    else None
  }

  lemma TagCodeRoundTrip(t: DataType)
    ensures TagOfCode(TagCode(t)) == Some(t)
  {
  }

  /** A `double`, kept as its 64-bit IEEE-754 pattern: no arithmetic on it is modelled. */
  type Float = uint64

  /** The pattern of +0.0. */
  const ZERO: Float := 0

  datatype Complex = Complex(re: Float, im: Float)

  /** `data_value`: the tag and the active alternative of the payload are
      one and the same choice here, so they cannot disagree. */
  datatype Value =
    | IntVal(i: int32)
    | RealVal(r: Float)
    | BoolVal(b: bool)
    | ComplexVal(c: Complex)
    | StrVal(s: Bytes)
  {
    /** The `type` field as each constructor sets it. */
    function Type(): DataType
    {
      match this
      case IntVal(_) => D
      case RealVal(_) => LE
      case BoolVal(_) => B
      case ComplexVal(_) => C
      case StrVal(_) => S
    }
  }

  /** `data_value()`: the default value is the integer 0. */
  function DefaultValue(): (v: Value)
    ensures v.Type() == D && GetInt(v) == Ok(0)
  {
    IntVal(0)
  }

  /** `get_int`: `std::get<int>`, which throws unless the value is a `%d`. */
  function GetInt(v: Value): (r: Result<int32>)
    ensures r.Ok? <==> v.Type() == D
    ensures r.Ok? ==> v == IntVal(r.value)
    ensures r.Err? ==> r.error == BadVariantAccess
  {
    if v.IntVal? then Ok(v.i) else Err(BadVariantAccess)
  }

  /** `get_double`: succeeds only on a `%le` value. */
  function GetDouble(v: Value): (r: Result<Float>)
    ensures r.Ok? <==> v.Type() == LE
    ensures r.Ok? ==> v == RealVal(r.value)
    ensures r.Err? ==> r.error == BadVariantAccess
  {
    if v.RealVal? then Ok(v.r) else Err(BadVariantAccess)
  }

  /** `get_string`: succeeds only on a `%s` value. */
  function GetString(v: Value): (r: Result<Bytes>)
    ensures r.Ok? <==> v.Type() == S
    ensures r.Ok? ==> v == StrVal(r.value)
    ensures r.Err? ==> r.error == BadVariantAccess
  {
    if v.StrVal? then Ok(v.s) else Err(BadVariantAccess)
  }

  /** `get_complex`: the stored complex for a `%c` value, and the one
      implicit coercion `(v, 0)` for a `%le` value. For every other tag the
      C++ function falls off its end (undefined behaviour), so the model
      requires one of the two tags. */
  function GetComplex(v: Value): (r: Complex)
    requires v.Type() == C || v.Type() == LE
    ensures v.Type() == LE ==> GetDouble(v) == Ok(r.re) && r.im == ZERO
    ensures v.Type() == C ==> v == ComplexVal(r)
  {
    if v.ComplexVal? then v.c else Complex(v.r, ZERO)
  }

  /** At most one typed getter succeeds, the one the tag names; none of
      them does for `%b` and `%c` values, which have no getter of their own. */
  lemma GettersExclusive(v: Value)
    ensures (if GetInt(v).Ok? then 1 else 0) + (if GetDouble(v).Ok? then 1 else 0)
          + (if GetString(v).Ok? then 1 else 0) == (if v.Type() in {S, LE, D} then 1 else 0)
  {
  }

  /** `data_property`: a (not necessarily unique) name and a value. */
  datatype Property = Property(name: Bytes, value: Value)
}
