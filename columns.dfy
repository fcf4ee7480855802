/** The state of a `data_vector` (a TFS column) and the value-level
    meaning of its operations. The mutable class is `DataVectors.DataVector`. */
module Columns {
  import opened Bytes
  import opened Results
  import opened Values
  import opened Text

  /** The `std::variant` of four vectors; there is no complex alternative. */
  datatype Payload =
    | Strings(strings: seq<Bytes>)
    | Reals(reals: seq<Float>)
    | Ints(ints: seq<int32>)
    | Bools(bools: seq<bool>)

  /** The three fields of a `data_vector`. The tag and the active
      alternative are separate fields, so here they can disagree. */
  datatype Column = Column(tag: DataType, name: Bytes, payload: Payload)

  /** The pairing of tag and alternative that the constructor sets up: the
      tag's own vector, and the variant's default (the string vector) for
      `C`, which the constructor's switch does not handle. */
  predicate Agrees(c: Column)
  {
    match c.tag
    case S => c.payload.Strings?
    case LE => c.payload.Reals?
    case D => c.payload.Ints?
    case B => c.payload.Bools?
    case C => c.payload.Strings?
  }

  /** The elements of the active vector, as scalar values. */
  function Elements(p: Payload): (vs: seq<Value>)
    ensures |vs| == Count(p)
  {
    match p
    case Strings(ss) => seq(|ss|, i requires 0 <= i < |ss| => StrVal(ss[i]))
    case Reals(rs) => seq(|rs|, i requires 0 <= i < |rs| => RealVal(rs[i]))
    case Ints(xs) => seq(|xs|, i requires 0 <= i < |xs| => IntVal(xs[i]))
    case Bools(bs) => seq(|bs|, i requires 0 <= i < |bs| => BoolVal(bs[i]))
  }

  function Count(p: Payload): nat
  {
    match p
    case Strings(ss) => |ss|
    case Reals(rs) => |rs|
    case Ints(xs) => |xs|
    case Bools(bs) => |bs|
  }

  /** `data_vector(t, s)`: an empty column of tag `t` named `s`. */
  function NewColumn(t: DataType, name: Bytes): (c: Column)
    ensures c.tag == t && c.name == name && Agrees(c)
    ensures Count(c.payload) == 0
  {
    var p := match t
      case B => Bools([])
      case LE => Reals([])
      case D => Ints([])
      case _ => Strings([]);
    Column(t, name, p)
  }

  /** `size()`: the length of the tag's vector; 0 for `B` and `C`, which its
      switch does not handle; `std::get` throws on a disagreeing alternative. */
  function Size(c: Column): (r: Result<nat>)
    ensures c.tag in {B, C} ==> r == Ok(0)
    ensures c.tag in {S, LE, D} ==> (r.Ok? <==> Agrees(c))
    ensures c.tag in {S, LE, D} && r.Ok? ==> r.value == Count(c.payload)
    ensures r.Err? ==> r.error == BadVariantAccess
  {
    match c.tag
    case D => if c.payload.Ints? then Ok(|c.payload.ints|) else Err(BadVariantAccess)
    case LE => if c.payload.Reals? then Ok(|c.payload.reals|) else Err(BadVariantAccess)
    case S => if c.payload.Strings? then Ok(|c.payload.strings|) else Err(BadVariantAccess)
    case _ => Ok(0)
  }

  /** The `push_back` overloads (bool, int, double, string; there is none for
      complex): a tag other than the value's throws `runtime_error`; with the
      right tag the tag's vector gets the value at its end. */
  function PushBack(c: Column, v: Value): (r: Result<Column>)
    requires !v.ComplexVal?
    ensures r.Ok? <==> v.Type() == c.tag && Agrees(c)
    ensures r.Err? && v.Type() != c.tag ==> r.error == TypeMismatch
    ensures r.Err? && v.Type() == c.tag ==> r.error == BadVariantAccess
    ensures r.Ok? ==> r.value.tag == c.tag && r.value.name == c.name && Agrees(r.value)
    ensures r.Ok? ==> Elements(r.value.payload) == Elements(c.payload) + [v]
  {
    if v.Type() != c.tag then Err(TypeMismatch)
    else
      match v
      case BoolVal(b) =>
        if c.payload.Bools? then Ok(c.(payload := Bools(c.payload.bools + [b]))) else Err(BadVariantAccess)
      case IntVal(i) =>
        if c.payload.Ints? then Ok(c.(payload := Ints(c.payload.ints + [i]))) else Err(BadVariantAccess)
      case RealVal(x) =>
        if c.payload.Reals? then Ok(c.(payload := Reals(c.payload.reals + [x]))) else Err(BadVariantAccess)
      case StrVal(s) =>
        if c.payload.Strings? then Ok(c.(payload := Strings(c.payload.strings + [s]))) else Err(BadVariantAccess)
  }

  /** A successful `push_back` grows `size()` by one, except on a `B`
      column, whose `size()` stays 0. */
  lemma PushBackSize(c: Column, v: Value)
    requires !v.ComplexVal? && PushBack(c, v).Ok?
    ensures c.tag != B ==> Size(PushBack(c, v).value) == Ok(Size(c).value + 1)
    ensures c.tag == B ==> Size(PushBack(c, v).value) == Ok(0)
  {
    var c' := PushBack(c, v).value;
    assert |Elements(c'.payload)| == |Elements(c.payload)| + 1;
  }

  /** A failed `push_back` leaves the column as it was (it throws before touching it). */
  lemma PushBackMismatch(c: Column, v: Value)
    requires !v.ComplexVal? && v.Type() != c.tag
    ensures PushBack(c, v) == Err(TypeMismatch)
  {
  }

  /** The value `convert_back` makes of a token for a column of tag `t`. */
  function TokenValue(t: DataType, token: Bytes, strtod: Bytes -> Float): (v: Value)
    requires t in {S, LE, D}
    ensures v.Type() == t
  {
    match t
    case D => IntVal(ToInt32(Strtol(token)))
    case LE => RealVal(strtod(token))
    case S => StrVal(token)
  }

  /** `convert_back`: parse the token by the column's tag and push it; the
      switch does nothing for `B` and `C`. */
  function ConvertBack(c: Column, token: Bytes, strtod: Bytes -> Float): (r: Result<Column>)
    ensures c.tag in {B, C} ==> r == Ok(c)
    ensures c.tag in {S, LE, D} ==> (r.Ok? <==> Agrees(c))
    ensures c.tag in {S, LE, D} && r.Ok? ==>
      r.value.tag == c.tag && r.value.name == c.name && Agrees(r.value) &&
      Elements(r.value.payload) == Elements(c.payload) + [TokenValue(c.tag, token, strtod)]
    ensures r.Err? ==> r.error == BadVariantAccess
  {
    match c.tag
    case B => Ok(c)
    case C => Ok(c)
    case _ => PushBack(c, TokenValue(c.tag, token, strtod))
  }

  /** The tag's accessor succeeds for `reserve`; `C` is not in its switch. */
  predicate ReserveSucceeds(c: Column)
  {
    c.tag == C || Agrees(c)
  }
}
