/** `data_vector<real>`: one TFS column as a mutable object. Every method is
    proved against the value-level meaning in modules Columns and Binary. */
module DataVectors {
  import opened Bytes
  import opened Results
  import opened Values
  import opened Columns
  import opened Binary

  class DataVector {
    var payload: Payload
    var tag: DataType
    var name: Bytes

    /** The column this object currently holds. */
    function Value(): Column
      reads this
    {
      Column(tag, name, payload)
    }

    /** `data_vector(t, s)`: the tag's empty vector (the string vector for `C`). */
    constructor (t: DataType, s: Bytes)
      ensures Value() == NewColumn(t, s)
      ensures Agrees(Value()) && Elements(payload) == []
    {
      tag := t;
      name := s;
      match t
      case B => payload := Bools([]);
      case LE => payload := Reals([]);
      case D => payload := Ints([]);
      case S => payload := Strings([]);
      case C => payload := Strings([]);
    }

    /** `as_double_vector()`: the doubles, or `bad_variant_access`. */
    function AsDoubleVector(): (r: Result<seq<Float>>)
      reads this
      ensures r.Ok? <==> payload.Reals?
      ensures r.Ok? ==> |r.value| == Count(payload) && forall i | 0 <= i < |r.value| :: Elements(payload)[i] == RealVal(r.value[i])
      ensures r.Err? ==> r.error == BadVariantAccess
    {
      if payload.Reals? then Ok(payload.reals) else Err(BadVariantAccess)
    }

    /** `as_string_vector()`. */
    function AsStringVector(): (r: Result<seq<Bytes>>)
      reads this
      ensures r.Ok? <==> payload.Strings?
      ensures r.Ok? ==> |r.value| == Count(payload) && forall i | 0 <= i < |r.value| :: Elements(payload)[i] == StrVal(r.value[i])
      ensures r.Err? ==> r.error == BadVariantAccess
    {
      if payload.Strings? then Ok(payload.strings) else Err(BadVariantAccess)
    }

    /** `as_int_vector()`. */
    function AsIntVector(): (r: Result<seq<int32>>)
      reads this
      ensures r.Ok? <==> payload.Ints?
      ensures r.Ok? ==> |r.value| == Count(payload) && forall i | 0 <= i < |r.value| :: Elements(payload)[i] == IntVal(r.value[i])
      ensures r.Err? ==> r.error == BadVariantAccess
    {
      if payload.Ints? then Ok(payload.ints) else Err(BadVariantAccess)
    }

    /** `as_bool_vector()`. */
    function AsBoolVector(): (r: Result<seq<bool>>)
      reads this
      ensures r.Ok? <==> payload.Bools?
      ensures r.Ok? ==> |r.value| == Count(payload) && forall i | 0 <= i < |r.value| :: Elements(payload)[i] == BoolVal(r.value[i])
      ensures r.Err? ==> r.error == BadVariantAccess
    {
      if payload.Bools? then Ok(payload.bools) else Err(BadVariantAccess)
    }

    /** `size()`: the element count of the tag's vector, 0 for `B` and `C`. */
    method Size() returns (r: Result<nat>)
      ensures r == Columns.Size(Value())
      ensures r.Ok? && tag in {S, LE, D} ==> r.value == |Elements(payload)|
    {
      match tag
      case D =>
        var v := AsIntVector();
        if v.Err? { return Err(v.error); }
        return Ok(|v.value|);
      case LE =>
        var v := AsDoubleVector();
        if v.Err? { return Err(v.error); }
        return Ok(|v.value|);
      case S =>
        var v := AsStringVector();
        if v.Err? { return Err(v.error); }
        return Ok(|v.value|);
      case _ =>
        return Ok(0);
    }

    method SetName(s: Bytes)
      modifies this
      ensures Value() == old(Value()).(name := s)
    {
      name := s;
    }

    /** The `push_back` overloads; a wrong tag throws before anything changes. */
    method PushBack(v: Value) returns (r: Outcome)
      requires !v.ComplexVal?
      modifies this
      ensures r.Pass? <==> Columns.PushBack(old(Value()), v).Ok?
      ensures r.Pass? ==> Value() == Columns.PushBack(old(Value()), v).value
      ensures r.Fail? ==> r.error == Columns.PushBack(old(Value()), v).error && unchanged(this)
    {
      if v.Type() != tag {
        return Fail(TypeMismatch);
      }
      match v {
      case BoolVal(b) =>
        var xs := AsBoolVector();
        if xs.Err? { return Fail(xs.error); }
        payload := Bools(xs.value + [b]);
      case IntVal(i) =>
        var xs := AsIntVector();
        if xs.Err? { return Fail(xs.error); }
        payload := Ints(xs.value + [i]);
      case RealVal(x) =>
        var xs := AsDoubleVector();
        if xs.Err? { return Fail(xs.error); }
        payload := Reals(xs.value + [x]);
      case StrVal(s) =>
        var xs := AsStringVector();
        if xs.Err? { return Fail(xs.error); }
        payload := Strings(xs.value + [s]);
      }
      return Pass;
    }

    /** `convert_back(s)`: parse the token by the tag and push it. */
    method ConvertBack(token: Bytes, strtod: Bytes -> Float) returns (r: Outcome)
      modifies this
      ensures r.Pass? <==> Columns.ConvertBack(old(Value()), token, strtod).Ok?
      ensures r.Pass? ==> Value() == Columns.ConvertBack(old(Value()), token, strtod).value
      ensures r.Fail? ==> r.error == Columns.ConvertBack(old(Value()), token, strtod).error && unchanged(this)
    {
      match tag
      case D => r := PushBack(TokenValue(D, token, strtod));
      case LE => r := PushBack(TokenValue(LE, token, strtod));
      case S => r := PushBack(StrVal(token));
      case _ => r := Pass;
    }

    /** `reserve(n)`: only the capacity changes, which the model does not
        track; the tag's accessor throws on a disagreeing alternative. */
    method Reserve(n: nat) returns (r: Outcome)
      ensures r.Pass? <==> ReserveSucceeds(Value())
      ensures r.Fail? ==> r.error == BadVariantAccess
    {
      match tag
      case B => r := if payload.Bools? then Pass else Fail(BadVariantAccess);
      case D => r := if payload.Ints? then Pass else Fail(BadVariantAccess);
      case LE => r := if payload.Reals? then Pass else Fail(BadVariantAccess);
      case S => r := if payload.Strings? then Pass else Fail(BadVariantAccess);
      case C => r := Pass;
    }

    /** `write_to_binary`: the bytes written, and the exception if one is thrown. */
    method WriteToBinary() returns (out: Emit)
      ensures out == WriteColumn(Value())
    {
      var bytes := EncodeString(name) + U32(TagCode(tag));
      var count := Size();
      if count.Err? {
        return Emit(bytes, Some(count.error));
      }
      bytes := bytes + U64(count.value % TWO_64);
      if tag == LE {
        var elems := WriteReals(AsDoubleVector().value);
        return Emit(bytes + elems, None);
      } else if tag == S {
        var elems := WriteStrings(AsStringVector().value);
        return Emit(bytes + elems, None);
      }
      return Emit(bytes, Some(NotImplemented));
    }

    /** `read_from_binary(file, *this)`: read name, tag and count from the
        stream, store the name and tag, then append `count` elements to the
        tag's vector; returns the bytes of the stream after the column. When
        it throws, the name and tag read are already stored. */
    method ReadFromBinary(data: Bytes) returns (r: Result<Bytes>)
      modifies this
      ensures r.Ok? <==> ReadColumnInto(old(Value()), data).Ok?
      ensures r.Ok? ==> (Value(), r.value) == ReadColumnInto(old(Value()), data).value
      ensures r.Err? ==> r.error == ReadColumnInto(old(Value()), data).error
      ensures r.Err? ==> name == StampHeader(old(Value()), data).name && tag == StampHeader(old(Value()), data).tag
      ensures r.Err? && r.error != EndOfStream ==> Value() == StampHeader(old(Value()), data)
    {
      Pow256Widths();
      ghost var c0 := Value();
      var rn := ReadString(data);
      if rn.Err? { return Err(rn.error); }
      var rt := ReadUnsigned(rn.value.1, 4);
      if rt.Err? { return Err(rt.error); }
      var rc := ReadUnsigned(rt.value.1, 8);
      if rc.Err? { return Err(rc.error); }
      var count := rc.value.0;
      var rest := rc.value.1;
      var t := TagOfCode(rt.value.0);
      name := rn.value.0;
      if t.Some? { tag := t.value; }
      if rt.value.0 == TagCode(LE) {
        var v := AsDoubleVector();
        if v.Err? { return Err(v.error); }
        r := ReadRealsIn(rest, count);
        return;
      } else if rt.value.0 == TagCode(S) {
        var v := AsStringVector();
        if v.Err? { return Err(v.error); }
        r := ReadStringsIn(rest, count);
        return;
      }
      return Err(NotImplemented);
    }

    /** The double loop of `read_from_binary`: `count` doubles appended to
        the vector held, name and tag untouched. */
    method ReadRealsIn(data: Bytes, count: nat) returns (r: Result<Bytes>)
      requires payload.Reals?
      modifies this
      ensures name == old(name) && tag == old(tag) && payload.Reals?
      ensures r.Ok? <==> ReadReals(data, count, old(payload.reals)).Ok?
      ensures r.Ok? ==> (payload.reals, r.value) == ReadReals(data, count, old(payload.reals)).value
      ensures r.Err? ==> r.error == EndOfStream
    {
      Pow256Widths();
      var rest := data;
      var i := 0;
      while i < count
        invariant 0 <= i <= count && payload.Reals?
        invariant name == old(name) && tag == old(tag)
        invariant ReadReals(rest, count - i, payload.reals) == ReadReals(data, count, old(payload.reals))
      {
        var x := ReadUnsigned(rest, 8);
        if x.Err? { return Err(x.error); }
        payload := Reals(payload.reals + [x.value.0 as uint64]);
        rest := x.value.1;
        i := i + 1;
      }
      return Ok(rest);
    }

    /** The string loop of `read_from_binary`: `count` strings appended to
        the vector held, name and tag untouched. */
    method ReadStringsIn(data: Bytes, count: nat) returns (r: Result<Bytes>)
      requires payload.Strings?
      modifies this
      ensures name == old(name) && tag == old(tag) && payload.Strings?
      ensures r.Ok? <==> ReadStrings(data, count, old(payload.strings)).Ok?
      ensures r.Ok? ==> (payload.strings, r.value) == ReadStrings(data, count, old(payload.strings)).value
      ensures r.Err? ==> r.error == EndOfStream
    {
      var rest := data;
      var i := 0;
      while i < count
        invariant 0 <= i <= count && payload.Strings?
        invariant name == old(name) && tag == old(tag)
        invariant ReadStrings(rest, count - i, payload.strings) == ReadStrings(data, count, old(payload.strings))
      {
        var x := ReadString(rest);
        if x.Err? { return Err(x.error); }
        payload := Strings(payload.strings + [x.value.0]);
        rest := x.value.1;
        i := i + 1;
      }
      return Ok(rest);
    }
  }

  /** The element loop of `write_to_binary` for a double vector. */
  method WriteReals(rs: seq<Float>) returns (bytes: Bytes)
    ensures bytes == EncodeReals(rs)
  {
    bytes := [];
    var i := 0;
    while i < |rs|
      invariant 0 <= i <= |rs|
      invariant bytes == EncodeReals(rs[..i])
    {
      EncodeRealsSnoc(rs[..i], rs[i]);
      assert rs[..i + 1] == rs[..i] + [rs[i]];
      bytes := bytes + U64(rs[i] as nat);
      i := i + 1;
    }
    assert rs[..i] == rs;
  }

  /** The element loop of `write_to_binary` for a string vector. */
  method WriteStrings(ss: seq<Bytes>) returns (bytes: Bytes)
    ensures bytes == EncodeStrings(ss)
  {
    bytes := [];
    var i := 0;
    while i < |ss|
      invariant 0 <= i <= |ss|
      invariant bytes == EncodeStrings(ss[..i])
    {
      EncodeStringsSnoc(ss[..i], ss[i]);
      assert ss[..i + 1] == ss[..i] + [ss[i]];
      bytes := bytes + EncodeString(ss[i]);
      i := i + 1;
    }
    assert ss[..i] == ss;
  }
}
