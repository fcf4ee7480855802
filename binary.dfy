/** The binary mirror format, value level: what the writers emit and what
    the readers accept, one framed item at a time.

    Layout (little-endian, see module Bytes):
      string    [u16 n][n bytes]                       (helper::write_string)
      value     [u32 tag][payload]                     (data_value::write_to_binary)
      property  [string name][value]                   (data_property::write_to_binary)
      column    [string name][u32 tag][u64 count][elements]  (data_vector::write_to_binary)
    A reader takes the bytes still unread in the stream and returns the item
    and the bytes after it, as `std::istream::read` leaves the stream just
    past what it read. Running out of input is `EndOfStream`. */
module Binary {
  import opened Bytes
  import opened Results
  import opened Values
  import opened Columns

  // ---------------------------------------------------------------------
  // Reading fixed-width fields
  // ---------------------------------------------------------------------

  function ReadBytes(data: Bytes, n: nat): (r: Result<(Bytes, Bytes)>)
    ensures r.Ok? <==> n <= |data|
    ensures r.Ok? ==> r.value.0 + r.value.1 == data && |r.value.0| == n
    ensures r.Err? ==> r.error == EndOfStream
  {
    if n <= |data| then Ok((data[..n], data[n..])) else Err(EndOfStream)
  }

  /** An unsigned little-endian field of `width` bytes. */
  function ReadUnsigned(data: Bytes, width: nat): (r: Result<(nat, Bytes)>)
    ensures r.Ok? <==> width <= |data|
    ensures r.Ok? ==> r.value.0 < Pow256(width) && r.value.1 == data[width..]
    ensures r.Err? ==> r.error == EndOfStream
  {
    if width <= |data| then Ok((FromLE(data[..width]), data[width..])) else Err(EndOfStream)
  }

  /** A field written with `width` bytes is read back whatever follows it. */
  lemma ReadFixed(n: nat, width: nat, rest: Bytes)
    requires n < Pow256(width)
    ensures ReadUnsigned(ToLE(n, width) + rest, width) == Ok((n, rest))
  {
    var d := ToLE(n, width) + rest;
    assert d[..width] == ToLE(n, width);
    assert d[width..] == rest;
    FromLEToLE(n, width);
  }

  // ---------------------------------------------------------------------
  // helper::write_string / helper::read_string (tfs_dataframe.h:45-65)
  // ---------------------------------------------------------------------

  /** The length is cast to `uint16_t`, and only that many bytes follow. */
  function EncodeString(s: Bytes): (r: Bytes)
    ensures |r| == 2 + |s| % TWO_16
  {
    var n := |s| % TWO_16;
    U16(n) + s[..n]
  }

  function ReadString(data: Bytes): (r: Result<(Bytes, Bytes)>)
    ensures r.Ok? ==> |r.value.0| < TWO_16 && |data| == 2 + |r.value.0| + |r.value.1|
    ensures r.Err? ==> r.error == EndOfStream
  {
    Pow256Widths();
    match ReadUnsigned(data, 2)
    case Err(e) => Err(e)
    case Ok((n, rest)) => ReadBytes(rest, n)
  }

  /** `read_string` after `write_string` gives back the string truncated to
      its low 16 length bits (so the string itself whenever it is shorter
      than 65536 bytes), and leaves the stream right after the encoding. */
  lemma StringRoundTrip(s: Bytes, rest: Bytes)
    ensures ReadString(EncodeString(s) + rest) == Ok((s[..|s| % TWO_16], rest))
    ensures |s| < TWO_16 ==> ReadString(EncodeString(s) + rest) == Ok((s, rest))
  {
    Pow256Widths();
    var n := |s| % TWO_16;
    var t := s[..n] + rest;
    assert EncodeString(s) + rest == ToLE(n, 2) + t;
    ReadFixed(n, 2, t);
    assert t[..n] == s[..n] && t[n..] == rest;
    if |s| < TWO_16 {
      assert s[..n] == s;
    }
  }

  // ---------------------------------------------------------------------
  // data_value (tfs_dataframe.h:125-163)
  // ---------------------------------------------------------------------

  /** The tag, then the payload; `B` and `C` values get no payload at all. */
  function EncodeValue(v: Value): (r: Bytes)
    ensures |r| >= 4 && r[..4] == U32(TagCode(v.Type()))
    ensures v.IntVal? ==> |r| == 8
    ensures v.RealVal? ==> |r| == 12
    ensures v.StrVal? ==> |r| == 6 + |v.s| % TWO_16
    ensures v.Type() in {B, C} ==> |r| == 4
  {
    U32(TagCode(v.Type())) +
      match v
      case IntVal(i) => I32(i)
      case RealVal(x) => U64(x as nat)
      case StrVal(s) => EncodeString(s)
      case _ => []
  }

  /** Only `S` and `LE` are decoded; every other tag, known or not, is "not implemented". */
  function ReadValue(data: Bytes): (r: Result<(Value, Bytes)>)
    ensures r.Ok? ==> r.value.0.Type() in {S, LE} && |r.value.1| < |data|
  {
    Pow256Widths();
    match ReadUnsigned(data, 4)
    case Err(e) => Err(e)
    case Ok((tag, p)) =>
      if tag == TagCode(S) then
        match ReadString(p)
        case Err(e) => Err(e)
        case Ok((s, q)) => Ok((StrVal(s), q))
      else if tag == TagCode(LE) then
        match ReadUnsigned(p, 8)
        case Err(e) => Err(e)
        case Ok((bits, q)) => Ok((RealVal(bits as uint64), q))
      else Err(NotImplemented)
  }

  /** Encode-then-decode reproduces `S` (shorter than 65536 bytes) and `LE` values. */
  lemma ValueRoundTrip(v: Value, rest: Bytes)
    requires v.Type() in {S, LE} && (v.StrVal? ==> |v.s| < TWO_16)
    ensures ReadValue(EncodeValue(v) + rest) == Ok((v, rest))
  {
    Pow256Widths();
    var body := EncodeValue(v)[4..];
    assert EncodeValue(v) + rest == ToLE(TagCode(v.Type()), 4) + (body + rest);
    ReadFixed(TagCode(v.Type()), 4, body + rest);
    if v.StrVal? {
      StringRoundTrip(v.s, rest);
    } else {
      ReadFixed(v.r as nat, 8, rest);
    }
  }

  /** `D`, `B` and `C` values are written but cannot be read back. */
  lemma ValueNotImplemented(v: Value, rest: Bytes)
    requires v.Type() in {D, B, C}
    ensures ReadValue(EncodeValue(v) + rest) == Err(NotImplemented)
  {
    Pow256Widths();
    var body := EncodeValue(v)[4..];
    assert EncodeValue(v) + rest == ToLE(TagCode(v.Type()), 4) + (body + rest);
    ReadFixed(TagCode(v.Type()), 4, body + rest);
  }

  // ---------------------------------------------------------------------
  // data_property (tfs_dataframe.h:238-248)
  // ---------------------------------------------------------------------

  /** The name, then the value: the value's tag starts right after the name. */
  function EncodeProperty(p: Property): (r: Bytes)
    ensures |r| == 2 + |p.name| % TWO_16 + |EncodeValue(p.value)|
    ensures r[2 + |p.name| % TWO_16..][..4] == U32(TagCode(p.value.Type()))
  {
    EncodeString(p.name) + EncodeValue(p.value)
  }

  function ReadProperty(data: Bytes): (r: Result<(Property, Bytes)>)
    ensures r.Ok? ==> |r.value.1| < |data|
  {
    match ReadString(data)
    case Err(e) => Err(e)
    case Ok((name, p)) =>
      match ReadValue(p)
      case Err(e) => Err(e)
      case Ok((v, q)) => Ok((Property(name, v), q))
  }

  /** A property whose value is `S` or `LE` (and whose strings fit the length prefix) round-trips. */
  lemma PropertyRoundTrip(p: Property, rest: Bytes)
    requires PropertyEncodable(p)
    ensures ReadProperty(EncodeProperty(p) + rest) == Ok((p, rest))
  {
    var a, b := EncodeString(p.name), EncodeValue(p.value);
    AppendAssoc(a, b, rest);
    StringRoundTrip(p.name, b + rest);
    ValueRoundTrip(p.value, rest);
  }

  /** Decoding a property with any other value type throws "not implemented". */
  lemma PropertyNotImplemented(p: Property, rest: Bytes)
    requires p.value.Type() in {D, B, C} && |p.name| < TWO_16
    ensures ReadProperty(EncodeProperty(p) + rest) == Err(NotImplemented)
  {
    var a, b := EncodeString(p.name), EncodeValue(p.value);
    AppendAssoc(a, b, rest);
    StringRoundTrip(p.name, b + rest);
    ValueNotImplemented(p.value, rest);
  }

  ghost predicate PropertyEncodable(p: Property)
  {
    |p.name| < TWO_16 && p.value.Type() in {S, LE} && (p.value.StrVal? ==> |p.value.s| < TWO_16)
  }

  // ---------------------------------------------------------------------
  // data_vector (tfs_dataframe.h:369-434)
  // ---------------------------------------------------------------------

  function EncodeReals(rs: seq<Float>): (r: Bytes)
    ensures |r| == 8 * |rs|
  {
    if rs == [] then [] else U64(rs[0] as nat) + EncodeReals(rs[1..])
  }

  function EncodeStrings(ss: seq<Bytes>): Bytes
  {
    if ss == [] then [] else EncodeString(ss[0]) + EncodeStrings(ss[1..])
  }

  lemma {:induction false} EncodeRealsSnoc(rs: seq<Float>, x: Float)
    ensures EncodeReals(rs + [x]) == EncodeReals(rs) + U64(x as nat)
  {
    if rs != [] {
      assert (rs + [x])[1..] == rs[1..] + [x];
      EncodeRealsSnoc(rs[1..], x);
    }
  }

  lemma {:induction false} EncodeStringsSnoc(ss: seq<Bytes>, s: Bytes)
    ensures EncodeStrings(ss + [s]) == EncodeStrings(ss) + EncodeString(s)
  {
    if ss != [] {
      assert (ss + [s])[1..] == ss[1..] + [s];
      EncodeStringsSnoc(ss[1..], s);
    }
  }

  /** What a write produced before it finished or threw. */
  datatype Emit = Emit(bytes: Bytes, failure: Option<Error>)

  /** The bytes `write_to_binary` emits before the element loop. */
  function ColumnHeader(c: Column, count: nat): Bytes
  {
    EncodeString(c.name) + U32(TagCode(c.tag)) + U64(count % TWO_64)
  }

  /** `data_vector::write_to_binary`: name, tag, `size()` (throwing on a
      disagreeing alternative), then the elements of an `LE` or `S` column;
      any other tag throws after the count has been written. */
  function WriteColumn(c: Column): (e: Emit)
    ensures e.failure.None? <==> c.tag in {S, LE} && Agrees(c)
    ensures c.tag in {D, B, C} && Agrees(c) ==>
      e == Emit(ColumnHeader(c, Size(c).value), Some(NotImplemented))
  {
    var head := EncodeString(c.name) + U32(TagCode(c.tag));
    match Size(c)
    case Err(err) => Emit(head, Some(err))
    case Ok(count) =>
      var prefix := head + U64(count % TWO_64);
      if c.tag == LE then Emit(prefix + EncodeReals(c.payload.reals), None)
      else if c.tag == S then Emit(prefix + EncodeStrings(c.payload.strings), None)
      else Emit(prefix, Some(NotImplemented))
  }

  /** The element loop of `read_from_binary` for `LE`: `count` doubles pushed after `acc`. */
  function ReadReals(data: Bytes, count: nat, acc: seq<Float>): (r: Result<(seq<Float>, Bytes)>)
    decreases count
    ensures r.Ok? <==> 8 * count <= |data|
    ensures r.Ok? ==> |r.value.0| == |acc| + count && r.value.0[..|acc|] == acc
    ensures r.Ok? ==> |data| == 8 * count + |r.value.1|
    ensures r.Err? ==> r.error == EndOfStream
  {
    if count == 0 then Ok((acc, data))
    else
      Pow256Widths();
      match ReadUnsigned(data, 8)
      case Err(e) => Err(e)
      case Ok((bits, p)) => ReadReals(p, count - 1, acc + [bits as uint64])
  }

  /** The element loop of `read_from_binary` for `S`. */
  function ReadStrings(data: Bytes, count: nat, acc: seq<Bytes>): (r: Result<(seq<Bytes>, Bytes)>)
    decreases count
    ensures r.Ok? ==> |r.value.0| == |acc| + count && r.value.0[..|acc|] == acc
    ensures r.Ok? ==> |r.value.1| <= |data|
    ensures r.Err? ==> r.error == EndOfStream
  {
    if count == 0 then Ok((acc, data))
    else
      match ReadString(data)
      case Err(e) => Err(e)
      case Ok((s, p)) => ReadStrings(p, count - 1, acc + [s])
  }

  /** One element of the `LE` loop. */
  lemma ReadRealsStep(x: Float, tail: Bytes, count: nat, acc: seq<Float>)
    ensures ReadReals(U64(x as nat) + tail, count + 1, acc) == ReadReals(tail, count, acc + [x])
  {
    Pow256Widths();
    ReadFixed(x as nat, 8, tail);
  }

  lemma {:induction false} ReadRealsRoundTrip(rs: seq<Float>, acc: seq<Float>, rest: Bytes)
    ensures ReadReals(EncodeReals(rs) + rest, |rs|, acc) == Ok((acc + rs, rest))
  {
    if rs != [] {
      var tail := EncodeReals(rs[1..]) + rest;
      AppendAssoc(U64(rs[0] as nat), EncodeReals(rs[1..]), rest);
      ReadRealsStep(rs[0], tail, |rs[1..]|, acc);
      ReadRealsRoundTrip(rs[1..], acc + [rs[0]], rest);
      ShiftHead(acc, rs);
    } else {
      assert EncodeReals(rs) + rest == rest;
      assert acc + rs == acc;
    }
  }

  ghost predicate StringsEncodable(ss: seq<Bytes>)
  {
    forall i | 0 <= i < |ss| :: |ss[i]| < TWO_16
  }

  lemma StringsEncodableTail(ss: seq<Bytes>)
    requires ss != [] && StringsEncodable(ss)
    ensures StringsEncodable(ss[1..])
  {
    forall i | 0 <= i < |ss[1..]| ensures |ss[1..][i]| < TWO_16 {
      assert ss[1..][i] == ss[i + 1];
    }
  }

  /** One element of the `S` loop. */
  lemma ReadStringsStep(x: Bytes, tail: Bytes, count: nat, acc: seq<Bytes>)
    requires |x| < TWO_16
    ensures ReadStrings(EncodeString(x) + tail, count + 1, acc) == ReadStrings(tail, count, acc + [x])
  {
    StringRoundTrip(x, tail);
  }

  lemma {:induction false} ReadStringsRoundTrip(ss: seq<Bytes>, acc: seq<Bytes>, rest: Bytes)
    requires StringsEncodable(ss)
    ensures ReadStrings(EncodeStrings(ss) + rest, |ss|, acc) == Ok((acc + ss, rest))
  {
    if ss != [] {
      var tail := EncodeStrings(ss[1..]) + rest;
      AppendAssoc(EncodeString(ss[0]), EncodeStrings(ss[1..]), rest);
      ReadStringsStep(ss[0], tail, |ss[1..]|, acc);
      StringsEncodableTail(ss);
      ReadStringsRoundTrip(ss[1..], acc + [ss[0]], rest);
      ShiftHead(acc, ss);
    } else {
      assert EncodeStrings(ss) + rest == rest;
      assert acc + ss == acc;
    }
  }

  /** The three fields `read_from_binary` reads before the elements:
      name, tag and count, and the bytes after them. */
  function ReadColumnHeader(data: Bytes): (r: Result<(Bytes, nat, nat, Bytes)>)
    ensures r.Ok? ==> |r.value.0| < TWO_16 && r.value.1 < TWO_32 && r.value.2 < TWO_64
    ensures r.Ok? ==> |data| == 14 + |r.value.0| + |r.value.3|
    ensures r.Err? ==> r.error == EndOfStream
  {
    Pow256Widths();
    match ReadString(data)
    case Err(e) => Err(e)
    case Ok((name, p1)) =>
      match ReadUnsigned(p1, 4)
      case Err(e) => Err(e)
      case Ok((tag, p2)) =>
        match ReadUnsigned(p2, 8)
        case Err(e) => Err(e)
        case Ok((count, p3)) => Ok((name, tag, count, p3))
  }

  /** The element loop of `read_from_binary` for the tag read: the elements
      are appended to the vector of that tag, which must be the alternative
      `c` already holds; only `LE` and `S` are implemented. */
  function ReadElementsInto(c: Column, name: Bytes, tag: nat, count: nat, data: Bytes): (r: Result<(Column, Bytes)>)
  {
    if tag == TagCode(LE) then
      if !c.payload.Reals? then Err(BadVariantAccess)
      else
        match ReadReals(data, count, c.payload.reals)
        case Err(e) => Err(e)
        case Ok((rs, q)) => Ok((Column(LE, name, Reals(rs)), q))
    else if tag == TagCode(S) then
      if !c.payload.Strings? then Err(BadVariantAccess)
      else
        match ReadStrings(data, count, c.payload.strings)
        case Err(e) => Err(e)
        case Ok((ss, q)) => Ok((Column(S, name, Strings(ss)), q))
    else Err(NotImplemented)
  }

  /** `data_vector::read_from_binary(file, vec)`: it overwrites `vec`'s name
      and tag, then appends the elements to the vector of the tag it read. */
  function ReadColumnInto(c: Column, data: Bytes): (r: Result<(Column, Bytes)>)
    ensures r.Ok? ==> r.value.0.name == StampHeader(c, data).name && r.value.0.tag == StampHeader(c, data).tag
    ensures r.Ok? ==>
      (r.value.0.tag == LE && c.payload.Reals? && r.value.0.payload.Reals? &&
       c.payload.reals <= r.value.0.payload.reals) ||
      (r.value.0.tag == S && c.payload.Strings? && r.value.0.payload.Strings? &&
       c.payload.strings <= r.value.0.payload.strings)
    ensures r.Ok? ==> |r.value.1| < |data|
    ensures r.Err? ==> r.error in {EndOfStream, BadVariantAccess, NotImplemented}
  {
    match ReadColumnHeader(data)
    case Err(e) => Err(e)
    case Ok((name, tag, count, p)) => ReadElementsInto(c, name, tag, count, p)
  }

  /** The column as `read_from_binary` leaves it once it has read the
      header and before it looks at the tag: the name and tag read are
      stored; a tag outside the enumeration cannot be stored here, so then
      only the name is. A header cut short stores nothing. */
  function StampHeader(c: Column, data: Bytes): (s: Column)
    ensures s.payload == c.payload
    ensures ReadColumnHeader(data).Err? ==> s == c
    ensures ReadColumnHeader(data).Ok? ==> s.name == ReadColumnHeader(data).value.0
  {
    match ReadColumnHeader(data)
    case Err(_) => c
    case Ok((name, code, _, _)) =>
      match TagOfCode(code)
      case None => c.(name := name)
      case Some(t) => c.(name := name, tag := t)
  }

  /** A column the reader can take back: short name, fewer than 2^64
      elements, tag and alternative agreeing, short strings. */
  ghost predicate ColumnEncodable(c: Column)
  {
    |c.name| < TWO_16 && Agrees(c) && Count(c.payload) < TWO_64 &&
    (c.payload.Strings? ==> StringsEncodable(c.payload.strings))
  }

  /** The elements of an `S` or `LE` column as the writer emits them. */
  function ColumnElements(c: Column): Bytes
  {
    if c.tag == LE && c.payload.Reals? then EncodeReals(c.payload.reals)
    else if c.payload.Strings? then EncodeStrings(c.payload.strings)
    else []
  }

  /** A column the reader can take back is written whole: header, then elements. */
  lemma WriteColumnBytes(c: Column)
    requires ColumnEncodable(c) && c.tag in {S, LE}
    ensures WriteColumn(c) == Emit(ColumnHeader(c, Count(c.payload)) + ColumnElements(c), None)
  {
    var n := Count(c.payload);
    assert Size(c) == Ok(n);
    assert n % TWO_64 == n;
    if c.tag == LE {
      assert c.payload.Reals?;
    } else {
      assert c.payload.Strings?;
    }
  }

  /** The header fields come back as written. */
  lemma HeaderRoundTrip(c: Column, n: nat, rest: Bytes)
    requires |c.name| < TWO_16 && n < TWO_64
    ensures ReadColumnHeader(ColumnHeader(c, n) + rest) == Ok((c.name, TagCode(c.tag), n, rest))
  {
    Pow256Widths();
    assert n % TWO_64 == n;
    var t2 := U64(n) + rest;
    var t1 := U32(TagCode(c.tag)) + t2;
    assert ColumnHeader(c, n) + rest == EncodeString(c.name) + t1;
    StringRoundTrip(c.name, t1);
    ReadFixed(TagCode(c.tag), 4, t2);
    ReadFixed(n, 8, rest);
  }

  /** The elements of an `LE` column come back after those already in a real vector. */
  lemma RealElementsRoundTrip(into: Column, name: Bytes, rs: seq<Float>, rest: Bytes)
    requires into.payload.Reals?
    ensures ReadElementsInto(into, name, TagCode(LE), |rs|, EncodeReals(rs) + rest)
         == Ok((Column(LE, name, Reals(into.payload.reals + rs)), rest))
  {
    ReadRealsRoundTrip(rs, into.payload.reals, rest);
  }

  /** The same for the elements of an `S` column and a string vector. */
  lemma StringElementsRoundTrip(into: Column, name: Bytes, ss: seq<Bytes>, rest: Bytes)
    requires into.payload.Strings? && StringsEncodable(ss)
    ensures ReadElementsInto(into, name, TagCode(S), |ss|, EncodeStrings(ss) + rest)
         == Ok((Column(S, name, Strings(into.payload.strings + ss)), rest))
  {
    ReadStringsRoundTrip(ss, into.payload.strings, rest);
  }

  /** Reading a written `S` or `LE` column starts with its own header and
      reaches its elements. */
  lemma ColumnStart(c: Column, rest: Bytes)
    requires ColumnEncodable(c) && c.tag in {S, LE}
    ensures ReadColumnHeader(WriteColumn(c).bytes + rest) ==
      Ok((c.name, TagCode(c.tag), Count(c.payload), ColumnElements(c) + rest))
  {
    WriteColumnBytes(c);
    AppendAssoc(ColumnHeader(c, Count(c.payload)), ColumnElements(c), rest);
    HeaderRoundTrip(c, Count(c.payload), ColumnElements(c) + rest);
  }

  /** A written `LE` column comes back with its name, tag and elements
      (after those already in `into`) into a vector that holds doubles. */
  lemma RealIntoRoundTrip(into: Column, c: Column, rest: Bytes)
    requires ColumnEncodable(c) && c.tag == LE && into.payload.Reals?
    ensures ReadColumnInto(into, WriteColumn(c).bytes + rest) ==
      Ok((Column(LE, c.name, Reals(into.payload.reals + c.payload.reals)), rest))
  {
    ColumnStart(c, rest);
    RealElementsRoundTrip(into, c.name, c.payload.reals, rest);
  }

  /** The same for an `S` column and a vector that holds strings. */
  lemma StringIntoRoundTrip(into: Column, c: Column, rest: Bytes)
    requires ColumnEncodable(c) && c.tag == S && into.payload.Strings?
    ensures ReadColumnInto(into, WriteColumn(c).bytes + rest) ==
      Ok((Column(S, c.name, Strings(into.payload.strings + c.payload.strings)), rest))
  {
    ColumnStart(c, rest);
    assert c.payload.Strings?;
    StringElementsRoundTrip(into, c.name, c.payload.strings, rest);
  }

  /** An `LE` column read back into the `LE` column that `load_from_binary`
      pre-creates comes back with its name, tag, count and elements in order. */
  lemma RealColumnRoundTrip(c: Column, rest: Bytes)
    requires ColumnEncodable(c) && c.tag == LE
    ensures ReadColumnInto(NewColumn(LE, []), WriteColumn(c).bytes + rest) == Ok((c, rest))
  {
    var into := NewColumn(LE, []);
    assert into.payload == Reals([]) && c.payload.Reals?;
    RealIntoRoundTrip(into, c, rest);
    EmptyAppend(c.payload.reals);
  }

  /** The same for an `S` column read into a string column: the alternative
      the constructor `data_vector(S, name)` would have set up. */
  lemma StringColumnRoundTrip(c: Column, rest: Bytes)
    requires ColumnEncodable(c) && c.tag == S
    ensures ReadColumnInto(NewColumn(S, []), WriteColumn(c).bytes + rest) == Ok((c, rest))
  {
    var into := NewColumn(S, []);
    assert into.payload == Strings([]) && c.payload.Strings?;
    StringIntoRoundTrip(into, c, rest);
    EmptyAppend(c.payload.strings);
  }

  /** An `S` column read into the pre-created `LE` column fails: the reader
      asks for the string vector of a vector that holds doubles. */
  lemma StringColumnIntoRealColumn(c: Column, rest: Bytes)
    requires ColumnEncodable(c) && c.tag == S
    ensures ReadColumnInto(NewColumn(LE, []), WriteColumn(c).bytes + rest) == Err(BadVariantAccess)
  {
    ColumnStart(c, rest);
  }

  /** The column reader as evidently intended: whatever `c` held, the
      vector it reads into starts as the empty vector of the tag read from
      the stream, as the constructor `data_vector(t, name)` would set it up. */
  function ReadColumnReset(c: Column, data: Bytes): (r: Result<(Column, Bytes)>)
    ensures r.Ok? ==> r.value.0.tag in {S, LE} && Agrees(r.value.0) && |r.value.1| < |data|
    ensures r.Ok? ==> r.value.0.name == StampHeader(c, data).name && r.value.0.tag == StampHeader(c, data).tag
  {
    match ReadColumnHeader(data)
    case Err(e) => Err(e)
    case Ok((name, tag, count, p)) =>
      match TagOfCode(tag)
      case None => Err(NotImplemented)
      case Some(t) => ReadElementsInto(NewColumn(t, []), name, tag, count, p)
  }

  /** With that reader every `S` and `LE` column round-trips. */
  lemma ResetColumnRoundTrip(into: Column, c: Column, rest: Bytes)
    requires ColumnEncodable(c) && c.tag in {S, LE}
    ensures ReadColumnReset(into, WriteColumn(c).bytes + rest) == Ok((c, rest))
  {
    TagCodeRoundTrip(c.tag);
    var data := WriteColumn(c).bytes + rest;
    assert ReadColumnReset(into, data) == ReadColumnInto(NewColumn(c.tag, []), data) by {
      ColumnStart(c, rest);
    }
    if c.tag == LE {
      RealColumnRoundTrip(c, rest);
    } else {
      StringColumnRoundTrip(c, rest);
    }
  }
}
