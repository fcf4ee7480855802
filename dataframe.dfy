/** `dataframe<real>`: a TFS table as a mutable object. Its fields are the
    five fields of the class; every method is proved against the
    value-level meaning of the operation in modules Frames and FrameCodec.
    The columns are held as values (module Columns), one per slot of the
    `columns` vector. */
module DataFrames {
  import opened Bytes
  import opened Results
  import opened Values
  import opened Text
  import opened OrderedMap
  import opened Columns
  import opened Binary
  import opened Frames
  import opened FrameCodec

  class DataFrame {
    var columns: seq<Column>
    var headers: Entries
    var properties: seq<Property>
    var idx: Entries
    var iniComplete: bool

    /** The frame this object currently holds. */
    function Abs(): Frame
      reads this
    {
      Frame(columns, headers, properties, idx, iniComplete)
    }

    ghost predicate Valid()
      reads this
    {
      WellFormed(Abs())
    }

    /** `dataframe()`. */
    constructor ()
      ensures Abs() == EmptyFrame() && Valid()
    {
      columns := [];
      headers := [];
      properties := [];
      idx := [];
      iniComplete := false;
    }

    // -------------------------------------------------------------------
    // The text reader (tfs_dataframe.h:688-836)
    // -------------------------------------------------------------------

    /** `read_property(line)`. */
    method ReadProperty(line: Bytes, strtod: Bytes -> Float) returns (r: Outcome)
      modifies this
      ensures r.Pass? <==> Frames.ReadProperty(old(Abs()), line, strtod).Ok?
      ensures r.Pass? ==> Abs() == Frames.ReadProperty(old(Abs()), line, strtod).value
      ensures r.Fail? ==> r.error == Undefined && unchanged(this)
    {
      var tokens := Tokenize(line, BLANK, false);
      if |tokens| < 3 {
        return Fail(Undefined);
      }
      var t := DtFromString(tokens[2]);
      if t == D {
        if |tokens| < 4 {
          return Fail(Undefined);
        }
        properties := properties + [Property(tokens[1], IntVal(ToInt32(Strtol(tokens[3]))))];
      } else if t == LE {
        if |tokens| < 4 {
          return Fail(Undefined);
        }
        properties := properties + [Property(tokens[1], RealVal(strtod(tokens[3])))];
      } else {
        var joined := CollapseTokens(tokens[3..]);
        properties := properties + [Property(tokens[1], StrVal(joined))];
      }
      return Pass;
    }

    /** `read_column_headers(line)`: `tokens.size() - 1` wraps around on a
        line without tokens, and the loop then reads past the tokens. */
    method ReadColumnHeaders(line: Bytes) returns (r: Outcome)
      requires Valid()
      modifies this
      ensures r.Pass? <==> Frames.ReadColumnHeaders(old(Abs()), line).Ok?
      ensures r.Pass? ==> Abs() == Frames.ReadColumnHeaders(old(Abs()), line).value && Valid()
      ensures r.Fail? ==> r.error == Undefined && unchanged(this)
    {
      var tokens := Tokenize(line, BLANK, false);
      if |tokens| == 0 {
        return Fail(Undefined);
      }
      ghost var names := tokens[1..];
      var i := 0;
      while i < |tokens| - 1
        invariant 0 <= i <= |tokens| - 1
        invariant Sorted(headers) && InsertFrom(headers, names, i) == InsertAll(old(headers), names)
        invariant columns == old(columns) && properties == old(properties)
        invariant idx == old(idx) && iniComplete == old(iniComplete)
      {
        headers := Insert(headers, tokens[i + 1], i);
        i := i + 1;
      }
      return Pass;
    }

    /** `read_column_types(line)`: `tokens.begin() + 1` is past the end of
        a line without tokens. */
    method ReadColumnTypes(line: Bytes) returns (r: Outcome)
      requires Valid()
      modifies this
      ensures r.Pass? <==> Frames.ReadColumnTypes(old(Abs()), line).Ok?
      ensures r.Pass? ==> Abs() == Frames.ReadColumnTypes(old(Abs()), line).value && Valid()
      ensures r.Fail? ==> r.error == Undefined && unchanged(this)
    {
      var tokens := Tokenize(line, BLANK, false);
      if |tokens| == 0 {
        return Fail(Undefined);
      }
      var i := 1;
      while i < |tokens|
        invariant 1 <= i <= |tokens|
        invariant columns == old(columns) + NewColumns(tokens[1..i])
        invariant headers == old(headers) && properties == old(properties)
        invariant idx == old(idx) && iniComplete == old(iniComplete)
      {
        assert tokens[1..i + 1] == tokens[1..i] + [tokens[i]];
        NewColumnsSnoc(tokens[1..i], tokens[i]);
        columns := columns + [NewColumn(DtFromString(tokens[i]), [])];
        i := i + 1;
      }
      assert tokens[1..i] == tokens[1..];
      return Pass;
    }

    /** `read_line(line)`: token `i` is converted into column `i`; a token
        past the last column indexes out of bounds. */
    method ReadLine(line: Bytes, strtod: Bytes -> Float) returns (r: Outcome)
      requires Valid()
      modifies this
      ensures r.Pass? <==> Frames.ReadLine(old(Abs()), line, strtod).Ok?
      ensures r.Pass? ==> Abs() == Frames.ReadLine(old(Abs()), line, strtod).value && Valid()
      ensures r.Fail? ==> r.error == Frames.ReadLine(old(Abs()), line, strtod).error
    {
      var tokens := Tokenize(line, BLANK, false);
      ghost var c0 := columns;
      var i := 0;
      while i < |tokens|
        invariant 0 <= i <= |tokens|
        invariant ConvertRow(c0, tokens[..i], strtod) == Ok(columns)
        invariant headers == old(headers) && properties == old(properties)
        invariant idx == old(idx) && iniComplete == old(iniComplete)
      {
        ConvertRowStep(c0, tokens, i, columns, strtod);
        if i >= |columns| {
          ConvertRowPrefixErr(c0, tokens, i + 1, strtod);
          return Fail(Undefined);
        }
        var c := Columns.ConvertBack(columns[i], tokens[i], strtod);
        if c.Err? {
          ConvertRowPrefixErr(c0, tokens, i + 1, strtod);
          return Fail(c.error);
        }
        columns := columns[i := c.value];
        i := i + 1;
      }
      assert tokens[..i] == tokens;
      return Pass;
    }

    /** `check_ini()`: the naming loop walks the map in key order; a
        position past the columns indexes out of bounds. */
    method CheckIni() returns (r: Outcome)
      requires Valid()
      modifies this
      ensures r.Pass? <==> Frames.CheckIni(old(Abs())).Ok?
      ensures r.Pass? ==> Abs() == Frames.CheckIni(old(Abs())).value && Valid()
      ensures r.Fail? ==> r.error == Undefined
    {
      if |columns| > 0 && |columns| == |headers| {
        var j := 0;
        while j < |headers|
          invariant 0 <= j <= |headers|
          invariant SetNames(columns, headers[j..]) == SetNames(old(columns), headers)
          invariant headers == old(headers) && properties == old(properties)
          invariant idx == old(idx) && iniComplete == old(iniComplete)
        {
          assert headers[j..][1..] == headers[j + 1..];
          var (name, k) := headers[j];
          if k >= |columns| {
            return Fail(Undefined);
          }
          columns := columns[k := columns[k].(name := name)];
          j := j + 1;
        }
        assert headers[j..] == [];
        iniComplete := true;
      }
      return Pass;
    }

    /** One pass of the header loop of `dataframe(path, index)`: dispatch
        on the first byte of the line (`line[0]` of an empty line is its
        terminating NUL), then `check_ini()`. */
    method HeaderStep(line: Bytes, strtod: Bytes -> Float) returns (r: Outcome)
      requires Valid()
      modifies this
      ensures r.Pass? <==> Frames.HeaderStep(old(Abs()), line, strtod).Ok?
      ensures r.Pass? ==> Abs() == Frames.HeaderStep(old(Abs()), line, strtod).value && Valid()
      ensures r.Fail? ==> r.error == Frames.HeaderStep(old(Abs()), line, strtod).error
    {
      var sigil := if line == [] then 0 else line[0];
      if sigil == AT {
        r := ReadProperty(line, strtod);
      } else if sigil == STAR {
        r := ReadColumnHeaders(line);
      } else if sigil == DOLLAR {
        r := ReadColumnTypes(line);
      } else {
        r := Pass;
      }
      if r.Fail? {
        return;
      }
      r := CheckIni();
    }

    /** The index build at the end of `dataframe(path, index)`: each string
        of the named column is inserted with its row; `insert` keeps the
        first row of a repeated key. */
    method BuildIndex(index: Bytes) returns (r: Outcome)
      requires Valid()
      modifies this
      ensures r.Pass? <==> Frames.BuildIndex(old(Abs()), index).Ok?
      ensures r.Pass? ==> Abs() == Frames.BuildIndex(old(Abs()), index).value && Valid()
      ensures r.Fail? ==> r.error == Frames.BuildIndex(old(Abs()), index).error
    {
      if index == [] {
        return Pass;
      }
      var col := GetColumn(index);
      if col.Err? {
        return Fail(col.error);
      }
      if !col.value.payload.Strings? {
        return Fail(BadVariantAccess);
      }
      var rows := col.value.payload.strings;
      ghost var idx0 := idx;
      var i := 0;
      while i < |rows|
        invariant 0 <= i <= |rows|
        invariant Sorted(idx) && InsertFrom(idx, rows, i) == InsertAll(idx0, rows)
        invariant Sorted(headers) && headers == LookupOrInsert(old(headers), index, 0).0
        invariant columns == old(columns) && properties == old(properties) && iniComplete == old(iniComplete)
      {
        idx := Insert(idx, rows[i], i);
        i := i + 1;
      }
      return Pass;
    }

    /** The header loop of `dataframe(path, index)`. It tests `getline`
        before `!ini_complete`, so once the header has latched one more
        line is read and dropped. Returns the first line left for the data
        loop. */
    method ReadHeader(lines: seq<Bytes>, strtod: Bytes -> Float) returns (r: Result<nat>)
      requires Valid()
      modifies this
      ensures r.Ok? <==> HeaderPhase(old(Abs()), lines, 0, strtod).Ok?
      ensures r.Ok? ==> HeaderPhase(old(Abs()), lines, 0, strtod) == Ok((Abs(), r.value)) && Valid()
      ensures r.Err? ==> r.error == HeaderPhase(old(Abs()), lines, 0, strtod).error
    {
      var i := 0;
      while i < |lines| && !iniComplete
        invariant 0 <= i <= |lines| && Valid()
        invariant HeaderPhase(Abs(), lines, i, strtod) == HeaderPhase(old(Abs()), lines, 0, strtod)
        decreases |lines| - i
      {
        var o := HeaderStep(lines[i], strtod);
        if o.Fail? {
          return Err(o.error);
        }
        i := i + 1;
      }
      if i < |lines| {
        i := i + 1;
      }
      return Ok(i);
    }

    /** The data loop of `dataframe(path, index)`: `read_line` on every line from `i` on. */
    method ReadData(lines: seq<Bytes>, i: nat, strtod: Bytes -> Float) returns (r: Outcome)
      requires Valid() && i <= |lines|
      modifies this
      ensures r.Pass? <==> DataPhase(old(Abs()), lines, i, strtod).Ok?
      ensures r.Pass? ==> Abs() == DataPhase(old(Abs()), lines, i, strtod).value && Valid()
      ensures r.Fail? ==> r.error == DataPhase(old(Abs()), lines, i, strtod).error
    {
      var j := i;
      while j < |lines|
        invariant i <= j <= |lines| && Valid()
        invariant DataPhase(Abs(), lines, j, strtod) == DataPhase(old(Abs()), lines, i, strtod)
        decreases |lines| - j
      {
        var o := ReadLine(lines[j], strtod);
        if o.Fail? {
          return Fail(o.error);
        }
        j := j + 1;
      }
      return Pass;
    }

    // -------------------------------------------------------------------
    // Queries (tfs_dataframe.h:586-646, 712-715)
    // -------------------------------------------------------------------

    /** Non-const `get_column(name)`: `column_headers[name]` inserts
        `name -> 0` when it is missing, and the position then indexes the
        columns without a bounds check. */
    method GetColumn(name: Bytes) returns (r: Result<Column>)
      requires Valid()
      modifies this
      ensures Valid() && headers == LookupOrInsert(old(headers), name, 0).0
      ensures columns == old(columns) && properties == old(properties)
      ensures idx == old(idx) && iniComplete == old(iniComplete)
      ensures r.Ok? <==> ColumnPosition(old(Abs()), name).Ok?
      ensures r.Ok? ==> r.value == columns[ColumnPosition(old(Abs()), name).value.1]
      ensures r.Err? ==> r.error == Undefined
      ensures Lookup(old(headers), name).Some? ==> headers == old(headers) && r == old(GetColumnConst(name))
    {
      var (h, k) := LookupOrInsert(headers, name, 0);
      headers := h;
      if k >= |columns| {
        return Err(Undefined);
      }
      return Ok(columns[k]);
    }

    /** Const `get_column(name)`: `column_headers.at(name)` throws
        `out_of_range` for a missing name; the position is then unchecked. */
    function GetColumnConst(name: Bytes): (r: Result<Column>)
      reads this
      ensures Lookup(headers, name).None? ==> r == Err(OutOfRange)
      ensures r.Ok? <==> Lookup(headers, name).Some? && Lookup(headers, name).value < |columns|
      ensures r.Ok? ==> r.value == columns[Lookup(headers, name).value]
      ensures r.Err? && Lookup(headers, name).Some? ==> r.error == Undefined
    {
      match Lookup(headers, name)
      case None => Err(OutOfRange)
      case Some(k) => if k < |columns| then Ok(columns[k]) else Err(Undefined)
    }

    /** `get_column(index)`: `columns.at(index)`. */
    function GetColumnAt(index: nat): (r: Result<Column>)
      reads this
      ensures r.Ok? <==> index < |columns|
      ensures r.Ok? ==> r.value == columns[index]
      ensures r.Err? ==> r.error == OutOfRange
    {
      if index < |columns| then Ok(columns[index]) else Err(OutOfRange)
    }

    /** `get_index(key)`: `idx[key]`, which inserts `key -> 0` when it is missing. */
    method GetIndex(key: Bytes) returns (row: nat)
      requires Valid()
      modifies this
      ensures (idx, row) == LookupOrInsert(old(idx), key, 0) && Valid()
      ensures columns == old(columns) && headers == old(headers)
      ensures properties == old(properties) && iniComplete == old(iniComplete)
    {
      var (e, v) := LookupOrInsert(idx, key, 0);
      idx := e;
      row := v;
    }

    /** `get_property(key)`: the first property named `key`, or "couldn't find key". */
    method GetProperty(key: Bytes) returns (r: Result<Property>)
      ensures r.Ok? <==> FindProperty(properties, key).Ok?
      ensures r.Ok? ==> r.value == properties[FindProperty(properties, key).value]
      ensures r.Err? ==> r.error == KeyNotFound
    {
      var i := 0;
      while i < |properties|
        invariant 0 <= i <= |properties|
        invariant forall j | 0 <= j < i :: properties[j].name != key
      {
        if properties[i].name == key {
          FindPropertyUnique(properties, key, i);
          return Ok(properties[i]);
        }
        i := i + 1;
      }
      return Err(KeyNotFound);
    }

    /** `get_property(index)`: `properties[index]`, unchecked. */
    function GetPropertyAt(index: nat): (r: Result<Property>)
      reads this
      ensures r.Ok? <==> index < |properties|
      ensures r.Ok? ==> r.value == properties[index]
      ensures r.Err? ==> r.error == Undefined
    {
      if index < |properties| then Ok(properties[index]) else Err(Undefined)
    }

    /** `add_property(name, value)`. */
    method AddProperty(name: Bytes, value: Value)
      modifies this
      ensures Abs() == old(Abs()).(properties := old(properties) + [Property(name, value)])
    {
      properties := properties + [Property(name, value)];
    }

    /** `property_count()`: the positions `get_property(index)` can read. */
    function PropertyCount(): (n: nat)
      reads this
      ensures forall i: nat :: GetPropertyAt(i).Ok? <==> i < n
    {
      |properties|
    }

    /** `column_count()`: the positions `get_column(index)` accepts. */
    function ColumnCount(): (n: nat)
      reads this
      ensures forall i: nat :: GetColumnAt(i).Ok? <==> i < n
    {
      |columns|
    }

    /** `size()`: 0 without columns; otherwise, with the maps well formed,
        the size of the column under the alphabetically first header name. */
    function Size(): (r: Result<nat>)
      reads this
      ensures columns == [] ==> r == Ok(0)
      ensures Valid() && columns != [] ==>
        forall j | 0 <= j < |headers| && headers[j].1 < |columns| &&
                   (forall k | 0 <= k < |headers| && k != j :: LexLess(headers[j].0, headers[k].0)) ::
          r == Columns.Size(columns[headers[j].1])
    {
      assert Valid() && columns != [] ==>
        forall j | 0 <= j < |headers| && headers[j].1 < |columns| &&
                   (forall k | 0 <= k < |headers| && k != j :: LexLess(headers[j].0, headers[k].0)) ::
          FrameSize(Abs()) == Columns.Size(columns[headers[j].1]) by {
        if Valid() && columns != [] {
          forall j | 0 <= j < |headers| && headers[j].1 < |columns| &&
                     (forall k | 0 <= k < |headers| && k != j :: LexLess(headers[j].0, headers[k].0))
            ensures FrameSize(Abs()) == Columns.Size(columns[headers[j].1])
          {
            FrameSizeSmallestName(Abs(), j);
          }
        }
      }
      FrameSize(Abs())
    }

    /** `reserve_rows(n)`: `reserve` on every column; only capacities change. */
    method ReserveRows(n: nat) returns (r: Outcome)
      ensures r.Pass? <==> forall i | 0 <= i < |columns| :: ReserveSucceeds(columns[i])
      ensures r.Fail? ==> r.error == BadVariantAccess
    {
      var i := 0;
      while i < |columns|
        invariant 0 <= i <= |columns|
        invariant forall j | 0 <= j < i :: ReserveSucceeds(columns[j])
      {
        if !ReserveSucceeds(columns[i]) {
          return Fail(BadVariantAccess);
        }
        i := i + 1;
      }
      return Pass;
    }

    // -------------------------------------------------------------------
    // The binary codec (tfs_dataframe.h:872-914)
    // -------------------------------------------------------------------

    /** `write_to_binary(file)`: the bytes written, and the exception that
        ends the write if a column throws. */
    method WriteToBinary() returns (out: Emit)
      ensures out == WriteFrame(Abs())
    {
      var body := WriteProperties(properties);
      var head := U64(|properties| % TWO_64) + body + U64(|columns| % TWO_64);
      var cols := WriteColumnList(columns);
      return Emit(head + cols.bytes, cols.failure);
    }

    /** The placeholder loop of `load_from_binary`: `count` new `LE` columns. */
    method AddPlaceholders(count: nat)
      modifies this
      ensures columns == old(columns) + Placeholders(count)
      ensures headers == old(headers) && properties == old(properties)
      ensures idx == old(idx) && iniComplete == old(iniComplete)
    {
      var j := 0;
      while j < count
        invariant 0 <= j <= count
        invariant columns == old(columns) + Placeholders(j)
        invariant headers == old(headers) && properties == old(properties)
        invariant idx == old(idx) && iniComplete == old(iniComplete)
      {
        assert Placeholders(j + 1) == Placeholders(j) + [NewColumn(LE, [])];
        columns := columns + [NewColumn(LE, [])];
        j := j + 1;
      }
    }

    /** The column loop of `load_from_binary`: column `k` is read into
        `columns[k]` and its name is then inserted with position `k`. */
    method ReadColumnsFrom(data: Bytes, count: nat) returns (r: Outcome)
      requires count <= |columns| && Sorted(headers)
      modifies this
      ensures r.Pass? <==> ReadColumns(ReadColumnInto, old(columns), data, 0, count).Ok?
      ensures r.Pass? ==> columns == ReadColumns(ReadColumnInto, old(columns), data, 0, count).value.0
      ensures r.Pass? ==> headers == InsertAll(old(headers), Names(columns[..count]))
      ensures r.Fail? ==> r.error == ReadColumns(ReadColumnInto, old(columns), data, 0, count).error
      ensures properties == old(properties) && idx == old(idx) && iniComplete == old(iniComplete)
    {
      var rest := data;
      var k := 0;
      assert Names(columns[..0]) == [];
      while k < count
        invariant 0 <= k <= count && |columns| == |old(columns)|
        invariant ReadColumns(ReadColumnInto, columns, rest, k, count) ==
          ReadColumns(ReadColumnInto, old(columns), data, 0, count)
        invariant Sorted(headers) && headers == InsertAll(old(headers), Names(columns[..k]))
        invariant properties == old(properties) && idx == old(idx) && iniComplete == old(iniComplete)
      {
        var c := ReadColumnInto(columns[k], rest);
        if c.Err? {
          return Fail(c.error);
        }
        NamesSnoc(columns, k, c.value.0);
        InsertAllSnoc(old(headers), Names(columns[..k]), c.value.0.name);
        columns := columns[k := c.value.0];
        rest := c.value.1;
        headers := Insert(headers, columns[k].name, k);
        k := k + 1;
      }
      return Pass;
    }

    /** `load_from_binary(stream)` on the stream's bytes: properties are
        appended, `numcolumns` placeholder `LE` columns are appended,
        `columns[0 .. numcolumns)` are read from the stream, and each name
        read is inserted into the headers with its position. */
    method LoadFromBinary(data: Bytes) returns (r: Outcome)
      requires Valid()
      modifies this
      ensures r.Pass? <==> FrameCodec.LoadFromBinary(old(Abs()), data).Ok?
      ensures r.Pass? ==> Abs() == FrameCodec.LoadFromBinary(old(Abs()), data).value && Valid()
      ensures r.Fail? ==> r.error == FrameCodec.LoadFromBinary(old(Abs()), data).error
    {
      Pow256Widths();
      ghost var f0 := Abs();
      var np := ReadUnsigned(data, 8);
      if np.Err? {
        return Fail(np.error);
      }
      var read := ReadPropertyList(np.value.1, np.value.0, properties);
      if read.Err? {
        return Fail(read.error);
      }
      properties := read.value.0;
      var nc := ReadUnsigned(read.value.1, 8);
      if nc.Err? {
        return Fail(nc.error);
      }
      var numcolumns := nc.value.0;
      LoadStages(ReadColumnInto, f0, data, np.value.1, np.value.0, properties, read.value.1, numcolumns, nc.value.1);
      AddPlaceholders(numcolumns);
      r := ReadColumnsFrom(nc.value.1, numcolumns);
    }
  }

  // ---------------------------------------------------------------------
  // Making a frame
  // ---------------------------------------------------------------------

  /** `dataframe(path, index)` on a file whose lines are `lines`. */
  method Open(lines: seq<Bytes>, index: Bytes, strtod: Bytes -> Float) returns (r: Result<DataFrame>)
    ensures r.Ok? <==> LoadText(lines, index, strtod).Ok?
    ensures r.Ok? ==> fresh(r.value) && r.value.Abs() == LoadText(lines, index, strtod).value
    ensures r.Err? ==> r.error == LoadText(lines, index, strtod).error
  {
    var df := new DataFrame();
    var h := df.ReadHeader(lines, strtod);
    if h.Err? {
      return Err(h.error);
    }
    var o := df.ReadData(lines, h.value, strtod);
    if o.Fail? {
      return Err(o.error);
    }
    o := df.BuildIndex(index);
    if o.Fail? {
      return Err(o.error);
    }
    return Ok(df);
  }

  /** The property loop of `write_to_binary`. */
  method WriteProperties(ps: seq<Property>) returns (bytes: Bytes)
    ensures bytes == EncodeProperties(ps)
  {
    bytes := [];
    var i := 0;
    while i < |ps|
      invariant 0 <= i <= |ps|
      invariant bytes == EncodeProperties(ps[..i])
    {
      ghost var front := ps[..i];
      assert ps[..i + 1] == front + [ps[i]];
      EncodePropertiesSnoc(front, ps[i]);
      bytes := bytes + EncodeProperty(ps[i]);
      i := i + 1;
    }
    assert ps[..i] == ps;
  }

  /** The column loop of `write_to_binary`: a column that throws ends the write. */
  method WriteColumnList(cs: seq<Column>) returns (out: Emit)
    ensures out == WriteColumns(cs)
  {
    var written: Bytes := [];
    var j := 0;
    while j < |cs|
      invariant 0 <= j <= |cs|
      invariant WriteColumns(cs[..j]) == Emit(written, None)
    {
      var e := WriteColumn(cs[j]);
      assert cs[..j + 1] == cs[..j] + [cs[j]];
      WriteColumnsSnoc(cs[..j], cs[j]);
      if e.failure.Some? {
        WriteColumnsPrefixFails(cs, j + 1);
        return Emit(written + e.bytes, e.failure);
      }
      written := written + e.bytes;
      j := j + 1;
    }
    assert cs[..j] == cs;
    return Emit(written, None);
  }

  /** The property loop of `load_from_binary` on values: `count`
      properties read one after the other and pushed after `acc`. */
  method ReadPropertyList(data: Bytes, count: nat, acc: seq<Property>) returns (r: Result<(seq<Property>, Bytes)>)
    ensures r == ReadProperties(data, count, acc)
  {
    var rest := data;
    var props := acc;
    var left := count;
    while left > 0
      invariant ReadProperties(rest, left, props) == ReadProperties(data, count, acc)
    {
      var p := Binary.ReadProperty(rest);
      match p {
        case Err(e) =>
          ReadPropertiesStops(rest, left, props);
          return Err(e);
        case Ok((x, tail)) =>
          ReadPropertiesStep(rest, left, props, x, tail);
          props := props + [x];
          rest := tail;
      }
      left := left - 1;
    }
    return Ok((props, rest));
  }

  /** `read_from_binary(stream)`: `load_from_binary` into a new frame. */
  method ReadFromBinary(data: Bytes) returns (r: Result<DataFrame>)
    ensures r.Ok? <==> FrameCodec.LoadFromBinary(EmptyFrame(), data).Ok?
    ensures r.Ok? ==> fresh(r.value) && r.value.Abs() == FrameCodec.LoadFromBinary(EmptyFrame(), data).value
    ensures r.Err? ==> r.error == FrameCodec.LoadFromBinary(EmptyFrame(), data).error
  {
    var df := new DataFrame();
    var o := df.LoadFromBinary(data);
    if o.Fail? {
      return Err(o.error);
    }
    return Ok(df);
  }
}
