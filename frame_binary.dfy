/** The binary form of a whole `dataframe` (tfs_dataframe.h:872-914):
    `[u64 propCount] property* [u64 colCount] column*`. */
module FrameCodec {
  import opened Bytes
  import opened Results
  import opened Values
  import opened OrderedMap
  import opened Columns
  import opened Binary
  import opened Frames

  // ---------------------------------------------------------------------
  // Encodings one after the other
  // ---------------------------------------------------------------------

  /** Byte strings one after the other. */
  function Flatten(bs: seq<Bytes>): Bytes
  {
    if bs == [] then [] else bs[0] + Flatten(bs[1..])
  }

  lemma FlattenFrom(bs: seq<Bytes>, i: nat)
    requires i < |bs|
    ensures Flatten(bs[i..]) == bs[i] + Flatten(bs[i + 1..])
  {
    assert bs[i..][0] == bs[i];
    assert bs[i..][1..] == bs[i + 1..];
  }

  lemma {:induction false} FlattenSnoc(bs: seq<Bytes>, b: Bytes)
    ensures Flatten(bs + [b]) == Flatten(bs) + b
  {
    if bs != [] {
      assert (bs + [b])[1..] == bs[1..] + [b];
      FlattenSnoc(bs[1..], b);
    }
  }

  // ---------------------------------------------------------------------
  // Writing
  // ---------------------------------------------------------------------

  /** The encoding of each property. */
  function PropertyChunks(ps: seq<Property>): (r: seq<Bytes>)
    ensures |r| == |ps| && forall k | 0 <= k < |ps| :: r[k] == EncodeProperty(ps[k])
  {
    seq(|ps|, k requires 0 <= k < |ps| => EncodeProperty(ps[k]))
  }

  /** The property loop of `write_to_binary`: the properties one after the other. */
  function EncodeProperties(ps: seq<Property>): Bytes
  {
    Flatten(PropertyChunks(ps))
  }

  /** Writing one more property appends its encoding. */
  lemma EncodePropertiesSnoc(ps: seq<Property>, x: Property)
    ensures EncodeProperties(ps + [x]) == EncodeProperties(ps) + EncodeProperty(x)
  {
    assert PropertyChunks(ps + [x]) == PropertyChunks(ps) + [EncodeProperty(x)];
    FlattenSnoc(PropertyChunks(ps), EncodeProperty(x));
  }

  /** The column loop of `write_to_binary`: a column that throws ends the
      write, with the bytes written so far. */
  function WriteColumns(cs: seq<Column>): (e: Emit)
    ensures e.failure.None? <==> forall i | 0 <= i < |cs| :: cs[i].tag in {S, LE} && Agrees(cs[i])
  {
    if cs == [] then Emit([], None)
    else
      var e := WriteColumn(cs[0]);
      assert forall i | 0 <= i < |cs[1..]| :: cs[1..][i] == cs[i + 1];
      if e.failure.Some? then e
      else
        var rest := WriteColumns(cs[1..]);
        Emit(e.bytes + rest.bytes, rest.failure)
  }

  /** Writing one more column: nothing more after a failure; otherwise its bytes, and its failure. */
  lemma {:induction false} WriteColumnsSnoc(cs: seq<Column>, c: Column)
    ensures var w := WriteColumns(cs);
      WriteColumns(cs + [c]) ==
        if w.failure.Some? then w else Emit(w.bytes + WriteColumn(c).bytes, WriteColumn(c).failure)
  {
    if cs == [] {
      assert [c][1..] == [];
      EmptyAppend(WriteColumn(c).bytes);
    } else {
      assert (cs + [c])[0] == cs[0] && (cs + [c])[1..] == cs[1..] + [c];
      WriteColumnsSnoc(cs[1..], c);
      var e, w := WriteColumn(cs[0]), WriteColumns(cs[1..]);
      if e.failure.None? && w.failure.None? {
        AppendAssoc(e.bytes, w.bytes, WriteColumn(c).bytes);
      }
    }
  }

  /** After a column throws, later columns add nothing. */
  lemma {:induction false} WriteColumnsPrefixFails(cs: seq<Column>, k: nat)
    requires k <= |cs| && WriteColumns(cs[..k]).failure.Some?
    ensures WriteColumns(cs) == WriteColumns(cs[..k])
    decreases |cs| - k
  {
    if k < |cs| {
      var front := cs[..k];
      assert cs[..k + 1] == front + [cs[k]];
      WriteColumnsSnoc(front, cs[k]);
      assert WriteColumns(cs[..k + 1]) == WriteColumns(front);
      WriteColumnsPrefixFails(cs, k + 1);
    } else {
      assert cs[..k] == cs;
    }
  }

  /** The bytes of each column. */
  function ColumnChunks(cs: seq<Column>): (r: seq<Bytes>)
    ensures |r| == |cs| && forall k | 0 <= k < |cs| :: r[k] == WriteColumn(cs[k]).bytes
  {
    seq(|cs|, k requires 0 <= k < |cs| => WriteColumn(cs[k]).bytes)
  }

  function EncodeColumns(cs: seq<Column>): Bytes
  {
    Flatten(ColumnChunks(cs))
  }

  /** When no column throws, the column loop writes every column whole. */
  lemma {:induction false} WriteColumnsClean(cs: seq<Column>)
    requires forall i | 0 <= i < |cs| :: cs[i].tag in {S, LE} && Agrees(cs[i])
    ensures WriteColumns(cs) == Emit(EncodeColumns(cs), None)
  {
    if cs != [] {
      assert WriteColumn(cs[0]).failure.None?;
      assert forall i | 0 <= i < |cs[1..]| :: cs[1..][i] == cs[i + 1];
      WriteColumnsClean(cs[1..]);
      assert ColumnChunks(cs)[1..] == ColumnChunks(cs[1..]);
    }
  }

  /** `dataframe::write_to_binary`: property count, properties, column
      count, columns; it fails exactly when some column is not `S` or `LE`. */
  function WriteFrame(f: Frame): (e: Emit)
    ensures e.failure.None? <==> forall i | 0 <= i < |f.columns| :: f.columns[i].tag in {S, LE} && Agrees(f.columns[i])
  {
    var head := U64(|f.properties| % TWO_64) + EncodeProperties(f.properties)
      + U64(|f.columns| % TWO_64);
    var cols := WriteColumns(f.columns);
    Emit(head + cols.bytes, cols.failure)
  }

  // ---------------------------------------------------------------------
  // Reading
  // ---------------------------------------------------------------------

  /** `count` items read one after the other with `read`, pushed after `acc`. */
  function ReadMany<T>(read: Bytes -> Result<(T, Bytes)>, data: Bytes, count: nat, acc: seq<T>)
    : (r: Result<(seq<T>, Bytes)>)
    decreases count
    ensures r.Ok? ==> |r.value.0| == |acc| + count && r.value.0[..|acc|] == acc
  {
    if count == 0 then Ok((acc, data))
    else
      match read(data)
      case Err(e) => Err(e)
      case Ok((x, rest)) => ReadMany(read, rest, count - 1, acc + [x])
  }

  /** The property loop of `load_from_binary`: `count` properties pushed after `acc`. */
  function ReadProperties(data: Bytes, count: nat, acc: seq<Property>): (r: Result<(seq<Property>, Bytes)>)
    ensures r.Ok? ==> |r.value.0| == |acc| + count && r.value.0[..|acc|] == acc
  {
    ReadMany(Binary.ReadProperty, data, count, acc)
  }

  /** One property read, and `count - 1` more after it. */
  lemma ReadPropertiesStep(data: Bytes, count: nat, acc: seq<Property>, p: Property, rest: Bytes)
    requires count > 0 && Binary.ReadProperty(data) == Ok((p, rest))
    ensures ReadProperties(data, count, acc) == ReadProperties(rest, count - 1, acc + [p])
  {
  }

  /** A property that cannot be read ends the loop with its error. */
  lemma ReadPropertiesStops(data: Bytes, count: nat, acc: seq<Property>)
    requires count > 0 && Binary.ReadProperty(data).Err?
    ensures ReadProperties(data, count, acc) == Err(Binary.ReadProperty(data).error)
  {
  }

  /** How one column is read from the stream into a column vector. */
  type ColumnReader = (Column, Bytes) -> Result<(Column, Bytes)>

  /** The column loop of `load_from_binary` from column `i` to `n`, each
      column read into `cols[i]`. (Each step of the source also inserts the
      name read with position `i` into the headers; no read depends on the
      headers, so `LoadColumns` makes those insertions, in the same order,
      once the reads are done.) */
  function ReadColumns(read: ColumnReader, cols: seq<Column>, data: Bytes, i: nat, n: nat)
    : (r: Result<(seq<Column>, Bytes)>)
    requires i <= n <= |cols|
    ensures r.Ok? ==> |r.value.0| == |cols| && r.value.0[..i] == cols[..i] && r.value.0[n..] == cols[n..]
    decreases n - i
  {
    if i == n then Ok((cols, data))
    else
      match read(cols[i], data)
      case Err(e) => Err(e)
      case Ok((c, rest)) =>
        var r := ReadColumns(read, cols[i := c], rest, i + 1, n);
        assert r.Ok? ==> r.value.0[..i] == cols[..i] by {
          if r.Ok? {
            assert r.value.0[..i] == r.value.0[..i + 1][..i];
          }
        }
        r
  }

  /** The names of the columns, in order. */
  function Names(cs: seq<Column>): (ns: seq<Bytes>)
    ensures |ns| == |cs| && forall i | 0 <= i < |cs| :: ns[i] == cs[i].name
  {
    seq(|cs|, i requires 0 <= i < |cs| => cs[i].name)
  }

  /** Reading column `k` extends the names of the columns read so far by its name. */
  lemma NamesSnoc(cs: seq<Column>, k: nat, c: Column)
    requires k < |cs|
    ensures Names(cs[k := c][..k + 1]) == Names(cs[..k]) + [c.name]
  {
    assert forall i | 0 <= i < k :: cs[k := c][..k + 1][i] == cs[..k][i];
  }

  /** `nc` fresh "placeholder" columns, as `load_from_binary` pushes them. */
  function Placeholders(nc: nat): (cs: seq<Column>)
    ensures |cs| == nc && forall i | 0 <= i < nc :: cs[i] == NewColumn(LE, [])
  {
    seq(nc, _ => NewColumn(LE, []))
  }

  /** The last stage of `load_from_binary`: `nc` placeholders appended,
      the stream's columns read into `columns[0..nc)`, and each name read
      inserted with its position. */
  function LoadColumns(read: ColumnReader, f: Frame, props: seq<Property>, data: Bytes, nc: nat)
    : (r: Result<Frame>)
    requires WellFormed(f)
    ensures r.Ok? ==> WellFormed(r.value) && r.value.idx == f.idx && r.value.iniComplete == f.iniComplete
    ensures r.Ok? ==> r.value.properties == props && |r.value.columns| == |f.columns| + nc
    ensures r.Ok? ==> r.value.columns[nc..] == (f.columns + Placeholders(nc))[nc..]
  {
    var cols := f.columns + Placeholders(nc);
    match ReadColumns(read, cols, data, 0, nc)
    case Err(e) => Err(e)
    case Ok((cs, _)) => Ok(f.(properties := props, columns := cs, headers := InsertAll(f.headers, Names(cs[..nc]))))
  }

  function LoadBinary(read: ColumnReader, f: Frame, data: Bytes): (r: Result<Frame>)
    requires WellFormed(f)
    ensures r.Ok? ==> WellFormed(r.value) && r.value.idx == f.idx && r.value.iniComplete == f.iniComplete
    ensures r.Ok? ==> |f.properties| <= |r.value.properties| && r.value.properties[..|f.properties|] == f.properties
    ensures r.Ok? ==> |f.columns| <= |r.value.columns|
  {
    Pow256Widths();
    match ReadUnsigned(data, 8)
    case Err(e) => Err(e)
    case Ok((np, p1)) =>
      match ReadProperties(p1, np, f.properties)
      case Err(e) => Err(e)
      case Ok((props, p2)) =>
        match ReadUnsigned(p2, 8)
        case Err(e) => Err(e)
        case Ok((nc, p3)) => LoadColumns(read, f, props, p3, nc)
  }

  /** `load_from_binary(stream)` on the stream's bytes, into the frame `f`:
      properties are appended, `numcolumns` placeholder `LE` columns are
      appended, and the stream's columns are read into `columns[0..numcolumns)`. */
  function LoadFromBinary(f: Frame, data: Bytes): (r: Result<Frame>)
    requires WellFormed(f)
    ensures r.Ok? ==> WellFormed(r.value) && r.value.idx == f.idx && r.value.iniComplete == f.iniComplete
  {
    LoadBinary(ReadColumnInto, f, data)
  }

  /** The same with `read_from_binary` as evidently intended (`ReadColumnReset`). */
  function LoadFromBinaryFixed(f: Frame, data: Bytes): (r: Result<Frame>)
    requires WellFormed(f)
    ensures r.Ok? ==> WellFormed(r.value) && r.value.idx == f.idx && r.value.iniComplete == f.iniComplete
  {
    LoadBinary(ReadColumnReset, f, data)
  }

  // ---------------------------------------------------------------------
  // Round trips
  // ---------------------------------------------------------------------

  /** `read` takes `x` back from its encoding `enc`, whatever follows it. */
  ghost predicate Reads<T>(read: Bytes -> Result<(T, Bytes)>, x: T, enc: Bytes)
  {
    forall rest: Bytes :: read(enc + rest) == Ok((x, rest))
  }

  /** A reader that takes back each item from its encoding takes back the
      items from their encodings one after the other. */
  lemma {:induction false} ReadManyRoundTrip<T>(read: Bytes -> Result<(T, Bytes)>, xs: seq<T>, encs: seq<Bytes>,
                                                 acc: seq<T>, rest: Bytes)
    requires |encs| == |xs| && forall k | 0 <= k < |xs| :: Reads(read, xs[k], encs[k])
    ensures ReadMany(read, Flatten(encs) + rest, |xs|, acc) == Ok((acc + xs, rest))
  {
    if xs == [] {
      assert Flatten(encs) + rest == rest;
      assert acc + xs == acc;
    } else {
      var tail := Flatten(encs[1..]) + rest;
      AppendAssoc(encs[0], Flatten(encs[1..]), rest);
      assert Reads(read, xs[0], encs[0]);
      assert read(encs[0] + tail) == Ok((xs[0], tail));
      assert forall k | 0 <= k < |xs[1..]| :: xs[1..][k] == xs[k + 1] && encs[1..][k] == encs[k + 1];
      ReadManyRoundTrip(read, xs[1..], encs[1..], acc + [xs[0]], rest);
      ShiftHead(acc, xs);
    }
  }

  ghost predicate PropertiesEncodable(ps: seq<Property>)
  {
    forall i | 0 <= i < |ps| :: PropertyEncodable(ps[i])
  }

  lemma PropertyReads(x: Property)
    requires PropertyEncodable(x)
    ensures Reads(Binary.ReadProperty, x, EncodeProperty(x))
  {
    forall rest: Bytes ensures Binary.ReadProperty(EncodeProperty(x) + rest) == Ok((x, rest)) {
      PropertyRoundTrip(x, rest);
    }
  }

  /** The property loop takes back the properties written one after the other. */
  lemma ReadPropertiesRoundTrip(ps: seq<Property>, acc: seq<Property>, rest: Bytes)
    requires PropertiesEncodable(ps)
    ensures ReadProperties(EncodeProperties(ps) + rest, |ps|, acc) == Ok((acc + ps, rest))
  {
    var encs := PropertyChunks(ps);
    forall k | 0 <= k < |ps| ensures Reads(Binary.ReadProperty, ps[k], encs[k]) {
      PropertyReads(ps[k]);
    }
    ReadManyRoundTrip(Binary.ReadProperty, ps, encs, acc, rest);
  }

  /** Columns the writer writes whole and the reader can take back. */
  ghost predicate ColumnsEncodable(cs: seq<Column>)
  {
    forall i | 0 <= i < |cs| :: ColumnEncodable(cs[i]) && cs[i].tag in {S, LE}
  }

  /** A frame whose write does not throw and whose every item fits its length fields. */
  ghost predicate FrameEncodable(f: Frame)
  {
    |f.properties| < TWO_64 && |f.columns| < TWO_64 &&
    PropertiesEncodable(f.properties) && ColumnsEncodable(f.columns)
  }

  /** `read` takes `c` back into `into` from its encoding `enc`, whatever follows it. */
  ghost predicate ReadsInto(read: ColumnReader, into: Column, c: Column, enc: Bytes)
  {
    forall rest: Bytes :: read(into, enc + rest) == Ok((c, rest))
  }

  /** `read` fails with `e` on `enc`, whatever follows it. */
  ghost predicate FailsInto(read: ColumnReader, into: Column, enc: Bytes, e: Error)
  {
    forall rest: Bytes :: read(into, enc + rest) == Err(e)
  }

  /** The column loop, from column `i` on, takes back what was written when
      `read` takes back each column still to read from the vector it reads into. */
  lemma {:induction false} ReadColumnsRoundTrip(read: ColumnReader, cols: seq<Column>, cs: seq<Column>,
                                                 encs: seq<Bytes>, rest: Bytes, i: nat)
    requires |cols| == |cs| == |encs| && i <= |cs| && cols[..i] == cs[..i]
    requires forall j | i <= j < |cs| :: ReadsInto(read, cols[j], cs[j], encs[j])
    ensures ReadColumns(read, cols, Flatten(encs[i..]) + rest, i, |cs|) == Ok((cs, rest))
    decreases |cs| - i
  {
    if i == |cs| {
      assert cols == cols[..i] && cs == cs[..i];
      assert Flatten(encs[i..]) + rest == rest;
    } else {
      var tail := Flatten(encs[i + 1..]) + rest;
      FlattenFrom(encs, i);
      AppendAssoc(encs[i], Flatten(encs[i + 1..]), rest);
      assert ReadsInto(read, cols[i], cs[i], encs[i]);
      assert read(cols[i], encs[i] + tail) == Ok((cs[i], tail));
      var cols' := cols[i := cs[i]];
      assert cols'[..i + 1] == cs[..i + 1] by {
        assert cols'[..i] == cols[..i];
      }
      assert forall j | i + 1 <= j < |cs| :: cols'[j] == cols[j];
      ReadColumnsRoundTrip(read, cols', cs, encs, rest, i + 1);
    }
  }

  /** The column loop stops with the error of the first column `read` cannot take back. */
  lemma {:induction false} ReadColumnsStops(read: ColumnReader, cols: seq<Column>, cs: seq<Column>,
                                             encs: seq<Bytes>, rest: Bytes, i: nat, k: nat, e: Error)
    requires |cols| == |cs| == |encs| && i <= k < |cs|
    requires forall j | i <= j < k :: ReadsInto(read, cols[j], cs[j], encs[j])
    requires FailsInto(read, cols[k], encs[k], e)
    ensures ReadColumns(read, cols, Flatten(encs[i..]) + rest, i, |cs|) == Err(e)
    decreases k - i
  {
    var tail := Flatten(encs[i + 1..]) + rest;
    FlattenFrom(encs, i);
    AppendAssoc(encs[i], Flatten(encs[i + 1..]), rest);
    if i < k {
      assert ReadsInto(read, cols[i], cs[i], encs[i]);
      assert read(cols[i], encs[i] + tail) == Ok((cs[i], tail));
      var cols' := cols[i := cs[i]];
      assert forall j | i + 1 <= j <= k :: cols'[j] == cols[j];
      ReadColumnsStops(read, cols', cs, encs, rest, i + 1, k, e);
    } else {
      assert read(cols[i], encs[i] + tail) == Err(e);
    }
  }

  /** An encodable frame is written whole: both counts exact, every column's bytes. */
  lemma WriteFrameBytes(f: Frame)
    requires FrameEncodable(f)
    ensures WriteFrame(f) == Emit(U64(|f.properties|) + EncodeProperties(f.properties)
                                  + U64(|f.columns|) + EncodeColumns(f.columns), None)
  {
    assert |f.properties| % TWO_64 == |f.properties|;
    assert |f.columns| % TWO_64 == |f.columns|;
    assert WriteColumns(f.columns) == Emit(EncodeColumns(f.columns), None) by {
      WriteColumnsClean(f.columns);
    }
  }

  /** The stages of `load_from_binary` before the column loop, composed. */
  lemma LoadStages(read: ColumnReader, f: Frame, data: Bytes, p1: Bytes, np: nat, props: seq<Property>,
                   p2: Bytes, nc: nat, p3: Bytes)
    requires WellFormed(f)
    requires ReadUnsigned(data, 8) == Ok((np, p1))
    requires ReadProperties(p1, np, f.properties) == Ok((props, p2))
    requires ReadUnsigned(p2, 8) == Ok((nc, p3))
    ensures LoadBinary(read, f, data) == LoadColumns(read, f, props, p3, nc)
  {
  }

  /** A frame's encoding followed by more bytes, regrouped field by field. */
  lemma FrameBytesSplit(f: Frame, rest: Bytes)
    requires FrameEncodable(f)
    ensures WriteFrame(f).bytes + rest ==
      U64(|f.properties|) + (EncodeProperties(f.properties) + (U64(|f.columns|) + (EncodeColumns(f.columns) + rest)))
  {
    var a := U64(|f.properties|);
    var b := EncodeProperties(f.properties);
    var c := U64(|f.columns|);
    var e := EncodeColumns(f.columns);
    WriteFrameBytes(f);
    AppendAssoc(a + b + c, e, rest);
    AppendAssoc(a + b, c, e + rest);
    AppendAssoc(a, b, c + (e + rest));
  }

  /** Reading a frame's encoding into the empty frame reaches the column
      loop with the frame's properties, at the start of the column bytes. */
  lemma LoadHead(read: ColumnReader, f: Frame, rest: Bytes)
    requires FrameEncodable(f)
    ensures LoadBinary(read, EmptyFrame(), WriteFrame(f).bytes + rest) ==
      LoadColumns(read, EmptyFrame(), f.properties, EncodeColumns(f.columns) + rest, |f.columns|)
  {
    Pow256Widths();
    var b := EncodeProperties(f.properties);
    var c := U64(|f.columns|);
    var d := EncodeColumns(f.columns) + rest;
    FrameBytesSplit(f, rest);
    ReadFixed(|f.properties|, 8, b + (c + d));
    ReadPropertiesRoundTrip(f.properties, [], c + d);
    EmptyAppend(f.properties);
    ReadFixed(|f.columns|, 8, d);
    LoadStages(read, EmptyFrame(), WriteFrame(f).bytes + rest, b + (c + d), |f.properties|, f.properties,
               c + d, |f.columns|, d);
  }

  /** The last stage after a column loop that succeeds. */
  lemma LoadColumnsOk(read: ColumnReader, f: Frame, props: seq<Property>, data: Bytes, nc: nat,
                      cs: seq<Column>, rest: Bytes)
    requires WellFormed(f) && ReadColumns(read, f.columns + Placeholders(nc), data, 0, nc) == Ok((cs, rest))
    ensures LoadColumns(read, f, props, data, nc) ==
      Ok(f.(properties := props, columns := cs, headers := InsertAll(f.headers, Names(cs[..nc]))))
  {
  }

  /** Given a reader that takes back every column from a placeholder, the
      column loop takes back all the columns written. */
  lemma PlaceholdersRoundTrip(read: ColumnReader, cs: seq<Column>, rest: Bytes)
    requires forall j | 0 <= j < |cs| :: ReadsInto(read, NewColumn(LE, []), cs[j], WriteColumn(cs[j]).bytes)
    ensures ReadColumns(read, [] + Placeholders(|cs|), EncodeColumns(cs) + rest, 0, |cs|) == Ok((cs, rest))
  {
    var cols := [] + Placeholders(|cs|);
    var encs := ColumnChunks(cs);
    assert cols[..0] == cs[..0];
    assert encs[0..] == encs;
    ReadColumnsRoundTrip(read, cols, cs, encs, rest, 0);
  }

  /** Given a reader that takes back every column from a placeholder, the
      whole frame is taken back by the empty frame. */
  lemma LoadRoundTrip(read: ColumnReader, f: Frame, rest: Bytes)
    requires FrameEncodable(f)
    requires forall j | 0 <= j < |f.columns| ::
      ReadsInto(read, NewColumn(LE, []), f.columns[j], WriteColumn(f.columns[j]).bytes)
    ensures LoadBinary(read, EmptyFrame(), WriteFrame(f).bytes + rest) ==
      Ok(Frame(f.columns, InsertAll([], Names(f.columns)), f.properties, [], false))
  {
    LoadHead(read, f, rest);
    PlaceholdersRoundTrip(read, f.columns, rest);
    LoadColumnsOk(read, EmptyFrame(), f.properties, EncodeColumns(f.columns) + rest, |f.columns|, f.columns, rest);
    assert f.columns[..|f.columns|] == f.columns;
  }

  lemma RealColumnReads(c: Column)
    requires ColumnEncodable(c) && c.tag == LE
    ensures ReadsInto(ReadColumnInto, NewColumn(LE, []), c, WriteColumn(c).bytes)
  {
    forall rest: Bytes ensures ReadColumnInto(NewColumn(LE, []), WriteColumn(c).bytes + rest) == Ok((c, rest)) {
      RealColumnRoundTrip(c, rest);
    }
  }

  lemma StringColumnFails(c: Column)
    requires ColumnEncodable(c) && c.tag == S
    ensures FailsInto(ReadColumnInto, NewColumn(LE, []), WriteColumn(c).bytes, BadVariantAccess)
  {
    forall rest: Bytes ensures ReadColumnInto(NewColumn(LE, []), WriteColumn(c).bytes + rest) == Err(BadVariantAccess) {
      StringColumnIntoRealColumn(c, rest);
    }
  }

  lemma ResetColumnReads(into: Column, c: Column)
    requires ColumnEncodable(c) && c.tag in {S, LE}
    ensures ReadsInto(ReadColumnReset, into, c, WriteColumn(c).bytes)
  {
    forall rest: Bytes ensures ReadColumnReset(into, WriteColumn(c).bytes + rest) == Ok((c, rest)) {
      ResetColumnRoundTrip(into, c, rest);
    }
  }

  /** The source's round trip: a frame whose columns are all `LE` is read
      back with its properties and columns, whatever follows it in the
      stream; the headers map each name to its column (a repeated name keeps
      its first position). */
  lemma RealFrameRoundTrip(f: Frame, rest: Bytes)
    requires FrameEncodable(f) && forall i | 0 <= i < |f.columns| :: f.columns[i].tag == LE
    ensures LoadFromBinary(EmptyFrame(), WriteFrame(f).bytes + rest) ==
      Ok(Frame(f.columns, InsertAll([], Names(f.columns)), f.properties, [], false))
  {
    forall j | 0 <= j < |f.columns|
      ensures ReadsInto(ReadColumnInto, NewColumn(LE, []), f.columns[j], WriteColumn(f.columns[j]).bytes)
    {
      RealColumnReads(f.columns[j]);
    }
    LoadRoundTrip(ReadColumnInto, f, rest);
  }

  /** With the reader of the source, the first `S` column of a frame whose
      earlier columns are all `LE` makes the load fail: the column is read
      into a placeholder that holds doubles. */
  lemma StringColumnLoadFails(f: Frame, k: nat, rest: Bytes)
    requires FrameEncodable(f) && k < |f.columns| && f.columns[k].tag == S
    requires forall j | 0 <= j < k :: f.columns[j].tag == LE
    ensures LoadFromBinary(EmptyFrame(), WriteFrame(f).bytes + rest) == Err(BadVariantAccess)
  {
    LoadHead(ReadColumnInto, f, rest);
    var cols := EmptyFrame().columns + Placeholders(|f.columns|);
    var encs := ColumnChunks(f.columns);
    forall j | 0 <= j < k ensures ReadsInto(ReadColumnInto, cols[j], f.columns[j], encs[j]) {
      RealColumnReads(f.columns[j]);
    }
    StringColumnFails(f.columns[k]);
    assert encs[0..] == encs;
    ReadColumnsStops(ReadColumnInto, cols, f.columns, encs, rest, 0, k, BadVariantAccess);
  }

  /** With the reader as evidently intended, `S` columns round-trip too. */
  lemma FrameRoundTripFixed(f: Frame, rest: Bytes)
    requires FrameEncodable(f)
    ensures LoadFromBinaryFixed(EmptyFrame(), WriteFrame(f).bytes + rest) ==
      Ok(Frame(f.columns, InsertAll([], Names(f.columns)), f.properties, [], false))
  {
    forall j | 0 <= j < |f.columns|
      ensures ReadsInto(ReadColumnReset, NewColumn(LE, []), f.columns[j], WriteColumn(f.columns[j]).bytes)
    {
      ResetColumnReads(NewColumn(LE, []), f.columns[j]);
    }
    LoadRoundTrip(ReadColumnReset, f, rest);
  }
}
