/** The state of a `dataframe` as a value, and the meaning of each of its
    operations as a function of that state: the text reader
    (tfs_dataframe.h:688-836), the lookups, and the binary codec
    (tfs_dataframe.h:872-914). The mutable class is `DataFrames.DataFrame`. */
module Frames {
  import opened Bytes
  import opened Results
  import opened Values
  import opened Text
  import opened OrderedMap
  import opened Columns
  import opened Binary

  /** The five fields of a `dataframe`: `columns`, `column_headers`
      (name -> column position), `properties`, `idx` (key -> row) and
      `ini_complete`. */
  datatype Frame = Frame(
    columns: seq<Column>,
    headers: Entries,
    properties: seq<Property>,
    idx: Entries,
    iniComplete: bool)

  /** Both maps keep their keys ordered. */
  ghost predicate WellFormed(f: Frame)
  {
    Sorted(f.headers) && Sorted(f.idx)
  }

  /** `dataframe()`. */
  function EmptyFrame(): (f: Frame)
    ensures WellFormed(f) && f.columns == [] && f.properties == [] && !f.iniComplete
  {
    Frame([], [], [], [], false)
  }

  // ---------------------------------------------------------------------
  // Header lines (tfs_dataframe.h:758-836)
  // ---------------------------------------------------------------------

  /** The property a tokenized `@` line describes: `@ name type value...`.
      Fewer than three tokens, or no value token for `%d` / `%le`, index
      past the token vector (undefined behaviour). */
  function ParseProperty(tokens: seq<Bytes>, strtod: Bytes -> Float): (r: Result<Property>)
    ensures r.Ok? <==> |tokens| >= 3 && (tokens[2] in {PCT_D, PCT_LE} ==> |tokens| >= 4)
    ensures r.Err? ==> r.error == Undefined
    ensures r.Ok? ==> r.value.name == tokens[1]
    ensures r.Ok? ==> (r.value.value.IntVal? <==> tokens[2] == PCT_D)
    ensures r.Ok? ==> (r.value.value.RealVal? <==> tokens[2] == PCT_LE)
    ensures r.Ok? ==> (r.value.value.StrVal? <==> tokens[2] !in {PCT_D, PCT_LE})
  {
    if |tokens| < 3 then Err(Undefined)
    else
      var t := DtFromString(tokens[2]);
      if t == D then
        if |tokens| < 4 then Err(Undefined)
        else Ok(Property(tokens[1], IntVal(ToInt32(Strtol(tokens[3])))))
      else if t == LE then
        if |tokens| < 4 then Err(Undefined)
        else Ok(Property(tokens[1], RealVal(strtod(tokens[3]))))
      else
        Ok(Property(tokens[1], StrVal(JoinTrailing(tokens[3..]))))
  }

  /** An integer property written in decimal is read back exactly. */
  lemma IntPropertyValue(tokens: seq<Bytes>, x: int32, strtod: Bytes -> Float)
    requires |tokens| >= 4 && tokens[2] == PCT_D && tokens[3] == Decimal(x as int)
    ensures ParseProperty(tokens, strtod) == Ok(Property(tokens[1], IntVal(x)))
  {
    StrtolOfDecimal(x as int64);
  }

  /** A string property's value holds the value tokens, each followed by a
      blank: re-tokenizing it gives them back, and it ends in a blank. */
  lemma StringPropertyValue(line: Bytes, strtod: Bytes -> Float)
    requires ParseProperty(Words(line, BLANK), strtod).Ok?
    requires ParseProperty(Words(line, BLANK), strtod).value.value.StrVal?
    ensures var tokens := Words(line, BLANK);
      var s := ParseProperty(tokens, strtod).value.value.s;
      Words(s, BLANK) == tokens[3..] && (|tokens| > 3 ==> s[|s| - 1] == SPACE)
  {
    var tokens := Words(line, BLANK);
    WordsAreWords(line, BLANK);
    assert forall i | 0 <= i < |tokens[3..]| :: tokens[3..][i] == tokens[i + 3];
    WordsOfJoinTrailing(tokens[3..]);
    if |tokens| > 3 {
      JoinTrailingEndsInBlank(tokens[3..]);
    }
  }

  /** `read_property(line)`: the property is appended; nothing else changes. */
  function ReadProperty(f: Frame, line: Bytes, strtod: Bytes -> Float): (r: Result<Frame>)
    ensures r.Ok? <==> ParseProperty(Words(line, BLANK), strtod).Ok?
    ensures r.Ok? ==> r.value == f.(properties := f.properties + [ParseProperty(Words(line, BLANK), strtod).value])
    ensures r.Err? ==> r.error == Undefined
  {
    match ParseProperty(Words(line, BLANK), strtod)
    case Err(e) => Err(e)
    case Ok(p) => Ok(f.(properties := f.properties + [p]))
  }

  /** `read_column_headers(line)`: each name after the sigil is inserted with
      its position; the first of a repeated name keeps its position. */
  function ReadColumnHeaders(f: Frame, line: Bytes): (r: Result<Frame>)
    requires WellFormed(f)
    ensures r.Ok? <==> Words(line, BLANK) != []
    ensures r.Ok? ==> WellFormed(r.value)
    ensures r.Ok? ==> r.value == f.(headers := InsertAll(f.headers, Words(line, BLANK)[1..]))
  {
    var tokens := Words(line, BLANK);
    if tokens == [] then Err(Undefined)
    else Ok(f.(headers := InsertAll(f.headers, tokens[1..])))
  }

  /** The empty, unnamed columns made for a list of type tokens. */
  function NewColumns(types: seq<Bytes>): (cs: seq<Column>)
    ensures |cs| == |types|
    ensures forall i | 0 <= i < |cs| :: cs[i] == NewColumn(DtFromString(types[i]), [])
  {
    seq(|types|, i requires 0 <= i < |types| => NewColumn(DtFromString(types[i]), []))
  }

  /** One more type token makes one more column. */
  lemma NewColumnsSnoc(types: seq<Bytes>, t: Bytes)
    ensures NewColumns(types + [t]) == NewColumns(types) + [NewColumn(DtFromString(t), [])]
  {
    assert forall i | 0 <= i < |types| :: (types + [t])[i] == types[i];
  }

  /** `read_column_types(line)`: one new column per token after the sigil. */
  function ReadColumnTypes(f: Frame, line: Bytes): (r: Result<Frame>)
    ensures r.Ok? <==> Words(line, BLANK) != []
    ensures r.Ok? ==> r.value == f.(columns := f.columns + NewColumns(Words(line, BLANK)[1..]))
  {
    var tokens := Words(line, BLANK);
    if tokens == [] then Err(Undefined)
    else Ok(f.(columns := f.columns + NewColumns(tokens[1..])))
  }

  /** The `set_name` loop of `check_ini`, over the map's entries in key order. */
  function SetNames(cols: seq<Column>, entries: Entries): (r: Result<seq<Column>>)
    ensures r.Ok? ==> |r.value| == |cols|
    ensures r.Ok? <==> forall j | 0 <= j < |entries| :: entries[j].1 < |cols|
    ensures r.Err? ==> r.error == Undefined
    decreases |entries|
  {
    if entries == [] then Ok(cols)
    else if entries[0].1 >= |cols| then Err(Undefined)
    else
      var (name, i) := entries[0];
      var r := SetNames(cols[i := cols[i].(name := name)], entries[1..]);
      assert forall j | 0 <= j < |entries[1..]| :: entries[1..][j] == entries[j + 1];
      r
  }

  /** `check_ini()`: once there are as many columns as map entries (and at
      least one), name the columns and latch. */
  function CheckIni(f: Frame): (r: Result<Frame>)
    ensures r.Ok? ==> r.value.headers == f.headers && r.value.properties == f.properties
    ensures r.Ok? ==> r.value.idx == f.idx && |r.value.columns| == |f.columns|
    ensures r.Ok? ==> (r.value.iniComplete <==> f.iniComplete || (|f.columns| > 0 && |f.columns| == |f.headers|))
    ensures !(|f.columns| > 0 && |f.columns| == |f.headers|) ==> r == Ok(f)
  {
    if |f.columns| > 0 && |f.columns| == |f.headers| then
      match SetNames(f.columns, f.headers)
      case Err(e) => Err(e)
      case Ok(cs) => Ok(f.(columns := cs, iniComplete := true))
    else Ok(f)
  }

  /** The first byte of a line as `line[0]` reads it (the terminator of an empty string). */
  function Sigil(line: Bytes): uint8
  {
    if line == [] then 0 else line[0]
  }

  const AT: uint8 := '@' as uint8
  const STAR: uint8 := '*' as uint8
  const DOLLAR: uint8 := '$' as uint8

  /** One pass of the header loop: dispatch on the sigil, then `check_ini`. */
  function HeaderStep(f: Frame, line: Bytes, strtod: Bytes -> Float): (r: Result<Frame>)
    requires WellFormed(f)
    ensures r.Ok? ==> WellFormed(r.value)
    ensures Sigil(line) !in {AT, STAR, DOLLAR} ==> r == CheckIni(f)
  {
    var g :=
      if Sigil(line) == AT then ReadProperty(f, line, strtod)
      else if Sigil(line) == STAR then ReadColumnHeaders(f, line)
      else if Sigil(line) == DOLLAR then ReadColumnTypes(f, line)
      else Ok(f);
    match g
    case Err(e) => Err(e)
    case Ok(g') => CheckIni(g')
  }

  /** `while (getline(file, line) && !ini_complete)`: from line `i`, the
      frame after the header loop and the first line left for the data
      loop. The line that `getline` reads after the latch is consumed
      without being processed. */
  function HeaderPhase(f: Frame, lines: seq<Bytes>, i: nat, strtod: Bytes -> Float): (r: Result<(Frame, nat)>)
    requires WellFormed(f) && i <= |lines|
    ensures r.Ok? ==> WellFormed(r.value.0) && i <= r.value.1 <= |lines|
    decreases |lines| - i
  {
    if i == |lines| then Ok((f, i))
    else if f.iniComplete then Ok((f, i + 1))
    else
      match HeaderStep(f, lines[i], strtod)
      case Err(e) => Err(e)
      case Ok(g) => HeaderPhase(g, lines, i + 1, strtod)
  }

  /** The header loop as evidently intended: stop before reading a line once latched. */
  function HeaderPhaseFixed(f: Frame, lines: seq<Bytes>, i: nat, strtod: Bytes -> Float): (r: Result<(Frame, nat)>)
    requires WellFormed(f) && i <= |lines|
    ensures r.Ok? ==> WellFormed(r.value.0) && i <= r.value.1 <= |lines|
    decreases |lines| - i
  {
    if i == |lines| || f.iniComplete then Ok((f, i))
    else
      match HeaderStep(f, lines[i], strtod)
      case Err(e) => Err(e)
      case Ok(g) => HeaderPhaseFixed(g, lines, i + 1, strtod)
  }

  // ---------------------------------------------------------------------
  // Data lines (tfs_dataframe.h:814-825)
  // ---------------------------------------------------------------------

  /** The `convert_back` loop of `read_line`: token `i` goes to column `i`;
      a token past the last column indexes out of bounds. */
  function ConvertRow(cols: seq<Column>, tokens: seq<Bytes>, strtod: Bytes -> Float): (r: Result<seq<Column>>)
    ensures r.Ok? <==> |tokens| <= |cols| && forall i | 0 <= i < |tokens| :: ConvertBack(cols[i], tokens[i], strtod).Ok?
    ensures r.Ok? ==> |r.value| == |cols|
    ensures r.Ok? ==> forall i | 0 <= i < |cols| ::
      r.value[i] == if i < |tokens| then ConvertBack(cols[i], tokens[i], strtod).value else cols[i]
  {
    if tokens == [] then Ok(cols)
    else
      var n := |tokens| - 1;
      var front := tokens[..n];
      assert forall i | 0 <= i < n :: front[i] == tokens[i];
      match ConvertRow(cols, front, strtod)
      case Err(e) => Err(e)
      case Ok(cs) =>
        if n >= |cs| then Err(Undefined)
        else
          match ConvertBack(cs[n], tokens[n], strtod)
          case Err(e) => Err(e)
          case Ok(c) => Ok(cs[n := c])
  }

  /** One more token: converted into the next column, if there is one. */
  lemma ConvertRowStep(cols: seq<Column>, tokens: seq<Bytes>, i: nat, cs: seq<Column>, strtod: Bytes -> Float)
    requires i < |tokens| && ConvertRow(cols, tokens[..i], strtod) == Ok(cs)
    ensures ConvertRow(cols, tokens[..i + 1], strtod) ==
      if i >= |cs| then Err(Undefined)
      else match ConvertBack(cs[i], tokens[i], strtod)
        case Err(e) => Err(e)
        case Ok(c) => Ok(cs[i := c])
  {
    assert tokens[..i + 1][..i] == tokens[..i];
  }

  /** Once a prefix of the row fails, the whole row fails the same way:
      the tokens are converted left to right. */
  lemma {:induction false} ConvertRowPrefixErr(cols: seq<Column>, tokens: seq<Bytes>, k: nat, strtod: Bytes -> Float)
    requires k <= |tokens| && ConvertRow(cols, tokens[..k], strtod).Err?
    ensures ConvertRow(cols, tokens, strtod) == ConvertRow(cols, tokens[..k], strtod)
    decreases |tokens| - k
  {
    if k < |tokens| {
      assert tokens[..k + 1][..k] == tokens[..k];
      ConvertRowPrefixErr(cols, tokens, k + 1, strtod);
    } else {
      assert tokens[..k] == tokens;
    }
  }

  /** `read_line(line)`. */
  function ReadLine(f: Frame, line: Bytes, strtod: Bytes -> Float): (r: Result<Frame>)
    ensures r.Ok? <==> ConvertRow(f.columns, Words(line, BLANK), strtod).Ok?
    ensures r.Ok? ==> r.value == f.(columns := ConvertRow(f.columns, Words(line, BLANK), strtod).value)
  {
    match ConvertRow(f.columns, Words(line, BLANK), strtod)
    case Err(e) => Err(e)
    case Ok(cs) => Ok(f.(columns := cs))
  }

  /** `while (getline(file, line)) read_line(line);` from line `i`. */
  function DataPhase(f: Frame, lines: seq<Bytes>, i: nat, strtod: Bytes -> Float): (r: Result<Frame>)
    requires i <= |lines|
    ensures r.Ok? ==> r.value.headers == f.headers && r.value.properties == f.properties
    ensures r.Ok? ==> r.value.idx == f.idx && r.value.iniComplete == f.iniComplete
    ensures r.Ok? ==> |r.value.columns| == |f.columns|
    decreases |lines| - i
  {
    if i == |lines| then Ok(f)
    else
      match ReadLine(f, lines[i], strtod)
      case Err(e) => Err(e)
      case Ok(g) => DataPhase(g, lines, i + 1, strtod)
  }

  /** What a column of tag `t` at position `j` collects from the data lines
      `lines[i..]`: token `j` of every line that has one, in line order. */
  function Collected(t: DataType, lines: seq<Bytes>, i: nat, j: nat, strtod: Bytes -> Float): seq<Value>
    requires i <= |lines|
    decreases |lines| - i
  {
    if i == |lines| then []
    else
      LineValues(t, lines[i], j, strtod) + Collected(t, lines, i + 1, j, strtod)
  }

  /** What one data line adds to a column of tag `t` at position `j`:
      `convert_back` of token `j`, and nothing for `B` and `C`. */
  function LineValues(t: DataType, line: Bytes, j: nat, strtod: Bytes -> Float): seq<Value>
  {
    var tokens := Words(line, BLANK);
    if t in {S, LE, D} && j < |tokens| then [TokenValue(t, tokens[j], strtod)] else []
  }

  /** `g` is `c` with the values `vs` appended: same tag and name, and a
      `B` or `C` column not touched at all. */
  predicate Extends(c: Column, g: Column, vs: seq<Value>)
  {
    g.tag == c.tag && g.name == c.name &&
    Elements(g.payload) == Elements(c.payload) + vs &&
    (c.tag in {B, C} ==> g == c)
  }

  /** One data line, seen from the column at position `j`. */
  lemma ReadLineColumn(f: Frame, line: Bytes, j: nat, strtod: Bytes -> Float)
    requires ReadLine(f, line, strtod).Ok? && j < |f.columns|
    ensures Extends(f.columns[j], ReadLine(f, line, strtod).value.columns[j], LineValues(f.columns[j].tag, line, j, strtod))
  {
    var tokens := Words(line, BLANK);
    var cs := ConvertRow(f.columns, tokens, strtod).value;
    assert ReadLine(f, line, strtod).value.columns == cs;
    if j < |tokens| {
      assert cs[j] == ConvertBack(f.columns[j], tokens[j], strtod).value;
    } else {
      assert cs[j] == f.columns[j];
    }
  }

  /** Appending in two steps is appending the concatenation. */
  lemma ExtendsTrans(a: Column, b: Column, c: Column, v1: seq<Value>, v2: seq<Value>)
    requires Extends(a, b, v1) && Extends(b, c, v2)
    ensures Extends(a, c, v1 + v2)
  {
    assert Elements(c.payload) == Elements(a.payload) + (v1 + v2);
  }

  /** One turn of the data loop, once its line has parsed. */
  lemma DataPhaseStep(f: Frame, lines: seq<Bytes>, i: nat, strtod: Bytes -> Float)
    requires i < |lines| && DataPhase(f, lines, i, strtod).Ok?
    ensures ReadLine(f, lines[i], strtod).Ok?
    ensures DataPhase(f, lines, i, strtod) == DataPhase(ReadLine(f, lines[i], strtod).value, lines, i + 1, strtod)
  {
  }

  /** The data loop only appends: every column keeps its tag and name, an
      `S`, `LE` or `D` column gains exactly the tokens at its position, and a
      `B` or `C` column is left as it was. */
  lemma {:induction false} DataPhaseColumns(f: Frame, lines: seq<Bytes>, i: nat, j: nat, strtod: Bytes -> Float)
    requires i <= |lines| && DataPhase(f, lines, i, strtod).Ok? && j < |f.columns|
    ensures Extends(f.columns[j], DataPhase(f, lines, i, strtod).value.columns[j], Collected(f.columns[j].tag, lines, i, j, strtod))
    decreases |lines| - i
  {
    var c := f.columns[j];
    if i < |lines| {
      DataPhaseStep(f, lines, i, strtod);
      var h := ReadLine(f, lines[i], strtod).value;
      ReadLineColumn(f, lines[i], j, strtod);
      DataPhaseColumns(h, lines, i + 1, j, strtod);
      ExtendsTrans(c, h.columns[j], DataPhase(h, lines, i + 1, strtod).value.columns[j],
        LineValues(c.tag, lines[i], j, strtod), Collected(c.tag, lines, i + 1, j, strtod));
    } else {
      assert Elements(c.payload) + [] == Elements(c.payload);
    }
  }

  // ---------------------------------------------------------------------
  // The row index (tfs_dataframe.h:704-708)
  // ---------------------------------------------------------------------

  /** `get_column(name)` (tfs_dataframe.h:712-715): `column_headers[name]`
      inserts `name -> 0` when it is missing; the position then indexes
      `columns` without a bounds check. Returns the new map and the position. */
  function ColumnPosition(f: Frame, name: Bytes): (r: Result<(Entries, nat)>)
    requires WellFormed(f)
    ensures r.Ok? <==> LookupOrInsert(f.headers, name, 0).1 < |f.columns|
    ensures r.Ok? ==> r.value == LookupOrInsert(f.headers, name, 0)
    ensures r.Err? ==> r.error == Undefined
  {
    var (h, k) := LookupOrInsert(f.headers, name, 0);
    if k < |f.columns| then Ok((h, k)) else Err(Undefined)
  }

  /** The index build: unless `index` is empty, every string of the named
      column is inserted with its row number; a repeated key keeps its
      first row. */
  function BuildIndex(f: Frame, index: Bytes): (r: Result<Frame>)
    requires WellFormed(f)
    ensures r.Ok? ==> WellFormed(r.value)
    ensures index == [] ==> r == Ok(f)
  {
    if index == [] then Ok(f)
    else
      match ColumnPosition(f, index)
      case Err(e) => Err(e)
      case Ok((h, k)) =>
        var col := f.columns[k];
        if !col.payload.Strings? then Err(BadVariantAccess)
        else Ok(f.(headers := h, idx := InsertAll(f.idx, col.payload.strings)))
  }

  /** `dataframe(path, index)` on a file whose lines are `lines`. */
  function LoadText(lines: seq<Bytes>, index: Bytes, strtod: Bytes -> Float): (r: Result<Frame>)
    ensures r.Ok? ==> WellFormed(r.value)
  {
    match HeaderPhase(EmptyFrame(), lines, 0, strtod)
    case Err(e) => Err(e)
    case Ok((f, i)) =>
      match DataPhase(f, lines, i, strtod)
      case Err(e) => Err(e)
      case Ok(g) => BuildIndex(g, index)
  }

  /** The same with the header loop as evidently intended. */
  function LoadTextFixed(lines: seq<Bytes>, index: Bytes, strtod: Bytes -> Float): (r: Result<Frame>)
    ensures r.Ok? ==> WellFormed(r.value)
  {
    match HeaderPhaseFixed(EmptyFrame(), lines, 0, strtod)
    case Err(e) => Err(e)
    case Ok((f, i)) =>
      match DataPhase(f, lines, i, strtod)
      case Err(e) => Err(e)
      case Ok(g) => BuildIndex(g, index)
  }

  // ---------------------------------------------------------------------
  // Queries (tfs_dataframe.h:586-622)
  // ---------------------------------------------------------------------

  /** `size()`: 0 without columns; otherwise the size of the column under
      the map's first entry (dereferencing `begin()` of an empty map, or a
      position past the columns, is undefined behaviour). */
  function FrameSize(f: Frame): (r: Result<nat>)
    ensures f.columns == [] ==> r == Ok(0)
    ensures f.columns != [] && (f.headers == [] || f.headers[0].1 >= |f.columns|) ==> r == Err(Undefined)
    ensures f.columns != [] && f.headers != [] && f.headers[0].1 < |f.columns| ==>
      r == Columns.Size(f.columns[f.headers[0].1])
  {
    if f.columns == [] then Ok(0)
    else if f.headers == [] || f.headers[0].1 >= |f.columns| then Err(Undefined)
    else Columns.Size(f.columns[f.headers[0].1])
  }

  /** The first entry of the map holds its smallest name, so `size()` is
      the size of the column under the alphabetically first header name. */
  lemma FrameSizeSmallestName(f: Frame, j: nat)
    requires WellFormed(f) && f.columns != [] && j < |f.headers| && f.headers[j].1 < |f.columns|
    requires forall k | 0 <= k < |f.headers| && k != j :: LexLess(f.headers[j].0, f.headers[k].0)
    ensures FrameSize(f) == Columns.Size(f.columns[f.headers[j].1])
  {
    if j != 0 {
      assert LexLess(f.headers[0].0, f.headers[j].0);
      LexAsymmetric(f.headers[0].0, f.headers[j].0);
      assert false;
    }
  }

  // ---------------------------------------------------------------------
  // The header latch (tfs_dataframe.h:688-700, 792-811, 827-836)
  // ---------------------------------------------------------------------

  /** Positions held by distinct entries differ. */
  ghost predicate DistinctPositions(entries: Entries)
  {
    forall j1, j2 | 0 <= j1 < j2 < |entries| :: entries[j1].1 != entries[j2].1
  }

  /** With in-range, pairwise different positions, `check_ini`'s loop gives
      each listed column the name of its entry and leaves the rest of every
      column alone. */
  lemma {:induction false} SetNamesNames(cols: seq<Column>, entries: Entries)
    requires forall j | 0 <= j < |entries| :: entries[j].1 < |cols|
    requires DistinctPositions(entries)
    ensures SetNames(cols, entries).Ok?
    ensures var cs := SetNames(cols, entries).value;
      (forall j | 0 <= j < |entries| :: cs[entries[j].1].name == entries[j].0) &&
      (forall i | 0 <= i < |cols| :: cs[i].tag == cols[i].tag && cs[i].payload == cols[i].payload)
    decreases |entries|
  {
    if entries != [] {
      var (name, p) := entries[0];
      var cols' := cols[p := cols[p].(name := name)];
      var tail := entries[1..];
      assert forall j | 0 <= j < |tail| :: tail[j] == entries[j + 1];
      SetNamesNames(cols', tail);
      SetNamesElsewhere(cols', tail, p);
    }
  }

  /** A column no entry points at keeps its name. */
  lemma {:induction false} SetNamesElsewhere(cols: seq<Column>, entries: Entries, p: nat)
    requires p < |cols| && SetNames(cols, entries).Ok?
    requires forall j | 0 <= j < |entries| :: entries[j].1 != p
    ensures SetNames(cols, entries).value[p] == cols[p]
    decreases |entries|
  {
    if entries != [] {
      var (name, q) := entries[0];
      var tail := entries[1..];
      assert forall j | 0 <= j < |tail| :: tail[j] == entries[j + 1];
      SetNamesElsewhere(cols[q := cols[q].(name := name)], tail, p);
    }
  }

  /** The map built from pairwise distinct names holds exactly the pairs
      `(names[i], i)`: every position is in range and no two entries share one. */
  lemma DistinctHeaders(names: seq<Bytes>)
    requires Distinct(names)
    ensures var h := InsertAll([], names);
      |h| == |names| && DistinctPositions(h) &&
      (forall j | 0 <= j < |h| :: h[j].1 < |names| && h[j].0 == names[h[j].1]) &&
      (forall i | 0 <= i < |names| :: Lookup(h, names[i]) == Some(i))
  {
    var h := InsertAll([], names);
    InsertAllDistinct([], names);
    forall j | 0 <= j < |h| ensures h[j].1 < |names| && h[j].0 == names[h[j].1] {
      LookupSorted(h, j);
      if h[j].0 !in names {
        assert false;
      } else {
        var q :| 0 <= q < |names| && names[q] == h[j].0;
      }
    }
    forall j1, j2 | 0 <= j1 < j2 < |h| ensures h[j1].1 != h[j2].1 {
      assert LexLess(h[j1].0, h[j2].0);
      LexIrreflexive(h[j1].0);
    }
  }

  /** `check_ini` after a `*` line of pairwise distinct names and as many
      columns: it latches, and column `i` is named after token `i + 1` of
      the `*` line; tags and contents do not change. */
  lemma CheckIniNames(f: Frame, names: seq<Bytes>)
    requires WellFormed(f) && f.headers == InsertAll([], names) && Distinct(names)
    requires |f.columns| == |names| > 0
    ensures CheckIni(f).Ok? && CheckIni(f).value.iniComplete
    ensures var cs := CheckIni(f).value.columns;
      forall i | 0 <= i < |names| ::
        cs[i].name == names[i] && cs[i].tag == f.columns[i].tag && cs[i].payload == f.columns[i].payload
  {
    var h := f.headers;
    DistinctHeaders(names);
    SetNamesNames(f.columns, h);
    var cs := SetNames(f.columns, h).value;
    forall i | 0 <= i < |names| ensures cs[i].name == names[i] {
      LookupEntry(h, names[i]);
      var j :| 0 <= j < |h| && h[j] == (names[i], i);
    }
  }

  /** With a repeated name on the `*` line the map has fewer entries than
      the `$` line has columns, so `check_ini` never latches. */
  lemma DuplicateNamesNoLatch(f: Frame, names: seq<Bytes>)
    requires f.headers == InsertAll([], names) && !Distinct(names)
    requires |f.columns| == |names|
    ensures CheckIni(f) == Ok(f)
  {
    InsertAllSize([], names);
  }

  /** A line that starts with a non-blank byte has a first token. */
  lemma FirstToken(line: Bytes)
    requires line != [] && line[0] != SPACE
    ensures Words(line, BLANK) != []
  {
  }

  /** Before any column is declared (whatever `@` lines came first), a `*`
      line and a `$` line have the same effect in either order: neither
      order latches before both are read. */
  lemma HeaderLinesCommute(f: Frame, star: Bytes, dollar: Bytes, strtod: Bytes -> Float)
    requires WellFormed(f) && f.columns == [] && f.headers == [] && !f.iniComplete
    requires Sigil(star) == STAR && Sigil(dollar) == DOLLAR
    ensures HeaderStep(f, star, strtod).Ok? && HeaderStep(f, dollar, strtod).Ok?
    ensures HeaderStep(HeaderStep(f, star, strtod).value, dollar, strtod) ==
            HeaderStep(HeaderStep(f, dollar, strtod).value, star, strtod)
  {
    FirstToken(star);
    FirstToken(dollar);
  }

  /** The header loop as written runs exactly as the intended one, except
      that once it latches with lines left it also consumes the next line:
      that line reaches neither the header nor the data reader. */
  lemma {:induction false} HeaderPhaseSkipsOne(f: Frame, lines: seq<Bytes>, i: nat, strtod: Bytes -> Float)
    requires WellFormed(f) && i <= |lines|
    ensures HeaderPhase(f, lines, i, strtod) ==
      match HeaderPhaseFixed(f, lines, i, strtod)
      case Err(e) => Err(e)
      case Ok((g, j)) => Ok((g, if j < |lines| then j + 1 else j))
    decreases |lines| - i
  {
    if i < |lines| && !f.iniComplete {
      match HeaderStep(f, lines[i], strtod)
      case Err(_) =>
      case Ok(g) => HeaderPhaseSkipsOne(g, lines, i + 1, strtod);
    }
  }

  /** The intended header loop hands the data loop every line after the
      one on which the header latched. */
  lemma {:induction false} HeaderPhaseFixedLatch(f: Frame, lines: seq<Bytes>, i: nat, strtod: Bytes -> Float)
    requires WellFormed(f) && i <= |lines| && HeaderPhaseFixed(f, lines, i, strtod).Ok?
    ensures var (g, j) := HeaderPhaseFixed(f, lines, i, strtod).value;
      j < |lines| ==> g.iniComplete
    decreases |lines| - i
  {
    if i < |lines| && !f.iniComplete {
      var g := HeaderStep(f, lines[i], strtod).value;
      HeaderPhaseFixedLatch(g, lines, i + 1, strtod);
    }
  }

  /** A file whose header latches on its second line and whose third line
      is a data row. */
  const EXAMPLE_LINES: seq<Bytes> := [
    [STAR, SPACE, 'A' as uint8],
    [DOLLAR, SPACE] + PCT_S,
    ['x' as uint8]]

  /** The frame both readers have once the `$` line of the example latches. */
  function ExampleHeader(): Frame
  {
    Frame([Column(S, ['A' as uint8], Strings([]))], [(['A' as uint8], 0)], [], [], true)
  }

  /** A two-token line: a one-byte sigil, a blank and one token. */
  lemma TwoTokens(sigil: uint8, w: Bytes)
    requires sigil != SPACE && w != [] && NoDelims(w, BLANK)
    ensures Words([sigil] + [SPACE] + w, BLANK) == [[sigil], w]
  {
    WordsSplit([sigil], SPACE, w, BLANK);
    WordsOfWord([sigil], BLANK);
    WordsOfWord(w, BLANK);
  }

  lemma ExampleStarLine(strtod: Bytes -> Float)
    ensures HeaderStep(EmptyFrame(), EXAMPLE_LINES[0], strtod) == Ok(EmptyFrame().(headers := [(['A' as uint8], 0)]))
  {
    var a: Bytes := ['A' as uint8];
    assert EXAMPLE_LINES[0] == [STAR] + [SPACE] + a;
    TwoTokens(STAR, a);
    assert Words(EXAMPLE_LINES[0], BLANK)[1..] == [a];
    assert Insert([], a, 0) == [(a, 0)];
    assert InsertFrom(Insert([], a, 0), [a], 1) == Insert([], a, 0);
  }

  lemma ExampleDollarLine(strtod: Bytes -> Float)
    ensures HeaderStep(EmptyFrame().(headers := [(['A' as uint8], 0)]), EXAMPLE_LINES[1], strtod) == Ok(ExampleHeader())
  {
    var a: Bytes := ['A' as uint8];
    assert EXAMPLE_LINES[1] == [DOLLAR] + [SPACE] + PCT_S;
    TwoTokens(DOLLAR, PCT_S);
    var types := Words(EXAMPLE_LINES[1], BLANK)[1..];
    assert types == [PCT_S];
    assert NewColumns([PCT_S]) == [NewColumn(S, [])];
    var f1 := EmptyFrame().(headers := [(a, 0)]);
    var g := f1.(columns := [NewColumn(S, [])]);
    assert Sigil(EXAMPLE_LINES[1]) == DOLLAR;
    assert f1.columns + NewColumns(types) == [NewColumn(S, [])];
    assert ReadColumnTypes(f1, EXAMPLE_LINES[1]) == Ok(g);
    var cs := [Column(S, a, Strings([]))];
    assert NewColumn(S, []) == Column(S, [], Strings([]));
    assert g.columns[0 := g.columns[0].(name := a)] == cs;
    assert [(a, 0)][1..] == [];
    assert SetNames(g.columns, [(a, 0)]) == SetNames(cs, []);
    assert CheckIni(g) == Ok(ExampleHeader());
  }

  /** The row after the latching `$` line is lost: as written the example
      loads a column with no rows. */
  lemma FirstRowDropped(strtod: Bytes -> Float)
    ensures LoadText(EXAMPLE_LINES, [], strtod) == Ok(ExampleHeader())
  {
    ExampleStarLine(strtod);
    ExampleDollarLine(strtod);
    var f1 := EmptyFrame().(headers := [(['A' as uint8], 0)]);
    assert HeaderPhase(ExampleHeader(), EXAMPLE_LINES, 2, strtod) == Ok((ExampleHeader(), 3));
    assert HeaderPhase(f1, EXAMPLE_LINES, 1, strtod) == Ok((ExampleHeader(), 3));
  }

  /** The example's data row, read into the latched frame. */
  lemma ExampleDataLine(strtod: Bytes -> Float)
    ensures DataPhase(ExampleHeader(), EXAMPLE_LINES, 2, strtod) ==
      Ok(ExampleHeader().(columns := [Column(S, ['A' as uint8], Strings([['x' as uint8]]))]))
  {
    var x: Bytes := ['x' as uint8];
    WordsOfWord(x, BLANK);
    var col := Column(S, ['A' as uint8], Strings([]));
    assert ConvertBack(col, x, strtod) == PushBack(col, StrVal(x));
    assert [x][..0] == [];
    assert [] + [x] == [x];
    var col' := col.(payload := Strings([x]));
    assert PushBack(col, StrVal(x)) == Ok(col');
    assert ConvertRow([col], [], strtod) == Ok([col]);
    assert [col][0 := col'] == [col'];
    assert ConvertRow([col], [x], strtod) == Ok([col']);
    var g := ExampleHeader().(columns := [col']);
    assert ReadLine(ExampleHeader(), EXAMPLE_LINES[2], strtod) == Ok(g);
    assert DataPhase(ExampleHeader(), EXAMPLE_LINES, 2, strtod) == Ok(g);
  }

  /** With the intended header loop the example's row is read. */
  lemma FirstRowKept(strtod: Bytes -> Float)
    ensures LoadTextFixed(EXAMPLE_LINES, [], strtod) ==
      Ok(ExampleHeader().(columns := [Column(S, ['A' as uint8], Strings([['x' as uint8]]))]))
  {
    ExampleStarLine(strtod);
    ExampleDollarLine(strtod);
    var f1 := EmptyFrame().(headers := [(['A' as uint8], 0)]);
    assert HeaderPhaseFixed(ExampleHeader(), EXAMPLE_LINES, 2, strtod) == Ok((ExampleHeader(), 2));
    assert HeaderPhaseFixed(f1, EXAMPLE_LINES, 1, strtod) == Ok((ExampleHeader(), 2));
    var g := ExampleHeader().(columns := [Column(S, ['A' as uint8], Strings([['x' as uint8]]))]);
    ExampleDataLine(strtod);
    assert HeaderPhaseFixed(EmptyFrame(), EXAMPLE_LINES, 0, strtod) == Ok((ExampleHeader(), 2));
    assert BuildIndex(g, []) == Ok(g);
  }

  // ---------------------------------------------------------------------
  // Lookups by name
  // ---------------------------------------------------------------------

  /** In the row index built from an index column, a key maps to the first
      row that holds it. */
  lemma IndexKeepsFirstRow(f: Frame, index: Bytes, j: nat)
    requires WellFormed(f) && BuildIndex(f, index).Ok? && index != []
    requires var k := ColumnPosition(f, index).value.1;
      var ss := f.columns[k].payload.strings;
      j < |ss| && Lookup(f.idx, ss[j]).None? && forall j' | 0 <= j' < j :: ss[j'] != ss[j]
    ensures var ss := f.columns[ColumnPosition(f, index).value.1].payload.strings;
      Lookup(BuildIndex(f, index).value.idx, ss[j]) == Some(j)
  {
    var k := ColumnPosition(f, index).value.1;
    InsertAllFirst(f.idx, f.columns[k].payload.strings, j);
  }

  /** `get_property(key)`: the position of the first property named `key`. */
  function FindProperty(ps: seq<Property>, key: Bytes): (r: Result<nat>)
    ensures r.Ok? ==> r.value < |ps| && ps[r.value].name == key && forall j | 0 <= j < r.value :: ps[j].name != key
    ensures r.Err? ==> r.error == KeyNotFound && forall j | 0 <= j < |ps| :: ps[j].name != key
  {
    if ps == [] then Err(KeyNotFound)
    else if ps[0].name == key then Ok(0)
    else
      match FindProperty(ps[1..], key)
      case Err(e) => Err(e)
      case Ok(i) => Ok(i + 1)
  }

  /** `add_property` appends; the added property is what `get_property`
      finds under its name unless an earlier property has that name. */
  lemma AddPropertyFinds(ps: seq<Property>, p: Property)
    ensures FindProperty(ps + [p], p.name) == if FindProperty(ps, p.name).Ok? then FindProperty(ps, p.name) else Ok(|ps|)
    ensures forall key | key != p.name :: FindProperty(ps + [p], key) == FindProperty(ps, key)
  {
    var qs := ps + [p];
    forall key ensures FindProperty(qs, key) == if FindProperty(ps, key).Ok? then FindProperty(ps, key) else if key == p.name then Ok(|ps|) else Err(KeyNotFound) {
      var r := FindProperty(qs, key);
      var r0 := FindProperty(ps, key);
      if r0.Ok? {
        assert qs[r0.value] == ps[r0.value];
        assert forall j | 0 <= j < r0.value :: qs[j] == ps[j];
        FindPropertyUnique(qs, key, r0.value);
      } else if key == p.name {
        assert forall j | 0 <= j < |ps| :: qs[j] == ps[j];
        FindPropertyUnique(qs, key, |ps|);
      } else {
        assert forall j | 0 <= j < |qs| :: qs[j].name != key by {
          assert forall j | 0 <= j < |ps| :: qs[j] == ps[j];
        }
      }
    }
  }

  /** The first position holding `key` is the one `FindProperty` returns. */
  lemma FindPropertyUnique(ps: seq<Property>, key: Bytes, i: nat)
    requires i < |ps| && ps[i].name == key && forall j | 0 <= j < i :: ps[j].name != key
    ensures FindProperty(ps, key) == Ok(i)
  {
  }
}
