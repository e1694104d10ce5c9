/**
  The result encoder of WireServer.cs (SendResult and CreateColumnHeader) and the three
  canned tables it is given (SendTransactionIsolationState, SendOidTypeQueryResult and
  SendStaticResult).

  A DataTable becomes a `Table`: its columns, each with the two extended properties the
  encoder looks at, and its rows of cells.
 */
module ResultSets {
  import opened Binary
  import opened Errors
  import opened Strings
  import opened TypeOids
  import opened TypeRegistry
  import opened Framing

  /**
    The value of a cell: a C# `null`, `DBNull.Value` (what an unset or cleared DataRow
    item holds), a string, or an int.
   */
  datatype Cell = Null | DBNull | Str(s: Bytes) | IntCell(v: int32)

  /**
    A DataColumn: its name, its DataType, the PostgresTypeInformation stored among its
    extended properties (if any) and the table id stored there (if any).
   */
  datatype Column = Column(name: Bytes, dataType: ClrType, typeInformation: Option<PostgresTypeInformation>, tableId: Option<int32>)

  datatype Table = Table(columns: seq<Column>, rows: seq<seq<Cell>>)

  // ---------------------------------------------------------------------------
  // RowDescription (CreateColumnHeader and the first half of SendResult)
  // ---------------------------------------------------------------------------

  /** The descriptor of a column: its explicit type information, else `Mapping[DataType]`. */
  function TypeInformationOf(column: Column): (r: Result<PostgresTypeInformation>)
    ensures column.typeInformation.Some? ==> r == Ok(column.typeInformation.value)
    ensures column.typeInformation.None? && column.dataType in Mapping ==> r == Ok(Mapping[column.dataType])
    ensures r.Err? <==> column.typeInformation.None? && column.dataType !in Mapping
    ensures r.Err? ==> r.error == MissingTypeMapping
    ensures column.typeInformation.None? && r.Ok? ==> r.value.typeOid in PredefinedTypes && PredefinedTypes[r.value.typeOid] == r.value
  {
    MappingAgreesWithPredefinedTypes();
    if column.typeInformation.Some? then Ok(column.typeInformation.value)
    else if column.dataType in Mapping then Ok(Mapping[column.dataType])
    else Err(MissingTypeMapping)
  }

  /**
    `CreateColumnHeader`: the name and a zero byte, then table id, column number
    (ordinal + 1), type OID, type size, type modifier -1 and format code 0 (text).
   */
  function ColumnHeader(column: Column, ordinal: nat): (r: Result<Bytes>)
    ensures r.Ok? <==> TypeInformationOf(column).Ok?
    ensures r.Ok? ==> |r.value| == |column.name| + 19
  {
    match TypeInformationOf(column)
    case Err(e) => Err(e)
    case Ok(info) =>
      Ok(column.name + [0] + Int32BE(column.tableId.GetOr(0)) + Int16BE(WrapInt16(ordinal + 1)) +
         UInt32BE(info.Oid()) + Int16BE(WrapInt16(info.size.GetOr(4))) + Int32BE(-1) + Int16BE(0))
  }

  /** The headers of the columns, in column order; the first column without a descriptor fails them all. */
  function ColumnHeaders(columns: seq<Column>): (r: Result<Bytes>)
    decreases |columns|
  {
    if columns == [] then Ok([])
    else
      match ColumnHeaders(columns[..|columns| - 1])
      case Err(e) => Err(e)
      case Ok(prefix) =>
        match ColumnHeader(columns[|columns| - 1], |columns| - 1)
        case Err(e) => Err(e)
        case Ok(header) => Ok(prefix + header)
  }

  /** The RowDescription message: 'T', the length 4 + 2 + the header bytes, the column count, the headers. */
  function RowDescription(columnCount: nat, headers: Bytes): (m: Bytes)
    ensures m == EncodeFrame(Frame(CharToByte('T'), Int16BE(WrapInt16(columnCount)) + headers))
  {
    [CharToByte('T')] + Int32BE(WrapInt32(4 + 2 + |headers|)) + Int16BE(WrapInt16(columnCount)) + headers
  }

  // ---------------------------------------------------------------------------
  // DataRow (the row loop of SendResult)
  // ---------------------------------------------------------------------------

  /** `cell.ToString()` for the cells that are neither null nor strings: DBNull renders as "". */
  function DisplayText(cell: Cell): (r: Bytes)
    requires cell.DBNull? || cell.IntCell?
  {
    if cell.DBNull? then [] else Ascii(IntToString(cell.v))
  }

  /** One cell of a DataRow: -1 and no bytes for a C# null, else the byte count and the bytes. */
  function CellBytes(cell: Cell): (r: Bytes)
  {
    match cell
    case Null => Int32BE(-1)
    case Str(s) => Int32BE(WrapInt32(|s|)) + s
    case _ =>
      var text := DisplayText(cell);
      Int32BE(WrapInt32(|text|)) + text
  }

  function CellsBytes(row: seq<Cell>): Bytes
    decreases |row|
  {
    if row == [] then [] else CellsBytes(row[..|row| - 1]) + CellBytes(row[|row| - 1])
  }

  /** The DataRow message: 'D', the length 4 + 2 + the cell bytes, the item count, the cells. */
  function DataRow(row: seq<Cell>): (m: Bytes)
    ensures m == EncodeFrame(Frame(CharToByte('D'), Int16BE(WrapInt16(|row|)) + CellsBytes(row)))
  {
    var cells := CellsBytes(row);
    [CharToByte('D')] + Int32BE(WrapInt32(4 + 2 + |cells|)) + Int16BE(WrapInt16(|row|)) + cells
  }

  function DataRows(rows: seq<seq<Cell>>): Bytes
    decreases |rows|
  {
    if rows == [] then [] else DataRows(rows[..|rows| - 1]) + DataRow(rows[|rows| - 1])
  }

  /** The CommandComplete message SendResult ends with: always the tag "SELECT 0". */
  function CommandComplete(): (m: Bytes)
    ensures m == EncodeFrame(Frame(CharToByte('C'), Ascii("SELECT 0") + [0]))
  {
    StatusMessageString(CharToByte('C'), Ascii("SELECT 0"))
  }

  /**
    Everything SendResult writes: nothing if a column has no descriptor (the headers are
    built before anything is written), else RowDescription, one DataRow per row in order,
    and CommandComplete. The command tag passed in is not used.
   */
  function ResultMessages(table: Table, commandCompleteMessage: string): (r: Result<Bytes>)
  {
    match ColumnHeaders(table.columns)
    case Err(e) => Err(e)
    case Ok(headers) => Ok(RowDescription(|table.columns|, headers) + DataRows(table.rows) + CommandComplete())
  }

  // ---------------------------------------------------------------------------
  // A client's reading of a result
  // ---------------------------------------------------------------------------

  /** What a client reads from a cell: None for SQL NULL, else the value's bytes. */
  function CellValue(cell: Cell): Option<Bytes>
  {
    match cell
    case Null => None
    case Str(s) => Some(s)
    case _ => Some(DisplayText(cell))
  }

  /**
    A client's reading of the cell at the front of s: its value and the bytes it takes.
    A length of -1 is NULL; any other length is followed by that many bytes.
   */
  function ParseCell(s: Bytes): (r: Option<(Option<Bytes>, int)>)
    ensures r.Some? ==> 4 <= r.value.1 <= |s|
  {
    if |s| < 4 then None
    else
      var len := Int32At(s, 0);
      if len == -1 then Some((None, 4))
      else if len < 0 || 4 + len > |s| then None
      else Some((Some(s[4..4 + len]), 4 + len as int))
  }

  /** A client's reading of n cells, one after another, that take up all of s. */
  function ParseCells(s: Bytes, n: nat): Option<seq<Option<Bytes>>>
    decreases n
  {
    if n == 0 then (if s == [] then Some([]) else None)
    else
      match ParseCell(s)
      case None => None
      case Some((v, k)) =>
        match ParseCells(s[k..], n - 1)
        case None => None
        case Some(rest) => Some([v] + rest)
  }

  /** The bytes of a cell are small enough for their int32 count. */
  predicate CellFits(cell: Cell) {
    cell.Str? ==> |cell.s| < 0x8000_0000
  }

  /** The byte strings of ps, one after another. */
  function Concat(ps: seq<Bytes>): (s: Bytes)
    decreases |ps|
  {
    if ps == [] then [] else Concat(ps[..|ps| - 1]) + ps[|ps| - 1]
  }

  /** Concat seen from the front: the first piece, then the others. */
  lemma {:induction false} ConcatFront(ps: seq<Bytes>)
    requires ps != []
    ensures Concat(ps) == ps[0] + Concat(ps[1..])
    decreases |ps|
  {
    if |ps| > 1 {
      var init := ps[..|ps| - 1];
      ConcatFront(init);
      assert init[1..] == ps[1..][..|ps[1..]| - 1];
      ConcatAssociative(ps[0], Concat(init[1..]), ps[|ps| - 1]);
    } else {
      assert ps[..0] == [] && ps[1..] == [];
    }
  }

  /** The pieces of a row's cell bytes: one encoded cell each. */
  function CellPieces(row: seq<Cell>): (ps: seq<Bytes>)
    ensures |ps| == |row|
  {
    seq(|row|, i requires 0 <= i < |row| => CellBytes(row[i]))
  }

  lemma {:induction false} CellsBytesArePieces(row: seq<Cell>)
    ensures CellsBytes(row) == Concat(CellPieces(row))
    decreases |row|
  {
    if row != [] {
      var init := row[..|row| - 1];
      CellsBytesArePieces(init);
      assert CellPieces(row)[..|row| - 1] == CellPieces(init);
    }
  }

  /** A cell that reads back on its own reads back the same with more bytes after it. */
  lemma ParseCellPrefix(p: Bytes, rest: Bytes, v: Option<Bytes>)
    requires ParseCell(p) == Some((v, |p|))
    ensures ParseCell(p + rest) == Some((v, |p|)) && (p + rest)[|p|..] == rest
  {
    HostInt32AtSameBytes(false, p + rest, p, 0);
    var len := Int32At(p, 0);
    if len != -1 {
      assert (p + rest)[4..4 + len] == p[4..4 + len];
    }
  }

  /** Pieces that each read back as one cell read back, joined, as those cells in order. */
  lemma {:induction false} ParsePieces(ps: seq<Bytes>, vs: seq<Option<Bytes>>)
    requires |ps| == |vs|
    requires forall i :: 0 <= i < |ps| ==> ParseCell(ps[i]) == Some((vs[i], |ps[i]|))
    ensures ParseCells(Concat(ps), |ps|) == Some(vs)
    decreases |ps|
  {
    if ps != [] {
      var tail, values := ps[1..], vs[1..];
      forall i | 0 <= i < |tail|
        ensures ParseCell(tail[i]) == Some((values[i], |tail[i]|))
      {
        assert tail[i] == ps[i + 1] && values[i] == vs[i + 1];
      }
      ParsePieces(tail, values);
      ConcatFront(ps);
      assert vs == [vs[0]] + values;
      ParseCellsCons(ps[0], Concat(tail), Concat(ps), |ps|, vs[0], values, vs);
    }
  }

  /** A piece that reads back as one cell, then pieces that read back as the rest. */
  lemma ParseCellsCons(p: Bytes, rest: Bytes, s: Bytes, n: nat, v: Option<Bytes>, vs: seq<Option<Bytes>>, values: seq<Option<Bytes>>)
    requires ParseCell(p) == Some((v, |p|)) && n >= 1 && ParseCells(rest, n - 1) == Some(vs)
    requires s == p + rest && values == [v] + vs
    ensures ParseCells(s, n) == Some(values)
  {
    ParseCellPrefix(p, rest, v);
  }


  /** Reading the bytes of one cell consumes all of them and yields its value. */
  lemma CellReadsBack(c: Cell)
    requires CellFits(c)
    ensures ParseCell(CellBytes(c)) == Some((CellValue(c), |CellBytes(c)|))
  {
    var s := CellBytes(c);
    match c
    case Null =>
      Int32AtIff(s, 0, -1);
    case Str(text) =>
      assert s[0..4] == Int32BE(|text|);
      Int32AtIff(s, 0, |text|);
      assert s[4..4 + |text|] == text;
    case _ =>
      var text := DisplayText(c);
      IntToStringShort(c);
      assert s[0..4] == Int32BE(|text|);
      Int32AtIff(s, 0, |text|);
      assert s[4..4 + |text|] == text;
  }

  lemma IntToStringShort(c: Cell)
    requires c.DBNull? || c.IntCell?
    ensures |DisplayText(c)| < 0x8000_0000
  {
    if c.IntCell? {
      assert Pow10(10) == 10_000_000_000 by {
        assert Pow10(2) == 100;
        assert Pow10(4) == 10_000;
        assert Pow10(6) == 1_000_000;
        assert Pow10(8) == 100_000_000;
      }
      var n: int := c.v;
      DigitsBound(if n < 0 then -n else n, 10);
    }
  }

  function Pow10(k: nat): nat
    decreases k
  {
    if k == 0 then 1 else 10 * Pow10(k - 1)
  }

  /** A number below 10^k has at most k digits. */
  lemma {:induction false} DigitsBound(n: nat, k: nat)
    requires 1 <= k && n < Pow10(k)
    ensures |NatToString(n)| <= k
    decreases n
  {
    if n >= 10 {
      DigitsBound(n / 10, k - 1);
    }
  }

  /** A client reads each row back cell by cell: NULL for a C# null, "" for DBNull, and the value's text otherwise. */
  lemma DataRowCellsRoundTrip(row: seq<Cell>)
    requires forall i :: 0 <= i < |row| ==> CellFits(row[i])
    ensures ParseCells(CellsBytes(row), |row|) == Some(seq(|row|, i requires 0 <= i < |row| => CellValue(row[i])))
  {
    var ps := CellPieces(row);
    var vs := seq(|row|, i requires 0 <= i < |row| => CellValue(row[i]));
    forall i | 0 <= i < |row|
      ensures ParseCell(ps[i]) == Some((vs[i], |ps[i]|))
    {
      CellReadsBack(row[i]);
    }
    ParsePieces(ps, vs);
    CellsBytesArePieces(row);
  }

  /** NULL and DBNull are told apart on the wire: only a C# null is sent as length -1. */
  lemma NullAndDBNullDiffer()
    ensures CellBytes(Null) == Int32BE(-1) && CellBytes(DBNull) == Int32BE(0)
    ensures CellValue(Null) == None && CellValue(DBNull) == Some([])
  {
  }

  // ---------------------------------------------------------------------------
  // Properties of RowDescription
  // ---------------------------------------------------------------------------

  /**
    The layout of a column header: the name, a zero byte, then table id (0 by default),
    column number ordinal + 1, type OID, type size (4 by default), type modifier -1 and
    format code 0; |name| + 19 bytes in all.
   */
  lemma ColumnHeaderLayout(column: Column, ordinal: nat)
    requires ColumnHeader(column, ordinal).Ok?
    ensures var h := ColumnHeader(column, ordinal).value;
            var n := |column.name|;
            var info := TypeInformationOf(column).value;
            |h| == n + 19 && h[..n] == column.name && h[n] == 0 &&
            Int32At(h, n + 1) == column.tableId.GetOr(0) &&
            Int16At(h, n + 5) == WrapInt16(ordinal + 1) &&
            UInt32At(h, n + 7) == info.Oid() &&
            Int16At(h, n + 11) == WrapInt16(info.size.GetOr(4)) &&
            Int32At(h, n + 13) == -1 &&
            Int16At(h, n + 17) == 0
  {
    var h := ColumnHeader(column, ordinal).value;
    var n := |column.name|;
    var info := TypeInformationOf(column).value;
    assert h[n + 1..n + 5] == Int32BE(column.tableId.GetOr(0));
    Int32AtIff(h, n + 1, column.tableId.GetOr(0));
    assert h[n + 5..n + 7] == Int16BE(WrapInt16(ordinal + 1));
    Int16AtIff(h, n + 5, WrapInt16(ordinal + 1));
    assert h[n + 7..n + 11] == UInt32BE(info.Oid());
    UInt32AtIff(h, n + 7, info.Oid());
    assert h[n + 11..n + 13] == Int16BE(WrapInt16(info.size.GetOr(4)));
    Int16AtIff(h, n + 11, WrapInt16(info.size.GetOr(4)));
    assert h[n + 13..n + 17] == Int32BE(-1);
    Int32AtIff(h, n + 13, -1);
    assert h[n + 17..n + 19] == Int16BE(0);
    Int16AtIff(h, n + 17, 0);
  }

  /** The number of header bytes for the columns: |name| + 19 each. */
  function HeaderBytes(columns: seq<Column>): nat
    decreases |columns|
  {
    if columns == [] then 0 else HeaderBytes(columns[..|columns| - 1]) + |columns[|columns| - 1].name| + 19
  }

  /**
    The headers are built exactly when every column has a descriptor, explicit or by
    Mapping, and then take |name| + 19 bytes per column.
   */
  lemma {:induction false} ColumnHeadersResolve(columns: seq<Column>)
    ensures ColumnHeaders(columns).Ok? <==> forall i :: 0 <= i < |columns| ==> TypeInformationOf(columns[i]).Ok?
    decreases |columns|
  {
    if columns != [] {
      ColumnHeadersResolve(columns[..|columns| - 1]);
      ColumnHeadersStep(columns);
      AllTypedSplit(columns);
    }
  }

  /** Whether every column has a descriptor. */
  predicate AllTyped(columns: seq<Column>) {
    forall i :: 0 <= i < |columns| ==> TypeInformationOf(columns[i]).Ok?
  }

  /** Every column has a descriptor exactly when all but the last have one and the last has one. */
  lemma AllTypedSplit(columns: seq<Column>)
    requires columns != []
    ensures AllTyped(columns) <==> AllTyped(columns[..|columns| - 1]) && TypeInformationOf(columns[|columns| - 1]).Ok?
  {
    var init := columns[..|columns| - 1];
    if forall i :: 0 <= i < |init| ==> TypeInformationOf(init[i]).Ok? {
      if TypeInformationOf(columns[|columns| - 1]).Ok? {
        forall i | 0 <= i < |columns|
          ensures TypeInformationOf(columns[i]).Ok?
        {
          if i < |init| {
            assert columns[i] == init[i];
          }
        }
      }
    }
  }

  /** The only way the headers fail is the KeyNotFoundException of a column Mapping lacks. */
  lemma {:induction false} ColumnHeadersFailOnlyOnMissingMapping(columns: seq<Column>)
    ensures ColumnHeaders(columns).Err? ==> ColumnHeaders(columns).error == MissingTypeMapping
    decreases |columns|
  {
    if columns != [] {
      ColumnHeadersFailOnlyOnMissingMapping(columns[..|columns| - 1]);
    }
  }

  lemma ColumnHeadersStep(columns: seq<Column>)
    requires columns != []
    ensures ColumnHeaders(columns).Ok? <==>
              ColumnHeaders(columns[..|columns| - 1]).Ok? && TypeInformationOf(columns[|columns| - 1]).Ok?
  {
  }

  /** Built headers take |name| + 19 bytes per column. */
  lemma {:induction false} ColumnHeadersLength(columns: seq<Column>)
    requires ColumnHeaders(columns).Ok?
    ensures |ColumnHeaders(columns).value| == HeaderBytes(columns)
    decreases |columns|
  {
    if columns != [] {
      ColumnHeadersLength(columns[..|columns| - 1]);
    }
  }

  // ---------------------------------------------------------------------------
  // A whole result as a client reads it
  // ---------------------------------------------------------------------------

  /** The DataRow frame of a row: its item count, then its cells. */
  function RowFrame(row: seq<Cell>): Frame
  {
    Frame(CharToByte('D'), Int16BE(WrapInt16(|row|)) + CellsBytes(row))
  }

  /** The DataRow frames, one per row in row order. */
  function RowFrames(rows: seq<seq<Cell>>): (fs: seq<Frame>)
    ensures |fs| == |rows|
    decreases |rows|
  {
    if rows == [] then [] else RowFrames(rows[..|rows| - 1]) + [RowFrame(rows[|rows| - 1])]
  }

  /** The frame at position i is the DataRow of row i. */
  lemma {:induction false} RowFramesAt(rows: seq<seq<Cell>>, i: nat)
    requires i < |rows|
    ensures RowFrames(rows)[i] == RowFrame(rows[i])
    decreases |rows|
  {
    var init := rows[..|rows| - 1];
    if i < |init| {
      RowFramesAt(init, i);
      SnocIndex(RowFrames(init), RowFrame(rows[|rows| - 1]), i);
      assert rows[i] == init[i];
    }
  }

  /** The frames of a result: RowDescription, the DataRows, CommandComplete. */
  function ResultFrames(table: Table, headers: Bytes): (fs: seq<Frame>)
    ensures |fs| == |table.rows| + 2
  {
    [Frame(CharToByte('T'), Int16BE(WrapInt16(|table.columns|)) + headers)] + RowFrames(table.rows) +
    [Frame(CharToByte('C'), Ascii("SELECT 0") + [0])]
  }

  lemma {:induction false} DataRowsAreFrames(rows: seq<seq<Cell>>)
    ensures DataRows(rows) == EncodeFrames(RowFrames(rows))
    decreases |rows|
  {
    if rows != [] {
      var init := rows[..|rows| - 1];
      DataRowsAreFrames(init);
      EncodeFramesSnoc(RowFrames(init), RowFrame(rows[|rows| - 1]));
    }
  }

  /** What SendResult writes is the encoding of the result's frames. */
  lemma ResultMessagesAreFrames(table: Table, commandCompleteMessage: string)
    requires ResultMessages(table, commandCompleteMessage).Ok?
    ensures ResultMessages(table, commandCompleteMessage).value ==
              EncodeFrames(ResultFrames(table, ColumnHeaders(table.columns).value))
  {
    var headers := ColumnHeaders(table.columns).value;
    var t := Frame(CharToByte('T'), Int16BE(WrapInt16(|table.columns|)) + headers);
    var c := Frame(CharToByte('C'), Ascii("SELECT 0") + [0]);
    DataRowsAreFrames(table.rows);
    EncodeFramesAppend([t] + RowFrames(table.rows), [c]);
    EncodeFramesAppend([t], RowFrames(table.rows));
    assert EncodeFrames([t]) == EncodeFrame(t) + EncodeFrames([]);
    assert EncodeFrames([c]) == EncodeFrame(c) + EncodeFrames([]);
  }

  /**
    A client reading a result that fits in an int32 finds RowDescription with the column
    count and the headers, then exactly one DataRow per row in row order, then
    CommandComplete with the tag "SELECT 0".
   */
  lemma ClientReadsResult(table: Table, commandCompleteMessage: string)
    requires ResultMessages(table, commandCompleteMessage).Ok?
    requires |ResultMessages(table, commandCompleteMessage).value| < 0x8000_0000
    ensures ParseFrames(ResultMessages(table, commandCompleteMessage).value) ==
              Some(ResultFrames(table, ColumnHeaders(table.columns).value))
    ensures var fs := ResultFrames(table, ColumnHeaders(table.columns).value);
            fs[0].tag == CharToByte('T') && Int16At(fs[0].body, 0) == WrapInt16(|table.columns|) &&
            fs[0].body[2..] == ColumnHeaders(table.columns).value &&
            fs[|fs| - 1] == Frame(CharToByte('C'), Ascii("SELECT 0") + [0])
    ensures forall i :: 0 <= i < |table.rows| ==>
              ResultFrames(table, ColumnHeaders(table.columns).value)[i + 1] == RowFrame(table.rows[i])
  {
    var headers := ColumnHeaders(table.columns).value;
    var fs := ResultFrames(table, headers);
    ResultMessagesAreFrames(table, commandCompleteMessage);
    forall k | 0 <= k < |fs|
      ensures Fits(fs[k])
    {
      FrameWithin(fs, k);
    }
    ParseEncodedFrames(fs);
    Int16AtIff(fs[0].body, 0, WrapInt16(|table.columns|));
    forall i | 0 <= i < |table.rows|
      ensures fs[i + 1] == RowFrame(table.rows[i])
    {
      RowFramesAt(table.rows, i);
    }
  }

  /**
    A DataRow frame carries the row's item count, and when every string fits an int32
    count its cells read back as the row's values, NULL as NULL.
   */
  lemma RowFrameReadsBack(row: seq<Cell>)
    requires forall j :: 0 <= j < |row| ==> CellFits(row[j])
    ensures var f := RowFrame(row);
            f.tag == CharToByte('D') && |f.body| >= 2 && Int16At(f.body, 0) == WrapInt16(|row|) &&
            ParseCells(f.body[2..], |row|) == Some(seq(|row|, j requires 0 <= j < |row| => CellValue(row[j])))
  {
    var f := RowFrame(row);
    Int16AtIff(f.body, 0, WrapInt16(|row|));
    assert f.body[2..] == CellsBytes(row);
    DataRowCellsRoundTrip(row);
  }

  /** A frame of a sequence is no longer than the whole encoding. */
  lemma {:induction false} FrameWithin(fs: seq<Frame>, k: nat)
    requires k < |fs|
    ensures 5 + |fs[k].body| <= |EncodeFrames(fs)|
    decreases k
  {
    if k > 0 {
      FrameWithin(fs[1..], k - 1);
    }
  }

  // ---------------------------------------------------------------------------
  // The canned results
  // ---------------------------------------------------------------------------

  /** The table id SendOidTypeQueryResult gives its columns: that of pg_type. */
  const OidTableId: int32 := 1247

  /** SendTransactionIsolationState: one string column "transaction_isolation" and the row "uncommitted read". */
  const TransactionIsolationTable: Table :=
    Table([Column(Ascii("transaction_isolation"), ClrString, None, None)], [[Str(Ascii("uncommitted read"))]])

  /**
    SendOidTypeQueryResult: the int columns "oid" and "typbasetype", both carrying the
    PredefinedTypes entry of Oid (OidDescriptor) with table id 1247, and no rows.
   */
  const OidTypeQueryTable: Table :=
    Table([Column(Ascii("oid"), ClrInt, Some(OidDescriptor), Some(OidTableId)),
           Column(Ascii("typbasetype"), ClrInt, Some(OidDescriptor), Some(OidTableId))],
          [])

  /** SendStaticResult: the int columns "abc" and "def" and the rows (1, 2), (3, 4567890) and (DBNull, 5). */
  const StaticTable: Table :=
    Table([Column(Ascii("abc"), ClrInt, None, None), Column(Ascii("def"), ClrInt, None, None)],
          [[IntCell(1), IntCell(2)], [IntCell(3), IntCell(4567890)], [DBNull, IntCell(5)]])

  /** The transaction isolation column is typed by Mapping as Varchar, and the result encodes. */
  lemma TransactionIsolationEncodes()
    ensures TypeInformationOf(TransactionIsolationTable.columns[0]) == Ok(PostgresTypeInformation(Varchar, None))
    ensures ResultMessages(TransactionIsolationTable, "SHOW").Ok?
  {
    ColumnHeadersResolve(TransactionIsolationTable.columns);
  }

  /** Both Oid query columns carry the Oid descriptor (size 4), and the result encodes. */
  lemma OidTypeQueryEncodes()
    ensures forall i :: 0 <= i < 2 ==> TypeInformationOf(OidTypeQueryTable.columns[i]) == Ok(PostgresTypeInformation(Oid, Some(4)))
    ensures ResultMessages(OidTypeQueryTable, "SELECT 0").Ok?
  {
    ColumnHeadersResolve(OidTypeQueryTable.columns);
  }

  /** Both static columns are typed by Mapping as Int4 (size 4), and the result encodes. */
  lemma StaticResultEncodes()
    ensures forall i :: 0 <= i < 2 ==> TypeInformationOf(StaticTable.columns[i]) == Ok(PostgresTypeInformation(Int4, Some(4)))
    ensures ResultMessages(StaticTable, "SELECT 2").Ok?
  {
    ColumnHeadersResolve(StaticTable.columns);
  }
}
