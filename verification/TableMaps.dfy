/**
 Table maps: the TABLE_MAP_EVENT parser of binlog.c, and the lookup of one column's metadata
 in rows_event.c.
 */
module TableMaps {
  import opened Bytes
  import opened Outcomes
  import opened LengthEncoded
  import opened Wire

  // ---------- column types (binary_type.h) ----------

  const MYSQL_TYPE_DECIMAL := 0x00
  const MYSQL_TYPE_TINY := 0x01
  const MYSQL_TYPE_SHORT := 0x02
  const MYSQL_TYPE_LONG := 0x03
  const MYSQL_TYPE_FLOAT := 0x04
  const MYSQL_TYPE_DOUBLE := 0x05
  const MYSQL_TYPE_LONGLONG := 0x08
  const MYSQL_TYPE_INT24 := 0x09
  const MYSQL_TYPE_DATE := 0x0a
  const MYSQL_TYPE_TIME := 0x0b
  const MYSQL_TYPE_YEAR := 0x0d
  const MYSQL_TYPE_VARCHAR := 0x0f
  const MYSQL_TYPE_TIMESTAMP2 := 0x11
  const MYSQL_TYPE_DATETIME2 := 0x12
  const MYSQL_TYPE_TIME2 := 0x13
  const MYSQL_TYPE_NEWDECIMAL := 0xf6
  const MYSQL_TYPE_ENUM := 0xf7
  const MYSQL_TYPE_SET := 0xf8
  const MYSQL_TYPE_BLOB := 0xfc
  const MYSQL_TYPE_VAR_STRING := 0xfd
  const MYSQL_TYPE_STRING := 0xfe

  /** The metadata bytes get_column_meta_def skips for a column type. */
  function MetaLength(columnDef: byte): nat {
    if columnDef in [MYSQL_TYPE_STRING, MYSQL_TYPE_VAR_STRING, MYSQL_TYPE_VARCHAR, MYSQL_TYPE_DECIMAL,
                     MYSQL_TYPE_NEWDECIMAL, MYSQL_TYPE_ENUM, MYSQL_TYPE_SET] then 2
    else if columnDef in [MYSQL_TYPE_BLOB, MYSQL_TYPE_DOUBLE, MYSQL_TYPE_FLOAT, MYSQL_TYPE_TIME2,
                          MYSQL_TYPE_DATETIME2, MYSQL_TYPE_TIMESTAMP2] then 1
    else 0
  }

  // ---------- metadata lookup ----------

  /** Where the metadata of column i starts: after that of all earlier columns. */
  function MetaOffset(columnDef: seq<byte>, i: nat): nat
    requires i <= |columnDef|
  {
    if i == 0 then 0 else MetaOffset(columnDef, i - 1) + MetaLength(columnDef[i - 1])
  }

  /** get_column_meta_def: the offset of the column's metadata, or None for NULL. */
  function ColumnMeta(columnDef: seq<byte>, column: int): Option<nat> {
    if 0 <= column < |columnDef| && MetaLength(columnDef[column]) > 0
    then Some(MetaOffset(columnDef, column)) else None
  }

  method GetColumnMetaDef(columnDef: seq<byte>, column: int) returns (meta: Option<nat>)
    ensures meta == ColumnMeta(columnDef, column)
  {
    var cursor := 0;
    for i := 0 to |columnDef|
      invariant cursor == MetaOffset(columnDef, i)
      invariant !(0 <= column < i)
    {
      var metaLength := MetaLength(columnDef[i]);
      if column == i {
        if metaLength > 0 {
          return Some(cursor);
        }
        return None;
      }
      cursor := cursor + metaLength;
    }
    return None;
  }

  lemma {:induction false} MetaSlicesInOrder(columnDef: seq<byte>, i: nat, j: nat)
    requires i < j <= |columnDef|
    ensures MetaOffset(columnDef, i) + MetaLength(columnDef[i]) <= MetaOffset(columnDef, j)
  {
    if i + 1 < j {
      MetaSlicesInOrder(columnDef, i, j - 1);
    }
  }

  /** The columns' slices tile the metadata block: every byte of it is in the slice of
      exactly one column, and that column is given its slice by the lookup. */
  lemma {:induction false} MetaSlicesTile(columnDef: seq<byte>, n: nat, p: nat) returns (column: nat)
    requires n <= |columnDef| && p < MetaOffset(columnDef, n)
    ensures column < n
    ensures ColumnMeta(columnDef, column) == Some(MetaOffset(columnDef, column))
    ensures MetaOffset(columnDef, column) <= p < MetaOffset(columnDef, column) + MetaLength(columnDef[column])
    ensures forall j :: 0 <= j < |columnDef| && j != column ==>
              !(MetaOffset(columnDef, j) <= p < MetaOffset(columnDef, j) + MetaLength(columnDef[j]))
  {
    if p < MetaOffset(columnDef, n - 1) {
      column := MetaSlicesTile(columnDef, n - 1, p);
    } else {
      column := n - 1;
    }
    forall j | 0 <= j < |columnDef| && j != column
      ensures !(MetaOffset(columnDef, j) <= p < MetaOffset(columnDef, j) + MetaLength(columnDef[j]))
    {
      if j < column {
        MetaSlicesInOrder(columnDef, j, column);
      } else {
        MetaSlicesInOrder(columnDef, column, j);
      }
    }
  }

  /** That is what a server writes for it. */
  lemma MetaAsWritten(code: byte)
    ensures MetaLength(code) == MetaBytes(code)
  {
  }

  function Concat(parts: seq<seq<byte>>): seq<byte> {
    if |parts| == 0 then [] else Concat(parts[..|parts| - 1]) + parts[|parts| - 1]
  }

  /** So the lookup finds, in a block put together from the metadata of each column as a server
      writes it, exactly the metadata of the column asked for, and nothing for a column without
      any or one that is not there. */
  lemma MetaLookupFindsSlice(columnDef: seq<byte>, metas: seq<seq<byte>>, column: int)
    requires |metas| == |columnDef|
    requires forall i :: 0 <= i < |metas| ==> |metas[i]| == MetaBytes(columnDef[i])
    ensures if !(0 <= column < |metas|) || metas[column] == [] then ColumnMeta(columnDef, column) == None
            else var at := ColumnMeta(columnDef, column);
                 && at.Some? && at.value + |metas[column]| <= |Concat(metas)|
                 && Concat(metas)[at.value..at.value + |metas[column]|] == metas[column]
  {
    hide MetaLength, MetaBytes, MetaOffset, Concat;
    forall i | 0 <= i < |metas| ensures |metas[i]| == MetaLength(columnDef[i]) {
      MetaAsWritten(columnDef[i]);
    }
    if 0 <= column < |metas| {
      SliceAtOffset(columnDef, metas, column);
    }
  }

  lemma {:induction false} SliceAtOffset(columnDef: seq<byte>, metas: seq<seq<byte>>, column: nat)
    requires |metas| == |columnDef| && column < |metas|
    requires forall i :: 0 <= i < |metas| ==> |metas[i]| == MetaLength(columnDef[i])
    ensures |Concat(metas)| == MetaOffset(columnDef, |columnDef|)
    ensures var at := MetaOffset(columnDef, column);
            at + |metas[column]| <= |Concat(metas)| && Concat(metas)[at..at + |metas[column]|] == metas[column]
  {
    hide MetaLength, MetaOffset, Concat;
    var n := |metas| - 1;
    ConcatLength(columnDef, metas, |metas|);
    assert metas[..|metas|] == metas;
    LastPart(metas);
    if column < n {
      MetaOffsetOfPrefix(columnDef, n, column);
      SliceAtOffset(columnDef[..n], metas[..n], column);
    } else {
      ConcatLength(columnDef, metas, n);
    }
  }

  lemma LastPart(parts: seq<seq<byte>>)
    requires |parts| > 0
    ensures Concat(parts) == Concat(parts[..|parts| - 1]) + parts[|parts| - 1]
  {
  }

  lemma {:induction false} MetaOffsetOfPrefix(columnDef: seq<byte>, n: nat, i: nat)
    requires i <= n <= |columnDef|
    ensures MetaOffset(columnDef[..n], i) == MetaOffset(columnDef, i)
  {
    if i > 0 {
      MetaOffsetOfPrefix(columnDef, n, i - 1);
    }
  }

  lemma {:induction false} ConcatLength(columnDef: seq<byte>, metas: seq<seq<byte>>, n: nat)
    requires n <= |metas| == |columnDef|
    requires forall i :: 0 <= i < |metas| ==> |metas[i]| == MetaLength(columnDef[i])
    ensures |Concat(metas[..n])| == MetaOffset(columnDef, n)
  {
    if n > 0 {
      ConcatLength(columnDef, metas, n - 1);
      assert metas[..n][..n - 1] == metas[..n - 1];
    }
  }

  // ---------- the event ----------

  const TABLE_MAP_EVENT := 0x13

  /** What table_map_event keeps. Each length field of the struct is the length of a field
      here: schema_name_length, table_name_length and column_count. */
  datatype TableMap = TableMap(
    tableId: nat,
    flags: nat,
    schemaName: seq<byte>,
    tableName: seq<byte>,
    columnDef: seq<byte>,
    columnMeta: seq<byte>,
    nullBitmask: seq<byte>)

  /** A value copied out of the event, and the cursor after it. */
  datatype Parsed<+T> = Parsed(value: T, cursor: nat)

  /** Length k at offset pos, if it lies in memory. A negative length is not a length. */
  function Take(mem: seq<byte>, pos: nat, k: int): (r: Outcome<seq<byte>>)
    ensures r.Done? ==> |r.value| == k && pos + k <= |mem|
  {
    if 0 <= k && pos + k <= |mem| then Done(mem[pos..pos + k]) else Undefined
  }

  /** How the bytes of the table id are counted: four if get_post_header_length gives 6 for
      this event type, six otherwise, also when there is no table yet. */
  function TableIdWidth(postHeader: Option<seq<byte>>, eventType: int): (r: Outcome<nat>)
    ensures r.Done? ==> r.value == 4 || r.value == 6
  {
    if postHeader.None? then Done(6)
    else if !(1 <= eventType <= |postHeader.value|) then Undefined
    else Done(if postHeader.value[eventType - 1] == 6 then 4 else 6)
  }

  /** Where a server announces the lengths that its events have, that is the width it writes. */
  lemma WidthAsWritten(postHeader: Option<seq<byte>>, eventType: int)
    requires IdWidth(postHeader, eventType).Some?
    ensures TableIdWidth(postHeader, eventType) == Done(IdWidth(postHeader, eventType).value)
  {
  }

  /** The table id: four bytes are read as a signed int and then widened to 64 bits. */
  function TableId(id: seq<byte>): nat
    requires |id| == 4 || |id| == 6
  {
    if |id| == 4 then ToUint64(ReadInt4(id)) else ReadInt6(id)
  }

  /** So of the four-byte ids only those below 2^31 are taken for what they are. */
  predicate IdInReach(id: nat, width: nat) {
    width == 6 || id < TWO_31
  }

  lemma TableIdInReachIff(id: nat, width: nat)
    requires (width == 4 || width == 6) && id < Pow256(width)
    ensures TableId(EncodeLE(id, width)) == id <==> IdInReach(id, width)
  {
    hide EncodeLE;
    DecodeEncodeLE(id, width);
    assert EncodeLE(id, width)[..width] == EncodeLE(id, width);
    assert Pow256(4) == TWO_32;
  }

  /** (columns + 7) / 8 in C, whose division truncates toward zero. */
  function MaskLength(columns: int): (k: int)
    ensures columns > 0 ==> k > 0
    ensures columns >= 0 ==> k >= 0
  {
    if columns + 7 >= 0 then (columns + 7) / 8 else -((-columns - 7) / 8)
  }

  /** That is a bit for each column and less than a byte to spare: the length of the bitmaps a
      server writes. Of a negative number it is the quotient cut toward zero. */
  lemma BitmapAsWritten(mask: seq<byte>, columns: int)
    ensures columns >= 0 ==> (Bitmap(mask, columns) <==> |mask| == MaskLength(columns))
    ensures columns < -7 ==> 8 * MaskLength(columns) - 8 < columns + 7 <= 8 * MaskLength(columns)
  {
  }

  /** table_map_event from the table id to the table name. */
  function ParseNames(width: nat, mem: seq<byte>): (r: Outcome<Parsed<TableMap>>)
    requires width == 4 || width == 6
    ensures r.Done? ==> r.value.cursor <= |mem|
  {
    var id :- Take(mem, 0, width);
    var flags :- Take(mem, width, 2);
    var schemaLength :- Take(mem, width + 2, 1);
    var schemaName :- Take(mem, width + 3, schemaLength[0]);
    var c1 := width + 3 + |schemaName| + 1;
    var tableLength :- Take(mem, c1, 1);
    var tableName :- Take(mem, c1 + 1, tableLength[0]);
    var c2 := c1 + 1 + |tableName| + 1;
    if c2 > |mem| then Undefined
    else Done(Parsed(TableMap(TableId(id), LE(flags), schemaName, tableName, [], [], []), c2))
  }

  /** table_map_event from the column count to the metadata. */
  function ParseColumns(signedChar: bool, names: Parsed<TableMap>, mem: seq<byte>): Outcome<Parsed<TableMap>>
    requires names.cursor <= |mem|
  {
    var c2 := names.cursor;
    var count :- GetNumber(signedChar, mem[c2..]);
    var c3 := c2 + count.length;
    var columnDef :- Take(mem, c3, count.value);
    var c4 := c3 + |columnDef|;
    var meta :- GetString(signedChar, mem[c4..]);
    Done(Parsed(names.value.(columnDef := columnDef, columnMeta := meta.value), c4 + meta.length))
  }

  /** table_map_event up to the metadata: all that decoding rows later relies on. */
  function ParseFields(signedChar: bool, postHeader: Option<seq<byte>>, mem: seq<byte>): Outcome<Parsed<TableMap>> {
    var width :- TableIdWidth(postHeader, TABLE_MAP_EVENT);
    var names :- ParseNames(width, mem);
    ParseColumns(signedChar, names, mem)
  }

  /** table_map_event. */
  function ParseTableMap(signedChar: bool, postHeader: Option<seq<byte>>, mem: seq<byte>): Outcome<Parsed<TableMap>> {
    var fields :- ParseFields(signedChar, postHeader, mem);
    var mask :- Take(mem, fields.cursor, MaskLength(|fields.value.columnDef|));
    Done(Parsed(fields.value.(nullBitmask := mask), fields.cursor + |mask|))
  }

  predicate Valid(t: TableMap, width: nat) {
    && (width == 4 || width == 6) && t.tableId < Pow256(width) && t.flags < 0x1_0000
    && |t.schemaName| < 256 && |t.tableName| < 256
    && |t.columnDef| < TWO_31 && |t.columnMeta| < TWO_31
    && Bitmap(t.nullBitmask, |t.columnDef|)
  }

  /** The part of an event after the two names. */
  function ColumnsOnto(t: TableMap, tail: seq<byte>): seq<byte>
    requires |t.columnDef| < TWO_31 && |t.columnMeta| < TWO_31
  {
    EncodeNumber(|t.columnDef|) + (t.columnDef + (EncodeString(t.columnMeta) + (t.nullBitmask + tail)))
  }

  /** The part after the schema name. */
  function TableOnto(t: TableMap, tail: seq<byte>): seq<byte>
    requires |t.tableName| < 256 && |t.columnDef| < TWO_31 && |t.columnMeta| < TWO_31
  {
    [|t.tableName|] + (t.tableName + ([0] + ColumnsOnto(t, tail)))
  }

  /** TABLE_MAP_EVENT in the layout binlog.h documents, followed by tail. */
  function SerializeOnto(t: TableMap, width: nat, tail: seq<byte>): seq<byte>
    requires Valid(t, width)
  {
    EncodeLE(t.tableId, width)
    + (EncodeLE(t.flags, 2) + ([|t.schemaName|] + (t.schemaName + ([0] + TableOnto(t, tail)))))
  }

  function Serialize(t: TableMap, width: nat): seq<byte>
    requires Valid(t, width)
  {
    SerializeOnto(t, width, [])
  }

  lemma SerializeThenTail(t: TableMap, width: nat, tail: seq<byte>)
    requires Valid(t, width)
    ensures Serialize(t, width) + tail == SerializeOnto(t, width, tail)
  {
  }

  /** What stands at pos when x does, and what follows. */
  lemma At(mem: seq<byte>, pos: nat, x: seq<byte>, rest: seq<byte>)
    requires pos <= |mem| && mem[pos..] == x + rest
    ensures Take(mem, pos, |x|) == Done(x)
    ensures pos + |x| <= |mem| && mem[pos + |x|..] == rest
  {
    assert mem[pos..pos + |x|] == mem[pos..][..|x|];
    assert mem[pos + |x|..] == mem[pos..][|x|..];
  }

  /** The table map as it is taken, with its id read back. */
  function Taken(t: TableMap, width: nat): TableMap
    requires width == 4 || width == 6
  {
    t.(tableId := TableId(EncodeLE(t.tableId, width)))
  }

  /** Where the fields before the table name stand. */
  lemma SchemaInPlace(t: TableMap, width: nat, tail: seq<byte>)
    requires Valid(t, width)
    ensures var mem := SerializeOnto(t, width, tail);
            var c1 := width + 3 + |t.schemaName|;
            && Take(mem, 0, width) == Done(EncodeLE(t.tableId, width))
            && Take(mem, width, 2) == Done(EncodeLE(t.flags, 2))
            && Take(mem, width + 2, 1) == Done([|t.schemaName|])
            && Take(mem, width + 3, |t.schemaName|) == Done(t.schemaName)
            && c1 < |mem| && mem[c1 + 1..] == TableOnto(t, tail)
  {
    hide LE, EncodeLE, TableOnto, Pow256, Take;
    var mem := SerializeOnto(t, width, tail);
    var r4 := [0] + TableOnto(t, tail);
    var r3 := t.schemaName + r4;
    var r2 := [|t.schemaName|] + r3;
    var r1 := EncodeLE(t.flags, 2) + r2;
    assert mem[0..] == EncodeLE(t.tableId, width) + r1;
    At(mem, 0, EncodeLE(t.tableId, width), r1);
    At(mem, width, EncodeLE(t.flags, 2), r2);
    At(mem, width + 2, [|t.schemaName|], r3);
    At(mem, width + 3, t.schemaName, r4);
    At(mem, width + 3 + |t.schemaName|, [0], TableOnto(t, tail));
  }

  /** And where the table name does. */
  lemma TableInPlace(t: TableMap, mem: seq<byte>, c: nat, tail: seq<byte>)
    requires |t.tableName| < 256 && |t.columnDef| < TWO_31 && |t.columnMeta| < TWO_31
    requires c <= |mem| && mem[c..] == TableOnto(t, tail)
    ensures Take(mem, c, 1) == Done([|t.tableName|])
    ensures Take(mem, c + 1, |t.tableName|) == Done(t.tableName)
    ensures c + 1 + |t.tableName| < |mem| && mem[c + 1 + |t.tableName| + 1..] == ColumnsOnto(t, tail)
  {
    hide ColumnsOnto, Take;
    var r2 := [0] + ColumnsOnto(t, tail);
    var r1 := t.tableName + r2;
    At(mem, c, [|t.tableName|], r1);
    At(mem, c + 1, t.tableName, r2);
    At(mem, c + 1 + |t.tableName|, [0], ColumnsOnto(t, tail));
  }

  lemma NamesRoundTrip(t: TableMap, width: nat, tail: seq<byte>)
    requires Valid(t, width)
    ensures var mem := SerializeOnto(t, width, tail);
            var r := ParseNames(width, mem);
            && r.Done? && r.value.value == Taken(t, width).(columnDef := [], columnMeta := [], nullBitmask := [])
            && mem[r.value.cursor..] == ColumnsOnto(t, tail)
  {
    hide LE, EncodeLE, ColumnsOnto, TableOnto, SerializeOnto, Pow256, TableId, Take;
    var mem := SerializeOnto(t, width, tail);
    SchemaInPlace(t, width, tail);
    TableInPlace(t, mem, width + 3 + |t.schemaName| + 1, tail);
    TwoBytes(t.flags);
  }

  lemma TwoBytes(n: nat)
    requires n < 0x1_0000
    ensures LE(EncodeLE(n, 2)) == n
  {
    assert Pow256(2) == 0x1_0000;
    DecodeEncodeLE(n, 2);
  }

  /** Whether both lengths of a table map are in reach of the length reader. */
  predicate Readable(signedChar: bool, t: TableMap) {
    !signedChar || (|t.columnDef| < 0x80 && |t.columnMeta| < 0x80)
  }

  lemma MetaRoundTrip(signedChar: bool, t: TableMap, mem: seq<byte>, c4: nat, tail: seq<byte>)
    requires |t.columnMeta| < TWO_31
    requires c4 <= |mem| && mem[c4..] == EncodeString(t.columnMeta) + (t.nullBitmask + tail)
    ensures GetString(signedChar, mem[c4..])
         == if !signedChar || |t.columnMeta| < 0x80 then Done(Read(t.columnMeta, |EncodeString(t.columnMeta)| + 1))
            else Undefined
    ensures c4 + |EncodeString(t.columnMeta)| <= |mem|
    ensures mem[c4 + |EncodeString(t.columnMeta)|..] == t.nullBitmask + tail
  {
    hide GetString, EncodeString, Take;
    StringRoundTrip(signedChar, t.columnMeta, t.nullBitmask + tail);
    At(mem, c4, EncodeString(t.columnMeta), t.nullBitmask + tail);
  }

  lemma ColumnsRoundTrip(signedChar: bool, t: TableMap, names: Parsed<TableMap>, mem: seq<byte>, tail: seq<byte>)
    requires |t.columnDef| < TWO_31 && |t.columnMeta| < TWO_31
    requires names.cursor <= |mem| && mem[names.cursor..] == ColumnsOnto(t, tail)
    ensures var r := ParseColumns(signedChar, names, mem);
            if Readable(signedChar, t)
            then && r.Done? && r.value.value == names.value.(columnDef := t.columnDef, columnMeta := t.columnMeta)
                 && 1 <= r.value.cursor <= |mem| + 1 && mem[r.value.cursor - 1..] == t.nullBitmask + tail
            else r == Undefined
  {
    hide GetNumber, GetString, EncodeNumber, EncodeString, Take;
    var c2 := names.cursor;
    var r2 := EncodeString(t.columnMeta) + (t.nullBitmask + tail);
    var r1 := t.columnDef + r2;
    GetNumberComputes(signedChar, |t.columnDef|, r1);
    if signedChar && |t.columnDef| >= 0x80 {
      NegativeTake(mem, c2 + 1, GetNumber(signedChar, mem[c2..]).value.value);
    } else {
      At(mem, c2, EncodeNumber(|t.columnDef|), r1);
      var c3 := c2 + |EncodeNumber(|t.columnDef|)|;
      At(mem, c3, t.columnDef, r2);
      MetaRoundTrip(signedChar, t, mem, c3 + |t.columnDef|, tail);
    }
  }

  lemma NegativeTake(mem: seq<byte>, pos: nat, k: int)
    requires k < 0
    ensures Take(mem, pos, k) == Undefined
  {
  }

  /** What table_map_event makes of a serialized table map and what follows it. Every
      field up to the metadata is recovered, except a four-byte id from 2^31 on, and the id
      width follows the latest format description; but the reported string length puts the
      NULL bitmask, and the returned length, one byte too far: with no byte after the event that
      is outside the memory. On a signed-char machine this needs both lengths below 0x80:
      otherwise it copies a negative number of bytes. */
  lemma TableMapRoundTrip(signedChar: bool, postHeader: Option<seq<byte>>, t: TableMap, tail: seq<byte>)
    requires IdWidth(postHeader, TABLE_MAP).Some?
    requires Valid(t, IdWidth(postHeader, TABLE_MAP).value)
    ensures var event := Serialize(t, IdWidth(postHeader, TABLE_MAP).value);
            ParseTableMap(signedChar, postHeader, event + tail) ==
            if Readable(signedChar, t) && |tail| > 0
            then Done(Parsed(Taken(t, IdWidth(postHeader, TABLE_MAP).value)
                             .(nullBitmask := (t.nullBitmask + tail)[1..|t.nullBitmask| + 1]), |event| + 1))
            else Undefined
    ensures Taken(t, IdWidth(postHeader, TABLE_MAP).value) == t
       <==> IdInReach(t.tableId, IdWidth(postHeader, TABLE_MAP).value)
  {
    hide ParseFields, Serialize, MaskLength, TableId, Take, Bitmap;
    BitmapAsWritten(t.nullBitmask, |t.columnDef|);
    var width := IdWidth(postHeader, TABLE_MAP).value;
    WidthAsWritten(postHeader, TABLE_MAP);
    TableIdInReachIff(t.tableId, width);
    var event := Serialize(t, width);
    var mem := event + tail;
    FieldsRoundTrip(signedChar, postHeader, t, tail);
    if Readable(signedChar, t) {
      var c5 := ParseFields(signedChar, postHeader, mem).value.cursor;
      OneByteLate(mem, c5, t.nullBitmask, tail);
    }
  }

  lemma OneByteLate(mem: seq<byte>, c: nat, mask: seq<byte>, tail: seq<byte>)
    requires 1 <= c <= |mem| + 1 && mem[c - 1..] == mask + tail
    ensures Take(mem, c, |mask|) == if |tail| > 0 then Done((mask + tail)[1..|mask| + 1]) else Undefined
  {
    assert |mem| == c - 1 + |mask| + |tail|;
    if |tail| > 0 {
      NextSlice(mem, c, |mask|);
    }
  }

  lemma NextSlice(mem: seq<byte>, c: nat, k: nat)
    requires 1 <= c && c + k <= |mem|
    ensures mem[c..c + k] == mem[c - 1..][1..k + 1]
  {
    var a, b := mem[c..c + k], mem[c - 1..][1..k + 1];
    assert forall i :: 0 <= i < k ==> a[i] == b[i];
  }

  lemma FieldsRoundTrip(signedChar: bool, postHeader: Option<seq<byte>>, t: TableMap, tail: seq<byte>)
    requires IdWidth(postHeader, TABLE_MAP).Some?
    requires Valid(t, IdWidth(postHeader, TABLE_MAP).value)
    ensures var mem := Serialize(t, IdWidth(postHeader, TABLE_MAP).value) + tail;
            var r := ParseFields(signedChar, postHeader, mem);
            if Readable(signedChar, t)
            then && r.Done?
                 && r.value.value == Taken(t, IdWidth(postHeader, TABLE_MAP).value).(nullBitmask := [])
                 && 1 <= r.value.cursor <= |mem| + 1 && mem[r.value.cursor - 1..] == t.nullBitmask + tail
            else r == Undefined
  {
    hide ParseNames, ParseColumns, SerializeOnto, ColumnsOnto, TableId;
    var width := IdWidth(postHeader, TABLE_MAP).value;
    WidthAsWritten(postHeader, TABLE_MAP);
    var mem := Serialize(t, width) + tail;
    SerializeThenTail(t, width, tail);
    NamesRoundTrip(t, width, tail);
    ColumnsRoundTrip(signedChar, t, ParseNames(width, mem).value, mem, tail);
  }

  /** So the NULL bitmask itself is right exactly when all its bytes equal the byte that
      happens to follow the event in memory. */
  lemma MaskRecoveredIff(mask: seq<byte>, tail: seq<byte>)
    requires |tail| > 0
    ensures (mask + tail)[1..|mask| + 1] == mask <==> forall i :: 0 <= i < |mask| ==> mask[i] == tail[0]
  {
    var shifted := (mask + tail)[1..|mask| + 1];
    assert forall i :: 0 <= i < |mask| ==> shifted[i] == (mask + tail)[i + 1];
    if shifted == mask {
      AllAsLast(mask, tail, 0);
    }
  }

  lemma {:induction false} AllAsLast(mask: seq<byte>, tail: seq<byte>, i: nat)
    requires |tail| > 0 && i <= |mask|
    requires forall j :: 0 <= j < |mask| ==> mask[j] == (mask + tail)[j + 1]
    ensures forall j :: i <= j < |mask| ==> mask[j] == tail[0]
    decreases |mask| - i
  {
    if i < |mask| {
      AllAsLast(mask, tail, i + 1);
      assert mask[i] == (mask + tail)[i + 1];
    }
  }
}
