/**
 When the walk of rows_event.c goes exactly over the rows a server wrote: which columns it
 can move over, which updates it pairs, and which values it then returns.
 */
module RowsExactness {
  import opened Bytes
  import opened Outcomes
  import opened LengthEncoded
  import opened TableMaps
  import opened Rows
  import opened Wire

  /** A row image as written: its NULL bitmap, and the bytes of each column, none for NULL. */
  datatype Image = Image(mask: seq<byte>, cells: seq<seq<byte>>)

  /** The bytes of the columns from i on. */
  function CellsBytes(cells: seq<seq<byte>>, i: nat): seq<byte>
    requires i <= |cells|
    decreases |cells| - i
  {
    if i == |cells| then [] else cells[i] + CellsBytes(cells, i + 1)
  }

  function ImageBytes(image: Image): seq<byte> {
    image.mask + CellsBytes(image.cells, 0)
  }

  function RowsBytes(images: seq<Image>): seq<byte> {
    if |images| == 0 then [] else ImageBytes(images[0]) + RowsBytes(images[1..])
  }

  predicate Shaped(ctx: Context, image: Image) {
    ctx.columns == |image.cells| > 0 && Bitmap(image.mask, ctx.columns)
  }

  /** Every column from i on takes in the image the width the walk gives it. */
  predicate WidthsAgree(ctx: Context, cells: seq<seq<byte>>, i: nat) {
    forall j :: i <= j < |cells| ==> ColumnWidth(ctx.signedChar, ctx.table, j) == Done(|cells[j]|)
  }

  lemma ShapedMask(ctx: Context, image: Image)
    requires Shaped(ctx, image)
    ensures |image.mask| == MaskLength(ctx.columns) > 0
  {
    BitmapAsWritten(image.mask, ctx.columns);
  }

  predicate Fits(ctx: Context, image: Image) {
    Shaped(ctx, image) && WidthsAgree(ctx, image.cells, 0)
  }

  // ---------- places ----------

  /** Where the columns from i on were put by the writer, and where the last one ends. */
  function Places(cells: seq<seq<byte>>, i: nat, pos: nat): seq<nat>
    requires i <= |cells|
    decreases |cells| - i
  {
    if i == |cells| then [pos] else [pos] + Places(cells, i + 1, pos + |cells[i]|)
  }

  /** Where a walk found its columns, and where it ended. */
  function Found(visits: seq<Visit>, cursor: nat): seq<nat> {
    if |visits| == 0 then [cursor] else [visits[0].offset] + Found(visits[1..], cursor)
  }

  lemma {:induction false} ColumnsInPlaceIff(ctx: Context, cells: seq<seq<byte>>, i: nat, mem: seq<byte>, pos: nat)
    requires i <= |cells| == ctx.columns
    requires WalkColumns(ctx, i, mem, pos).Done?
    ensures var walk := WalkColumns(ctx, i, mem, pos).value;
            Found(walk.visits, walk.cursor) == Places(cells, i, pos) <==> WidthsAgree(ctx, cells, i)
    decreases |cells| - i
  {
    hide ColumnWidth, CellValue;
    var walk := WalkColumns(ctx, i, mem, pos).value;
    if i < |cells| {
      var width := ColumnWidth(ctx.signedChar, ctx.table, i).value;
      var rest := WalkColumns(ctx, i + 1, mem, pos + width).value;
      assert walk.visits == [Visit(i, pos, walk.visits[0].value)] + rest.visits;
      assert walk.visits[1..] == rest.visits;
      var f, p := Found(rest.visits, rest.cursor), Places(cells, i + 1, pos + |cells[i]|);
      FoundStarts(ctx, i + 1, mem, pos + width);
      assert p[0] == pos + |cells[i]|;
      assert ([pos] + f)[1..] == f && ([pos] + p)[1..] == p;
      if width == |cells[i]| {
        ColumnsInPlaceIff(ctx, cells, i + 1, mem, pos + width);
      }
    }
  }

  lemma FoundStarts(ctx: Context, i: nat, mem: seq<byte>, pos: nat)
    requires WalkColumns(ctx, i, mem, pos).Done?
    ensures var walk := WalkColumns(ctx, i, mem, pos).value; Found(walk.visits, walk.cursor)[0] == pos
  {
  }

  /** A walk over an image finds every column where it was put, and ends where the image
      ends, exactly when each column was written with the width the walk gives its type. A
      NULL column, written with no bytes, therefore misplaces all that follows it unless its
      type is one the walk does not move over; a VARCHAR, a YEAR (one byte on disk) or a
      temporal type with fraction digits misplaces it when it is not NULL. */
  lemma ImageInPlaceIff(ctx: Context, image: Image, mem: seq<byte>, pos: nat)
    requires Shaped(ctx, image)
    requires WalkImage(ctx, mem, pos).Done?
    ensures var walk := WalkImage(ctx, mem, pos).value;
            Found(walk.visits, walk.cursor) == Places(image.cells, 0, pos + |image.mask|) <==> Fits(ctx, image)
  {
    hide WalkColumns, MaskLength, Bitmap, WidthsAgree, Found, Places;
    ShapedMask(ctx, image);
    ColumnsInPlaceIff(ctx, image.cells, 0, mem, pos + |image.mask|);
  }

  // ---------- values in place ----------

  /** The visits a right walk makes: every column once, in order, at the place it was put,
      with the value its own bytes have. */
  function ExpectedVisits(ctx: Context, cells: seq<seq<byte>>, i: nat, pos: nat): seq<Visit>
    requires i <= |cells| && WidthsAgree(ctx, cells, 0)
    decreases |cells| - i
  {
    if i == |cells| then [] else
    [Visit(i, pos, CellValue(ctx.signedChar, ctx.table, i, cells[i]))]
    + ExpectedVisits(ctx, cells, i + 1, pos + |cells[i]|)
  }

  function ExpectedImages(ctx: Context, images: seq<Image>, pos: nat): (r: seq<seq<Visit>>)
    requires forall i :: 0 <= i < |images| ==> Fits(ctx, images[i])
    ensures |r| == |images|
  {
    if |images| == 0 then [] else
    assert Fits(ctx, images[0]);
    [ExpectedVisits(ctx, images[0].cells, 0, pos + |images[0].mask|)]
    + ExpectedImages(ctx, images[1..], pos + |ImageBytes(images[0])|)
  }

  lemma {:induction false} ColumnsAsWritten(ctx: Context, cells: seq<seq<byte>>, i: nat, mem: seq<byte>, pos: nat,
                                            rest: seq<byte>)
    requires i <= |cells| == ctx.columns && WidthsAgree(ctx, cells, 0)
    requires pos <= |mem| && mem[pos..] == CellsBytes(cells, i) + rest
    ensures WalkColumns(ctx, i, mem, pos)
         == Done(Walk(ExpectedVisits(ctx, cells, i, pos), pos + |CellsBytes(cells, i)|))
    decreases |cells| - i
  {
    hide ColumnWidth, CellValue;
    if i < |cells| {
      var after := CellsBytes(cells, i + 1) + rest;
      assert mem[pos..] == cells[i] + after;
      At(mem, pos, cells[i], after);
      assert ColumnVal(ctx, i, mem, pos) == Done((CellValue(ctx.signedChar, ctx.table, i, cells[i]), |cells[i]|));
      ColumnsAsWritten(ctx, cells, i + 1, mem, pos + |cells[i]|, rest);
    }
  }

  lemma ImageAsWritten(ctx: Context, image: Image, mem: seq<byte>, pos: nat, rest: seq<byte>)
    requires Fits(ctx, image)
    requires pos <= |mem| && mem[pos..] == ImageBytes(image) + rest
    ensures WalkImage(ctx, mem, pos)
         == Done(Walk(ExpectedVisits(ctx, image.cells, 0, pos + |image.mask|), pos + |ImageBytes(image)|))
    ensures pos + |ImageBytes(image)| <= |mem| && mem[pos + |ImageBytes(image)|..] == rest
  {
    hide WalkColumns, ExpectedVisits, CellsBytes, MaskLength, Bitmap, WidthsAgree;
    ShapedMask(ctx, image);
    var after := CellsBytes(image.cells, 0) + rest;
    assert mem[pos..] == image.mask + after;
    At(mem, pos, image.mask, after);
    ColumnsAsWritten(ctx, image.cells, 0, mem, pos + |image.mask|, rest);
    At(mem, pos, ImageBytes(image), rest);
  }

  // ---------- rows, and the parity of the counter ----------

  /** The images of one event are walked right if this holds of the counter before it: always
      for other events; for a version 1 update when there are none, or when counter and
      number of images add up to an odd number. */
  predicate Paired(update: bool, counter: int, images: nat) {
    update && images > 0 ==> (counter + images) % 2 == 1
  }

  /** What is left of the rows of an event when the walk stands between two images. */
  predicate Standing(ctx: Context, images: seq<Image>, mem: seq<byte>, pos: nat, rest: seq<byte>) {
    && (forall i :: 0 <= i < |images| ==> Fits(ctx, images[i]))
    && pos <= |mem| && mem[pos..] == RowsBytes(images) + rest
  }

  lemma NextImage(ctx: Context, images: seq<Image>, mem: seq<byte>, pos: nat, rest: seq<byte>)
    requires Standing(ctx, images, mem, pos, rest) && |images| > 0
    ensures var image := images[0];
            && WalkImage(ctx, mem, pos)
               == Done(Walk(ExpectedVisits(ctx, image.cells, 0, pos + |image.mask|), pos + |ImageBytes(image)|))
            && Standing(ctx, images[1..], mem, pos + |ImageBytes(image)|, rest)
  {
    hide WalkImage, ExpectedVisits, ImageBytes, Fits;
    assert mem[pos..] == ImageBytes(images[0]) + (RowsBytes(images[1..]) + rest);
    ImageAsWritten(ctx, images[0], mem, pos, RowsBytes(images[1..]) + rest);
  }

  lemma FirstImageAlone(ctx: Context, images: seq<Image>, pos: nat)
    requires |images| > 0 && Fits(ctx, images[0])
    ensures Fits(ctx, images[..1][0]) && RowsBytes(images[..1]) == ImageBytes(images[0])
    ensures ExpectedImages(ctx, images[..1], pos)
         == [ExpectedVisits(ctx, images[0].cells, 0, pos + |images[0].mask|)]
  {
    hide ExpectedVisits, ImageBytes, Fits;
    FirstOf(ctx, images[..1], pos);
    assert images[..1][1..] == [];
    NoRows(ctx, pos + |ImageBytes(images[0])|);
  }

  /** A call of fetch_a_row that is not for an update, or finds the counter even. */
  lemma SingleImage(ctx: Context, counter: int, images: seq<Image>, mem: seq<byte>, pos: nat, rest: seq<byte>)
    requires Standing(ctx, images, mem, pos, rest) && ctx.columns > 0 && |images| > 0
    requires !(ctx.update && counter % 2 == 1)
    ensures var next := pos + |RowsBytes(images[..1])|;
            && FetchRow(ctx, counter, mem, pos)
               == Done(Fetched(ExpectedImages(ctx, images[..1], pos), next, counter + 1))
            && Standing(ctx, images[1..], mem, next, rest)
  {
    hide WalkImage, ExpectedVisits, ExpectedImages, ImageBytes, RowsBytes, Fits;
    NextImage(ctx, images, mem, pos, rest);
    FirstImageAlone(ctx, images, pos);
    assert !(ctx.update && (counter + 1) % 2 == 0);
  }

  /** One call of fetch_a_row with enough images left takes one, or a before and after pair. */
  lemma OneRow(ctx: Context, counter: int, images: seq<Image>, mem: seq<byte>, pos: nat, rest: seq<byte>)
    requires Standing(ctx, images, mem, pos, rest) && ctx.columns > 0
    requires |images| > 0 && (ctx.update && counter % 2 == 1 ==> |images| > 1)
    ensures var k := if ctx.update && counter % 2 == 1 then 2 else 1;
            var next := pos + |RowsBytes(images[..k])|;
            && FetchRow(ctx, counter, mem, pos)
               == Done(Fetched(ExpectedImages(ctx, images[..k], pos), next, counter + k))
            && Standing(ctx, images[k..], mem, next, rest)
  {
    hide WalkImage, ExpectedVisits, ExpectedImages, ImageBytes, RowsBytes, Fits;
    if ctx.update && counter % 2 == 1 {
      NextImage(ctx, images, mem, pos, rest);
      var next := pos + |ImageBytes(images[0])|;
      SingleImage(ctx, counter + 1, images[1..], mem, next, rest);
      FirstOf(ctx, images[..2], pos);
      assert images[1..][1..] == images[2..] && images[..2][1..] == images[1..][..1];
    } else {
      SingleImage(ctx, counter, images, mem, pos, rest);
    }
  }

  lemma FirstOf(ctx: Context, images: seq<Image>, pos: nat)
    requires |images| > 0 && forall i :: 0 <= i < |images| ==> Fits(ctx, images[i])
    ensures RowsBytes(images) == ImageBytes(images[0]) + RowsBytes(images[1..])
    ensures Fits(ctx, images[0])
    ensures ExpectedImages(ctx, images, pos)
         == [ExpectedVisits(ctx, images[0].cells, 0, pos + |images[0].mask|)]
            + ExpectedImages(ctx, images[1..], pos + |ImageBytes(images[0])|)
  {
  }

  /** With one image left, a call that wants a pair reads past the rows or fails. */
  lemma OneRowTooFar(ctx: Context, counter: int, images: seq<Image>, mem: seq<byte>, pos: nat, rest: seq<byte>)
    requires Standing(ctx, images, mem, pos, rest) && ctx.columns > 0
    requires |images| == 1 && ctx.update && counter % 2 == 1
    ensures var r := FetchRow(ctx, counter, mem, pos);
            r.Done? ==> r.value.cursor > pos + |RowsBytes(images)| && r.value.counter == counter + 2
  {
    hide WalkImage, ExpectedVisits;
    NextImage(ctx, images, mem, pos, rest);
    assert RowsBytes(images) == ImageBytes(images[0]) + [];
  }

  lemma {:induction false} ColumnsLength(ctx: Context, cells: seq<seq<byte>>, i: nat, mem: seq<byte>, pos: nat)
    requires i <= |cells| == ctx.columns && WidthsAgree(ctx, cells, 0)
    requires pos <= |mem| && WalkColumns(ctx, i, mem, pos).Done?
    ensures WalkColumns(ctx, i, mem, pos).value.cursor == pos + |CellsBytes(cells, i)| <= |mem|
    decreases |cells| - i
  {
    hide ColumnWidth, CellValue;
    if i < |cells| {
      ColumnsLength(ctx, cells, i + 1, mem, pos + |cells[i]|);
    }
  }

  /** Every image of a table takes the same number of bytes: whatever bytes a walk finds, it
      needs and takes as many as any image that fits. */
  lemma ImageLength(ctx: Context, image: Image, mem: seq<byte>, pos: nat)
    requires Fits(ctx, image) && WalkImage(ctx, mem, pos).Done?
    ensures WalkImage(ctx, mem, pos).value.cursor == pos + |ImageBytes(image)| <= |mem|
  {
    hide WalkColumns, CellsBytes, WidthsAgree;
    ColumnsLength(ctx, image.cells, 0, mem, pos + |image.mask|);
  }

  /** And if less than an image follows, it fails. */
  lemma OneRowTooShort(ctx: Context, counter: int, images: seq<Image>, mem: seq<byte>, pos: nat, rest: seq<byte>)
    requires Standing(ctx, images, mem, pos, rest) && ctx.columns > 0
    requires |images| == 1 && ctx.update && counter % 2 == 1 && |rest| < |ImageBytes(images[0])|
    ensures FetchRow(ctx, counter, mem, pos) == Undefined
  {
    hide ExpectedVisits, WalkImage, Fits, ImageBytes;
    NextImage(ctx, images, mem, pos, rest);
    var next := pos + |ImageBytes(images[0])|;
    assert mem[next..] == rest;
    if WalkImage(ctx, mem, next).Done? {
      ImageLength(ctx, images[0], mem, next);
    }
  }

  lemma {:induction false} SplitRows(ctx: Context, images: seq<Image>, k: nat, pos: nat)
    requires k <= |images|
    requires forall i :: 0 <= i < |images| ==> Fits(ctx, images[i])
    ensures RowsBytes(images) == RowsBytes(images[..k]) + RowsBytes(images[k..])
    ensures ExpectedImages(ctx, images, pos)
         == ExpectedImages(ctx, images[..k], pos) + ExpectedImages(ctx, images[k..], pos + |RowsBytes(images[..k])|)
  {
    hide ImageBytes, ExpectedVisits, Fits;
    if k > 0 {
      var first := images[0];
      assert images[..k][0] == first && images[..k][1..] == images[1..][..k - 1];
      assert images[1..][k - 1..] == images[k..];
      SplitRows(ctx, images[1..], k - 1, pos + |ImageBytes(first)|);
    } else {
      assert images[..0] == [] && images[0..] == images;
    }
  }

  lemma RowsNotEmpty(ctx: Context, images: seq<Image>)
    requires |images| > 0 && Shaped(ctx, images[0])
    ensures |RowsBytes(images)| > 0
  {
  }

  lemma SameParity(update: bool, counter: int, images: nat)
    requires images > 0 && (update && counter % 2 == 1 ==> images > 1)
    ensures var k := if update && counter % 2 == 1 then 2 else 1;
            Paired(update, counter, images) <==> Paired(update, counter + k, images - k)
  {
  }

  /** One turn of the rows loop. */
  lemma OneTurn(ctx: Context, counter: int, mem: seq<byte>, pos: nat, end: int, row: Fetched)
    requires pos < end && ctx.columns > 0 && FetchRow(ctx, counter, mem, pos) == Done(row)
    ensures FetchRows(ctx, counter, mem, pos, end)
         == AfterImages(row.images, FetchRows(ctx, row.counter, mem, row.cursor, end))
  {
    hide FetchRow;
  }

  /** The rows loop of one event. If the images are Paired it returns exactly those that were
      written and stops exactly at the end of the event, whatever follows; if not, it fails
      where less than an image follows, and wherever it does not it has read one image more. */
  lemma {:induction false} RowsWalked(ctx: Context, counter: int, images: seq<Image>, mem: seq<byte>, pos: nat,
                                      rest: seq<byte>)
    requires Standing(ctx, images, mem, pos, rest) && ctx.columns > 0
    ensures var end := pos + |RowsBytes(images)|;
            var r := FetchRows(ctx, counter, mem, pos, end);
            if Paired(ctx.update, counter, |images|)
            then r == Done(Fetched(ExpectedImages(ctx, images, pos), end, counter + |images|))
            else (r.Done? ==> r.value.cursor > end && r.value.counter == counter + |images| + 1)
                 && (|rest| < |ImageBytes(images[|images| - 1])| ==> r == Undefined)
    decreases |images|
  {
    hide FetchRow, ExpectedVisits, ExpectedImages, ImageBytes, RowsBytes, Fits;
    var end := pos + |RowsBytes(images)|;
    if |images| == 0 {
      NoRows(ctx, pos);
    } else {
      FitsShaped(ctx, images[0]);
      RowsNotEmpty(ctx, images);
      if ctx.update && counter % 2 == 1 && |images| == 1 {
        OneRowTooFar(ctx, counter, images, mem, pos, rest);
        if |rest| < |ImageBytes(images[0])| {
          OneRowTooShort(ctx, counter, images, mem, pos, rest);
        }
        CursorGrows(ctx, counter, mem, pos, end);
      } else {
        var k := if ctx.update && counter % 2 == 1 then 2 else 1;
        OneRow(ctx, counter, images, mem, pos, rest);
        SplitRows(ctx, images, k, pos);
        RowsWalked(ctx, counter + k, images[k..], mem, pos + |RowsBytes(images[..k])|, rest);
        SameParity(ctx.update, counter, |images|);
        OneTurn(ctx, counter, mem, pos, end, FetchRow(ctx, counter, mem, pos).value);
      }
    }
  }

  lemma {:induction false} CursorGrows(ctx: Context, counter: int, mem: seq<byte>, pos: nat, end: int)
    requires ctx.columns > 0 && pos < end
    ensures var row, r := FetchRow(ctx, counter, mem, pos), FetchRows(ctx, counter, mem, pos, end);
            && (!row.Done? ==> r == Undefined)
            && (row.Done? && row.value.cursor >= end ==> r == Done(row.value))
  {
    hide FetchRow;
    var row := FetchRow(ctx, counter, mem, pos);
    if row.Done? && row.value.cursor >= end {
      OneTurn(ctx, counter, mem, pos, end, row.value);
      assert row.value.images + [] == row.value.images;
    }
  }

  /** The images asked for have come back, and the counter is up by their number. */
  predicate Yields(r: Outcome<Fetched>, wanted: seq<seq<Visit>>, counter: int) {
    r.Done? && r.value.images == wanted && r.value.counter == counter + |wanted|
  }

  /** So whatever images one asks for, they are returned exactly when they are those that were
      written and these are Paired; and then the cursor is at the end of the event. */
  lemma RowsExactIff(ctx: Context, counter: int, images: seq<Image>, mem: seq<byte>, pos: nat, rest: seq<byte>,
                     wanted: seq<seq<Visit>>)
    requires Standing(ctx, images, mem, pos, rest) && ctx.columns > 0 && |wanted| == |images|
    ensures var end := pos + |RowsBytes(images)|;
            var r := FetchRows(ctx, counter, mem, pos, end);
            && (Yields(r, wanted, counter) <==>
                Paired(ctx.update, counter, |images|) && wanted == ExpectedImages(ctx, images, pos))
            && (Yields(r, wanted, counter) ==> r.value.cursor == end)
  {
    hide FetchRows, ExpectedImages, RowsBytes;
    RowsWalked(ctx, counter, images, mem, pos, rest);
  }

  lemma NoRows(ctx: Context, pos: nat)
    ensures RowsBytes([]) == [] && ExpectedImages(ctx, [], pos) == []
  {
  }

  lemma FitsShaped(ctx: Context, image: Image)
    requires Fits(ctx, image)
    ensures Shaped(ctx, image)
  {
  }

  // ---------- the whole event ----------

  /** A rows event as written, in the layout rows_event.c expects. */
  datatype Written = Written(
    tableId: nat,
    flags: nat,
    columns: nat,
    present1: seq<byte>,
    present2: seq<byte>,
    images: seq<Image>)

  predicate ValidLayout(w: Written, width: nat, ctx: Context) {
    && (width == 4 || width == 6) && w.tableId < Pow256(width) && w.flags < 0x1_0000
    && 0 < w.columns == ctx.columns < TWO_31
    && Bitmap(w.present1, w.columns) && (if ctx.update then Bitmap(w.present2, w.columns) else w.present2 == [])
  }

  predicate ValidEvent(w: Written, width: nat, ctx: Context) {
    ValidLayout(w, width, ctx) && forall i :: 0 <= i < |w.images| ==> Fits(ctx, w.images[i])
  }

  function HeaderOnto(w: Written, width: nat, rest: seq<byte>): seq<byte>
    requires w.columns < TWO_31
  {
    EncodeLE(w.tableId, width) + (EncodeLE(w.flags, 2) + (EncodeNumber(w.columns) + (w.present1 + (w.present2 + rest))))
  }

  function EventBody(w: Written, width: nat): seq<byte>
    requires w.columns < TWO_31
  {
    HeaderOnto(w, width, RowsBytes(w.images))
  }

  lemma ThreeInPlace(mem: seq<byte>, at: nat, a: seq<byte>, b: seq<byte>, c: seq<byte>, rest: seq<byte>)
    requires at <= |mem| && mem[at..] == a + (b + (c + rest))
    ensures Take(mem, at + |a|, |b|) == Done(b) && Take(mem, at + |a| + |b|, |c|) == Done(c)
    ensures at + |a| + |b| + |c| == |mem| - |rest| && mem[at + |a| + |b| + |c|..] == rest
  {
    hide Take;
    At(mem, at, a, b + (c + rest));
    At(mem, at + |a|, b, c + rest);
    At(mem, at + |a| + |b|, c, rest);
  }

  /** Where the fields of the header stand. */
  lemma HeaderInPlace(w: Written, width: nat, rest: seq<byte>)
    requires w.columns < TWO_31
    ensures var mem := HeaderOnto(w, width, rest);
            var c := width + 2 + |EncodeNumber(w.columns)|;
            && Take(mem, 0, width) == Done(EncodeLE(w.tableId, width))
            && Take(mem, width, 2) == Done(EncodeLE(w.flags, 2))
            && width + 2 <= |mem|
            && mem[width + 2..] == EncodeNumber(w.columns) + (w.present1 + (w.present2 + rest))
            && Take(mem, c, |w.present1|) == Done(w.present1)
            && Take(mem, c + |w.present1|, |w.present2|) == Done(w.present2)
            && c + |w.present1| + |w.present2| == |mem| - |rest|
            && mem[c + |w.present1| + |w.present2|..] == rest
  {
    hide EncodeNumber, EncodeLE, Take;
    var mem := HeaderOnto(w, width, rest);
    var r2 := EncodeNumber(w.columns) + (w.present1 + (w.present2 + rest));
    var r1 := EncodeLE(w.flags, 2) + r2;
    assert mem[0..] == EncodeLE(w.tableId, width) + r1;
    At(mem, 0, EncodeLE(w.tableId, width), r1);
    At(mem, width, EncodeLE(w.flags, 2), r2);
    ThreeInPlace(mem, width + 2, EncodeNumber(w.columns), w.present1, w.present2, rest);
  }

  lemma HeaderReadsBack(signedChar: bool, postHeader: Option<seq<byte>>, eventType: int, w: Written, ctx: Context,
                        rest: seq<byte>)
    requires IdWidth(postHeader, eventType).Some?
    requires ValidLayout(w, IdWidth(postHeader, eventType).value, ctx)
    requires ctx.update == (eventType == UPDATE_V1)
    requires !signedChar || w.columns < 0x80
    ensures var width := IdWidth(postHeader, eventType).value;
            var mem := HeaderOnto(w, width, rest);
            var r := ParseRowsHeader(signedChar, postHeader, eventType, mem);
            && r.Done? && r.value.value == RowsHeader(TableId(EncodeLE(w.tableId, width)), w.flags, w.columns)
            && r.value.cursor == |mem| - |rest| && mem[r.value.cursor..] == rest
  {
    hide GetNumber, EncodeNumber, MaskLength, LE, EncodeLE, Pow256, TableId, Take, HeaderOnto;
    WidthAsWritten(postHeader, eventType);
    BitmapAsWritten(w.present1, w.columns);
    BitmapAsWritten(w.present2, w.columns);
    HeaderInPlace(w, IdWidth(postHeader, eventType).value, rest);
    GetNumberComputes(signedChar, w.columns, w.present1 + (w.present2 + rest));
    TwoBytes(w.flags);
  }

  /** From 128 columns on, a signed `char` takes their number for a negative one. */
  lemma ManyColumnsAreNegative(postHeader: Option<seq<byte>>, eventType: int, w: Written, ctx: Context, rest: seq<byte>)
    requires IdWidth(postHeader, eventType).Some?
    requires ValidLayout(w, IdWidth(postHeader, eventType).value, ctx)
    requires w.columns >= 0x80
    ensures var mem := HeaderOnto(w, IdWidth(postHeader, eventType).value, rest);
            var r := ParseRowsHeader(true, postHeader, eventType, mem);
            r.Done? ==> r.value.value.columnCount < 0
                        && r.value.cursor <= IdWidth(postHeader, eventType).value + 3
  {
    hide GetNumber, EncodeNumber, LE, EncodeLE, Pow256, TableId, Take;
    var width := IdWidth(postHeader, eventType).value;
    var mem := HeaderOnto(w, width, rest);
    var r3 := w.present1 + (w.present2 + rest);
    var r2 := EncodeNumber(w.columns) + r3;
    var r1 := EncodeLE(w.flags, 2) + r2;
    assert mem[0..] == EncodeLE(w.tableId, width) + r1;
    At(mem, 0, EncodeLE(w.tableId, width), r1);
    At(mem, width, EncodeLE(w.flags, 2), r2);
    GetNumberComputes(true, w.columns, r3);
  }

  /** What rows_event makes of such an event, with its columns in reach. */
  lemma EventWithTail(signedChar: bool, postHeader: Option<seq<byte>>, table: TableMap, counter: int,
                      eventType: int, w: Written, tail: seq<byte>)
    requires IdWidth(postHeader, eventType).Some?
    requires ValidLayout(w, IdWidth(postHeader, eventType).value,
                         RowsContext(signedChar, eventType, table, w.columns))
    requires 19 + |EventBody(w, IdWidth(postHeader, eventType).value)| < TWO_32
    requires !signedChar || w.columns < 0x80
    ensures var width := IdWidth(postHeader, eventType).value;
            var body := EventBody(w, width);
            var ctx := RowsContext(signedChar, eventType, table, w.columns);
            var pos := |body| - |RowsBytes(w.images)|;
            && 0 <= pos && (body + tail)[pos..] == RowsBytes(w.images) + tail
            && RowsEvent(signedChar, postHeader, table, counter, eventType, 19 + |body|, body + tail)
               == WithHeader(RowsHeader(TableId(EncodeLE(w.tableId, width)), w.flags, w.columns),
                             FetchRows(ctx, counter, body + tail, pos, |body|))
  {
    hide ParseRowsHeader, FetchRows, Fits, Pow256, EncodeLE, RowsBytes, TableId;
    var width := IdWidth(postHeader, eventType).value;
    var ctx := RowsContext(signedChar, eventType, table, w.columns);
    var rest := RowsBytes(w.images) + tail;
    assert HeaderOnto(w, width, rest) == EventBody(w, width) + tail;
    HeaderReadsBack(signedChar, postHeader, eventType, w, ctx, rest);
  }

  function WithHeader(header: RowsHeader, rows: Outcome<Fetched>): Outcome<RowsResult> {
    var fetched :- rows;
    Done(RowsResult(header, fetched))
  }

  /** rows_event, on an event written for its table map and followed by anything: header and
      images come back as written and the cursor stops at event_size - 19, exactly when the
      images are Paired, the table id is in reach of the reader and, on a signed-char machine,
      there are at most 127 columns. */
  lemma RowsEventRoundTripIff(signedChar: bool, postHeader: Option<seq<byte>>, table: TableMap, counter: int,
                              eventType: int, w: Written, tail: seq<byte>, wanted: seq<seq<Visit>>)
    requires IdWidth(postHeader, eventType).Some?
    requires ValidEvent(w, IdWidth(postHeader, eventType).value,
                        RowsContext(signedChar, eventType, table, w.columns))
    requires 19 + |EventBody(w, IdWidth(postHeader, eventType).value)| < TWO_32 && |wanted| == |w.images|
    ensures var body := EventBody(w, IdWidth(postHeader, eventType).value);
            var ctx := RowsContext(signedChar, eventType, table, w.columns);
            RowsEvent(signedChar, postHeader, table, counter, eventType, 19 + |body|, body + tail) ==
            Done(RowsResult(RowsHeader(w.tableId, w.flags, w.columns),
                            Fetched(wanted, |body|, counter + |w.images|))) <==>
            && (!signedChar || w.columns < 0x80)
            && IdInReach(w.tableId, IdWidth(postHeader, eventType).value)
            && Paired(eventType == UPDATE_V1, counter, |w.images|)
            && wanted == ExpectedImages(ctx, w.images, |body| - |RowsBytes(w.images)|)
  {
    hide RowsEvent, ParseRowsHeader, FetchRows, ExpectedImages, Fits, Pow256, EncodeLE, RowsBytes, TableId, EventBody;
    var width := IdWidth(postHeader, eventType).value;
    TableIdInReachIff(w.tableId, width);
    var ctx := RowsContext(signedChar, eventType, table, w.columns);
    var body := EventBody(w, width);
    if signedChar && w.columns >= 0x80 {
      NegativeCount(postHeader, table, counter, eventType, w, tail);
    } else {
      EventWithTail(signedChar, postHeader, table, counter, eventType, w, tail);
      RowsExactIff(ctx, counter, w.images, body + tail, |body| - |RowsBytes(w.images)|, tail, wanted);
    }
  }

  /** With those the event fails, or its loop does not end. */
  lemma NegativeCount(postHeader: Option<seq<byte>>, table: TableMap, counter: int, eventType: int, w: Written,
                      tail: seq<byte>)
    requires IdWidth(postHeader, eventType).Some?
    requires ValidLayout(w, IdWidth(postHeader, eventType).value, RowsContext(true, eventType, table, w.columns))
    requires w.columns >= 0x80 && 19 + |EventBody(w, IdWidth(postHeader, eventType).value)| < TWO_32
    ensures var body := EventBody(w, IdWidth(postHeader, eventType).value);
            !RowsEvent(true, postHeader, table, counter, eventType, 19 + |body|, body + tail).Done?
  {
    hide ParseRowsHeader, Fits, RowsBytes;
    var width := IdWidth(postHeader, eventType).value;
    var rest := RowsBytes(w.images) + tail;
    assert HeaderOnto(w, width, rest) == EventBody(w, width) + tail;
    ManyColumnsAreNegative(postHeader, eventType, w, RowsContext(true, eventType, table, w.columns), rest);
  }

  /** If the images are not Paired and one more that fits follows them, the walk takes it too. */
  lemma {:induction false} RowsRunOn(ctx: Context, counter: int, images: seq<Image>, extra: Image, mem: seq<byte>,
                                     pos: nat)
    requires Standing(ctx, images + [extra], mem, pos, []) && ctx.columns > 0
    requires !Paired(ctx.update, counter, |images|)
    ensures FetchRows(ctx, counter, mem, pos, pos + |RowsBytes(images)|).Done?
    decreases |images|
  {
    hide FetchRow, ExpectedVisits, ExpectedImages, ImageBytes, RowsBytes, Fits;
    var all := images + [extra];
    var k := if ctx.update && counter % 2 == 1 then 2 else 1;
    assert forall i :: 0 <= i < |images| ==> all[i] == images[i];
    OneRow(ctx, counter, all, mem, pos, []);
    FitsShaped(ctx, all[0]);
    RowsNotEmpty(ctx, images);
    var end := pos + |RowsBytes(images)|;
    if |images| < k {
      SplitRows(ctx, all, 1, pos);
      assert all[..1] == images && all[..2] == all;
      CursorGrows(ctx, counter, mem, pos, end);
    } else {
      assert all[..k] == images[..k] && all[k..] == images[k..] + [extra];
      SplitRows(ctx, images, k, pos);
      SameParity(ctx.update, counter, |images|);
      OneTurn(ctx, counter, mem, pos, end, FetchRow(ctx, counter, mem, pos).value);
      RowsRunOn(ctx, counter + k, images[k..], extra, mem, pos + |RowsBytes(images[..k])|);
    }
  }

  lemma {:induction false} RowsBytesAppend(images: seq<Image>, extra: Image)
    ensures RowsBytes(images + [extra]) == RowsBytes(images) + ImageBytes(extra)
  {
    hide ImageBytes;
    if |images| == 0 {
      assert [extra][1..] == [];
    } else {
      RowsBytesAppend(images[1..], extra);
      assert (images + [extra])[1..] == images[1..] + [extra];
    }
  }

  lemma TailIgnoredIfPaired(signedChar: bool, postHeader: Option<seq<byte>>, table: TableMap, counter: int,
                            eventType: int, w: Written, tail: seq<byte>)
    requires IdWidth(postHeader, eventType).Some?
    requires ValidEvent(w, IdWidth(postHeader, eventType).value,
                        RowsContext(signedChar, eventType, table, w.columns))
    requires 19 + |EventBody(w, IdWidth(postHeader, eventType).value)| < TWO_32
    requires !signedChar || w.columns < 0x80
    requires Paired(eventType == UPDATE_V1, counter, |w.images|)
    ensures var body := EventBody(w, IdWidth(postHeader, eventType).value);
            RowsEvent(signedChar, postHeader, table, counter, eventType, 19 + |body|, body + tail)
            == RowsEvent(signedChar, postHeader, table, counter, eventType, 19 + |body|, body)
            && RowsEvent(signedChar, postHeader, table, counter, eventType, 19 + |body|, body).Done?
  {
    hide RowsEvent, EventBody, Fits, FetchRows, RowsBytes, TableId, EncodeLE, ExpectedImages;
    var body := EventBody(w, IdWidth(postHeader, eventType).value);
    var ctx := RowsContext(signedChar, eventType, table, w.columns);
    var pos := |body| - |RowsBytes(w.images)|;
    EventWithTail(signedChar, postHeader, table, counter, eventType, w, tail);
    EventWithTail(signedChar, postHeader, table, counter, eventType, w, []);
    assert body + [] == body;
    RowsWalked(ctx, counter, w.images, body + tail, pos, tail);
    RowsWalked(ctx, counter, w.images, body + [], pos, []);
  }

  lemma ShortTailFails(signedChar: bool, postHeader: Option<seq<byte>>, table: TableMap, counter: int,
                       eventType: int, w: Written, tail: seq<byte>)
    requires IdWidth(postHeader, eventType).Some?
    requires ValidEvent(w, IdWidth(postHeader, eventType).value,
                        RowsContext(signedChar, eventType, table, w.columns))
    requires 19 + |EventBody(w, IdWidth(postHeader, eventType).value)| < TWO_32
    requires !signedChar || w.columns < 0x80
    requires !Paired(eventType == UPDATE_V1, counter, |w.images|)
    requires |tail| < |ImageBytes(w.images[|w.images| - 1])|
    ensures var body := EventBody(w, IdWidth(postHeader, eventType).value);
            RowsEvent(signedChar, postHeader, table, counter, eventType, 19 + |body|, body + tail) == Undefined
  {
    hide RowsEvent, EventBody, Fits, FetchRows, RowsBytes, TableId, EncodeLE, ExpectedImages, ImageBytes;
    var body := EventBody(w, IdWidth(postHeader, eventType).value);
    var ctx := RowsContext(signedChar, eventType, table, w.columns);
    EventWithTail(signedChar, postHeader, table, counter, eventType, w, tail);
    RowsWalked(ctx, counter, w.images, body + tail, |body| - |RowsBytes(w.images)|, tail);
  }

  lemma ImageNotEmpty(ctx: Context, image: Image)
    requires Fits(ctx, image)
    ensures |ImageBytes(image)| > 0
  {
  }

  lemma TailMattersIfUnpaired(signedChar: bool, postHeader: Option<seq<byte>>, table: TableMap, counter: int,
                              eventType: int, w: Written) returns (tail: seq<byte>)
    requires IdWidth(postHeader, eventType).Some?
    requires ValidEvent(w, IdWidth(postHeader, eventType).value,
                        RowsContext(signedChar, eventType, table, w.columns))
    requires 19 + |EventBody(w, IdWidth(postHeader, eventType).value)| < TWO_32
    requires !signedChar || w.columns < 0x80
    requires !Paired(eventType == UPDATE_V1, counter, |w.images|)
    ensures |w.images| > 0 && tail == ImageBytes(w.images[|w.images| - 1])
    ensures var body := EventBody(w, IdWidth(postHeader, eventType).value);
            && RowsEvent(signedChar, postHeader, table, counter, eventType, 19 + |body|, body) == Undefined
            && RowsEvent(signedChar, postHeader, table, counter, eventType, 19 + |body|, body + tail).Done?
  {
    hide RowsEvent, EventBody, Fits, FetchRows, RowsBytes, TableId, EncodeLE, ExpectedImages, ImageBytes;
    var body := EventBody(w, IdWidth(postHeader, eventType).value);
    var ctx := RowsContext(signedChar, eventType, table, w.columns);
    var pos := |body| - |RowsBytes(w.images)|;
    var extra := w.images[|w.images| - 1];
    tail := ImageBytes(extra);
    ImageNotEmpty(ctx, extra);
    ShortTailFails(signedChar, postHeader, table, counter, eventType, w, []);
    EventWithTail(signedChar, postHeader, table, counter, eventType, w, tail);
    assert body + [] == body;
    RowsBytesAppend(w.images, extra);
    assert RowsBytes(w.images + [extra]) + [] == RowsBytes(w.images) + tail;
    RowsRunOn(ctx, counter, w.images, extra, body + tail, pos);
  }

  /** The bytes of the event are enough for it, and what follows them in memory makes no
      difference, exactly when its images are Paired. If they are not, the walk wants one more
      image: it fails if less than that follows, and takes a copy of the last image for one if
      that is what follows. */
  lemma TailIsIgnoredIff(signedChar: bool, postHeader: Option<seq<byte>>, table: TableMap, counter: int,
                         eventType: int, w: Written)
    requires IdWidth(postHeader, eventType).Some?
    requires ValidEvent(w, IdWidth(postHeader, eventType).value,
                        RowsContext(signedChar, eventType, table, w.columns))
    requires 19 + |EventBody(w, IdWidth(postHeader, eventType).value)| < TWO_32
    requires !signedChar || w.columns < 0x80
    ensures var body := EventBody(w, IdWidth(postHeader, eventType).value);
            var paired := Paired(eventType == UPDATE_V1, counter, |w.images|);
            && (RowsEvent(signedChar, postHeader, table, counter, eventType, 19 + |body|, body).Done? <==> paired)
            && ((forall tail :: RowsEvent(signedChar, postHeader, table, counter, eventType, 19 + |body|, body + tail)
                                == RowsEvent(signedChar, postHeader, table, counter, eventType, 19 + |body|, body))
                <==> paired)
  {
    hide RowsEvent, EventBody, Fits, Paired, ImageBytes;
    if Paired(eventType == UPDATE_V1, counter, |w.images|) {
      forall tail
        ensures var body := EventBody(w, IdWidth(postHeader, eventType).value);
                RowsEvent(signedChar, postHeader, table, counter, eventType, 19 + |body|, body + tail)
                == RowsEvent(signedChar, postHeader, table, counter, eventType, 19 + |body|, body)
      {
        TailIgnoredIfPaired(signedChar, postHeader, table, counter, eventType, w, tail);
      }
      TailIgnoredIfPaired(signedChar, postHeader, table, counter, eventType, w, []);
    } else {
      var tail := TailMattersIfUnpaired(signedChar, postHeader, table, counter, eventType, w);
    }
  }

  const INT_TABLE := TableMap(1, 0, [], [], [MYSQL_TYPE_LONG], [], [])

  function IntRow(n: byte): Image {
    Image([0], [[n, 0, 0, 0]])
  }

  lemma IntRowBytes(n: byte, update: bool)
    ensures ImageBytes(IntRow(n)) == [0, n, 0, 0, 0] && Fits(Context(true, update, INT_TABLE, 1), IntRow(n))
  {
    assert CellsBytes(IntRow(n).cells, 1) == [];
  }

  lemma TwoIntRows(m: byte, n: byte)
    ensures RowsBytes([IntRow(m), IntRow(n)]) == [0, m, 0, 0, 0, 0, n, 0, 0, 0]
  {
    hide ImageBytes;
    IntRowBytes(m, true);
    IntRowBytes(n, true);
    RowsBytesAppend([], IntRow(m));
    RowsBytesAppend([IntRow(m)], IntRow(n));
    assert [] + [IntRow(m)] == [IntRow(m)] && [IntRow(m)] + [IntRow(n)] == [IntRow(m), IntRow(n)];
  }

  /** One INT column, and a version 1 update of one row found with the counter even: what the
      read happened to put behind the event decides what is decoded. */
  lemma TailDecides()
    ensures var ctx := Context(true, true, INT_TABLE, 1);
            var rows := [0, 1, 0, 0, 0, 0, 2, 0, 0, 0];
            FetchRows(ctx, 2, rows + [0], 0, 10) == Undefined && FetchRows(ctx, 2, rows + [0, 9, 0, 0, 0], 0, 10).Done?
  {
    hide FetchRows, RowsBytes, ImageBytes, Fits, WalkImage, ExpectedImages, FetchRow, IntRow;
    var ctx := Context(true, true, INT_TABLE, 1);
    var images := [IntRow(1), IntRow(2)];
    var rows := [0, 1, 0, 0, 0, 0, 2, 0, 0, 0];
    TwoIntRows(1, 2);
    IntRowBytes(1, true);
    IntRowBytes(2, true);
    IntRowBytes(9, true);
    ThirdRow(ctx, images, rows);
    RowsBytesAppend(images, IntRow(9));
    assert (rows + [0, 9, 0, 0, 0])[0..] == RowsBytes(images + [IntRow(9)]) + [];
    RowsRunOn(ctx, 2, images, IntRow(9), rows + [0, 9, 0, 0, 0], 0);
  }

  lemma ThirdRow(ctx: Context, images: seq<Image>, rows: seq<byte>)
    requires ctx == Context(true, true, INT_TABLE, 1) && |rows| == 10 && |images| == 2
    requires Fits(ctx, images[0]) && Fits(ctx, images[1]) && RowsBytes(images) == rows
    requires |ImageBytes(images[0])| == 5 && |ImageBytes(images[1])| == 5
    ensures FetchRows(ctx, 2, rows + [0], 0, 10) == Undefined
  {
    hide RowsBytes, ImageBytes, Fits, WalkImage, ExpectedImages;
    var mem := rows + [0];
    assert mem[0..] == RowsBytes(images) + [0];
    OneRow(ctx, 2, images, mem, 0, [0]);
    FirstImageAlone(ctx, images, 0);
    NextImage(ctx, images[1..], mem, 5, [0]);
    NoThird(ctx, mem);
    OneTurn(ctx, 2, mem, 0, 10, FetchRow(ctx, 2, mem, 0).value);
    assert FetchRow(ctx, 3, mem, 5) == Undefined;
    CursorGrows(ctx, 3, mem, 5, 10);
  }

  lemma NoThird(ctx: Context, mem: seq<byte>)
    requires ctx == Context(true, true, INT_TABLE, 1) && |mem| == 11
    ensures WalkImage(ctx, mem, 10) == Undefined
  {
  }

  // ---------- whole runs ----------

  /** A rows event as written: the images it carries, with what stands before and after them. */
  datatype Batch = Batch(ctx: Context, images: seq<Image>, before: seq<byte>, after: seq<byte>)

  predicate WellFormed(b: Batch) {
    b.ctx.columns > 0 && forall i :: 0 <= i < |b.images| ==> Fits(b.ctx, b.images[i])
  }

  /** The event is walked to exactly its own images, with the counter up by their number. */
  ghost predicate WalkedRight(b: Batch, counter: int)
    requires WellFormed(b)
  {
    var pos := |b.before|;
    var end := pos + |RowsBytes(b.images)|;
    FetchRows(b.ctx, counter, b.before + RowsBytes(b.images) + b.after, pos, end)
    == Done(Fetched(ExpectedImages(b.ctx, b.images, pos), end, counter + |b.images|))
  }

  function TotalImages(batches: seq<Batch>): nat {
    if |batches| == 0 then 0 else TotalImages(batches[..|batches| - 1]) + |batches[|batches| - 1].images|
  }

  /** The images of the events that are not version 1 updates. */
  function OtherImages(batches: seq<Batch>): nat {
    if |batches| == 0 then 0 else
    var last := batches[|batches| - 1];
    OtherImages(batches[..|batches| - 1]) + if last.ctx.update then 0 else |last.images|
  }

  /** A run from a given counter in which every event is walked right. */
  ghost predicate RunRight(batches: seq<Batch>, counter: int)
    requires forall b <- batches :: WellFormed(b)
  {
    |batches| > 0 ==>
      var earlier := batches[..|batches| - 1];
      RunRight(earlier, counter) && WalkedRight(batches[|batches| - 1], counter + TotalImages(earlier))
  }

  lemma WalkedRightIff(b: Batch, counter: int)
    requires WellFormed(b)
    ensures WalkedRight(b, counter) <==> Paired(b.ctx.update, counter, |b.images|)
  {
    hide FetchRows, ExpectedImages, Fits;
    var mem := b.before + RowsBytes(b.images) + b.after;
    assert mem[|b.before|..] == RowsBytes(b.images) + b.after;
    RowsWalked(b.ctx, counter, b.images, mem, |b.before|, b.after);
  }

  lemma {:induction false} UpdatesKeepParity(batches: seq<Batch>)
    requires forall b <- batches :: b.ctx.update ==> |b.images| % 2 == 0
    ensures TotalImages(batches) % 2 == OtherImages(batches) % 2
  {
    if |batches| > 0 {
      UpdatesKeepParity(batches[..|batches| - 1]);
    }
  }

  /** What event k needs of the events before it. */
  predicate EvenBefore(batches: seq<Batch>, k: nat)
    requires k < |batches|
  {
    batches[k].ctx.update && |batches[k].images| > 0 ==> OtherImages(batches[..k]) % 2 == 0
  }

  /** Before and after images are paired right over a whole run, started as the program
      starts, exactly when every update event that has rows is preceded by an even number of
      row images from the inserts, deletes and other events before it. A server always writes
      an update's images in pairs; it promises nothing about the number of the others. */
  lemma {:induction false} RunRightIff(batches: seq<Batch>)
    requires forall b <- batches :: WellFormed(b)
    requires forall b <- batches :: b.ctx.update ==> |b.images| % 2 == 0
    ensures RunRight(batches, 1) <==> forall k :: 0 <= k < |batches| ==> EvenBefore(batches, k)
  {
    hide WalkedRight, WellFormed, EvenBefore, OtherImages, TotalImages, Paired;
    if |batches| > 0 {
      var n := |batches| - 1;
      var earlier := batches[..n];
      RunRightIff(earlier);
      forall k | 0 <= k < n ensures EvenBefore(earlier, k) <==> EvenBefore(batches, k) {
        EvenBeforePrefix(batches, n, k);
      }
      LastRight(batches);
    }
  }

  lemma EvenBeforePrefix(batches: seq<Batch>, n: nat, k: nat)
    requires k < n <= |batches|
    ensures EvenBefore(batches[..n], k) <==> EvenBefore(batches, k)
  {
    assert batches[..n][..k] == batches[..k];
  }

  lemma LastRight(batches: seq<Batch>)
    requires |batches| > 0 && forall b <- batches :: WellFormed(b)
    requires forall b <- batches :: b.ctx.update ==> |b.images| % 2 == 0
    ensures var n := |batches| - 1;
            WalkedRight(batches[n], 1 + TotalImages(batches[..n])) <==> EvenBefore(batches, n)
  {
    hide WalkedRight, WellFormed, OtherImages, TotalImages;
    var n := |batches| - 1;
    UpdatesKeepParity(batches[..n]);
    WalkedRightIff(batches[n], 1 + TotalImages(batches[..n]));
    PairedForUpdate(batches[n], TotalImages(batches[..n]), OtherImages(batches[..n]));
  }

  lemma PairedForUpdate(b: Batch, total: nat, other: nat)
    requires b.ctx.update ==> |b.images| % 2 == 0
    requires total % 2 == other % 2
    ensures Paired(b.ctx.update, 1 + total, |b.images|)
       <==> (b.ctx.update && |b.images| > 0 ==> other % 2 == 0)
  {
  }

  /** The shortest history that goes wrong: one inserted row, then one updated row. */
  lemma InsertThenUpdate(insert: Batch, update: Batch)
    requires WellFormed(insert) && WellFormed(update)
    requires !insert.ctx.update && |insert.images| == 1 && update.ctx.update && |update.images| == 2
    ensures !RunRight([insert, update], 1)
  {
    var run := [insert, update];
    RunRightIff(run);
    assert run[..1] == [insert] && [insert][..0] == [];
    assert OtherImages([]) == 0;
    assert OtherImages([insert]) == 1;
    assert !EvenBefore(run, 1);
  }
}
