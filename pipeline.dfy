/** main: the output header, the rows written for each input row, and the loop
    over the input that stops when the URL column is missing. */
module Pipeline {
  import opened Wrappers
  import opened JsonValue
  import opened Assignments
  import opened Fetch

  const UrlColumn := "p_internalurl"
  const ProductColumn := "PIM Product no."
  const ItemColumn := "PIM Item no."
  const NotAssignedProducts := "NOT ASSIGNED TO ANY PRODUCTS"
  const NotAssignedItems := "NOT ASSIGNED TO ANY ITEMS"

  /** A CSV cell; None is Python's None (what DictReader puts in the fields a
      short line lacks, and what the writer gets for the unused new column). */
  type Cell = Option<string>

  /** One row as a dictionary from column name to cell. */
  type Record = map<string, Cell>

  /** The input file as main finds it: absent (the existence test before
      anything is opened), or what csv.DictReader makes of it, with no header
      at all for an empty file and otherwise the field names and the rows. */
  datatype CsvInput = NoInputFile | EmptyFile | Table(fieldnames: seq<string>, rows: seq<Record>)

  /** How a run ends.
      Written: the output file holds the header and these rows, in this order.
      MissingUrlColumn: row number `at` has no URL column; the output file is
      deleted and the process exits with an error.
      EmptyInput: the input has no header line, so building the header raises.
      MissingInputFile: the input file does not exist; the process exits with
      an error before opening any file. */
  datatype RunResult =
    | Written(header: seq<string>, rows: seq<Record>)
    | MissingUrlColumn(at: nat)
    | EmptyInput
    | MissingInputFile

  /** ["PIM Product no.", "PIM Item no."] + reader.fieldnames */
  function Header(fieldnames: seq<string>): (h: seq<string>)
    ensures |h| == |fieldnames| + 2
    ensures h[0] == ProductColumn && h[1] == ItemColumn && h[2..] == fieldnames
  {
    [ProductColumn, ItemColumn] + fieldnames
  }

  /** {"PIM Product no.": product, "PIM Item no.": item, **line}: the two new
      columns first, then the input row, whose own values win. */
  function AssignedRow(line: Record, product: Cell, item: Cell): Record {
    map[ProductColumn := product, ItemColumn := item] + line
  }

  /** Every written row has the input row's columns plus the two new ones; it
      carries each input cell unchanged, and the new columns hold the given
      cells unless the input row already has a column of that name. */
  lemma AssignedRowContents(line: Record, product: Cell, item: Cell)
    ensures AssignedRow(line, product, item).Keys == line.Keys + {ProductColumn, ItemColumn}
    ensures forall c :: c in line ==> AssignedRow(line, product, item)[c] == line[c]
    ensures ProductColumn !in line ==> AssignedRow(line, product, item)[ProductColumn] == product
    ensures ItemColumn !in line ==> AssignedRow(line, product, item)[ItemColumn] == item
  {
  }

  /** The row written for one product: the product, no item. */
  function ProductRow(line: Record, product: string): Record {
    AssignedRow(line, Some(product), None)
  }

  /** The row written for one item: no product, the item. */
  function ItemRow(line: Record, item: string): Record {
    AssignedRow(line, None, Some(item))
  }

  /** The row built when nothing is assigned; main never writes it. */
  function SentinelRow(line: Record): Record {
    AssignedRow(line, Some(NotAssignedProducts), Some(NotAssignedItems))
  }

  /** The rows the loop over the products writes, one per product, in order. */
  function ProductRows(line: Record, products: seq<string>): (r: seq<Record>)
    ensures |r| == |products|
    ensures forall k :: 0 <= k < |r| ==> r[k] == ProductRow(line, products[k])
    decreases |products|
  {
    if products == [] then []
    else ProductRows(line, products[..|products| - 1]) + [ProductRow(line, products[|products| - 1])]
  }

  /** The rows the loop over the items writes, one per item, in order. */
  function ItemRows(line: Record, items: seq<string>): (r: seq<Record>)
    ensures |r| == |items|
    ensures forall k :: 0 <= k < |r| ==> r[k] == ItemRow(line, items[k])
    decreases |items|
  {
    if items == [] then []
    else ItemRows(line, items[..|items| - 1]) + [ItemRow(line, items[|items| - 1])]
  }

  /** The rows written for an assignment: one per product, in order, then
      one per item, in order. */
  function Expansion(line: Record, pim: Assignment): (r: seq<Record>)
    ensures |r| == |pim.products| + |pim.items|
    ensures forall k :: 0 <= k < |pim.products| ==> r[k] == ProductRow(line, pim.products[k])
    ensures forall k :: 0 <= k < |pim.items| ==> r[|pim.products| + k] == ItemRow(line, pim.items[k])
  {
    var ps, its := ProductRows(line, pim.products), ItemRows(line, pim.items);
    assert forall k :: 0 <= k < |its| ==> (ps + its)[|ps| + k] == its[k];
    ps + its
  }

  /** Python's `not url`: a missing (None) or empty URL cell. */
  predicate BlankUrl(url: Cell) {
    url.None? || url.value == ""
  }

  /** Python's `not asset_data`: no document, or a document that is false. */
  predicate Falsy(asset: Option<Json>) {
    asset.None? || !Truthy(asset.value)
  }

  /** The rows main writes for one input row that has the URL column. */
  function RowOutput(line: Record, server: Server): seq<Record>
    requires UrlColumn in line
  {
    var url := line[UrlColumn];
    if BlankUrl(url) then []
    else
      var asset := DownloadAssetJson(url.value, server);
      if Falsy(asset) then []
      else
        var pim := Extract(asset.value);
        if pim.products != [] || pim.items != [] then
          Expansion(line, pim)
        else
          []
  }

  /** The addresses requested for one input row that has the URL column. */
  function RowRequests(line: Record): (r: seq<string>)
    requires UrlColumn in line
    ensures |r| <= 1
    ensures r == [] <==> BlankUrl(line[UrlColumn])
    ensures r != [] ==> r[0] == FetchTarget(line[UrlColumn].value)
  {
    if BlankUrl(line[UrlColumn]) then [] else [FetchTarget(line[UrlColumn].value)]
  }

  predicate AllHaveUrl(lines: seq<Record>) {
    forall k :: 0 <= k < |lines| ==> UrlColumn in lines[k]
  }

  /** csv.DictReader gives every row exactly the header's columns: a short
      row is padded and the surplus of a long row goes under a key that is
      not a column name. */
  predicate RowsFollowHeader(fieldnames: seq<string>, lines: seq<Record>) {
    forall k :: 0 <= k < |lines| ==> lines[k].Keys == set c | c in fieldnames
  }

  /** For rows read under a header, whether the loop meets a row without the
      URL column is decided by the header alone. */
  lemma UrlColumnDecidedByHeader(fieldnames: seq<string>, lines: seq<Record>)
    requires RowsFollowHeader(fieldnames, lines) && lines != []
    ensures AllHaveUrl(lines) <==> UrlColumn in fieldnames
  {
    if UrlColumn !in fieldnames {
      assert UrlColumn !in lines[0].Keys;
    }
  }

  /** Without the URL column in the header the loop stops at the very first
      row, before any fetch. */
  lemma MissingHeaderStopsAtFirstRow(fieldnames: seq<string>, lines: seq<Record>, at: nat)
    requires RowsFollowHeader(fieldnames, lines) && UrlColumn !in fieldnames
    requires at < |lines| && AllHaveUrl(lines[..at])
    ensures at == 0 && Requests(lines[..at]) == []
  {
    assert UrlColumn !in lines[0].Keys;
  }

  /** The parts one after the other. */
  function Flatten<T>(parts: seq<seq<T>>): seq<T>
    decreases |parts|
  {
    if parts == [] then [] else Flatten(parts[..|parts| - 1]) + parts[|parts| - 1]
  }

  lemma FlattenSnoc<T>(parts: seq<seq<T>>, last: seq<T>)
    ensures Flatten(parts + [last]) == Flatten(parts) + last
  {
    assert (parts + [last])[..|parts|] == parts;
  }

  lemma {:induction false} FlattenConcat<T>(a: seq<seq<T>>, b: seq<seq<T>>)
    ensures Flatten(a + b) == Flatten(a) + Flatten(b)
    decreases |b|
  {
    if b == [] {
      assert a + b == a;
    } else {
      var b' := b[..|b| - 1];
      var x := b[|b| - 1];
      assert b == b' + [x];
      assert a + b == (a + b') + [x];
      FlattenConcat(a, b');
      FlattenSnoc(a + b', x);
      FlattenSnoc(b', x);
    }
  }

  /** A part between other parts sits, whole and in place, between their
      flattenings. */
  lemma FlattenMid<T>(a: seq<seq<T>>, x: seq<T>, b: seq<seq<T>>)
    ensures Flatten(a + [x] + b) == Flatten(a) + x + Flatten(b)
  {
    FlattenConcat(a + [x], b);
    FlattenSnoc(a, x);
  }

  /** An empty part contributes nothing. */
  lemma FlattenDropEmpty<T>(a: seq<seq<T>>, b: seq<seq<T>>)
    ensures Flatten(a + [[]] + b) == Flatten(a + b)
  {
    FlattenMid(a, [], b);
    FlattenConcat(a, b);
  }

  /** Parts of at most one element each flatten to at most one element per
      part. */
  lemma {:induction false} FlattenShortParts<T>(parts: seq<seq<T>>)
    requires forall k :: 0 <= k < |parts| ==> |parts[k]| <= 1
    ensures |Flatten(parts)| <= |parts|
    decreases |parts|
  {
    if parts != [] {
      var init := parts[..|parts| - 1];
      assert forall k :: 0 <= k < |init| ==> init[k] == parts[k];
      FlattenShortParts(init);
    }
  }

  /** f applied to every element, in order. */
  function MapSeq<A, B>(s: seq<A>, f: A --> B): (r: seq<B>)
    requires forall k :: 0 <= k < |s| ==> f.requires(s[k])
    ensures |r| == |s|
    ensures forall k :: 0 <= k < |s| ==> r[k] == f(s[k])
  {
    seq(|s|, k requires 0 <= k < |s| => f(s[k]))
  }

  lemma MapSeqConcat<A, B>(a: seq<A>, b: seq<A>, f: A --> B)
    requires forall k :: 0 <= k < |a| ==> f.requires(a[k])
    requires forall k :: 0 <= k < |b| ==> f.requires(b[k])
    ensures forall k :: 0 <= k < |a + b| ==> f.requires((a + b)[k])
    ensures MapSeq(a + b, f) == MapSeq(a, f) + MapSeq(b, f)
  {
    forall k | 0 <= k < |a + b| ensures f.requires((a + b)[k]) {
      if k < |a| { assert (a + b)[k] == a[k]; } else { assert (a + b)[k] == b[k - |a|]; }
    }
    assert forall k :: 0 <= k < |a| ==> (a + b)[k] == a[k];
    assert forall k :: |a| <= k < |a + b| ==> (a + b)[k] == b[k - |a|];
  }

  /** What one input row that has the URL column writes, as a function. */
  function RowOutputOf(server: Server): Record --> seq<Record> {
    line requires UrlColumn in line => RowOutput(line, server)
  }

  /** What one input row that has the URL column requests, as a function. */
  function RowRequestsOf(): Record --> seq<string> {
    line requires UrlColumn in line => RowRequests(line)
  }

  /** The rows each input row writes, row by row. */
  function Outputs(lines: seq<Record>, server: Server): (r: seq<seq<Record>>)
    requires AllHaveUrl(lines)
    ensures |r| == |lines|
    ensures forall k :: 0 <= k < |lines| ==> r[k] == RowOutput(lines[k], server)
  {
    MapSeq(lines, RowOutputOf(server))
  }

  /** The addresses each input row requests, row by row. */
  function Fetches(lines: seq<Record>): (r: seq<seq<string>>)
    requires AllHaveUrl(lines)
    ensures |r| == |lines|
    ensures forall k :: 0 <= k < |lines| ==> r[k] == RowRequests(lines[k])
  {
    MapSeq(lines, RowRequestsOf())
  }

  /** Everything written for a sequence of rows that all have the URL column,
      row after row. */
  function Emitted(lines: seq<Record>, server: Server): seq<Record>
    requires AllHaveUrl(lines)
  {
    Flatten(Outputs(lines, server))
  }

  /** Every address requested for such a sequence of rows, in order. */
  function Requests(lines: seq<Record>): seq<string>
    requires AllHaveUrl(lines)
  {
    Flatten(Fetches(lines))
  }

  lemma OutputsConcat(a: seq<Record>, b: seq<Record>, server: Server)
    requires AllHaveUrl(a) && AllHaveUrl(b)
    ensures AllHaveUrl(a + b)
    ensures Outputs(a + b, server) == Outputs(a, server) + Outputs(b, server)
    ensures Fetches(a + b) == Fetches(a) + Fetches(b)
  {
    MapSeqConcat(a, b, RowOutputOf(server));
    MapSeqConcat(a, b, RowRequestsOf());
  }

  /** Each input row is fetched at most once. */
  lemma AtMostOneRequestPerRow(lines: seq<Record>)
    requires AllHaveUrl(lines)
    ensures |Requests(lines)| <= |lines|
  {
    FlattenShortParts(Fetches(lines));
  }

  /** One more row of the loop: the prefix grows by that row's output and
      that row's request. */
  lemma EmittedStep(lines: seq<Record>, i: nat, server: Server)
    requires i < |lines| && AllHaveUrl(lines[..i]) && UrlColumn in lines[i]
    ensures AllHaveUrl(lines[..i + 1])
    ensures Emitted(lines[..i + 1], server) == Emitted(lines[..i], server) + RowOutput(lines[i], server)
    ensures Requests(lines[..i + 1]) == Requests(lines[..i]) + RowRequests(lines[i])
  {
    var p, x := lines[..i], lines[i];
    assert lines[..i + 1] == p + [x];
    OutputsConcat(p, [x], server);
    FlattenSnoc(Outputs(p, server), RowOutput(x, server));
    FlattenSnoc(Fetches(p), RowRequests(x));
  }

  /** The output of consecutive stretches of rows is their outputs one after
      the other: what a row writes does not depend on its neighbours. */
  lemma EmittedConcat(a: seq<Record>, b: seq<Record>, server: Server)
    requires AllHaveUrl(a) && AllHaveUrl(b)
    ensures AllHaveUrl(a + b)
    ensures Emitted(a + b, server) == Emitted(a, server) + Emitted(b, server)
  {
    OutputsConcat(a, b, server);
    FlattenConcat(Outputs(a, server), Outputs(b, server));
  }

  /** A row's output sits, whole and in place, between the output of the rows
      before it and the output of the rows after it. */
  lemma EmittedAround(before: seq<Record>, line: Record, after: seq<Record>, server: Server)
    requires AllHaveUrl(before) && UrlColumn in line && AllHaveUrl(after)
    ensures AllHaveUrl(before + [line] + after)
    ensures Emitted(before + [line] + after, server)
         == Emitted(before, server) + RowOutput(line, server) + Emitted(after, server)
  {
    OutputsConcat(before, [line], server);
    OutputsConcat(before + [line], after, server);
    assert Outputs([line], server) == [RowOutput(line, server)];
    FlattenMid(Outputs(before, server), RowOutput(line, server), Outputs(after, server));
  }

  /** A row that writes nothing can be dropped without changing the output:
      the loop goes on with the next row as if it were not there. */
  lemma SilentRowInvisible(before: seq<Record>, line: Record, after: seq<Record>, server: Server)
    requires AllHaveUrl(before) && UrlColumn in line && AllHaveUrl(after)
    requires RowOutput(line, server) == []
    ensures AllHaveUrl(before + [line] + after) && AllHaveUrl(before + after)
    ensures Emitted(before + [line] + after, server) == Emitted(before + after, server)
  {
    OutputsConcat(before, [line], server);
    OutputsConcat(before + [line], after, server);
    OutputsConcat(before, after, server);
    assert Outputs([line], server) == [[]];
    FlattenDropEmpty(Outputs(before, server), Outputs(after, server));
  }

  lemma ProductRowsStep(line: Record, products: seq<string>, j: nat)
    requires j < |products|
    ensures ProductRows(line, products[..j + 1]) == ProductRows(line, products[..j]) + [ProductRow(line, products[j])]
  {
    assert products[..j + 1][..j] == products[..j];
  }

  lemma ItemRowsStep(line: Record, items: seq<string>, j: nat)
    requires j < |items|
    ensures ItemRows(line, items[..j + 1]) == ItemRows(line, items[..j]) + [ItemRow(line, items[j])]
  {
    assert items[..j + 1][..j] == items[..j];
  }

  lemma AppendSnoc<T>(a: seq<T>, b: seq<T>, x: T)
    ensures (a + b) + [x] == a + (b + [x])
  {
  }

  /** The rows of main's output for one input row. A row writes nothing when
      its URL is blank, when the download is falsy (failed, or an empty
      document), or when both lists are empty (the "NOT ASSIGNED" row is built
      but not written); otherwise it writes its P products and then its I items,
      P + I rows in all. */
  lemma RowOutputShape(line: Record, server: Server)
    requires UrlColumn in line
    ensures var url := line[UrlColumn];
      BlankUrl(url) || Falsy(DownloadAssetJson(url.value, server)) ==> RowOutput(line, server) == []
    ensures var url := line[UrlColumn];
      !BlankUrl(url) && !Falsy(DownloadAssetJson(url.value, server)) ==>
        RowOutput(line, server) == Expansion(line, Extract(DownloadAssetJson(url.value, server).value))
  {
  }

  /** Row r, written for input row `line`, carries all of line's cells
      unchanged and has exactly line's columns plus the two new ones; when
      line has no columns of the new names, exactly one of the two new
      columns holds an identifier and the other is None. */
  predicate CarriesLine(line: Record, r: Record) {
    && (forall c :: c in line ==> c in r && r[c] == line[c])
    && r.Keys == line.Keys + {ProductColumn, ItemColumn}
    && (ProductColumn !in line && ItemColumn !in line ==>
          (r[ProductColumn].Some? && r[ItemColumn] == None)
          || (r[ProductColumn] == None && r[ItemColumn].Some?))
  }

  lemma ProductRowsCarryLine(line: Record, products: seq<string>)
    ensures forall r :: r in ProductRows(line, products) ==> CarriesLine(line, r)
  {
    var out := ProductRows(line, products);
    forall r | r in out ensures CarriesLine(line, r) {
      var k :| 0 <= k < |out| && out[k] == r;
      AssignedRowContents(line, Some(products[k]), None);
    }
  }

  lemma ItemRowsCarryLine(line: Record, items: seq<string>)
    ensures forall r :: r in ItemRows(line, items) ==> CarriesLine(line, r)
  {
    var out := ItemRows(line, items);
    forall r | r in out ensures CarriesLine(line, r) {
      var k :| 0 <= k < |out| && out[k] == r;
      AssignedRowContents(line, None, Some(items[k]));
    }
  }

  /** Every row main writes for an input row carries that row, in the sense
      of CarriesLine. */
  lemma RowOutputCarriesLine(line: Record, server: Server)
    requires UrlColumn in line
    ensures forall r :: r in RowOutput(line, server) ==> CarriesLine(line, r)
  {
    var url := line[UrlColumn];
    if !BlankUrl(url) && !Falsy(DownloadAssetJson(url.value, server)) {
      var pim := Extract(DownloadAssetJson(url.value, server).value);
      ProductRowsCarryLine(line, pim.products);
      ItemRowsCarryLine(line, pim.items);
    }
  }

  /** The two loops that write one row per product and then one per item. */
  method WriteAssignments(line: Record, pim: Assignment) returns (out: seq<Record>)
    ensures out == Expansion(line, pim)
  {
    var products, items := pim.products, pim.items;
    out := [];
    for j := 0 to |products|
      invariant out == ProductRows(line, products[..j])
    {
      ProductRowsStep(line, products, j);
      out := out + [ProductRow(line, products[j])];
    }
    assert products[..|products|] == products;
    ghost var productRows := out;
    for j := 0 to |items|
      invariant out == productRows + ItemRows(line, items[..j])
    {
      ItemRowsStep(line, items, j);
      AppendSnoc(productRows, ItemRows(line, items[..j]), ItemRow(line, items[j]));
      out := out + [ItemRow(line, items[j])];
    }
    assert items[..|items|] == items;
  }

  /** The body of main's loop for a row that has the URL column (lines 44-68):
      the rows it writes and the address it fetches, if any. */
  method ProcessRow(line: Record, server: Server) returns (written: seq<Record>, requested: seq<string>)
    requires UrlColumn in line
    ensures written == RowOutput(line, server)
    ensures requested == RowRequests(line)
  {
    written, requested := [], [];
    var url := line[UrlColumn];
    if BlankUrl(url) {
      return;
    }
    var target := FetchTarget(url.value);
    requested := [target];
    var asset := server(target);
    if Falsy(asset) {
      return;
    }
    var pim := Extract(asset.value);
    if pim.products != [] || pim.items != [] {
      written := WriteAssignments(line, pim);
    } else {
      var unwritten := SentinelRow(line);
    }
  }

  /** The loop of main. `requested` lists the addresses fetched, in order.
      When every row has the URL column, the output is the header and the rows
      of Emitted; otherwise the loop stops at the first row without it, no
      later row is looked at, and no output is kept. */
  method Run(input: CsvInput, server: Server) returns (result: RunResult, requested: seq<string>)
    ensures input.NoInputFile? ==> result == MissingInputFile && requested == []
    ensures input.EmptyFile? ==> result == EmptyInput && requested == []
    ensures input.Table? && AllHaveUrl(input.rows) ==>
      result == Written(Header(input.fieldnames), Emitted(input.rows, server))
      && requested == Requests(input.rows)
    ensures input.Table? && !AllHaveUrl(input.rows) ==>
      result.MissingUrlColumn? && result.at < |input.rows|
      && UrlColumn !in input.rows[result.at]
      && AllHaveUrl(input.rows[..result.at])
      && requested == Requests(input.rows[..result.at])
    ensures (input.Table? && input.rows != [] && UrlColumn !in input.fieldnames
             && RowsFollowHeader(input.fieldnames, input.rows)) ==>
      result == MissingUrlColumn(0) && requested == []
  {
    if input.NoInputFile? {
      return MissingInputFile, [];
    }
    if input.EmptyFile? {
      return EmptyInput, [];
    }
    var lines := input.rows;
    var header := [ProductColumn, ItemColumn] + input.fieldnames;
    var out: seq<Record> := [];
    requested := [];
    var foundUrlColumn := true;
    var stoppedAt := 0;
    for i := 0 to |lines|
      invariant foundUrlColumn
      invariant AllHaveUrl(lines[..i])
      invariant out == Emitted(lines[..i], server)
      invariant requested == Requests(lines[..i])
    {
      var line := lines[i];
      if UrlColumn !in line {
        foundUrlColumn := false;
        stoppedAt := i;
        break;
      }
      EmittedStep(lines, i, server);
      var written, fetched := ProcessRow(line, server);
      out := out + written;
      requested := requested + fetched;
    }
    if !foundUrlColumn {
      if UrlColumn !in input.fieldnames && RowsFollowHeader(input.fieldnames, lines) {
        MissingHeaderStopsAtFirstRow(input.fieldnames, lines, stoppedAt);
      }
      return MissingUrlColumn(stoppedAt), requested;
    }
    assert lines[..|lines|] == lines;
    if lines != [] && RowsFollowHeader(input.fieldnames, lines) {
      UrlColumnDecidedByHeader(input.fieldnames, lines);
    }
    result := Written(header, out);
  }
}
