# PIM assignments of eDAM assets, modelled in Dafny

The script `edam_asset_pim_data.py` reads a CSV export of digital assets. One
column holds each asset's internal URL. For every row it fetches the asset's
JSON rendition (`<url stripped>.2.json`) and reads two comma-separated
metadata fields: the PIM products and the PIM items the asset is assigned to.
It writes one output row per product and one per item. Each output row is the
input row with two new leading columns, "PIM Product no." and "PIM Item no.".

This project models that core and proves properties about it:

- `Text` models Python's `str.strip()`, and `str.split(sep)` for a one-character `sep`, on strings.
  Whitespace is the exact set of characters `str.isspace()` accepts.
- `JsonValue` is the decoded JSON value and its Python truthiness.
- `Assignments` models `get_pim_product_and_item_assigments`. It is a total
  function from a JSON value to the two identifier lists.
- `Fetch` models the address `download_asset_json` requests. The HTTP
  exchange itself is a `Server` oracle, a function from address to
  `Option<Json>` that the caller supplies.
- `Files` models the encoding choice from the first three bytes and the
  name of the output file.
- `Pipeline` models `main`: the output header, the rows written for one input
  row, and the loop over the rows. The loop stops at a row that lacks the
  `p_internalurl` column, and then the run discards its output.
  - `Pipeline.Run` is an imperative loop with `break`, like the source, and
    is proved against the specification functions `Emitted` and `Requests`.
  - `Pipeline.ProcessRow` and `Pipeline.WriteAssignments` are the loop body
    and its two inner `for` loops, each proved against its own function.

An input row is a map from column name to `Option<string>`. `None` stands
for Python's `None`, which `csv.DictReader` puts in the cells a short line
lacks. The merge `{"PIM Product no.": p, "PIM Item no.": i, **line}` is map
union in which the input row's own cells win (`Pipeline.AssignedRow`), so
a pre-existing column of either name overrides the new value.

Four behaviours of the code deserve a note; the model follows the code in
each:

- Encoding. The comment at edam_asset_pim_data.py:26-27 says the check is for
  the UTF-8 byte-order mark EF BB BF, but line 25 compares the first three
  bytes with the ASCII bytes `b"eDA"` (see Findings).
- Rows without the URL column. Lines 40-42 clear `found_url_column` and
  leave the loop at the first such row, so no later row is read or fetched;
  lines 70-72 then delete the output file and exit with an error
  (`Pipeline.Run`, outcome `MissingUrlColumn`).
- The "NOT ASSIGNED" row. Lines 63-68 build it when both lists are empty and
  never write it. `Pipeline.ProcessRow` constructs it and drops it, and
  `Pipeline.RowOutput` writes nothing for such a row.
- A missing input file. Lines 19-20 exit before anything is opened
  (`Pipeline.Run`, outcome `MissingInputFile`).

## Model

| member | source | states |
|---|---|---|
| Text.StripLeft | edam_asset_pim_data.py:86 | the result is a suffix of the input; everything dropped in front is whitespace; the result does not start with whitespace |
| Text.StripRight | edam_asset_pim_data.py:86 | the result is a prefix of the input; everything dropped behind is whitespace; the result does not end with whitespace |
| Text.Strip | edam_asset_pim_data.py:86 | `str.strip()` returns a string that neither starts nor ends with whitespace |
| Text.StripDecomposes | edam_asset_pim_data.py:86 | the input is leading whitespace, then the stripped result, then trailing whitespace |
| Text.StripUnique | edam_asset_pim_data.py:86 | for whitespace w1, w2 and any t with no whitespace at either end, strip(w1 + t + w2) is t; this pins strip down completely |
| Text.StripEmptyIff | edam_asset_pim_data.py:86 | stripping gives "" exactly when the string is all whitespace (both directions) |
| Text.StripIdempotent | edam_asset_pim_data.py:86 | stripping twice is stripping once |
| Text.StripIgnoresPadding | edam_asset_pim_data.py:98 | extra whitespace on either side never changes the stripped result |
| Text.Split | edam_asset_pim_data.py:86 | `s.split(",")` has one more piece than s has commas (so "" gives [""]), and no piece contains a comma |
| Text.JoinSplit | edam_asset_pim_data.py:86 | joining the pieces with the separator gives back the string |
| Text.SplitJoin | edam_asset_pim_data.py:86 | splitting the join of separator-free pieces gives back exactly those pieces |
| JsonValue.Truthy | edam_asset_pim_data.py:50 | Python truthiness of a decoded document: null, false, 0, "", [] and {} are false; it is used by `Pipeline.Falsy`, whose effect `Pipeline.RowOutputShape` states |
| Assignments.Identifiers | edam_asset_pim_data.py:86 | `list(map(str.strip, v.split(",")))` has one entry more than v has commas, and no entry starts or ends with whitespace |
| Assignments.StripAll | edam_asset_pim_data.py:86 | `list(map(str.strip, pieces))`: same length, entry k is piece k stripped |
| Assignments.Metadata | edam_asset_pim_data.py:82-83 | the metadata mapping at the path "jcr:content" / "metadata"; what it finds is stated by `Assignments.ShapeMismatchIsEmpty` and `Assignments.ShapeMatchReadsFields` |
| Assignments.Field | edam_asset_pim_data.py:84-90 | one optional field's list, stated by `Assignments.FieldSplitsAndStrips`, `Assignments.FieldIsStrippedPieces` and `Assignments.AbsentFieldIsEmpty` |
| Assignments.Extract | edam_asset_pim_data.py:75-91 | `get_pim_product_and_item_assigments`; its behaviour is stated by `Assignments.ShapeMismatchIsEmpty`, `Assignments.ShapeMatchReadsFields` and `Assignments.FieldsIndependent` |
| Assignments.ShapeMismatchIsEmpty | edam_asset_pim_data.py:80-91 | unless the value is a mapping whose "jcr:content" is a mapping whose "metadata" is a mapping, both lists are empty; the extractor is total, so it never fails |
| Assignments.ShapeMatchReadsFields | edam_asset_pim_data.py:82-90 | when that path resolves, the products come from "edam:product-to-pim" and the items from "edam:item-to-pim" of the metadata, whatever else the document holds |
| Assignments.WrapReadsFields | edam_asset_pim_data.py:82-90 | a metadata mapping placed at the two-level path is read field by field |
| Assignments.FieldSplitsAndStrips | edam_asset_pim_data.py:84-90 | a present string field gives (commas + 1) entries, entry k being the k-th comma piece stripped, with no entry starting or ending with whitespace; empty pieces and duplicates are kept |
| Assignments.FieldIsStrippedPieces | edam_asset_pim_data.py:85-90 | for any comma-free pieces whose join is the field value, the list is exactly those pieces stripped |
| Assignments.AbsentFieldIsEmpty | edam_asset_pim_data.py:80-90 | a field that is absent or not a string gives an empty list |
| Assignments.FieldsIndependent | edam_asset_pim_data.py:84-90 | the items depend only on "edam:item-to-pim" and the products only on "edam:product-to-pim"; changing any other key leaves each list as it was |
| Assignments.ItemsExample | edam_asset_pim_data.py:84-91 | metadata {"edam:item-to-pim": "A, B ,C"} gives items ["A", "B", "C"] and no products |
| Fetch.FetchTarget | edam_asset_pim_data.py:98 | the requested address is the stripped URL followed by ".2.json" |
| Fetch.FetchTargetSameIff | edam_asset_pim_data.py:98 | two URLs are fetched from the same address exactly when they agree once stripped (both directions) |
| Fetch.FetchTargetIgnoresPadding | edam_asset_pim_data.py:98 | whitespace around the URL in the input cell does not change the request |
| Fetch.DownloadAssetJson | edam_asset_pim_data.py:94-104 | `download_asset_json`: whatever the server answers at the address `Fetch.FetchTarget` states; `None` for a failed request |
| Files.ReadPrefix | edam_asset_pim_data.py:24 | `read(3)`: a prefix of the file of length min(3, size) |
| Files.ChooseEncoding | edam_asset_pim_data.py:22-28 | "utf-8-sig" exactly when the file has at least three bytes and they are 65 44 41 (`b"eDA"`); "utf-8" otherwise |
| Files.ShortFileIsUtf8 | edam_asset_pim_data.py:22-28 | a file of fewer than three bytes is read as "utf-8" |
| Files.BomNotRecognised | edam_asset_pim_data.py:25-27 | as written, a file beginning with the byte-order mark EF BB BF is opened as plain "utf-8" |
| Files.ChooseEncodingBom | edam_asset_pim_data.py:25-28 | corrected choice: "utf-8-sig" exactly when the file starts with EF BB BF |
| Files.BomRecognised | edam_asset_pim_data.py:25-28 | the corrected choice selects "utf-8-sig" for every file that starts with the mark |
| Files.OutputName | edam_asset_pim_data.py:30 | the output name is the input stem followed by "_pim-assignments.csv" |
| Files.OutputNameInjective | edam_asset_pim_data.py:30 | different stems give different output names (both directions) |
| Files.OutputIsNotInput | edam_asset_pim_data.py:16-30 | the output file never has the input file's name |
| Pipeline.Header | edam_asset_pim_data.py:34 | the header is "PIM Product no.", "PIM Item no.", then the input field names in order |
| Pipeline.AssignedRowContents | edam_asset_pim_data.py:58-68 | a merged row has the input's columns plus the two new ones, keeps every input cell, and holds the new values only where the input has no column of that name |
| Pipeline.AssignedRow | edam_asset_pim_data.py:58-68 | the merge `{P, I, **line}`, stated by `Pipeline.AssignedRowContents` |
| Pipeline.ProductRow | edam_asset_pim_data.py:58 | the row written for one product, stated by `Pipeline.ProductRows` and `Pipeline.ProductRowsCarryLine` |
| Pipeline.ItemRow | edam_asset_pim_data.py:61 | the row written for one item, stated by `Pipeline.ItemRows` and `Pipeline.ItemRowsCarryLine` |
| Pipeline.SentinelRow | edam_asset_pim_data.py:64-68 | the "NOT ASSIGNED" row; `Pipeline.ProcessRow` builds it and writes nothing, as `Pipeline.RowOutputShape` states |
| Pipeline.ProductRows | edam_asset_pim_data.py:57-59 | one row per product, in order; row k holds product k and no item |
| Pipeline.ItemRows | edam_asset_pim_data.py:60-62 | one row per item, in order; row k holds item k and no product |
| Pipeline.Expansion | edam_asset_pim_data.py:56-62 | P products and I items give P + I rows: first the product rows in order, then the item rows in order |
| Pipeline.BlankUrl | edam_asset_pim_data.py:45 | `not url`: the cell is None or ""; its effect is stated by `Pipeline.RowOutputShape` and `Pipeline.RowRequests` |
| Pipeline.Falsy | edam_asset_pim_data.py:50 | `not asset_data`: no document, or a document that `JsonValue.Truthy` calls false; its effect is stated by `Pipeline.RowOutputShape` |
| Pipeline.RowOutput | edam_asset_pim_data.py:44-68 | the rows one input row writes, stated by `Pipeline.RowOutputShape` and `Pipeline.RowOutputCarriesLine` |
| Pipeline.RowRequests | edam_asset_pim_data.py:44-49 | one input row requests at most one address: none exactly when its URL is empty or None, otherwise the stripped URL followed by ".2.json" |
| Pipeline.RowOutputShape | edam_asset_pim_data.py:44-68 | a row writes nothing when its URL is empty or None or its download is falsy; otherwise it writes exactly the expansion of its assignment, which is nothing when both lists are empty (the "NOT ASSIGNED" row is not written) |
| Pipeline.ProductRowsCarryLine | edam_asset_pim_data.py:57-59 | every product row carries the input row (see CarriesLine) |
| Pipeline.ItemRowsCarryLine | edam_asset_pim_data.py:60-62 | every item row carries the input row |
| Pipeline.RowOutputCarriesLine | edam_asset_pim_data.py:56-62 | every written row keeps all the input row's cells unchanged and has exactly its columns plus the two new ones; when the input has neither new column, exactly one of them holds an identifier and the other is None |
| Pipeline.Emitted | edam_asset_pim_data.py:39-68 | the rows the loop writes, stated by `Pipeline.EmittedStep`, `Pipeline.EmittedConcat`, `Pipeline.EmittedAround`, `Pipeline.SilentRowInvisible` and `Pipeline.Run` |
| Pipeline.Requests | edam_asset_pim_data.py:44-49 | the addresses the loop fetches, stated by `Pipeline.EmittedStep`, `Pipeline.AtMostOneRequestPerRow` and `Pipeline.Run` |
| Pipeline.Outputs | edam_asset_pim_data.py:39-68 | one entry per input row, entry k being what row k writes |
| Pipeline.Fetches | edam_asset_pim_data.py:44-49 | one entry per input row, entry k being what row k requests |
| Pipeline.OutputsConcat | edam_asset_pim_data.py:39-68 | the per-row outputs and requests of two stretches of rows are those of each stretch, one after the other |
| Pipeline.EmittedStep | edam_asset_pim_data.py:39-68 | one more iteration extends the output by that row's rows and the requests by that row's request |
| Pipeline.EmittedConcat | edam_asset_pim_data.py:39-68 | what a row writes does not depend on its neighbours: the output of two stretches is their outputs one after the other |
| Pipeline.EmittedAround | edam_asset_pim_data.py:39-68 | a row's rows appear whole and in place between the rows written before it and those written after it |
| Pipeline.SilentRowInvisible | edam_asset_pim_data.py:44-68 | a row that writes nothing can be removed without changing the output: the loop just continues |
| Pipeline.AtMostOneRequestPerRow | edam_asset_pim_data.py:44-49 | there are never more requests than input rows |
| Pipeline.UrlColumnDecidedByHeader | edam_asset_pim_data.py:33-42 | for a non-empty file whose rows have exactly the header's columns, every row has the URL column exactly when the header has it (both directions) |
| Pipeline.MissingHeaderStopsAtFirstRow | edam_asset_pim_data.py:39-42 | when the header lacks the URL column, the loop can only stop at the first row, before any request |
| Pipeline.WriteAssignments | edam_asset_pim_data.py:56-62 | the two loops write exactly the expansion: the product rows in order, then the item rows in order |
| Pipeline.ProcessRow | edam_asset_pim_data.py:44-68 | one loop iteration writes exactly RowOutput and requests stripped URL + ".2.json" exactly when the URL is non-empty |
| Pipeline.Run | edam_asset_pim_data.py:19-72 | a missing input file ends in MissingInputFile and an empty one in EmptyInput, with no request; if every row has the URL column, the output is the header followed by every row's rows in input order; otherwise the run ends in MissingUrlColumn at the first row without the column, no output is kept, and no later row is fetched; when the header lacks the column, that is the first row and nothing is fetched |

## Left out

- HTTP fetching (lines 94-104): `urlopen`, the 300-second timeout, the status check and the printed `HTTPError` message are replaced by the `Server` oracle. A status of 400 or more and an `HTTPError` both appear as `None`. The oracle is a fixed function, so the same address always gets the same answer; `Pipeline.EmittedConcat` and `Pipeline.SilentRowInvisible` state per-row independence under that assumption, whereas a live server may answer two rows with the same URL differently.
- Other failures of the fetch: `URLError`, socket timeouts, JSON decode errors, and the `ValueError` that `urlopen` raises for an address without a scheme, are not caught by the script and end the process. The oracle is total, so the model does not capture these crashes. For example, a URL cell of only spaces is not blank at line 45, so line 98 requests ".2.json" and the process crashes; `Pipeline.RowRequests` records that request and the oracle answers it.
- JSON decoding (line 100): `json.loads` and UTF-8 decoding are not modelled; the oracle returns an already parsed `Json` value.
- JSON numbers: only a mantissa and an exponent are kept, so a number is falsy exactly when its mantissa is zero; float underflow ("1e-400" decodes to 0.0, which is falsy) is not modelled, and NaN and infinities are not represented. A document that is not a mapping writes nothing either way.
- CSV parsing and writing (lines 32-36, 59, 62): quoting, the Excel dialect and `DictWriter`'s projection of a row onto the header (missing cells written as "") are not modelled. Rows are parsed maps, and writing appends to a sequence.
- Extra cells on a long line: `csv.DictReader` stores them under the key `None`, and `DictWriter` then raises because that key is not in the header. Column names are strings here, so that crash is not modelled.
- Reading the input as text: the model takes the parsed rows directly. The encoding choice (`Files.ChooseEncoding`) is modelled separately and is not threaded into `Pipeline.Run`.
- Opening and truncating files (lines 23, 32), `unlink` (line 71) and `sys.exit` (lines 20, 72) are not modelled as effects. The missing input file (lines 19-20) and the missing URL column (lines 70-72) appear only as outcomes of `Pipeline.Run`; which files exist afterwards is not modelled.
- The empty input file: `reader.fieldnames` is `None`, so line 34 raises `TypeError` after the output file was created. This becomes the `EmptyInput` outcome; the empty output file it leaves behind is not modelled.
- Console output and timing (lines 48, 51, 54, 107-111) carry no checkable behaviour and are left out.

## Findings

| source | as written | input that shows it | evidently intended | confidence | as-written member | corrected member |
|---|---|---|---|---|---|---|
| edam_asset_pim_data.py:25-28 | the first three bytes are compared with `b"eDA"` (65 44 41) | a file beginning with EF BB BF, the UTF-8 byte-order mark Excel writes, is opened as plain "utf-8", so the mark stays at the start of the first column name | compare with the mark EF BB BF, as the comment on lines 26-27 says, and open such files as "utf-8-sig" | high, not executed | Files.BomNotRecognised | Files.ChooseEncodingBom |
