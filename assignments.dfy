/** get_pim_product_and_item_assigments: the PIM products and items an asset
    document says the asset is assigned to. */
module Assignments {
  import opened Wrappers
  import opened JsonValue
  import opened Text

  const ContentKey := "jcr:content"
  const MetadataKey := "metadata"
  const ItemsKey := "edam:item-to-pim"
  const ProductsKey := "edam:product-to-pim"

  /** The dictionary {"products": ..., "items": ...} the extractor returns. */
  datatype Assignment = Assignment(products: seq<string>, items: seq<string>)

  /** The metadata mapping at doc["jcr:content"]["metadata"], when every step
      of that path is a mapping. */
  function Metadata(doc: Json): Option<map<string, Json>> {
    match doc
    case JObj(top) =>
      if ContentKey in top then
        match top[ContentKey]
        case JObj(content) =>
          if MetadataKey in content then
            match content[MetadataKey]
            case JObj(meta) => Some(meta)
            case _ => None
          else None
        case _ => None
      else None
    case _ => None
  }

  /** Every piece stripped, in order. */
  function StripAll(pieces: seq<string>): (r: seq<string>)
    ensures |r| == |pieces|
    ensures forall k :: 0 <= k < |r| ==> r[k] == Strip(pieces[k])
  {
    seq(|pieces|, k requires 0 <= k < |pieces| => Strip(pieces[k]))
  }

  /** list(map(str.strip, v.split(","))) */
  function Identifiers(v: string): (r: seq<string>)
    ensures |r| == Count(v, ',') + 1
    ensures forall k :: 0 <= k < |r| ==> Trimmed(r[k])
  {
    StripAll(Split(v, ','))
  }

  /** The identifier list of one optional field: empty unless the field is
      present and holds a string. */
  function Field(meta: map<string, Json>, key: string): seq<string> {
    if key in meta && meta[key].JStr? then Identifiers(meta[key].str) else []
  }

  /** The products and the items of one asset document; both empty when the
      document has no metadata mapping. */
  function Extract(doc: Json): Assignment {
    match Metadata(doc)
    case None => Assignment([], [])
    case Some(meta) => Assignment(Field(meta, ProductsKey), Field(meta, ItemsKey))
  }

  /** The document the extractor recognises: the metadata mapping wrapped at
      its two-level path. */
  function Wrap(meta: map<string, Json>): Json {
    JObj(map[ContentKey := JObj(map[MetadataKey := JObj(meta)])])
  }

  /** A document that is not a mapping whose "jcr:content" is a mapping whose
      "metadata" is a mapping yields two empty lists; the extractor is total,
      so it never fails. */
  lemma ShapeMismatchIsEmpty(doc: Json)
    requires !(doc.JObj? && ContentKey in doc.fields && doc.fields[ContentKey].JObj?
               && MetadataKey in doc.fields[ContentKey].fields
               && doc.fields[ContentKey].fields[MetadataKey].JObj?)
    ensures Extract(doc) == Assignment([], [])
  {
  }

  /** When the path resolves, each list comes from its own field of the
      metadata, whatever else the document holds. */
  lemma ShapeMatchReadsFields(doc: Json, meta: map<string, Json>)
    requires doc.JObj? && ContentKey in doc.fields && doc.fields[ContentKey].JObj?
    requires MetadataKey in doc.fields[ContentKey].fields
    requires doc.fields[ContentKey].fields[MetadataKey] == JObj(meta)
    ensures Extract(doc) == Assignment(Field(meta, ProductsKey), Field(meta, ItemsKey))
  {
  }

  /** A present string field gives one entry per comma-separated piece
      (commas + 1 of them, empty pieces and duplicates kept), entry k is the
      k-th piece stripped, and no entry starts or ends with whitespace. */
  lemma FieldSplitsAndStrips(meta: map<string, Json>, key: string, v: string)
    requires key in meta && meta[key] == JStr(v)
    ensures |Field(meta, key)| == Count(v, ',') + 1
    ensures forall k :: 0 <= k < |Field(meta, key)| ==>
      Field(meta, key)[k] == Strip(Split(v, ',')[k]) && Trimmed(Field(meta, key)[k])
    ensures Join(Split(v, ','), ',') == v
  {
    JoinSplit(v, ',');
  }

  /** The pieces in the lemma above are the comma-separated pieces of v in the
      plain sense: any comma-free list that joins back to v, after stripping. */
  lemma FieldIsStrippedPieces(meta: map<string, Json>, key: string, pieces: seq<string>)
    requires |pieces| >= 1
    requires forall k :: 0 <= k < |pieces| ==> ',' !in pieces[k]
    requires key in meta && meta[key] == JStr(Join(pieces, ','))
    ensures Field(meta, key) == StripAll(pieces)
  {
    SplitJoin(pieces, ',');
  }

  /** A field that is absent or not a string gives an empty list. */
  lemma AbsentFieldIsEmpty(meta: map<string, Json>, key: string)
    requires key !in meta || !meta[key].JStr?
    ensures Field(meta, key) == []
  {
  }

  /** The items depend on "edam:item-to-pim" alone and the products on
      "edam:product-to-pim" alone: changing, adding or removing the other
      field (or any unrelated key) leaves a list as it was. */
  lemma FieldsIndependent(m1: map<string, Json>, m2: map<string, Json>)
    ensures (ItemsKey in m1 <==> ItemsKey in m2) && (ItemsKey in m1 ==> m1[ItemsKey] == m2[ItemsKey])
      ==> Extract(Wrap(m1)).items == Extract(Wrap(m2)).items
    ensures (ProductsKey in m1 <==> ProductsKey in m2) && (ProductsKey in m1 ==> m1[ProductsKey] == m2[ProductsKey])
      ==> Extract(Wrap(m1)).products == Extract(Wrap(m2)).products
  {
    assert Metadata(Wrap(m1)) == Some(m1);
    assert Metadata(Wrap(m2)) == Some(m2);
  }

  /** A wrapped metadata mapping is read field by field. */
  lemma WrapReadsFields(meta: map<string, Json>)
    ensures Extract(Wrap(meta)) == Assignment(Field(meta, ProductsKey), Field(meta, ItemsKey))
  {
    assert Metadata(Wrap(meta)) == Some(meta);
  }

  /** The pieces of the worked example below, joined. */
  lemma ExampleJoin()
    ensures Join(["A", " B ", "C"], ',') == "A, B ,C"
  {
    JoinCons("A", [" B ", "C"], ',');
    JoinCons(" B ", ["C"], ',');
    assert ["A", " B ", "C"] == ["A"] + [" B ", "C"];
    assert [" B ", "C"] == [" B "] + ["C"];
  }

  lemma ExampleFirst(items: seq<string>)
    requires items == StripAll(["A", " B ", "C"])
    ensures |items| == 3 && items[0] == "A"
  {
    assert "A" == [] + "A" + [];
    StripUnique([], "A", []);
  }

  lemma ExampleSecond(items: seq<string>)
    requires items == StripAll(["A", " B ", "C"])
    ensures items[1] == "B"
  {
    assert " B " == " " + "B" + " ";
    StripUnique(" ", "B", " ");
  }

  lemma ExampleThird(items: seq<string>)
    requires items == StripAll(["A", " B ", "C"])
    ensures items[2] == "C"
  {
    assert "C" == [] + "C" + [];
    StripUnique([], "C", []);
  }

  /** The item field of the worked example splits and strips to A, B, C. */
  lemma ExampleField(meta: map<string, Json>)
    requires meta == map[ItemsKey := JStr("A, B ,C")]
    ensures var items := Field(meta, ItemsKey);
      |items| == 3 && items[0] == "A" && items[1] == "B" && items[2] == "C"
  {
    ExampleJoin();
    FieldIsStrippedPieces(meta, ItemsKey, ["A", " B ", "C"]);
    ExampleFirst(Field(meta, ItemsKey));
    ExampleSecond(Field(meta, ItemsKey));
    ExampleThird(Field(meta, ItemsKey));
  }

  /** The worked example: "A, B ,C" in the item field and no product field
      give the items A, B and C and no products. */
  lemma ItemsExample(meta: map<string, Json>)
    requires meta == map[ItemsKey := JStr("A, B ,C")]
    ensures var pim := Extract(Wrap(meta));
      pim.products == [] && |pim.items| == 3
      && pim.items[0] == "A" && pim.items[1] == "B" && pim.items[2] == "C"
  {
    WrapReadsFields(meta);
    AbsentFieldIsEmpty(meta, ProductsKey);
    ExampleField(meta);
  }
}
