/** The file-level decisions of main: which encoding the input and output use
    and what the output file is called. */
module Files {

  newtype byte = x: int | 0 <= x < 256

  const InputName := "PDF_documents_received_as_images_Sheet1.csv"
  /** Path(InputName).stem */
  const InputStem := "PDF_documents_received_as_images_Sheet1"
  const OutputSuffix := "_pim-assignments.csv"

  const Utf8 := "utf-8"
  const Utf8Sig := "utf-8-sig"

  /** The bytes b"eDA" the script compares the start of the file against. */
  const EdaMagic: seq<byte> := [0x65, 0x44, 0x41]
  /** The UTF-8 byte-order mark. */
  const Utf8Bom: seq<byte> := [0xEF, 0xBB, 0xBF]

  /** file.read(n): at most n bytes from the start. */
  function ReadPrefix(content: seq<byte>, n: nat): (r: seq<byte>)
    ensures |r| == if |content| < n then |content| else n
    ensures r <= content
  {
    if |content| < n then content else content[..n]
  }

  /** The encoding main picks, as written: "utf-8-sig" when the first three
      bytes are b"eDA", "utf-8" otherwise (a shorter file included). */
  function ChooseEncoding(content: seq<byte>): (e: string)
    ensures e == Utf8Sig <==> |content| >= 3 && content[..3] == EdaMagic
    ensures e == Utf8Sig || e == Utf8
  {
    if ReadPrefix(content, 3) == EdaMagic then Utf8Sig else Utf8
  }

  /** A file of fewer than three bytes is read as plain UTF-8. */
  lemma ShortFileIsUtf8(content: seq<byte>)
    requires |content| < 3
    ensures ChooseEncoding(content) == Utf8
  {
  }

  /** As written, a file that does start with the byte-order mark is opened as
      plain "utf-8", so the mark is not removed. */
  lemma BomNotRecognised(rest: seq<byte>)
    ensures ChooseEncoding(Utf8Bom + rest) == Utf8
  {
    assert (Utf8Bom + rest)[..3] == Utf8Bom;
    assert Utf8Bom[0] != EdaMagic[0];
  }

  /** The choice the comment beside the test describes: "utf-8-sig" exactly
      when the file starts with the byte-order mark EF BB BF. */
  function ChooseEncodingBom(content: seq<byte>): (e: string)
    ensures e == Utf8Sig <==> |content| >= 3 && content[..3] == Utf8Bom
    ensures e == Utf8Sig || e == Utf8
  {
    if ReadPrefix(content, 3) == Utf8Bom then Utf8Sig else Utf8
  }

  /** The corrected choice strips the mark from every file that has one. */
  lemma BomRecognised(rest: seq<byte>)
    ensures ChooseEncodingBom(Utf8Bom + rest) == Utf8Sig
  {
    assert (Utf8Bom + rest)[..3] == Utf8Bom;
  }

  /** in_file.with_name(stem + "_pim-assignments.csv"), for the file name. */
  function OutputName(stem: string): (r: string)
    ensures |r| == |stem| + |OutputSuffix|
    ensures r[..|stem|] == stem && r[|stem|..] == OutputSuffix
  {
    stem + OutputSuffix
  }

  /** Different stems give different output names. */
  lemma OutputNameInjective(s1: string, s2: string)
    ensures OutputName(s1) == OutputName(s2) <==> s1 == s2
  {
    if OutputName(s1) == OutputName(s2) {
      assert s1 == OutputName(s1)[..|s1|];
    }
  }

  /** The output never overwrites the input file. */
  lemma OutputIsNotInput()
    ensures OutputName(InputStem) != InputName
  {
    assert |OutputName(InputStem)| != |InputName|;
  }
}
