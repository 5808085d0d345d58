/**
 * `SplatRenderer`: `loadPly` chains the header loop, the field resolver,
 * the body read and the decode loop and keeps the decoded columns as the
 * scene (the upload to the compute backend hands these columns over
 * unchanged); `render` interleaves the three colour planes the backend
 * returns into one RGB pixel buffer.
 */
module Renderer {
  import opened Wrappers
  import opened Bytes
  import opened Text
  import opened Header
  import opened HeaderWriter
  import opened Resolver
  import opened Decoder
  import opened Pixels

  /** An opened PLY file: the text lines `std::getline` delivers and the bytes after the `end_header` line. */
  datatype PlyFile = PlyFile(lines: seq<string>, body: seq<Byte>)

  /** What `file.read` can still obtain: nothing once the header loop has run into the end of the file. */
  function Available(file: PlyFile): (avail: seq<Byte>)
    ensures EndHeader in file.lines ==> avail == file.body
    ensures EndHeader !in file.lines ==> avail == []
  {
    if HeaderLength(file.lines) < |file.lines| then file.body else []
  }

  function RecordCount(file: PlyFile): nat {
    HeaderOf(file.lines).vertexCount
  }

  function FileStride(file: PlyFile): nat {
    Stride(HeaderOf(file.lines).propCounter)
  }

  /** `buffer` after `file.read`: `vertexCount * stride` bytes, zero where the file ran short. */
  function BodyBuffer(file: PlyFile): (buf: seq<Byte>)
    ensures |buf| == RecordCount(file) * FileStride(file)
  {
    ZeroFilled(Available(file), RecordCount(file) * FileStride(file))
  }

  function FileIndices(file: PlyFile): (idx: FieldIndices)
    ensures ValidIndices(idx, HeaderOf(file.lines).propCounter)
  {
    ResolvedInRange(file.lines);
    Resolved(HeaderOf(file.lines).props)
  }

  /** Scalar column `f` (x, y, z, opacity, scale_0..2, rot_0..3, f_dc_0..2) of record `i`. */
  function ScalarAt(file: PlyFile, f: nat, i: nat): Word
    requires f < ScalarCount && i < RecordCount(file)
  {
    ReadF(BodyBuffer(file), RecordCount(file), FileStride(file), i, FileIndices(file).scalar[f])
  }

  /** Slot `k` of harmonic channel `c`. */
  function ShAt(file: PlyFile, c: nat, k: nat): Word
    requires c < 3 && k < RecordCount(file) * 15
  {
    ShCoeff(BodyBuffer(file), RecordCount(file), FileStride(file), FileIndices(file).rest, c, k)
  }

  class SplatRenderer {
    var numSplats: nat
    /** xyz_x, xyz_y, xyz_z, opas, s_x, s_y, s_z, rot_w, rot_x, rot_y, rot_z, c_r, c_g, c_b, one per row. */
    var scalars: array2<Word>
    /** sh_r, sh_g, sh_b: `numSplats` rows of 15 coefficients each, row-major. */
    var shR: array<Word>
    var shG: array<Word>
    var shB: array<Word>

    /** Every column has one entry per splat (15 for the harmonic columns): index `i` is splat `i` everywhere. */
    ghost predicate Valid()
      reads this
    {
      scalars.Length0 == ScalarCount && scalars.Length1 == numSplats &&
      shR.Length == numSplats * 15 && shG.Length == numSplats * 15 && shB.Length == numSplats * 15
    }

    /** The scene holds exactly the columns decoded from `file`. */
    ghost predicate Holds(file: PlyFile)
      reads this, scalars, shR, shG, shB
    {
      numSplats == RecordCount(file) && Valid() &&
      (forall f, i :: 0 <= f < ScalarCount && 0 <= i < numSplats ==> scalars[f, i] == ScalarAt(file, f, i)) &&
      (forall k :: 0 <= k < numSplats * 15 ==> shR[k] == ShAt(file, 0, k)) &&
      (forall k :: 0 <= k < numSplats * 15 ==> shG[k] == ShAt(file, 1, k)) &&
      (forall k :: 0 <= k < numSplats * 15 ==> shB[k] == ShAt(file, 2, k))
    }

    /** No scene yet: `num_splats = 0`. */
    constructor ()
      ensures Valid() && numSplats == 0
    {
      numSplats := 0;
      scalars := new Word[ScalarCount, 0];
      shR := new Word[0];
      shG := new Word[0];
      shB := new Word[0];
    }

    /**
     * `loadPly`: fails, changing nothing, when the file could not be opened
     * (`None`); otherwise replaces the scene with the one decoded from the file.
     */
    method LoadPly(file: Option<PlyFile>) returns (ok: bool)
      modifies this
      ensures ok == file.Some?
      ensures !ok ==> unchanged(this)
      ensures ok ==> Holds(file.value)
      ensures ok ==> fresh(scalars) && fresh(shR) && fresh(shG) && fresh(shB)
      ensures ok ==> shR != shG && shG != shB && shR != shB
    {
      if file.None? {
        return false;
      }
      var ply := file.value;
      var h := ParseHeader(ply.lines);
      var idx := ResolveFields(h.props);
      ResolvedInRange(ply.lines);
      var stride := Stride(h.propCounter);
      var buffer := ZeroFilled(Available(ply), h.vertexCount * stride);
      var sc, r, g, b := DecodeRecords(buffer, h.vertexCount, h.propCounter, idx);
      numSplats := h.vertexCount;
      scalars, shR, shG, shB := sc, r, g, b;
      ok := true;
    }

    /**
     * The host side of `render`: with no scene, or when the backend reports
     * failure (`None`), the pixel buffer is left as it was; otherwise it
     * becomes the interleaved planes the backend returned.
     */
    method Render(width: nat, height: nat, frame: Option<(seq<Byte>, seq<Byte>, seq<Byte>)>, pixels: seq<Byte>)
      returns (result: seq<Byte>)
      requires frame.Some? ==> |frame.value.0| == |frame.value.1| == |frame.value.2| == width * height
      ensures numSplats == 0 || frame.None? ==> result == pixels
      ensures numSplats != 0 && frame.Some? ==>
                |result| == width * height * 3 && result == Interleaved(frame.value.0, frame.value.1, frame.value.2)
    {
      if numSplats == 0 {
        return pixels;
      }
      if frame.None? {
        return pixels;
      }
      var (r, g, b) := frame.value;
      var buf := InterleavePixels(r, g, b);
      result := buf[..];
    }
  }

  // ---- properties of a loaded scene ----

  /** A field the header does not declare reads as zero in every record. */
  lemma AbsentFieldReadsZero(file: PlyFile, f: nat, i: nat)
    requires f < ScalarCount && i < RecordCount(file)
    requires ScalarNames[f] !in VertexProperties(file.lines)
    ensures ScalarAt(file, f, i) == Zero
  {
    ResolvedMeaning(file.lines, ScalarNames[f]);
  }

  /** A harmonic coefficient the header does not declare reads as zero in every record. */
  lemma AbsentHarmonicReadsZero(file: PlyFile, c: nat, i: nat, j: nat)
    requires c < 3 && i < RecordCount(file) && j < 15
    requires RestName(3 * j + c) !in VertexProperties(file.lines)
    ensures i * 15 + j < RecordCount(file) * 15
    ensures ShAt(file, c, i * 15 + j) == Zero
  {
    ResolvedMeaning(file.lines, RestName(3 * j + c));
    DeinterleaveAt(BodyBuffer(file), RecordCount(file), FileStride(file), FileIndices(file).rest, c, i, j);
  }

  /** A scalar field whose window lies past the end of what the file still holds reads as zero. */
  lemma ShortBodyReadsZero(file: PlyFile, f: nat, i: nat)
    requires f < ScalarCount && i < RecordCount(file)
    requires FileIndices(file).scalar[f] != -1
    requires i * FileStride(file) + FileIndices(file).scalar[f] * 4 >= |Available(file)|
    ensures ScalarAt(file, f, i) == Zero
  {
    var p := FileIndices(file).scalar[f];
    assert ScalarAt(file, f, i) == ReadF(BodyBuffer(file), RecordCount(file), FileStride(file), i, p);
    ZeroPastAvailable(file, ScalarAt(file, f, i), i * FileStride(file) + p * 4);
  }

  /** A harmonic coefficient whose window lies past the end of what the file still holds reads as zero. */
  lemma ShortBodyHarmonicReadsZero(file: PlyFile, c: nat, k: nat)
    requires c < 3 && k < RecordCount(file) * 15
    requires FileIndices(file).rest[(k % 15) * 3 + c] != -1
    requires (k / 15) * FileStride(file) + FileIndices(file).rest[(k % 15) * 3 + c] * 4 >= |Available(file)|
    ensures ShAt(file, c, k) == Zero
  {
    var p := FileIndices(file).rest[(k % 15) * 3 + c];
    assert ShAt(file, c, k) == ShCoeff(BodyBuffer(file), RecordCount(file), FileStride(file), FileIndices(file).rest, c, k);
    ZeroPastAvailable(file, ShAt(file, c, k), (k / 15) * FileStride(file) + p * 4);
  }

  /** A word copied from four buffer bytes that all lie past what the file holds is zero. */
  lemma ZeroPastAvailable(file: PlyFile, w: Word, off: nat)
    requires off + 4 <= |BodyBuffer(file)| && off >= |Available(file)|
    requires WordBytes(w) == BodyBuffer(file)[off..off + 4]
    ensures w == Zero
  {
    assert WordBytes(w) == WordBytes(Zero) by {
      forall k | 0 <= k < 4 ensures WordBytes(w)[k] == 0 {
        assert BodyBuffer(file)[off + k] == 0;
      }
    }
    WordBytesInjective(w, Zero);
  }

  /** Without an `element vertex` line the scene is empty: no records and an empty body. */
  lemma NoVertexElementMeansEmptyScene(file: PlyFile)
    requires forall m :: 0 <= m < HeaderLength(file.lines) ==> !Classify(file.lines[m]).VertexElement?
    ensures RecordCount(file) == 0 && FileStride(file) == 0 && BodyBuffer(file) == []
  {
    NoVertexElement(file.lines);
  }

  // ---- writing a file and loading it back ----

  /** A file with a written header and a body of records encoded field by field. */
  function WrittenFile(names: seq<string>, records: seq<seq<Word>>): PlyFile {
    PlyFile(WriteHeader(|records|, names), EncodeBody(records))
  }

  /** Position of the first occurrence of `x` in `s`. */
  function IndexOf(s: seq<string>, x: string): (r: nat)
    requires x in s
    ensures r < |s| && s[r] == x
  {
    if s[0] == x then 0 else 1 + IndexOf(s[1..], x)
  }

  /** The value the writer stored under `name` in record `rec`, or zero if it has no such field. */
  function FieldValue(names: seq<string>, rec: seq<Word>, name: string): Word
    requires |rec| == |names|
  {
    if name in names then rec[IndexOf(names, name)] else Zero
  }

  lemma WrittenFileLayout(names: seq<string>, records: seq<seq<Word>>)
    requires |records| <= IntMax && AllTokens(names) && Distinct(names) && Uniform(records, |names|)
    ensures RecordCount(WrittenFile(names, records)) == |records|
    ensures FileStride(WrittenFile(names, records)) == Stride(|names|)
    ensures BodyBuffer(WrittenFile(names, records)) == EncodeBody(records)
  {
    var file := WrittenFile(names, records);
    ParseWrittenHeader(|records|, names);
    WrittenHeaderLength(|records|, names);
    assert Available(file) == EncodeBody(records);
    EncodeBodyLength(records, |names|);
    ZeroFilledExact(EncodeBody(records));
  }

  lemma WrittenFieldIndex(names: seq<string>, records: seq<seq<Word>>, name: string)
    requires |records| <= IntMax && AllTokens(names) && Distinct(names)
    ensures GetIdx(HeaderOf(WrittenFile(names, records).lines).props, name) ==
            if name in names then IndexOf(names, name) else -1
  {
    ParseWrittenHeader(|records|, names);
    if name in names {
      var j := IndexOf(names, name);
      assert names[j] == name;
    }
  }

  /**
   * Load round trip: every scalar column of a written file holds, for each
   * record, the value written under that field's name, or zero when the
   * file has no such field.
   */
  lemma LoadWrittenScalar(names: seq<string>, records: seq<seq<Word>>, f: nat, i: nat)
    requires |records| <= IntMax && AllTokens(names) && Distinct(names) && Uniform(records, |names|)
    requires f < ScalarCount && i < |records|
    ensures i < RecordCount(WrittenFile(names, records))
    ensures ScalarAt(WrittenFile(names, records), f, i) == FieldValue(names, records[i], ScalarNames[f])
  {
    WrittenFileLayout(names, records);
    WrittenFieldIndex(names, records, ScalarNames[f]);
    if ScalarNames[f] in names {
      DecodeEncoded(records, |names|, i, IndexOf(names, ScalarNames[f]));
    }
  }

  /**
   * Load round trip with de-interleaving: coefficient `j` of record `i` in
   * channel `c` holds the value written as `f_rest_{3j+c}`, or zero.
   */
  lemma LoadWrittenHarmonic(names: seq<string>, records: seq<seq<Word>>, c: nat, i: nat, j: nat)
    requires |records| <= IntMax && AllTokens(names) && Distinct(names) && Uniform(records, |names|)
    requires c < 3 && i < |records| && j < 15
    ensures i * 15 + j < RecordCount(WrittenFile(names, records)) * 15
    ensures ShAt(WrittenFile(names, records), c, i * 15 + j) == FieldValue(names, records[i], RestName(3 * j + c))
  {
    var file := WrittenFile(names, records);
    WrittenFileLayout(names, records);
    WrittenFieldIndex(names, records, RestName(3 * j + c));
    DeinterleaveAt(BodyBuffer(file), RecordCount(file), FileStride(file), FileIndices(file).rest, c, i, j);
    if RestName(3 * j + c) in names {
      DecodeEncoded(records, |names|, i, IndexOf(names, RestName(3 * j + c)));
    }
  }

  /** A written file whose records carry only `x`, `y`, `z` and `opacity`, in that order. */
  const PositionNames: seq<string> := ["x", "y", "z", "opacity"]

  lemma PositionNamesWritable()
    ensures AllTokens(PositionNames) && Distinct(PositionNames)
    ensures forall f :: 0 <= f < 4 ==> ScalarNames[f] in PositionNames && IndexOf(PositionNames, ScalarNames[f]) == f
    ensures forall f :: 4 <= f < ScalarCount ==> ScalarNames[f] !in PositionNames
  {
  }

  /**
   * Loading such a file fills position and opacity with the written values
   * and leaves scale, rotation and base colour zero.
   */
  lemma LoadPositionsOnly(records: seq<seq<Word>>, i: nat)
    requires |records| <= IntMax && Uniform(records, 4) && i < |records|
    ensures i < RecordCount(WrittenFile(PositionNames, records))
    ensures forall f :: 0 <= f < ScalarCount ==>
              ScalarAt(WrittenFile(PositionNames, records), f, i) == if f < 4 then records[i][f] else Zero
  {
    PositionNamesWritable();
    WrittenFileLayout(PositionNames, records);
    forall f | 0 <= f < ScalarCount
      ensures ScalarAt(WrittenFile(PositionNames, records), f, i) == if f < 4 then records[i][f] else Zero
    {
      LoadWrittenScalar(PositionNames, records, f, i);
    }
  }

  /** A written file that declares no `f_rest_*` field loads with every harmonic coefficient zero. */
  lemma LoadWrittenNoHarmonics(names: seq<string>, records: seq<seq<Word>>, c: nat)
    requires |records| <= IntMax && AllTokens(names) && Distinct(names) && Uniform(records, |names|) && c < 3
    requires forall m :: 0 <= m < RestCount ==> RestName(m) !in names
    ensures RecordCount(WrittenFile(names, records)) == |records|
    ensures forall k :: 0 <= k < |records| * 15 ==> ShAt(WrittenFile(names, records), c, k) == Zero
  {
    WrittenFileLayout(names, records);
    forall k | 0 <= k < |records| * 15
      ensures ShAt(WrittenFile(names, records), c, k) == Zero
    {
      NoHarmonicAt(names, records, c, k);
    }
  }

  lemma NoHarmonicAt(names: seq<string>, records: seq<seq<Word>>, c: nat, k: nat)
    requires |records| <= IntMax && AllTokens(names) && Distinct(names) && Uniform(records, |names|) && c < 3
    requires forall m :: 0 <= m < RestCount ==> RestName(m) !in names
    requires k < |records| * 15
    ensures k < RecordCount(WrittenFile(names, records)) * 15
    ensures ShAt(WrittenFile(names, records), c, k) == Zero
  {
    var m := (k % 15) * 3 + c;
    assert RestName(m) !in names;
    WrittenFileLayout(names, records);
    WrittenFieldIndex(names, records, RestName(m));
  }

  /** ... and every harmonic coefficient of every record zero. */
  lemma LoadPositionsOnlyHarmonics(records: seq<seq<Word>>, c: nat)
    requires |records| <= IntMax && Uniform(records, 4) && c < 3
    ensures RecordCount(WrittenFile(PositionNames, records)) == |records|
    ensures forall k :: 0 <= k < |records| * 15 ==> ShAt(WrittenFile(PositionNames, records), c, k) == Zero
  {
    PositionNamesWritable();
    forall m | 0 <= m < RestCount ensures RestName(m) !in PositionNames {
      RestNameNotScalar(m);
      assert PositionNames == ScalarNames[..4];
    }
    LoadWrittenNoHarmonics(PositionNames, records, c);
  }
}
