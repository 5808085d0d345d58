/**
 * The record decoder of `loadPly`: the body buffer, `readF`, and the loop
 * that fills the 14 scalar columns and de-interleaves the 45 harmonic
 * coefficients into three channel columns of 15 per record. Field values
 * are opaque 4-byte words; the all-zero word is `0.0f`.
 */
module Decoder {
  import opened Resolver

  import opened Bytes

  /** Four bytes in memory order, as `memcpy` moves them into a `float`. */
  datatype Word = Word(b0: Byte, b1: Byte, b2: Byte, b3: Byte)

  /** The bytes of `0.0f`. */
  const Zero: Word := Word(0, 0, 0, 0)

  function WordBytes(w: Word): seq<Byte> {
    [w.b0, w.b1, w.b2, w.b3]
  }

  lemma WordBytesInjective(v: Word, w: Word)
    requires WordBytes(v) == WordBytes(w)
    ensures v == w
  {
    assert WordBytes(v)[0] == WordBytes(w)[0] && WordBytes(v)[1] == WordBytes(w)[1];
    assert WordBytes(v)[2] == WordBytes(w)[2] && WordBytes(v)[3] == WordBytes(w)[3];
  }

  function WordAt(body: seq<Byte>, off: nat): (w: Word)
    requires off + 4 <= |body|
    ensures WordBytes(w) == body[off..off + 4]
  {
    Word(body[off], body[off + 1], body[off + 2], body[off + 3])
  }

  /** `propCounter * 4`: bytes per record, four per declared property, so exactly fields `0 .. propCounter-1` (and -1) fit. */
  function Stride(propCounter: nat): (s: nat)
    ensures forall p :: FitsRecord(p, s) <==> -1 <= p < propCounter
  {
    propCounter * 4
  }

  /**
   * The buffer `std::vector<char> buffer(size)` after `file.read` of `size`
   * bytes from a stream that has `available` left: zero-initialised, then
   * overwritten with as much as the stream delivers.
   */
  function ZeroFilled(available: seq<Byte>, size: nat): (buf: seq<Byte>)
    ensures |buf| == size
    ensures forall k :: 0 <= k < size ==> buf[k] == if k < |available| then available[k] else 0
  {
    if |available| >= size then available[..size] else available + seq(size - |available|, _ => 0)
  }

  /** Reading exactly as many bytes as the stream holds gives them back unchanged. */
  lemma ZeroFilledExact(data: seq<Byte>)
    ensures ZeroFilled(data, |data|) == data
  {
  }

  /** A field's window `[i*stride + p*4, +4)` lies inside a body of `n` records. */
  lemma WindowInBounds(n: nat, stride: nat, i: nat, p: nat)
    requires i < n && p * 4 + 4 <= stride
    ensures i * stride + p * 4 + 4 <= n * stride
  {
    calc {
      i * stride + p * 4 + 4;
    <=
      i * stride + stride;
    ==
      (i + 1) * stride;
    <= { assert i + 1 <= n; }
      n * stride;
    }
  }

  /** Whether field index `p` is -1 or a field of a record `stride` bytes long. */
  predicate FitsRecord(p: int, stride: nat) {
    -1 <= p && p * 4 + 4 <= stride
  }

  /**
   * `readF(p)` for record `i`: zero for an absent field, else the word whose
   * bytes are the four at `i*stride + p*4`.
   */
  function ReadF(body: seq<Byte>, n: nat, stride: nat, i: nat, p: int): (w: Word)
    requires |body| == n * stride && i < n && FitsRecord(p, stride)
    ensures p == -1 ==> w == Zero
    ensures p != -1 ==> i * stride + p * 4 + 4 <= |body| &&
                        WordBytes(w) == body[i * stride + p * 4..i * stride + p * 4 + 4]
  {
    if p == -1 then Zero
    else
      WindowInBounds(n, stride, i, p);
      WordAt(body, i * stride + p * 4)
  }

  predicate RestFits(rest: seq<int>, stride: nat) {
    |rest| == RestCount && forall m :: 0 <= m < RestCount ==> FitsRecord(rest[m], stride)
  }

  /**
   * Slot `k` of harmonic channel `c` (0 = R, 1 = G, 2 = B): record `k / 15`,
   * coefficient `k % 15`, which the file stores as `f_rest_{3*(k % 15) + c}`.
   */
  function ShCoeff(body: seq<Byte>, n: nat, stride: nat, rest: seq<int>, c: nat, k: nat): (w: Word)
    requires |body| == n * stride && k < n * 15 && c < 3 && RestFits(rest, stride)
    ensures var i, p := k / 15, rest[(k % 15) * 3 + c];
            i < n &&
            (p == -1 ==> w == Zero) &&
            (p != -1 ==> i * stride + p * 4 + 4 <= |body| && WordBytes(w) == body[i * stride + p * 4..i * stride + p * 4 + 4])
  {
    ReadF(body, n, stride, k / 15, rest[(k % 15) * 3 + c])
  }

  /** De-interleave: coefficient `j` of record `i` in channel `c` is `f_rest_{3j+c}` of record `i`. */
  lemma DeinterleaveAt(body: seq<Byte>, n: nat, stride: nat, rest: seq<int>, c: nat, i: nat, j: nat)
    requires |body| == n * stride && c < 3 && RestFits(rest, stride) && i < n && j < 15
    ensures i * 15 + j < n * 15
    ensures ShCoeff(body, n, stride, rest, c, i * 15 + j) == ReadF(body, n, stride, i, rest[3 * j + c])
  {
    var k := i * 15 + j;
    assert k / 15 == i && k % 15 == j;
  }

  /**
   * With `f_rest_0 .. f_rest_44` declared as fields 0 .. 44, channel R of a
   * record reads fields 0, 3, .., 42, channel G fields 1, 4, .., 43 and
   * channel B fields 2, 5, .., 44.
   */
  lemma SequentialRest(body: seq<Byte>, n: nat, stride: nat, rest: seq<int>, c: nat, i: nat)
    requires |body| == n * stride && RestFits(rest, stride) && c < 3 && i < n
    requires forall m :: 0 <= m < RestCount ==> rest[m] == m
    ensures i * 15 + 15 <= n * 15
    ensures forall k :: i * 15 <= k < i * 15 + 15 ==>
              ShCoeff(body, n, stride, rest, c, k) == ReadF(body, n, stride, i, 3 * (k - i * 15) + c)
  {
    forall k | i * 15 <= k < i * 15 + 15
      ensures ShCoeff(body, n, stride, rest, c, k) == ReadF(body, n, stride, i, 3 * (k - i * 15) + c)
    {
      DeinterleaveAt(body, n, stride, rest, c, i, k - i * 15);
    }
  }

  /** The fourteen scalar assignments of one loop iteration: slot `i` of every scalar column. */
  method DecodeScalars(body: seq<Byte>, n: nat, stride: nat, sc: seq<int>, i: nat, scalars: array2<Word>)
    requires |body| == n * stride && i < n
    requires |sc| == ScalarCount && forall f :: 0 <= f < ScalarCount ==> FitsRecord(sc[f], stride)
    requires scalars.Length0 == ScalarCount && scalars.Length1 == n
    modifies scalars
    ensures forall f :: 0 <= f < ScalarCount ==> scalars[f, i] == ReadF(body, n, stride, i, sc[f])
    ensures forall f, i' :: 0 <= f < ScalarCount && 0 <= i' < n && i' != i ==> scalars[f, i'] == old(scalars[f, i'])
  {
    // h_x, h_y, h_z, h_op, h_sx, h_sy, h_sz, h_rw, h_rx, h_ry, h_rz, h_cr, h_cg, h_cb
    forall f | 0 <= f < ScalarCount {
      scalars[f, i] := ReadF(body, n, stride, i, sc[f]);
    }
  }

  /** The inner loop of one iteration: slots `i*15 .. i*15+14` of the three harmonic columns. */
  method DecodeHarmonics(body: seq<Byte>, n: nat, stride: nat, rest: seq<int>, i: nat,
                         shR: array<Word>, shG: array<Word>, shB: array<Word>)
    requires |body| == n * stride && i < n && RestFits(rest, stride)
    requires shR.Length == n * 15 && shG.Length == n * 15 && shB.Length == n * 15
    requires shR != shG && shG != shB && shR != shB
    modifies shR, shG, shB
    ensures forall k :: i * 15 <= k < i * 15 + 15 ==>
              shR[k] == ShCoeff(body, n, stride, rest, 0, k) &&
              shG[k] == ShCoeff(body, n, stride, rest, 1, k) &&
              shB[k] == ShCoeff(body, n, stride, rest, 2, k)
    ensures forall k :: 0 <= k < n * 15 && !(i * 15 <= k < i * 15 + 15) ==>
              shR[k] == old(shR[k]) && shG[k] == old(shG[k]) && shB[k] == old(shB[k])
  {
    for j := 0 to 15
      invariant forall k :: i * 15 <= k < i * 15 + j ==>
                  shR[k] == ShCoeff(body, n, stride, rest, 0, k) &&
                  shG[k] == ShCoeff(body, n, stride, rest, 1, k) &&
                  shB[k] == ShCoeff(body, n, stride, rest, 2, k)
      invariant forall k :: 0 <= k < n * 15 && !(i * 15 <= k < i * 15 + j) ==>
                  shR[k] == old(shR[k]) && shG[k] == old(shG[k]) && shB[k] == old(shB[k])
    {
      DeinterleaveAt(body, n, stride, rest, 0, i, j);
      DeinterleaveAt(body, n, stride, rest, 1, i, j);
      DeinterleaveAt(body, n, stride, rest, 2, i, j);
      shR[i * 15 + j] := ReadF(body, n, stride, i, rest[j * 3 + 0]);
      shG[i * 15 + j] := ReadF(body, n, stride, i, rest[j * 3 + 1]);
      shB[i * 15 + j] := ReadF(body, n, stride, i, rest[j * 3 + 2]);
    }
  }

  /** The decode loop: fills the scalar columns and the three harmonic columns for every record. */
  method DecodeRecords(body: seq<Byte>, n: nat, propCounter: nat, idx: FieldIndices)
    returns (scalars: array2<Word>, shR: array<Word>, shG: array<Word>, shB: array<Word>)
    requires |body| == n * Stride(propCounter)
    requires ValidIndices(idx, propCounter)
    ensures scalars.Length0 == ScalarCount && scalars.Length1 == n
    ensures shR.Length == n * 15 && shG.Length == n * 15 && shB.Length == n * 15
    ensures forall f, i :: 0 <= f < ScalarCount && 0 <= i < n ==>
              scalars[f, i] == ReadF(body, n, Stride(propCounter), i, idx.scalar[f])
    ensures forall k :: 0 <= k < n * 15 ==> shR[k] == ShCoeff(body, n, Stride(propCounter), idx.rest, 0, k)
    ensures forall k :: 0 <= k < n * 15 ==> shG[k] == ShCoeff(body, n, Stride(propCounter), idx.rest, 1, k)
    ensures forall k :: 0 <= k < n * 15 ==> shB[k] == ShCoeff(body, n, Stride(propCounter), idx.rest, 2, k)
    ensures fresh(scalars) && fresh(shR) && fresh(shG) && fresh(shB)
    ensures shR != shG && shG != shB && shR != shB
  {
    var stride := Stride(propCounter);
    var sc, rest := idx.scalar, idx.rest;
    // std::vector<float>(n) value-initialises, the harmonic columns are filled with 0.f
    scalars := new Word[ScalarCount, n]((_, _) => Zero);
    shR := new Word[n * 15](_ => Zero);
    shG := new Word[n * 15](_ => Zero);
    shB := new Word[n * 15](_ => Zero);
    for i := 0 to n
      invariant forall f, i' :: 0 <= f < ScalarCount && 0 <= i' < i ==> scalars[f, i'] == ReadF(body, n, stride, i', sc[f])
      invariant forall f, i' :: 0 <= f < ScalarCount && i <= i' < n ==> scalars[f, i'] == Zero
      invariant forall k :: 0 <= k < i * 15 ==>
                  shR[k] == ShCoeff(body, n, stride, rest, 0, k) &&
                  shG[k] == ShCoeff(body, n, stride, rest, 1, k) &&
                  shB[k] == ShCoeff(body, n, stride, rest, 2, k)
      invariant forall k :: i * 15 <= k < n * 15 ==> shR[k] == Zero && shG[k] == Zero && shB[k] == Zero
    {
      DecodeScalars(body, n, stride, sc, i, scalars);
      DecodeHarmonics(body, n, stride, rest, i, shR, shG, shB);
    }
  }

  // ---- the writer's side: records encoded field by field ----

  function EncodeRecord(fields: seq<Word>): (bytes: seq<Byte>)
    ensures |bytes| == 4 * |fields|
  {
    if fields == [] then [] else WordBytes(fields[0]) + EncodeRecord(fields[1..])
  }

  function EncodeBody(records: seq<seq<Word>>): seq<Byte> {
    if records == [] then [] else EncodeRecord(records[0]) + EncodeBody(records[1..])
  }

  predicate Uniform(records: seq<seq<Word>>, m: nat) {
    forall i :: 0 <= i < |records| ==> |records[i]| == m
  }

  lemma {:induction false} EncodeRecordAt(fields: seq<Word>, p: nat)
    requires p < |fields|
    ensures EncodeRecord(fields)[p * 4..p * 4 + 4] == WordBytes(fields[p])
  {
    if p > 0 {
      EncodeRecordAt(fields[1..], p - 1);
      var e := EncodeRecord(fields);
      assert e == WordBytes(fields[0]) + EncodeRecord(fields[1..]);
      assert e[p * 4..p * 4 + 4] == EncodeRecord(fields[1..])[(p - 1) * 4..(p - 1) * 4 + 4];
    }
  }

  lemma SliceAfterPrefix(x: seq<Byte>, y: seq<Byte>, a: nat, b: nat)
    requires a <= b <= |y|
    ensures (x + y)[|x| + a..|x| + b] == y[a..b]
  {
  }

  /** `len` bytes at `a` in a window `r` of `s` bytes found at `base` in `e` are the bytes at `base + a` in `e`. */
  lemma SubWindow(e: seq<Byte>, base: nat, s: nat, r: seq<Byte>, a: nat, len: nat)
    requires s == |r| && base + s <= |e| && e[base..base + s] == r && a + len <= s
    ensures base + a + len <= |e| && e[base + a..base + a + len] == r[a..a + len]
  {
    var w := e[base + a..base + a + len];
    forall k | 0 <= k < len ensures w[k] == r[a..a + len][k] {
      assert w[k] == e[base..base + s][a + k];
    }
  }

  lemma MulMonotone(a: nat, b: nat, s: nat)
    requires a <= b
    ensures a * s <= b * s
  {
  }

  lemma MulSucc(i: nat, s: nat)
    ensures i * s + s == (i + 1) * s
  {
  }

  lemma UniformTail(records: seq<seq<Word>>, m: nat)
    requires Uniform(records, m) && records != []
    ensures Uniform(records[1..], m)
  {
    forall k | 0 <= k < |records| - 1 ensures |records[1..][k]| == m {
      assert records[1..][k] == records[k + 1];
    }
  }

  lemma {:induction false} EncodeBodyLength(records: seq<seq<Word>>, m: nat)
    requires Uniform(records, m)
    ensures |EncodeBody(records)| == |records| * Stride(m)
  {
    if records != [] {
      UniformTail(records, m);
      EncodeBodyLength(records[1..], m);
      MulSucc(|records| - 1, Stride(m));
    }
  }

  /** Where the `i`-th record of `s` bytes each starts, counted record by record. */
  function Offset(i: nat, s: nat): nat {
    if i == 0 then 0 else s + Offset(i - 1, s)
  }

  lemma {:induction false} OffsetIsProduct(i: nat, s: nat)
    ensures Offset(i, s) == i * s
  {
    if i > 0 {
      OffsetIsProduct(i - 1, s);
      MulSucc(i - 1, s);
    }
  }

  lemma {:induction false} EncodeBodySlice(records: seq<seq<Word>>, m: nat, i: nat)
    requires Uniform(records, m) && i < |records|
    ensures Offset(i, Stride(m)) + Stride(m) <= |EncodeBody(records)|
    ensures EncodeBody(records)[Offset(i, Stride(m))..Offset(i, Stride(m)) + Stride(m)] == EncodeRecord(records[i])
  {
    var s := Stride(m);
    var head, tail := EncodeRecord(records[0]), EncodeBody(records[1..]);
    assert EncodeBody(records) == head + tail;
    assert |head| == s;
    if i == 0 {
      assert (head + tail)[0..s] == head;
    } else {
      UniformTail(records, m);
      EncodeBodySlice(records[1..], m, i - 1);
      assert records[1..][i - 1] == records[i];
      var lo := Offset(i - 1, s);
      SliceAfterPrefix(head, tail, lo, lo + s);
    }
  }

  /** The `i`-th record occupies bytes `[i * stride, (i + 1) * stride)` of the encoded body. */
  lemma EncodeBodyAt(records: seq<seq<Word>>, m: nat, i: nat)
    requires Uniform(records, m) && i < |records|
    ensures i * Stride(m) + Stride(m) <= |EncodeBody(records)| &&
            EncodeBody(records)[i * Stride(m)..i * Stride(m) + Stride(m)] == EncodeRecord(records[i])
  {
    EncodeBodySlice(records, m, i);
    OffsetIsProduct(i, Stride(m));
  }

  /** Round trip: decoding a body written record by record gives back every written field. */
  lemma DecodeEncoded(records: seq<seq<Word>>, m: nat, i: nat, p: nat)
    requires Uniform(records, m) && i < |records| && p < m
    ensures |EncodeBody(records)| == |records| * Stride(m)
    ensures ReadF(EncodeBody(records), |records|, Stride(m), i, p) == records[i][p]
  {
    var e := EncodeBody(records);
    EncodeBodyLength(records, m);
    EncodeBodyAt(records, m, i);
    MulMonotone(0, i, Stride(m));
    WordInRecord(e, i * Stride(m), Stride(m), records[i], p);
    WordBytesInjective(ReadF(e, |records|, Stride(m), i, p), records[i][p]);
  }

  /** Field `p` of a record encoded in the `s` bytes at `base` occupies bytes `[base + p*4, +4)`. */
  lemma WordInRecord(e: seq<Byte>, base: nat, s: nat, rec: seq<Word>, p: nat)
    requires p < |rec| && s == |EncodeRecord(rec)| && base + s <= |e| && e[base..base + s] == EncodeRecord(rec)
    ensures base + p * 4 + 4 <= |e| && e[base + p * 4..base + p * 4 + 4] == WordBytes(rec[p])
  {
    EncodeRecordAt(rec, p);
    SubWindow(e, base, s, EncodeRecord(rec), p * 4, 4);
  }
}
