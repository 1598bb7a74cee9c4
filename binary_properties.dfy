/// What the binary layout of stlloader.h:152-203 (main.cpp:123-174)
/// promises: which inputs are accepted, where each field of each record
/// sits, and that bytes past the last record play no part.
module BinaryProperties {
  import opened Bytes
  import opened Results
  import opened Geometry
  import opened BinaryLayout

  /// A binary file is accepted exactly when it holds the header, the count
  /// and as many records as the count announces; the mesh then gets one
  /// facet per record and the header up to its first NUL.
  lemma BinaryAcceptance(input: seq<byte>)
    ensures BinaryFile(input).Success? <==>
            RECORDS_START <= |input| && FileSize(Count(input)) <= |input|
    ensures BinaryFile(input).Success? ==>
              var b := BinaryFile(input).value;
              |b.facets| == Count(input) && AllTriangles(b.facets) &&
              |b.header| <= HEADER_SIZE && b.header == input[..|b.header|] && NUL !in b.header &&
              (|b.header| < HEADER_SIZE ==> input[|b.header|] == NUL)
  {
  }

  /// Record `i` sits at offset 84 + 50 i: its normal's x, y, z are the
  /// 4-byte floats at +0, +4, +8, and vertex j's at +12 + 12 j, +16 + 12 j,
  /// +20 + 12 j.
  lemma RecordFields(input: seq<byte>, i: nat, j: nat)
    requires BinaryFile(input).Success? && i < Count(input) && j < 3
    ensures var o := RECORDS_START + RECORD_SIZE * i;
            var f := BinaryFile(input).value.facets[i];
            var p := o + 12 + 12 * j;
            f.normal == Normal(Bits(input[o..o + 4]), Bits(input[o + 4..o + 8]), Bits(input[o + 8..o + 12])) &&
            f.vertices[j] == Vertex(Bits(input[p..p + 4]), Bits(input[p + 4..p + 8]), Bits(input[p + 8..p + 12]))
  {
    var o := RECORDS_START + RECORD_SIZE * i;
    RecordAt(input, i);
    var rec := input[o..o + RECORD_SIZE];
    var p := 12 + 12 * j;
    SliceOfSlice(input, o, o + RECORD_SIZE, 0, 12);
    SliceOfSlice(input, o, o + RECORD_SIZE, p, p + 12);
    assert rec[..12] == rec[0..12];
    assert DecodeRecord(rec).vertices[j] == DecodeVertex(rec[p..p + 12]) by {
      if j == 0 {} else if j == 1 {} else {}
    }
    var f := BinaryFile(input).value.facets[i];
    assert f.normal == DecodeNormal(input[o..o + 12]);
    assert f.vertices[j] == DecodeVertex(input[o + p..o + p + 12]);
    NormalAt(input, o);
    VertexAt(input, o + p);
  }

  /// The normal decoded from the 12 bytes at offset q.
  lemma NormalAt(input: seq<byte>, q: nat)
    requires q + 12 <= |input|
    ensures DecodeNormal(input[q..q + 12]) ==
            Normal(Bits(input[q..q + 4]), Bits(input[q + 4..q + 8]), Bits(input[q + 8..q + 12]))
  {
    SliceOfSlice(input, q, q + 12, 0, 4);
    SliceOfSlice(input, q, q + 12, 4, 8);
    SliceOfSlice(input, q, q + 12, 8, 12);
    assert input[q..q + 12][8..] == input[q..q + 12][8..12];
  }

  /// The vertex decoded from the 12 bytes at offset q.
  lemma VertexAt(input: seq<byte>, q: nat)
    requires q + 12 <= |input|
    ensures DecodeVertex(input[q..q + 12]) ==
            Vertex(Bits(input[q..q + 4]), Bits(input[q + 4..q + 8]), Bits(input[q + 8..q + 12]))
  {
    SliceOfSlice(input, q, q + 12, 0, 4);
    SliceOfSlice(input, q, q + 12, 4, 8);
    SliceOfSlice(input, q, q + 12, 8, 12);
    assert input[q..q + 12][8..] == input[q..q + 12][8..12];
  }

  /// Record `i` of an accepted file is the 50 bytes at offset 84 + 50 i,
  /// decoded.
  lemma RecordAt(input: seq<byte>, i: nat)
    requires BinaryFile(input).Success? && i < Count(input)
    ensures var o := RECORDS_START + RECORD_SIZE * i;
            o + RECORD_SIZE <= |input| &&
            BinaryFile(input).value.facets[i] == DecodeRecord(input[o..o + RECORD_SIZE])
  {
    var n := Count(input);
    assert RECORD_SIZE * (i + 1) <= RECORD_SIZE * n;
    var body := input[RECORDS_START..];
    SliceOfSlice(input, RECORDS_START, |input|, RECORD_SIZE * i, RECORD_SIZE * (i + 1));
    assert body == input[RECORDS_START..|input|];
  }

  /// A slice of a slice is a slice of the original.
  lemma SliceOfSlice(s: seq<byte>, a: nat, b: nat, c: nat, d: nat)
    requires a <= b <= |s| && c <= d <= b - a
    ensures s[a..b][c..d] == s[a + c..a + d]
  {
    forall k | 0 <= k < d - c
      ensures s[a..b][c..d][k] == s[a + c..a + d][k]
    {
      assert s[a..b][c..d][k] == s[a..b][c + k];
    }
  }

  /// Bytes after the last record are never read: appending any bytes to an
  /// accepted file changes nothing in what it yields.
  lemma TrailingBytesIgnored(input: seq<byte>, more: seq<byte>)
    requires BinaryFile(input).Success?
    ensures BinaryFile(input + more) == BinaryFile(input)
  {
    var whole := input + more;
    assert whole[..HEADER_SIZE] == input[..HEADER_SIZE];
    assert whole[HEADER_SIZE..RECORDS_START] == input[HEADER_SIZE..RECORDS_START];
    var n := Count(input);
    var b1, b2 := input[RECORDS_START..], whole[RECORDS_START..];
    assert b2 == b1 + more;
    forall i | 0 <= i < n
      ensures b2[RECORD_SIZE * i..RECORD_SIZE * (i + 1)] == b1[RECORD_SIZE * i..RECORD_SIZE * (i + 1)]
    {
      assert RECORD_SIZE * (i + 1) <= RECORD_SIZE * n <= |b1|;
      SliceOfSlice(b2, 0, |b1|, RECORD_SIZE * i, RECORD_SIZE * (i + 1));
      assert b2[0..|b1|] == b1;
    }
    assert Records(b2, n) == Records(b1, n);
  }

  /// A file announcing no triangles is accepted from 84 bytes on and adds
  /// no facet.
  lemma NoRecords(input: seq<byte>)
    requires RECORDS_START <= |input| && Count(input) == 0
    ensures BinaryFile(input) == Success(BinaryMesh(CutAtNul(input[..HEADER_SIZE]), []))
  {
    assert Records(input[RECORDS_START..], 0) == [];
  }

  /// Eighty-four zero bytes: an empty header and a count of zero.
  lemma AllZeroFile()
    ensures BinaryFile(Zeros(RECORDS_START)) == Success(BinaryMesh([], []))
  {
    var z := Zeros(RECORDS_START);
    assert z[..HEADER_SIZE][0] == NUL;
    assert z[HEADER_SIZE..RECORDS_START] == [NUL, NUL, NUL, NUL];
    assert Count(z) == 0;
    NoRecords(z);
  }

  /// A vertex keeps all 12 bytes it is decoded from, in order, four per
  /// coordinate.
  lemma VertexKeepsBytes(b: seq<byte>)
    requires |b| == 12
    ensures BinaryVertex(DecodeVertex(b)) && VertexRaw(DecodeVertex(b)) == b
  {
    assert b == b[..4] + b[4..8] + b[8..];
  }

  /// A normal keeps all 12 bytes it is decoded from, in order, four per
  /// coordinate.
  lemma NormalKeepsBytes(b: seq<byte>)
    requires |b| == 12
    ensures BinaryNormal(DecodeNormal(b)) && NormalRaw(DecodeNormal(b)) == b
  {
    assert b == b[..4] + b[4..8] + b[8..];
  }

  /// A record keeps its first 48 bytes, in order: normal x, y, z, then
  /// vertices 0, 1, 2, four bytes per coordinate; the last two bytes play no
  /// part.
  lemma RecordKeepsBytes(rec: seq<byte>)
    requires |rec| == RECORD_SIZE
    ensures var f := DecodeRecord(rec);
            BinaryNormal(f.normal) && forall j :: 0 <= j < 3 ==> BinaryVertex(f.vertices[j])
    ensures FacetRaw(DecodeRecord(rec)) == rec[..48]
  {
    NormalKeepsBytes(rec[..12]);
    VertexKeepsBytes(rec[12..24]);
    VertexKeepsBytes(rec[24..36]);
    VertexKeepsBytes(rec[36..48]);
    var f := DecodeRecord(rec);
    assert f.vertices[0] == DecodeVertex(rec[12..24]);
    assert f.vertices[1] == DecodeVertex(rec[24..36]);
    assert f.vertices[2] == DecodeVertex(rec[36..48]);
    assert rec[..48] == rec[..12] + rec[12..24] + rec[24..36] + rec[36..48];
  }

  /// Decoding a vertex's own bytes gives the vertex back.
  lemma VertexRoundTrip(v: Vertex)
    requires BinaryVertex(v)
    ensures DecodeVertex(VertexRaw(v)) == v
  {
    var b := VertexRaw(v);
    assert b[..4] == v.x.raw && b[4..8] == v.y.raw && b[8..] == v.z.raw;
  }

  /// Decoding a normal's own bytes gives the normal back.
  lemma NormalRoundTrip(n: Normal)
    requires BinaryNormal(n)
    ensures DecodeNormal(NormalRaw(n)) == n
  {
    var b := NormalRaw(n);
    assert b[..4] == n.x.raw && b[4..8] == n.y.raw && b[8..] == n.z.raw;
  }

  /// A triangle whose coordinates are 4-byte floats, written as its 48
  /// float bytes and any two attribute bytes, is decoded back to itself.
  lemma RecordRoundTrip(f: Facet, attr: seq<byte>)
    requires f.Valid() && BinaryNormal(f.normal) && |attr| == 2
    requires BinaryVertex(f.vertices[0]) && BinaryVertex(f.vertices[1]) && BinaryVertex(f.vertices[2])
    ensures DecodeRecord(FacetRaw(f) + attr) == f
  {
    var rec := FacetRaw(f) + attr;
    var n, v0, v1, v2 := NormalRaw(f.normal), VertexRaw(f.vertices[0]), VertexRaw(f.vertices[1]), VertexRaw(f.vertices[2]);
    assert rec == n + v0 + v1 + v2 + attr;
    assert rec[..12] == n;
    assert rec[12..24] == v0;
    assert rec[24..36] == v1;
    assert rec[36..48] == v2;
    NormalRoundTrip(f.normal);
    VertexRoundTrip(f.vertices[0]);
    VertexRoundTrip(f.vertices[1]);
    VertexRoundTrip(f.vertices[2]);
    assert DecodeRecord(rec).vertices == f.vertices;
  }
}
