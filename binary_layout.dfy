/// The binary STL layout `parse_binary_file` reads (stlloader.h:152-203,
/// main.cpp:123-174): an 80-byte header, a 4-byte unsigned triangle count,
/// then that many 50-byte records. The source reads integers in host byte
/// order; the model takes that order to be little-endian, as binary STL is.
module BinaryLayout {
  import opened Bytes
  import opened Results
  import opened Geometry

  /// `STL_BINARY_HDR_SIZE`
  const HEADER_SIZE: nat := 80
  /// Offset of the first record: the header and the uint32_t count.
  const RECORDS_START: nat := 84
  /// A normal and three vertices of three floats each, and a uint16_t.
  const RECORD_SIZE: nat := 50

  /// A `uint32_t` read from four bytes, least significant first: the bytes
  /// are its base-256 digits.
  function Uint32LE(b: seq<byte>): (v: nat)
    requires |b| == 4
    ensures v < 0x1_0000_0000
    ensures v % 0x100 == b[0] as nat && v / 0x100 % 0x100 == b[1] as nat
    ensures v / 0x1_0000 % 0x100 == b[2] as nat && v / 0x100_0000 == b[3] as nat
  {
    var b0, b1, b2, b3 := b[0] as nat, b[1] as nat, b[2] as nat, b[3] as nat;
    var high2 := b2 + 0x100 * b3;
    var high3 := b1 + 0x100 * high2;
    DivMod(b0, high3, 0x100);
    DivMod(b1, high2, 0x100);
    DivMod(b0 + 0x100 * b1, high2, 0x1_0000);
    DivMod(b2, b3, 0x100);
    DivMod(b0 + 0x100 * b1 + 0x1_0000 * b2, b3, 0x100_0000);
    b0 + 0x100 * high3
  }

  /// Division by `d` recovers the quotient and remainder a number was built
  /// from.
  lemma DivMod(r: nat, q: nat, d: nat)
    requires r < d
    ensures (r + d * q) / d == q && (r + d * q) % d == r
  {
    var x := r + d * q;
    var k, m := x / d, x % d;
    assert d * k + m == d * q + r;
    MulAtLeast(d, k - q);
    MulAtLeast(d, q - k);
    assert d * (k - q) == d * k - d * q;
    assert d * (q - k) == d * q - d * k;
  }

  /// A positive multiple of `d` is at least `d`.
  lemma MulAtLeast(d: nat, m: int)
    ensures m >= 1 ==> d * m >= d
  {
  }

  /// The bytes a coordinate decoded from a binary record came from; a
  /// coordinate read from text has none.
  function Raw(c: Float32): seq<byte> {
    if c.Bits? then c.raw else []
  }

  /// A coordinate read from exactly four bytes.
  predicate IsBinary32(c: Float32) {
    c.Bits? && |c.raw| == 4
  }

  predicate BinaryVertex(v: Vertex) {
    IsBinary32(v.x) && IsBinary32(v.y) && IsBinary32(v.z)
  }

  predicate BinaryNormal(n: Normal) {
    IsBinary32(n.x) && IsBinary32(n.y) && IsBinary32(n.z)
  }

  /// The bytes a vertex or normal was decoded from: x, then y, then z.
  function VertexRaw(v: Vertex): seq<byte> {
    Raw(v.x) + Raw(v.y) + Raw(v.z)
  }

  function NormalRaw(n: Normal): seq<byte> {
    Raw(n.x) + Raw(n.y) + Raw(n.z)
  }

  /// The 48 float bytes of a record the facet was decoded from.
  function FacetRaw(f: Facet): seq<byte>
    requires f.Valid()
  {
    NormalRaw(f.normal) + VertexRaw(f.vertices[0]) + VertexRaw(f.vertices[1]) + VertexRaw(f.vertices[2])
  }

  /// `read_binary_value<Vertex>`: x, y, z as three consecutive floats.
  function DecodeVertex(b: seq<byte>): Vertex
    requires |b| == 12
  {
    Vertex(Bits(b[..4]), Bits(b[4..8]), Bits(b[8..]))
  }

  /// `read_binary_value<Normal>`: x, y, z as three consecutive floats.
  function DecodeNormal(b: seq<byte>): Normal
    requires |b| == 12
  {
    Normal(Bits(b[..4]), Bits(b[4..8]), Bits(b[8..]))
  }

  /// Vertex `j` of a record: the 12 bytes after the normal and the `j`
  /// vertices before it.
  function RecordVertex(rec: seq<byte>, j: nat): Vertex
    requires |rec| == RECORD_SIZE && j < 3
  {
    DecodeVertex(rec[12 + 12 * j..24 + 12 * j])
  }

  /// One record: the normal, vertices 0 to 2, then a 2-byte attribute byte
  /// count that is read and dropped.
  function DecodeRecord(rec: seq<byte>): (r: Facet)
    requires |rec| == RECORD_SIZE
    ensures r.Valid()
  {
    Facet([RecordVertex(rec, 0), RecordVertex(rec, 1), RecordVertex(rec, 2)], DecodeNormal(rec[..12]))
  }

  /// Bytes a file with `count` records occupies.
  function FileSize(count: nat): nat {
    RECORDS_START + RECORD_SIZE * count
  }

  /// The first `count` records of `body`, in file order.
  function Records(body: seq<byte>, count: nat): (r: seq<Facet>)
    requires RECORD_SIZE * count <= |body|
    ensures |r| == count && AllTriangles(r)
  {
    seq(count, i requires 0 <= i < count => DecodeRecord(body[RECORD_SIZE * i..RECORD_SIZE * (i + 1)]))
  }

  /// What a binary file sets in the mesh: its header and the facets to append.
  datatype BinaryMesh = BinaryMesh(header: seq<byte>, facets: seq<Facet>)

  /// The triangle count a binary file announces.
  function Count(input: seq<byte>): (n: nat)
    requires |input| >= RECORDS_START
    ensures n < 0x1_0000_0000
  {
    Uint32LE(input[HEADER_SIZE..RECORDS_START])
  }

  /// `parse_binary_file` on the bytes from the stream's position: the header
  /// cut at its first NUL, then `count` records. The source never checks
  /// its reads; input too short for the header, the count or the records
  /// is rejected here.
  function BinaryFile(input: seq<byte>): (r: Result<BinaryMesh>)
    ensures r.Failure? ==> r.error == Truncated
  {
    if |input| < RECORDS_START || |input| < FileSize(Count(input)) then Failure(Truncated)
    else Success(BinaryMesh(CutAtNul(input[..HEADER_SIZE]), Records(input[RECORDS_START..], Count(input))))
  }
}
