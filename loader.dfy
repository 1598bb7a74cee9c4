/// The format sniffer and dispatch, `parse_stream` (stlloader.h:205-223) and
/// its copy `parse_file(std::istream&)` (main.cpp:176-194).
module Loader {
  import opened Bytes
  import opened Results
  import opened Text
  import opened Geometry
  import opened Streams
  import opened AsciiSpec
  import opened BinaryLayout
  import opened AsciiParser
  import opened BinaryParser

  /// The sniff test on the bytes `is.read(header_start, 5)` delivered: the
  /// 6-byte buffer starts zero-filled, gets those bytes and a NUL at index 5,
  /// and is compared as a C string with "solid". The test is exactly "the
  /// bytes read are `solid`": no shorter read passes it, and no byte of the
  /// five is ignored.
  function SniffsAscii(head: seq<byte>): (ascii: bool)
    requires |head| <= 5
    ensures ascii <==> head == SOLID
  {
    var buf := head + Zeros(6 - |head|);
    assert buf[|head|] == NUL;
    CutAtNul(buf) == SOLID
  }

  /// The mesh an ASCII parse of `whole` leaves, starting from mesh `m`.
  /// It keeps the header and only appends triangles.
  function AsciiParse(whole: seq<byte>, m: MeshValue): (r: Result<MeshValue>)
    requires AllTriangles(m.facets)
    ensures r.Success? ==>
              r.value.header == m.header && m.facets <= r.value.facets && AllTriangles(r.value.facets)
  {
    match FileSpec(Lines(whole), [], m.name, m.facets)
    case Success(a) => Success(MeshValue(a.facets, a.name, m.header))
    case Failure(e) => Failure(e)
  }

  /// The mesh a binary parse of `whole` leaves, starting from mesh `m`.
  /// It keeps the name, only appends triangles, and fails only on input
  /// too short for what it announces.
  function BinaryParse(whole: seq<byte>, m: MeshValue): (r: Result<MeshValue>)
    requires AllTriangles(m.facets)
    ensures r.Success? ==>
              r.value.name == m.name && m.facets <= r.value.facets && AllTriangles(r.value.facets)
    ensures r.Failure? ==> r.error == Truncated
  {
    match BinaryFile(whole)
    case Success(b) => Success(MeshValue(m.facets + b.facets, m.name, b.header))
    case Failure(e) => Failure(e)
  }

  /// The choice `parse_stream` makes once it has sniffed `head` and rewound
  /// to a stream whose remaining bytes are `whole`.
  /// Either way the facets already in the mesh stay in front; a syntax
  /// error can only come from the ASCII side.
  function Dispatch(head: seq<byte>, whole: seq<byte>, m: MeshValue): (r: Result<MeshValue>)
    requires |head| <= 5 && AllTriangles(m.facets)
    ensures r.Success? ==> m.facets <= r.value.facets && AllTriangles(r.value.facets)
    ensures head != SOLID && r.Failure? ==> r.error == Truncated
  {
    if SniffsAscii(head) then AsciiParse(whole, m) else BinaryParse(whole, m)
  }

  /// `parse_stream` on a freshly opened stream over `data`: a short sniff
  /// read leaves the stream failed, so the rewind is refused and the chosen
  /// parser sees no bytes: input shorter than five bytes is always
  /// rejected as truncated.
  function Parse(data: seq<byte>, m: MeshValue): (r: Result<MeshValue>)
    requires AllTriangles(m.facets)
    ensures r.Success? ==> m.facets <= r.value.facets && AllTriangles(r.value.facets)
    ensures |data| < 5 ==> r == Failure(Truncated)
  {
    if |data| < 5 then Dispatch(data, [], m) else Dispatch(data[..5], data, m)
  }

  /// `parse_stream(is, mesh)`: reads 5 bytes, rewinds to offset 0 and hands
  /// the whole stream to the ASCII parser when those bytes are "solid", to
  /// the binary parser otherwise.
  method ParseStream(s: Stream, mesh: Mesh) returns (st: Status)
    requires s.Valid() && mesh.Valid()
    modifies s, mesh
    ensures s.Valid() && mesh.Valid()
    ensures var rest := old(s.Rest());
            var head := if |rest| < 5 then rest else rest[..5];
            var whole := if |rest| < 5 then [] else s.data;
            match Dispatch(head, whole, old(mesh.Value()))
            case Success(m) => st == Done && mesh.Value() == m
            case Failure(e) => st == Rejected(e)
    ensures old(s.pos) == 0 && !old(s.failed) ==>
              match Parse(s.data, old(mesh.Value()))
              case Success(m) => st == Done && mesh.Value() == m
              case Failure(e) => st == Rejected(e)
  {
    // Sniff the first five bytes, then go back to offset 0 for the parser.
    var headerStart := s.Read(5);
    s.Rewind();
    assert |headerStart| == 5 ==> s.Rest() == s.data;
    // The `solid` keyword marks a text file; any other opening is taken as binary.
    var isAscii := SniffsAscii(headerStart);
    if isAscii {
      st := ParseAsciiFile(s, mesh);
    } else {
      st := ParseBinaryFile(s, mesh);
    }
  }

  /// Input is routed to the ASCII parser exactly when its first five bytes
  /// are `solid`, and the parser then reads it from offset 0. Everything
  /// else goes to the binary parser. Input of five bytes or more is read
  /// from offset 0 too. Shorter input sets the failbit, so the rewind is
  /// refused and the binary parser reads nothing: it fails as `Truncated`.
  lemma ParseRoutes(data: seq<byte>, m: MeshValue)
    requires AllTriangles(m.facets)
    ensures Parse(data, m) ==
            if |data| >= 5 && data[..5] == SOLID then AsciiParse(data, m) else BinaryParse(data, m)
  {
    if |data| < 5 {
      assert |data| != |SOLID|;
    }
  }
}
