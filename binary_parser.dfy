/// The binary parser: the `read_binary_value` specialisations and
/// `parse_binary_file` (stlloader.h:152-203, main.cpp:123-174), reading
/// fixed-size fields one after another from the shared stream.
module BinaryParser {
  import opened Bytes
  import opened Results
  import opened Geometry
  import opened Streams
  import opened BinaryLayout

  /// `read_binary_value<uint16_t>`; None when fewer than 2 bytes are left.
  method ReadUint16(s: Stream) returns (v: Option<nat>)
    requires s.Valid()
    modifies s
    ensures s.Valid()
    ensures var rest := old(s.Rest());
            if |rest| >= 2 then v == Some(rest[0] as nat + 0x100 * rest[1] as nat) && s.Rest() == rest[2..]
            else v == None && s.failed
  {
    var b := s.Read(2);
    v := if |b| == 2 then Some(b[0] as nat + 0x100 * b[1] as nat) else None;
  }

  /// `read_binary_value<uint32_t>`; None when fewer than 4 bytes are left.
  method ReadUint32(s: Stream) returns (v: Option<nat>)
    requires s.Valid()
    modifies s
    ensures s.Valid()
    ensures var rest := old(s.Rest());
            if |rest| >= 4 then v == Some(Uint32LE(rest[..4])) && s.Rest() == rest[4..]
            else v == None && s.failed
  {
    var b := s.Read(4);
    v := if |b| == 4 then Some(Uint32LE(b)) else None;
  }

  /// `read_binary_value<float>`; None when fewer than 4 bytes are left.
  method ReadFloat(s: Stream) returns (v: Option<Float32>)
    requires s.Valid()
    modifies s
    ensures s.Valid()
    ensures var rest := old(s.Rest());
            if |rest| >= 4 then v == Some(Bits(rest[..4])) && s.Rest() == rest[4..]
            else v == None && s.failed
  {
    var b := s.Read(4);
    v := if |b| == 4 then Some(Bits(b)) else None;
  }

  /// Three floats x, y, z; None when fewer than 12 bytes are left.
  method ReadTriple(s: Stream) returns (v: Option<(Float32, Float32, Float32)>)
    requires s.Valid()
    modifies s
    ensures s.Valid()
    ensures var rest := old(s.Rest());
            if |rest| >= 12
            then var b := rest[..12];
                 v == Some((Bits(b[..4]), Bits(b[4..8]), Bits(b[8..]))) && s.Rest() == rest[12..]
            else v == None && s.failed
  {
    ghost var rest := s.Rest();
    var x := ReadFloat(s);
    var y := ReadFloat(s);
    var z := ReadFloat(s);
    if x.Some? && y.Some? && z.Some? {
      ghost var b := rest[..12];
      assert b[..4] == rest[..4] && b[4..8] == rest[4..][..4] && b[8..] == rest[8..][..4];
      v := Some((x.value, y.value, z.value));
    } else {
      v := None;
    }
  }

  /// `read_binary_value<Normal>`
  method ReadNormal(s: Stream) returns (n: Option<Normal>)
    requires s.Valid()
    modifies s
    ensures s.Valid()
    ensures var rest := old(s.Rest());
            if |rest| >= 12 then n == Some(DecodeNormal(rest[..12])) && s.Rest() == rest[12..]
            else n == None && s.failed
  {
    var t := ReadTriple(s);
    n := if t.Some? then Some(Normal(t.value.0, t.value.1, t.value.2)) else None;
  }

  /// `read_binary_value<Vertex>`
  method ReadVertex(s: Stream) returns (v: Option<Vertex>)
    requires s.Valid()
    modifies s
    ensures s.Valid()
    ensures var rest := old(s.Rest());
            if |rest| >= 12 then v == Some(DecodeVertex(rest[..12])) && s.Rest() == rest[12..]
            else v == None && s.failed
  {
    var t := ReadTriple(s);
    v := if t.Some? then Some(Vertex(t.value.0, t.value.1, t.value.2)) else None;
  }

  /// The body of the record loop of `parse_binary_file`: the normal, the
  /// three vertices, and the attribute byte count, which is dropped.
  method ReadRecord(s: Stream) returns (f: Option<Facet>)
    requires s.Valid()
    modifies s
    ensures s.Valid()
    ensures var rest := old(s.Rest());
            if |rest| >= RECORD_SIZE
            then f == Some(DecodeRecord(rest[..RECORD_SIZE])) && s.Rest() == rest[RECORD_SIZE..]
            else f == None
  {
    ghost var rest := s.Rest();
    var facet := ZeroFacet;
    var n := ReadNormal(s);
    if n.None? {
      return None;
    }
    facet := facet.(normal := n.value);
    var vs := ReadVertices(s, facet);
    if vs.None? {
      return None;
    }
    facet := vs.value;
    // the two-byte attribute count is read and then dropped
    var attribByteCount := ReadUint16(s);
    if attribByteCount.None? {
      return None;
    }
    assert facet == DecodeRecord(rest[..RECORD_SIZE]) by {
      RecordDecoded(rest, facet);
    }
    return Some(facet);
  }

  /// The `for` loop over a record's three vertices: each read in turn into
  /// its slot of `facet`.
  method ReadVertices(s: Stream, facet: Facet) returns (r: Option<Facet>)
    requires s.Valid() && facet.Valid()
    modifies s
    ensures s.Valid()
    ensures var rest := old(s.Rest());
            if |rest| >= 36
            then r == Some(facet.(vertices := [DecodeVertex(rest[..12]), DecodeVertex(rest[12..24]),
                                               DecodeVertex(rest[24..36])])) &&
                 s.Rest() == rest[36..]
            else r == None
  {
    ghost var rest := s.Rest();
    var f := facet;
    for vi := 0 to 3
      invariant f.Valid() && f.normal == facet.normal
      invariant s.Valid() && 12 * vi <= |rest|
      invariant s.Rest() == rest[12 * vi..]
      invariant forall j :: 0 <= j < vi ==> f.vertices[j] == DecodeVertex(rest[12 * j..12 * j + 12])
    {
      ghost var here := s.Rest();
      var v := ReadVertex(s);
      if v.None? {
        return None;
      }
      assert v.value == DecodeVertex(rest[12 * vi..12 * vi + 12]) by {
        assert here[..12] == rest[12 * vi..12 * vi + 12];
      }
      f := f.(vertices := f.vertices[vi := v.value]);
    }
    assert f.vertices == [f.vertices[0], f.vertices[1], f.vertices[2]];
    return Some(f);
  }

  /// `parse_binary_file(is, mesh)`: sets the header, then appends one facet
  /// per record, in record order, reading exactly the bytes the layout gives.
  method ParseBinaryFile(s: Stream, mesh: Mesh) returns (st: Status)
    requires s.Valid() && mesh.Valid()
    modifies s, mesh`facets, mesh`header
    ensures s.Valid() && mesh.Valid()
    ensures match BinaryFile(old(s.Rest()))
            case Success(b) =>
              st == Done && mesh.header == b.header && mesh.facets == old(mesh.facets) + b.facets &&
              s.Rest() == old(s.Rest())[FileSize(|b.facets|)..]
            case Failure(e) => st == Rejected(e)
  {
    ghost var input := s.Rest();
    var header := s.Read(HEADER_SIZE);
    if |header| < HEADER_SIZE {
      return Rejected(Truncated);
    }
    // one spare NUL after the 80 bytes makes the buffer a C string
    CutAtNulTerminated(header);
    mesh.header := CutAtNul(header + [NUL]);
    var numTriangles := ReadUint32(s);
    if numTriangles.None? {
      return Rejected(Truncated);
    }
    assert input[..HEADER_SIZE] == header && numTriangles.value == Count(input);
    assert s.Rest() == input[RECORDS_START..];
    st := AppendRecords(s, mesh, numTriangles.value);
  }

  /// The record loop of `parse_binary_file`: `count` facets read one after
  /// another and pushed onto the mesh in record order.
  method AppendRecords(s: Stream, mesh: Mesh, count: nat) returns (st: Status)
    requires s.Valid() && mesh.Valid()
    modifies s, mesh`facets
    ensures s.Valid() && mesh.Valid()
    ensures var body := old(s.Rest());
            if RECORD_SIZE * count <= |body|
            then st == Done && mesh.facets == old(mesh.facets) + Records(body, count) &&
                 s.Rest() == body[RECORD_SIZE * count..]
            else st == Rejected(Truncated)
  {
    ghost var body, acc := s.Rest(), mesh.facets;
    var ti := 0;
    while ti < count
      invariant ti <= count && RECORD_SIZE * ti <= |body|
      invariant s.Valid() && mesh.Valid()
      invariant s.Rest() == body[RECORD_SIZE * ti..]
      invariant mesh.facets == acc + Records(body, ti)
    {
      var facet := ReadRecord(s);
      if facet.None? {
        return Rejected(Truncated);
      }
      RecordsSnoc(body, ti);
      mesh.PushBack(facet.value);
      ti := ti + 1;
    }
    return Done;
  }

  /// Terminating the 80 header bytes with one more NUL does not change the
  /// string they make.
  lemma {:induction false} CutAtNulTerminated(b: seq<byte>)
    ensures CutAtNul(b + [NUL]) == CutAtNul(b)
  {
    if b != [] && b[0] != NUL {
      assert (b + [NUL])[1..] == b[1..] + [NUL];
      CutAtNulTerminated(b[1..]);
    }
  }

  /// A facet assembled field by field from the head of `rest` is the
  /// record there decoded.
  lemma RecordDecoded(rest: seq<byte>, f: Facet)
    requires RECORD_SIZE <= |rest| && f.Valid()
    requires f.normal == DecodeNormal(rest[..12])
    requires var vs := rest[12..];
             f.vertices == [DecodeVertex(vs[..12]), DecodeVertex(vs[12..24]), DecodeVertex(vs[24..36])]
    ensures f == DecodeRecord(rest[..RECORD_SIZE])
  {
    var rec := rest[..RECORD_SIZE];
    var vs := rest[12..];
    assert rec[..12] == rest[..12];
    SliceOfPrefix(rest, RECORD_SIZE, 12, 24);
    SliceOfPrefix(rest, RECORD_SIZE, 24, 36);
    SliceOfPrefix(rest, RECORD_SIZE, 36, 48);
    SliceOfSuffix(rest, 12, 0, 12);
    SliceOfSuffix(rest, 12, 12, 24);
    SliceOfSuffix(rest, 12, 24, 36);
    assert vs[..12] == vs[0..12];
  }

  /// One more record read extends the decoded records by the next one.
  lemma RecordsSnoc(body: seq<byte>, n: nat)
    requires RECORD_SIZE * (n + 1) <= |body|
    ensures Records(body, n + 1) ==
            Records(body, n) + [DecodeRecord(body[RECORD_SIZE * n..][..RECORD_SIZE])]
  {
    assert body[RECORD_SIZE * n..][..RECORD_SIZE] == body[RECORD_SIZE * n..RECORD_SIZE * (n + 1)];
  }
}
