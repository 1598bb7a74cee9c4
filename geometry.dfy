/// The loader's data model: Vertex, Normal, Facet and Mesh
/// (stlloader.h:32-44, main.cpp:8-20).
module Geometry {
  import opened Bytes

  /// A 32-bit float component, kept uninterpreted: the zero a value-initialised
  /// `Facet = {}` holds, the four raw bytes of a binary record (in file order,
  /// little-endian), or the decimal token an ASCII line hands to `>> float`.
  datatype Float32 = Zero | Bits(raw: seq<byte>) | Text(token: Token)

  datatype Vertex = Vertex(x: Float32, y: Float32, z: Float32)
  datatype Normal = Normal(x: Float32, y: Float32, z: Float32)

  const ZeroVertex := Vertex(Zero, Zero, Zero)
  const ZeroNormal := Normal(Zero, Zero, Zero)

  /// A triangle: `Vertex vertices[3]` and a normal.
  datatype Facet = Facet(vertices: seq<Vertex>, normal: Normal) {
    predicate Valid() { |vertices| == 3 }
  }

  /// `Facet facet = {};`
  const ZeroFacet := Facet([ZeroVertex, ZeroVertex, ZeroVertex], ZeroNormal)

  predicate AllTriangles(fs: seq<Facet>) {
    forall i :: 0 <= i < |fs| ==> fs[i].Valid()
  }

  /// The contents of a Mesh at one moment.
  datatype MeshValue = MeshValue(facets: seq<Facet>, name: seq<byte>, header: seq<byte>)

  /// `struct Mesh`, filled in place by the parsers through a `Mesh&`.
  class Mesh {
    var facets: seq<Facet>
    var name: seq<byte>
    var header: seq<byte>

    ghost predicate Valid()
      reads this
    {
      AllTriangles(facets)
    }

    ghost function Value(): MeshValue
      reads this
    {
      MeshValue(facets, name, header)
    }

    constructor ()
      ensures Valid() && facets == [] && name == [] && header == []
    {
      facets, name, header := [], [], [];
    }

    /// `mesh.facets.push_back(facet)`
    method PushBack(f: Facet)
      requires Valid() && f.Valid()
      modifies this`facets
      ensures Valid() && facets == old(facets) + [f]
    {
      facets := facets + [f];
    }
  }
}
