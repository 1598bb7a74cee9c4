/// What the ASCII parser (stlloader.h:74-150, main.cpp:45-121) accepts and
/// builds, as functions of the lines still to be read.
///
/// Every keyword variable of the source (`label`, `sub`, `kind`, `param`,
/// `mesh.name`) is filled by `ss >> var`, which leaves `var` as it was when the
/// line has no token left for it; `Extract` states that, so a blank line
/// re-uses the previous line's keyword exactly as the source does.
module AsciiSpec {
  import opened Bytes
  import opened Results
  import opened Text
  import opened Geometry

  const SOLID: Token := [115, 111, 108, 105, 100]                // "solid"
  const ENDSOLID: Token := [101, 110, 100, 115, 111, 108, 105, 100] // "endsolid"
  const FACET: Token := [102, 97, 99, 101, 116]                  // "facet"
  const NORMAL: Token := [110, 111, 114, 109, 97, 108]           // "normal"
  const OUTER: Token := [111, 117, 116, 101, 114]                // "outer"
  const LOOP: Token := [108, 111, 111, 112]                      // "loop"
  const VERTEX: Token := [118, 101, 114, 116, 101, 120]          // "vertex"
  const ENDLOOP: Token := [101, 110, 100, 108, 111, 111, 112]    // "endloop"
  const ENDFACET: Token := [101, 110, 100, 102, 97, 99, 101, 116] // "endfacet"

  /// The `i`-th `>>` into a string on a line with tokens `ts`: that token if
  /// the line has one, else the variable keeps `prior`.
  function Extract(ts: seq<Token>, i: nat, prior: Token): (r: Token)
    ensures i < |ts| ==> r == ts[i]
    ensures |ts| <= i ==> r == prior
  {
    if i < |ts| then ts[i] else prior
  }

  /// The `i`-th `>>` into a float component, kept as its token.
  function Component(ts: seq<Token>, i: nat, prior: Float32): (r: Float32)
    ensures i < |ts| ==> r == Text(ts[i])
    ensures |ts| <= i ==> r == prior
  {
    if i < |ts| then Text(ts[i]) else prior
  }

  /// `ss >> facet.vertices[vi]` after `ss >> label`: tokens 1 to 3. A line
  /// with all three sets every coordinate; a line with only the label
  /// leaves the vertex as it was.
  function VertexText(ts: seq<Token>, v: Vertex): (r: Vertex)
    ensures 4 <= |ts| ==> r == Vertex(Text(ts[1]), Text(ts[2]), Text(ts[3]))
    ensures |ts| <= 1 ==> r == v
  {
    Vertex(Component(ts, 1, v.x), Component(ts, 2, v.y), Component(ts, 3, v.z))
  }

  /// `ss >> facet.normal` after `ss >> kind >> param`: tokens 2 to 4. A
  /// line with all three sets every coordinate; a line with no more than
  /// the two keywords leaves the normal as it was.
  function NormalText(ts: seq<Token>, n: Normal): (r: Normal)
    ensures 5 <= |ts| ==> r == Normal(Text(ts[2]), Text(ts[3]), Text(ts[4]))
    ensures |ts| <= 2 ==> r == n
  {
    Normal(Component(ts, 2, n.x), Component(ts, 3, n.y), Component(ts, 4, n.z))
  }

  /// The first token of a line, or the empty word a fresh `std::string`
  /// holds when the line is blank.
  function Head(l: Line): (r: Token)
    ensures Tokens(l) != [] ==> r == Tokens(l)[0]
    ensures Tokens(l) == [] ==> r == []
  {
    Extract(Tokens(l), 0, [])
  }

  /// `rest` is what is left of `ls` once a prefix has been read.
  predicate IsSuffix(rest: seq<Line>, ls: seq<Line>) {
    |rest| <= |ls| && rest == ls[|ls| - |rest|..]
  }

  /// How the vertex loop ends: the facet as filled, the number of `vertex`
  /// lines counted (`vi`), and the lines after `endloop`.
  datatype LoopEnd = LoopEnd(facet: Facet, count: nat, rest: seq<Line>)

  /// The do-while of `parse_ascii_facet` from its current state (`label`,
  /// here `held`, `vi` and `facet`): a `vertex` line fills slot `vi` while
  /// `vi < 3` and counts; any other line except `endloop` is skipped. Input
  /// running out here makes the source loop forever.
  function LoopSpec(ls: seq<Line>, held: Token, vi: nat, f: Facet): (r: Result<LoopEnd>)
    requires f.Valid()
    ensures r.Success? ==> r.value.facet.Valid() && r.value.count >= vi
    ensures r.Success? ==> IsSuffix(r.value.rest, ls) && |r.value.rest| < |ls|
    ensures r.Failure? ==> r.error == Diverges
    decreases |ls|
  {
    if ls == [] then Failure(Diverges)
    else
      var ts := Tokens(ls[0]);
      var label1 := Extract(ts, 0, held);
      var f' := if label1 == VERTEX && vi < 3
                then f.(vertices := f.vertices[vi := VertexText(ts, f.vertices[vi])])
                else f;
      var vi' := if label1 == VERTEX then vi + 1 else vi;
      if label1 == ENDLOOP then Success(LoopEnd(f', vi', ls[1..]))
      else LoopSpec(ls[1..], label1, vi', f')
  }

  datatype FacetEnd = FacetEnd(facet: Facet, rest: seq<Line>)

  /// `parse_ascii_facet`: an `outer loop` line, the vertex loop, no more than
  /// three vertices counted, then an `endfacet` line.
  function FacetSpec(ls: seq<Line>, f: Facet): (r: Result<FacetEnd>)
    requires f.Valid()
    ensures r.Success? ==> r.value.facet.Valid() && IsSuffix(r.value.rest, ls) && |r.value.rest| < |ls|
  {
    var ts := if ls == [] then [] else Tokens(ls[0]);
    var rest := if ls == [] then [] else ls[1..];
    if !(Extract(ts, 0, []) == OUTER && Extract(ts, 1, []) == LOOP) then Failure(Syntax)
    else
      match LoopSpec(rest, OUTER, 0, f)
      case Failure(e) => Failure(e)
      case Success(le) =>
        if le.count > 3 then Failure(NotTriangle)
        else if le.rest == [] || Head(le.rest[0]) != ENDFACET then Failure(Syntax)
        else Success(FacetEnd(le.facet, le.rest[1..]))
  }

  /// How a solid ends: all facets so far, and the lines after `endsolid`.
  datatype SolidEnd = SolidEnd(facets: seq<Facet>, rest: seq<Line>)

  /// The loop of `parse_ascii_solid` from its current state (`kind`, `param`,
  /// facets `acc` already in the mesh): `endsolid` ends the solid, a
  /// `facet normal` line starts a facet that is appended once parsed, anything
  /// else is rejected, and running out of lines ends the solid too.
  function SolidSpec(ls: seq<Line>, kind: Token, param: Token, acc: seq<Facet>): (r: Result<SolidEnd>)
    requires AllTriangles(acc)
    ensures r.Success? ==> AllTriangles(r.value.facets) && acc <= r.value.facets
    ensures r.Success? ==> IsSuffix(r.value.rest, ls)
    decreases |ls|
  {
    if ls == [] then Success(SolidEnd(acc, []))
    else
      var ts := Tokens(ls[0]);
      var kind' := Extract(ts, 0, kind);
      if kind' == ENDSOLID then Success(SolidEnd(acc, ls[1..]))
      else if kind' == FACET then
        var param' := Extract(ts, 1, param);
        if param' != NORMAL then Failure(Syntax)
        else
          match FacetSpec(ls[1..], ZeroFacet.(normal := NormalText(ts, ZeroNormal)))
          case Failure(e) => Failure(e)
          case Success(fe) => SolidSpec(fe.rest, kind', param', acc + [fe.facet])
      else Failure(Syntax)
  }

  /// The facets and name an ASCII file leaves in the mesh.
  datatype AsciiMesh = AsciiMesh(facets: seq<Facet>, name: Token)

  /// The loop of `parse_ascii_file` from its current state (`kind`, the
  /// mesh's `name` and facets `acc`): every top-level line must be a `solid`
  /// line, whose second token, when present, becomes the name.
  function FileSpec(ls: seq<Line>, kind: Token, name: Token, acc: seq<Facet>): (r: Result<AsciiMesh>)
    requires AllTriangles(acc)
    ensures r.Success? ==> AllTriangles(r.value.facets) && acc <= r.value.facets
    decreases |ls|
  {
    if ls == [] then Success(AsciiMesh(acc, name))
    else
      var ts := Tokens(ls[0]);
      var kind' := Extract(ts, 0, kind);
      if kind' != SOLID then Failure(Syntax)
      else
        match SolidSpec(ls[1..], [], [], acc)
        case Failure(e) => Failure(e)
        case Success(se) => FileSpec(se.rest, kind', Extract(ts, 1, name), se.facets)
  }
}
