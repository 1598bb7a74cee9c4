/// The ASCII parser: `consume`, `parse_ascii_facet`, `parse_ascii_solid` and
/// `parse_ascii_file` (stlloader.h:74-150, main.cpp:45-121), reading lines
/// from the shared stream and appending facets to the mesh they are given.
/// Each is proved to do what the function of the same grammar level in
/// AsciiSpec says.
module AsciiParser {
  import opened Bytes
  import opened Results
  import opened Text
  import opened Geometry
  import opened Streams
  import opened AsciiSpec

  /// The tokens of the line `getline` delivers; a failed `getline` leaves the
  /// line empty.
  function LineTokens(line: Option<Line>): seq<Token> {
    if line.Some? then Tokens(line.value) else []
  }

  /// `consume(is, expected)`: reads one line and succeeds when its first
  /// token is `expected` (a line without tokens leaves the fresh `label` empty).
  method Consume(s: Stream, expected: Token) returns (ok: bool)
    requires s.Valid()
    modifies s
    ensures s.Valid()
    ensures var ls := old(s.PendingLines());
            ok == ((if ls == [] then [] else Head(ls[0])) == expected) &&
            s.PendingLines() == if ls == [] then [] else ls[1..]
  {
    var tag: Token := [];
    var line := s.GetLine();
    tag := Extract(LineTokens(line), 0, tag);
    ok := tag == expected;
  }

  /// `parse_ascii_facet(is, facet)`, the facet's normal already read.
  method ParseAsciiFacet(s: Stream, f: Facet) returns (r: Result<Facet>)
    requires s.Valid() && f.Valid()
    modifies s
    ensures s.Valid()
    ensures match FacetSpec(old(s.PendingLines()), f)
            case Success(fe) => r == Success(fe.facet) && s.PendingLines() == fe.rest
            case Failure(e) => r == Failure(e)
  {
    ghost var ls := s.PendingLines();
    var tag: Token := [];
    var sub: Token := [];
    var line := s.GetLine();
    var ts := LineTokens(line);
    tag := Extract(ts, 0, tag);
    sub := Extract(ts, 1, sub);
    if !(tag == OUTER && sub == LOOP) {
      return Failure(Syntax);
    }
    var l := VertexLoop(s, f);
    if l.Failure? {
      return Failure(l.error);  // modelled as an error: the vertex loop never exits
    }
    var (facet, vi) := l.value;
    if vi > 3 {
      return Failure(NotTriangle);  // more than three vertices
    }
    var ok := Consume(s, ENDFACET);
    if !ok {
      return Failure(Syntax);
    }
    return Success(facet);
  }

  /// The do-while of `parse_ascii_facet` after `outer loop`: reads lines
  /// until `endloop`, filling the facet from the `vertex` lines and counting
  /// them.
  method VertexLoop(s: Stream, f: Facet) returns (r: Result<(Facet, nat)>)
    requires s.Valid() && f.Valid()
    modifies s
    ensures s.Valid()
    ensures match LoopSpec(old(s.PendingLines()), OUTER, 0, f)
            case Success(le) => r == Success((le.facet, le.count)) && s.PendingLines() == le.rest
            case Failure(e) => r == Failure(e)
  {
    ghost var ls := s.PendingLines();
    var facet := f;
    var tag := OUTER;
    var vi: nat := 0;
    while true
      invariant s.Valid() && facet.Valid()
      invariant LoopSpec(s.PendingLines(), tag, vi, facet) == LoopSpec(ls, OUTER, 0, f)
      decreases |s.PendingLines()|
    {
      ghost var before, tag0, vi0, facet0 := s.PendingLines(), tag, vi, facet;
      var line := s.GetLine();
      if line.None? {
        return Failure(Diverges);
      }
      var ts := Tokens(line.value);
      tag := Extract(ts, 0, tag);
      if tag == VERTEX {
        if vi < 3 {
          facet := facet.(vertices := facet.vertices[vi := VertexText(ts, facet.vertices[vi])]);
        }
        vi := vi + 1;
      }
      if tag == ENDLOOP {
        assert LoopSpec(before, tag0, vi0, facet0) == Success(LoopEnd(facet, vi, s.PendingLines()));
        break;
      }
    }
    return Success((facet, vi));
  }

  /// `parse_ascii_solid(is, mesh)`: reads facets up to `endsolid` or the end
  /// of input, pushing each onto the mesh.
  method ParseAsciiSolid(s: Stream, mesh: Mesh) returns (st: Status)
    requires s.Valid() && mesh.Valid()
    modifies s, mesh`facets
    ensures s.Valid() && mesh.Valid()
    ensures match SolidSpec(old(s.PendingLines()), [], [], old(mesh.facets))
            case Success(se) => st == Done && mesh.facets == se.facets && s.PendingLines() == se.rest
            case Failure(e) => st == Rejected(e)
  {
    ghost var ls, acc := s.PendingLines(), mesh.facets;
    var kind: Token := [];
    var param: Token := [];
    while true
      invariant s.Valid() && mesh.Valid()
      invariant SolidSpec(s.PendingLines(), kind, param, mesh.facets) == SolidSpec(ls, [], [], acc)
      decreases |s.PendingLines()|
    {
      var line := s.GetLine();
      if line.None? {
        break;
      }
      var ts := Tokens(line.value);
      kind := Extract(ts, 0, kind);
      if kind == ENDSOLID {
        break;
      } else if kind == FACET {
        var facet := ZeroFacet;
        param := Extract(ts, 1, param);
        if param != NORMAL {
          return Rejected(Syntax);
        }
        facet := facet.(normal := NormalText(ts, facet.normal));
        var r := ParseAsciiFacet(s, facet);
        if r.Failure? {
          return Rejected(r.error);
        }
        mesh.PushBack(r.value);
      } else {
        return Rejected(Syntax);
      }
    }
    return Done;
  }

  /// `parse_ascii_file(is, mesh)`: every top-level line opens a solid, whose
  /// name (when the line has one) replaces the mesh's.
  method ParseAsciiFile(s: Stream, mesh: Mesh) returns (st: Status)
    requires s.Valid() && mesh.Valid()
    modifies s, mesh`facets, mesh`name
    ensures s.Valid() && mesh.Valid()
    ensures match FileSpec(old(s.PendingLines()), [], old(mesh.name), old(mesh.facets))
            case Success(am) => st == Done && mesh.facets == am.facets && mesh.name == am.name
            case Failure(e) => st == Rejected(e)
  {
    ghost var ls, name0, acc := s.PendingLines(), mesh.name, mesh.facets;
    var kind: Token := [];
    while true
      invariant s.Valid() && mesh.Valid()
      invariant FileSpec(s.PendingLines(), kind, mesh.name, mesh.facets) == FileSpec(ls, [], name0, acc)
      decreases |s.PendingLines()|
    {
      var line := s.GetLine();
      if line.None? {
        break;
      }
      var ts := Tokens(line.value);
      kind := Extract(ts, 0, kind);
      if kind == SOLID {
        mesh.name := Extract(ts, 1, mesh.name);
        var st' := ParseAsciiSolid(s, mesh);
        if st'.Rejected? {
          return st';
        }
      } else {
        return Rejected(Syntax);
      }
    }
    return Done;
  }
}
