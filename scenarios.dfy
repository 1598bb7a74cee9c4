/// Two whole inputs taken through `parse_stream`: a one-triangle ASCII file
/// and the smallest binary file.
module Scenarios {
  import opened Bytes
  import opened Results
  import opened Text
  import opened Geometry
  import opened AsciiSpec
  import opened AsciiProperties
  import opened BinaryLayout
  import opened BinaryProperties
  import opened Loader

  const NAME: Token := [116]  // "t"
  const ZERO: Token := [48]   // "0"
  const ONE: Token := [49]    // "1"

  /// The tokens of each line of
  ///   solid t / facet normal 0 0 1 / outer loop / vertex 0 0 0 /
  ///   vertex 1 0 0 / vertex 0 1 0 / endloop / endfacet / endsolid t
  function TriangleTokens(): seq<seq<Token>> {
    [[SOLID, NAME],
     [FACET, NORMAL, ZERO, ZERO, ONE],
     [OUTER, LOOP],
     [VERTEX, ZERO, ZERO, ZERO],
     [VERTEX, ONE, ZERO, ZERO],
     [VERTEX, ZERO, ONE, ZERO],
     [ENDLOOP],
     [ENDFACET],
     [ENDSOLID, NAME]]
  }

  /// The lines of that file, one space between each two tokens.
  function TriangleLines(): seq<Line> {
    seq(9, i requires 0 <= i < 9 => Joined(TriangleTokens()[i]))
  }

  /// That file, a '\n' after each line.
  function TriangleFile(): seq<byte> {
    Terminated(TriangleLines())
  }

  /// The facet it describes.
  function Triangle(): Facet {
    Facet([Vertex(Text(ZERO), Text(ZERO), Text(ZERO)),
           Vertex(Text(ONE), Text(ZERO), Text(ZERO)),
           Vertex(Text(ZERO), Text(ONE), Text(ZERO))],
          Normal(Text(ZERO), Text(ZERO), Text(ONE)))
  }

  /// Words joined with spaces contain no '\n'.
  lemma {:induction false} JoinedHasNoNewline(ts: seq<Token>)
    requires forall i :: 0 <= i < |ts| ==> IsWord(ts[i])
    ensures NEWLINE !in Joined(ts)
  {
    if |ts| == 1 {
      assert IsWord(ts[0]);
    } else if ts != [] {
      assert IsWord(ts[0]);
      JoinedHasNoNewline(ts[1..]);
      assert Joined(ts) == ts[0] + [SPACE] + Joined(ts[1..]);
    }
  }

  /// Every token of the file is a word.
  lemma TriangleWords(i: nat)
    requires i < 9
    ensures forall j :: 0 <= j < |TriangleTokens()[i]| ==> IsWord(TriangleTokens()[i][j])
  {
    assert IsWord(SOLID) && IsWord(NAME) && IsWord(FACET) && IsWord(NORMAL) && IsWord(ZERO) && IsWord(ONE);
    assert IsWord(OUTER) && IsWord(LOOP) && IsWord(VERTEX) && IsWord(ENDLOOP) && IsWord(ENDFACET);
    assert IsWord(ENDSOLID);
  }

  /// `>>` recovers the tokens line `i` was written from.
  lemma TriangleLineRead(i: nat)
    requires i < 9
    ensures NEWLINE !in TriangleLines()[i] && Tokens(TriangleLines()[i]) == TriangleTokens()[i]
  {
    TriangleWords(i);
    JoinedHasNoNewline(TriangleTokens()[i]);
    TokensOfJoined(TriangleTokens()[i]);
  }

  /// `getline` and `>>` recover the lines and tokens the file was written
  /// from, and the file starts with `solid`.
  lemma TriangleFileRead()
    ensures Lines(TriangleFile()) == TriangleLines()
    ensures forall i :: 0 <= i < 9 ==> Tokens(TriangleLines()[i]) == TriangleTokens()[i]
    ensures |TriangleFile()| >= 5 && TriangleFile()[..5] == SOLID
  {
    var ls := TriangleLines();
    forall i | 0 <= i < 9
      ensures NEWLINE !in ls[i] && Tokens(ls[i]) == TriangleTokens()[i]
    {
      TriangleLineRead(i);
    }
    LinesOfTerminated(ls);
    TriangleStartsSolid();
  }

  /// The file's first five bytes are `solid`.
  lemma TriangleStartsSolid()
    ensures |TriangleFile()| >= 5 && TriangleFile()[..5] == SOLID
  {
    var ls := TriangleLines();
    var data := TriangleFile();
    assert data == ls[0] + [NEWLINE] + Terminated(ls[1..]);
    assert ls[0] == Joined([SOLID, NAME]) == SOLID + [SPACE] + Joined([NAME]);
    assert data[..5] == SOLID;
  }

  /// Lines whose tokens are those of the one-triangle file.
  predicate ReadsAsTriangleFile(ls: seq<Line>) {
    |ls| == 9 && forall i :: 0 <= i < 9 ==> Tokens(ls[i]) == TriangleTokens()[i]
  }

  /// The vertex loop of the facet block: three `vertex` lines, then
  /// `endloop` and `endfacet`.
  lemma TriangleLoop(ls: seq<Line>)
    requires ReadsAsTriangleFile(ls)
    ensures var body := ls[3..];
            EndloopIndex(body) == 3 && NoBlankLines(body[..3]) && Head(body[4]) == ENDFACET &&
            VertexTokens(body[..3]) == [TriangleTokens()[3], TriangleTokens()[4], TriangleTokens()[5]]
  {
    var toks := TriangleTokens();
    var body := ls[3..];
    assert Tokens(body[0]) == toks[3] && Tokens(body[1]) == toks[4] && Tokens(body[2]) == toks[5];
    assert Tokens(body[3]) == toks[6] && Tokens(body[4]) == toks[7];
    EndloopIndexIsFirst(body);
    assert EndloopIndex(body) == 3;
    assert body[..3] == [ls[3], ls[4], ls[5]];
    ThreeVertexLines(ls[3], ls[4], ls[5]);
  }

  /// Three lines that each start with `vertex` are three vertex lines.
  lemma ThreeVertexLines(a: Line, b: Line, c: Line)
    requires Head(a) == VERTEX && Head(b) == VERTEX && Head(c) == VERTEX
    ensures VertexTokens([a, b, c]) == [Tokens(a), Tokens(b), Tokens(c)]
    ensures NoBlankLines([a, b, c])
  {
    assert [c][1..] == [];
    assert VertexTokens([c]) == [Tokens(c)] + VertexTokens([]);
    assert [b, c][1..] == [c];
    assert VertexTokens([b, c]) == [Tokens(b)] + VertexTokens([c]);
    assert [a, b, c][1..] == [b, c];
    assert VertexTokens([a, b, c]) == [Tokens(a)] + VertexTokens([b, c]);
  }

  /// Filling the zero facet with normal (0, 0, 1) from the three vertex
  /// lines gives the triangle.
  lemma TriangleFilled()
    ensures var toks := TriangleTokens();
            Filled(ZeroFacet.(normal := NormalText(toks[1], ZeroNormal)), 0, [toks[3], toks[4], toks[5]]) == Triangle()
  {
  }

  /// The facet block, from `outer loop` to `endfacet`, yields the triangle.
  lemma TriangleBlock(ls: seq<Line>)
    requires ReadsAsTriangleFile(ls)
    ensures FacetSpec(ls[2..], ZeroFacet.(normal := NormalText(TriangleTokens()[1], ZeroNormal))) ==
            Success(FacetEnd(Triangle(), ls[8..]))
  {
    var f0 := ZeroFacet.(normal := NormalText(TriangleTokens()[1], ZeroNormal));
    var block := ls[2..];
    assert Tokens(block[0]) == TriangleTokens()[2];
    assert block[1..] == ls[3..] && ls[3..][5..] == ls[8..];
    TriangleLoop(ls);
    FacetOfBlock(block, f0);
    TriangleFilled();
  }

  /// The grammar takes those lines to one solid named `t` holding the
  /// triangle.
  lemma TriangleGrammar(ls: seq<Line>, name: Token)
    requires ReadsAsTriangleFile(ls)
    ensures FileSpec(ls, [], name, []) == Success(AsciiMesh([Triangle()], NAME))
  {
    var toks := TriangleTokens();
    TriangleBlock(ls);
    assert Tokens(ls[8]) == toks[8] && ls[8..][1..] == [];
    assert SolidSpec(ls[8..], FACET, NORMAL, [Triangle()]) == Success(SolidEnd([Triangle()], []));
    assert Tokens(ls[1..][0]) == toks[1] && ls[1..][1..] == ls[2..];
    var seed: seq<Facet> := [];
    assert seed + [Triangle()] == [Triangle()];
    assert SolidSpec(ls[1..], [], [], seed) == Success(SolidEnd([Triangle()], []));
    assert Tokens(ls[0]) == toks[0];
  }

  /// The one-triangle file yields that triangle and the name `t`, and leaves
  /// the header as it was.
  lemma OneTriangle(m: MeshValue)
    requires m.facets == []
    ensures Parse(TriangleFile(), m) == Success(MeshValue([Triangle()], NAME, m.header))
  {
    TriangleFileRead();
    ParseRoutes(TriangleFile(), m);
    TriangleGrammar(TriangleLines(), m.name);
  }

  /// Eighty-four zero bytes do not start with `solid`: they are read as a
  /// binary file with an empty header and no triangles.
  lemma ZeroStream(m: MeshValue)
    requires AllTriangles(m.facets)
    ensures Parse(Zeros(RECORDS_START), m) == Success(m.(header := []))
  {
    var z := Zeros(RECORDS_START);
    ParseRoutes(z, m);
    assert z[..5][0] != SOLID[0];
    AllZeroFile();
    assert m.facets + [] == m.facets;
  }
}
