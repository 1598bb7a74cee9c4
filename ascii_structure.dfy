/// How the pieces of the ASCII grammar (stlloader.h:115-150,
/// main.cpp:86-121) compose: facets already in the mesh play no part in how
/// a solid or a file parses, a solid made of well-formed facet blocks yields
/// their facets in order, and the name a file leaves comes from the last
/// top-level `solid` line that carries one.
module AsciiStructure {
  import opened Bytes
  import opened Results
  import opened Text
  import opened Geometry
  import opened AsciiSpec
  import opened AsciiProperties

  /// `r` is `r0` with `acc` in front of its facets: same outcome, same
  /// lines left, same rejection reason.
  predicate Shifted(r: Result<SolidEnd>, r0: Result<SolidEnd>, acc: seq<Facet>) {
    r.Success? == r0.Success? &&
    (r.Success? ==> r.value == SolidEnd(acc + r0.value.facets, r0.value.rest)) &&
    (r.Failure? ==> r.error == r0.error)
  }

  /// The facets already in the mesh are only carried along by a solid: the
  /// outcome, the lines left and the rejection reason are those of the same
  /// lines parsed from an empty mesh, whose facets come after them.
  lemma {:induction false} SolidAccumulator(ls: seq<Line>, kind: Token, param: Token, acc: seq<Facet>)
    requires AllTriangles(acc)
    ensures Shifted(SolidSpec(ls, kind, param, acc), SolidSpec(ls, kind, param, []), acc)
    decreases |ls|
  {
    if FacetStep(ls, kind, param) {
      var fe := FacetSpec(ls[1..], ZeroFacet.(normal := NormalText(Tokens(ls[0]), ZeroNormal))).value;
      SolidAccumulator(fe.rest, FACET, NORMAL, acc + [fe.facet]);
      SolidAccumulator(fe.rest, FACET, NORMAL, [fe.facet]);
      SolidStepShifted(ls, kind, param, acc, fe);
    } else {
      SolidNoStep(ls, kind, param, acc);
    }
  }

  /// The first line of `ls` is a `facet normal` line whose facet parses.
  predicate FacetStep(ls: seq<Line>, kind: Token, param: Token) {
    ls != [] &&
    var ts := Tokens(ls[0]);
    Extract(ts, 0, kind) == FACET && Extract(ts, 1, param) == NORMAL &&
    FacetSpec(ls[1..], ZeroFacet.(normal := NormalText(ts, ZeroNormal))).Success?
  }

  /// Where the solid does not go on to another facet, the facets already
  /// in the mesh are all it carries.
  lemma SolidNoStep(ls: seq<Line>, kind: Token, param: Token, acc: seq<Facet>)
    requires AllTriangles(acc) && !FacetStep(ls, kind, param)
    ensures Shifted(SolidSpec(ls, kind, param, acc), SolidSpec(ls, kind, param, []), acc)
  {
    if ls != [] {
      var ts := Tokens(ls[0]);
      if Extract(ts, 0, kind) == ENDSOLID {
        assert acc + [] == acc;
      }
    } else {
      assert acc + [] == acc;
    }
  }

  /// A facet step keeps the shift when the rest of the solid keeps it, from
  /// the facets so far and from the facet just read.
  lemma SolidStepShifted(ls: seq<Line>, kind: Token, param: Token, acc: seq<Facet>, fe: FacetEnd)
    requires AllTriangles(acc) && FacetStep(ls, kind, param)
    requires fe == FacetSpec(ls[1..], ZeroFacet.(normal := NormalText(Tokens(ls[0]), ZeroNormal))).value
    requires fe.facet.Valid()
    requires Shifted(SolidSpec(fe.rest, FACET, NORMAL, acc + [fe.facet]), SolidSpec(fe.rest, FACET, NORMAL, []), acc + [fe.facet])
    requires Shifted(SolidSpec(fe.rest, FACET, NORMAL, [fe.facet]), SolidSpec(fe.rest, FACET, NORMAL, []), [fe.facet])
    ensures Shifted(SolidSpec(ls, kind, param, acc), SolidSpec(ls, kind, param, []), acc)
  {
    SolidFacetStep(ls, kind, param, acc);
    SolidFacetStep(ls, kind, param, []);
    assert [] + [fe.facet] == [fe.facet];
    ShiftedCompose(SolidSpec(fe.rest, FACET, NORMAL, acc + [fe.facet]), SolidSpec(fe.rest, FACET, NORMAL, [fe.facet]),
                   SolidSpec(fe.rest, FACET, NORMAL, []), acc, fe.facet);
  }

  /// Shifting by `acc + [f]` after shifting by `[f]` back is shifting by
  /// `acc`.
  lemma ShiftedCompose(r: Result<SolidEnd>, r1: Result<SolidEnd>, r0: Result<SolidEnd>, acc: seq<Facet>, f: Facet)
    requires Shifted(r, r0, acc + [f]) && Shifted(r1, r0, [f])
    ensures Shifted(r, r1, acc)
  {
    if r.Success? {
      assert acc + [f] + r0.value.facets == acc + ([f] + r0.value.facets);
    }
  }

  /// A `facet normal` line whose facet parses: the solid goes on after the
  /// facet with it appended.
  lemma SolidFacetStep(ls: seq<Line>, kind: Token, param: Token, acc: seq<Facet>)
    requires AllTriangles(acc) && FacetStep(ls, kind, param)
    ensures var ts := Tokens(ls[0]);
            var fe := FacetSpec(ls[1..], ZeroFacet.(normal := NormalText(ts, ZeroNormal))).value;
            SolidSpec(ls, kind, param, acc) == SolidSpec(fe.rest, FACET, NORMAL, acc + [fe.facet])
  {
  }

  /// `r` is `r0` with `acc` in front of its facets, and the same name.
  predicate FileShifted(r: Result<AsciiMesh>, r0: Result<AsciiMesh>, acc: seq<Facet>) {
    r.Success? == r0.Success? &&
    (r.Success? ==> r.value == AsciiMesh(acc + r0.value.facets, r0.value.name)) &&
    (r.Failure? ==> r.error == r0.error)
  }

  /// The same for a whole file: the facets already in the mesh change
  /// neither the outcome, nor the name, nor the rejection reason.
  lemma {:induction false} FileAccumulator(ls: seq<Line>, kind: Token, name: Token, acc: seq<Facet>)
    requires AllTriangles(acc)
    ensures FileShifted(FileSpec(ls, kind, name, acc), FileSpec(ls, kind, name, []), acc)
    decreases |ls|
  {
    if ls == [] {
      assert acc + [] == acc;
    } else if Extract(Tokens(ls[0]), 0, kind) == SOLID {
      SolidAccumulator(ls[1..], [], [], acc);
      var r0 := SolidSpec(ls[1..], [], [], []);
      if r0.Success? {
        var se0 := r0.value;
        var name' := Extract(Tokens(ls[0]), 1, name);
        FileAccumulator(se0.rest, SOLID, name', acc + se0.facets);
        FileAccumulator(se0.rest, SOLID, name', se0.facets);
        FileStepShifted(ls, kind, name, acc, se0);
      }
    }
  }

  /// A top-level `solid` line whose solid parses keeps the shift when the
  /// rest of the file keeps it.
  lemma FileStepShifted(ls: seq<Line>, kind: Token, name: Token, acc: seq<Facet>, se0: SolidEnd)
    requires AllTriangles(acc) && ls != [] && Extract(Tokens(ls[0]), 0, kind) == SOLID
    requires SolidSpec(ls[1..], [], [], []) == Success(se0)
    requires Shifted(SolidSpec(ls[1..], [], [], acc), SolidSpec(ls[1..], [], [], []), acc)
    requires AllTriangles(se0.facets) && AllTriangles(acc + se0.facets)
    requires var name' := Extract(Tokens(ls[0]), 1, name);
             FileShifted(FileSpec(se0.rest, SOLID, name', acc + se0.facets), FileSpec(se0.rest, SOLID, name', []), acc + se0.facets) &&
             FileShifted(FileSpec(se0.rest, SOLID, name', se0.facets), FileSpec(se0.rest, SOLID, name', []), se0.facets)
    ensures FileShifted(FileSpec(ls, kind, name, acc), FileSpec(ls, kind, name, []), acc)
  {
    var name' := Extract(Tokens(ls[0]), 1, name);
    FileSolidStep(ls, kind, name, acc);
    FileSolidStep(ls, kind, name, []);
    FileShiftedCompose(FileSpec(se0.rest, SOLID, name', acc + se0.facets), FileSpec(se0.rest, SOLID, name', se0.facets),
                       FileSpec(se0.rest, SOLID, name', []), acc, se0.facets);
  }

  /// A top-level `solid` line whose solid parses: the file goes on after
  /// the solid, with its facets and the name from that line.
  lemma FileSolidStep(ls: seq<Line>, kind: Token, name: Token, acc: seq<Facet>)
    requires AllTriangles(acc) && ls != [] && Extract(Tokens(ls[0]), 0, kind) == SOLID
    requires SolidSpec(ls[1..], [], [], acc).Success?
    ensures var se := SolidSpec(ls[1..], [], [], acc).value;
            FileSpec(ls, kind, name, acc) == FileSpec(se.rest, SOLID, Extract(Tokens(ls[0]), 1, name), se.facets)
  {
  }

  /// Shifting by `acc + fs` after shifting by `fs` back is shifting by
  /// `acc`.
  lemma FileShiftedCompose(r: Result<AsciiMesh>, r1: Result<AsciiMesh>, r0: Result<AsciiMesh>, acc: seq<Facet>, fs: seq<Facet>)
    requires FileShifted(r, r0, acc + fs) && FileShifted(r1, r0, fs)
    ensures FileShifted(r, r1, acc)
  {
    if r.Success? {
      assert acc + fs + r0.value.facets == acc + (fs + r0.value.facets);
    }
  }

  /// A `facet normal` line.
  predicate IsFacetNormal(l: Line) {
    var ts := Tokens(l);
    |ts| >= 2 && ts[0] == FACET && ts[1] == NORMAL
  }

  /// A well-formed facet block: a `facet normal` line, an `outer loop`
  /// line, no blank line before the first `endloop`, no more than three
  /// `vertex` lines before it, and `endfacet` right after it as the last line.
  predicate IsFacetBlock(b: seq<Line>) {
    |b| >= 2 && IsFacetNormal(b[0]) && IsOuterLoop(b[1]) &&
    var body := b[2..];
    var k := EndloopIndex(body);
    k + 2 == |body| && NoBlankLines(body[..k]) && |VertexTokens(body[..k])| <= 3 &&
    Head(body[k + 1]) == ENDFACET
  }

  /// The facet a block describes: the normal from its first line, and the
  /// slots filled in order from its `vertex` lines.
  function BlockFacet(b: seq<Line>): (f: Facet)
    requires IsFacetBlock(b)
    ensures f.Valid() && f.normal == NormalText(Tokens(b[0]), ZeroNormal)
  {
    var body := b[2..];
    Filled(ZeroFacet.(normal := NormalText(Tokens(b[0]), ZeroNormal)), 0, VertexTokens(body[..EndloopIndex(body)]))
  }

  /// Every one of `bs` is a well-formed facet block.
  predicate AllFacetBlocks(bs: seq<seq<Line>>) {
    bs == [] || (IsFacetBlock(bs[0]) && AllFacetBlocks(bs[1..]))
  }

  /// The lines of several blocks, one after the other.
  function Blocks(bs: seq<seq<Line>>): seq<Line> {
    if bs == [] then [] else bs[0] + Blocks(bs[1..])
  }

  /// The facets of several blocks, in order.
  function BlockFacets(bs: seq<seq<Line>>): (fs: seq<Facet>)
    requires AllFacetBlocks(bs)
    ensures |fs| == |bs| && AllTriangles(fs)
  {
    if bs == [] then [] else [BlockFacet(bs[0])] + BlockFacets(bs[1..])
  }

  /// Lines after a block's `endloop` do not move it.
  lemma {:induction false} EndloopIndexAppend(x: seq<Line>, y: seq<Line>)
    requires EndloopIndex(x) < |x|
    ensures EndloopIndex(x + y) == EndloopIndex(x)
    decreases |x|
  {
    assert (x + y)[0] == x[0];
    if Head(x[0]) != ENDLOOP {
      assert (x + y)[1..] == x[1..] + y;
      EndloopIndexAppend(x[1..], y);
    }
  }

  /// A well-formed block parses as its facet whatever follows it, and
  /// parsing resumes right after its `endfacet`.
  lemma BlockParses(b: seq<Line>, tail: seq<Line>)
    requires IsFacetBlock(b)
    ensures FacetSpec(b[1..] + tail, ZeroFacet.(normal := NormalText(Tokens(b[0]), ZeroNormal))) ==
            Success(FacetEnd(BlockFacet(b), tail))
  {
    var ls := b[1..] + tail;
    var body := b[2..];
    var k := EndloopIndex(body);
    assert ls[0] == b[1];
    assert ls[1..] == body + tail;
    EndloopIndexAppend(body, tail);
    assert (body + tail)[..k] == body[..k];
    assert (body + tail)[k + 1] == body[k + 1];
    assert (body + tail)[k + 2..] == tail;
    FacetOfBlock(ls, ZeroFacet.(normal := NormalText(Tokens(b[0]), ZeroNormal)));
  }

  /// A solid made of well-formed facet blocks and closed by `endsolid`
  /// appends exactly the blocks' facets, in order, and parsing resumes after
  /// the `endsolid` line.
  lemma {:induction false} SolidOfBlocks(bs: seq<seq<Line>>, end: Line, rest: seq<Line>, kind: Token, param: Token, acc: seq<Facet>)
    requires AllTriangles(acc) && AllFacetBlocks(bs)
    requires Tokens(end) != [] && Tokens(end)[0] == ENDSOLID
    ensures SolidSpec(Blocks(bs) + [end] + rest, kind, param, acc) == Success(SolidEnd(acc + BlockFacets(bs), rest))
    decreases |bs|
  {
    if bs == [] {
      var ls := Blocks(bs) + [end] + rest;
      assert ls == [end] + rest;
      assert ls[1..] == rest;
      assert acc + [] == acc;
    } else {
      SolidBlockStep(bs, end, rest, kind, param, acc);
      SolidOfBlocks(bs[1..], end, rest, FACET, NORMAL, acc + [BlockFacet(bs[0])]);
      BlockFacetsCons(bs, acc);
    }
  }

  /// The first block of a solid is read as its facet, and the solid goes on
  /// with the next block.
  lemma SolidBlockStep(bs: seq<seq<Line>>, end: Line, rest: seq<Line>, kind: Token, param: Token, acc: seq<Facet>)
    requires AllTriangles(acc) && bs != [] && AllFacetBlocks(bs)
    ensures SolidSpec(Blocks(bs) + [end] + rest, kind, param, acc) ==
            SolidSpec(Blocks(bs[1..]) + [end] + rest, FACET, NORMAL, acc + [BlockFacet(bs[0])])
  {
    var ls := Blocks(bs) + [end] + rest;
    var b := bs[0];
    var more := Blocks(bs[1..]) + [end] + rest;
    BlocksCons(bs, end, rest);
    FrontLine(b, more);
    BlockParses(b, more);
    SolidFacetStep(ls, kind, param, acc);
  }

  /// The lines of the first block come first.
  lemma BlocksCons(bs: seq<seq<Line>>, end: Line, rest: seq<Line>)
    requires bs != []
    ensures Blocks(bs) + [end] + rest == bs[0] + (Blocks(bs[1..]) + [end] + rest)
  {
  }

  /// Splitting the first line off lines joined after a non-empty `b`.
  lemma FrontLine(b: seq<Line>, more: seq<Line>)
    requires b != []
    ensures (b + more)[0] == b[0] && (b + more)[1..] == b[1..] + more
  {
  }

  /// The facet of the first block comes first.
  lemma BlockFacetsCons(bs: seq<seq<Line>>, acc: seq<Facet>)
    requires bs != [] && AllFacetBlocks(bs)
    ensures acc + [BlockFacet(bs[0])] + BlockFacets(bs[1..]) == acc + BlockFacets(bs)
  {
  }

  /// The top-level lines the file loop reads, in order: the line opening
  /// each solid, up to the first solid that is rejected or the first
  /// top-level line that does not open one.
  function TopLines(ls: seq<Line>, kind: Token, acc: seq<Facet>): (tops: seq<Line>)
    requires AllTriangles(acc)
    ensures |tops| <= |ls|
    ensures tops != [] ==> tops[0] == ls[0]
    ensures forall i :: 0 <= i < |tops| ==> Tokens(tops[i]) == [] || Tokens(tops[i])[0] == SOLID
    decreases |ls|
  {
    if ls == [] then []
    else
      var ts := Tokens(ls[0]);
      var kind' := Extract(ts, 0, kind);
      if kind' != SOLID then []
      else
        match SolidSpec(ls[1..], [], [], acc)
        case Failure(_) => []
        case Success(se) => [ls[0]] + TopLines(se.rest, kind', se.facets)
  }

  /// The name left after `ss >> kind >> mesh.name` on each of `tops` in
  /// turn, starting from `name`.
  function NameAfter(tops: seq<Line>, name: Token): Token {
    if tops == [] then name else NameAfter(tops[1..], Extract(Tokens(tops[0]), 1, name))
  }

  /// The name an ASCII file leaves is the one its top-level lines leave.
  lemma {:induction false} FileNameFromSolidLine(ls: seq<Line>, kind: Token, name: Token, acc: seq<Facet>)
    requires AllTriangles(acc)
    requires FileSpec(ls, kind, name, acc).Success?
    ensures FileSpec(ls, kind, name, acc).value.name == NameAfter(TopLines(ls, kind, acc), name)
    decreases |ls|
  {
    if ls != [] {
      var ts := Tokens(ls[0]);
      var se := SolidSpec(ls[1..], [], [], acc).value;
      var name' := Extract(ts, 1, name);
      FileSolidStep(ls, kind, name, acc);
      FileNameFromSolidLine(se.rest, SOLID, name', se.facets);
      var tops := TopLines(ls, kind, acc);
      assert tops == [ls[0]] + TopLines(se.rest, SOLID, se.facets);
      assert tops[1..] == TopLines(se.rest, SOLID, se.facets);
    }
  }

  /// A line that carries a name: it has a second token.
  predicate Named(l: Line) {
    |Tokens(l)| >= 2
  }

  /// When none of `tops` carries a name, the name stays `name`.
  lemma {:induction false} NameKept(tops: seq<Line>, name: Token)
    requires forall i :: 0 <= i < |tops| ==> !Named(tops[i])
    ensures NameAfter(tops, name) == name
    decreases |tops|
  {
    if tops != [] {
      assert !Named(tops[0]);
      assert forall i :: 0 <= i < |tops[1..]| ==> tops[1..][i] == tops[i + 1];
      NameKept(tops[1..], name);
    }
  }

  /// The name `tops` leave is the second token of the last of them, `j`,
  /// that carries one.
  lemma {:induction false} LastNameWins(tops: seq<Line>, name: Token, j: nat)
    requires j < |tops| && Named(tops[j])
    requires forall i :: j < i < |tops| ==> !Named(tops[i])
    ensures NameAfter(tops, name) == Tokens(tops[j])[1]
    decreases j
  {
    var name' := Extract(Tokens(tops[0]), 1, name);
    assert forall i :: 0 <= i < |tops[1..]| ==> tops[1..][i] == tops[i + 1];
    if j == 0 {
      NameKept(tops[1..], name');
    } else {
      LastNameWins(tops[1..], name', j - 1);
    }
  }

  /// The name an ASCII file leaves is the second token of the last
  /// top-level `solid` line that has one; the mesh's name is kept only when
  /// none has one.
  lemma FileNameIsLastNamed(ls: seq<Line>, kind: Token, name: Token, acc: seq<Facet>)
    requires AllTriangles(acc)
    requires FileSpec(ls, kind, name, acc).Success?
    ensures var tops := TopLines(ls, kind, acc);
            (forall i :: 0 <= i < |tops| ==> !Named(tops[i])) ==> FileSpec(ls, kind, name, acc).value.name == name
    ensures var tops := TopLines(ls, kind, acc);
            forall j :: 0 <= j < |tops| && Named(tops[j]) && (forall i :: j < i < |tops| ==> !Named(tops[i])) ==>
              FileSpec(ls, kind, name, acc).value.name == Tokens(tops[j])[1]
  {
    var tops := TopLines(ls, kind, acc);
    FileNameFromSolidLine(ls, kind, name, acc);
    if forall i :: 0 <= i < |tops| ==> !Named(tops[i]) {
      NameKept(tops, name);
    }
    forall j | 0 <= j < |tops| && Named(tops[j]) && (forall i :: j < i < |tops| ==> !Named(tops[i]))
      ensures FileSpec(ls, kind, name, acc).value.name == Tokens(tops[j])[1]
    {
      LastNameWins(tops, name, j);
    }
  }

  /// A `solid N ...` line whose solid runs to the end of the input leaves
  /// the name N, whatever the name was before.
  lemma LastSolidNames(ls: seq<Line>, kind: Token, name: Token, acc: seq<Facet>)
    requires AllTriangles(acc) && ls != []
    requires |Tokens(ls[0])| >= 2 && Tokens(ls[0])[0] == SOLID
    requires SolidSpec(ls[1..], [], [], acc).Success? && SolidSpec(ls[1..], [], [], acc).value.rest == []
    ensures FileSpec(ls, kind, name, acc) ==
            Success(AsciiMesh(SolidSpec(ls[1..], [], [], acc).value.facets, Tokens(ls[0])[1]))
  {
  }
}
