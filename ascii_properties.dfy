/// What the ASCII grammar of stlloader.h:91-150 (main.cpp:62-121) promises,
/// stated against independent descriptions of a facet block: where its
/// `endloop` is, which of its lines are `vertex` lines, and which vertex
/// slots those lines fill.
module AsciiProperties {
  import opened Bytes
  import opened Results
  import opened Text
  import opened Geometry
  import opened AsciiSpec

  /// `Head` on the line's bytes: the word that starts after the leading
  /// white space, and the empty word on a line that is all white space.
  lemma HeadOfLine(l: Line)
    ensures var k := LeadingSpaces(l);
            Head(l) == l[k..k + WordLength(l[k..])]
  {
    var k := LeadingSpaces(l);
    SpacesSkipped(l);
    WordFirst(l[k..]);
    assert l[k..][..WordLength(l[k..])] == l[k..k + WordLength(l[k..])];
  }

  /// `>>` into a string on a line written as words `ws`: the `i`-th `>>`
  /// takes word `i` when the line has one, and keeps the variable's value
  /// otherwise.
  lemma ExtractOfWords(ws: seq<Token>, i: nat, prior: Token)
    requires forall j :: 0 <= j < |ws| ==> IsWord(ws[j])
    ensures Extract(Tokens(Joined(ws)), i, prior) == if i < |ws| then ws[i] else prior
  {
    TokensOfJoined(ws);
  }

  /// `>>` into a float component on a line written as words `ws`: word `i`
  /// when the line has one, else the component keeps its value.
  lemma ComponentOfWords(ws: seq<Token>, i: nat, prior: Float32)
    requires forall j :: 0 <= j < |ws| ==> IsWord(ws[j])
    ensures Component(Tokens(Joined(ws)), i, prior) == if i < |ws| then Text(ws[i]) else prior
  {
    TokensOfJoined(ws);
  }

  /// The keywords of a vertex or normal line are words.
  lemma KeywordsAreWords()
    ensures IsWord(VERTEX) && IsWord(FACET) && IsWord(NORMAL)
  {
    assert forall j :: 0 <= j < |VERTEX| ==> !IsSpace(VERTEX[j]);
    assert forall j :: 0 <= j < |FACET| ==> !IsSpace(FACET[j]);
    assert forall j :: 0 <= j < |NORMAL| ==> !IsSpace(NORMAL[j]);
  }

  /// A word in front of words gives words.
  lemma WordsCons(w: Token, cs: seq<Token>)
    requires IsWord(w) && forall j :: 0 <= j < |cs| ==> IsWord(cs[j])
    ensures forall j :: 0 <= j < |[w] + cs| ==> IsWord(([w] + cs)[j])
  {
  }

  /// A line written as `vertex` and then the words `cs`: each coordinate
  /// the line carries is read, in order x, y, z; a coordinate it lacks
  /// keeps its value, and words after the third are not read.
  lemma VertexOfLine(cs: seq<Token>, v: Vertex)
    requires forall j :: 0 <= j < |cs| ==> IsWord(cs[j])
    ensures VertexText(Tokens(Joined([VERTEX] + cs)), v) ==
            Vertex(if 0 < |cs| then Text(cs[0]) else v.x,
                   if 1 < |cs| then Text(cs[1]) else v.y,
                   if 2 < |cs| then Text(cs[2]) else v.z)
  {
    var ws := [VERTEX] + cs;
    KeywordsAreWords();
    WordsCons(VERTEX, cs);
    TokensOfJoined(ws);
    assert forall j :: 0 <= j < |cs| ==> ws[j + 1] == cs[j];
  }

  /// A line written as `facet normal` and then the words `cs`: each
  /// coordinate the line carries is read, in order x, y, z; a coordinate it
  /// lacks keeps its value, and words after the third are not read.
  lemma NormalOfLine(cs: seq<Token>, n: Normal)
    requires forall j :: 0 <= j < |cs| ==> IsWord(cs[j])
    ensures NormalText(Tokens(Joined([FACET, NORMAL] + cs)), n) ==
            Normal(if 0 < |cs| then Text(cs[0]) else n.x,
                   if 1 < |cs| then Text(cs[1]) else n.y,
                   if 2 < |cs| then Text(cs[2]) else n.z)
  {
    KeywordsAreWords();
    KeywordsLine(FACET, NORMAL, cs);
    NormalAfterKeywords(FACET, NORMAL, cs, n);
  }

  /// Two keywords followed by words are extracted back as exactly those.
  lemma KeywordsLine(k1: Token, k2: Token, cs: seq<Token>)
    requires IsWord(k1) && IsWord(k2) && forall j :: 0 <= j < |cs| ==> IsWord(cs[j])
    ensures Tokens(Joined([k1, k2] + cs)) == [k1, k2] + cs
  {
    WordsAfterKeywords(k1, k2, cs);
    TokensOfJoined([k1, k2] + cs);
  }

  /// Two words in front of words give words.
  lemma WordsAfterKeywords(k1: Token, k2: Token, cs: seq<Token>)
    requires IsWord(k1) && IsWord(k2) && forall j :: 0 <= j < |cs| ==> IsWord(cs[j])
    ensures forall j :: 0 <= j < |[k1, k2] + cs| ==> IsWord(([k1, k2] + cs)[j])
  {
  }

  /// The normal read after two keyword tokens.
  lemma NormalAfterKeywords(k1: Token, k2: Token, cs: seq<Token>, n: Normal)
    ensures NormalText([k1, k2] + cs, n) ==
            Normal(if 0 < |cs| then Text(cs[0]) else n.x,
                   if 1 < |cs| then Text(cs[1]) else n.y,
                   if 2 < |cs| then Text(cs[2]) else n.z)
  {
    var ws := [k1, k2] + cs;
    if 0 < |cs| { assert ws[2] == cs[0]; }
    if 1 < |cs| { assert ws[3] == cs[1]; }
    if 2 < |cs| { assert ws[4] == cs[2]; }
  }

  /// The index of the first line whose first token is `endloop`, or |ls|.
  function EndloopIndex(ls: seq<Line>): (k: nat)
    ensures k <= |ls|
    ensures k < |ls| ==> Head(ls[k]) == ENDLOOP
  {
    if ls == [] || Head(ls[0]) == ENDLOOP then 0 else 1 + EndloopIndex(ls[1..])
  }

  /// No line before `EndloopIndex(ls)` starts with `endloop`: it is the
  /// first one.
  lemma {:induction false} EndloopIndexIsFirst(ls: seq<Line>)
    ensures forall i :: 0 <= i < EndloopIndex(ls) ==> Head(ls[i]) != ENDLOOP
  {
    if ls != [] && Head(ls[0]) != ENDLOOP {
      EndloopIndexIsFirst(ls[1..]);
      assert forall i :: 1 <= i < EndloopIndex(ls) ==> ls[i] == ls[1..][i - 1];
    }
  }

  /// The token lists of the lines that start with `vertex`, in order.
  function VertexTokens(body: seq<Line>): (vts: seq<seq<Token>>)
    ensures |vts| <= |body|
    ensures forall i :: 0 <= i < |vts| ==> |vts[i]| > 0 && vts[i][0] == VERTEX
  {
    if body == [] then []
    else (if Head(body[0]) == VERTEX then [Tokens(body[0])] else []) + VertexTokens(body[1..])
  }

  /// No line of `body` is blank (every line has a token).
  predicate NoBlankLines(body: seq<Line>) {
    forall i :: 0 <= i < |body| ==> Tokens(body[i]) != []
  }

  /// Slot `j` of `f` once vertex lines `vts` have filled slots from `vi`
  /// on: set from line `j - vi` if there is one, else left as it was.
  function Slot(f: Facet, vi: nat, vts: seq<seq<Token>>, j: nat): Vertex
    requires f.Valid() && j < 3
  {
    if vi <= j < vi + |vts| then VertexText(vts[j - vi], f.vertices[j]) else f.vertices[j]
  }

  /// `f` with slot `vi + i` set from the `i`-th vertex line, for the slots
  /// below 3 that a line reaches; every other slot keeps its value.
  function Filled(f: Facet, vi: nat, vts: seq<seq<Token>>): (g: Facet)
    requires f.Valid()
    ensures g.Valid() && g.normal == f.normal
  {
    f.(vertices := [Slot(f, vi, vts, 0), Slot(f, vi, vts, 1), Slot(f, vi, vts, 2)])
  }

  /// An `outer loop` line, as `parse_ascii_facet` requires first.
  predicate IsOuterLoop(l: Line) {
    var ts := Tokens(l);
    |ts| >= 2 && ts[0] == OUTER && ts[1] == LOOP
  }

  /// Filling slot `vi` from one more vertex line and the rest from the
  /// following slots is filling from `vi` with all of them.
  lemma FilledStep(f: Facet, vi: nat, ts: seq<Token>, vts: seq<seq<Token>>)
    requires f.Valid()
    ensures Filled(Fill(f, VERTEX, ts, vi), vi + 1, vts) == Filled(f, vi, [ts] + vts)
  {
  }

  /// The facet after a loop line with tokens `ts` and label `label1`,
  /// `vi` vertex lines in.
  function Fill(f: Facet, label1: Token, ts: seq<Token>, vi: nat): (g: Facet)
    requires f.Valid()
    ensures g.Valid() && g.normal == f.normal
  {
    if label1 == VERTEX && vi < 3 then f.(vertices := f.vertices[vi := VertexText(ts, f.vertices[vi])]) else f
  }

  /// One line of the vertex loop that is not `endloop`: the loop goes on
  /// from the label, count and facet that line leaves.
  lemma LoopStep(ls: seq<Line>, held: Token, vi: nat, f: Facet)
    requires f.Valid() && ls != [] && Extract(Tokens(ls[0]), 0, held) != ENDLOOP
    ensures var ts := Tokens(ls[0]);
            var label1 := Extract(ts, 0, held);
            LoopSpec(ls, held, vi, f) ==
            LoopSpec(ls[1..], label1, if label1 == VERTEX then vi + 1 else vi, Fill(f, label1, ts, vi))
  {
  }

  /// Taking the first line off a prefix of `k` lines.
  lemma PrefixSplit(ls: seq<Line>, k: nat)
    requires 0 < k <= |ls|
    ensures ls[..k] == [ls[0]] + ls[1..][..k - 1] && ls[1..][..k - 1] == ls[..k][1..]
    ensures k < |ls| ==> ls[1..][k..] == ls[k + 1..]
  {
  }

  /// Taking the first line off a block of `k` lines takes its tokens off
  /// the vertex lines when it is one.
  lemma VertexTokensStep(ls: seq<Line>, k: nat)
    requires 0 < k <= |ls|
    ensures VertexTokens(ls[..k]) ==
            (if Head(ls[0]) == VERTEX then [Tokens(ls[0])] else []) + VertexTokens(ls[1..][..k - 1])
    ensures k < |ls| ==> ls[1..][k..] == ls[k + 1..]
  {
    PrefixSplit(ls, k);
  }

  /// The vertex loop ends at the first `endloop` line and nowhere else:
  /// it succeeds exactly when there is one, resumes after it, and counts at
  /// least every `vertex` line before it (a blank line after a `vertex` line
  /// counts again, since `label` keeps its value).
  lemma {:induction false} LoopStopsAtEndloop(ls: seq<Line>, held: Token, vi: nat, f: Facet)
    requires f.Valid() && held != ENDLOOP
    ensures var r := LoopSpec(ls, held, vi, f);
            var k := EndloopIndex(ls);
            (r.Success? <==> k < |ls|) &&
            (r.Success? ==> r.value.rest == ls[k + 1..] && r.value.count >= vi + |VertexTokens(ls[..k])|)
  {
    if ls != [] {
      var ts := Tokens(ls[0]);
      var label1 := Extract(ts, 0, held);
      var k := EndloopIndex(ls);
      if label1 == ENDLOOP {
        assert ls[..k] == [];
      } else {
        var vi' := if label1 == VERTEX then vi + 1 else vi;
        LoopStep(ls, held, vi, f);
        LoopStopsAtEndloop(ls[1..], label1, vi', Fill(f, label1, ts, vi));
        assert k == 1 + EndloopIndex(ls[1..]);
        VertexTokensStep(ls, k);
        assert Head(ls[0]) == VERTEX ==> vi' == vi + 1;
      }
    }
  }

  /// For a loop without blank lines the vertex loop is exactly: the `vertex`
  /// lines before the first `endloop` fill slots `vi`, `vi + 1`, … in order
  /// (those past slot 2 are only counted), and every other line is skipped.
  lemma {:induction false} LoopFillsSlots(ls: seq<Line>, held: Token, vi: nat, f: Facet)
    requires f.Valid() && held != ENDLOOP
    requires EndloopIndex(ls) < |ls| && NoBlankLines(ls[..EndloopIndex(ls)])
    ensures LoopSpec(ls, held, vi, f) == FilledLoop(ls, vi, f)
  {
    if EndloopIndex(ls) == 0 {
      LoopEndsAtOnce(ls, held, vi, f);
    } else {
      var ts := Tokens(ls[0]);
      BlockTail(ls);
      LoopFillsSlots(ls[1..], ts[0], if ts[0] == VERTEX then vi + 1 else vi, Fill(f, ts[0], ts, vi));
      LoopFillsStep(ls, held, vi, f);
    }
  }

  /// What `LoopFillsSlots` states the loop yields: the facet filled from
  /// the vertex lines before the first `endloop`, their count, and the
  /// lines after that `endloop`.
  function FilledLoop(ls: seq<Line>, vi: nat, f: Facet): Result<LoopEnd>
    requires f.Valid() && EndloopIndex(ls) < |ls|
  {
    var k := EndloopIndex(ls);
    var vts := VertexTokens(ls[..k]);
    Success(LoopEnd(Filled(f, vi, vts), vi + |vts|, ls[k + 1..]))
  }

  /// A loop whose first line is `endloop` ends there, with nothing filled.
  lemma LoopEndsAtOnce(ls: seq<Line>, held: Token, vi: nat, f: Facet)
    requires f.Valid() && EndloopIndex(ls) == 0 < |ls|
    ensures LoopSpec(ls, held, vi, f) == FilledLoop(ls, vi, f)
  {
    assert ls[..0] == [];
    assert Extract(Tokens(ls[0]), 0, held) == ENDLOOP;
    assert Filled(f, vi, []) == f by {
      assert Filled(f, vi, []).vertices == f.vertices;
    }
  }

  /// The first line of a block not yet at its `endloop` has a first token
  /// other than `endloop`, and the rest of the block is a block too.
  lemma BlockTail(ls: seq<Line>)
    requires 0 < EndloopIndex(ls) < |ls| && NoBlankLines(ls[..EndloopIndex(ls)])
    ensures Tokens(ls[0]) != [] && Tokens(ls[0])[0] != ENDLOOP
    ensures EndloopIndex(ls[1..]) == EndloopIndex(ls) - 1 < |ls[1..]|
    ensures NoBlankLines(ls[1..][..EndloopIndex(ls[1..])])
  {
    var k := EndloopIndex(ls);
    PrefixSplit(ls, k);
    assert ls[..k][0] == ls[0];
    assert EndloopIndex(ls[1..]) == k - 1;
    var body := ls[1..][..k - 1];
    forall i | 0 <= i < |body|
      ensures Tokens(body[i]) != []
    {
      assert body[i] == ls[..k][i + 1];
    }
  }

  /// One line of a block without blank lines, before its `endloop`: if the
  /// rest of the block yields what `FilledLoop` says, so does the block.
  lemma LoopFillsStep(ls: seq<Line>, held: Token, vi: nat, f: Facet)
    requires f.Valid() && 0 < EndloopIndex(ls) < |ls|
    requires Tokens(ls[0]) != [] && Tokens(ls[0])[0] != ENDLOOP
    requires EndloopIndex(ls[1..]) == EndloopIndex(ls) - 1
    requires var ts := Tokens(ls[0]);
             var vi' := if ts[0] == VERTEX then vi + 1 else vi;
             LoopSpec(ls[1..], ts[0], vi', Fill(f, ts[0], ts, vi)) == FilledLoop(ls[1..], vi', Fill(f, ts[0], ts, vi))
    ensures LoopSpec(ls, held, vi, f) == FilledLoop(ls, vi, f)
  {
    var k := EndloopIndex(ls);
    var ts := Tokens(ls[0]);
    var label1 := ts[0];
    var vi' := if label1 == VERTEX then vi + 1 else vi;
    var f' := Fill(f, label1, ts, vi);
    LoopStep(ls, held, vi, f);
    FilledLoopTail(ls, k, vi', f');
    FilledEndAfterLine(ls, k, vi, f);
  }

  /// `FilledAfterLine` for the loop end the block leaves.
  lemma FilledEndAfterLine(ls: seq<Line>, k: nat, vi: nat, f: Facet)
    requires f.Valid() && 0 < k < |ls| && EndloopIndex(ls) == k && Tokens(ls[0]) != []
    ensures var ts := Tokens(ls[0]);
            var vi' := if ts[0] == VERTEX then vi + 1 else vi;
            var rest := VertexTokens(ls[1..][..k - 1]);
            Success(LoopEnd(Filled(Fill(f, ts[0], ts, vi), vi', rest), vi' + |rest|, ls[k + 1..])) == FilledLoop(ls, vi, f)
  {
    FilledAfterLine(ls, k, vi, f);
  }

  /// `FilledLoop` on the lines after the first line of a block whose
  /// `endloop` is at `k`.
  lemma FilledLoopTail(ls: seq<Line>, k: nat, vi: nat, f: Facet)
    requires f.Valid() && 0 < k < |ls| && EndloopIndex(ls[1..]) == k - 1
    ensures FilledLoop(ls[1..], vi, f) ==
            Success(LoopEnd(Filled(f, vi, VertexTokens(ls[1..][..k - 1])),
                            vi + |VertexTokens(ls[1..][..k - 1])|, ls[k + 1..]))
  {
    assert ls[1..][k..] == ls[k + 1..];
  }

  /// The facet and count after the first line of a block and the rest of
  /// it are those after the whole block.
  lemma FilledAfterLine(ls: seq<Line>, k: nat, vi: nat, f: Facet)
    requires f.Valid() && 0 < k <= |ls| && Tokens(ls[0]) != []
    ensures var ts := Tokens(ls[0]);
            var vi' := if ts[0] == VERTEX then vi + 1 else vi;
            var rest := VertexTokens(ls[1..][..k - 1]);
            var vts := VertexTokens(ls[..k]);
            Filled(Fill(f, ts[0], ts, vi), vi', rest) == Filled(f, vi, vts) && vi' + |rest| == vi + |vts|
  {
    var ts := Tokens(ls[0]);
    var rest := VertexTokens(ls[1..][..k - 1]);
    var vts := VertexTokens(ls[..k]);
    PrefixSplit(ls, k);
    if ts[0] == VERTEX {
      assert vts == [ts] + rest;
      FilledStep(f, vi, ts, rest);
    } else {
      assert vts == rest;
    }
  }

  /// A facet block that parses starts with `outer loop`, keeps to at most
  /// three `vertex` lines before its first `endloop`, has `endfacet` right
  /// after that `endloop`, and parsing resumes after the `endfacet`.
  lemma FacetSuccessShape(ls: seq<Line>, f: Facet)
    requires f.Valid() && FacetSpec(ls, f).Success?
    ensures ls != [] && IsOuterLoop(ls[0])
    ensures var body := ls[1..];
            var k := EndloopIndex(body);
            k + 1 < |body| && Head(body[k + 1]) == ENDFACET &&
            |VertexTokens(body[..k])| <= 3 &&
            FacetSpec(ls, f).value.rest == body[k + 2..]
  {
    LoopStopsAtEndloop(ls[1..], OUTER, 0, f);
    var body := ls[1..];
    var k := EndloopIndex(body);
    assert body[k + 1..][1..] == body[k + 2..];
  }

  /// A loop with a fourth `vertex` line before its `endloop` is rejected as
  /// not a triangle (or, with no `endloop` at all, never finishes).
  lemma FourthVertexRejected(ls: seq<Line>, f: Facet)
    requires f.Valid() && ls != [] && IsOuterLoop(ls[0])
    requires |VertexTokens(ls[1..][..EndloopIndex(ls[1..])])| > 3
    ensures FacetSpec(ls, f) == Failure(if EndloopIndex(ls[1..]) < |ls| - 1 then NotTriangle else Diverges)
  {
    LoopStopsAtEndloop(ls[1..], OUTER, 0, f);
  }

  /// A facet block without blank lines, from its `outer loop` line: the
  /// result is exactly "at most three vertex lines, `endfacet` after
  /// `endloop`, slots filled in order and the unfilled ones left as given".
  lemma FacetOfBlock(ls: seq<Line>, f: Facet)
    requires f.Valid() && ls != [] && IsOuterLoop(ls[0])
    requires EndloopIndex(ls[1..]) < |ls[1..]| && NoBlankLines(ls[1..][..EndloopIndex(ls[1..])])
    ensures var body := ls[1..];
            var k := EndloopIndex(body);
            var vts := VertexTokens(body[..k]);
            FacetSpec(ls, f) ==
              if |vts| > 3 then Failure(NotTriangle)
              else if k + 1 == |body| || Head(body[k + 1]) != ENDFACET then Failure(Syntax)
              else Success(FacetEnd(Filled(f, 0, vts), body[k + 2..]))
  {
    LoopFillsSlots(ls[1..], OUTER, 0, f);
    var body := ls[1..];
    var k := EndloopIndex(body);
    assert k + 1 < |body| ==> body[k + 1..][1..] == body[k + 2..];
  }

  /// A solid that parses ends either where the input ends or right after a
  /// line whose first token is `endsolid`.
  lemma {:induction false} SolidEndsAtEndsolid(ls: seq<Line>, kind: Token, param: Token, acc: seq<Facet>)
    requires AllTriangles(acc) && kind != ENDSOLID
    requires SolidSpec(ls, kind, param, acc).Success?
    ensures var rest := SolidSpec(ls, kind, param, acc).value.rest;
            rest == [] || (|rest| < |ls| && Head(ls[|ls| - |rest| - 1]) == ENDSOLID)
  {
    if ls != [] {
      var ts := Tokens(ls[0]);
      var kind' := Extract(ts, 0, kind);
      if kind' == FACET {
        var param' := Extract(ts, 1, param);
        var fe := FacetSpec(ls[1..], ZeroFacet.(normal := NormalText(ts, ZeroNormal))).value;
        SolidEndsAtEndsolid(fe.rest, kind', param', acc + [fe.facet]);
        var rest := SolidSpec(ls, kind, param, acc).value.rest;
        if rest != [] {
          assert fe.rest[|fe.rest| - |rest| - 1] == ls[|ls| - |rest| - 1];
        }
      }
    }
  }

  /// Inside a solid, a line whose first token is neither `endsolid` nor
  /// `facet` is rejected, and so is a `facet` line without `normal`.
  lemma SolidRejectsStrayLines(ls: seq<Line>, kind: Token, param: Token, acc: seq<Facet>)
    requires AllTriangles(acc) && ls != [] && Tokens(ls[0]) != []
    ensures Head(ls[0]) != ENDSOLID && Head(ls[0]) != FACET ==>
              SolidSpec(ls, kind, param, acc) == Failure(Syntax)
    ensures Head(ls[0]) == FACET && Extract(Tokens(ls[0]), 1, param) != NORMAL ==>
              SolidSpec(ls, kind, param, acc) == Failure(Syntax)
  {
  }

  /// A blank line right after a facet inside a solid repeats `facet normal`:
  /// it opens another facet, whose normal stays zero.
  lemma BlankLineRepeatsFacet(ls: seq<Line>, acc: seq<Facet>)
    requires AllTriangles(acc) && ls != [] && Tokens(ls[0]) == []
    ensures SolidSpec(ls, FACET, NORMAL, acc) ==
            var r := FacetSpec(ls[1..], ZeroFacet);
            if r.Failure? then Failure(r.error) else SolidSpec(r.value.rest, FACET, NORMAL, acc + [r.value.facet])
  {
  }

  /// Outside a solid, every line must open one: any other first token is
  /// rejected.
  lemma FileRejectsNonSolidLine(ls: seq<Line>, kind: Token, name: Token, acc: seq<Facet>)
    requires AllTriangles(acc) && ls != [] && Tokens(ls[0]) != [] && Head(ls[0]) != SOLID
    ensures FileSpec(ls, kind, name, acc) == Failure(Syntax)
  {
  }
}
