/// How the ASCII parser sees its input: `std::getline` cuts the byte stream
/// into lines at '\n', and `std::istringstream >> std::string` cuts a line
/// into whitespace-delimited tokens.
module Text {
  import opened Bytes

  type Line = seq<byte>

  /// A token as `>>` produces it: non-empty and free of whitespace.
  predicate IsWord(t: Token) {
    |t| > 0 && forall j :: 0 <= j < |t| ==> !IsSpace(t[j])
  }

  /// Length of the first line of `s`: the index of its first '\n', or |s|.
  function LineLength(s: seq<byte>): (n: nat)
    ensures n <= |s|
    ensures forall j :: 0 <= j < n ==> s[j] != NEWLINE
    ensures n < |s| ==> s[n] == NEWLINE
  {
    if s == [] || s[0] == NEWLINE then 0 else 1 + LineLength(s[1..])
  }

  /// The lines successive `std::getline` calls return before one fails: the
  /// '\n' is consumed and not stored, and a final line without '\n' still
  /// counts, while nothing after a final '\n' does.
  function Lines(s: seq<byte>): (ls: seq<Line>)
    ensures s == [] <==> ls == []
    decreases |s|
  {
    if s == [] then []
    else
      var n := LineLength(s);
      [s[..n]] + (if n < |s| then Lines(s[n + 1..]) else [])
  }

  /// The first line of non-empty input ends at its first '\n' (or at its
  /// end); the lines after it are those of the bytes past that '\n'.
  lemma FirstLine(s: seq<byte>)
    requires s != []
    ensures var n := LineLength(s);
            Lines(s) != [] && Lines(s)[0] == s[..n] &&
            Lines(s)[1..] == Lines(s[if n < |s| then n + 1 else n..])
  {
    var n := LineLength(s);
    var tail := s[if n < |s| then n + 1 else n..];
    assert n == |s| ==> tail == [];
    assert Lines(s) == [s[..n]] + Lines(tail);
  }

  /// No line contains a '\n': each stops at the first one.
  lemma {:induction false} LinesHaveNoNewline(s: seq<byte>)
    ensures forall i :: 0 <= i < |Lines(s)| ==> NEWLINE !in Lines(s)[i]
    decreases |s|
  {
    if s != [] {
      var n := LineLength(s);
      var tail := s[if n < |s| then n + 1 else n..];
      FirstLine(s);
      FirstLineClean(s);
      if n < |s| {
        LinesHaveNoNewline(tail);
      }
      forall i | 0 <= i < |Lines(s)|
        ensures NEWLINE !in Lines(s)[i]
      {
        if i > 0 {
          assert Lines(s)[i] == Lines(s)[1..][i - 1];
        }
      }
    }
  }

  /// The first line holds no '\n'.
  lemma FirstLineClean(s: seq<byte>)
    ensures NEWLINE !in s[..LineLength(s)]
  {
    var n := LineLength(s);
    forall j | 0 <= j < n
      ensures s[..n][j] != NEWLINE
    {
      assert s[..n][j] == s[j];
    }
  }

  /// Input that is empty or ends in '\n' is its lines written back, each
  /// followed by '\n': splitting loses nothing.
  lemma {:induction false} TerminatedOfLines(s: seq<byte>)
    requires s == [] || s[|s| - 1] == NEWLINE
    ensures Terminated(Lines(s)) == s
    decreases |s|
  {
    if s != [] {
      var n := LineLength(s);
      assert n < |s|;
      var tail := s[n + 1..];
      FirstLine(s);
      assert tail == [] || tail[|tail| - 1] == s[|s| - 1];
      TerminatedOfLines(tail);
      Rejoin(s, n);
    }
  }

  /// A line followed by '\n' is the first line of what follows.
  lemma FirstNewlineAt(l: Line, tail: seq<byte>)
    requires NEWLINE !in l
    ensures LineLength(l + [NEWLINE] + tail) == |l|
  {
    SplitAround(l, NEWLINE, tail);
  }

  /// Length of the leading word of `s`: up to its first whitespace byte.
  function WordLength(s: seq<byte>): (n: nat)
    ensures n <= |s|
    ensures forall j :: 0 <= j < n ==> !IsSpace(s[j])
    ensures n < |s| ==> IsSpace(s[n])
  {
    if s == [] || IsSpace(s[0]) then 0 else 1 + WordLength(s[1..])
  }

  /// Number of white-space bytes `s` starts with: what the `>>` sentry skips.
  function LeadingSpaces(s: seq<byte>): (n: nat)
    ensures n <= |s|
    ensures forall j :: 0 <= j < n ==> IsSpace(s[j])
    ensures n < |s| ==> !IsSpace(s[n])
  {
    if s == [] || !IsSpace(s[0]) then 0 else 1 + LeadingSpaces(s[1..])
  }

  /// A line that starts with a word: its tokens are empty exactly when it
  /// is empty, and otherwise begin with that word.
  lemma WordFirst(t: seq<byte>)
    requires t == [] || !IsSpace(t[0])
    ensures Tokens(t) == [] <==> t == []
    ensures t != [] ==> Tokens(t)[0] == t[..WordLength(t)]
  {
  }

  /// The white space a line starts with yields no token.
  lemma {:induction false} SpacesSkipped(s: seq<byte>)
    ensures Tokens(s) == Tokens(s[LeadingSpaces(s)..])
    decreases |s|
  {
    if s != [] && IsSpace(s[0]) {
      SpacesSkipped(s[1..]);
      DropFirst(s, LeadingSpaces(s));
    } else {
      assert s[0..] == s;
    }
  }

  /// Slices of `s[1..]` are the slices of `s` one further on.
  lemma DropFirst(s: seq<byte>, k: nat)
    requires 0 < k <= |s|
    ensures s[1..][k - 1..] == s[k..]
  {
  }

  /// The tokens successive `>>` extractions into a `std::string` take from a
  /// line: leading whitespace is skipped, then a maximal run of other bytes.
  function Tokens(s: seq<byte>): (ts: seq<Token>)
    ensures forall i :: 0 <= i < |ts| ==> IsWord(ts[i])
    decreases |s|
  {
    if s == [] then []
    else if IsSpace(s[0]) then Tokens(s[1..])
    else
      var n := WordLength(s);
      [s[..n]] + Tokens(s[n..])
  }

  /// Lines each written with a terminating '\n'.
  function Terminated(ls: seq<Line>): seq<byte> {
    if ls == [] then [] else ls[0] + [NEWLINE] + Terminated(ls[1..])
  }

  /// Tokens written with one space between each two of them.
  function Joined(ts: seq<Token>): seq<byte> {
    if ts == [] then []
    else if |ts| == 1 then ts[0]
    else ts[0] + [SPACE] + Joined(ts[1..])
  }

  /// `getline` splits '\n'-terminated lines back into exactly those lines.
  lemma {:induction false} LinesOfTerminated(ls: seq<Line>)
    requires forall i :: 0 <= i < |ls| ==> NEWLINE !in ls[i]
    ensures Lines(Terminated(ls)) == ls
  {
    if ls != [] {
      var l, tail := ls[0], Terminated(ls[1..]);
      var s := Terminated(ls);
      assert s == l + [NEWLINE] + tail;
      FirstNewlineAt(l, tail);
      SplitAround(l, NEWLINE, tail);
      LinesOfTerminated(ls[1..]);
      assert Lines(s) == [l] + Lines(tail);
    }
  }

  /// A line with leading whitespace has the same tokens as the rest of it.
  lemma {:induction false} TokensSkipSpace(b: byte, rest: seq<byte>)
    requires IsSpace(b)
    ensures Tokens([b] + rest) == Tokens(rest)
  {
    assert ([b] + rest)[1..] == rest;
  }

  /// The extractor splits space-separated words back into exactly those words.
  lemma {:induction false} TokensOfJoined(ts: seq<Token>)
    requires forall i :: 0 <= i < |ts| ==> IsWord(ts[i])
    ensures Tokens(Joined(ts)) == ts
  {
    if |ts| == 1 {
      TokensOfWord(ts[0]);
    } else if ts != [] {
      assert Joined(ts) == ts[0] + [SPACE] + Joined(ts[1..]);
      TokensOfWordThen(ts[0], Joined(ts[1..]));
      TokensOfJoined(ts[1..]);
      assert [ts[0]] + ts[1..] == ts;
    }
  }

  /// A word, a space and then any bytes: the word, then the tokens of the
  /// bytes.
  lemma TokensOfWordThen(w: Token, tail: seq<byte>)
    requires IsWord(w)
    ensures Tokens(w + [SPACE] + tail) == [w] + Tokens(tail)
  {
    var s := w + [SPACE] + tail;
    assert s[|w|] == SPACE;
    assert forall j :: 0 <= j < |w| ==> s[j] == w[j];
    assert WordLength(s) == |w|;
    assert s[..|w|] == w;
    assert s[|w|..] == [SPACE] + tail;
    TokensSkipSpace(SPACE, tail);
  }

  /// A single word is its own one token.
  lemma TokensOfWord(w: Token)
    requires IsWord(w)
    ensures Tokens(w) == [w]
  {
    assert WordLength(w) == |w|;
    assert w[..|w|] == w && w[|w|..] == [];
  }
}
