/// The `std::istream` the loader reads from: a byte sequence, a cursor, and
/// the failbit that a read past the end sets and that later reads and seeks
/// respect.
module Streams {
  import opened Bytes
  import opened Results
  import opened Text

  /// The scan `std::getline` performs: the index of the first '\n' at or
  /// after `from`, or |data| when there is none; that is, `from` plus the
  /// length of the first line of what is left.
  method FindNewline(data: seq<byte>, from: nat) returns (k: nat)
    requires from <= |data|
    ensures k == from + LineLength(data[from..])
  {
    k := from;
    while k < |data| && data[k] != NEWLINE
      invariant from <= k <= |data|
      invariant LineLength(data[from..]) == k - from + LineLength(data[k..])
    {
      assert data[k..][1..] == data[k + 1..];
      k := k + 1;
    }
  }

  /// The same, for the line `std::getline` returns from offset `p`, which
  /// ends at `k`.
  lemma NextLine(data: seq<byte>, p: nat, k: nat)
    requires p < |data| && k == p + LineLength(data[p..])
    ensures Lines(data[p..]) != [] && Lines(data[p..])[0] == data[p..k]
    ensures Lines(data[p..])[1..] == Lines(data[if k < |data| then k + 1 else k..])
  {
    var s, next := data[p..], if k < |data| then k + 1 else k;
    FirstLine(s);
    PrefixOfSuffix(data, p, k);
    calc {
      Lines(s)[1..];
      Lines(s[next - p..]);
      { SuffixOfSuffix(data, p, next); }
      Lines(data[next..]);
    }
  }

  class Stream {
    const data: seq<byte>
    var pos: nat
    var failed: bool

    ghost predicate Valid()
      reads this
    {
      pos <= |data|
    }

    /// What later reads can still deliver.
    ghost function Rest(): seq<byte>
      reads this
      requires Valid()
    {
      if failed then [] else data[pos..]
    }

    /// What later `std::getline` calls can still deliver.
    ghost function PendingLines(): seq<Line>
      reads this
      requires Valid()
    {
      Lines(Rest())
    }

    /// A freshly opened stream, positioned at its start.
    constructor (input: seq<byte>)
      ensures Valid() && data == input && pos == 0 && !failed
    {
      data, pos, failed := input, 0, false;
    }

    /// `is.read(buf, n)`: delivers up to `n` bytes; delivering fewer sets the
    /// failbit.
    method Read(n: nat) returns (chunk: seq<byte>)
      requires Valid()
      modifies this
      ensures Valid()
      ensures n <= |old(Rest())| ==> chunk == old(Rest())[..n] && Rest() == old(Rest())[n..] && failed == old(failed)
      ensures |old(Rest())| < n ==> chunk == old(Rest()) && failed
      ensures pos == old(pos) + |chunk|
    {
      if failed {
        chunk := [];
      } else if pos + n <= |data| {
        chunk := data[pos..pos + n];
        pos := pos + n;
      } else {
        chunk := data[pos..];
        pos := |data|;
        failed := true;
      }
    }

    /// `is.seekg(0)`: refused while the failbit is set.
    method Rewind()
      requires Valid()
      modifies this
      ensures Valid() && failed == old(failed)
      ensures pos == if failed then old(pos) else 0
      ensures !failed ==> Rest() == data
    {
      if !failed {
        pos := 0;
      }
    }

    /// `std::getline(is, line)`: None when it fails for want of input (and
    /// sets the failbit); otherwise the next line, without its '\n'.
    method GetLine() returns (line: Option<Line>)
      requires Valid()
      modifies this
      ensures Valid()
      ensures failed <==> old(PendingLines()) == []
      ensures old(PendingLines()) == [] ==> line == None && pos == old(pos)
      ensures old(PendingLines()) != [] ==>
                line == Some(old(PendingLines())[0]) && PendingLines() == old(PendingLines())[1..]
    {
      if failed || pos == |data| {
        failed := true;
        return None;
      }
      var k := FindNewline(data, pos);
      NextLine(data, pos, k);
      var next := if k < |data| then k + 1 else k;
      line := Some(data[pos..k]);
      pos := next;
    }
  }
}
