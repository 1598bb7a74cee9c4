/// Bytes, the C-string view of a char buffer, and the outcome types shared by
/// the STL loader model.
module Bytes {

  /// A C++ `char` as read from a binary-mode stream.
  newtype byte = x: int | 0 <= x < 256

  /// A whitespace-delimited word, as `std::istream >> std::string` extracts it.
  type Token = seq<byte>

  const NUL: byte := 0
  const NEWLINE: byte := 10
  const SPACE: byte := 32

  /// The "C" locale's `isspace`: space, \t, \n, \v, \f and \r.
  predicate IsSpace(b: byte) {
    b == SPACE || 9 <= b <= 13
  }

  /// Constructing a `std::string` from a `char*` keeps the bytes before the
  /// first NUL: the result is the longest NUL-free prefix of `buf`.
  function CutAtNul(buf: seq<byte>): (r: seq<byte>)
    ensures |r| <= |buf| && r == buf[..|r|]
    ensures NUL !in r
    ensures |r| < |buf| ==> buf[|r|] == NUL
  {
    if buf == [] || buf[0] == NUL then [] else [buf[0]] + CutAtNul(buf[1..])
  }

  /// `n` zero bytes, as `char buf[n] = ""` initialises a buffer.
  function Zeros(n: nat): (r: seq<byte>)
    ensures |r| == n && forall i :: 0 <= i < n ==> r[i] == NUL
  {
    seq(n, _ => NUL)
  }

  /// A prefix of a suffix is a slice of the original.
  lemma PrefixOfSuffix(s: seq<byte>, p: nat, k: nat)
    requires p <= k <= |s|
    ensures s[p..][..k - p] == s[p..k]
  {
  }

  /// A suffix of a suffix is a suffix of the original.
  lemma SuffixOfSuffix(s: seq<byte>, p: nat, q: nat)
    requires p <= q <= |s|
    ensures s[p..][q - p..] == s[q..]
  {
  }

  /// A slice of a prefix is the same slice of the original.
  lemma SliceOfPrefix(s: seq<byte>, n: nat, c: nat, d: nat)
    requires c <= d <= n <= |s|
    ensures s[..n][c..d] == s[c..d]
  {
  }

  /// A slice of a suffix is a slice of the original, shifted.
  lemma SliceOfSuffix(s: seq<byte>, p: nat, c: nat, d: nat)
    requires c <= d && p + d <= |s|
    ensures s[p..][c..d] == s[p + c..p + d]
  {
  }

  /// The pieces of `l + [b] + tail` sit where they were put.
  lemma SplitAround(l: seq<byte>, b: byte, tail: seq<byte>)
    ensures var s := l + [b] + tail;
            s[..|l|] == l && s[|l|] == b && s[|l| + 1..] == tail &&
            forall j :: 0 <= j < |l| ==> s[j] == l[j]
  {
  }

  /// Cutting a sequence around position n and joining the pieces again
  /// gives the sequence back.
  lemma Rejoin(s: seq<byte>, n: nat)
    requires n < |s|
    ensures s[..n] + [s[n]] + s[n + 1..] == s
  {
  }
}

module Results {

  datatype Option<T> = None | Some(value: T)

  /// Why a parse is rejected.
  datatype Error =
    | Syntax       // a bare `throw;`: a keyword that does not fit the grammar position
    | NotTriangle  // the `throw;` for a loop with more than three `vertex` lines
    | Diverges     // input ends inside a vertex loop, where the source's do-while never exits
    | Truncated    // binary input shorter than its header, count and records claim

  datatype Result<T> = Success(value: T) | Failure(error: Error)

  /// The outcome of a parser that fills a mesh passed by reference.
  datatype Status = Done | Rejected(error: Error)
}
