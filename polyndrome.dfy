/** The polyndrome validator of `src/main.rs`.

    A polyndrome is a string of odd length, at least 3, whose characters
    mirror around the centre. Lengths are `str::len` (UTF-8 bytes) and
    positions are `chars().nth` (scalars), exactly as in the source; the
    module `RustStr` models both. */
module Polyndrome {
  import opened RustStr

  /** Why `check_polyndrome` rejects its input; one variant per error
      message of the source. */
  datatype Reason = TooShort | EvenLength | Asymmetric(index: int)

  /** `Result<bool, String>` with the message replaced by its `Reason`. */
  datatype Outcome = Ok(value: bool) | Err(reason: Reason)

  /** Exclusive upper bound `(len + 1) / 2` of the scan in `invalid_index`. */
  function Half(len: nat): nat {
    (len + 1) / 2
  }

  /** Position `j` and its mirror `len - 1 - j` hold the same scalar, as
      `chars().nth` reports them (a missing scalar is `None`). */
  predicate PairMatches(s: seq<char>, len: nat, j: int) {
    Nth(s, j) == Nth(s, len - 1 - j)
  }

  /** Every pair below `k` matches. */
  predicate MatchesBelow(s: seq<char>, len: nat, lo: int, k: int) {
    forall j :: lo <= j < k ==> PairMatches(s, len, j)
  }

  /** Every pair the scan of `invalid_index` visits matches. */
  predicate IsMirror(s: seq<char>) {
    MatchesBelow(s, ByteLen(s), 0, Half(ByteLen(s)))
  }

  /** `k` is the first position of the scan whose pair differs. */
  predicate IsFirstMismatch(s: seq<char>, k: int) {
    0 <= k < Half(ByteLen(s))
    && !PairMatches(s, ByteLen(s), k)
    && MatchesBelow(s, ByteLen(s), 0, k)
  }

  /** What the validator accepts: odd byte length of at least 3 and every
      scanned pair matching. */
  predicate IsPolyndrome(s: seq<char>) {
    ByteLen(s) >= 3 && ByteLen(s) % 2 == 1 && IsMirror(s)
  }

  /** Reference scan from position `i` on, without the source's centre
      guard: the first mismatching position at or after `i`, or -1. */
  function ScanFrom(s: seq<char>, len: nat, i: nat): (r: int)
    ensures r == -1 || i <= r < Half(len)
    ensures r == -1 <==> MatchesBelow(s, len, i, Half(len))
    ensures r >= 0 ==> !PairMatches(s, len, r) && MatchesBelow(s, len, i, r)
    decreases Half(len) - i
  {
    if i >= Half(len) then -1
    else if !PairMatches(s, len, i) then i
    else ScanFrom(s, len, i + 1)
  }

  /** The value `invalid_index` returns, as a function of the input. */
  function MismatchIndex(s: seq<char>): (r: int)
    ensures r == -1 <==> IsMirror(s)
    ensures r != -1 ==> IsFirstMismatch(s, r)
  {
    ScanFrom(s, ByteLen(s), 0)
  }

  /** `invalid_index`: scans `i` over `0 .. (len + 1) / 2` and returns the
      first `i` whose scalar differs from the one at `len - i - 1`, or -1.
      The guard `i != (len + 1) / 2` is kept; the method is proved equal to
      the guard-free `MismatchIndex`, so the guard never decides anything. */
  method InvalidIndex(input: seq<char>) returns (r: int)
    ensures r == MismatchIndex(input)
    ensures -1 <= r < Half(ByteLen(input))
    ensures r == -1 <==> IsMirror(input)
    ensures r != -1 ==> IsFirstMismatch(input, r)
  {
    var len := ByteLen(input);
    var i := 0;
    while i < (len + 1) / 2
      invariant 0 <= i <= Half(len)
      invariant MatchesBelow(input, len, 0, i)
      invariant ScanFrom(input, len, i) == ScanFrom(input, len, 0)
    {
      assert len - i - 1 >= 0;
      var current := Nth(input, i);
      var opposite := Nth(input, len - i - 1);
      assert i != (len + 1) / 2;
      if current != opposite && i != (len + 1) / 2 {
        return i;
      }
      i := i + 1;
    }
    return -1;
  }

  /** `check_polyndrome`: too short, then even length, then asymmetric at
      the index `invalid_index` reports; otherwise `Ok(true)`. The first
      failing guard decides the error. */
  function CheckPolyndrome(input: seq<char>): (r: Outcome)
    ensures r == Err(TooShort) <==> ByteLen(input) < 3
    ensures r == Err(EvenLength) <==> ByteLen(input) >= 3 && ByteLen(input) % 2 == 0
    ensures r.Ok? <==> IsPolyndrome(input)
    ensures r.Ok? ==> r.value
    ensures r.Err? && r.reason.Asymmetric? ==>
              ByteLen(input) >= 3 && ByteLen(input) % 2 == 1
              && r.reason.index == MismatchIndex(input)
              && IsFirstMismatch(input, r.reason.index)
  {
    var len := ByteLen(input);
    if len < 3 then Err(TooShort)
    else if len % 2 == 0 then Err(EvenLength)
    else
      var index := MismatchIndex(input);
      if index != -1 then Err(Asymmetric(index))
      else Ok(true)
  }
}
