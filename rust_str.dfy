/** The two `&str` queries the validator relies on.

    A Rust string slice is a sequence of Unicode scalar values stored as
    UTF-8. `str::len` counts the BYTES of that encoding, while
    `str::chars().nth(k)` counts SCALARS and yields `None` past the last one.
    A string is modelled here as the `seq<char>` of its scalars (Dafny's
    `char` is a Unicode scalar value); its byte length is derived from the
    UTF-8 width of each scalar. For ASCII text the two counts coincide. */
module RustStr {

  datatype Option<T> = None | Some(value: T)

  /** A scalar that UTF-8 encodes in a single byte. */
  predicate IsAscii(c: char) {
    c as int < 0x80
  }

  predicate AllAscii(s: seq<char>) {
    forall i :: 0 <= i < |s| ==> IsAscii(s[i])
  }

  /** Number of bytes UTF-8 uses for the scalar `c`. */
  function Utf8Width(c: char): (w: nat)
    ensures 1 <= w <= 4
    ensures w == 1 <==> IsAscii(c)
  {
    if c as int < 0x80 then 1
    else if c as int < 0x800 then 2
    else if c as int < 0x1_0000 then 3
    else 4
  }

  /** `str::len`: the length of the UTF-8 encoding, in bytes. It is never
      less than the number of scalars and equals it exactly for ASCII text. */
  function ByteLen(s: seq<char>): (n: nat)
    ensures |s| <= n <= 4 * |s|
    ensures n == |s| <==> AllAscii(s)
  {
    if s == [] then 0
    else
      var n := Utf8Width(s[0]) + ByteLen(s[1..]);
      assert AllAscii(s) <==> IsAscii(s[0]) && AllAscii(s[1..]) by {
        if IsAscii(s[0]) && AllAscii(s[1..]) {
          forall i | 0 < i < |s| ensures IsAscii(s[i]) {
            assert s[i] == s[1..][i - 1];
          }
        }
      }
      n
  }

  /** `str::chars().nth(k)`: the `k`-th scalar, or `None` when the string has
      no `k`-th scalar. The source only asks for indices that are not
      negative; a negative `k` answers `None` as well. Measured against the
      byte length `str::len`, a byte position of ASCII text always names its
      scalar, and no position at or past the byte length names one. */
  function Nth(s: seq<char>, k: int): (r: Option<char>)
    ensures AllAscii(s) && 0 <= k < ByteLen(s) ==> r == Some(s[k])
    ensures k >= ByteLen(s) ==> r == None
  {
    if 0 <= k < |s| then Some(s[k]) else None
  }
}
