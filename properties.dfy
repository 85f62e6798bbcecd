/** Properties of the validator: the centre guard, ASCII input, multi-byte
    input and the unit tests of `src/main.rs`. */
module PolyndromeProperties {
  import opened RustStr
  import opened Polyndrome

  /** The string read back to front. */
  function Reverse(s: seq<char>): (r: seq<char>)
    ensures |r| == |s|
  {
    seq(|s|, i requires 0 <= i < |s| => s[|s| - 1 - i])
  }

  /** For an odd length the last step of the scan is the centre, whose pair
      is the scalar with itself: the centre is visited yet never reported. */
  lemma CentreNeverReported(s: seq<char>)
    ensures ByteLen(s) % 2 == 1 ==>
              Half(ByteLen(s)) - 1 == ByteLen(s) / 2
              && PairMatches(s, ByteLen(s), ByteLen(s) / 2)
              && MismatchIndex(s) != ByteLen(s) / 2
  {
  }

  /** For ASCII text the validator accepts exactly the strings of odd length
      at least 3 whose first `len / 2` characters mirror the last ones: the
      centre is exempt and positions are plain sequence indices. */
  lemma {:induction false} AsciiAcceptance(s: seq<char>)
    requires AllAscii(s)
    ensures CheckPolyndrome(s).Ok? <==>
              |s| >= 3 && |s| % 2 == 1
              && forall i :: 0 <= i < |s| / 2 ==> s[i] == s[|s| - 1 - i]
  {
    var n := |s|;
    if n >= 3 && n % 2 == 1 {
      if forall i :: 0 <= i < n / 2 ==> s[i] == s[n - 1 - i] {
        forall j | 0 <= j < Half(n) ensures PairMatches(s, n, j) {
          if j < n / 2 {
            assert s[j] == s[n - 1 - j];
          }
        }
      }
      if IsMirror(s) {
        forall i | 0 <= i < n / 2 ensures s[i] == s[n - 1 - i] {
          assert PairMatches(s, n, i);
        }
      }
    }
  }

  /** For ASCII text the validator accepts exactly the strings of odd length
      at least 3 that read the same backwards. */
  lemma {:induction false} AsciiAcceptsPalindromes(s: seq<char>)
    requires AllAscii(s)
    ensures CheckPolyndrome(s).Ok? <==> |s| >= 3 && |s| % 2 == 1 && s == Reverse(s)
  {
    AsciiAcceptance(s);
    var n := |s|;
    if s == Reverse(s) {
      forall i | 0 <= i < n / 2 ensures s[i] == s[n - 1 - i] {
        assert Reverse(s)[i] == s[n - 1 - i];
      }
    }
    if n >= 3 && n % 2 == 1 && forall i :: 0 <= i < n / 2 ==> s[i] == s[n - 1 - i] {
      forall i | 0 <= i < n ensures s[i] == Reverse(s)[i] {
        if i > n / 2 {
          assert s[n - 1 - i] == s[n - 1 - (n - 1 - i)];
        }
      }
    }
  }

  /** A string holding any multi-byte scalar fails at position 0: its first
      scalar exists but `chars().nth(len - 1)` is `None`. Hence the
      validator never accepts such a string, however symmetric it is. */
  lemma {:induction false} MultiByteNeverAccepted(s: seq<char>)
    requires !AllAscii(s)
    ensures MismatchIndex(s) == 0
    ensures !CheckPolyndrome(s).Ok?
    ensures ByteLen(s) >= 3 && ByteLen(s) % 2 == 1 ==> CheckPolyndrome(s) == Err(Asymmetric(0))
  {
    var n := ByteLen(s);
    assert Nth(s, n - 1) == None;
    assert !PairMatches(s, n, 0);
  }

  /** Over the whole input domain, an accepted string is ASCII text of odd
      length at least 3 whose first `len / 2` characters mirror the last. */
  lemma {:induction false} AcceptedIsAsciiMirror(s: seq<char>)
    requires CheckPolyndrome(s).Ok?
    ensures AllAscii(s) && |s| >= 3 && |s| % 2 == 1
    ensures forall i :: 0 <= i < |s| / 2 ==> s[i] == s[|s| - 1 - i]
  {
    if !AllAscii(s) {
      MultiByteNeverAccepted(s);
    }
    AsciiAcceptance(s);
  }

  /** The first mismatch is unique, so it pins down the scan's result. */
  lemma FirstMismatchDecides(s: seq<char>, k: int)
    requires IsFirstMismatch(s, k)
    ensures MismatchIndex(s) == k
  {
  }

  /** `test_short_validation`: `invalid_index("ab") == 0`; and
      `test_short_input`: "ab" is too short. */
  lemma TestShort()
    ensures MismatchIndex("ab") == 0
    ensures CheckPolyndrome("ab") == Err(TooShort)
  {
    var s := "ab";
    assert AllAscii(s);
    assert !PairMatches(s, 2, 0);
    FirstMismatchDecides(s, 0);
  }

  /** `test_shortest_possible_validation` and `test_shortest_valid_input`. */
  lemma TestShortestValid()
    ensures MismatchIndex("axa") == -1
    ensures CheckPolyndrome("axa") == Ok(true)
  {
    var s := "axa";
    assert AllAscii(s);
    assert PairMatches(s, 3, 0) && PairMatches(s, 3, 1);
  }

  /** `test_shortest_possible_failing_validation`. */
  lemma TestShortestFailing()
    ensures MismatchIndex("abc") == 0
    ensures CheckPolyndrome("abc") == Err(Asymmetric(0))
  {
    var s := "abc";
    assert AllAscii(s);
    assert !PairMatches(s, 3, 0);
    FirstMismatchDecides(s, 0);
  }

  /** Lower-case Latin letters are single-byte scalars. */
  lemma LettersAreAscii(s: seq<char>)
    requires forall i :: 0 <= i < |s| ==> 'a' <= s[i] <= 'z'
    ensures AllAscii(s) && ByteLen(s) == |s|
  {
  }

  /** `test_failing_validation`: the first broken pair is at position 7.
      The string is a parameter so that its literal is not unfolded through
      the scan, which keeps the proof within the resource limit. */
  lemma TestFailing(s: seq<char>)
    requires s == "deadbeeaxfeebdaed"
    ensures MismatchIndex(s) == 7
    ensures CheckPolyndrome(s) == Err(Asymmetric(7))
  {
    LettersAreAscii(s);
    assert ByteLen(s) == 17;
    forall j | 0 <= j < 7 ensures PairMatches(s, 17, j) {
      assert s[j] == s[16 - j];
    }
    assert !PairMatches(s, 17, 7);
    FirstMismatchDecides(s, 7);
  }

  /** `test_success_validation` and `test_valid_input`.
      The string is a parameter so that its literal is not unfolded through
      the scan, which keeps the proof within the resource limit. */
  lemma TestValid(s: seq<char>)
    requires s == "deadbeefxfeebdaed"
    ensures MismatchIndex(s) == -1
    ensures CheckPolyndrome(s) == Ok(true)
  {
    LettersAreAscii(s);
    assert ByteLen(s) == 17;
    forall j | 0 <= j < 9 ensures PairMatches(s, 17, j) {
      assert s[j] == s[16 - j];
    }
  }

  /** `test_even_input`: "ababab" has even length. */
  lemma TestEven()
    ensures CheckPolyndrome("ababab") == Err(EvenLength)
  {
    assert AllAscii("ababab");
  }

  /** Multi-byte input: "éaé" is 5 bytes long and fails at position 0;
      "ééé" mirrors perfectly but is 6 bytes long.
      The strings are parameters so that their literals are not unfolded
      through the scan, which keeps the proof within the resource limit. */
  lemma TestMultiByte(s: seq<char>, t: seq<char>)
    requires s == "éaé" && t == "ééé"
    ensures CheckPolyndrome(s) == Err(Asymmetric(0))
    ensures CheckPolyndrome(t) == Err(EvenLength)
  {
    var e := "é";
    assert Utf8Width('é') == 2 && Utf8Width('a') == 1;
    assert ByteLen(e) == 2 + ByteLen(e[1..]) && e[1..] == [];
    assert s[1..][1..] == e && t[1..][1..] == e;
    assert ByteLen(s) == 2 + (1 + ByteLen(e));
    assert ByteLen(t) == 2 + (2 + ByteLen(e));
    assert !IsAscii(s[0]);
    MultiByteNeverAccepted(s);
  }
}
