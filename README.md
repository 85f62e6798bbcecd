# Polyndrome validator

A Dafny model of the validator in `src/main.rs` of Polyndrome, a command-line
tool that checks whether a string is a "polyndrome". A polyndrome is a string
of odd length, at least 3, that mirrors around its centre. The centre
character is compared with itself, so it is exempt.

The validator has two parts:

- `invalid_index` scans `i` over `0 .. (len + 1) / 2`. It compares the
  character at `i` with the one at `len - i - 1`. It returns the first
  differing `i`, or -1 when every pair matches. It is modelled as the method
  `Polyndrome.InvalidIndex`, a `while` loop with invariants. The method is
  proved equal to the pure reference scan `Polyndrome.MismatchIndex`.
- `check_polyndrome` is a chain of guards. It rejects the input as too short,
  then as even-length, then as asymmetric at the index `invalid_index`
  reports. Otherwise it returns `Ok(true)`. It is modelled as the function
  `Polyndrome.CheckPolyndrome`. The error messages become the datatype
  `Reason = TooShort | EvenLength | Asymmetric(index)`.

Strings are modelled faithfully to Rust's `&str`, not only for ASCII:

- A string is the `seq<char>` of its Unicode scalars.
- `str::len` (`RustStr.ByteLen`) counts UTF-8 bytes.
- `chars().nth(k)` (`RustStr.Nth`) counts scalars and returns `None` past the
  end.
- On ASCII text the two agree (`ByteLen(s) == |s|` exactly when
  `AllAscii(s)`). The lemmas `AsciiAcceptance` and `AsciiAcceptsPalindromes`
  restate the validator in plain sequence terms for that case.
- On text with a multi-byte scalar, the byte length exceeds the scalar count.
  So the scan compares the first scalar with `None` and fails at position 0.
  `MultiByteNeverAccepted` proves that such a string is never accepted,
  however symmetric it is. This is the source's behaviour, kept as it is.

The guard `i != (len + 1) / 2` in `invalid_index` is kept in
`InvalidIndex`, and an assertion inside the loop shows it always holds there.
The method is proved equal to `MismatchIndex`, which has no
such guard, so the guard never changes the result. `CentreNeverReported`
shows that for an odd length the last step of the scan is the centre.
The centre's pair is the scalar with itself, so it is never reported.

Files: `rust_str.dfy` (module `RustStr`, the `&str` queries),
`polyndrome.dfy` (module `Polyndrome`, the validator) and `properties.dfy`
(module `PolyndromeProperties`, lemmas and the unit tests of `src/main.rs`).

## Model

| member | source | states |
|---|---|---|
| `RustStr.ByteLen` | src/main.rs:13 | `input.len()` in UTF-8 bytes: at least the scalar count and at most four times it; equal to the scalar count exactly when every scalar is ASCII |
| `RustStr.Nth` | src/main.rs:15-16 | `input.chars().nth(k)`: the `k`-th Unicode scalar, or `None` at or past the scalar count; on ASCII text every byte position below `len()` names its scalar, and no position at or past `len()` names one |
| `Polyndrome.ScanFrom` | src/main.rs:14-22 | the scan from `i`: the result is -1 or lies in `[i, (len+1)/2)`; it is -1 exactly when every pair from `i` on matches; otherwise that pair differs and every pair between `i` and it matches |
| `Polyndrome.MismatchIndex` | src/main.rs:12-23 | the value of `invalid_index`: -1 exactly when every scanned pair matches, otherwise the first mismatching position |
| `Polyndrome.InvalidIndex` | src/main.rs:12-23 | the loop with its early return and the centre guard returns `MismatchIndex(input)`; the result is in `[-1, (len+1)/2)`; it is -1 iff the string mirrors; otherwise it is the first mismatch |
| `Polyndrome.CheckPolyndrome` | src/main.rs:50-69 | `TooShort` iff byte length < 3, even when that length is also even; `EvenLength` iff length >= 3 and even; `Ok` iff odd length >= 3 and mirrored, and then the value is `true`; an `Asymmetric` error carries exactly the first mismatch that `invalid_index` returns |
| `PolyndromeProperties.CentreNeverReported` | src/main.rs:14-17 | for an odd length the last scanned index is the centre `len / 2`; its pair matches, so it is never returned |
| `PolyndromeProperties.FirstMismatchDecides` | src/main.rs:14-19 | any position that is a first mismatch is the value `invalid_index` returns |
| `PolyndromeProperties.AsciiAcceptance` | src/main.rs:50-69 | on ASCII text the input is accepted iff its length is odd and at least 3 and `s[i] == s[len-1-i]` for every `i < len / 2` (the centre exempt) |
| `PolyndromeProperties.AsciiAcceptsPalindromes` | src/main.rs:50-69 | on ASCII text the input is accepted iff its length is odd and at least 3 and it equals its own reversal |
| `PolyndromeProperties.AcceptedIsAsciiMirror` | src/main.rs:50-69 | over every input, an accepted string is ASCII, of odd length at least 3, with `s[i] == s[len-1-i]` for every `i < len / 2` |
| `PolyndromeProperties.MultiByteNeverAccepted` | src/main.rs:13-18 | a string holding a multi-byte scalar has its first mismatch at 0, is never accepted, and is rejected as `Asymmetric(0)` when its byte length is odd and at least 3 |
| `PolyndromeProperties.TestShort` | src/main.rs:25-28 | `invalid_index("ab") == 0`; `check_polyndrome("ab")` is the too-short error (the test at lines 71-74) |
| `PolyndromeProperties.TestShortestValid` | src/main.rs:30-33 | `invalid_index("axa") == -1`; `check_polyndrome("axa")` is `Ok(true)` (the test at lines 86-89) |
| `PolyndromeProperties.TestShortestFailing` | src/main.rs:35-38 | `invalid_index("abc") == 0`, so `check_polyndrome("abc")` is asymmetric at 0 |
| `PolyndromeProperties.TestFailing` | src/main.rs:40-43 | `invalid_index("deadbeeaxfeebdaed") == 7`, so `check_polyndrome` reports asymmetry at 7 |
| `PolyndromeProperties.TestValid` | src/main.rs:45-48 | `invalid_index("deadbeefxfeebdaed") == -1`; `check_polyndrome` accepts it (the test at lines 81-84) |
| `PolyndromeProperties.TestEven` | src/main.rs:76-79 | `check_polyndrome("ababab")` is the even-length error |
| `PolyndromeProperties.TestMultiByte` | src/main.rs:50-66 | "éaé" (5 bytes) is asymmetric at 0, and "ééé" (6 bytes) is rejected for even length although it mirrors |

## Left out

- `main` and `Opt` (src/main.rs:4-10, 91-102): argument parsing through the `structopt` crate and coloured output through `text_colorizer` and `eprintln!`. These are I/O and foreign library calls.
- The wording of the error messages (src/main.rs:53, 58, 64), including the debug-quoting of the input. Each message is a `Reason` variant; `Asymmetric` keeps the index the message prints.
- The cost of `chars().nth(i)`, which is linear per call. Only the value it returns is modelled.
- The `i as i64` cast: `i` is below the byte length of a string in memory, so it always fits; the model returns an unbounded `int`.
- `Polyndrome.CheckPolyndrome` is a function, so it uses `MismatchIndex` where the source calls `invalid_index`; `InvalidIndex` is proved to return the same value.
- Idempotence of `check_polyndrome`: it is a pure function in the model, so two calls on the same input agree by construction.
