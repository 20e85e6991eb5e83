/** Small shared vocabulary: bytes, optional values, results, and C-string helpers. */
module Base {

  /** One byte of RAM or flash. */
  type byte = bv8

  /** A value that may be absent: a null pointer, a missing dictionary key. */
  datatype Option<+T> = None | Some(value: T)

  /** Either a value or the error that stopped the computation. */
  datatype Result<+T, +E> = Success(value: T) | Failure(error: E)

  function Min(a: nat, b: nat): (m: nat)
    ensures m <= a && m <= b
    ensures m == a || m == b
  {
    if a <= b then a else b
  }

  /** `n` copies of the byte `v`, as left behind by a flash erase. */
  function Fill(v: byte, n: nat): (s: seq<byte>)
    ensures |s| == n
    ensures forall i :: 0 <= i < n ==> s[i] == v
  {
    seq(n, _ => v)
  }

  /** The characters a C `char *` designates: everything before the first NUL. */
  function CString(s: seq<char>): (r: seq<char>)
    ensures r <= s
    ensures '\0' !in r
    ensures |r| < |s| ==> s[|r|] == '\0'
  {
    if |s| == 0 || s[0] == '\0' then [] else [s[0]] + CString(s[1..])
  }

  /** A string without an embedded NUL is its own C string. */
  lemma {:induction false} CStringOfPlain(s: seq<char>)
    requires '\0' !in s
    ensures CString(s) == s
  {
    if |s| > 0 {
      assert '\0' !in s[1..];
      CStringOfPlain(s[1..]);
    }
  }
}
