/** Bytes, C strings and the mbedTLS status codes shared by the rest of the model. */
module Wire {

  /** One C `char` of the request and response buffers. */
  newtype byte = b: int | 0 <= b < 256

  /** The terminator of a C string. */
  const NUL: byte := 0

  /** mbedTLS "not ready" status codes: the call must be repeated unchanged. */
  const WANT_READ: int := -0x6900
  const WANT_WRITE: int := -0x6880

  /** The value every ESP-IDF call returns on success. */
  const ESP_OK: int := 0

  datatype Option<T> = None | Some(value: T)

  predicate IsNotReady(code: int) {
    code == WANT_READ || code == WANT_WRITE
  }

  /** The bytes of a string literal written in ASCII. */
  function Ascii(s: string): (r: seq<byte>)
    requires forall i :: 0 <= i < |s| ==> s[i] as int < 128
    ensures |r| == |s|
    ensures forall i :: 0 <= i < |s| ==> r[i] as int == s[i] as int
  {
    seq(|s|, i requires 0 <= i < |s| => s[i] as int as byte)
  }

  /** What `%s` copies and `strlen` counts of a byte array: everything before its first NUL. */
  function CString(s: seq<byte>): (r: seq<byte>)
    ensures |r| <= |s| && r == s[..|r|]
    ensures NUL !in r
    ensures |r| < |s| ==> s[|r|] == NUL
    ensures NUL !in s ==> r == s
  {
    if s == [] || s[0] == NUL then [] else [s[0]] + CString(s[1..])
  }

  /** `strlen`: scans a NUL-terminated array for its terminator. */
  method Strlen(a: array<byte>) returns (n: nat)
    requires exists i :: 0 <= i < a.Length && a[i] == NUL
    ensures n < a.Length && a[n] == NUL
    ensures forall j :: 0 <= j < n ==> a[j] != NUL
  {
    n := 0;
    while a[n] != NUL
      invariant n < a.Length
      invariant forall j :: 0 <= j < n ==> a[j] != NUL
      invariant exists i :: n <= i < a.Length && a[i] == NUL
      decreases a.Length - n
    {
      n := n + 1;
    }
  }

  /** `strlen` and `%s` agree: the first NUL of an array ends the C string it holds. */
  lemma FirstNulEndsCString(s: seq<byte>, n: nat)
    requires n < |s| && s[n] == NUL
    requires forall j :: 0 <= j < n ==> s[j] != NUL
    ensures CString(s) == s[..n]
  {
  }
}
