/** How the C code reads its text: through a pointer that walks forward until
    it meets a NUL character. A Dafny string stands for the bytes of the C
    buffer; reading past its end reads the terminating NUL. */
module CString {

  /** The character `s[i]` as C reads it: past the end of the sequence, the
      terminating NUL. */
  function At(s: string, i: nat): (c: char)
    ensures i < |s| ==> c == s[i]
    ensures i >= |s| ==> c == '\0'
  {
    if i < |s| then s[i] else '\0'
  }

  /** The C string a buffer holds: every character before its first NUL. */
  function CStr(s: string): (r: string)
    ensures |r| <= |s| && r == s[..|r|]
    ensures '\0' !in r
    ensures At(s, |r|) == '\0'
  {
    if |s| == 0 || s[0] == '\0' then "" else [s[0]] + CStr(s[1..])
  }

  /** A buffer whose first NUL is at index n reads as its first n characters. */
  lemma {:induction false} CStrOfTerminated(s: string, n: nat)
    requires n <= |s| && At(s, n) == '\0'
    requires forall i :: 0 <= i < n ==> s[i] != '\0'
    ensures CStr(s) == s[..n]
  {
    if n > 0 {
      CStrOfTerminated(s[1..], n - 1);
      assert s[..n] == [s[0]] + s[1..][..n - 1];
    }
  }
}
