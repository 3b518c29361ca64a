/** C strings in buffers. */
module CString {
  /** The text of a buffer that holds a C string. */
  function Text(buffer: seq<char>): string {
    if buffer == [] || buffer[0] == '\0' then "" else [buffer[0]] + Text(buffer[1..])
  }

  predicate NulFree(s: string) { '\0' !in s }

  lemma {:induction false} TextIs(buffer: seq<char>, s: string)
    requires NulFree(s) && |s| < |buffer| && buffer[..|s|] == s && buffer[|s|] == '\0'
    ensures Text(buffer) == s
  {
    if s != "" {
      assert buffer[1..][..|s| - 1] == s[1..] by { assert buffer[..|s|][1..] == buffer[1..][..|s| - 1]; }
      assert s[0] in s && forall c :: c in s[1..] ==> c in s;
      TextIs(buffer[1..], s[1..]);
      assert s == [s[0]] + s[1..];
    }
  }

  ghost predicate Holds(buffer: array<char>, s: string)
    reads buffer
  {
    NulFree(s) && |s| < buffer.Length && buffer[..|s|] == s && buffer[|s|] == '\0'
  }

  /** g_strdup */
  method Duplicate(s: string) returns (buffer: array<char>)
    requires NulFree(s)
    ensures fresh(buffer) && buffer.Length == |s| + 1 && Holds(buffer, s)
  {
    buffer := new char[|s| + 1];
    forall i | 0 <= i < |s| { buffer[i] := s[i]; }
    buffer[|s|] := '\0';
  }

  lemma HoldsText(buffer: array<char>, s: string)
    requires Holds(buffer, s)
    ensures Text(buffer[..]) == s
  {
    TextIs(buffer[..], s);
  }
}
