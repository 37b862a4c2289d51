/** C strings: the characters of a buffer up to the first zero byte. */
module CStrings {
  import opened Common
  import opened StringIO

  const NUL: char := '\0'
  const MAX_LINE := 80  // the size of the buffer in which a user types a line

  /** The C string that starts a buffer */
  function CString(s: seq<char>): (r: string)
    ensures NUL !in r && r <= s
  {
    s[..Index(s, NUL)]
  }

  /** The buffer holds s, with a zero byte behind it. */
  ghost predicate Holds(buf: array<char>, s: string)
    reads buf
  {
    NUL !in s && |s| < buf.Length && buf[..|s|] == s && buf[|s|] == NUL
  }

  lemma {:induction false} HeldString(b: seq<char>, s: string)
    requires NUL !in s && |s| < |b| && b[..|s|] == s && b[|s|] == NUL
    ensures CString(b) == s && Index(b, NUL) == |s|
  {
    assert forall j :: 0 <= j < |s| ==> b[j] == s[j] && s[j] != NUL;
  }

  /** cstrcpy: copies src if it fits n bytes, and nothing if it does not. */
  method StrCpy(dest: array<char>, src: string, n: nat)
    requires NUL !in src && 0 < n <= dest.Length
    modifies dest
    ensures Holds(dest, if |src| < n then src else [])
  {
    if n < |src| + 1 {
      dest[0] := NUL;
      return;
    }
    forall i | 0 <= i < |src| {
      dest[i] := src[i];
    }
    dest[|src|] := NUL;
  }

  /** A character and a zero byte at the end of the string in buf */
  method PutAt(buf: array<char>, i: int, c: char, ghost s: string)
    requires Holds(buf, s) && i == |s| < buf.Length - 1 && c != NUL
    modifies buf
    ensures Holds(buf, s + [c])
  {
    buf[i] := c;
    buf[i + 1] := NUL;
  }

  /** The string in buf ends at place i. */
  method EndAt(buf: array<char>, i: int, ghost s: string)
    requires Holds(buf, s) && 0 <= i <= |s|
    modifies buf
    ensures Holds(buf, s[..i])
  {
    buf[i] := NUL;
  }

  /** The string that starts at place i of buf */
  function StringAt(buf: array<char>, i: int, ghost s: string): (r: string)
    requires Holds(buf, s) && 0 <= i <= |s|
    reads buf
    ensures r == s[i..]
  {
    assert forall j :: 0 <= j < |s| ==> buf[j] == s[j] && s[j] != NUL;
    HeldString(buf[i..], s[i..]);
    CString(buf[i..])
  }

  function StrLen(buf: array<char>, ghost s: string): (n: int)
    requires Holds(buf, s)
    reads buf
    ensures n == |s|
  {
    HeldString(buf[..], s);
    Index(buf[..], NUL)
  }

  function StrCmp(a: string, b: string): (r: int)
    ensures r == 0 <==> a == b
  {
    if a == [] && b == [] then 0
    else if a == [] then -1
    else if b == [] then 1
    else if a[0] != b[0] then a[0] as int - b[0] as int
    else assert a == [a[0]] + a[1..] && b == [b[0]] + b[1..]; StrCmp(a[1..], b[1..])
  }

  /** At most n characters of s */
  ghost function Cut(s: string, n: nat): (r: string)
    ensures r <= s && |r| <= n
  {
    s[..Min(|s|, n)]
  }
}
