/** The encoding of pass-phrases of src/passwd.c for systems with a standard crypt(3), which reads eight characters
    and returns thirteen: a long phrase is encrypted step by step. crypt(3) itself is a parameter. */
module Passwd {
  import opened Common
  import opened CStrings
  import opened StringIO

  const MAX_PASSPHRASE := 256
  const MAX_CRYPTED := 420
  const MAX_CRYPTED_PASSWD := 140

  /** crypt(3): what is left of the phrase, and the two characters of the salt */
  type Crypt = (string, char, char) -> string

  // ---------------------------------------------------------------- copying into buffers

  /** cstrncpy: at most n - 1 characters of src, and zero bytes up to the end of the n bytes at place at. */
  method StrNCpy(dest: array<char>, at: nat, src: string, n: nat)
    requires n > 0 && at + n <= dest.Length
    modifies dest
    ensures dest[..at] == old(dest[..at]) && dest[at + n..] == old(dest[at + n..])
    ensures dest[at..at + n] == Padded0(src, n - 1) + [NUL]
  {
    ghost var all := Padded0(src, n - 1) + [NUL];
    var i := 0;
    while i < n
      invariant i <= n
      invariant dest[..at] == old(dest[..at]) && dest[at + n..] == old(dest[at + n..])
      invariant dest[at..at + i] == all[..i]
    {
      dest[at + i] := if i < n - 1 && i < |src| then src[i] else NUL;
      assert dest[at..at + i + 1] == dest[at..at + i] + [all[i]];
      i := i + 1;
    }
  }

  /** The first n characters of s, with zero bytes behind them if there are fewer */
  ghost function Padded0(s: string, n: nat): (r: string)
    ensures |r| == n
  {
    seq(n, i requires 0 <= i < n => if i < |s| then s[i] else NUL)
  }

  // ---------------------------------------------------------------- the characters of a salt

  /** The 64 characters of a salt, in ASCII order */
  function SaltChar(k: nat): (c: char)
    requires k < 64
    ensures c as int < 128
  {
    if k < 12 then ('.' as int + k) as char
    else if k < 38 then ('A' as int + k - 12) as char
    else ('a' as int + k - 38) as char
  }

  ghost predicate IsSaltChar(c: char) {
    exists k :: 0 <= k < 64 && c == SaltChar(k)
  }

  /** An index into the table */
  type Byte = i: nat | i < 256

  ghost function InTable(i: Byte): (c: char)
    ensures IsSaltChar(c)
  {
    SaltChar(i % 64)
  }

  ghost predicate IsTable(chartab: seq<char>) {
    |chartab| == 256 && forall i: Byte :: chartab[i] == InTable(i)
  }

  function Look(chartab: seq<char>, i: Byte): (c: char)
    requires IsTable(chartab)
    ensures c == InTable(i)
  {
    chartab[i]
  }

  /** init_crypt: the table goes round the 64 characters. */
  method InitCrypt() returns (chartab: array<char>)
    ensures fresh(chartab) && IsTable(chartab[..])
  {
    chartab := new char[256];
    var c := '.';
    ghost var k := 0;
    for i := 0 to 256
      invariant k == i % 64 && c == SaltChar(k)
      invariant forall j :: 0 <= j < i ==> chartab[j] == SaltChar(j % 64)
    {
      chartab[i] := c;
      c := c + 1 as char;
      if c == '9' + 1 as char {
        c := 'A';
      }
      if c == 'Z' + 1 as char {
        c := 'a';
      }
      if c == 'z' + 1 as char {
        c := '.';
      }
      k := if k == 63 then 0 else k + 1;
    }
  }

  // ---------------------------------------------------------------- padding and reversing

  function Spaces(n: nat): (r: string)
    ensures |r| == n && forall i :: 0 <= i < n ==> r[i] == ' '
  {
    seq(n, i => ' ')
  }

  /** How many characters are missing to the next multiple of mul */
  function Missing(len: nat, mul: nat): (r: nat)
    requires mul > 0
    ensures r < mul
  {
    if len % mul == 0 then 0 else mul - len % mul
  }

  function Padded(s: string, mul: nat): string
    requires mul > 0
  {
    s + Spaces(Missing(|s|, mul))
  }

  lemma MissingFills(len: nat, mul: nat)
    requires mul in {4, 16}
    ensures (len + Missing(len, mul)) % mul == 0
  {
  }

  /** fill is idempotent: the length is then a multiple, and no multiple lies between. */
  lemma PaddedOnce(s: string, mul: nat)
    requires mul in {4, 16}
    ensures |Padded(s, mul)| % mul == 0 && s <= Padded(s, mul) && |Padded(s, mul)| - |s| < mul
    ensures Padded(Padded(s, mul), mul) == Padded(s, mul)
  {
    MissingFills(|s|, mul);
    var p := Padded(s, mul);
    assert p + Spaces(0) == p;
  }

  method Fill(str: array<char>, mul: nat)
    requires mul in {4, 16}
    requires var s := CString(str[..]); |s| + Missing(|s|, mul) < str.Length && Holds(str, s)
    modifies str
    ensures Holds(str, Padded(old(CString(str[..])), mul))
  {
    ghost var s := CString(str[..]);
    HeldString(str[..], s);
    var len := Index(str[..], NUL);
    var filler := len % mul;
    if filler == 0 {
      assert Padded(s, mul) == s;
      return;
    }
    filler := mul - filler;
    var i := 0;
    while i < filler
      invariant i <= filler && len == |s| + i
      invariant str[..|s|] == s && forall j :: |s| <= j < len ==> str[j] == ' '
    {
      str[len] := ' ';
      len := len + 1;
      i := i + 1;
    }
    str[len] := NUL;
    assert str[..len] == Padded(s, mul);
  }

  /** Every four characters back to front */
  ghost function Reversed4(s: string): (r: string)
    ensures |r| == |s|
  {
    if |s| < 4 then s else [s[3], s[2], s[1], s[0]] + Reversed4(s[4..])
  }

  lemma {:induction false} Reversed4Twice(s: string)
    ensures Reversed4(Reversed4(s)) == s
  {
    if |s| >= 4 {
      Reversed4Twice(s[4..]);
      assert Reversed4(s)[4..] == Reversed4(s[4..]);
      assert s == [s[0], s[1], s[2], s[3]] + s[4..];
    }
  }

  lemma {:induction false} Reversed4Chars(s: string)
    requires NUL !in s
    ensures NUL !in Reversed4(s)
  {
    if |s| >= 4 {
      Reversed4Chars(s[4..]);
    }
  }

  /** Four more characters */
  lemma {:induction false} Reversed4Next(s: string, j: nat)
    requires 4 * j + 4 <= |s|
    ensures var i := 4 * j; Reversed4(s)[..i + 4] == Reversed4(s)[..i] + [s[i + 3], s[i + 2], s[i + 1], s[i]]
  {
    if j > 0 {
      Reversed4Next(s[4..], j - 1);
      var i, first, r := 4 * j, [s[3], s[2], s[1], s[0]], Reversed4(s[4..]);
      PrefixOf(first, r, i);
      PrefixOf(first, r, i - 4);
    }
  }

  /** The outer two of every four change places, and the inner two do. */
  lemma {:induction false} Reversed4At(s: string, i: nat)
    requires |s| % 4 == 0 && i < |s|
    ensures Reversed4(s)[i] == s[i / 4 * 4 + 3 - i % 4]
  {
    if i >= 4 {
      Reversed4At(s[4..], i - 4);
      assert (i - 4) / 4 == i / 4 - 1 && (i - 4) % 4 == i % 4;
    }
  }

  lemma PrefixOf(a: string, b: string, n: nat)
    requires |a| == 4 && n <= |b|
    ensures (a + b)[..4 + n] == a + b[..n]
  {
  }

  /** Swaps the outer two and the inner two of four characters. */
  method SwapFour(str: array<char>, i: nat)
    requires i + 4 <= str.Length
    modifies str
    ensures str[..i] == old(str[..i]) && str[i + 4..] == old(str[i + 4..])
    ensures str[i..i + 4] == [old(str[i + 3]), old(str[i + 2]), old(str[i + 1]), old(str[i])]
  {
    var c := str[i];
    str[i] := str[i + 3];
    str[i + 3] := c;
    c := str[i + 1];
    str[i + 1] := str[i + 2];
    str[i + 2] := c;
  }

  /** The buffer while it is reversed: the characters before i are done. */
  ghost predicate HalfReversed(b: seq<char>, s: string, i: nat) {
    i <= |s| < |b| && b[..i] == Reversed4(s)[..i] && b[i..|s|] == s[i..] && b[|s|] == NUL
  }

  lemma StepReversed(b: seq<char>, s: string, i: nat, b': seq<char>, j: nat)
    requires HalfReversed(b, s, i) && i == 4 * j && i + 4 <= |s| && |b'| == |b|
    requires b'[..i] == b[..i] && b'[i + 4..] == b[i + 4..] && b'[i..i + 4] == [b[i + 3], b[i + 2], b[i + 1], b[i]]
    ensures HalfReversed(b', s, i + 4)
  {
    hide Reversed4;
    Reversed4Next(s, j);
    var t := b[i..|s|];
    assert t == s[i..];
    assert b[i] == t[0] && b[i + 1] == t[1] && b[i + 2] == t[2] && b[i + 3] == t[3];
    assert b'[..i + 4] == b'[..i] + b'[i..i + 4];
    assert b'[i + 4..|s|] == b'[i + 4..][..|s| - i - 4] == b[i + 4..][..|s| - i - 4] == t[4..];
    assert b'[|s|] == b'[i + 4..][|s| - i - 4];
  }

  method Reverse4(str: array<char>)
    requires var s := CString(str[..]); Holds(str, s) && |s| % 4 == 0
    modifies str
    ensures Holds(str, Reversed4(old(CString(str[..]))))
  {
    hide CString, Reversed4;
    ghost var s := CString(str[..]);
    HeldString(str[..], s);
    Reversed4Chars(s);
    var len := Index(str[..], NUL);
    var i := 0;
    ghost var j, m := 0, len / 4;
    while i < len
      invariant i == 4 * j && HalfReversed(str[..], s, i)
    {
      assert j < m;
      ghost var b := str[..];
      SwapFour(str, i);
      StepReversed(b, s, i, str[..], j);
      i, j := i + 4, j + 1;
    }
  }

  // ---------------------------------------------------------------- the phrase as it is encrypted

  /** Padded to sixteen characters at least, and to a multiple of four */
  ghost function Filled(s: string): string {
    Padded(if |s| < 16 then Padded(s, 16) else s, 4)
  }

  /** What crypt_phrase and verify_phrase make of a phrase before they encrypt it */
  ghost function Prepared(phrase: string): string {
    Reversed4(Filled(Cut(phrase, MAX_PASSPHRASE - 1)))
  }

  lemma PreparedShape(phrase: string)
    ensures |Prepared(phrase)| % 4 == 0 && |Prepared(phrase)| <= MAX_PASSPHRASE
    ensures if phrase == [] then Prepared(phrase) == [] else |Prepared(phrase)| >= 16
    ensures NUL !in phrase ==> NUL !in Prepared(phrase)
  {
    hide Reversed4, Padded;
    if phrase == [] {
      NothingPrepared();
      return;
    }
    var s := Cut(phrase, MAX_PASSPHRASE - 1);
    var t := if |s| < 16 then Padded(s, 16) else s;
    PaddedOnce(s, 16);
    PaddedOnce(t, 4);
    UpToFour(|t|, |Padded(t, 4)|);
    if NUL !in phrase {
      PaddedChars(s, 16);
      PaddedChars(t, 4);
      Reversed4Chars(Padded(t, 4));
    }
  }

  /** fill leaves an empty string alone. */
  lemma NothingPrepared()
    ensures Prepared([]) == []
  {
    assert Padded([], 16) == [] == Padded([], 4);
  }

  lemma UpToFour(n: nat, m: nat)
    requires n <= m < n + 4 && m % 4 == 0
    ensures n <= 255 ==> m <= 256
  {
  }

  lemma PaddedChars(s: string, mul: nat)
    requires mul > 0 && NUL !in s
    ensures NUL !in Padded(s, mul)
  {
  }

  /** Without the spaces at its end */
  function Trimmed(s: string): (r: string)
    ensures |r| <= |s|
  {
    if s == "" || s[|s| - 1] != ' ' then s else Trimmed(s[..|s| - 1])
  }

  /** The length of a phrase with the padding */
  function RoundedUp(n: nat): nat {
    if n == 0 then 0 else if n <= 16 then 16 else (n + 3) / 4 * 4
  }

  lemma {:induction false} TrimmedSpaces(s: string, n: nat)
    ensures Trimmed(s + Spaces(n)) == Trimmed(s)
  {
    var t := s + Spaces(n);
    if n == 0 {
      assert t == s;
    } else {
      assert t[..|t| - 1] == s + Spaces(n - 1);
      TrimmedSpaces(s, n - 1);
    }
  }

  lemma {:induction false} TrimmedBack(s: string)
    ensures Trimmed(s) + Spaces(|s| - |Trimmed(s)|) == s
  {
    if s == "" || s[|s| - 1] != ' ' {
      assert s + Spaces(0) == s;
    } else {
      var r := s[..|s| - 1];
      TrimmedBack(r);
      assert Trimmed(r) + Spaces(|s| - |Trimmed(r)|) == Trimmed(r) + Spaces(|r| - |Trimmed(r)|) + [' '];
    }
  }

  lemma FilledShape(s: string)
    ensures |Filled(s)| == RoundedUp(|s|) >= |s| && Filled(s) == s + Spaces(RoundedUp(|s|) - |s|)
  {
    var t := if |s| < 16 then Padded(s, 16) else s;
    RoundedTwice(|s|);
    assert Filled(s) == t + Spaces(Missing(|t|, 4));
  }

  lemma RoundedTwice(n: nat)
    ensures var m := if n < 16 then n + Missing(n, 16) else n; m + Missing(m, 4) == RoundedUp(n)
  {
  }

  lemma {:induction false} FilledTrimmed(s: string)
    ensures Trimmed(Filled(s)) == Trimmed(s)
    ensures Filled(s) == Trimmed(s) + Spaces(RoundedUp(|s|) - |Trimmed(s)|)
  {
    FilledShape(s);
    TrimmedSpaces(s, RoundedUp(|s|) - |s|);
    TrimmedBack(Filled(s));
  }

  /** Phrases are prepared alike exactly if they differ in spaces at their end only, and not by too many of them. */
  lemma {:induction false} PreparedAlike(a: string, b: string)
    requires |a| < MAX_PASSPHRASE && |b| < MAX_PASSPHRASE
    ensures Prepared(a) == Prepared(b) <==> Trimmed(a) == Trimmed(b) && RoundedUp(|a|) == RoundedUp(|b|)
  {
    hide Filled, Trimmed, RoundedUp, Reversed4;
    Reversed4Twice(Filled(a));
    Reversed4Twice(Filled(b));
    assert Cut(a, MAX_PASSPHRASE - 1) == a && Cut(b, MAX_PASSPHRASE - 1) == b;
    FilledShape(a);
    FilledShape(b);
    FilledTrimmed(a);
    FilledTrimmed(b);
  }

  /** Character i of what is encrypted, in terms of the phrase: it comes from the same group of four. */
  ghost function InPhrase(phrase: string, i: nat): char {
    var j := i / 4 * 4 + 3 - i % 4;
    if j < |phrase| && j < MAX_PASSPHRASE - 1 then phrase[j] else ' '
  }

  /** What is encrypted is the phrase itself, every four characters back to front, with spaces in the place of what is
      missing: to sixteen characters at least, and to the next multiple of four. */
  lemma PreparedChars(phrase: string)
    ensures var p, n := Prepared(phrase), Min(|phrase|, MAX_PASSPHRASE - 1);
      && |p| % 4 == 0 && (phrase == [] <==> p == [])
      && (0 < n <= 16 ==> |p| == 16) && (n > 16 ==> n <= |p| < n + 4)
      && forall i :: 0 <= i < |p| ==> p[i] == InPhrase(phrase, i)
  {
    hide Reversed4, Filled, InPhrase;
    var s := Cut(phrase, MAX_PASSPHRASE - 1);
    var t := Filled(s);
    FilledShape(s);
    forall i | 0 <= i < |t|
      ensures Reversed4(t)[i] == InPhrase(phrase, i)
    {
      Reversed4At(t, i);
      FilledAt(phrase, i);
    }
  }

  lemma FilledAt(phrase: string, i: nat)
    requires i < |Filled(Cut(phrase, MAX_PASSPHRASE - 1))|
    ensures var t, j := Filled(Cut(phrase, MAX_PASSPHRASE - 1)), i / 4 * 4 + 3 - i % 4;
      |t| % 4 == 0 && 0 <= j < |t| && t[j] == InPhrase(phrase, i)
  {
    hide Filled;
    FilledShape(Cut(phrase, MAX_PASSPHRASE - 1));
  }

  lemma Copied(b: seq<char>, s: string, n: nat)
    requires n < |b| && NUL !in s && b[..n + 1] == Padded0(s, n) + [NUL]
    ensures CString(b) == Cut(s, n) && NUL !in Cut(s, n) && b[..|Cut(s, n)|] == Cut(s, n) && b[|Cut(s, n)|] == NUL
  {
    var t := Cut(s, n);
    assert b[..|t|] == b[..n + 1][..|t|] == t;
    assert b[|t|] == b[..n + 1][|t|];
    HeldString(b, t);
  }

  /** How both functions begin */
  method Prepare(phrase: string) returns (str: array<char>)
    requires NUL !in phrase
    ensures fresh(str) && str.Length == MAX_PASSPHRASE + 1 && Holds(str, Prepared(phrase))
  {
    str := new char[MAX_PASSPHRASE + 1];
    StrNCpy(str, 0, phrase, MAX_PASSPHRASE);
    assert str[0..0 + MAX_PASSPHRASE] == str[..MAX_PASSPHRASE - 1 + 1];
    Copied(str[..], phrase, MAX_PASSPHRASE - 1);
    ghost var s := Cut(phrase, MAX_PASSPHRASE - 1);
    PaddedOnce(s, 16);
    var len := Index(str[..], NUL);
    if len < 16 {
      Fill(str, 16);
      HeldString(str[..], Padded(s, 16));
    }
    ghost var t := if |s| < 16 then Padded(s, 16) else s;
    PaddedOnce(t, 4);
    Fill(str, 4);
    HeldString(str[..], Padded(t, 4));
    Reverse4(str);
  }

  // ---------------------------------------------------------------- what is stored for a phrase

  /** A standard crypt(3) returns thirteen characters that start with the salt. */
  ghost predicate Standard(crypt: Crypt) {
    forall p, a, b :: IsSaltChar(a) && IsSaltChar(b) ==>
      |crypt(p, a, b)| == 13 && crypt(p, a, b)[0] == a && crypt(p, a, b)[1] == b
  }

  /** It returns C strings, whatever the salt is. */
  ghost predicate PlainCrypt(crypt: Crypt) {
    forall p, a, b :: NUL !in crypt(p, a, b)
  }

  /** There are such functions. */
  lemma CryptExample() returns (crypt: Crypt)
    ensures Standard(crypt) && PlainCrypt(crypt)
  {
    crypt := (p, a, b) => if a != NUL && b != NUL then [a, b] + "..........." else "*";
  }

  datatype Salt = Salt(first: char, second: char)

  ghost predicate GoodSalts(salts: nat -> Salt) {
    forall k :: IsSaltChar(salts(k).first) && IsSaltChar(salts(k).second)
  }

  /** In how many steps of size m the loops go over n characters: in one, at least */
  ghost function StepsOf(n: nat, m: nat): (r: nat)
    requires m > 0
    ensures r > 0
  {
    if n <= m then 1 else 1 + StepsOf(n - m, m)
  }

  ghost function Steps(p: string): (r: nat)
    ensures r > 0
  {
    StepsOf(|p|, 8)
  }

  /** What is left of the phrase at step k */
  ghost function Rest(p: string, k: nat): string {
    if 8 * k <= |p| then p[8 * k..] else []
  }

  ghost function Encoded(crypt: Crypt, p: string, salts: nat -> Salt, n: nat): string {
    if n == 0 then []
    else Encoded(crypt, p, salts, n - 1) + crypt(Rest(p, n - 1), salts(n - 1).first, salts(n - 1).second)
  }

  /** The buffer after n steps, with whatever crypt(3) answers */
  ghost function InBuffer(crypt: Crypt, p: string, salts: nat -> Salt, n: nat): seq<char> {
    if n == 0 then []
    else
      InBuffer(crypt, p, salts, n - 1)
      + Padded0(Cut(crypt(Rest(p, n - 1), salts(n - 1).first, salts(n - 1).second), 13), 13)
  }

  lemma {:induction false} BufferEncoded(crypt: Crypt, p: string, salts: nat -> Salt, n: nat)
    requires Standard(crypt) && GoodSalts(salts)
    ensures InBuffer(crypt, p, salts, n) == Encoded(crypt, p, salts, n)
  {
    if n > 0 {
      BufferEncoded(crypt, p, salts, n - 1);
      var r := crypt(Rest(p, n - 1), salts(n - 1).first, salts(n - 1).second);
      assert Padded0(Cut(r, 13), 13) == r;
    }
  }

  /** The low byte of x exclusive-or pid */
  function Mixed(x: bv32, pid: bv32): Byte {
    ((x ^ pid) & 255) as nat
  }

  /** The salt that the table gives for two bytes */
  ghost function TableSalt(i: Byte, j: Byte): (r: Salt)
    ensures IsSaltChar(r.first) && IsSaltChar(r.second)
  {
    Salt(InTable(i), InTable(j))
  }

  /** The salt of step k: given by two bytes at first, and by the last salt after that */
  ghost function SaltOf(i: Byte, j: Byte, next: char -> Byte, k: nat): (r: Salt)
    ensures IsSaltChar(r.first) && IsSaltChar(r.second)
  {
    if k == 0 then
      TableSalt(i, j)
    else
      var last := SaltOf(i, j, next, k - 1);
      TableSalt(next(last.first), next(last.second))
  }

  ghost function SaltsFrom(i: Byte, j: Byte, next: char -> Byte): nat -> Salt {
    (k: nat) => SaltOf(i, j, next, k)
  }

  /** How a character of the salt leads to the next one */
  function NextByte(pid: bv32): char -> Byte {
    c => Mixed(Halved(c), pid)
  }

  function Halved(c: char): bv32 {
    (c as int) as bv32 >> 1
  }

  /** The salts start from the clock and the process number. */
  ghost function Salts(rtc: bv32, pid: bv32): nat -> Salt {
    SaltsFrom(Mixed(rtc, pid), Mixed(rtc >> 4, pid), NextByte(pid))
  }

  lemma LowBits(x: bv32)
    ensures ((x & 255) as nat) % 64 == (x & 63) as nat < 64
  {
  }

  /** One of the 64 characters for the six low bits of x */
  ghost function SaltFor(x: bv32): char {
    LowBits(x);
    SaltChar((x & 63) as nat)
  }

  lemma SaltOfMixed(x: bv32, pid: bv32)
    ensures InTable(Mixed(x, pid)) == SaltFor(x ^ pid)
  {
    hide SaltChar;
    LowBits(x ^ pid);
  }

  /** Which of them: for the clock (four bits on for the second character) at first, and then for half of the last
      one, in each case mixed with the process number. */
  lemma {:induction false} SaltsAre(rtc: bv32, pid: bv32, k: nat)
    ensures var s := Salts(rtc, pid);
      && s(0) == Salt(SaltFor(rtc ^ pid), SaltFor((rtc >> 4) ^ pid))
      && s(k + 1) == Salt(SaltFor(Halved(s(k).first) ^ pid), SaltFor(Halved(s(k).second) ^ pid))
  {
    hide SaltChar, Mixed, SaltFor, InTable, Halved;
    var last := Salts(rtc, pid)(k);
    SaltOfMixed(rtc, pid);
    SaltOfMixed(rtc >> 4, pid);
    SaltOfMixed(Halved(last.first), pid);
    SaltOfMixed(Halved(last.second), pid);
  }

  lemma SaltsAreGood(rtc: bv32, pid: bv32)
    ensures GoodSalts(Salts(rtc, pid))
  {
  }

  lemma {:induction false} EncodedShape(crypt: Crypt, p: string, salts: nat -> Salt, n: nat)
    requires Standard(crypt) && PlainCrypt(crypt) && GoodSalts(salts)
    ensures |Encoded(crypt, p, salts, n)| == 13 * n && NUL !in Encoded(crypt, p, salts, n)
  {
    if n > 0 {
      EncodedShape(crypt, p, salts, n - 1);
    }
  }

  lemma {:induction false} EncodedChunk(crypt: Crypt, p: string, salts: nat -> Salt, n: nat, k: nat)
    requires Standard(crypt) && PlainCrypt(crypt) && GoodSalts(salts) && k < n
    ensures |Encoded(crypt, p, salts, n)| == 13 * n
    ensures Encoded(crypt, p, salts, n)[13 * k..13 * k + 13] == crypt(Rest(p, k), salts(k).first, salts(k).second)
  {
    EncodedShape(crypt, p, salts, n);
    EncodedShape(crypt, p, salts, n - 1);
    if k < n - 1 {
      EncodedChunk(crypt, p, salts, n - 1, k);
    }
  }

  /** What crypt(3) is asked at step k: all that is left of the phrase, as it is encrypted */
  ghost function AskedAt(phrase: string, len: nat, k: nat): string
    requires 8 * k <= len
  {
    seq(len - 8 * k, i requires 0 <= i < len - 8 * k => InPhrase(phrase, 8 * k + i))
  }

  /** In the terms of the phrase itself: each step of eight characters leaves thirteen, which crypt(3) answers for the
      phrase from there on, four and four of its characters back to front. */
  lemma StepsAsked(crypt: Crypt, phrase: string, salts: nat -> Salt, k: nat)
    requires Standard(crypt) && PlainCrypt(crypt) && GoodSalts(salts)
    requires k == 0 || 8 * k < |Prepared(phrase)|
    ensures var p := Prepared(phrase); var c := Encoded(crypt, p, salts, Steps(p));
      && 13 * k + 13 <= |c|
      && c[13 * k..13 * k + 13] == crypt(AskedAt(phrase, |p|, k), salts(k).first, salts(k).second)
  {
    hide Encoded, Prepared, StepsOf;
    var p := Prepared(phrase);
    var n := Steps(p);
    StepsAre(|p|, 8, n);
    EncodedChunk(crypt, p, salts, n, k);
    PreparedChars(phrase);
    assert Rest(p, k) == AskedAt(phrase, |p|, k);
  }

  // ---------------------------------------------------------------- when a phrase is accepted

  function CharAt(s: string, i: nat): char {
    if i < |s| then s[i] else NUL
  }

  /** The thirteen characters of step k, or as many as there are */
  ghost function Chunk(s: string, k: nat): string {
    if 13 * k <= |s| then s[13 * k..Min(13 * k + 13, |s|)] else []
  }

  /** What crypt(3) answers at step k, with the salt taken from what is stored */
  ghost function Answer(crypt: Crypt, p: string, crypted: string, k: nat): string {
    Cut(crypt(Rest(p, k), CharAt(crypted, 13 * k), CharAt(crypted, 13 * k + 1)), 13)
  }

  ghost predicate CountsAgree(p: string, crypted: string) {
    StepsOf(|crypted|, 13) == Steps(p)
  }

  ghost predicate ChunksMatch(crypt: Crypt, p: string, crypted: string) {
    forall k :: 0 <= k < Steps(p) ==> Chunk(crypted, k) == Answer(crypt, p, crypted, k)
  }

  ghost predicate Accepts(crypt: Crypt, phrase: string, crypted: string) {
    CountsAgree(Prepared(phrase), crypted) && ChunksMatch(crypt, Prepared(phrase), crypted)
  }

  /** The buffer after n steps */
  ghost function Raw(crypt: Crypt, p: string, crypted: string, n: nat): (r: seq<char>)
    ensures |r| == 13 * n
  {
    if n == 0 then [] else Raw(crypt, p, crypted, n - 1) + Padded0(Answer(crypt, p, crypted, n - 1), 13)
  }

  lemma {:induction false} RawChunk(crypt: Crypt, p: string, crypted: string, n: nat, k: nat)
    requires k < n
    ensures Raw(crypt, p, crypted, n)[13 * k..13 * k + 13] == Padded0(Answer(crypt, p, crypted, k), 13)
  {
    if k < n - 1 {
      RawChunk(crypt, p, crypted, n - 1, k);
    }
  }

  lemma {:induction false} StepsAre(n: nat, m: nat, k: nat)
    requires m in {8, 13} && k > 0
    ensures StepsOf(n, m) == k <==> (n <= m * k && (k == 1 || m * (k - 1) < n))
    decreases k
  {
    if n > m && k > 1 {
      StepsAre(n - m, m, k - 1);
    }
  }

  /** A chunk is what the buffer holds, up to the first zero byte: it is as crypt(3) answered. */
  lemma SameChunk(r: string, raw: seq<char>, s: string)
    requires NUL !in r && |r| <= 13 && raw == Padded0(r, 13) && NUL !in s && |s| <= 13
    ensures s == r <==> raw[..|s|] == s && (|s| < 13 ==> raw[|s|] == NUL)
  {
    assert forall i :: 0 <= i < |r| ==> raw[i] == r[i] && r[i] != NUL;
    if raw[..|s|] == s && (|s| < 13 ==> raw[|s|] == NUL) {
      assert forall i :: 0 <= i < |s| ==> raw[i] == s[i] && s[i] != NUL;
      assert |r| < 13 ==> raw[|r|] == NUL;
      assert |s| < 13 ==> |r| <= |s|;
    }
  }

  lemma SliceOfPrefix(s: string, n: nat, i: nat, j: nat)
    requires i <= j <= n <= |s|
    ensures s[..n][i..j] == s[i..j]
  {
  }

  lemma SliceOfChunk(s: string, i: nat, n: nat)
    requires i + 13 <= |s| && n <= 13
    ensures s[i..i + 13][..n] == s[i..i + n]
  {
  }

  /** Chunk k of s stands where it belongs. */
  ghost predicate InPlace(raw: seq<char>, s: string, k: nat) {
    var c := Chunk(s, k);
    13 * k + |c| <= |raw| && c == raw[13 * k..13 * k + |c|]
  }

  lemma ChunksAssemble(raw: seq<char>, s: string, n: nat)
    requires |raw| == 13 * n && |s| <= 13 * n
    ensures raw[..|s|] == s <==> forall k :: 0 <= k < n ==> InPlace(raw, s, k)
  {
    if raw[..|s|] == s {
      forall k | 0 <= k < n
        ensures InPlace(raw, s, k)
      {
        if 13 * k <= |s| {
          SliceOfPrefix(raw, |s|, 13 * k, Min(13 * k + 13, |s|));
        }
      }
    } else if forall k :: 0 <= k < n ==> InPlace(raw, s, k) {
      forall i | 0 <= i < |s|
        ensures raw[i] == s[i]
      {
        var k := i / 13;
        assert InPlace(raw, s, k);
        assert Chunk(s, k)[i - 13 * k] == raw[13 * k..13 * k + |Chunk(s, k)|][i - 13 * k];
      }
    }
  }

  /** The string that the buffer ends up with is the stored one exactly if all chunks match. */
  lemma {:induction false} Compared(crypt: Crypt, p: string, crypted: string, b: seq<char>)
    requires PlainCrypt(crypt) && NUL !in crypted && CountsAgree(p, crypted) && |b| > 13 * Steps(p)
    requires b[..13 * Steps(p)] == Raw(crypt, p, crypted, Steps(p)) && b[13 * Steps(p)] == NUL
    ensures CString(b) == crypted <==> ChunksMatch(crypt, p, crypted)
  {
    hide CString, Raw, Chunk, Answer, StepsOf, InPlace;
    var n := Steps(p);
    var raw := Raw(crypt, p, crypted, n);
    var len := |crypted|;
    StepsAre(len, 13, n);
    StringIs(b, crypted);
    ChunksAssemble(raw, crypted, n);
    forall k | 0 <= k < n
      ensures Chunk(crypted, k) == Answer(crypt, p, crypted, k) <==>
        InPlace(raw, crypted, k) && (k == n - 1 ==> b[len] == NUL)
    {
      OneCompared(crypt, p, crypted, b, n, k);
    }
    assert InPlace(raw, crypted, n - 1) || !InPlace(raw, crypted, n - 1);
    assert raw[..len] == b[..len];
  }

  lemma {:induction false} OneCompared(crypt: Crypt, p: string, crypted: string, b: seq<char>, n: nat, k: nat)
    requires PlainCrypt(crypt) && NUL !in crypted && |crypted| <= 13 * n && (n == 1 || 13 * (n - 1) < |crypted|)
      && |b| > 13 * n
    requires k < n && b[..13 * n] == Raw(crypt, p, crypted, n) && b[13 * n] == NUL
    ensures Chunk(crypted, k) == Answer(crypt, p, crypted, k) <==>
      InPlace(Raw(crypt, p, crypted, n), crypted, k) && (k == n - 1 ==> b[|crypted|] == NUL)
  {
    hide Raw;
    var s, r, raw := Chunk(crypted, k), Answer(crypt, p, crypted, k), Raw(crypt, p, crypted, n);
    RawChunk(crypt, p, crypted, n, k);
    var part := raw[13 * k..13 * k + 13];
    SameChunk(r, part, s);
    SliceOfChunk(raw, 13 * k, |s|);
    if k == n - 1 && |s| < 13 {
      assert b[|crypted|] == b[..13 * n][|crypted|] == part[|s|];
    }
  }

  /** When a buffer starts with the string s */
  lemma StringIs(b: seq<char>, s: string)
    requires NUL !in s && NUL in b
    ensures CString(b) == s <==> |s| < |b| && b[..|s|] == s && b[|s|] == NUL
  {
    if |s| < |b| && b[..|s|] == s && b[|s|] == NUL {
      HeldString(b, s);
    }
  }

  /** The first n characters of a buffer */
  ghost function Start(buf: array<char>, n: nat): string
    requires n <= buf.Length
    reads buf
  {
    buf[..n]
  }

  lemma StartsEmpty(buf: array<char>)
    ensures Start(buf, 0) == []
  {
  }

  /** Another answer goes behind what is in the buffer. */
  method PutChunk(buf: array<char>, at: nat, answer: string)
    requires at + 14 <= buf.Length
    modifies buf
    ensures Start(buf, at + 13) == old(Start(buf, at)) + Padded0(Cut(answer, 13), 13)
  {
    StrNCpy(buf, at, answer, 14);
    assert buf[..at + 13] == buf[..at] + buf[at..at + 14][..13];
    assert Padded0(answer, 13) == Padded0(Cut(answer, 13), 13);
  }

  lemma NextRaw(crypt: Crypt, p: string, crypted: string, k: nat)
    requires 8 * k <= |p|
    ensures Raw(crypt, p, crypted, k + 1) == Raw(crypt, p, crypted, k)
         + Padded0(Cut(crypt(p[8 * k..], CharAt(crypted, 13 * k), CharAt(crypted, 13 * k + 1)), 13), 13)
  {
  }

  /** The loop of verify_phrase: it stops when the stored string or the phrase is used up. */
  method EncryptAgain(p: string, crypted: string, crypt: Crypt, buf: array<char>)
    returns (plen: nat, clen: nat, ghost k: nat)
    requires |p| <= MAX_PASSPHRASE && buf.Length == MAX_CRYPTED
    modifies buf
    ensures k > 0 && plen == 8 * k && clen == 13 * k && clen < buf.Length
    ensures k > 1 ==> 13 * (k - 1) < |crypted| && 8 * (k - 1) < |p|
    ensures clen >= |crypted| || plen >= |p|
    ensures Start(buf, clen) == Raw(crypt, p, crypted, k)
  {
    hide Raw, Start, Padded0, Cut;
    var bufp := 0;
    plen, clen, k := 0, 0, 0;
    NothingRaw(crypt, p, crypted);
    StartsEmpty(buf);
    while true
      invariant plen == 8 * k && clen == 13 * k && bufp == 13 * k
      invariant k > 0 ==> clen < |crypted| && plen < |p|
      invariant Start(buf, bufp) == Raw(crypt, p, crypted, k)
      decreases |p| - plen
    {
      NextRaw(crypt, p, crypted, k);
      PutChunk(buf, bufp, crypt(p[plen..], CharAt(crypted, clen), CharAt(crypted, clen + 1)));
      bufp, clen, plen := bufp + 13, clen + 13, plen + 8;
      k := k + 1;
      if clen >= |crypted| {
        break;
      }
      if plen >= |p| {
        break;
      }
    }
  }

  /** verify_phrase, with a standard crypt(3): zero if the phrase is the one that was encrypted. */
  method VerifyPhrase(phrase: string, crypted: string, crypt: Crypt) returns (r: int)
    requires PlainCrypt(crypt) && NUL !in phrase && NUL !in crypted
    ensures r == 0 <==> Accepts(crypt, phrase, crypted)
  {
    hide Prepared, CString, Raw, StepsOf, ChunksMatch;
    var buf := new char[MAX_CRYPTED];
    var str := Prepare(phrase);
    PreparedShape(phrase);
    HeldString(str[..], Prepared(phrase));
    var p := str[..Index(str[..], NUL)];
    var plen, clen, k := EncryptAgain(p, crypted, crypt, buf);
    StepsAre(|p|, 8, k);
    StepsAre(|crypted|, 13, k);
    if clen < |crypted| || plen < |p| {
      return -1;
    }
    ghost var b := buf[..clen];
    buf[clen] := NUL;
    assert buf[..clen] == b;
    Compared(crypt, Prepared(phrase), crypted, buf[..]);
    r := StrCmp(CString(buf[..]), crypted);
  }

  lemma {:induction false} NothingRaw(crypt: Crypt, p: string, crypted: string)
    ensures Raw(crypt, p, crypted, 0) == []
  {
  }

  /** crypt_phrase, with a standard crypt(3) */
  method CryptPhrase(phrase: string, buf: array<char>, crypt: Crypt, rtc: bv32, pid: bv32, chartab: seq<char>)
    requires Standard(crypt) && PlainCrypt(crypt) && NUL !in phrase
    requires IsTable(chartab)
    requires buf.Length == MAX_CRYPTED
    modifies buf
    ensures var p := Prepared(phrase); CString(buf[..]) == Encoded(crypt, p, Salts(rtc, pid), Steps(p))
  {
    hide Prepared, Encoded, InBuffer, Mixed, NextByte, SaltsFrom, StepsOf, GoodSalts, IsTable, CString;
    var str := Prepare(phrase);
    ghost var p := Prepared(phrase);
    PreparedShape(phrase);
    HeldString(str[..], p);
    var k := EncryptAll(str[..Index(str[..], NUL)], buf, crypt, Mixed(rtc, pid), Mixed(rtc >> 4, pid), NextByte(pid),
      chartab);
    StepsAre(|p|, 8, k);
    SaltsAreGood(rtc, pid);
    EncodedShape(crypt, p, Salts(rtc, pid), k);
    BufferEncoded(crypt, p, Salts(rtc, pid), k);
    ghost var b := buf[..13 * k];
    buf[13 * k] := NUL;
    assert buf[..13 * k] == b;
    HeldString(buf[..], b);
  }

  /** The loop of crypt_phrase; i and j choose the first salt. */
  method EncryptAll(p: string, buf: array<char>, crypt: Crypt, i: Byte, j: Byte, next: char -> Byte, chartab: seq<char>)
    returns (k: nat)
    requires IsTable(chartab)
    requires |p| <= MAX_PASSPHRASE && buf.Length == MAX_CRYPTED
    modifies buf
    ensures 0 < k < 33 && |p| <= 8 * k && (k > 1 ==> 8 * (k - 1) < |p|)
    ensures Start(buf, 13 * k) == InBuffer(crypt, p, SaltsFrom(i, j, next), k)
  {
    hide InTable, InBuffer, SaltsFrom, SaltOf, TableSalt, IsTable, IsSaltChar, SaltChar, Padded0, Cut, Start;
    ghost var salts := SaltsFrom(i, j, next);
    NothingYet(crypt, p, i, j, next);
    StartsEmpty(buf);
    var bufp, plen := 0, 0;
    var c0, c1 := Look(chartab, i), Look(chartab, j);
    k := 0;
    while true
      invariant plen == 8 * k && bufp == 13 * k
      invariant k > 0 ==> plen < |p|
      invariant salts(k) == Salt(c0, c1)
      invariant Start(buf, bufp) == InBuffer(crypt, p, salts, k)
      decreases |p| - plen
    {
      NextInBuffer(crypt, p, salts, k);
      PutChunk(buf, bufp, crypt(p[plen..], c0, c1));
      bufp := bufp + 13;
      plen := plen + 8;
      k := k + 1;
      if plen >= |p| {
        break;
      }
      NextSalt(i, j, next, k - 1);
      c0, c1 := Look(chartab, next(c0)), Look(chartab, next(c1));
    }
  }

  lemma {:induction false} NothingYet(crypt: Crypt, p: string, i: Byte, j: Byte, next: char -> Byte)
    ensures InBuffer(crypt, p, SaltsFrom(i, j, next), 0) == []
      && SaltsFrom(i, j, next)(0) == Salt(InTable(i), InTable(j))
  {
  }

  lemma NextSalt(i: Byte, j: Byte, next: char -> Byte, k: nat)
    ensures var last := SaltsFrom(i, j, next)(k);
      SaltsFrom(i, j, next)(k + 1) == Salt(InTable(next(last.first)), InTable(next(last.second)))
  {
  }

  lemma NextInBuffer(crypt: Crypt, p: string, salts: nat -> Salt, k: nat)
    requires 8 * k <= |p|
    ensures InBuffer(crypt, p, salts, k + 1)
         == InBuffer(crypt, p, salts, k) + Padded0(Cut(crypt(p[8 * k..], salts(k).first, salts(k).second), 13), 13)
  {
  }

  /** Exactly the phrases of as many steps that are encrypted alike are accepted for a phrase. */
  lemma AcceptedFor(crypt: Crypt, phrase: string, salts: nat -> Salt, other: string)
    requires Standard(crypt) && PlainCrypt(crypt) && GoodSalts(salts)
    ensures var p, q := Prepared(phrase), Prepared(other);
      Accepts(crypt, other, Encoded(crypt, p, salts, Steps(p))) <==>
        Steps(q) == Steps(p) && forall k :: 0 <= k < Steps(p) ==>
          crypt(Rest(q, k), salts(k).first, salts(k).second) == crypt(Rest(p, k), salts(k).first, salts(k).second)
  {
    hide Prepared, StepsOf, Encoded, Rest;
    var p, q := Prepared(phrase), Prepared(other);
    var n := Steps(p);
    var c := Encoded(crypt, p, salts, n);
    EncodedShape(crypt, p, salts, n);
    StepsAre(13 * n, 13, n);
    forall k | 0 <= k < n
      ensures Chunk(c, k) == crypt(Rest(p, k), salts(k).first, salts(k).second)
      ensures Answer(crypt, q, c, k) == crypt(Rest(q, k), salts(k).first, salts(k).second)
    {
      ChunkAsEncoded(crypt, p, salts, n, k, q);
    }
  }

  lemma {:induction false} ChunkAsEncoded(crypt: Crypt, p: string, salts: nat -> Salt, n: nat, k: nat, q: string)
    requires Standard(crypt) && PlainCrypt(crypt) && GoodSalts(salts) && k < n
    ensures var c := Encoded(crypt, p, salts, n);
      && Chunk(c, k) == crypt(Rest(p, k), salts(k).first, salts(k).second)
      && Answer(crypt, q, c, k) == crypt(Rest(q, k), salts(k).first, salts(k).second)
  {
    hide Encoded;
    var c := Encoded(crypt, p, salts, n);
    EncodedChunk(crypt, p, salts, n, k);
    var s := c[13 * k..13 * k + 13];
    assert s[0] == c[13 * k] && s[1] == c[13 * k + 1];
  }

  /** A phrase is accepted against what crypt_phrase made of it. */
  lemma PhraseAccepted(crypt: Crypt, phrase: string, salts: nat -> Salt)
    requires Standard(crypt) && PlainCrypt(crypt) && GoodSalts(salts)
    ensures Accepts(crypt, phrase, Encoded(crypt, Prepared(phrase), salts, Steps(Prepared(phrase))))
  {
    AcceptedFor(crypt, phrase, salts, phrase);
  }

  /** A user's record keeps MAX_CRYPTED_PASSWD - 1 characters: this does for phrases of up to eighty. */
  lemma StoredPhraseAccepted(crypt: Crypt, phrase: string, salts: nat -> Salt)
    requires Standard(crypt) && PlainCrypt(crypt) && GoodSalts(salts)
    ensures var p := Prepared(phrase); var c := Encoded(crypt, p, salts, Steps(p));
      Accepts(crypt, phrase, Cut(c, MAX_CRYPTED_PASSWD - 1)) <==> |phrase| <= 80
  {
    hide Prepared, Encoded, Rest, StepsOf, Answer, Chunk;
    var p := Prepared(phrase);
    var n := Steps(p);
    var c := Encoded(crypt, p, salts, n);
    PhraseAccepted(crypt, phrase, salts);
    EncodedShape(crypt, p, salts, n);
    StepsAre(|p|, 8, n);
    StepsAre(139, 13, 11);
    LongPhrase(phrase);
    assert n <= 10 ==> Cut(c, 139) == c;
    if n == 11 {
      ChunkAsEncoded(crypt, p, salts, n, 10, p);
      LastChunkCut(crypt, p, c);
    }
  }

  lemma LastChunkCut(crypt: Crypt, p: string, c: string)
    requires |c| == 143 && |Answer(crypt, p, c, 10)| == 13
    ensures var d := Cut(c, 139); Chunk(d, 10) != Answer(crypt, p, d, 10)
  {
    var d := Cut(c, 139);
    assert CharAt(d, 130) == CharAt(c, 130) && CharAt(d, 131) == CharAt(c, 131);
    assert |Chunk(d, 10)| == 9;
  }

  lemma LongPhrase(phrase: string)
    ensures |Prepared(phrase)| <= 80 <==> |phrase| <= 80
  {
    var s := Cut(phrase, MAX_PASSPHRASE - 1);
    PaddedOnce(s, 16);
    PaddedOnce(if |s| < 16 then Padded(s, 16) else s, 4);
  }

  // ---------------------------------------------------------------- phrases that can be typed

  const EDIT_INIT := 0 as char
  const EDIT_BREAK := -1
  const EDIT_RETURN := 1
  const CTRL_C := 3 as char
  const CTRL_D := 4 as char
  const CTRL_U := 21 as char
  const CTRL_X := 24 as char
  const CTRL_Y := 25 as char
  const KEY_BS := 8 as char
  const KEY_RETURN := 13 as char
  const KEY_ESC := 27 as char

  /** What a key makes of the line that is being typed */
  function Keyed(line: string, c: char): string {
    if c in [EDIT_INIT, KEY_ESC, CTRL_U, CTRL_Y, CTRL_X] then ""
    else if c == KEY_BS then if line == "" then "" else line[..|line| - 1]
    else if c < ' ' || c > '~' || |line| >= MAX_LINE - 1 then line
    else line + [c]
  }

  function Typed(line: string, keys: seq<char>): string
    decreases |keys|
  {
    if keys == [] then line else Typed(Keyed(line, keys[0]), keys[1..])
  }

  class PhraseLine {
    const editBuf: array<char>
    var editPos: int
    ghost var line: string  // the string in editBuf

    ghost predicate Valid()
      reads this, editBuf
    {
      editBuf.Length == MAX_LINE && Holds(editBuf, line) && editPos == |line|
    }

    constructor ()
      ensures Valid() && line == "" && fresh(editBuf)
    {
      editBuf := new char[MAX_LINE](_ => NUL);
      editPos, line := 0, "";
    }

    method Erase()
      requires editBuf.Length == MAX_LINE
      modifies `editPos, `line, editBuf
      ensures Valid() && line == ""
    {
      editPos, line := 0, "";
      editBuf[0] := NUL;
    }

    /** edit_password, but for what it sends to the screen */
    method EditPassword(c: char) returns (r: int)
      requires Valid()
      modifies `editPos, `line, editBuf
      ensures Valid() && line == Keyed(old(line), c)
      ensures r == if c == CTRL_C || c == CTRL_D then EDIT_BREAK else if c == KEY_RETURN then EDIT_RETURN else 0
    {
      if c == EDIT_INIT || c == KEY_ESC || c == CTRL_U || c == CTRL_Y || c == CTRL_X {
        Erase();
      } else if c == CTRL_C || c == CTRL_D {
        return EDIT_BREAK;
      } else if c == KEY_RETURN {
        return EDIT_RETURN;
      } else if c == KEY_BS {
        if editPos > 0 {
          EndAt(editBuf, editPos - 1, line);
          editPos, line := editPos - 1, line[..editPos - 1];
        }
      } else if ' ' <= c <= '~' && editPos < MAX_LINE - 1 {
        PutAt(editBuf, editPos, c, line);
        editPos, line := editPos + 1, line + [c];
      }
      r := 0;
    }

    /** Whatever is typed fits the buffer, so it is never longer than MAX_LINE - 1. */
    method EditKeys(keys: seq<char>)
      requires Valid()
      modifies `editPos, `line, editBuf
      ensures Valid() && line == Typed(old(line), keys) && |line| <= MAX_LINE - 1
    {
      var i := 0;
      while i < |keys|
        invariant i <= |keys| && Valid() && Typed(line, keys[i..]) == Typed(old(line), keys)
      {
        assert keys[i..][1..] == keys[i + 1..];
        var _ := EditPassword(keys[i]);
        i := i + 1;
      }
      assert keys[i..] == [];
    }
  }

  lemma {:induction false} TypedFits(line: string, keys: seq<char>)
    requires |line| <= MAX_LINE - 1
    ensures |Typed(line, keys)| <= MAX_LINE - 1
    decreases |keys|
  {
    if keys != [] {
      TypedFits(Keyed(line, keys[0]), keys[1..]);
    }
  }

  ghost predicate Printable(c: char) {
    32 <= c as int <= 126
  }

  /** Printable characters make up the line, up to 79 of them. */
  lemma {:induction false} TypedAsItIs(line: string, keys: seq<char>)
    requires |line| <= 79 && forall i :: 0 <= i < |keys| ==> Printable(keys[i])
    ensures Typed(line, keys) == Cut(line + keys, 79)
    decreases |keys|
  {
    if keys == [] {
      assert line + keys == line;
    } else if |line| < 79 {
      TypedAsItIs(line + [keys[0]], keys[1..]);
      assert line + [keys[0]] + keys[1..] == line + keys;
    } else {
      TypedAsItIs(line, keys[1..]);
      assert Cut(line + keys, 79) == line == Cut(line + keys[1..], 79);
    }
  }

  /** Each backspace takes back one character, the last one, and more of them than there are characters do no harm. */
  lemma {:induction false} TypedBack(line: string, n: nat)
    ensures Typed(line, seq(n, _ => 8 as char)) == line[..if n < |line| then |line| - n else 0]
  {
    if n > 0 {
      var keys := seq(n, _ => 8 as char);
      assert keys[1..] == seq(n - 1, _ => 8 as char);
      TypedBack(Keyed(line, keys[0]), n - 1);
    }
  }

  /** Escape, ^U, ^X and ^Y (and the 0 that starts the editor) begin the line anew; all other control characters and
      those beyond '~' leave it as it is. */
  lemma TypedControls(line: string, c: char)
    requires !Printable(c) && c as int != 8
    ensures Typed(line, [c]) == if c as int in {0, 21, 24, 25, 27} then "" else line
  {
    assert [c][1..] == [];
    assert Typed(Keyed(line, c), []) == Keyed(line, c);
  }

  /** Every phrase that can be typed is accepted against what is kept of it in the user's record. */
  lemma {:induction false} TypedPhraseAccepted(crypt: Crypt, keys: seq<char>, salts: nat -> Salt)
    requires Standard(crypt) && PlainCrypt(crypt) && GoodSalts(salts)
    ensures var phrase := Typed("", keys);
      var p := Prepared(phrase);
      Accepts(crypt, phrase, Cut(Encoded(crypt, p, salts, Steps(p)), MAX_CRYPTED_PASSWD - 1))
  {
    hide Prepared, Encoded, Typed;
    TypedFits("", keys);
    StoredPhraseAccepted(crypt, Typed("", keys), salts);
  }
}
