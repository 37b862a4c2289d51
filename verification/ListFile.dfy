/** Fputlist and Fgetlist of src/CachedFile.c: a list of strings, one to a line, ended by an empty line. */
module ListFile {
  import opened Common
  import opened StringIO

  function Encode(sl: seq<string>): string {
    if sl == [] then "\n" else sl[0] + "\n" + Encode(sl[1..])
  }

  /** What Fgetlist reads from place pos on, and where the pointer is then */
  ghost function GetList(data: string, pos: nat): (r: (seq<string>, nat))
    requires pos <= |data|
    ensures pos <= r.1 <= |data|
    decreases |data| - pos
  {
    var (line, next) := GetLine(data, pos, PRINT_BUF);
    if line == None || line.value == "" then ([], next)
    else var (rest, end) := GetList(data, next); ([line.value] + rest, end)
  }

  /** Something that can stand on a line of its own */
  ghost predicate Plain(str: string) {
    str != "" && '\n' !in str && '\0' !in str
  }

  method PutLine(f: StringIO, str: string, ghost data: string, ghost p: nat, ghost done: string)
    requires f.Written(data, p, done)
    modifies f, f.buf
    ensures f.Written(data, p, done + str + "\n") && (f.buf == old(f.buf) || fresh(f.buf))
  {
    f.WriteMore(str, data, p, done);
    f.WriteMore("\n", data, p, done + str);
  }

  /** Fputlist */
  method Fputlist(f: StringIO, sl: seq<string>)
    requires f.Valid()
    modifies f, f.buf
    ensures f.Valid() && f.Data() == Overlay(old(f.Data()), old(f.pos), Encode(sl))
      && f.pos == old(f.pos) + |Encode(sl)|
    ensures f.buf == old(f.buf) || fresh(f.buf)
  {
    ghost var data, p := f.Data(), f.pos;
    ghost var done := "";
    var i := 0;
    assert sl[i..] == sl;
    while i < |sl|
      invariant i <= |sl| && f.Written(data, p, done) && (f.buf == old(f.buf) || fresh(f.buf))
      invariant done + Encode(sl[i..]) == Encode(sl)
    {
      PutLine(f, sl[i], data, p, done);
      EncodeStep(sl, i, done);
      done := done + sl[i] + "\n";
      i := i + 1;
    }
    f.WriteMore("\n", data, p, done);
    assert sl[i..] == [];
  }

  lemma EncodeStep(sl: seq<string>, i: nat, done: string)
    requires i < |sl|
    ensures done + Encode(sl[i..]) == done + sl[i] + "\n" + Encode(sl[i + 1..])
  {
    assert sl[i..][1..] == sl[i + 1..];
  }

  /** What a line that has been read, and all that follows, amount to */
  ghost function Onwards(line: Option<string>, data: string, pos: nat): (seq<string>, nat)
    requires pos <= |data|
  {
    if line == None || line.value == "" then ([], pos)
    else ([line.value] + GetList(data, pos).0, GetList(data, pos).1)
  }

  lemma {:induction false} OnwardsStep(data: string, pos: nat)
    requires pos <= |data|
    ensures GetList(data, pos) == Onwards(GetLine(data, pos, PRINT_BUF).0, data, GetLine(data, pos, PRINT_BUF).1)
  {
  }

  /** After the lines sl and this one, what is still to come makes up the whole. */
  ghost predicate Partway(whole: (seq<string>, nat), sl: seq<string>, line: Option<string>, data: string, pos: int) {
    0 <= pos <= |data| && whole.0 == sl + Onwards(line, data, pos).0 && whole.1 == Onwards(line, data, pos).1
  }

  lemma PartwayStep(whole: (seq<string>, nat), sl: seq<string>, line: Option<string>, data: string, pos: int)
    requires Partway(whole, sl, line, data, pos) && line != None && line.value != ""
    ensures var (next, pos') := GetLine(data, pos, PRINT_BUF); Partway(whole, sl + [line.value], next, data, pos')
  {
    OnwardsStep(data, pos);
  }

  /** Fgetlist */
  method Fgetlist(f: StringIO) returns (sl: seq<string>)
    requires f.Valid()
    modifies f`pos
    ensures f.Valid() && f.Data() == old(f.Data()) && sl == GetList(f.Data(), old(f.pos)).0
      && f.pos == GetList(f.Data(), old(f.pos)).1
  {
    ghost var data, whole := f.Data(), GetList(f.Data(), f.pos);
    sl := [];
    OnwardsStep(data, f.pos);
    var line := f.Gets(PRINT_BUF);
    while line != None && line.value != ""
      invariant f.Valid() && f.Data() == data && Partway(whole, sl, line, data, f.pos)
      decreases |data| - f.pos, if line == None then 0 else 1
    {
      PartwayStep(whole, sl, line, data, f.pos);
      sl := sl + [line.value];
      line := f.Gets(PRINT_BUF);
    }
  }

  // ---------------------------------------------------------------- what is written is what is read

  lemma {:induction false} IndexAt(s: string, c: char, i: nat)
    requires i < |s| && s[i] == c && c !in s[..i]
    ensures Index(s, c) == i
  {
    assert forall j :: 0 <= j < i ==> s[j] == s[..i][j];
  }

  lemma {:induction false} IndexNone(s: string, c: char)
    requires c !in s
    ensures Index(s, c) == |s|
  {
  }

  /** Place pos of the data reads str. The quantifier keeps the solver from taking this apart unless its trigger is
      mentioned. */
  ghost predicate Stands(data: string, pos: nat, str: string) {
    pos + |str| <= |data| && forall b {:trigger Look(b)} :: Look(b) ==> data[pos..pos + |str|] == str
  }

  ghost predicate Look(b: bool) { true }

  lemma StandsApart(data: string, pos: nat, a: string, b: string)
    requires Stands(data, pos, a + b)
    ensures Stands(data, pos, a) && Stands(data, pos + |a|, b)
  {
    assert Look(true);
    assert a == (a + b)[..|a|] && b == (a + b)[|a|..];
  }

  /** What has been written stands there. */
  lemma OverlayStands(data: string, pos: nat, str: string)
    requires pos <= |data|
    ensures Stands(Overlay(data, pos, str), pos, str)
  {
  }

  /** A line that does not fit comes in pieces. */
  lemma FirstPiece(data: string, pos: nat, str: string)
    requires Plain(str) && |str| >= PRINT_BUF - 1 && Stands(data, pos, str)
    ensures GetLine(data, pos, PRINT_BUF) == (Some(str[..PRINT_BUF - 1]), pos + PRINT_BUF - 1)
  {
    assert Look(true);
    var n := PRINT_BUF - 1;
    var chunk := data[pos..Min(pos + n, |data|)];
    assert chunk == data[pos..pos + |str|][..n] == str[..n];
    IndexNone(chunk, '\0');
    assert chunk[..|chunk|] == chunk;
    IndexNone(chunk, '\n');
  }

  /** A line comes back from gets_StringIO as it was written, and the pointer stands behind it, exactly if it is no
      longer than PRINT_BUF - 2: a longer one comes in pieces. */
  lemma LineRoundTrip(data: string, pos: nat, str: string)
    requires Plain(str) && Stands(data, pos, str + "\n")
    ensures GetLine(data, pos, PRINT_BUF) == (Some(str), pos + |str| + 1) <==> |str| <= PRINT_BUF - 2
  {
    assert Look(true);
    var n := PRINT_BUF - 1;
    var chunk := data[pos..Min(pos + n, |data|)];
    var line := str + "\n";
    assert forall i: nat :: i < |line| && i < |chunk| ==> chunk[i] == data[pos..pos + |line|][i] == line[i];
    assert forall i: nat :: i < |str| ==> line[i] == str[i] && str[i] in str;
    if |str| <= PRINT_BUF - 2 {
      assert chunk[|str|] == '\n';
      var k := Index(chunk, '\0');
      assert chunk[..k][..|str|] == str;
      IndexAt(chunk[..k], '\n', |str|);
    } else {
      StandsApart(data, pos, str, "\n");
      FirstPiece(data, pos, str);
    }
  }

  /** An empty line ends a list. */
  lemma EmptyLine(data: string, pos: nat)
    requires Stands(data, pos, "\n")
    ensures GetLine(data, pos, PRINT_BUF) == (Some(""), pos + 1)
  {
    assert Look(true);
    var chunk := data[pos..Min(pos + PRINT_BUF - 1, |data|)];
    assert chunk[0] == data[pos..pos + 1][0] == '\n';
    var str := chunk[..Index(chunk, '\0')];
    assert str[0] == '\n';
    assert str[..0] == "";
  }

  ghost predicate AllPlain(sl: seq<string>) {
    forall i :: 0 <= i < |sl| ==> Plain(sl[i])
  }

  /** No line is too long. */
  ghost predicate Short(sl: seq<string>) {
    forall i :: 0 <= i < |sl| ==> |sl[i]| <= PRINT_BUF - 2
  }

  lemma {:induction false} OneMoreLine(data: string, pos: nat, str: string, next: nat, sl: seq<string>, end: nat)
    requires pos <= |data| && GetLine(data, pos, PRINT_BUF) == (Some(str), next) && str != ""
      && GetList(data, next) == (sl, end)
    ensures GetList(data, pos) == ([str] + sl, end)
  {
  }

  lemma HeadAndTail<X>(s: seq<X>)
    requires s != []
    ensures [s[0]] + s[1..] == s
  {
  }

  lemma {:induction false} EncodeLength(sl: seq<string>)
    requires sl != []
    ensures |Encode(sl)| == |sl[0]| + 1 + |Encode(sl[1..])|
  {
  }

  lemma LineFirst(data: string, pos: nat, head: string, tail: seq<string>)
    requires Plain(head) && |head| <= PRINT_BUF - 2 && Stands(data, pos, head + "\n" + Encode(tail))
    ensures Stands(data, pos + |head| + 1, Encode(tail))
    ensures var (sl, end) := GetList(data, pos + |head| + 1); GetList(data, pos) == ([head] + sl, end)
  {
    hide GetLine;
    StandsApart(data, pos, head + "\n", Encode(tail));
    LineRoundTrip(data, pos, head);
  }

  /** What comes back of the lines sl, and how many characters are read: a line that does not fit comes in pieces, and
      if the last piece of it fills the buffer, then the newline behind it is taken for the empty line at the end. */
  function ComesBack(sl: seq<string>): (r: (seq<string>, nat))
    ensures sl != [] && sl[0] != "" ==> r.0 != []
    decreases |sl|, if sl == [] then 0 else |sl[0]|
  {
    if sl == [] then ([], 1)
    else
      var str, n := sl[0], PRINT_BUF - 1;
      if |str| < n then var (rest, m) := ComesBack(sl[1..]); ([str] + rest, |str| + 1 + m)
      else if |str| == n then ([str], n + 1)
      else var (rest, m) := ComesBack([str[n..]] + sl[1..]); ([str[..n]] + rest, n + m)
  }

  lemma PieceFirst(data: string, pos: nat, str: string, tail: seq<string>)
    requires Plain(str) && |str| >= PRINT_BUF - 1 && Stands(data, pos, str + "\n" + Encode(tail))
    ensures var n := PRINT_BUF - 1;
      && Stands(data, pos + n, str[n..] + "\n" + Encode(tail))
      && GetList(data, pos) == ([str[..n]] + GetList(data, pos + n).0, GetList(data, pos + n).1)
  {
    hide Encode;
    var n := PRINT_BUF - 1;
    var rest := str[n..] + "\n" + Encode(tail);
    assert str + "\n" + Encode(tail) == str + ("\n" + Encode(tail)) == str[..n] + rest;
    StandsApart(data, pos, str, "\n" + Encode(tail));
    StandsApart(data, pos, str[..n], rest);
    FirstPiece(data, pos, str);
    OneMoreLine(data, pos, str[..n], pos + n, GetList(data, pos + n).0, GetList(data, pos + n).1);
  }

  lemma RestPlain(str: string, n: nat)
    requires Plain(str) && n < |str|
    ensures Plain(str[n..])
  {
  }

  lemma {:induction false} NothingLeft(data: string, pos: nat, tail: seq<string>)
    requires Stands(data, pos, "\n" + Encode(tail))
    ensures GetList(data, pos) == ([], pos + 1)
  {
    StandsApart(data, pos, "\n", Encode(tail));
    EmptyLine(data, pos);
  }

  /** Fgetlist after Fputlist, for lines of any length */
  lemma {:induction false} ListComesBack(data: string, pos: nat, sl: seq<string>)
    requires AllPlain(sl) && Stands(data, pos, Encode(sl))
    ensures var (back, n) := ComesBack(sl); GetList(data, pos) == (back, pos + n)
    decreases |sl|, if sl == [] then 0 else |sl[0]|
  {
    hide GetLine, GetList, Stands, Plain;
    if sl == [] {
      NothingWritten(data, pos);
    } else {
      var str, tail, n := sl[0], sl[1..], PRINT_BUF - 1;
      if |str| < n {
        LineFirst(data, pos, str, tail);
        ListComesBack(data, pos + |str| + 1, tail);
      } else {
        PieceFirst(data, pos, str, tail);
        if |str| == n {
          assert str[n..] + "\n" + Encode(tail) == "\n" + Encode(tail) && str[..n] == str;
          NothingLeft(data, pos + n, tail);
          assert [str] + [] == [str];
        } else {
          RestPlain(str, n);
          var sl' := [str[n..]] + tail;
          assert sl'[1..] == tail;
          ListComesBack(data, pos + n, sl');
        }
      }
    }
  }

  lemma {:induction false} NothingWritten(data: string, pos: nat)
    requires Stands(data, pos, "\n")
    ensures GetList(data, pos) == ([], pos + 1)
  {
    EmptyLine(data, pos);
  }

  /** The last line may be longer by one. */
  ghost predicate NearlyShort(sl: seq<string>) {
    sl == [] || (Short(sl[..|sl| - 1]) && |sl[|sl| - 1]| <= PRINT_BUF - 1)
  }

  lemma ShortCons(sl: seq<string>)
    requires AllPlain(sl) && sl != []
    ensures AllPlain(sl[1..]) && (Short(sl) <==> |sl[0]| <= PRINT_BUF - 2 && Short(sl[1..]))
  {
    if Short(sl[1..]) {
      assert forall i :: 0 < i < |sl| ==> sl[i] == sl[1..][i - 1];
    }
  }

  lemma NearlyShortCons(sl: seq<string>)
    requires AllPlain(sl) && |sl| > 1
    ensures NearlyShort(sl) <==> |sl[0]| <= PRINT_BUF - 2 && NearlyShort(sl[1..])
  {
    hide Short;
    var init := sl[..|sl| - 1];
    assert sl[1..][..|sl| - 2] == init[1..] && AllPlain(init);
    ShortCons(init);
  }

  lemma SameCons<X>(x: X, r: seq<X>, s: seq<X>)
    requires s != []
    ensures [x] + r == s <==> x == s[0] && r == s[1..]
  {
    assert ([x] + r)[0] == x && ([x] + r)[1..] == r;
    if x == s[0] && r == s[1..] {
      HeadAndTail(s);
    }
  }

  lemma {:induction false} ComesBackIff(sl: seq<string>)
    requires AllPlain(sl)
    ensures ComesBack(sl) == (sl, |Encode(sl)|) <==> Short(sl)
    ensures ComesBack(sl).0 == sl <==> NearlyShort(sl)
  {
    hide NearlyShort, Short, AllPlain;
    if sl == [] {
      NoneShort();
    } else {
      EncodeLength(sl);
      ShortCons(sl);
      if |sl| == 1 {
        OneShort(sl);
      } else {
        NearlyShortCons(sl);
      }
      if |sl[0]| < PRINT_BUF - 1 {
        ComesBackIff(sl[1..]);
        SameCons(sl[0], ComesBack(sl[1..]).0, sl);
      } else {
        LongComesBack(sl);
      }
    }
  }

  lemma NoneShort()
    ensures Short([]) && NearlyShort([])
  {
  }

  lemma OneShort(sl: seq<string>)
    requires |sl| == 1
    ensures NearlyShort(sl) <==> |sl[0]| <= PRINT_BUF - 1
  {
    assert sl[..0] == [];
  }

  lemma {:induction false} LongComesBack(sl: seq<string>)
    requires sl != [] && |sl[0]| >= PRINT_BUF - 1
    ensures ComesBack(sl) != (sl, |Encode(sl)|) && (ComesBack(sl).0 == sl <==> |sl| == 1 && |sl[0]| == PRINT_BUF - 1)
  {
    var str, n := sl[0], PRINT_BUF - 1;
    EncodeLength(sl);
    if |str| == n {
      assert |Encode(sl[1..])| > 0;
      assert |sl| == 1 ==> sl == [str];
    } else {
      assert ComesBack(sl).0[0] == str[..n];
    }
  }

  /** Whatever is read, it is plain lines. */
  lemma {:induction false} LinesArePlain(data: string, pos: nat)
    requires pos <= |data|
    ensures AllPlain(GetList(data, pos).0)
    decreases |data| - pos
  {
    var (line, next) := GetLine(data, pos, PRINT_BUF);
    if line != None && line.value != "" {
      LineIsPlain(data, pos);
      LinesArePlain(data, next);
    }
  }

  lemma LineIsPlain(data: string, pos: nat)
    requires pos <= |data| && GetLine(data, pos, PRINT_BUF).0.Some? && GetLine(data, pos, PRINT_BUF).0.value != ""
    ensures Plain(GetLine(data, pos, PRINT_BUF).0.value)
  {
    var chunk := data[pos..Min(pos + PRINT_BUF - 1, |data|)];
    var str := chunk[..Index(chunk, '\0')];
    var line := str[..Index(str, '\n')];
    assert forall k :: 0 <= k < |line| ==> line[k] == str[k] == chunk[k];
  }

  /** So a list is read back, with the pointer just behind it, exactly if every line is plain and none is too long. The
      lines alone come back if they are NearlyShort. */
  lemma {:induction false} ListRoundTripIff(data: string, pos: nat, sl: seq<string>)
    requires Stands(data, pos, Encode(sl))
    ensures GetList(data, pos) == (sl, pos + |Encode(sl)|) <==> AllPlain(sl) && Short(sl)
    ensures GetList(data, pos).0 == sl <==> AllPlain(sl) && NearlyShort(sl)
  {
    hide GetList, Short, NearlyShort, AllPlain, ComesBack;
    LinesArePlain(data, pos);
    if AllPlain(sl) {
      ListComesBack(data, pos, sl);
      ComesBackIff(sl);
    }
  }

  /** Fgetlist reads what Fputlist has written, and leaves the pointer just behind the empty line. */
  lemma {:induction false} ListRoundTrip(data: string, pos: nat, sl: seq<string>)
    requires AllPlain(sl) && Short(sl) && Stands(data, pos, Encode(sl))
    ensures GetList(data, pos) == (sl, pos + |Encode(sl)|)
  {
    ListRoundTripIff(data, pos, sl);
  }

  function EncodeAll(ls: seq<seq<string>>): string {
    if ls == [] then "" else Encode(ls[0]) + EncodeAll(ls[1..])
  }

  /** Reading lists one after the other from place pos on gives these, and the pointer is then at `end`. */
  ghost predicate Reads(data: string, pos: nat, ls: seq<seq<string>>, end: nat)
    requires pos <= |data|
    decreases |ls|
  {
    if ls == [] then pos == end
    else GetList(data, pos).0 == ls[0] && Reads(data, GetList(data, pos).1, ls[1..], end)
  }

  /** So any number of lists, written one after the other, are read one after the other. */
  lemma {:induction false} ListsRoundTrip(data: string, pos: nat, ls: seq<seq<string>>)
    requires Stands(data, pos, EncodeAll(ls)) && forall i :: 0 <= i < |ls| ==> AllPlain(ls[i]) && Short(ls[i])
    ensures Reads(data, pos, ls, pos + |EncodeAll(ls)|)
    decreases |ls|
  {
    hide GetList, Encode, AllPlain, Short, Stands;
    if ls != [] {
      StandsApart(data, pos, Encode(ls[0]), EncodeAll(ls[1..]));
      ListRoundTrip(data, pos, ls[0]);
      ListsRoundTrip(data, pos + |Encode(ls[0])|, ls[1..]);
    }
  }

  /** The two functions at work: Fgetlist gets from somewhere what Fputlist has put there, and stops just behind it,
      exactly if no line is too long and all are plain. */
  method PutAndGet(f: StringIO, sl: seq<string>) returns (sl': seq<string>)
    requires f.Valid()
    modifies f, f.buf
    ensures f.Valid() && (sl' == sl && f.pos == old(f.pos) + |Encode(sl)| <==> AllPlain(sl) && Short(sl))
  {
    hide GetList, Encode, Overlay, AllPlain, Short, Stands;
    var start := f.pos;
    ghost var data := f.Data();
    Fputlist(f, sl);
    OverlayStands(data, start, Encode(sl));
    ListRoundTripIff(f.Data(), start, sl);
    var _ := f.Seek(start, STRINGIO_SET);
    sl' := Fgetlist(f);
  }
}
