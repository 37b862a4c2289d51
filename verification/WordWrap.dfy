/** The interactive word wrap of src/edit.c: a line that is full is stored and a new one begins, at a place between
    words if there is one. */
module WordWrap {
  import opened Common
  import opened CStrings
  import opened StringIO

  const WRAP_CHARSET1 := " ,-+=&^%!?>}])/"
  const WRAP_CHARSET2 := "<{[($`#~"

  /** Division as in C, which rounds towards zero */
  function Third(x: int): int {
    if x >= 0 then x / 3 else -(-x / 3)
  }

  /** A line is not broken before this place. */
  function WrapLen(width: int, n: nat): int {
    if Third(width - n) >= MAX_LINE then MAX_LINE - 1 else Third(width - n)
  }

  /** A line is full at this length, with a prompt of n characters. */
  ghost function Limit(width: int, n: nat): int {
    Min(MAX_LINE - 1 - n, width - 1 - n)
  }

  /** A line may be broken behind such a character. */
  predicate BreaksAfter(c: char) {
    c in WRAP_CHARSET1
  }

  /** A line may be broken before such a character. */
  predicate BreaksBefore(c: char) {
    c in WRAP_CHARSET2
  }

  ghost predicate Breaks(c: char) {
    BreaksAfter(c) || BreaksBefore(c)
  }

  /** The last place up to i where s may be broken: behind a character of the first set or before one of the second */
  ghost function BreakAt(s: string, wrapLen: int, i: int): (r: int)
    requires -1 <= wrapLen && i < |s|
    ensures r < 0 ==> forall j :: wrapLen < j <= i ==> !Breaks(s[j])
    ensures r >= 0 ==> wrapLen < r <= i + 1 && forall j :: r < j <= i ==> !Breaks(s[j])
    ensures r >= 0 ==> (r - 1 > wrapLen && BreaksAfter(s[r - 1])) || (r <= i && BreaksBefore(s[r]))
    ensures r >= 0 && r <= i ==> !BreaksAfter(s[r])
    decreases i - wrapLen
  {
    if i <= wrapLen then -1
    else if BreaksAfter(s[i]) then i + 1
    else if BreaksBefore(s[i]) then i
    else BreakAt(s, wrapLen, i - 1)
  }

  // ---------------------------------------------------------------- what a key does

  /** A key, with the width of the screen and the length of the prompt when it is typed */
  datatype Stroke = Stroke(c: char, width: int, prompt: nat)

  /** The lines that are stored, what is swallowed at the end of each, and the line that is being typed */
  datatype Typed = Typed(lines: seq<string>, swallowed: seq<string>, buf: string)

  ghost predicate Sane(k: Stroke) {
    k.width >= 1 && k.prompt <= 2 && k.c != NUL
  }

  /** Where a full line is cut: behind it, if the key itself begins a new word */
  ghost function CutPlace(buf: string, k: Stroke): (i: nat)
    requires Sane(k)
    ensures i <= |buf| && (i > 0 || i == |buf|) && (k.c == ' ' ==> i == |buf|)
  {
    var r := if k.c == ' ' || BreaksBefore(k.c) then -1 else BreakAt(buf, WrapLen(k.width, k.prompt), |buf| - 1);
    if r < 0 then |buf| else r
  }

  /** A space behind a line that is stored whole is swallowed. */
  ghost function Press(buf: string, k: Stroke): (r: Typed)
    requires Sane(k)
    ensures |r.lines| == |r.swallowed| <= 1
  {
    var i := CutPlace(buf, k);
    if |buf| < Limit(k.width, k.prompt) then Typed([], [], buf + [k.c])
    else if k.c == ' ' then Typed([buf], [" "], "")
    else Typed([buf[..i]], [""], buf[i..] + [k.c])
  }

  ghost function Unlines(lines: seq<string>): string {
    if lines == [] then [] else lines[0] + "\n" + Unlines(lines[1..])
  }

  lemma HoldsNothing(buf: array<char>)
    requires buf.Length > 0 && buf[0] == NUL
    ensures Holds(buf, [])
  {
  }

  lemma NoUnlines()
    ensures Unlines([]) == []
  {
  }

  lemma OneUnlines(line: string)
    ensures Unlines([line]) == line + "\n"
  {
    assert [line][1..] == [];
  }

  class Editor {
    const editBuf: array<char>
    var editPos: int
    const text: StringIO
    var totalLines: int
    ghost var line: string  // the string in editBuf

    ghost predicate Valid()
      reads this, editBuf, text, text.buf
    {
      && editBuf.Length == MAX_LINE && text.buf != editBuf && Holds(editBuf, line) && editPos == |line| < MAX_LINE
      && text.Valid() && text.pos == |text.Data()|
    }

    /** EDIT_INIT */
    constructor ()
      ensures Valid() && line == [] && text.Data() == [] && totalLines == 0
      ensures fresh(editBuf) && fresh(text) && (text.buf != null ==> fresh(text.buf))
    {
      editBuf := new char[MAX_LINE](_ => NUL);
      text := new StringIO(0);
      editPos, totalLines, line := 0, 0, [];
    }

    /** edit_putchar, but for what it sends to the screen */
    method PutChar(c: char)
      requires Valid() && editPos < MAX_LINE - 1 && c != NUL
      modifies `editPos, `line, editBuf
      ensures Valid() && line == old(line) + [c]
    {
      PutAt(editBuf, editPos, c, line);
      editPos := editPos + 1;
      line := line + [c];
    }

    /** The loop of edit_wrap that looks for a place to break the line */
    method FindBreak(wrapLen: int) returns (i: int)
      requires Valid() && wrapLen >= 0
      ensures var r := BreakAt(line, wrapLen, editPos - 1); if r < 0 then i <= wrapLen else i == r
    {
      hide BreaksAfter, BreaksBefore;
      i := editPos - 1;
      while i > wrapLen
        invariant i < editPos
        invariant BreakAt(line, wrapLen, i) == BreakAt(line, wrapLen, editPos - 1)
      {
        if BreaksAfter(editBuf[i]) {
          i := i + 1;
          break;
        }
        if BreaksBefore(editBuf[i]) {
          break;
        }
        i := i - 1;
      }
    }

    /** Cuts the line at the last place where it may be broken, if there is one; wrap, which is empty, gets the rest. */
    method CutAtBreak(wrap: array<char>, wrapLen: int)
      requires Valid() && wrapLen >= 0 && wrap != editBuf && wrap.Length == MAX_LINE && Holds(wrap, [])
      modifies editBuf, wrap
      ensures var r := BreakAt(line, wrapLen, |line| - 1); var i := if r < 0 then |line| else r;
        Holds(editBuf, line[..i]) && Holds(wrap, line[i..])
    {
      hide BreakAt, Holds, BreaksAfter, BreaksBefore;
      assert line[..|line|] == line && line[|line|..] == [];
      var i := FindBreak(wrapLen);
      if i > wrapLen {
        StrCpy(wrap, StringAt(editBuf, i, line), MAX_LINE);
        EndAt(editBuf, i, line);
      }
    }

    /** Cuts off what goes to the next line; a new buffer holds it. */
    method CutOff(c: char, width: int, n: nat) returns (wrap: array<char>)
      requires Valid() && Sane(Stroke(c, width, n))
      modifies editBuf
      ensures fresh(wrap) && wrap.Length == MAX_LINE
      ensures var i := CutPlace(line, Stroke(c, width, n)); Holds(editBuf, line[..i]) && Holds(wrap, line[i..])
    {
      hide BreakAt, Holds, BreaksAfter, BreaksBefore;
      wrap := new char[MAX_LINE](_ => NUL);
      HoldsNothing(wrap);
      if c != ' ' && !BreaksBefore(c) {
        var wrapLen := Third(width - n);
        if wrapLen >= MAX_LINE {
          wrapLen := MAX_LINE - 1;
        }
        CutAtBreak(wrap, wrapLen);
      } else {
        assert line[..|line|] == line && line[|line|..] == [];
      }
    }

    /** The string s in the buffer is stored, with a newline. */
    method StoreLine(ghost s: string)
      requires Holds(editBuf, s) && text.Valid() && text.pos == |text.Data()| && text.buf != editBuf
      modifies `totalLines, text, text.buf
      ensures text.Valid() && text.pos == |text.Data()| && (text.buf == old(text.buf) || fresh(text.buf))
      ensures text.Data() == old(text.Data()) + Unlines([s]) && totalLines == old(totalLines) + 1
    {
      hide Holds, Unlines;
      OneUnlines(s);
      text.Put(StringAt(editBuf, 0, s));
      text.Put("\n");
      totalLines := totalLines + 1;
    }

    /** The next line: what was cut off, and c, unless it is a space at the beginning. */
    method NextLine(wrap: array<char>, c: char, ghost rest: string)
      requires editBuf.Length == MAX_LINE && wrap != editBuf && Holds(wrap, rest) && |rest| < MAX_LINE - 1 && c != NUL
      modifies `editPos, `line, editBuf
      ensures Holds(editBuf, line) && editPos == |line| < MAX_LINE
      ensures line == if c == ' ' && rest == [] then [] else rest + [c]
    {
      hide Holds;
      StrCpy(editBuf, StringAt(wrap, 0, rest), MAX_LINE);
      editPos := StrLen(editBuf, rest);
      line := rest;
      if c != ' ' || editPos > 0 {
        PutAt(editBuf, editPos, c, rest);
        editPos := editPos + 1;
        line := rest + [c];
      }
    }

    /** edit_wrap, but for what it sends to the screen */
    method Wrap(c: char, width: int, prompt: string)
      requires Valid() && Sane(Stroke(c, width, |prompt|))
      modifies this, editBuf, text, text.buf
      ensures Valid() && (text.buf == old(text.buf) || fresh(text.buf))
      ensures var r := Press(old(line), Stroke(c, width, |prompt|));
        line == r.buf && text.Data() == old(text.Data()) + Unlines(r.lines) && totalLines == old(totalLines) + |r.lines|
    {
      hide CutPlace, Unlines, Holds, BreaksAfter, BreaksBefore;
      var n := |prompt|;
      NoUnlines();
      if editPos < MAX_LINE - 1 - n && editPos < width - 1 - n {
        PutChar(c);
        assert old(text.Data()) + [] == old(text.Data());
        return;
      }
      ghost var i := CutPlace(line, Stroke(c, width, n));
      ghost var s, rest := line[..i], line[i..];
      assert c == ' ' ==> s == line && rest == [];
      var wrap := CutOff(c, width, n);
      StoreLine(s);
      NextLine(wrap, c, rest);
    }
  }

  // ---------------------------------------------------------------- a run of keys

  ghost predicate AllSane(ks: seq<Stroke>) {
    forall i :: 0 <= i < |ks| ==> Sane(ks[i])
  }

  ghost function Run(buf: string, ks: seq<Stroke>): (r: Typed)
    requires AllSane(ks)
    ensures |r.lines| == |r.swallowed|
    decreases |ks|
  {
    if ks == [] then Typed([], [], buf)
    else
      var p := Press(buf, ks[0]);
      var r := Run(p.buf, ks[1..]);
      Typed(p.lines + r.lines, p.swallowed + r.swallowed, r.buf)
  }

  ghost function Chars(ks: seq<Stroke>): string {
    if ks == [] then [] else [ks[0].c] + Chars(ks[1..])
  }

  /** The lines with what was swallowed put back behind them */
  ghost function Rejoined(lines: seq<string>, swallowed: seq<string>, buf: string): string
    requires |lines| == |swallowed|
  {
    if lines == [] then buf else lines[0] + (swallowed[0] + Rejoined(lines[1..], swallowed[1..], buf))
  }

  lemma PressKeeps(buf: string, k: Stroke)
    requires Sane(k)
    ensures var r := Press(buf, k); Rejoined(r.lines, r.swallowed, r.buf) == buf + [k.c]
    ensures forall i :: 0 <= i < |Press(buf, k).swallowed| ==> Press(buf, k).swallowed[i] in {"", " "}
  {
    hide CutPlace;
    var r := Press(buf, k);
    if r.lines != [] {
      assert Rejoined([], [], r.buf) == r.buf;
    }
  }

  lemma {:induction false} RejoinedConcat(a: seq<string>, x: seq<string>, b: seq<string>, y: seq<string>, buf: string)
    requires |a| == |x| <= 1 && |b| == |y|
    ensures Rejoined(a + b, x + y, buf) == Rejoined(a, x, []) + Rejoined(b, y, buf)
  {
    if a == [] {
      assert a + b == b && x + y == y;
    } else {
      assert (a + b)[1..] == b && (x + y)[1..] == y;
      assert Rejoined(a[1..], x[1..], []) == [];
    }
  }

  lemma {:induction false} RejoinedTail(a: seq<string>, x: seq<string>, buf: string)
    requires |a| == |x| <= 1
    ensures Rejoined(a, x, buf) == Rejoined(a, x, []) + buf
  {
    if a != [] {
      assert a[1..] == [] && x[1..] == [];
    }
  }

  /** Nothing that is typed gets lost, but for at most one space at the end of each stored line. */
  lemma {:induction false} TextKept(buf: string, ks: seq<Stroke>)
    requires AllSane(ks)
    ensures var r := Run(buf, ks); Rejoined(r.lines, r.swallowed, r.buf) == buf + Chars(ks)
    ensures forall i :: 0 <= i < |Run(buf, ks).swallowed| ==> Run(buf, ks).swallowed[i] in {"", " "}
    decreases |ks|
  {
    hide Press, Rejoined;
    if ks == [] {
      RejoinedNothing(buf);
    } else {
      var p := Press(buf, ks[0]);
      var r := Run(p.buf, ks[1..]);
      PressKeeps(buf, ks[0]);
      TextKept(p.buf, ks[1..]);
      RejoinedConcat(p.lines, p.swallowed, r.lines, r.swallowed, r.buf);
      RejoinedTail(p.lines, p.swallowed, p.buf);
      Regrouped(Rejoined(p.lines, p.swallowed, []), p.buf, buf, ks[0].c, Chars(ks[1..]));
    }
  }

  lemma Regrouped(first: string, rest: string, buf: string, c: char, cs: string)
    requires first + rest == buf + [c]
    ensures first + (rest + cs) == buf + ([c] + cs)
  {
    assert first + (rest + cs) == (first + rest) + cs;
  }

  lemma {:induction false} RejoinedNothing(buf: string)
    ensures Rejoined([], [], buf) == buf
  {
  }

  /** No line is longer than the widest one that the screens allow, which has one character at least. */
  lemma {:induction false} LinesFit(buf: string, ks: seq<Stroke>, max: int)
    requires AllSane(ks) && |buf| <= max && 1 <= max
    requires forall i :: 0 <= i < |ks| ==> ks[i].width - 1 - ks[i].prompt <= max || MAX_LINE - 1 - ks[i].prompt <= max
    ensures |Run(buf, ks).buf| <= max && forall i :: 0 <= i < |Run(buf, ks).lines| ==> |Run(buf, ks).lines[i]| <= max
    decreases |ks|
  {
    if ks != [] {
      PressFits(buf, ks[0], max);
      LinesFit(Press(buf, ks[0]).buf, ks[1..], max);
    }
  }

  lemma PressFits(buf: string, k: Stroke, max: int)
    requires Sane(k) && |buf| <= max && 1 <= max && (k.width - 1 - k.prompt <= max || MAX_LINE - 1 - k.prompt <= max)
    ensures |Press(buf, k).buf| <= max && forall i :: 0 <= i < |Press(buf, k).lines| ==> |Press(buf, k).lines[i]| <= max
  {
  }

  // ---------------------------------------------------------------- where lines are broken

  /** Place j of a line is behind the first third of the room that the prompt leaves, or behind the end of the
      buffer. */
  ghost predicate FarEnough(j: int, width: int, prompt: nat) {
    j > 0 && (3 * j > width - prompt || j >= MAX_LINE)
  }

  lemma WrapLenIs(width: int, prompt: nat)
    requires width >= 1 && prompt <= 2
    ensures forall j: int :: j > WrapLen(width, prompt) <==> FarEnough(j, width, prompt)
  {
  }

  /** A line ends with a swallowed space, behind a character that ends a word, or before one that begins a word; or
      no such character was left behind its first third. */
  ghost predicate WellBroken(line: string, swallowed: string, next: string, width: int, prompt: nat) {
    || swallowed == " "
    || (line != [] && BreaksAfter(line[|line| - 1]))
    || (next != [] && BreaksBefore(next[0]))
    || (forall j :: 0 <= j < |line| && FarEnough(j, width, prompt) ==> !Breaks(line[j]))
  }

  ghost predicate AllWellBroken(lines: seq<string>, swallowed: seq<string>, buf: string, width: int, prompt: nat)
    requires |lines| == |swallowed|
  {
    forall i {:trigger Next(lines, buf, i)} :: 0 <= i < |lines| ==>
      WellBroken(lines[i], swallowed[i], Next(lines, buf, i), width, prompt)
  }

  /** What comes after line i */
  ghost function Next(lines: seq<string>, buf: string, i: nat): string {
    if i + 1 < |lines| then lines[i + 1] else buf
  }

  ghost function FirstLine(r: Typed): string {
    if r.lines == [] then r.buf else r.lines[0]
  }

  /** What stands first in the buffer goes first into the text. */
  lemma {:induction false} FirstStays(buf: string, ks: seq<Stroke>)
    requires AllSane(ks) && buf != []
    ensures FirstLine(Run(buf, ks)) != [] && FirstLine(Run(buf, ks))[0] == buf[0]
    decreases |ks|
  {
    hide CutPlace;
    if ks != [] && Press(buf, ks[0]).lines == [] {
      FirstStays(Press(buf, ks[0]).buf, ks[1..]);
    }
  }

  lemma PressBreaks(buf: string, k: Stroke)
    requires Sane(k)
    ensures var r := Press(buf, k);
      || r.lines == []
      || (WellBroken(r.lines[0], r.swallowed[0], r.buf, k.width, k.prompt)
         && (r.buf == [] ==> r.swallowed[0] == " "))
  {
    hide BreaksAfter, BreaksBefore, WrapLen;
    WrapLenIs(k.width, k.prompt);
  }

  /** When a key fills the line, one line is stored. Where it is cut is a place to break it, behind the first third,
      unless it is stored whole; and no later place could have been used: not behind the line, if the key is a space or
      begins a word, and not at a character further on. */
  lemma CutAsLateAsCanBe(buf: string, k: Stroke)
    requires Sane(k)
    ensures Press(buf, k).lines == [] <==> |buf| + k.prompt < MAX_LINE - 1 && |buf| + k.prompt < k.width - 1
    ensures var r := Press(buf, k); r.lines != [] ==>
      var n := |r.lines[0]|;
      && r.lines == [buf[..n]] && r.buf == buf[n..] + (if k.c == ' ' then [] else [k.c])
      && (n == |buf| || (n > 0 && k.c != ' ' && !BreaksBefore(k.c)))
      && (n == |buf| || (BreaksAfter(buf[n - 1]) && FarEnough(n - 1, k.width, k.prompt))
          || (BreaksBefore(buf[n]) && FarEnough(n, k.width, k.prompt)))
      && (forall j :: n <= j < |buf| && FarEnough(j, k.width, k.prompt) ==> !BreaksAfter(buf[j]))
      && (forall j :: n < j < |buf| && FarEnough(j, k.width, k.prompt) ==> !BreaksBefore(buf[j]))
  {
    hide BreaksAfter, BreaksBefore, WrapLen;
    WrapLenIs(k.width, k.prompt);
    assert buf[..|buf|] == buf && buf[|buf|..] == [] && [] + [k.c] == [k.c];
  }

  lemma {:induction false} LinesWellBroken(buf: string, ks: seq<Stroke>, width: int, prompt: nat)
    requires AllSane(ks) && forall i :: 0 <= i < |ks| ==> ks[i].width == width && ks[i].prompt == prompt
    ensures var r := Run(buf, ks); AllWellBroken(r.lines, r.swallowed, r.buf, width, prompt)
    decreases |ks|
  {
    hide Press, WellBroken, AllWellBroken;
    if ks == [] {
      NoneBroken(buf, width, prompt);
    } else {
      var p := Press(buf, ks[0]);
      PressBreaks(buf, ks[0]);
      LinesWellBroken(p.buf, ks[1..], width, prompt);
      if p.buf != [] {
        FirstStays(p.buf, ks[1..]);
      }
      OneMoreLine(p, Run(p.buf, ks[1..]), width, prompt);
    }
  }

  lemma NoneBroken(buf: string, width: int, prompt: nat)
    ensures AllWellBroken([], [], buf, width, prompt)
  {
  }

  lemma NextAlike(line: string, swallowed: string, a: string, b: string, width: int, prompt: nat)
    requires WellBroken(line, swallowed, a, width, prompt)
    requires swallowed == " " || (a != [] && b != [] && a[0] == b[0])
    ensures WellBroken(line, swallowed, b, width, prompt)
  {
  }

  /** What comes after a line may go on as it likes, if only its first character is the same. */
  lemma OneMoreLine(p: Typed, r: Typed, width: int, prompt: nat)
    requires |p.lines| == |p.swallowed| <= 1 && |r.lines| == |r.swallowed|
      && AllWellBroken(r.lines, r.swallowed, r.buf, width, prompt)
    requires p.lines == [] || WellBroken(p.lines[0], p.swallowed[0], p.buf, width, prompt)
    requires p.lines == [] || p.swallowed[0] == " "
      || (p.buf != [] && FirstLine(r) != [] && FirstLine(r)[0] == p.buf[0])
    ensures AllWellBroken(p.lines + r.lines, p.swallowed + r.swallowed, r.buf, width, prompt)
  {
    hide WellBroken;
    if p.lines == [] {
      assert p.lines + r.lines == r.lines && p.swallowed + r.swallowed == r.swallowed;
    } else {
      var lines, swallowed := p.lines + r.lines, p.swallowed + r.swallowed;
      assert Next(lines, r.buf, 0) == FirstLine(r);
      NextAlike(p.lines[0], p.swallowed[0], p.buf, FirstLine(r), width, prompt);
      forall i | 0 < i < |lines|
        ensures WellBroken(lines[i], swallowed[i], Next(lines, r.buf, i), width, prompt)
      {
        assert Next(lines, r.buf, i) == Next(r.lines, r.buf, i - 1);
        assert WellBroken(r.lines[i - 1], r.swallowed[i - 1], Next(r.lines, r.buf, i - 1), width, prompt);
      }
    }
  }

  /** After i keys, these lines have been stored and this one is being typed. */
  ghost predicate Sofar(buf: string, ks: seq<Stroke>, i: nat, lines: seq<string>, line: string) {
    && AllSane(ks) && i <= |ks|
    && var r, rest := Run(buf, ks), Run(line, ks[i..]); rest.buf == r.buf && lines + rest.lines == r.lines
  }

  lemma SofarNothing(buf: string, ks: seq<Stroke>)
    requires AllSane(ks)
    ensures Sofar(buf, ks, 0, [], buf)
  {
    assert ks[0..] == ks && [] + Run(buf, ks).lines == Run(buf, ks).lines;
  }

  lemma {:induction false} SofarMore(buf: string, ks: seq<Stroke>, i: nat, lines: seq<string>, line: string)
    requires Sofar(buf, ks, i, lines, line) && i < |ks|
    ensures var p := Press(line, ks[i]);
      Sofar(buf, ks, i + 1, lines + p.lines, p.buf) && Unlines(lines + p.lines) == Unlines(lines) + Unlines(p.lines)
  {
    hide Press, Unlines;
    var p := Press(line, ks[i]);
    assert ks[i..][1..] == ks[i + 1..];
    assert lines + (p.lines + Run(p.buf, ks[i + 1..]).lines) == (lines + p.lines) + Run(p.buf, ks[i + 1..]).lines;
    UnlinesConcat(lines, p.lines);
  }

  lemma {:induction false} SofarAll(buf: string, ks: seq<Stroke>, lines: seq<string>, line: string)
    requires Sofar(buf, ks, |ks|, lines, line)
    ensures line == Run(buf, ks).buf && lines == Run(buf, ks).lines
  {
    assert ks[|ks|..] == [];
    RunNothing(line);
    assert lines + [] == lines;
  }

  /** A row of keys is typed, each with its prompt. */
  method TypeKeys(e: Editor, ks: seq<Stroke>, prompts: seq<string>)
    requires e.Valid() && AllSane(ks) && |prompts| == |ks| && forall i :: 0 <= i < |ks| ==> |prompts[i]| == ks[i].prompt
    modifies e, e.editBuf, e.text, e.text.buf
    ensures e.Valid() && (e.text.buf == old(e.text.buf) || fresh(e.text.buf))
    ensures var r := Run(old(e.line), ks);
      && e.line == r.buf && e.text.Data() == old(e.text.Data()) + Unlines(r.lines)
      && e.totalLines == old(e.totalLines) + |r.lines|
  {
    hide Press, Holds, Unlines, Run, Sofar;
    ghost var buf, data, n, lines := e.line, e.text.Data(), e.totalLines, [];
    NoUnlines();
    SofarNothing(buf, ks);
    var i := 0;
    while i < |ks|
      invariant i <= |ks| && e.Valid() && (e.text.buf == old(e.text.buf) || fresh(e.text.buf))
      invariant e.text.Data() == data + Unlines(lines) && e.totalLines == n + |lines|
        && Sofar(buf, ks, i, lines, e.line)
    {
      SofarMore(buf, ks, i, lines, e.line);
      ghost var more := Press(e.line, ks[i]).lines;
      TextMore(data, lines, more);
      e.Wrap(ks[i].c, ks[i].width, prompts[i]);
      lines := lines + more;
      i := i + 1;
    }
    SofarAll(buf, ks, lines, e.line);
  }

  lemma {:induction false} TextMore(data: string, lines: seq<string>, more: seq<string>)
    ensures data + Unlines(lines) + Unlines(more) == data + (Unlines(lines) + Unlines(more))
  {
  }

  lemma {:induction false} RunNothing(buf: string)
    ensures Run(buf, []) == Typed([], [], buf)
  {
  }

  lemma {:induction false} UnlinesConcat(a: seq<string>, b: seq<string>)
    ensures Unlines(a + b) == Unlines(a) + Unlines(b)
  {
    if a == [] {
      assert a + b == b;
    } else {
      UnlinesConcat(a[1..], b);
      assert (a + b)[1..] == a[1..] + b;
      assert a[0] + "\n" + (Unlines(a[1..]) + Unlines(b)) == a[0] + "\n" + Unlines(a[1..]) + Unlines(b);
    }
  }

  // ---------------------------------------------------------------- the stored text

  /** The text tells the lines apart if no newline is typed. */
  lemma {:induction false} LinesToldApart(a: seq<string>, b: seq<string>)
    requires forall i :: 0 <= i < |a| ==> '\n' !in a[i]
    requires forall i :: 0 <= i < |b| ==> '\n' !in b[i]
    requires Unlines(a) == Unlines(b)
    ensures a == b
    decreases |a|
  {
    if a == [] || b == [] {
      assert |Unlines(a)| == |Unlines(b)|;
    } else {
      FirstNewline(a);
      FirstNewline(b);
      LinesToldApart(a[1..], b[1..]);
      assert a == [a[0]] + a[1..] && b == [b[0]] + b[1..];
    }
  }

  lemma {:induction false} FirstNewline(a: seq<string>)
    requires a != [] && '\n' !in a[0]
    ensures Index(Unlines(a), '\n') == |a[0]|
    ensures Unlines(a)[..|a[0]|] == a[0] && Unlines(a)[|a[0]| + 1..] == Unlines(a[1..])
  {
    var t := Unlines(a);
    assert forall j :: 0 <= j < |a[0]| ==> t[j] == a[0][j];
    assert t[|a[0]|] == '\n';
  }

  lemma {:induction false} NoNewlines(buf: string, ks: seq<Stroke>)
    requires AllSane(ks) && '\n' !in buf && '\n' !in Chars(ks)
    ensures '\n' !in Run(buf, ks).buf && forall i :: 0 <= i < |Run(buf, ks).lines| ==> '\n' !in Run(buf, ks).lines[i]
    decreases |ks|
  {
    if ks != [] {
      NoNewlines(Press(buf, ks[0]).buf, ks[1..]);
    }
  }
}
