/** The byte buffer with a read/write pointer of src/StringIO.c, and the line-based lists that src/CachedFile.c
    keeps in it. */
module StringIO {
  import opened Common

  const STRINGIO_MINSIZE := 256
  const STRINGIO_BLKSIZE := 1024
  const STRINGIO_SET := 0
  const STRINGIO_CUR := 1
  const STRINGIO_END := 2
  const PRINT_BUF := 512

  /** The data after str has been written over it at place p; what lies beyond stays. */
  ghost function Overlay(data: string, p: nat, str: string): string
    requires p <= |data|
  {
    data[..p] + str + if p + |str| <= |data| then data[p + |str|..] else []
  }

  /** Byte by byte: those of str from place p on, and all others as they were */
  lemma OverlayBytes(data: string, p: nat, str: string)
    requires p <= |data|
    ensures var r := Overlay(data, p, str);
      && |r| == (if p + |str| <= |data| then |data| else p + |str|)
      && forall i :: 0 <= i < |r| ==> r[i] == if p <= i < p + |str| then str[i - p] else data[i]
  {
  }

  lemma OverlayNothing(data: string, p: nat, str: string)
    requires p <= |data|
    ensures Overlay(data, p, str[..0]) == data
  {
  }

  lemma NextChunk(data: string, p: nat, all: string, n: nat, bytes: string)
    requires p <= |data| && n + |bytes| <= |all| && bytes == all[n..n + |bytes|]
    ensures p + n <= |Overlay(data, p, all[..n])|
    ensures Overlay(Overlay(data, p, all[..n]), p + n, bytes) == Overlay(data, p, all[..n + |bytes|])
  {
    OverlayTwice(data, p, all[..n], bytes);
    assert all[..n] + bytes == all[..n + |bytes|];
  }

  lemma OverlayTwice(data: string, p: nat, a: string, b: string)
    requires p <= |data|
    ensures p + |a| <= |Overlay(data, p, a)|
    ensures Overlay(Overlay(data, p, a), p + |a|, b) == Overlay(data, p, a + b)
  {
    var d := Overlay(data, p, a);
    assert d[..p + |a|] == data[..p] + a;
    assert p + |a| + |b| <= |data| ==> d[p + |a| + |b|..] == data[p + |a| + |b|..];
  }

  /** Where c first stands in s, or |s| */
  function Index(s: string, c: char): (i: nat)
    ensures i <= |s| && (i < |s| ==> s[i] == c) && forall j :: 0 <= j < i ==> s[j] != c
  {
    if s == [] || s[0] == c then 0 else 1 + Index(s[1..], c)
  }

  /** The line that gets_StringIO reads into a buffer of n bytes, and where the pointer is then. C strings end
      at the first zero byte. */
  ghost function GetLine(data: string, pos: nat, n: int): (r: (Option<string>, nat))
    requires pos <= |data|
    ensures pos <= r.1 <= |data| && (r.0.Some? ==> pos < r.1)
  {
    if n <= 1 || pos == |data| then (None, pos)
    else
      var chunk := data[pos..Min(pos + n - 1, |data|)];
      var str := chunk[..Index(chunk, '\0')];
      var i := Index(str, '\n');
      (Some(str[..i]), pos + if i < |str| then i + 1 else |chunk|)
  }

  /** It is what stands at pos up to a newline, a zero byte, the end of the data or of the buffer, whichever comes
      first. The pointer goes behind the newline, or else behind all that was read into the buffer. So the last line
      is read as well if no newline is behind it. */
  lemma LineIs(data: string, pos: nat, n: int)
    requires pos <= |data|
    ensures var (line, next) := GetLine(data, pos, n);
      if n <= 1 || pos == |data| then line == None && next == pos
      else
        && line.Some?
        && var l, most := line.value, Min(n - 1, |data| - pos);
           && |l| <= most && l == data[pos..pos + |l|] && '\n' !in l && '\0' !in l
           && (|l| < most ==> data[pos + |l|] in {'\n', '\0'})
           && next == if |l| < most && data[pos + |l|] == '\n' then pos + |l| + 1 else pos + most
  {
    if n > 1 && pos < |data| {
      var chunk := data[pos..Min(pos + n - 1, |data|)];
      var str := chunk[..Index(chunk, '\0')];
      var l := str[..Index(str, '\n')];
      var most := Min(n - 1, |data| - pos);
      assert |chunk| == most && pos + |l| <= |data|;
      assert forall i :: 0 <= i < |l| ==> l[i] == str[i] == chunk[i] == data[pos + i];
      assert forall i :: 0 <= i < |l| ==> str[i] != '\n' && chunk[i] != '\0';
      assert l == data[pos..pos + |l|];
      if |l| < |str| {
        assert str[|l|] == chunk[|l|] == data[pos + |l|] == '\n';
      } else if |l| < most {
        assert chunk[|l|] == data[pos + |l|] == '\0';
      }
    }
  }

  class StringIO {
    var buf: array?<char>
    var len: int
    var size: int
    var pos: int

    ghost predicate Valid()
      reads this, buf
    {
      if buf == null then len == size == pos == 0
      else buf.Length == size && 0 <= pos <= len < size
    }

    ghost function Data(): string
      requires Valid()
      reads this, buf
    {
      if buf == null then [] else buf[..len]
    }

    /** new_StringIO, which leaves everything zero, and then init_StringIO */
    constructor (size: nat)
      ensures Valid() && Data() == [] && pos == 0 && (buf != null ==> fresh(buf))
    {
      len, this.size, pos, buf := 0, 0, 0, null;
      if size > 0 {
        buf := new char[size];
        this.size := size;
      }
    }

    /** grow_StringIO */
    method Grow()
      requires Valid()
      modifies `buf, `size
      ensures Valid() && Data() == old(Data()) && size > 1 && buf != null && fresh(buf)
      ensures size == if old(size) == 0 then 256 else old(size) + if old(size) < 1024 then old(size) else 1024
    {
      var newsize := if size <= 0 then STRINGIO_MINSIZE else if size < STRINGIO_BLKSIZE
        then 2 * size else size + STRINGIO_BLKSIZE;
      var p := new char[newsize];
      if buf != null {
        forall i | 0 <= i < len {
          p[i] := buf[i];
        }
      }
      buf := p;
      size := newsize;
    }

    /** The part of write_StringIO that fits the buffer: the memcpy and the update of pos and len */
    method Fill(str: string)
      requires Valid() && str != [] && buf != null && pos + |str| < size
      modifies `pos, `len, buf
      ensures Valid() && Data() == Overlay(old(Data()), old(pos), str) && pos == old(pos) + |str|
    {
      forall i | 0 <= i < |str| {
        buf[pos + i] := str[i];
      }
      pos := pos + |str|;
      if pos > len {
        len := pos;
        buf[len] := '\0';
      }
    }

    /** The string s has been written to place p of `data`. */
    ghost predicate Written(data: string, p: nat, s: string)
      reads this, buf
    {
      Valid() && p <= |data| && pos == p + |s| && Data() == Overlay(data, p, s)
    }

    /** One turn of the loop in write_StringIO when some of it fits */
    method WriteSome(str: string, written: nat, fit: int, ghost data: string, ghost p: nat) returns (written': nat)
      requires written < |str| && Written(data, p, str[..written]) && fit == size - 1 - pos > 0
      modifies `pos, `len, buf
      ensures written < written' <= |str| && Written(data, p, str[..written'])
    {
      hide Overlay;
      var n := if |str| - written > fit then fit else |str| - written;
      var chunk := str[written..written + n];
      NextChunk(data, p, str, written, chunk);
      Fill(chunk);
      written' := written + n;
    }

    /** write_StringIO: the buffer grows as often as it has to, and no byte outside what is written changes. */
    method Write(str: string) returns (written: int)
      requires Valid()
      modifies this, buf
      ensures Valid() && (buf == old(buf) || fresh(buf)) && written == |str|
      ensures Data() == Overlay(old(Data()), old(pos), str) && pos == old(pos) + |str|
    {
      written := 0;
      ghost var data, p := Data(), pos;
      assert str[..0] == [] && Written(data, p, []);
      while written < |str|
        invariant 0 <= written <= |str| && Written(data, p, str[..written]) && (buf == old(buf) || fresh(buf))
        decreases |str| - written, if size - 1 - pos <= 0 then 1 else 0
      {
        var fit := size - 1 - pos;
        if fit <= 0 {
          Grow();
        } else {
          written := WriteSome(str, written, fit, data, p);
        }
      }
      assert str[..|str|] == str;
    }

    /** read_StringIO into a buffer for n bytes, of which one is for the terminator unless it is the only one. */
    method Read(n: nat) returns (bytes: string)
      requires Valid()
      modifies `pos
      ensures Valid() && Data() == old(Data()) && pos == old(pos) + |bytes|
      ensures bytes == Data()[old(pos)..Min(old(pos) + if n > 1 then n - 1 else n, |Data()|)]
    {
      if buf == null || n == 0 {
        return [];
      }
      var most := if n > 1 then n - 1 else n;
      var bytesRead := if len - pos > most then most else len - pos;
      bytes := buf[pos..pos + bytesRead];
      assert buf[..len][pos..pos + bytesRead] == bytes;
      pos := pos + bytesRead;
    }

    /** seek_StringIO: never to a place outside the data */
    method Seek(relpos: int, whence: int) returns (r: int)
      requires Valid()
      modifies `pos
      ensures Valid() && Data() == old(Data())
      ensures var to := if whence == STRINGIO_SET then relpos else if whence == STRINGIO_CUR
        then old(pos) + relpos else |Data()| + relpos;
        if whence in {STRINGIO_SET, STRINGIO_CUR, STRINGIO_END} && 0 <= to <= |Data()| then r == pos == to
        else r == -1 && pos == old(pos)
    {
      var newpos;
      if whence == STRINGIO_SET {
        newpos := relpos;
      } else if whence == STRINGIO_CUR {
        newpos := pos + relpos;
      } else if whence == STRINGIO_END {
        newpos := len + relpos;
      } else {
        return -1;
      }
      if newpos < 0 || newpos > len {
        return -1;
      }
      pos := newpos;
      r := pos;
    }

    /** shift_StringIO: what is before the pointer is gone. */
    method Shift(maxsize: int)
      requires Valid() && maxsize > 0
      modifies this, buf
      ensures Valid() && Data() == old(Data())[old(pos)..] && pos == 0 && (buf == old(buf) || fresh(buf))
      ensures size == if old(pos) > 0 && Data() == [] && old(size) > maxsize then maxsize else old(size)
    {
      if buf == null || pos <= 0 {
        return;
      }
      var dataLeft := len - pos;
      if dataLeft > 0 {
        forall i | 0 <= i < dataLeft {
          buf[i] := buf[pos + i];
        }
      } else {
        dataLeft := 0;
      }
      pos := 0;
      len := dataLeft;
      if len == 0 && size > maxsize {
        size := maxsize;
        buf := new char[maxsize];
      }
    }

    /** free_StringIO */
    method Free()
      modifies this
      ensures Valid() && Data() == [] && pos == 0 && buf == null
    {
      len, size, pos, buf := 0, 0, 0, null;
    }

    /** Another piece is written behind the one before. */
    method WriteMore(str: string, ghost data: string, ghost p: nat, ghost done: string)
      requires Written(data, p, done)
      modifies this, buf
      ensures Written(data, p, done + str) && (buf == old(buf) || fresh(buf))
    {
      OverlayTwice(data, p, done, str);
      var _ := Write(str);
    }

    /** The bytes from place n on have been read. */
    ghost predicate HasRead(all: string, n: nat, bytes: string)
      reads this, buf
    {
      && Valid() && Data() == all
      && n + |bytes| <= |all| && bytes == all[n..Min(n + 1023, |all|)] && pos == n + |bytes|
    }

    method FirstChunk() returns (bytes: string)
      requires Valid()
      modifies `pos
      ensures HasRead(old(Data()), 0, bytes)
    {
      var _ := Seek(0, STRINGIO_SET);
      bytes := Read(1024);
    }

    /** One turn of the loop in concat_StringIO, which copies by way of a buffer of 1024 bytes */
    method CopyChunk(src: StringIO, bytes: string, ghost data: string, ghost p: nat, ghost all: string, ghost n: nat)
      returns (next: string)
      requires src != this && (buf == null || src.buf != buf)
      requires src.HasRead(all, n, bytes) && Written(data, p, all[..n])
      modifies this, buf, src`pos
      ensures src.HasRead(all, n + |bytes|, next) && Written(data, p, all[..n + |bytes|])
      ensures (buf == old(buf) || fresh(buf)) && (buf == null || src.buf != buf)
    {
      assert all[..n] + bytes == all[..n + |bytes|];
      WriteMore(bytes, data, p, all[..n]);
      next := src.Read(1024);
    }

    /** concat_StringIO */
    method Concat(src: StringIO)
      requires Valid() && src.Valid() && src != this && (buf == null || src.buf != buf)
      modifies this, buf, src`pos
      ensures Valid() && src.Valid() && src.Data() == old(src.Data()) && src.pos == |src.Data()|
      ensures Data() == Overlay(old(Data()), old(pos), src.Data()) && pos == old(pos) + |src.Data()|
      ensures buf == old(buf) || fresh(buf)
    {
      hide Overlay;
      ghost var all, data, p, n := src.Data(), Data(), pos, 0;
      OverlayNothing(data, p, all);
      var bytes := src.FirstChunk();
      while bytes != []
        invariant n <= |all| && src.HasRead(all, n, bytes) && Written(data, p, all[..n])
        invariant (buf == old(buf) || fresh(buf)) && (buf == null || src.buf != buf)
        decreases |all| - n
      {
        var next := CopyChunk(src, bytes, data, p, all, n);
        n := n + |bytes|;
        bytes := next;
      }
      Drained(src, all, n);
    }

    lemma Drained(src: StringIO, all: string, n: nat)
      requires src.HasRead(all, n, [])
      ensures n == |all| == src.pos && all[..n] == all
    {
    }

    /** copy_StringIO */
    method Copy(src: StringIO)
      requires Valid() && src.Valid() && src != this && (buf == null || src.buf != buf)
      modifies this, buf, src`pos
      ensures Valid() && src.Valid() && Data() == src.Data() == old(src.Data()) && pos == |Data()|
    {
      Free();
      Concat(src);
    }

    /** gets_StringIO */
    method Gets(n: int) returns (line: Option<string>)
      requires Valid()
      modifies `pos
      ensures Valid() && Data() == old(Data()) && line == GetLine(Data(), old(pos), n).0
        && pos == GetLine(Data(), old(pos), n).1
    {
      hide Overlay;
      if n <= 1 {
        return None;
      }
      var start := pos;
      var bytes := Read(n);
      if bytes == [] {
        assert start == |Data()|;
        return None;
      }
      assert start < |Data()| && bytes == Data()[start..Min(start + n - 1, |Data()|)];
      var str := bytes[..Index(bytes, '\0')];
      var p := Index(str, '\n');
      assert str[..|str|] == str;
      if p < |str| {
        str := str[..p];
        var _ := Seek(start + |str| + 1, STRINGIO_SET);
      }
      line := Some(str);
    }

    /** put_StringIO */
    method Put(str: string)
      requires Valid()
      modifies this, buf
      ensures Valid() && (buf == old(buf) || fresh(buf))
      ensures Data() == Overlay(old(Data()), old(pos), str) && pos == old(pos) + |str|
    {
      var _ := Write(str);
    }
  }
}
