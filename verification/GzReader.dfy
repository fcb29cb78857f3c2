// Reading a file that is not in gzip format: gzread.c and gzlib.c, which then
// copy. Pushed-back bytes are read before those of the file.
module GzReader {
  import opened Basics

  datatype How = Look | Copy
  datatype Whence = FromStart | FromHere

  // What is left of s after its first n elements, if it has that many.
  function Drop(s: seq<uint8>, n: nat): (r: seq<uint8>)
    ensures |r| == if n <= |s| then |s| - n else 0
  {
    if n <= |s| then s[n..] else []
  }

  lemma DropTwice(s: seq<uint8>, n: nat, m: nat)
    ensures Drop(Drop(s, n), m) == Drop(s, n + m)
  {
    if n + m <= |s| {
      assert s[n..][m..] == s[n + m..];
    }
  }

  lemma DropNothing(s: seq<uint8>)
    ensures Drop(s, 0) == s
  {
  }

  lemma DropAll(s: seq<uint8>, n: nat, m: nat)
    requires n <= |s| && n <= m && Drop(s, n) == []
    ensures n == |s| && Drop(s, m) == []
  {
  }

  lemma DropAt(s: seq<uint8>, n: nat)
    ensures forall i | 0 <= i < |Drop(s, n)| :: Drop(s, n)[i] == s[n + i]
  {
  }

  lemma DropFront(s: seq<uint8>, rest: seq<uint8>, n: nat)
    requires n <= |s|
    ensures Drop(s + rest, n) == s[n..] + rest
  {
  }

  // The first byte, or -1 at the end.
  function Next(s: seq<uint8>): int {
    if s == [] then -1 else s[0]
  }

  // s with other bytes at one place.
  function Put(s: seq<uint8>, at: nat, bytes: seq<uint8>): (r: seq<uint8>)
    requires at + |bytes| <= |s|
    ensures |r| == |s|
  {
    s[..at] + bytes + s[at + |bytes|..]
  }

  lemma PutMore(s: seq<uint8>, at: nat, b: seq<uint8>, c: seq<uint8>)
    requires at + |b + c| <= |s|
    ensures Put(Put(s, at, b), at + |b|, c) == Put(s, at, b + c)
  {
  }

  lemma PutNext(s: seq<uint8>, view: seq<uint8>, got: nat, n: nat)
    requires got + n <= |view| && got + n <= |s|
    ensures Put(Put(s, 0, view[..got]), got, view[got..got + n]) == Put(s, 0, view[..got + n])
  {
    assert view[..got + n] == view[..got] + view[got..got + n];
  }

  lemma PutNothing(s: seq<uint8>, at: nat)
    requires at <= |s|
    ensures Put(s, at, []) == s
  {
  }

  lemma PutFirst(s: seq<uint8>, bytes: seq<uint8>)
    requires |bytes| <= |s|
    ensures forall i | 0 <= i < |bytes| :: Put(s, 0, bytes)[i] == bytes[i]
  {
  }

  lemma DropParts(s: seq<uint8>, from: nat, n: nat)
    requires n > 0 ==> from + n <= |s|
    ensures Drop(s, from) == (if n > 0 then s[from..from + n] else []) + Drop(s, from + n)
  {
    if n == 0 {
      assert [] + Drop(s, from) == Drop(s, from);
    }
  }

  // The first n elements moved to the end, from the last of them down.
  method MoveUp(a: array<uint8>, n: nat)
    requires n <= a.Length
    modifies a
    ensures a[a.Length - n..] == old(a[..n])
  {
    var src: nat, dest: nat := n, a.Length;
    while src > 0
      invariant src <= n && dest - src == a.Length - n
      invariant forall i | 0 <= i < src :: a[i] == old(a[i])
      invariant forall k | dest <= k < a.Length :: a[k] == old(a[k - (a.Length - n)])
    {
      dest, src := dest - 1, src - 1;
      a[dest] := a[src];
    }
    assert a[a.Length - n..] == old(a[..n]);
  }

  class Reader {
    const file: seq<uint8>
    // where the next read from the file begins
    var fdPos: nat
    const size: nat
    const input: array<uint8>
    const out: array<uint8>
    // what is in `out`
    var next: nat
    var have: nat
    var pos: int
    var how: How
    var eof: bool
    var past: bool
    // a request to skip bytes first
    var seek: bool
    var skip: nat
    var err: bool

    constructor (file: seq<uint8>, size: nat)
      requires 8 <= size && file != [] && !(|file| > 1 && file[0] == 31 && file[1] == 139)
      ensures Valid() && Settled() && !err && this.file == file && this.size == size && View() == file && Tell() == 0
      ensures fresh(input) && fresh(out) && how == Look && !seek && !past && !eof
    {
      this.file, this.size, fdPos := file, size, 0;
      input, out := new uint8[size], new uint8[2 * size];
      next, have, pos, how := 0, 0, 0, Look;
      eof, past, seek, skip, err := false, false, false, 0, false;
    }

    ghost predicate Valid()
      reads this
    {
      && 8 <= size && input.Length == size && out.Length == 2 * size && input != out
      && file != [] && !(|file| > 1 && file[0] == 31 && file[1] == 139)
      && next + have <= out.Length && pos == fdPos - have
      && (how == Look ==> have == 0 && fdPos == 0 && !eof)
      && (eof ==> fdPos >= |file|)
      && (seek ==> skip > 0)
    }

    // No bytes are at hand that a request would have to skip.
    predicate Settled()
      reads this
    {
      seek ==> have == 0
    }

    ghost function Buffered(): (s: seq<uint8>)
      requires next + have <= out.Length
      reads `next, `have, out
      ensures |s| == have
    {
      out[next..next + have]
    }

    // The bytes at hand, and then those of the file.
    ghost function Ahead(): seq<uint8>
      requires next + have <= out.Length
      reads `next, `have, `fdPos, out
    {
      Buffered() + Drop(file, fdPos)
    }

    // What a caller expects to read next.
    ghost function View(): seq<uint8>
      requires next + have <= out.Length
      reads `next, `have, `fdPos, `seek, `skip, out
    {
      Drop(Ahead(), if seek then skip else 0)
    }

    // gztell64
    function Tell(): int
      reads this
    {
      pos + if seek then skip else 0
    }

    // As long as no one has gone past the end of the file, what is ahead is as
    // long as what is left of the file.
    lemma TellCounts()
      requires Valid() && fdPos <= |file|
      ensures pos + |Ahead()| == |file|
    {
    }

    // read(fd, buf + at, get): some of the file, and nothing only at its end.
    method ReadSome(buf: array<uint8>, at: nat, get: nat) returns (ret: nat)
      requires 0 < get && at + get <= buf.Length
      modifies `fdPos, buf
      ensures ret <= get && (ret == 0 <==> old(fdPos) >= |file|) && fdPos == old(fdPos) + ret
      ensures ret > 0 ==> fdPos <= |file| && buf[..] == Put(old(buf[..]), at, file[old(fdPos)..fdPos])
      ensures ret == 0 ==> unchanged(buf)
    {
      if fdPos >= |file| {
        return 0;
      }
      ret :| 0 < ret <= get && fdPos + ret <= |file|;
      forall i | 0 <= i < ret {
        buf[at + i] := file[fdPos + i];
      }
      assert buf[..] == Put(old(buf[..]), at, file[fdPos..fdPos + ret]);
      fdPos := fdPos + ret;
    }

    // How much of the file has not been read.
    function Left(): nat
      reads `fdPos
    {
      if fdPos < |file| then |file| - fdPos else 0
    }

    // gz_load: len bytes, or all there are, however few each read returns.
    method GzLoad(buf: array<uint8>, at: nat, len: nat) returns (have: nat)
      requires 0 < len && at + len <= buf.Length
      modifies `fdPos, `eof, buf
      ensures have == Min(len, old(Left())) && fdPos == old(fdPos) + have && eof == (old(eof) || have < len)
      ensures have > 0 ==> fdPos <= |file|
      ensures buf[..] == Put(old(buf[..]), at, if have > 0 then file[old(fdPos)..fdPos] else [])
    {
      hide Put;
      have := 0;
      var ret := 1;
      PutNothing(buf[..], at);
      while have < len && ret != 0
        invariant have <= len && fdPos == old(fdPos) + have && eof == old(eof)
        invariant have > 0 ==> fdPos <= |file|
        invariant ret == 0 ==> fdPos >= |file| && have < len
        invariant buf[..] == Put(old(buf[..]), at, if have > 0 then file[old(fdPos)..fdPos] else [])
        decreases len - have, ret
      {
        ret := ReadSome(buf, at + have, Min(len - have, 0x4000_0000));
        if ret > 0 {
          Parts(old(fdPos), fdPos - ret, fdPos);
          PutMore(old(buf[..]), at, file[old(fdPos)..fdPos - ret], file[fdPos - ret..fdPos]);
        }
        have := have + ret;
      }
      if ret == 0 {
        eof := true;
      }
    }

    lemma Parts(a: nat, b: nat, c: nat)
      requires a <= b <= c <= |file|
      ensures file[a..b] + file[b..c] == file[a..c]
      ensures a == b ==> file[a..b] == []
    {
    }

    // gz_look, for a file without the gzip magic bytes.
    method GzLook()
      requires Valid() && how == Look
      modifies `fdPos, `eof, `next, `have, `how, input, out
      ensures Valid() && how == Copy && have == Min(size, |file|) && Ahead() == old(Ahead()) == file
    {
      var availIn := GzLoad(input, 0, size);
      if availIn > 1 && input[0] == 31 && input[1] == 139 {
        assert false;
      }
      next := 0;
      forall i | 0 <= i < availIn {
        out[i] := input[i];
      }
      have := availIn;
      how := Copy;
      assert Buffered() == file[..have];
    }

    // gz_fetch
    method GzFetch()
      requires Valid() && have == 0
      modifies `fdPos, `eof, `next, `have, `how, input, out
      ensures Valid() && how == Copy && Ahead() == old(Ahead()) && (have > 0 || eof)
    {
      if how == Look {
        GzLook();
      } else {
        Refill();
      }
    }

    method Refill()
      requires Valid() && have == 0 && how == Copy
      modifies `fdPos, `eof, `next, `have, out
      ensures Valid() && Ahead() == old(Ahead()) && (have > 0 || eof)
    {
      hide Put, Drop;
      ghost var from := fdPos;
      ghost var was := out[..];
      NothingBuffered();
      have := GzLoad(out, 0, 2 * size);
      next := 0;
      DropParts(file, from, have);
      PutFirst(was, if have > 0 then file[from..fdPos] else []);
      assert Buffered() == if have > 0 then file[from..fdPos] else [];
    }

    // Bytes that leave the front of the buffer.
    method Consume(n: nat)
      requires Valid() && n <= have
      modifies `have, `next, `pos
      ensures Valid() && Ahead() == Drop(old(Ahead()), n) && pos == old(pos) + n && have == old(have) - n
      ensures n <= |old(Ahead())|
    {
      hide Drop;
      ghost var b := Buffered();
      DropFront(b, Drop(file, fdPos), n);
      have := have - n;
      next := next + n;
      pos := pos + n;
      assert Buffered() == b[n..];
    }

    // gz_skip
    method GzSkip(len0: nat)
      requires Valid()
      modifies `fdPos, `eof, `next, `have, `how, `pos, input, out
      ensures Valid() && Ahead() == Drop(old(Ahead()), len0)
      ensures pos == old(pos) + Min(len0, |old(Ahead())|)
      ensures len0 > 0 || old(how) == Copy ==> how == Copy
      ensures len0 > 0 ==> have < 2 * size
    {
      hide Ahead, Drop;
      var len: nat := len0;
      ghost var ahead := Ahead();
      DropNothing(ahead);
      while len > 0
        invariant Valid() && len <= len0 && Ahead() == Drop(ahead, len0 - len)
        invariant len0 - len <= |ahead| && pos == old(pos) + (len0 - len)
        invariant len < len0 || old(how) == Copy ==> how == Copy
        invariant len == 0 && len < len0 ==> have < 2 * size
        decreases len, if have > 0 then 0 else if eof then 1 else 2
      {
        if have > 0 {
          var n := Min(have, len);
          Consume(n);
          DropTwice(ahead, len0 - len, n);
          len := len - n;
        } else if eof {
          NothingAhead();
          DropAll(ahead, len0 - len, len0);
          break;
        } else {
          GzFetch();
        }
      }
    }

    lemma NothingAhead()
      requires Valid() && have == 0 && eof
      ensures Ahead() == []
    {
    }

    // A request to skip, if there is one.
    method SkipFirst()
      requires Valid()
      modifies `fdPos, `eof, `next, `have, `how, `pos, `seek, input, out
      ensures Valid() && !seek && Ahead() == View() == old(View())
      ensures pos + |Ahead()| == old(pos + |Ahead()|)
      ensures old(how) == Copy ==> how == Copy
      ensures old(seek) ==> have < 2 * size
      ensures !old(seek) ==> have == old(have) && next == old(next)
    {
      hide Drop, Ahead;
      ghost var ahead := Ahead();
      if seek {
        seek := false;
        GzSkip(skip);
      }
      DropNothing(Ahead());
      DropNothing(ahead);
    }

    // gz_read: as many bytes as are asked for, or all there are.
    method GzRead(buf: array<uint8>, len0: nat) returns (got: nat)
      requires Valid() && len0 <= buf.Length && buf != input && buf != out
      modifies `fdPos, `eof, `next, `have, `how, `pos, `seek, `past, input, out, buf
      ensures Valid() && got == Min(len0, |old(View())|)
      ensures buf[..] == Put(old(buf[..]), 0, old(View())[..got]) && View() == Drop(old(View()), got)
      ensures len0 > 0 ==> !seek && pos + |Ahead()| == old(pos + |Ahead()|)
      ensures len0 > 0 ==> have < 2 * size
      ensures len0 == 0 ==> seek == old(seek) && have == old(have) && pos == old(pos)
      ensures past == (old(past) || got < len0)
    {
      hide Drop, Ahead, Put, Buffered;
      got := 0;
      DropNothing(View());
      PutNothing(buf[..], 0);
      if len0 == 0 {
        return;
      }
      SkipFirst();
      ghost var view := View();
      var len: nat := len0;
      while len > 0
        invariant len == 0 ==> have < 2 * size
        invariant Valid() && got + len == len0 && !seek && got <= |view|
        invariant Ahead() == Drop(view, got) && pos + |Ahead()| == old(pos + |Ahead()|)
        invariant buf[..] == Put(old(buf[..]), 0, view[..got]) && past == old(past)
        decreases len, if have > 0 then 0 else if eof then 1 else 2
      {
        var n := len;
        if have > 0 {
          n := Min(have, n);
          CopyOut(buf, got, n, view);
        } else if eof {
          NothingAhead();
          past := true;
          break;
        } else if how == Look || n < 2 * size {
          GzFetch();
          continue;
        } else {
          n := LoadDirect(buf, got, n, view);
        }
        PutNext(old(buf[..]), view, got, n);
        len := len - n;
        got := got + n;
      }
      DropNothing(Ahead());
    }

    // memcpy(buf + got, next, n)
    method CopyOut(buf: array<uint8>, got: nat, n: nat, ghost view: seq<uint8>)
      requires Valid() && n <= have && got + n <= buf.Length && buf != input && buf != out
      requires got <= |view| && Ahead() == Drop(view, got)
      modifies `next, `have, `pos, buf
      ensures Valid() && have == old(have) - n && pos == old(pos) + n
      ensures got + n <= |view| && Ahead() == Drop(view, got + n) && buf[..] ==
        Put(old(buf[..]), got, view[got..got + n])
    {
      assert forall i | 0 <= i < n :: Ahead()[i] == out[next + i];
      forall i | 0 <= i < n {
        buf[got + i] := out[next + i];
      }
      assert buf[..] == Put(old(buf[..]), got, view[got..got + n]);
      DropTwice(view, got, n);
      Consume(n);
    }

    // Straight from the file into the caller's buffer.
    method LoadDirect(buf: array<uint8>, got: nat, len: nat, ghost view: seq<uint8>) returns (n: nat)
      requires Valid() && how == Copy && have == 0 && 0 < len && got + len <= buf.Length && buf != input && buf != out
      requires got <= |view| && Ahead() == Drop(view, got)
      modifies `fdPos, `eof, `pos, buf
      ensures Valid() && n <= len && pos == old(pos) + n && (n > 0 || eof)
      ensures got + n <= |view| && Ahead() == Drop(view, got + n) && buf[..] ==
        Put(old(buf[..]), got, view[got..got + n])
    {
      hide Drop;
      n := Min(len, Left());
      NothingBuffered();
      FileIsView(view, got, n);
      n := GzLoad(buf, got, len);
      pos := pos + n;
      NothingBuffered();
    }

    lemma NothingBuffered()
      requires next + have <= out.Length && have == 0
      ensures Ahead() == Drop(file, fdPos)
    {
      assert Buffered() == [];
    }

    lemma FileIsView(view: seq<uint8>, got: nat, n: nat)
      requires got <= |view| && Drop(file, fdPos) == Drop(view, got) && n <= Left()
      ensures got + n <= |view| && Drop(file, fdPos + n) == Drop(view, got + n)
      ensures n > 0 ==> fdPos + n <= |file| && file[fdPos..fdPos + n] == view[got..got + n]
    {
      DropTwice(view, got, n);
      DropTwice(file, fdPos, n);
      if n > 0 {
        assert file[fdPos..fdPos + n] == file[fdPos..][..n];
        assert view[got..got + n] == view[got..][..n];
      }
    }

    // gzread
    method Read(buf: array<uint8>, len: nat) returns (r: int)
      requires Valid() && len <= buf.Length && buf != input && buf != out
      modifies `fdPos, `eof, `next, `have, `how, `pos, `seek, `past, `err, input, out, buf
      ensures Valid() && (old(Settled()) ==> Settled())
      ensures r == if old(err) || len >= 0x8000_0000 then -1 else Min(len, |old(View())|)
      ensures View() == if r < 0 then old(View()) else Drop(old(View()), r)
      ensures buf[..] == if r < 0 then old(buf[..]) else Put(old(buf[..]), 0, old(View())[..r])
      ensures err == (old(err) || len >= 0x8000_0000)
    {
      hide Drop, Ahead, Put, Buffered;
      if err {
        return -1;
      }
      if len >= 0x8000_0000 {
        err := true;
        return -1;
      }
      r := GzRead(buf, len);
    }

    // gzgetc, which does not look at a request to skip when bytes are at hand
    method Getc() returns (c: int)
      requires Valid()
      modifies `fdPos, `eof, `next, `have, `how, `pos, `seek, `past, input, out
      ensures Valid() && (old(Settled()) ==> Settled())
      ensures c == if old(err) then -1 else
        var from := if old(Settled()) then old(View()) else old(Ahead());
        Next(from)
      ensures !old(err) ==>
        (c == Next(old(View())) <==> old(Settled()) || Next(old(Ahead())) == Next(old(View())))
      ensures View() == Drop(old(View()), if old(err) then 0 else 1)
    {
      hide Drop, Ahead, Buffered, Put;
      DropNothing(View());
      if err {
        return -1;
      }
      if have > 0 {
        c := out[next];
        TakeFirst();
        return;
      }
      var buf := new uint8[1];
      PutFirst(buf[..], View()[..Min(1, |View()|)]);
      var got := GzRead(buf, 1);
      c := if got < 1 then -1 else buf[0];
    }

    method TakeFirst()
      requires Valid() && have > 0
      modifies `next, `have, `pos
      ensures Valid() && old(Ahead()) != [] && old(Ahead())[0] == out[old(next)] && have == old(have) - 1
      ensures old(Settled()) ==> old(Ahead()) == old(View())
      ensures View() == Drop(old(View()), 1)
    {
      hide Drop, Ahead, Buffered;
      FirstAhead();
      DropTwice(Ahead(), 1, if seek then skip else 0);
      DropTwice(Ahead(), if seek then skip else 0, 1);
      DropNothing(Ahead());
      Consume(1);
    }

    lemma FirstAhead()
      requires Valid() && have > 0
      ensures Ahead() != [] && Ahead()[0] == out[next]
    {
    }

    // gzungetc
    method Ungetc(c: int) returns (r: int)
      requires Valid()
      modifies `fdPos, `eof, `next, `have, `how, `pos, `seek, `past, `err, input, out
      ensures Valid() && ((old(Settled()) && !old(err)) || r >= 0 ==> Settled())
      ensures r >= 0 ==> how == Copy && !seek
      ensures r >= 0 && !old(seek) ==> have == 1 + if old(how) == Look then Min(size, |file|) else old(have)
      ensures r == if old(err) || c < 0 || (!old(seek) && old(have) == 2 * size) then -1 else c
      ensures r >= 0 ==> !past
      ensures err == (old(err) || (c >= 0 && r < 0))
      ensures View() == if r < 0 then old(View()) else [c % 256] + old(View())
      ensures r >= 0 ==> Tell() + |View()| == old(pos + |Ahead()|)
    {
      hide Drop, Ahead, Buffered;
      DropNothing(Ahead());
      if how == Look {
        GzLook();
      }
      if err {
        return -1;
      }
      SkipFirst();
      if c < 0 {
        return -1;
      }
      if have == 2 * size {
        err := true;
        return -1;
      }
      PushBack(c % 256);
      DropNothing(Ahead());
      return c;
    }

    // Room before the bytes at hand, and a byte in it.
    method PushBack(b: uint8)
      requires Valid() && have < 2 * size && how == Copy
      modifies `next, `have, `pos, `past, out
      ensures Valid() && Ahead() == [b] + old(Ahead()) && pos == old(pos) - 1 && !past
    {
      hide Drop;
      ghost var bytes, rest := Buffered(), Drop(file, fdPos);
      FreeFront();
      have := have + 1;
      next := next - 1;
      out[next] := b;
      pos := pos - 1;
      past := false;
      assert Buffered() == [b] + bytes;
      assert [b] + bytes + rest == [b] + (bytes + rest);
    }

    method FreeFront()
      requires Valid() && have < 2 * size && how == Copy
      modifies `next, out
      ensures Valid() && next > 0 && Buffered() == old(Buffered())
    {
      if have == 0 {
        next := 2 * size;
      }
      if next == 0 {
        SlideUp();
      }
    }

    // The bytes at hand move to the end of the buffer.
    method SlideUp()
      requires Valid() && next == 0 && have < 2 * size
      modifies `next, out
      ensures Valid() && next == 2 * size - have && next > 0 && Buffered() == old(Buffered())
    {
      MoveUp(out, have);
      next := 2 * size - have;
      assert next + have == out.Length;
    }

    // gzseek64. What was pushed back is dropped, unless the seek is by no more
    // than that and ends before the start of the file.
    method Seek(offset0: int, whence: Whence) returns (r: int)
      requires Valid()
      modifies `fdPos, `eof, `have, `next, `pos, `seek, `skip, `past
      ensures Valid() && (!err ==> Settled())
      ensures var target := offset0 + (if whence == FromStart then 0 else old(Tell()));
        && r == (if err || target < Floor(old(pos)) then -1 else target)
        && (!err && target >= 0 ==> View() == Drop(file, target) && Tell() == target)
        && (!err && old(pos) <= target < 0 ==> View() == Drop(old(Ahead()), target - old(pos)) && Tell() == target)
        && (err || target < Floor(old(pos)) ==>
              Ahead() == old(Ahead()) && pos == old(pos) && seek == (err && old(seek)))
        && past == (old(past) && !(!err && how == Copy && target >= 0))
    {
      hide Ahead, Buffered, Drop;
      if err {
        return -1;
      }
      var offset := offset0;
      if whence == FromStart {
        offset := offset - pos;
      } else if seek {
        offset := offset + skip;
      }
      seek := false;
      DropNothing(Ahead());
      if how == Copy && pos + offset >= 0 {
        GoThere(offset);
        return pos;
      }
      if offset < 0 {
        return -1;
      }
      var n := Min(have, offset);
      Consume(n);
      DropNothing(Ahead());
      offset := offset - n;
      if how == Look {
        NothingBuffered();
        DropNothing(file);
      }
      if offset != 0 {
        seek, skip := true, offset;
      }
      return pos + offset;
    }

    function Floor(pos: int): int {
      if pos < 0 then pos else 0
    }

    // lseek in the raw file
    method GoThere(offset: int)
      requires Valid() && how == Copy && pos + offset >= 0
      modifies `fdPos, `eof, `have, `pos, `seek, `past
      ensures Valid() && !seek && have == 0 && pos == old(pos) + offset && View() == Drop(file, pos)
      ensures !past && !eof
    {
      fdPos := fdPos + (offset - have);
      have, eof, past, seek := 0, false, false, false;
      pos := pos + offset;
      NothingBuffered();
      DropNothing(Ahead());
    }

    // gzrewind and gz_reset
    method Rewind() returns (r: int)
      requires Valid()
      modifies `fdPos, `eof, `have, `pos, `seek, `past, `how
      ensures Valid() && (r == if err then -1 else 0)
      ensures r == 0 ==> View() == file && Tell() == 0 && Settled() && !past
      ensures r < 0 ==> View() == old(View()) && Tell() == old(Tell()) && (old(Settled()) ==> Settled())
    {
      if err {
        return -1;
      }
      fdPos := 0;
      have, eof, past, how, seek, pos := 0, false, false, Look, false, 0;
      NothingBuffered();
      return 0;
    }

    lemma LooksAtFile()
      requires Valid() && how == Look
      ensures Ahead() == file && (View() != file ==> seek)
    {
      NothingBuffered();
      DropNothing(file);
    }

    lemma NothingAsked()
      requires Valid() && !seek
      ensures View() == Ahead()
    {
      DropNothing(Ahead());
    }

    // gzdirect: it may put bytes at hand in front of a request to skip.
    method Direct() returns (direct: bool)
      requires Valid()
      modifies `fdPos, `eof, `next, `have, `how, input, out
      ensures Valid() && direct && View() == old(View()) && Ahead() == old(Ahead()) && Tell() == old(Tell())
      ensures Settled() <==> old(Settled()) && !(seek && old(how) == Look)
    {
      if how == Look {
        GzLook();
      }
      return true;
    }
  }

  // gzseek and gzread: some bytes of the file at a place.
  method SeekAndRead(r: Reader, at: nat, buf: array<uint8>, len: nat) returns (got: int)
    requires r.Valid() && !r.err && len <= buf.Length && len < 0x8000_0000 && buf != r.input && buf != r.out
    modifies r, r.input, r.out, buf
    ensures r.Valid() && got == if at < |r.file| then Min(len, |r.file| - at) else 0
    ensures forall i | 0 <= i < got :: buf[i] == r.file[at + i]
    ensures r.View() == Drop(r.file, at + got)
  {
    hide Put, Drop, Reader.Ahead, Reader.Buffered, Reader.View;
    var _ := r.Seek(at, FromStart);
    got := r.Read(buf, len);
    PutFirst(old(buf[..]), Drop(r.file, at)[..got]);
    DropAt(r.file, at);
    DropTwice(r.file, at, got);
  }

  // gzungetc and gzgetc: the byte again, and nothing else.
  method PushAndGet(r: Reader, c: uint8) returns (d: int)
    requires r.Valid() && !r.err && (r.seek || r.have < 2 * r.size)
    modifies r, r.input, r.out
    ensures r.Valid() && d == c && r.View() == old(r.View())
  {
    hide Drop, Reader.Ahead, Reader.Buffered, Reader.View;
    DropFront([c], r.View(), 1);
    assert [c][1..] + r.View() == r.View() && c % 256 == c;
    var _ := r.Ungetc(c);
    d := r.Getc();
  }

  // Bytes in the order in which they come back.
  function Backwards(bytes: seq<uint8>): (r: seq<uint8>)
    ensures |r| == |bytes|
  {
    if bytes == [] then [] else Backwards(bytes[1..]) + [bytes[0]]
  }

  lemma {:induction false} BackwardsNext(bytes: seq<uint8>, b: uint8)
    ensures Backwards(bytes + [b]) == [b] + Backwards(bytes)
  {
    if bytes != [] {
      assert (bytes + [b])[1..] == bytes[1..] + [b];
      BackwardsNext(bytes[1..], b);
    }
  }

  // How much of the output buffer is left once the file has been looked at.
  function Room(size: nat, file: seq<uint8>): nat {
    2 * size - Min(size, |file|)
  }

  // gzungetc again and again, with nothing read before.
  method PushAll(r: Reader, bytes: seq<uint8>) returns (pushed: nat)
    requires r.Valid() && !r.err && r.how == Look && !r.seek
    modifies r, r.input, r.out
    ensures r.Valid() && pushed == Min(|bytes|, Room(r.size, r.file))
    ensures pushed == |bytes| <==> |bytes| <= Room(r.size, r.file)
    ensures r.View() == Backwards(bytes[..pushed]) + old(r.View())
  {
    hide Drop, Reader.Ahead, Reader.Buffered, Reader.View, Backwards;
    ghost var view := r.View();
    pushed := 0;
    NothingPushed(bytes, view);
    while pushed < |bytes|
      invariant r.Valid() && !r.err && !r.seek && pushed <= |bytes| && pushed <= Room(r.size, r.file)
      invariant if pushed == 0 then r.how == Look else r.how == Copy && r.have == Min(r.size, |r.file|) + pushed
      invariant r.View() == Backwards(bytes[..pushed]) + view
    {
      var c := r.Ungetc(bytes[pushed]);
      if c < 0 {
        break;
      }
      PushedNext(bytes, pushed, view);
      pushed := pushed + 1;
    }
  }

  lemma NothingPushed(bytes: seq<uint8>, view: seq<uint8>)
    ensures Backwards(bytes[..0]) + view == view
  {
  }

  lemma PushedNext(bytes: seq<uint8>, pushed: nat, view: seq<uint8>)
    requires pushed < |bytes|
    ensures [bytes[pushed] % 256] + (Backwards(bytes[..pushed]) + view) == Backwards(bytes[..pushed + 1]) + view
  {
    assert bytes[..pushed + 1] == bytes[..pushed] + [bytes[pushed]];
    BackwardsNext(bytes[..pushed], bytes[pushed]);
  }

  // Right after gzopen all of them succeed if and only if there is room.
  method OpenAndPush(file: seq<uint8>, size: nat, bytes: seq<uint8>) returns (all: bool)
    requires 8 <= size && file != [] && !(|file| > 1 && file[0] == 31 && file[1] == 139)
    ensures all <==> |bytes| <= 2 * size - Min(size, |file|)
  {
    hide Reader.View, Backwards;
    var r := new Reader(file, size);
    var pushed := PushAll(r, bytes);
    all := pushed == |bytes|;
  }

  // A buffer of sixteen bytes, eight of them full: the ninth byte is refused.
  method NinthPush() returns (eight: bool, nine: bool)
    ensures eight && !nine
  {
    var file: seq<uint8> := [1, 2, 3, 4, 5, 6, 7, 8];
    eight := OpenAndPush(file, 8, file);
    nine := OpenAndPush(file, 8, file + [9]);
  }

  // Two bytes pushed back before the start, and a seek to where they begin.
  method SeekBeforeStart() returns (r: int, c: int)
    ensures r == -2 && c == 2
  {
    hide Drop, Reader.Ahead, Reader.Buffered, Reader.View;
    var file: seq<uint8> := [5, 6, 7];
    var g := new Reader(file, 8);
    g.LooksAtFile();
    g.NothingAsked();
    var _ := g.Ungetc(1);
    g.NothingAsked();
    var _ := g.Ungetc(2);
    g.NothingAsked();
    assert |g.View()| == 5 && g.pos == -2;
    DropNothing(g.Ahead());
    r := g.Seek(-2, FromStart);
    c := g.Getc();
  }

  // A seek that fails, and the byte that the one before it no longer skips.
  method GetAfterFailedSeek() returns (failed: int, c: int)
    ensures failed == -1 && c == 5
  {
    hide Drop, Reader.Ahead, Reader.Buffered, Reader.View;
    var r := new Reader([5, 6, 7], 8);
    var _ := r.Seek(1, FromStart);
    r.LooksAtFile();
    failed := r.Seek(-2, FromStart);
    r.NothingAsked();
    c := r.Getc();
  }

  // After gzdirect, gzgetc may give a byte that a request was to skip.
  method GetAfterSeek() returns (plain: int, direct: int)
    ensures plain == 6 && direct == 5
  {
    hide Drop, Reader.Ahead, Reader.Buffered, Reader.View;
    var file: seq<uint8> := [5, 6, 7];
    DropAt(file, 1);
    var r := new Reader(file, 8);
    var _ := r.Seek(1, FromStart);
    plain := r.Getc();
    var s := new Reader(file, 8);
    var _ := s.Seek(1, FromStart);
    s.LooksAtFile();
    var _ := s.Direct();
    direct := s.Getc();
  }
}
