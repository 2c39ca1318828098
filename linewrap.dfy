/**
 * The wrap72 writer of manifest.go:133-182: it passes bytes through to the
 * writer beneath and breaks every physical line after 70 content bytes
 * (72 with its CRLF), marking the continuation with "\r\n ".
 *
 * WrapOut/WrapCol give, byte by byte, what the writer emits and the column
 * it ends in when fed `s` from column `col`; the class Wrap72 below does
 * the same work run by run, as the Go loop does, and is proved to agree.
 */
module LineWrap {
  import opened Wrappers
  import opened Strings
  import opened Sinks

  /** Content bytes allowed on one physical line (manifest.go:142). */
  const Width: nat := 70

  /** The continuation marker written in front of an overlong line's remainder. */
  const Marker: string := "\r\n "

  function WrapOut(col: nat, s: string): string
    requires col <= Width
    decreases |s|
  {
    if s == [] then ""
    else if IsNewline(s[0]) then [s[0]] + WrapOut(0, s[1..])
    else if col == Width then Marker + [s[0]] + WrapOut(2, s[1..])
    else [s[0]] + WrapOut(col + 1, s[1..])
  }

  function WrapCol(col: nat, s: string): (c: nat)
    requires col <= Width
    ensures c <= Width
    decreases |s|
  {
    if s == [] then col
    else if IsNewline(s[0]) then WrapCol(0, s[1..])
    else if col == Width then WrapCol(2, s[1..])
    else WrapCol(col + 1, s[1..])
  }

  /**
   * Feeding the writer in two pieces produces what feeding it once does:
   * the transform does not depend on how the stream is cut into writes.
   */
  lemma {:induction false} WrapAppend(col: nat, a: string, b: string)
    requires col <= Width
    ensures WrapOut(col, a + b) == WrapOut(col, a) + WrapOut(WrapCol(col, a), b)
    ensures WrapCol(col, a + b) == WrapCol(WrapCol(col, a), b)
    decreases |a|
  {
    if a == [] {
      assert a + b == b;
    } else {
      assert (a + b)[0] == a[0] && (a + b)[1..] == a[1..] + b;
      var next := if IsNewline(a[0]) then 0 else if col == Width then 2 else col + 1;
      WrapAppend(next, a[1..], b);
    }
  }

  lemma WrapPrefix(col: nat, a: string, b: string)
    requires col <= Width
    requires HasPrefix(b, a)
    ensures HasPrefix(WrapOut(col, b), WrapOut(col, a))
  {
    assert b == a + b[|a|..];
    WrapAppend(col, a, b[|a|..]);
  }

  /** A run of CR/LF bytes goes through unchanged and resets the column. */
  lemma {:induction false} WrapNewlines(col: nat, s: string)
    requires col <= Width
    requires s != [] && forall i :: 0 <= i < |s| ==> IsNewline(s[i])
    ensures WrapOut(col, s) == s && WrapCol(col, s) == 0
    decreases |s|
  {
    if |s| > 1 {
      WrapNewlines(0, s[1..]);
    }
  }

  /** Content that still fits on the current line goes through unchanged. */
  lemma {:induction false} WrapPlain(col: nat, s: string)
    requires NoNewline(s) && col + |s| <= Width
    ensures WrapOut(col, s) == s && WrapCol(col, s) == col + |s|
    decreases |s|
  {
    if s != [] {
      WrapPlain(col + 1, s[1..]);
    }
  }

  /** Content arriving at column 70 is preceded by the marker and starts at column 1. */
  lemma WrapMarked(s: string)
    requires s != [] && NoNewline(s) && 1 + |s| <= Width
    ensures WrapOut(Width, s) == Marker + s && WrapCol(Width, s) == 1 + |s|
  {
    WrapPlain(2, s[1..]);
    assert Marker + [s[0]] + s[1..] == Marker + s;
  }

  /** A line of exactly 70 bytes followed by CRLF is left whole. */
  lemma ExactWidthUnsplit(line: string)
    requires NoNewline(line) && |line| == Width
    ensures WrapOut(0, line + "\r\n") == line + "\r\n"
  {
    WrapAppend(0, line, "\r\n");
    WrapPlain(0, line);
    WrapNewlines(Width, "\r\n");
  }

  /** A logical line and its CRLF: the line is wrapped on its own, the CRLF resets the column. */
  lemma WrapLine(line: string, rest: string)
    requires NoNewline(line)
    ensures WrapOut(0, line + "\r\n" + rest) == WrapOut(0, line) + "\r\n" + WrapOut(0, rest)
    ensures WrapCol(0, line + "\r\n" + rest) == WrapCol(0, rest)
  {
    assert line + "\r\n" + rest == line + ("\r\n" + rest);
    WrapAppend(0, line, "\r\n" + rest);
    var c := WrapCol(0, line);
    assert ("\r\n" + rest)[1..] == "\n" + rest;
    assert ("\n" + rest)[1..] == rest;
  }

  /** A marker already in the stream goes through as a line break plus one column of indent. */
  lemma WrapThroughMarker(col: nat, x: string)
    requires col <= Width
    ensures WrapOut(col, Marker + x) == Marker + WrapOut(1, x)
    ensures WrapCol(col, Marker + x) == WrapCol(1, x)
  {
    WrapAppend(col, Marker, x);
    assert Marker[1..] == "\n ";
    assert Marker[1..][1..] == " ";
    assert WrapOut(col, Marker) == Marker;
  }

  /**
   * Wrapping already wrapped output again changes nothing, from any column:
   * why WriteEntry may put a second wrap72 in front of WriteTo's.
   */
  lemma {:induction false} WrapIdempotent(col: nat, s: string)
    requires col <= Width
    ensures WrapOut(col, WrapOut(col, s)) == WrapOut(col, s)
    ensures WrapCol(col, WrapOut(col, s)) == WrapCol(col, s)
    decreases |s|
  {
    if s != [] {
      var c, r := s[0], s[1..];
      if IsNewline(c) {
        WrapIdempotent(0, r);
        var o := WrapOut(0, r);
        assert WrapOut(col, s) == [c] + o && WrapCol(col, s) == WrapCol(0, r);
        WrapCons(col, c, o);
      } else if col == Width {
        WrapIdempotent(2, r);
        var o := WrapOut(2, r);
        assert WrapOut(col, s) == Marker + [c] + o && WrapCol(col, s) == WrapCol(2, r);
        Assoc(Marker, [c], o);
        WrapThroughMarker(col, [c] + o);
        WrapCons(1, c, o);
      } else {
        WrapIdempotent(col + 1, r);
        var o := WrapOut(col + 1, r);
        assert WrapOut(col, s) == [c] + o && WrapCol(col, s) == WrapCol(col + 1, r);
        WrapCons(col, c, o);
      }
    }
  }

  /** One byte in front of `o`: the first step of WrapOut and WrapCol. */
  lemma WrapCons(col: nat, c: char, o: string)
    requires col <= Width
    ensures WrapOut(col, [c] + o) ==
      if IsNewline(c) then [c] + WrapOut(0, o)
      else if col == Width then Marker + [c] + WrapOut(2, o)
      else [c] + WrapOut(col + 1, o)
    ensures WrapCol(col, [c] + o) ==
      if IsNewline(c) then WrapCol(0, o) else if col == Width then WrapCol(2, o) else WrapCol(col + 1, o)
  {
    assert ([c] + o)[0] == c && ([c] + o)[1..] == o;
  }

  /** No physical line holds more than 70 content bytes, counting from column `col`. */
  predicate Within(col: nat, s: string)
    decreases |s|
  {
    if s == [] then true
    else if IsNewline(s[0]) then Within(0, s[1..])
    else col < Width && Within(col + 1, s[1..])
  }

  lemma WithinThroughMarker(col: nat, x: string)
    ensures Within(col, Marker + x) == Within(1, x)
  {
    var t := Marker + x;
    assert t[0] == '\r' && t[1..] == "\n " + x;
    assert t[1..][0] == '\n' && t[1..][1..] == " " + x;
    assert t[1..][1..][0] == ' ' && t[1..][1..][1..] == x;
    assert Within(col, t) == Within(0, t[1..]);
    assert Within(0, t[1..]) == Within(0, t[1..][1..]);
    assert Within(0, t[1..][1..]) == Within(1, x);
  }

  lemma {:induction false} WrapWithin(col: nat, s: string)
    requires col <= Width
    ensures Within(col, WrapOut(col, s))
    decreases |s|
  {
    if s != [] {
      var c, r := s[0], s[1..];
      if IsNewline(c) {
        WrapWithin(0, r);
        assert WrapOut(col, s) == [c] + WrapOut(0, r);
        WithinCons(col, c, WrapOut(0, r));
      } else if col == Width {
        WrapWithin(2, r);
        var o := WrapOut(2, r);
        assert WrapOut(col, s) == Marker + [c] + o;
        Assoc(Marker, [c], o);
        WithinThroughMarker(col, [c] + o);
        WithinCons(1, c, o);
      } else {
        WrapWithin(col + 1, r);
        assert WrapOut(col, s) == [c] + WrapOut(col + 1, r);
        WithinCons(col, c, WrapOut(col + 1, r));
      }
    }
  }

  lemma WithinCons(col: nat, c: char, o: string)
    ensures Within(col, [c] + o) == if IsNewline(c) then Within(0, o) else col < Width && Within(col + 1, o)
  {
    assert ([c] + o)[0] == c && ([c] + o)[1..] == o;
  }

  /** Deletes every "\r\n " from a text: joins continuation lines back together. */
  function Unfold(t: string): string
    decreases |t|
  {
    if |t| >= 3 && t[..3] == Marker then Unfold(t[3..])
    else if t == [] then ""
    else [t[0]] + Unfold(t[1..])
  }

  /** For one logical line, deleting the inserted markers gives back the line. */
  lemma {:induction false} UnfoldWrap(col: nat, s: string)
    requires col <= Width && NoNewline(s)
    ensures Unfold(WrapOut(col, s)) == s
    decreases |s|
  {
    if s != [] {
      var c, r := s[0], s[1..];
      var next := if col == Width then 2 else col + 1;
      UnfoldWrap(next, r);
      var o := WrapOut(next, r);
      var t := [c] + o;
      assert t[0] == c && t[1..] == o;
      assert Unfold(t) == [c] + Unfold(o);
      if col == Width {
        var u := Marker + t;
        assert u[..3] == Marker && u[3..] == t;
      }
      assert s == [c] + r;
    }
  }
}

module LineWrapWriter {
  import opened Wrappers
  import opened Strings
  import opened Sinks
  import opened LineWrap

  /**
   * What a write of `p` appends below a wrap72: `p` itself when the wrap72
   * writes straight to the sink, or that writer's own wrapping of `p` when
   * it writes into another wrap72 standing at column `u`.
   */
  function Down(nested: bool, u: nat, p: string): string
    requires u <= Width
  {
    if nested then WrapOut(u, p) else p
  }

  function DownCol(nested: bool, u: nat, p: string): (c: nat)
    requires u <= Width
    ensures c <= Width
  {
    if nested then WrapCol(u, p) else 0
  }

  lemma DownAppend(nested: bool, u: nat, a: string, b: string)
    requires u <= Width
    ensures Down(nested, u, a + b) == Down(nested, u, a) + Down(nested, DownCol(nested, u, a), b)
    ensures DownCol(nested, u, a + b) == DownCol(nested, DownCol(nested, u, a), b)
  {
    if nested {
      WrapAppend(u, a, b);
    }
  }

  lemma PrefixTransitive(a: string, b: string, c: string)
    requires HasPrefix(b, a) && HasPrefix(c, b)
    ensures HasPrefix(c, a)
  {
    assert c[..|a|] == c[..|b|][..|a|];
  }

  lemma DownAfter(before: string, nested: bool, u: nat, a: string, b: string)
    requires u <= Width
    ensures before + Down(nested, u, a + b) == before + Down(nested, u, a) + Down(nested, DownCol(nested, u, a), b)
    ensures DownCol(nested, u, a + b) == DownCol(nested, DownCol(nested, u, a), b)
  {
    DownAppend(nested, u, a, b);
  }

  lemma PrefixOfAppend(a: string, b: string)
    ensures HasPrefix(a + b, a)
  {
    assert (a + b)[..|a|] == a;
  }

  /**
   * One step of the Go loop consumes `piece` after `done` and emits `out`;
   * the sink then holds a prefix of what the whole buffer produces.
   */
  lemma Progress(nested: bool, u0: nat, n0: nat, d0: string, buf: string, done: string, piece: string, out: string)
    requires n0 <= Width && u0 <= Width
    requires HasPrefix(buf, done + piece)
    requires WrapOut(WrapCol(n0, done), piece) == out
    ensures WrapOut(n0, done + piece) == WrapOut(n0, done) + out
    ensures WrapCol(n0, done + piece) == WrapCol(WrapCol(n0, done), piece)
    ensures Down(nested, u0, WrapOut(n0, done + piece))
         == Down(nested, u0, WrapOut(n0, done)) + Down(nested, DownCol(nested, u0, WrapOut(n0, done)), out)
    ensures DownCol(nested, u0, WrapOut(n0, done + piece))
         == DownCol(nested, DownCol(nested, u0, WrapOut(n0, done)), out)
    ensures HasPrefix(d0 + Down(nested, u0, WrapOut(n0, buf)), d0 + Down(nested, u0, WrapOut(n0, done + piece)))
  {
    WrapAppend(n0, done, piece);
    DownAppend(nested, u0, WrapOut(n0, done), out);
    var dp := done + piece;
    var rest := buf[|dp|..];
    var x := Down(nested, u0, WrapOut(n0, dp));
    var y := Down(nested, DownCol(nested, u0, WrapOut(n0, dp)), WrapOut(WrapCol(n0, dp), rest));
    assert Down(nested, u0, WrapOut(n0, buf)) == x + y by {
      assert buf == dp + rest;
      WrapAppend(n0, dp, rest);
      DownAppend(nested, u0, WrapOut(n0, dp), WrapOut(WrapCol(n0, dp), rest));
    }
    Assoc(d0, x, y);
    PrefixOfAppend(d0 + x, y);
  }

  /**
   * manifest.go:136-139: a wrap72 over an io.Writer, with its column `n`.
   * The writer beneath is the sink itself, or (in WriteEntry called from
   * WriteTo) another wrap72 over that same sink.
   */
  class Wrap72 {
    var n: nat
    const sink: Sink
    const under: Wrap72?

    ghost predicate Valid()
      reads this, sink, under
    {
      n <= Width && sink.Valid() &&
      (under != null ==> under != this && under.under == null && under.sink == sink && under.n <= Width)
    }

    ghost function Depth(): nat {
      if under == null then 0 else 1
    }

    /** The column of the wrap72 beneath, if there is one. */
    ghost function UnderCol(): (c: nat)
      reads this, sink, under
      requires Valid()
      ensures c <= Width
    {
      if under == null then 0 else under.n
    }

    constructor (sink: Sink, under: Wrap72?)
      requires sink.Valid()
      requires under != null ==> under.Valid() && under.under == null && under.sink == sink
      ensures Valid()
      ensures this.sink == sink && this.under == under && n == 0
    {
      n := 0;
      this.sink := sink;
      this.under := under;
    }

    /** One write to the writer beneath (`w.Writer.Write`). */
    method Emit(p: string) returns (wn: nat, ok: bool)
      requires Valid()
      modifies sink, under
      decreases Depth(), 0
      ensures Valid()
      ensures sink.data == Admit(sink.room, old(sink.data) + Down(under != null, old(UnderCol()), p))
      ensures ok == Fits(sink.room, old(sink.data) + Down(under != null, old(UnderCol()), p))
      ensures ok ==> wn == |p| && UnderCol() == DownCol(under != null, old(UnderCol()), p)
    {
      if under == null {
        wn, ok := sink.Write(p);
      } else {
        wn, ok := under.Write(p);
      }
    }

    /**
     * manifest.go:141-182.  On success every byte of `buf` is counted (the
     * markers are not) and the writer beneath has received the wrapping of
     * `buf` from the old column; on failure the sink holds what fitted of it.
     */
    method Write(buf: string) returns (count: nat, ok: bool)
      requires Valid()
      modifies this, sink, under
      decreases Depth(), 4
      ensures Valid()
      ensures sink.data == Admit(sink.room, old(sink.data) + Down(under != null, old(UnderCol()), WrapOut(old(n), buf)))
      ensures ok == Fits(sink.room, old(sink.data) + Down(under != null, old(UnderCol()), WrapOut(old(n), buf)))
      ensures ok ==> count == |buf| && n == WrapCol(old(n), buf)
      ensures ok ==> UnderCol() == DownCol(under != null, old(UnderCol()), WrapOut(old(n), buf))
    {
      ghost var d0, n0, u0, nested := sink.data, n, UnderCol(), under != null;
      ghost var pos := 0;
      count, ok := 0, true;
      var rest := buf;
      while |rest| > 0
        invariant Valid()
        invariant 0 <= pos <= |buf| && rest == buf[pos..]
        invariant sink.data == d0 + Down(nested, u0, WrapOut(n0, buf[..pos]))
        invariant n == WrapCol(n0, buf[..pos])
        invariant UnderCol() == DownCol(nested, u0, WrapOut(n0, buf[..pos]))
        invariant count == pos
        decreases |rest|
      {
        var used;
        used, ok := Advance(rest, buf, pos, d0, n0, u0, nested);
        if !ok {
          return;
        }
        count := count + used;
        rest := rest[used..];
        pos := pos + used;
      }
      assert buf[..pos] == buf;
    }

    /**
     * One turn of the loop of manifest.go:143-181, stated against the whole
     * buffer: `rest` is what is left of `buf` after `pos` bytes.
     */
    method Advance(rest: string, ghost buf: string, ghost pos: nat, ghost d0: string, ghost n0: nat, ghost u0: nat, ghost nested: bool)
      returns (used: nat, ok: bool)
      requires Valid() && n0 <= Width && u0 <= Width && nested == (under != null)
      requires pos < |buf| && rest == buf[pos..]
      requires sink.data == d0 + Down(nested, u0, WrapOut(n0, buf[..pos]))
      requires n == WrapCol(n0, buf[..pos]) && UnderCol() == DownCol(nested, u0, WrapOut(n0, buf[..pos]))
      modifies this, sink, under
      decreases Depth(), 3
      ensures Valid() && 0 < used <= |rest|
      ensures ok ==> sink.data == d0 + Down(nested, u0, WrapOut(n0, buf[..pos + used]))
      ensures ok ==> n == WrapCol(n0, buf[..pos + used])
      ensures ok ==> UnderCol() == DownCol(nested, u0, WrapOut(n0, buf[..pos + used]))
      ensures !ok ==> sink.data == Admit(sink.room, d0 + Down(nested, u0, WrapOut(n0, buf)))
      ensures !ok ==> !Fits(sink.room, d0 + Down(nested, u0, WrapOut(n0, buf)))
    {
      ghost var col, done := n, buf[..pos];
      var wn, werr;
      used, wn, werr := WriteStep(rest);
      ghost var piece := rest[..used];
      ghost var a := Down(nested, u0, WrapOut(n0, done));
      ghost var b := Down(nested, DownCol(nested, u0, WrapOut(n0, done)), WrapOut(col, piece));
      assert sink.data == Admit(sink.room, (d0 + a) + b);
      assert done + piece == buf[..pos + used];
      Progress(nested, u0, n0, d0, buf, done, piece, WrapOut(col, piece));
      assert Down(nested, u0, WrapOut(n0, buf[..pos + used])) == a + b;
      Assoc(d0, a, b);
      ok := werr;
      if !ok {
        OverflowAbsorbs(sink.room, d0 + Down(nested, u0, WrapOut(n0, buf[..pos + used])),
                        d0 + Down(nested, u0, WrapOut(n0, buf)));
      }
    }

    /** One pass of the loop body of manifest.go:143-180: one CR/LF run, or one cut of content. */
    method WriteStep(rest: string) returns (used: nat, wn: nat, ok: bool)
      requires Valid() && rest != []
      modifies this, sink, under
      decreases Depth(), 2
      ensures Valid()
      ensures 0 < used <= |rest|
      ensures sink.data == Admit(sink.room, old(sink.data) + Down(under != null, old(UnderCol()), WrapOut(old(n), rest[..used])))
      ensures ok == Fits(sink.room, old(sink.data) + Down(under != null, old(UnderCol()), WrapOut(old(n), rest[..used])))
      ensures ok ==> wn == used && n == WrapCol(old(n), rest[..used])
      ensures ok ==> UnderCol() == DownCol(under != null, old(UnderCol()), WrapOut(old(n), rest[..used]))
    {
      var i := IndexOfNewline(rest);
      if i == 0 {
        used, wn, ok := WriteNewlines(rest);
        return;
      }
      if n < Width {
        used, wn, ok := WriteRun(rest, i);
        return;
      }
      // the line is full: continue it on a new physical line
      ghost var before, uc, nested := sink.data, UnderCol(), under != null;
      var _, werr := Emit(Marker);
      if !werr {
        used, wn, ok := if i < Width then i else Width - 1, 0, false;
        NoNewlineShorter(rest, i, used);
        WrapMarked(rest[..used]);
        DownAppend(nested, uc, Marker, rest[..used]);
        PrefixOfAppend(before + Down(nested, uc, Marker), Down(nested, DownCol(nested, uc, Marker), rest[..used]));
        OverflowAbsorbs(sink.room, before + Down(nested, uc, Marker), before + Down(nested, uc, Marker + rest[..used]));
        return;
      }
      n := 1;
      used, wn, ok := WriteRun(rest, i);
      NoNewlineShorter(rest, i, used);
      WrapMarked(rest[..used]);
      WrapPlain(1, rest[..used]);
      DownAfter(before, nested, uc, Marker, rest[..used]);
    }

    /** manifest.go:145-157: a run of CR/LF bytes goes through as it is and resets the column. */
    method WriteNewlines(rest: string) returns (used: nat, wn: nat, ok: bool)
      requires Valid() && rest != [] && IsNewline(rest[0])
      modifies this, sink, under
      decreases Depth(), 1
      ensures Valid()
      ensures 0 < used <= |rest|
      ensures sink.data == Admit(sink.room, old(sink.data) + Down(under != null, old(UnderCol()), WrapOut(old(n), rest[..used])))
      ensures ok == Fits(sink.room, old(sink.data) + Down(under != null, old(UnderCol()), WrapOut(old(n), rest[..used])))
      ensures ok ==> wn == used && n == WrapCol(old(n), rest[..used])
      ensures ok ==> UnderCol() == DownCol(under != null, old(UnderCol()), WrapOut(old(n), rest[..used]))
    {
      var i := 1;
      while i < |rest| && IsNewline(rest[i])
        invariant 1 <= i <= |rest|
        invariant forall k :: 0 <= k < i ==> IsNewline(rest[k])
      {
        i := i + 1;
      }
      WrapNewlines(n, rest[..i]);
      wn, ok := Emit(rest[..i]);
      used := i;
      if ok {
        n := 0;
      }
    }

    /**
     * manifest.go:167-178: writes the content before the next CR/LF, cut
     * where the physical line runs out of room.
     */
    method WriteRun(rest: string, i: nat) returns (used: nat, wn: nat, ok: bool)
      requires Valid() && 0 < i <= |rest| && NoNewline(rest[..i]) && n < Width
      modifies this, sink, under
      decreases Depth(), 1
      ensures Valid()
      ensures 0 < used <= i && old(n) + used <= Width
      ensures sink.data == Admit(sink.room, old(sink.data) + Down(under != null, old(UnderCol()), WrapOut(old(n), rest[..used])))
      ensures ok == Fits(sink.room, old(sink.data) + Down(under != null, old(UnderCol()), WrapOut(old(n), rest[..used])))
      ensures ok ==> wn == used && n == WrapCol(old(n), rest[..used])
      ensures ok ==> UnderCol() == DownCol(under != null, old(UnderCol()), WrapOut(old(n), rest[..used]))
    {
      used := i;
      if n + used > Width {
        used := Width - n;
      }
      NoNewlineShorter(rest, i, used);
      WrapPlain(n, rest[..used]);
      wn, ok := Emit(rest[..used]);
      if ok {
        n := n + used;
      }
    }
  }

  /** Index of the first CR or LF in `s`, or |s| when there is none (bytes.IndexAny). */
  function IndexOfNewline(s: string): (i: nat)
    ensures i <= |s| && NoNewline(s[..i])
    ensures i < |s| ==> IsNewline(s[i])
  {
    if s == [] then 0
    else if IsNewline(s[0]) then 0
    else
      var j := IndexOfNewline(s[1..]);
      assert s[..j + 1] == [s[0]] + s[1..][..j];
      j + 1
  }
}
