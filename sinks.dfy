/**
 * The byte sinks the writers write to (Go's io.Writer): the output
 * archive entry, a bytes.Buffer, a SHA-1 hasher.  A sink may be bounded;
 * a bounded sink takes the part of a write that still fits and reports
 * a failure for the rest, as io.Writer requires of a short write.
 */
module Sinks {
  import opened Wrappers
  import opened Strings

  /** Would a sink with this room accept everything in `s`? */
  predicate Fits(room: Option<nat>, s: string) {
    room.None? || |s| <= room.value
  }

  /** What a sink with this room holds after being fed `s`. */
  function Admit(room: Option<nat>, s: string): (r: string)
    ensures HasPrefix(s, r)
    ensures Fits(room, s) <==> r == s
    ensures Fits(room, r)
  {
    match room
    case None => s
    case Some(c) => if |s| <= c then s else s[..c]
  }

  /** Once a sink has overflowed, nothing fed after it changes what it holds. */
  lemma OverflowAbsorbs(room: Option<nat>, x: string, y: string)
    requires !Fits(room, x)
    requires HasPrefix(y, x)
    ensures !Fits(room, y)
    ensures Admit(room, y) == Admit(room, x)
  {
    assert y[..|x|] == x;
    assert y[..room.value] == x[..room.value];
  }

  /** A sink that has overflowed refuses every further non-empty write and keeps what it held. */
  lemma AfterOverflow(room: Option<nat>, x: string, y: string)
    requires !Fits(room, x) && y != []
    ensures !Fits(room, Admit(room, x) + y)
    ensures Admit(room, Admit(room, x) + y) == Admit(room, x)
  {
    var c := room.value;
    assert |Admit(room, x)| == c;
    assert (Admit(room, x) + y)[..c] == Admit(room, x);
  }

  class Sink {
    var data: string
    const room: Option<nat>

    predicate Valid()
      reads this
    {
      Fits(room, data)
    }

    constructor (room: Option<nat>)
      ensures Valid()
      ensures data == "" && this.room == room
    {
      data := "";
      this.room := room;
    }

    /** Appends what fits of `p`; `ok` is false exactly when part of `p` was refused. */
    method Write(p: string) returns (wn: nat, ok: bool)
      requires Valid()
      modifies this
      ensures Valid()
      ensures data == Admit(room, old(data) + p)
      ensures ok == Fits(room, old(data) + p)
      ensures wn == |data| - |old(data)|
    {
      var before := |data|;
      var all := data + p;
      match room {
        case None =>
          data := all;
          ok := true;
        case Some(c) =>
          if |all| <= c {
            data := all;
            ok := true;
          } else {
            assert |data| <= c;
            data := all[..c];
            ok := false;
          }
      }
      wn := |data| - before;
    }
  }
}
