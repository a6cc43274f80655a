/** A growable buffer with a cursor. */
module SeekBuffer {
  import opened Lex
  import opened Interp

  /** The buffer contents after p is written over them at pos. */
  function Overlay(buf: seq<byte>, pos: nat, p: seq<byte>): (r: seq<byte>)
    requires pos <= |buf|
    ensures |r| >= |buf| && |r| >= pos + |p|
  {
    buf[..pos] + p + if pos + |p| < |buf| then buf[pos + |p|..] else []
  }

  /** Writing two strings one after the other is writing their concatenation. */
  lemma OverlayConcat(buf: seq<byte>, pos: nat, p: seq<byte>, q: seq<byte>)
    requires pos <= |buf|
    ensures Overlay(Overlay(buf, pos, p), pos + |p|, q) == Overlay(buf, pos, p + q)
  {}

  /** What is written can be read back, and nothing else changes. */
  lemma OverlayAt(buf: seq<byte>, pos: nat, p: seq<byte>, i: nat)
    requires pos <= |buf| && i < |Overlay(buf, pos, p)|
    ensures Overlay(buf, pos, p)[i] == if pos <= i < pos + |p| then p[i - pos] else if i < |buf| then buf[i] else 0
    ensures |Overlay(buf, pos, p)| == if pos + |p| < |buf| then |buf| else pos + |p|
  {}

  datatype SeekError = InvalidWhence | NegativePosition | PositionOutOfRange
  datatype SeekResult = Moved(position: int64) | NotMoved(error: SeekError)

  /** The number of bytes written, or the panic of `append`. */
  datatype WriteResult = Written(n: nat) | Overflow

  class Buffer {
    var buf: seq<byte>
    var pos: nat

    constructor ()
      ensures buf == [] && pos == 0
    {
      buf := [];
      pos := 0;
    }

    /**
      Overwrites at the cursor as far as the buffer reaches and appends the rest. What would
      make the buffer 2^63 bytes or longer is not appended: there `append` panics.
     */
    method Write(p: seq<byte>) returns (r: WriteResult)
      requires pos <= |buf| < TWO63
      modifies this
      ensures r == if old(pos) + |p| < TWO63 then Written(|p|) else Overflow
      ensures buf == Overlay(old(buf), old(pos), if r.Written? then p else p[..|old(buf)| - old(pos)])
      ensures pos == if r.Written? then old(pos) + |p| else old(pos)
      ensures pos <= |buf| < TWO63
    {
      // copy(b.buf[b.pos:], p) overwrites as many bytes as both sides have
      var n := if |p| < |buf| - pos then |p| else |buf| - pos;
      buf := buf[..pos] + p[..n] + buf[pos + n..];
      if n == |p| {
        pos := pos + n;
        return Written(n);
      }
      if |buf| + |p| - n >= TWO63 {
        return Overflow;
      }
      buf := buf + p[n..];
      pos := pos + |p|;
      return Written(|p|);
    }

    /** Moves the cursor relative to the start, the cursor or the end of the buffer. */
    method Seek(offset: int64, whence: int) returns (r: SeekResult)
      modifies this`pos
      ensures whence !in {0, 1, 2} ==> r == NotMoved(InvalidWhence)
      ensures whence in {0, 1, 2} ==>
        var abs := Wrap64((if whence == 0 then 0 else if whence == 1 then old(pos) else |buf|) + offset);
        r == if abs < 0 then NotMoved(NegativePosition)
             else if abs >= 0x8000_0000 then NotMoved(PositionOutOfRange)
             else Moved(abs)
      ensures pos == if r.Moved? then r.position else old(pos)
    {
      var abs: int64;
      if whence == 0 {
        abs := offset;
      } else if whence == 1 {
        abs := Wrap64(pos + offset);
      } else if whence == 2 {
        abs := Wrap64(|buf| + offset);
      } else {
        return NotMoved(InvalidWhence);
      }
      if abs < 0 {
        return NotMoved(NegativePosition);
      }
      if abs >= 0x8000_0000 {
        return NotMoved(PositionOutOfRange);
      }
      pos := abs;
      return Moved(abs);
    }
  }
}
