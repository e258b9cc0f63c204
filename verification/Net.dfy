/** A connection as the receiving end sees it. */
module Net {
  import opened Types

  /** The bytes the other end sends before it closes the connection. */
  class Socket {
    const incoming: seq<byte>
    var pos: nat

    constructor (incoming: seq<byte>)
      ensures this.incoming == incoming && pos == 0
    {
      this.incoming := incoming;
      pos := 0;
    }

    predicate Valid()
      reads this
    {
      pos <= |incoming|
    }

    /** recv with MSG_WAITALL: `n` bytes, or what is left when the connection closes. The rest
        of the buffer keeps whatever it held. */
    method Recv(buf: array<byte>, n: nat) returns (count: nat)
      requires Valid() && n <= buf.Length
      modifies this`pos, buf
      ensures Valid() && pos == old(pos) + count
      ensures count == if n <= |incoming| - old(pos) then n else |incoming| - old(pos)
      ensures buf[..count] == incoming[old(pos)..pos]
    {
      count := if n <= |incoming| - pos then n else |incoming| - pos;
      forall k | 0 <= k < count {
        buf[k] := incoming[pos + k];
      }
      pos := pos + count;
    }
  }

  /** `b` is what is made of `incoming`: its beginning, or all of it with arbitrary bytes added. */
  predicate Extends(b: seq<byte>, incoming: seq<byte>) {
    b <= incoming || incoming <= b
  }
}
