/**
 * A connection as the handshake sees it: the bytes the peer has sent and that
 * are not read yet, and everything written back so far. The peer closes its
 * side after them, so a read that wants more bytes than are left gets what is
 * left and fails.
 */
module Stream {
  import opened Wire

  /** Reading i bytes and then j more leaves what reading i + j leaves. */
  lemma DropDrop(s: seq<byte>, i: nat, j: nat)
    requires i + j <= |s|
    ensures s[i..][j..] == s[i + j..]
  {
  }

  /** The j bytes read after the first i are the bytes at i .. i + j. */
  lemma DropTake(s: seq<byte>, i: nat, j: nat)
    requires i + j <= |s|
    ensures s[i..][..j] == s[i..i + j]
  {
  }

  /** Two writes in a row append what one write of both would. */
  lemma AppendTwice(w: seq<byte>, x: seq<byte>, y: seq<byte>)
    ensures w + x + y == w + (x + y)
  {
  }

  class Conn {
    /** What the peer sent that has not been read. */
    var rest: seq<byte>
    /** What has been written to the peer. */
    var written: seq<byte>

    constructor (input: seq<byte>)
      ensures rest == input && written == []
    {
      rest := input;
      written := [];
    }

    /**
     * io.ReadFull into a fresh n-byte buffer: either exactly the next n bytes,
     * or, at end of stream, the rest is drained and the read fails.
     */
    method ReadFull(n: nat) returns (r: Result<seq<byte>>)
      modifies this`rest
      ensures n <= |old(rest)| ==> r == Ok(old(rest)[..n]) && rest == old(rest)[n..]
      ensures n > |old(rest)| ==> r == Err(Truncated) && rest == []
    {
      if n <= |rest| {
        r := Ok(rest[..n]);
        rest := rest[n..];
      } else {
        r := Err(Truncated);
        rest := [];
      }
    }

    /** c.Write: the bytes are appended to what the peer has received. */
    method Write(data: seq<byte>)
      modifies this`written
      ensures written == old(written) + data
    {
      written := written + data;
    }
  }
}
