/**
 * The two foreign calls `receive` depends on, as oracles: `recv(2)` on a
 * connected stream socket and `realloc(3)`. Which chunk sizes the network
 * delivers, whether a call fails, and whether the allocator grants a request
 * are inputs (scripts) chosen up front; everything else follows from them.
 */
module Transport {
  newtype byte = x: int | 0 <= x < 256

  /** What the network decides for one `recv` call. */
  datatype Step =
    | Fail              // recv returns -1
    | Chunk(size: nat)  // hand over `size` bytes, clamped to what is asked for and available (at least 1)

  function Min(a: int, b: int): int { if a <= b then a else b }

  function Max(a: int, b: int): int { if a <= b then b else a }

  /** A script without its first decision; an exhausted script stays exhausted. */
  function Rest<T>(s: seq<T>): (r: seq<T>)
    ensures |r| == if s == [] then 0 else |s| - 1
  {
    if s == [] then [] else s[1..]
  }

  /**
   * The value `recv(fd, p, r, 0)` returns when `pending` bytes are still to
   * arrive and `script` makes the decision. An exhausted script hands over
   * as much as fits.
   */
  function Delivered(pending: seq<byte>, script: seq<Step>, r: nat): (n: int)
    ensures n == -1 <==> script != [] && script[0].Fail?
    ensures n == 0 <==> (script == [] || script[0].Chunk?) && (r == 0 || pending == [])
    ensures n >= -1 && n <= r && n <= |pending|
    ensures n > 0 && script != [] ==> n == Max(1, Min(script[0].size, Min(r, |pending|)))
  {
    if script != [] && script[0].Fail? then -1
    else if r == 0 || pending == [] then 0
    else if script == [] then Min(r, |pending|)
    else Max(1, Min(script[0].size, Min(r, |pending|)))
  }

  /** True when the allocator grants the next `realloc`. */
  predicate Granted(grants: seq<bool>) { grants == [] || grants[0] }

  /** The peer's end of a connected stream socket. */
  class Socket {
    var pending: seq<byte>    // bytes the peer has sent that have not been received yet
    var script: seq<Step>     // the network's decision for each future recv call

    constructor (stream: seq<byte>, script: seq<Step>)
      ensures pending == stream && this.script == script
    {
      pending := stream;
      this.script := script;
    }

    /** `recv(fd, buf + off, len, 0)`: writes the bytes it hands over to buf[off..]. */
    method Recv(buf: array<byte>, off: nat, len: nat) returns (n: int)
      requires off + len <= buf.Length
      modifies this, buf
      ensures n == Delivered(old(pending), old(script), len)
      ensures script == Rest(old(script))
      ensures n < 0 ==> pending == old(pending) && buf[..] == old(buf[..])
      ensures n >= 0 ==> pending == old(pending)[n..]
      ensures n >= 0 ==> buf[..] == old(buf[..off]) + old(pending)[..n] + old(buf[off + n..])
    {
      n := Delivered(pending, script, len);
      if n > 0 {
        forall i | 0 <= i < n {
          buf[off + i] := pending[i];
        }
        assert buf[..] == old(buf[..off]) + old(pending)[..n] + old(buf[off + n..]);
        pending := pending[n..];
      }
      script := Rest(script);
    }
  }

  /** The C allocator, as far as `realloc` goes. */
  class Heap {
    var grants: seq<bool>   // whether each future realloc succeeds; exhausted means it succeeds

    constructor (grants: seq<bool>)
      ensures this.grants == grants
    {
      this.grants := grants;
    }

    /**
     * `realloc(buf, size)` for a size no smaller than the block: a fresh block
     * that starts with the old contents, or null (the old block stays valid).
     */
    method Realloc(buf: array<byte>, size: nat) returns (grown: array?<byte>)
      requires buf.Length <= size
      modifies this
      ensures grants == Rest(old(grants))
      ensures (grown != null) == Granted(old(grants))
      ensures grown != null ==> fresh(grown) && grown.Length == size && grown[..buf.Length] == buf[..]
    {
      var ok := Granted(grants);
      grants := Rest(grants);
      if ok {
        grown := new byte[size];
        forall i | 0 <= i < buf.Length {
          grown[i] := buf[i];
        }
      } else {
        grown := null;
      }
    }
  }
}
