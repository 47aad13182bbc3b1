/** The objects a transfer reads from and feeds: a byte source and a running digest. */
module Streams {
  import opened Common
  import opened Parts

  /** An upload or a response body: `Read(n)` gives any 1..n next bytes, nothing at the end, or raises. */
  class ByteSource {
    const content: Bytes
    var pos: nat
    ghost var faults: nat

    constructor (content: Bytes)
      ensures this.content == content && pos == 0 && faults == 0
    {
      this.content, pos, faults := content, 0, 0;
    }

    method Read(n: nat) returns (r: Result<Bytes, Error>)
      requires n > 0 && pos <= |content|
      modifies this
      ensures old(pos) <= pos <= |content|
      ensures r.Ok? ==> r.value == content[old(pos)..pos] && |r.value| <= n && faults == old(faults)
      ensures r.Ok? ==> (r.value == [] <==> old(pos) == |content|)
      ensures r.Err? ==> r.error == ReadFailed && pos == old(pos) && faults == old(faults) + 1
    {
      if * {
        faults := faults + 1;
        return Err(ReadFailed);
      }
      if pos == |content| { return Ok([]); }
      var k: nat := *;
      k := Min(Max(k, 1), Min(n, |content| - pos));
      r := Ok(content[pos..pos + k]);
      pos := pos + k;
    }
  }

  /** A digest object: the bytes it has absorbed so far. */
  class Digest {
    var absorbed: Bytes

    constructor ()
      ensures absorbed == []
    {
      absorbed := [];
    }

    method Update(chunk: Bytes)
      modifies this
      ensures absorbed == old(absorbed) + chunk
    {
      absorbed := absorbed + chunk;
    }
  }

  /** A `bytearray` that is filled at the end and consumed at the front. */
  class Buffer {
    var bytes: Bytes
    /** Everything ever appended, of which `bytes` is what is left. */
    ghost var taken: Bytes
    /** The largest size the buffer has ever had. */
    ghost var peak: nat

    ghost predicate Valid()
      reads this
    {
      |bytes| <= peak && |bytes| <= |taken| && bytes == taken[|taken| - |bytes|..]
    }

    constructor ()
      ensures Valid() && bytes == [] && taken == [] && peak == 0
    {
      bytes, taken, peak := [], [], 0;
    }

    method Extend(chunk: Bytes)
      requires Valid()
      modifies this
      ensures Valid() && bytes == old(bytes) + chunk && taken == old(taken) + chunk
      ensures peak == Max(old(peak), |bytes|)
    {
      bytes, taken := bytes + chunk, taken + chunk;
      peak := Max(peak, |bytes|);
    }

    /** `del buffer[:n]`. */
    method DropFront(n: nat)
      requires Valid() && n <= |bytes|
      modifies this`bytes
      ensures Valid() && bytes == old(bytes)[n..]
    {
      bytes := bytes[n..];
    }
  }
}
