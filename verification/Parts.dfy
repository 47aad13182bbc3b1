/** How a multipart upload divides its content. */
module Parts {
  import opened Common
  import opened Arithmetic

  type Bytes = seq<byte>

  /** Blocks of exactly `size` bytes, the last one holding what is left. */
  function Chunks(content: Bytes, size: nat): (c: seq<Bytes>)
    requires size > 0
    decreases |content|
  {
    if |content| == 0 then []
    else if |content| <= size then [content]
    else [content[..size]] + Chunks(content[size..], size)
  }

  function Flatten(parts: seq<Bytes>): Bytes {
    if |parts| == 0 then [] else parts[0] + Flatten(parts[1..])
  }

  /** The parts put together again are the content; all but the last are full; there are ceil(n / size). */
  lemma {:induction false} ChunksReassemble(content: Bytes, size: nat)
    requires size > 0
    ensures var c := Chunks(content, size);
            Flatten(c) == content && |c| == CeilDiv(|content|, size)
            && (forall i :: 0 <= i < |c| ==> 1 <= |c[i]| <= size)
            && (forall i :: 0 <= i < |c| - 1 ==> |c[i]| == size)
    decreases |content|
  {
    var c := Chunks(content, size);
    if |content| == 0 {
      CeilDivAtMost(0, size, 0);
    } else if |content| <= size {
      assert c == [content] && Flatten(c[1..]) == [];
      CeilDivIs(|content|, size, 0);
    } else {
      ChunksReassemble(content[size..], size);
      assert c[0] == content[..size] && c[1..] == Chunks(content[size..], size);
      CeilDivStep(|content|, size);
      assert content == content[..size] + content[size..];
      forall i | 0 < i < |c| ensures c[i] == c[1..][i - 1] {}
    }
  }

  lemma {:induction false} FlattenAppend(parts: seq<Bytes>, last: Bytes)
    ensures Flatten(parts + [last]) == Flatten(parts) + last
  {
    if |parts| == 0 {
      assert parts + [last] == [last] && Flatten([last][1..]) == [];
    } else {
      assert (parts + [last])[1..] == parts[1..] + [last];
      FlattenAppend(parts[1..], last);
    }
  }

  lemma ChunksCons(block: Bytes, tail: Bytes, size: nat)
    requires |block| == size > 0
    ensures Chunks(block + tail, size) == [block] + Chunks(tail, size)
  {
    var content := block + tail;
    if |tail| == 0 {
      assert content == block;
    } else {
      assert content[..size] == block && content[size..] == tail;
    }
  }

  /** Full blocks followed by a non-empty rest of at most one block are exactly the chunks. */
  lemma {:induction false} FullBlocksAreChunks(parts: seq<Bytes>, rest: Bytes, size: nat)
    requires size > 0 && |rest| <= size
    requires forall i :: 0 <= i < |parts| ==> |parts[i]| == size
    ensures Chunks(Flatten(parts) + rest, size) == if |rest| == 0 then parts else parts + [rest]
  {
    if |parts| == 0 {
      assert Flatten(parts) + rest == rest;
    } else {
      var tail := Flatten(parts[1..]) + rest;
      FullBlocksAreChunks(parts[1..], rest, size);
      assert Flatten(parts) + rest == parts[0] + tail;
      ChunksCons(parts[0], tail, size);
      assert parts == [parts[0]] + parts[1..];
    }
  }

  lemma {:induction false} FullPartsLength(parts: seq<Bytes>, size: nat)
    requires forall i :: 0 <= i < |parts| ==> |parts[i]| == size
    ensures |Flatten(parts)| == |parts| * size
  {
    if |parts| > 0 {
      FullPartsLength(parts[1..], size);
      assert |parts| * size == |parts[1..]| * size + size;
    }
  }
}
