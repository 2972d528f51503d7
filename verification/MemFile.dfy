/** Files of the in-memory environment (helper/memenv/memenv.cpp): bytes in blocks of 8 KiB. */
module MemFile {
  import opened Bytes

  const BLOCK_SIZE: nat := 8192

  function CeilDiv(n: nat): nat {
    (n + BLOCK_SIZE - 1) / BLOCK_SIZE
  }

  /** Blocks that are all different arrays of one size. */
  ghost predicate BlocksOk(blocks: seq<array<Byte>>) {
    (forall i :: 0 <= i < |blocks| ==> blocks[i].Length == BLOCK_SIZE) &&
    forall i, j :: 0 <= i < j < |blocks| ==> blocks[i] != blocks[j]
  }

  /** The bytes of a file are those of its blocks, one block after the other. */
  ghost predicate Holds(blocks: seq<array<Byte>>, bytes: Bytes)
    reads set a | a in blocks
  {
    BlocksOk(blocks) && |blocks| * BLOCK_SIZE >= |bytes| &&
    forall i {:trigger bytes[i]} :: 0 <= i < |bytes| ==> blocks[i / BLOCK_SIZE][i % BLOCK_SIZE] == bytes[i]
  }

  /** A chunk of a file that lies in one block. */
  lemma ChunkInBlock(blocks: seq<array<Byte>>, bytes: Bytes, offset: nat, n: nat)
    requires Holds(blocks, bytes) && offset + n <= |bytes| && n > 0 && offset % BLOCK_SIZE + n <= BLOCK_SIZE
    ensures offset / BLOCK_SIZE < |blocks|
    ensures blocks[offset / BLOCK_SIZE][offset % BLOCK_SIZE..offset % BLOCK_SIZE + n] == bytes[offset..offset + n]
  {
    var b, o := offset / BLOCK_SIZE, offset % BLOCK_SIZE;
    assert b < |blocks| && blocks[b][o] == bytes[offset];
    var there, here := blocks[b][o..o + n], bytes[offset..offset + n];
    forall k | 0 <= k < n
      ensures there[k] == here[k]
    {
      assert (offset + k) / BLOCK_SIZE == b && (offset + k) % BLOCK_SIZE == o + k;
      assert here[k] == bytes[offset + k];
    }
  }

  class FileState {
    var refs: int
    var size: nat
    var blocks: seq<array<Byte>>
    ghost var bytes: Bytes

    ghost predicate Valid()
      reads `size, `bytes, `blocks, set a | a in blocks
    {
      size == |bytes| && |blocks| == CeilDiv(size) && Holds(blocks, bytes)
    }

    constructor ()
      ensures Valid() && refs == 0 && bytes == [] && blocks == []
    {
      refs, size, blocks, bytes := 0, 0, [], [];
    }

    method Truncate()
      modifies `size, `blocks, `bytes
      ensures Valid() && bytes == [] && blocks == []
    {
      blocks := [];
      size := 0;
      bytes := [];
    }

    /** `Read`: an error past the end, otherwise the requested bytes clipped to the file, in the caller's buffer. */
    method Read(offset: nat, n: nat, scratch: array<Byte>) returns (ok: bool, len: nat)
      requires Valid() && scratch !in blocks && scratch.Length >= n
      modifies scratch
      ensures ok <==> offset <= |bytes|
      ensures ok ==> len == (if n < |bytes| - offset then n else |bytes| - offset) && len <= n
      ensures ok ==> scratch[..len] == bytes[offset..offset + len] && scratch[len..] == old(scratch[len..])
      ensures !ok ==> len == 0 && scratch[..] == old(scratch[..])
      ensures Valid()
    {
      if offset > size {
        return false, 0;
      }
      var available := size - offset;
      ok, len := true, n;
      if n > available {
        len := available;
      }
      if len == 0 {
        return;
      }
      CopyBlocks(offset, len, scratch);
    }

    /** The copying loop of `Read`. */
    method CopyBlocks(offset: nat, n: nat, scratch: array<Byte>)
      requires Valid() && scratch !in blocks && n <= scratch.Length && offset + n <= size
      modifies scratch
      ensures scratch[..] == Overwritten(old(scratch[..]), 0, bytes[offset..offset + n]) && Valid()
    {
      hide Holds, BlocksOk, CeilDiv, Overwritten;
      ghost var before := scratch[..];
      Untouched(before, 0);
      assert bytes[offset..offset] == [];
      var block, blockOffset := offset / BLOCK_SIZE, offset % BLOCK_SIZE;
      var done := 0;
      while done < n
        invariant done <= n && Valid()
        invariant done < n ==> block == (offset + done) / BLOCK_SIZE && blockOffset == (offset + done) % BLOCK_SIZE
        invariant scratch[..] == Overwritten(before, 0, bytes[offset..offset + done])
      {
        var avail := BLOCK_SIZE - blockOffset;
        if avail > n - done {
          avail := n - done;
        }
        CopyChunk(offset + done, avail, scratch, done, block, blockOffset);
        NextBlock(offset + done, avail);
        OverwrittenTwice(before, 0, bytes[offset..offset + done], bytes[offset + done..offset + done + avail]);
        assert bytes[offset..offset + done] + bytes[offset + done..offset + done + avail] == bytes[offset..offset + done + avail];
        done, block, blockOffset := done + avail, block + 1, 0;
      }
    }

    ghost function BlockSet(): set<array<Byte>>
      reads `blocks
    {
      set a | a in blocks
    }

    /** There is room in the last block. */
    ghost predicate Roomy()
      reads `size, `bytes, `blocks, set a | a in blocks
    {
      size == |bytes| && |blocks| == size / BLOCK_SIZE + 1 && Holds(blocks, bytes)
    }

    /** `blocks_.push_back(new char[kBlockSize])`. */
    method PushBlock()
      requires Valid() && size % BLOCK_SIZE == 0
      modifies `blocks
      ensures Roomy() && |blocks| == |old(blocks)| + 1 && blocks[..|blocks| - 1] == old(blocks) && fresh(blocks[|blocks| - 1])
    {
      var b := new Byte[BLOCK_SIZE](_ => 0);
      assert b !in blocks;
      blocks := blocks + [b];
      assert forall i :: 0 <= i < |bytes| ==> i / BLOCK_SIZE < |blocks| - 1;
    }

    /** `memcpy(blocks_.back() + offset, src, avail)`, and the new size. */
    method Fill(chunk: Bytes)
      requires Roomy() && 0 < |chunk| <= BLOCK_SIZE - size % BLOCK_SIZE
      modifies `size, `bytes, blocks[|blocks| - 1]
      ensures Valid() && bytes == old(bytes) + chunk
    {
      var last, offset := blocks[|blocks| - 1], size % BLOCK_SIZE;
      Memcpy(last, offset, chunk);
      assert forall i {:trigger bytes[i]} :: 0 <= i < |bytes| ==> blocks[i / BLOCK_SIZE][i % BLOCK_SIZE] == bytes[i];
      Lengthened(blocks, bytes, chunk);
      size := size + |chunk|;
      bytes := bytes + chunk;
    }

    /** One round of the loop of `Append`: as much of the data as the last block, or a new one, has room for. */
    method AppendChunk(data: Bytes) returns (avail: nat)
      requires Valid() && data != []
      modifies `size, `bytes, `blocks, set a | a in blocks
      ensures Valid() && 0 < avail <= |data| && bytes == old(bytes) + data[..avail]
      ensures fresh(BlockSet() - old(BlockSet())) && old(blocks) <= blocks
    {
      hide Holds, BlocksOk;
      var offset := size % BLOCK_SIZE;
      avail := BLOCK_SIZE - offset;
      if offset == 0 {
        PushBlock();
      }
      assert Roomy();
      if avail > |data| {
        avail := |data|;
      }
      assert blocks[|blocks| - 1] in BlockSet();
      Fill(data[..avail]);
    }

    /** `Append`. */
    method Append(data: Bytes)
      requires Valid()
      modifies `size, `bytes, `blocks, set a | a in blocks
      ensures Valid() && bytes == old(bytes) + data && fresh(BlockSet() - old(BlockSet())) && old(blocks) <= blocks
    {
      hide Holds, BlocksOk, CeilDiv;
      var done := 0;
      while done < |data|
        invariant done <= |data| && Valid() && bytes == old(bytes) + data[..done]
        invariant fresh(BlockSet() - old(BlockSet())) && old(blocks) <= blocks
      {
        var avail := AppendChunk(data[done..]);
        assert data[..done] + data[done..][..avail] == data[..done + avail];
        done := done + avail;
      }
      assert data[..done] == data;
    }

    method CopyChunk(offset: nat, n: nat, scratch: array<Byte>, at: nat, block: nat, blockOffset: nat)
      requires Valid() && scratch !in blocks && at + n <= scratch.Length && offset + n <= size && n > 0
      requires block == offset / BLOCK_SIZE && blockOffset == offset % BLOCK_SIZE && blockOffset + n <= BLOCK_SIZE
      modifies scratch
      ensures Valid() && scratch[..] == Overwritten(old(scratch[..]), at, bytes[offset..offset + n])
    {
      ChunkInBlock(blocks, bytes, offset, n);
      assert blocks[block] in blocks;
      Memcpy(scratch, at, blocks[block][blockOffset..blockOffset + n]);
    }
  }

  /** Bytes written at the end of the last block lengthen the file. */
  lemma Lengthened(blocks: seq<array<Byte>>, bytes: Bytes, chunk: Bytes)
    requires BlocksOk(blocks) && |blocks| == |bytes| / BLOCK_SIZE + 1 && |bytes| % BLOCK_SIZE + |chunk| <= BLOCK_SIZE
    requires forall i {:trigger bytes[i]} :: 0 <= i < |bytes| ==> blocks[i / BLOCK_SIZE][i % BLOCK_SIZE] == bytes[i]
    requires forall k :: 0 <= k < |chunk| ==> blocks[|blocks| - 1][|bytes| % BLOCK_SIZE + k] == chunk[k]
    ensures Holds(blocks, bytes + chunk)
  {
    forall i | |bytes| <= i < |bytes| + |chunk|
      ensures blocks[i / BLOCK_SIZE][i % BLOCK_SIZE] == (bytes + chunk)[i]
    {
      var k := i - |bytes|;
      assert i / BLOCK_SIZE == |blocks| - 1 && i % BLOCK_SIZE == |bytes| % BLOCK_SIZE + k;
      assert (bytes + chunk)[i] == chunk[k];
    }
    forall i {:trigger (bytes + chunk)[i]} | 0 <= i < |bytes|
      ensures blocks[i / BLOCK_SIZE][i % BLOCK_SIZE] == (bytes + chunk)[i]
    {
      assert (bytes + chunk)[i] == bytes[i];
    }
  }

  lemma NextBlock(offset: nat, n: nat)
    requires 0 < n <= BLOCK_SIZE - offset % BLOCK_SIZE
    ensures n == BLOCK_SIZE - offset % BLOCK_SIZE ==>
              (offset + n) / BLOCK_SIZE == offset / BLOCK_SIZE + 1 && (offset + n) % BLOCK_SIZE == 0
    ensures n < BLOCK_SIZE - offset % BLOCK_SIZE ==>
              (offset + n) / BLOCK_SIZE == offset / BLOCK_SIZE && (offset + n) % BLOCK_SIZE == offset % BLOCK_SIZE + n
  {
  }

  /** `SequentialFileImpl`: a reading position in a file. */
  class SequentialFile {
    const file: FileState
    var pos: nat

    constructor (file: FileState)
      ensures this.file == file && pos == 0
    {
      this.file, pos := file, 0;
    }

    /** The next bytes; an error once the file was truncated below the position. */
    method Read(n: nat, scratch: array<Byte>) returns (ok: bool, len: nat)
      requires file.Valid() && scratch !in file.blocks && scratch.Length >= n
      modifies `pos, scratch
      ensures ok <==> old(pos) <= |file.bytes|
      ensures ok ==> len == (if n < |file.bytes| - old(pos) then n else |file.bytes| - old(pos))
      ensures ok ==> pos == old(pos) + len && scratch[..len] == file.bytes[old(pos)..pos]
      ensures !ok ==> pos == old(pos) && scratch[..] == old(scratch[..])
      ensures file.Valid()
    {
      ok, len := file.Read(pos, n, scratch);
      if ok {
        pos := pos + len;
      }
    }

    method Skip(n: nat) returns (ok: bool)
      requires file.Valid()
      modifies `pos
      ensures ok <==> old(pos) <= |file.bytes|
      ensures pos == if !ok then old(pos) else if n < |file.bytes| - old(pos) then old(pos) + n else |file.bytes|
    {
      if pos > file.size {
        return false;
      }
      var available := file.size - pos;
      pos := pos + if n > available then available else n;
      ok := true;
    }
  }

  /** Reading on with any positive buffer size until nothing more comes yields the rest of the file. */
  method ReadToEnd(r: SequentialFile, n: nat) returns (out: Bytes)
    requires r.file.Valid() && r.pos <= |r.file.bytes| && n > 0
    modifies r
    ensures out == r.file.bytes[old(r.pos)..] && r.pos == |r.file.bytes|
  {
    hide FileState.Valid;
    var scratch := new Byte[n](_ => 0);
    out := [];
    ghost var bytes := r.file.bytes;
    var ok, len := true, n;
    while len > 0
      invariant r.file.Valid() && r.file.bytes == bytes && old(r.pos) <= r.pos <= |bytes| && out == bytes[old(r.pos)..r.pos]
      invariant len == 0 ==> r.pos == |bytes|
      decreases |bytes| - r.pos, len
    {
      ghost var p := r.pos;
      ok, len := r.Read(n, scratch);
      assert bytes[old(r.pos)..p] + bytes[p..r.pos] == bytes[old(r.pos)..r.pos];
      out := out + scratch[..len];
    }
  }
}
