/** The growable byte file of Core/FileMemory.cpp: a buffer with a capacity, a size and a cursor. */
module FileMemory {

  type Byte = x: int | 0 <= x < 256

  const BLOCK := 4096

  function Least(x: int, y: int): int { if x < y then x else y }

  function Most(x: int, y: int): int { if x < y then y else x }

  // ---------- The meaning of the operations ----------

  /** Writing `data` at a cursor within the file: it overwrites, and extends the file if it reaches past the end. */
  function Overwrite(contents: seq<Byte>, pos: nat, data: seq<Byte>): (r: seq<Byte>)
    requires pos <= |contents|
    ensures |r| == Most(|contents|, pos + |data|)
  {
    contents[..pos] + data + contents[Least(pos + |data|, |contents|)..]
  }

  /** The bytes that a read of `n` gets at a cursor. */
  function Available(contents: seq<Byte>, pos: nat, n: nat): seq<Byte> {
    contents[Least(pos, |contents|)..Least(pos + n, |contents|)]
  }

  /** Reading back what was written, from where it was written. */
  lemma ReadBack(contents: seq<Byte>, pos: nat, data: seq<Byte>)
    requires pos <= |contents|
    ensures Available(Overwrite(contents, pos, data), pos, |data|) == data
  {
  }

  /** Bytes before and behind the written ones survive. */
  lemma OthersSurvive(contents: seq<Byte>, pos: nat, data: seq<Byte>, k: nat)
    requires pos <= |contents| && k < |contents| && (k < pos || pos + |data| <= k)
    ensures Overwrite(contents, pos, data)[k] == contents[k]
  {
  }

  /** Writes in a row, each where the one before it ended. */
  function WriteAll(contents: seq<Byte>, pos: nat, chunks: seq<seq<Byte>>): (r: seq<Byte>)
    requires pos <= |contents|
    ensures |r| >= |contents| && pos + |Joined(chunks)| <= |r|
  {
    if chunks == [] then contents
    else
      var init := chunks[..|chunks| - 1];
      Overwrite(WriteAll(contents, pos, init), pos + |Joined(init)|, chunks[|chunks| - 1])
  }

  function Joined(chunks: seq<seq<Byte>>): seq<Byte> {
    if chunks == [] then [] else Joined(chunks[..|chunks| - 1]) + chunks[|chunks| - 1]
  }

  /** Any writes in a row are one write of their data joined. */
  lemma {:induction false} WritesJoin(contents: seq<Byte>, pos: nat, chunks: seq<seq<Byte>>)
    requires pos <= |contents|
    ensures WriteAll(contents, pos, chunks) == Overwrite(contents, pos, Joined(chunks))
  {
    hide Overwrite;
    if chunks == [] {
      NoWrite(contents, pos);
    } else {
      var init, last := chunks[..|chunks| - 1], chunks[|chunks| - 1];
      WritesJoin(contents, pos, init);
      TwoWrites(contents, pos, Joined(init), last);
    }
  }

  lemma NoWrite(contents: seq<Byte>, pos: nat)
    requires pos <= |contents|
    ensures Overwrite(contents, pos, []) == contents
  {
  }

  lemma TwoWrites(contents: seq<Byte>, pos: nat, a: seq<Byte>, b: seq<Byte>)
    requires pos <= |contents|
    ensures Overwrite(Overwrite(contents, pos, a), pos + |a|, b) == Overwrite(contents, pos, a + b)
  {
  }

  /** Reads in a row of the given sizes, each where the one before it ended. */
  function ReadAll(contents: seq<Byte>, pos: nat, sizes: seq<nat>): seq<Byte> {
    if sizes == [] then []
    else
      var before := ReadAll(contents, pos, sizes[..|sizes| - 1]);
      before + Available(contents, pos + |before|, sizes[|sizes| - 1])
  }

  function Sum(sizes: seq<nat>): nat {
    if sizes == [] then 0 else Sum(sizes[..|sizes| - 1]) + sizes[|sizes| - 1]
  }

  /** Any reads in a row are one read of their total size, also when they hit the end of the file. */
  lemma {:induction false} ReadsJoin(contents: seq<Byte>, pos: nat, sizes: seq<nat>)
    requires pos <= |contents|
    ensures ReadAll(contents, pos, sizes) == Available(contents, pos, Sum(sizes))
  {
    hide Available;
    if sizes == [] {
      NoRead(contents, pos);
    } else {
      ReadsJoin(contents, pos, sizes[..|sizes| - 1]);
      TwoReads(contents, pos, Sum(sizes[..|sizes| - 1]), sizes[|sizes| - 1]);
    }
  }

  lemma NoRead(contents: seq<Byte>, pos: nat)
    requires pos <= |contents|
    ensures Available(contents, pos, 0) == []
  {
  }

  lemma TwoReads(contents: seq<Byte>, pos: nat, m: nat, n: nat)
    requires pos <= |contents|
    ensures var first := Available(contents, pos, m);
            first + Available(contents, pos + |first|, n) == Available(contents, pos, m + n)
  {
  }

  /** What was written in any pieces is read back in any pieces. */
  lemma PiecesReadBack(contents: seq<Byte>, pos: nat, chunks: seq<seq<Byte>>, sizes: seq<nat>)
    requires pos <= |contents| && Sum(sizes) == |Joined(chunks)|
    ensures ReadAll(WriteAll(contents, pos, chunks), pos, sizes) == Joined(chunks)
  {
    WritesJoin(contents, pos, chunks);
    ReadsJoin(WriteAll(contents, pos, chunks), pos, sizes);
    ReadBack(contents, pos, Joined(chunks));
  }

  /** The capacity after growth for a write of `n` bytes that does not fit. */
  function Grown(capacity: nat, n: nat): nat {
    capacity + BLOCK * (1 + n / BLOCK)
  }

  /** Growth makes room for a write exactly if the cursor is not too far past the capacity; a
      cursor within the file never is.
   */
  lemma GrowthSuffices(size: nat, capacity: nat, pos: nat, n: nat)
    requires size <= capacity && n > 0
    ensures pos + n <= Grown(capacity, n) <==> pos - capacity <= BLOCK - n % BLOCK
    ensures pos <= size ==> pos + n <= Grown(capacity, n)
  {
    assert n == BLOCK * (n / BLOCK) + n % BLOCK;
  }

  /** So a write behind the end can outgrow the new buffer: with a cursor two blocks behind an empty file, for one. */
  lemma GrowthFallsShort()
    ensures !(2 * BLOCK + 1 <= Grown(0, 1))
  {
  }

  /** A buffer after `data` was copied to a cursor in it, `size` bytes of it being the file before. */
  lemma Overwritten(contents: seq<Byte>, pos: nat, data: seq<Byte>, after: seq<Byte>)
    requires pos <= |contents| && |after| == Most(|contents|, pos + |data|)
    requires forall i :: pos <= i < pos + |data| ==> after[i] == data[i - pos]
    requires forall i :: 0 <= i < |contents| && !(pos <= i < pos + |data|) ==> after[i] == contents[i]
    ensures after == Overwrite(contents, pos, data)
  {
    var r := Overwrite(contents, pos, data);
    forall i | 0 <= i < |after|
      ensures after[i] == r[i]
    {
    }
  }

  lemma PlacedBehind(contents: seq<Byte>, pos: nat, data: seq<Byte>, after: seq<Byte>)
    requires |contents| < pos && |after| == pos + |data|
    requires forall i :: pos <= i < pos + |data| ==> after[i] == data[i - pos]
    requires forall i :: 0 <= i < |contents| ==> after[i] == contents[i]
    ensures contents <= after && after[pos..] == data
  {
  }

  // ---------- The class ----------

  datatype SeekMode = SeekSet | SeekCur | SeekEnd

  class FileMemory {
    var buffer: array?<Byte>
    var maxSize: int
    var currentSize: int
    var currentPos: int
    var writeCount: nat

    ghost predicate Valid()
      reads this, buffer
    {
      && 0 <= currentSize <= maxSize
      && maxSize == if buffer == null then 0 else buffer.Length
    }

    ghost function Contents(): (r: seq<Byte>)
      requires Valid()
      reads this, buffer
      ensures |r| == currentSize
    {
      if buffer == null then [] else buffer[..currentSize]
    }

    /** What lies ahead of a cursor in the file. */
    ghost function Rest(): seq<Byte>
      requires Valid() && 0 <= currentPos <= currentSize
      reads this, buffer
    {
      Contents()[currentPos..]
    }

    /** A new file. */
    constructor ()
      ensures Valid() && Contents() == [] && currentPos == 0 && writeCount == 0
    {
      buffer, maxSize, currentSize, currentPos, writeCount := null, 0, 0, 0, 0;
    }

    /** FileMemory::Create for reading, where `data` is what the file on disk holds. */
    constructor Open(data: seq<Byte>)
      ensures Valid() && Contents() == data && currentPos == 0 && writeCount == 0 && fresh(buffer)
    {
      var size := |data|;
      var max := BLOCK * (1 + size / BLOCK);
      var bytes := new Byte[max](i => if 0 <= i < size then data[i] else 0);
      buffer, maxSize, currentSize, currentPos, writeCount := bytes, max, size, 0, 0;
      new;
      assert Contents() == data;
    }

    /** FileMemory::Seek */
    method Seek(offset: int, mode: SeekMode)
      requires Valid()
      modifies this`currentPos
      ensures Valid() && Contents() == old(Contents())
      ensures currentPos == offset + match mode
                                     case SeekSet => 0
                                     case SeekEnd => |Contents()|
                                     case SeekCur => old(currentPos)
    {
      match mode {
        case SeekSet => currentPos := offset;
        case SeekEnd => currentPos := currentSize + offset;
        case SeekCur => currentPos := currentPos + offset;
      }
    }

    /** FileMemory::Read: the bytes that were copied. */
    method Read(n: int) returns (data: seq<Byte>)
      requires Valid()
      modifies this`currentPos
      ensures Valid() && Contents() == old(Contents())
      ensures data == if old(currentPos) < 0 || n <= 0 then [] else Available(Contents(), old(currentPos), n)
      ensures currentPos == old(currentPos) + |data|
    {
      data := [];
      if 0 <= currentPos && 0 < n {
        var deltaToEOF := currentSize - currentPos;
        var delta := currentSize - (currentPos + n);
        var result := if 0 <= delta then n else if 0 <= deltaToEOF then deltaToEOF else 0;
        if 0 < result { data := buffer[currentPos..currentPos + result]; }
        currentPos := currentPos + result;
      }
    }

    /** FileMemory::Write. The bytes between the old end and a cursor behind it are left as the allocation made them. */
    method Write(data: seq<Byte>) returns (written: nat)
      requires Valid()
      requires currentPos < 0 || currentPos + |data| <= maxSize || currentPos + |data| <= Grown(maxSize, |data|)
      modifies this, buffer
      ensures Valid() && (buffer == old(buffer) || fresh(buffer))
      ensures written == if old(currentPos) < 0 then 0 else |data|
      ensures currentPos == old(currentPos) + written
      ensures written == 0 ==> Contents() == old(Contents())
      ensures 0 <= old(currentPos) <= old(currentSize) ==>
                Contents() == Overwrite(old(Contents()), old(currentPos), data)
      ensures old(currentSize) < old(currentPos) && data != [] ==>
                old(Contents()) <= Contents() && currentSize == currentPos && Contents()[old(currentPos)..] == data
    {
      written := 0;
      if 0 <= currentPos && 0 < |data| {
        WriteBytes(data);
        written := |data|;
      }
    }

    /** The body of Write, for a cursor that is not negative and at least one byte. */
    method WriteBytes(data: seq<Byte>)
      requires Valid() && 0 <= currentPos && 0 < |data|
      requires currentPos + |data| <= maxSize || currentPos + |data| <= Grown(maxSize, |data|)
      modifies this, buffer
      ensures Valid() && (buffer == old(buffer) || fresh(buffer)) && currentPos == old(currentPos) + |data|
      ensures old(currentPos) <= old(currentSize) ==> Contents() == Overwrite(old(Contents()), old(currentPos), data)
      ensures old(currentSize) < old(currentPos) ==>
                old(Contents()) <= Contents() && currentSize == currentPos && Contents()[old(currentPos)..] == data
    {
      hide Overwrite;
      var newPos := currentPos + |data|;
      var newSize := if currentSize < newPos then newPos else currentSize;
      var newMax := if maxSize < newSize then maxSize + BLOCK * (1 + |data| / BLOCK) else maxSize;
      if newMax > maxSize { Grow(newMax); }
      Place(data, newPos, newSize);
      writeCount := writeCount + 1;
    }

    /** The part of Write that copies the data and moves the cursor. */
    method Place(data: seq<Byte>, newPos: nat, newSize: nat)
      requires Valid() && 0 <= currentPos && 0 < |data| && newPos == currentPos + |data| <= maxSize
      requires newSize == if currentSize < newPos then newPos else currentSize
      modifies this`currentPos, this`currentSize, buffer
      ensures Valid() && currentPos == newPos && currentSize == newSize
      ensures old(currentPos) <= old(currentSize) ==> Contents() == Overwrite(old(Contents()), old(currentPos), data)
      ensures old(currentSize) < old(currentPos) ==>
                old(Contents()) <= Contents() && Contents()[old(currentPos)..] == data
    {
      hide Overwrite;
      ghost var before, pos := Contents(), currentPos;
      Copy(data);
      currentPos := newPos;
      currentSize := newSize;
      ghost var after := Contents();
      assert forall i :: 0 <= i < |after| ==> after[i] == buffer[i];
      if pos <= |before| { Overwritten(before, pos, data, after); } else { PlacedBehind(before, pos, data, after); }
    }

    /** The part of Write that replaces the buffer. */
    method Grow(newMax: nat)
      requires Valid() && newMax > maxSize
      modifies this`buffer, this`maxSize
      ensures Valid() && maxSize == newMax && fresh(buffer) && Contents() == old(Contents())
    {
      var old0 := buffer;
      var bytes := new Byte[newMax];
      if old0 != null {
        forall i | 0 <= i < currentSize { bytes[i] := old0[i]; }
      }
      buffer := bytes;
      maxSize := newMax;
    }

    /** The part of Write that copies the data to the cursor. */
    method Copy(data: seq<Byte>)
      requires Valid() && 0 <= currentPos && currentPos + |data| <= maxSize && buffer != null
      modifies buffer
      ensures forall i :: currentPos <= i < currentPos + |data| ==> buffer[i] == data[i - currentPos]
      ensures forall i :: 0 <= i < maxSize && !(currentPos <= i < currentPos + |data|) ==> buffer[i] == old(buffer[i])
    {
      forall i | 0 <= i < |data| { buffer[currentPos + i] := data[i]; }
    }

    /** FileMemory::EndOfFile */
    method EndOfFile() returns (r: bool)
      requires Valid()
      ensures r == (currentPos >= |Contents()|)
    {
      r := currentPos >= currentSize;
    }
  }
}
