/**
  `BufferedReader`: a sliding window over the valid bytes of a file. `position`, the sum of all
  advances, is what the caller means; the buffer, its valid range and the two file offsets are
  proved to agree with it.
 */
module BufferedReaders {
  import opened Wrappers

  type Byte = b: nat | b < 256

  datatype Status = Eof | Success

  function Min(a: int, b: int): int { if a <= b then a else b }

  function Max(a: int, b: int): int { if a <= b then b else a }

  lemma DropOfSlice(s: seq<Byte>, a: nat, b: nat, d: nat)
    requires a + d <= b <= |s|
    ensures s[a..b][d..] == s[a + d..b]
  {
  }

  lemma TakeOfSlice(s: seq<Byte>, a: nat, b: nat, t: nat)
    requires a + t <= b <= |s|
    ensures s[a..b][..t] == s[a..a + t]
  {
  }

  class BufferedReader {
    const file: seq<Byte>
    const fileLenValid: nat
    const buf: array<Byte>
    const defaultMinReadRequirement: nat
    var validStart: nat
    var validEnd: nat
    var fileOffsetOfNextRead: nat
    var fileLastOffset: nat
    var readRequirements: Option<nat>
    /** The sum of all advances. */
    ghost var position: nat
    /** An advance went past the buffered bytes and nothing has been read since. */
    ghost var stale: bool

    ghost predicate Valid()
      reads this, buf
    {
      && fileLenValid <= |file|
      && validStart <= validEnd <= buf.Length
      && (if stale then
            validStart == validEnd == 0 && position == fileOffsetOfNextRead && fileLastOffset < position
          else
            && position == fileLastOffset + validStart && fileOffsetOfNextRead == fileLastOffset + validEnd
            && (validStart < validEnd ==> fileOffsetOfNextRead <= fileLenValid)
            && (validStart < validEnd ==> buf[validStart..validEnd] == file[position..fileOffsetOfNextRead]))
    }

    constructor (buf: array<Byte>, fileLenValid: nat, file: seq<Byte>, defaultMinReadRequirement: nat)
      requires fileLenValid <= |file|
      ensures Valid() && position == 0 && !stale && readRequirements == None
      ensures this.buf == buf && this.file == file && this.fileLenValid == fileLenValid
      ensures this.defaultMinReadRequirement == defaultMinReadRequirement
    {
      this.buf, this.file, this.fileLenValid := buf, file, fileLenValid;
      this.defaultMinReadRequirement := defaultMinReadRequirement;
      validStart, validEnd, fileOffsetOfNextRead, fileLastOffset := 0, 0, 0, 0;
      readRequirements, position, stale := None, 0, false;
    }

    function ValidLen(): int
      reads this
    {
      validEnd - validStart
    }

    method AdvanceOffset(delta: nat)
      requires Valid()
      modifies this`validStart, this`validEnd, this`fileOffsetOfNextRead, this`position, this`stale
      ensures Valid() && position == old(position) + delta
      ensures stale == (old(stale) || delta > old(ValidLen()))
    {
      if ValidLen() >= delta {
        validStart := validStart + delta;
        if validStart < validEnd {
          DropOfSlice(buf[..], old(validStart), validEnd, delta);
          DropOfSlice(file, position, fileOffsetOfNextRead, delta);
        }
      } else {
        var additional := delta - ValidLen();
        validStart, validEnd := 0, 0;
        fileOffsetOfNextRead := fileOffsetOfNextRead + additional;
        stale := true;
      }
      position := position + delta;
    }

    method SetRequiredDataLen(len: nat)
      requires Valid()
      modifies this`readRequirements
      ensures Valid() && readRequirements == Some(len)
    {
      readRequirements := Some(len);
    }

    /** `read_at`: at least one byte and at most what fits and what there is. */
    method ReadAt(from: nat, offset: nat) returns (n: nat)
      requires from < buf.Length && offset < |file|
      modifies buf
      ensures 1 <= n <= Min(buf.Length - from, |file| - offset)
      ensures buf[..from] == old(buf[..from]) && buf[from..from + n] == file[offset..offset + n]
    {
      var most: nat := Min(buf.Length - from, |file| - offset);
      n :| 1 <= n <= most;
      for i := 0 to n
        invariant n <= most
        invariant buf[..from] == old(buf[..from])
        invariant buf[from..from + i] == file[offset..offset + i]
      {
        buf[from + i] := file[offset + i];
        assert buf[from..from + i + 1] == buf[from..from + i] + [buf[from + i]];
        assert file[offset..offset + i + 1] == file[offset..offset + i] + [file[offset + i]];
      }
    }

    /** `read_into_buffer`: fills the buffer from `from` on, or stops at the last valid byte. */
    method ReadIntoBuffer(startOffset: nat, from: nat) returns (total: nat)
      requires fileLenValid <= |file| && from <= buf.Length
      modifies buf
      ensures total == Max(0, Min(buf.Length - from, fileLenValid - startOffset))
      ensures buf[..from] == old(buf[..from])
      ensures total > 0 ==> buf[from..from + total] == file[startOffset..startOffset + total]
    {
      total := 0;
      if startOffset >= fileLenValid { return; }
      var bufferOffset := from;
      while bufferOffset < buf.Length
        invariant from <= bufferOffset <= buf.Length && total == bufferOffset - from
        invariant startOffset + total < fileLenValid
        invariant buf[..from] == old(buf[..from])
        invariant buf[from..bufferOffset] == file[startOffset..startOffset + total]
        decreases buf.Length - bufferOffset
      {
        ghost var before := buf[..bufferOffset];
        var n := ReadAt(bufferOffset, startOffset + total);
        Extended(before, from, bufferOffset, n, startOffset, total);
        total := total + n;
        if total + startOffset >= fileLenValid {
          ghost var all := total;
          total := total - (total + startOffset - fileLenValid);
          TakeOfSlice(buf[..], from, from + all, total);
          TakeOfSlice(file, startOffset, startOffset + all, total);
          break;
        }
        bufferOffset := bufferOffset + n;
      }
    }

    lemma Extended(before: seq<Byte>, from: nat, at: nat, n: nat, startOffset: nat, total: nat)
      requires from <= at && at + n <= buf.Length && total == at - from && startOffset + total + n <= |file|
      requires before == buf[..at] && before[from..] == file[startOffset..startOffset + total]
      requires buf[at..at + n] == file[startOffset + total..startOffset + total + n]
      ensures buf[from..at + n] == file[startOffset..startOffset + total + n] && buf[..from] == before[..from]
    {
      assert buf[from..at + n] == buf[..at][from..] + buf[at..at + n];
      assert file[startOffset..startOffset + total + n] == file[startOffset..startOffset + total] + file[startOffset + total..startOffset + total + n];
    }

    /** `copy_within`: the bytes left over move to the front. */
    method MoveToFront()
      requires validStart <= validEnd <= buf.Length
      modifies buf
      ensures buf[..ValidLen()] == old(buf[validStart..validEnd])
    {
      for i := 0 to ValidLen()
        invariant forall j :: 0 <= j < i ==> buf[j] == old(buf[validStart + j])
        invariant forall j :: validStart + i <= j < validEnd ==> buf[j] == old(buf[j])
      {
        buf[i] := buf[validStart + i];
      }
      ghost var was := old(buf[validStart..validEnd]);
      assert |buf[..ValidLen()]| == |was| && forall j :: 0 <= j < |was| ==> buf[..ValidLen()][j] == was[j];
    }

    /** `read_more_buffer` */
    method ReadMoreBuffer()
      requires fileLenValid <= |file| && validStart <= validEnd <= buf.Length
      modifies this`validStart, this`validEnd, this`fileOffsetOfNextRead, buf
      ensures validStart == 0
      ensures var got := Max(0, Min(buf.Length - old(ValidLen()), fileLenValid - old(fileOffsetOfNextRead)));
              && validEnd == old(ValidLen()) + got <= buf.Length && fileOffsetOfNextRead == old(fileOffsetOfNextRead) + got
              && buf[..old(ValidLen())] == old(buf[validStart..validEnd])
              && (got > 0 ==> buf[old(ValidLen())..validEnd] == file[old(fileOffsetOfNextRead)..fileOffsetOfNextRead])
    {
      MoveToFront();
      var leftover := ValidLen();
      var got := ReadIntoBuffer(fileOffsetOfNextRead, leftover);
      fileOffsetOfNextRead := fileOffsetOfNextRead + got;
      validStart, validEnd := 0, leftover + got;
    }

    /** How many bytes the next read must make available. */
    function MustRead(): nat
      reads this
    {
      if readRequirements.Some? then readRequirements.value else defaultMinReadRequirement
    }

    /** The most a read can make available: what the buffer holds of what the file has left. */
    ghost function Obtainable(): int
      reads this
    {
      Max(0, Min(buf.Length, fileLenValid - position))
    }

    method Read() returns (status: Status)
      requires Valid()
      modifies this`validStart, this`validEnd, this`fileOffsetOfNextRead, this`fileLastOffset, this`readRequirements, this`stale, buf
      ensures Valid()
      ensures var required := match old(readRequirements) case Some(n) => n case None => defaultMinReadRequirement;
              && (status.Success? <==> required <= Obtainable())
              && (status.Success? ==> ValidLen() >= required && readRequirements == None)
              && (stale <==> old(stale) && required == 0)
      ensures status.Eof? ==> ValidLen() == Obtainable() && readRequirements == old(readRequirements)
    {
      var mustRead := MustRead();
      if ValidLen() < mustRead {
        Refill();
        if ValidLen() < mustRead { return Eof; }
      }
      readRequirements := None;
      status := Success;
    }

    /** Fewer bytes are buffered than required: the window is moved to the front and filled up. */
    method Refill()
      requires Valid()
      modifies this`validStart, this`validEnd, this`fileOffsetOfNextRead, this`fileLastOffset, this`stale, buf
      ensures Valid() && !stale && ValidLen() == Obtainable()
    {
      ghost var leftover, next := ValidLen(), fileOffsetOfNextRead;
      fileLastOffset := fileOffsetOfNextRead - ValidLen();
      ReadMoreBuffer();
      stale := false;
      assert fileLastOffset == position;
      if validEnd > 0 {
        assert buf[0..validEnd] == buf[..leftover] + buf[leftover..validEnd];
        if leftover > 0 && validEnd > leftover {
          assert file[position..fileOffsetOfNextRead] == file[position..next] + file[next..fileOffsetOfNextRead];
        }
      }
    }

    /** The offset and the bytes the caller is shown. */
    method GetOffsetAndData() returns (offset: nat, data: seq<Byte>)
      requires Valid()
      ensures offset == position <==> !stale
      ensures !stale && data != [] ==> position + |data| <= fileLenValid && data == file[position..position + |data|]
      ensures |data| == ValidLen()
    {
      offset, data := fileLastOffset + validStart, buf[validStart..validEnd];
    }
  }

  /** An advance past a buffer of two bytes, and a read that requires none: the offset shown is not the caller's. */
  method ShowsStaleOffset(file: seq<Byte>) returns (reader: BufferedReader, offset: nat)
    requires |file| >= 5
    ensures fresh(reader) && reader.Valid() && reader.position == 5 && offset != 5
  {
    var buf := new Byte[2](_ => 0);
    reader := new BufferedReader(buf, |file|, file, 0);
    reader.AdvanceOffset(5);
    var status := reader.Read();
    var data;
    offset, data := reader.GetOffsetAndData();
  }
}
