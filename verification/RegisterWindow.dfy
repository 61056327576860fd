/** The 128-byte register window of the demo driver: clamped reads that advance the position, clamped writes. */
module RegisterWindow {
  import opened Machine

  const NO_OF_BYTES: nat := 128

  /** What a read or write of `count` bytes at `pos` moves. */
  function Clamp(pos: nat, count: nat): nat
    requires pos <= NO_OF_BYTES
  {
    if count < NO_OF_BYTES - pos then count else NO_OF_BYTES - pos
  }

  /** Results of successive reads with the given counts, over unchanged registers. */
  function Reads(regs: Bytes, pos: nat, counts: seq<nat>): seq<Bytes>
    requires |regs| == NO_OF_BYTES && pos <= NO_OF_BYTES
    decreases |counts|
  {
    if counts == [] then []
    else
      var n := Clamp(pos, counts[0]);
      [regs[pos..pos + n]] + Reads(regs, pos + n, counts[1..])
  }

  function Sum(counts: seq<nat>): nat {
    if counts == [] then 0 else counts[0] + Sum(counts[1..])
  }

  function Flatten(chunks: seq<Bytes>): Bytes {
    if chunks == [] then [] else chunks[0] + Flatten(chunks[1..])
  }

  /** The chunks join to the window from `pos` on, cut at the bytes asked for or the end of the window. */
  lemma {:induction false} ReadsJoin(regs: Bytes, pos: nat, counts: seq<nat>)
    requires |regs| == NO_OF_BYTES && pos <= NO_OF_BYTES
    ensures Flatten(Reads(regs, pos, counts)) == regs[pos..pos + Clamp(pos, Sum(counts))]
    decreases |counts|
  {
    if counts != [] {
      var n := Clamp(pos, counts[0]);
      ReadsJoin(regs, pos + n, counts[1..]);
      var chunks := Reads(regs, pos, counts);
      assert chunks[1..] == Reads(regs, pos + n, counts[1..]);
      assert regs[pos..pos + n] + regs[pos + n..pos + n + Clamp(pos + n, Sum(counts[1..]))]
          == regs[pos..pos + n + Clamp(pos + n, Sum(counts[1..]))];
    }
  }

  lemma {:induction false} SumAtLeastLength(counts: seq<nat>)
    requires forall c :: c in counts ==> c > 0
    ensures Sum(counts) >= |counts|
  {
    if counts != [] {
      assert counts[0] in counts && forall c :: c in counts[1..] ==> c in counts;
      SumAtLeastLength(counts[1..]);
    }
  }

  /**
   * Reading the device from the start: positive counts give a prefix of the registers, all 128 bytes after at most
   * 128 reads, and once they have been read nothing more.
   */
  lemma {:induction false} ReadingFromStart(regs: Bytes, counts: seq<nat>, more: seq<nat>)
    requires |regs| == NO_OF_BYTES && forall c :: c in counts ==> c > 0
    ensures Flatten(Reads(regs, 0, counts)) <= regs
    ensures |counts| >= 128 ==> Flatten(Reads(regs, 0, counts)) == regs
    ensures Flatten(Reads(regs, 0, counts)) == regs <==> Sum(counts) >= 128
    ensures Flatten(Reads(regs, NO_OF_BYTES, more)) == []
  {
    ReadsJoin(regs, 0, counts);
    SumAtLeastLength(counts);
    ReadsJoin(regs, NO_OF_BYTES, more);
  }

  // ----- the clamp of a write, at any position -----

  /** Width of size_t on the machine the driver is built for. */
  datatype Width = Bits32 | Bits64

  /** Positions are of the signed 64-bit type loff_t and never negative. */
  type Position = x: int | 0 <= x < 0x8000_0000_0000_0000

  function ToSize(x: int, width: Width): nat {
    if width.Bits32? then x % 0x1_0000_0000 else x % 0x1_0000_0000_0000_0000
  }

  /**
   * How many bytes a write moves. The comparison with the room left is one of signed 64-bit values if size_t has 32
   * bits, and one of unsigned values if it has 64.
   */
  function Written(pos: Position, count: nat, width: Width): nat {
    var wanted := if count <= NO_OF_BYTES then count else NO_OF_BYTES;
    var left := NO_OF_BYTES - pos;
    if wanted > (if width.Bits32? then left else ToSize(left, width)) then ToSize(left, width) else wanted
  }

  predicate StaysInside(pos: Position, count: nat, width: Width) {
    Written(pos, count, width) == 0 || pos + Written(pos, count, width) <= NO_OF_BYTES
  }

  /** Exactly when a write stays in the window: behind its end the clamp protects only the cases where nothing is moved. */
  lemma StaysInsideIff(pos: Position, count: nat, width: Width)
    ensures StaysInside(pos, count, width) <==>
            || pos <= 128
            || (width.Bits64? && count == 0)
            || (width.Bits32? && (pos - 128) % 0x1_0000_0000 == 0)
    ensures pos <= 128 ==> Written(pos, count, width) == Min(count, 128 - pos)
  {
  }

  class Driver {
    const width: Width
    const registers: array<Byte>

    ghost predicate Valid() {
      registers.Length == NO_OF_BYTES
    }

    constructor (width: Width)
      ensures Valid() && fresh(registers) && this.width == width
    {
      this.width := width;
      registers := new Byte[NO_OF_BYTES];
    }

    method CopyFrom(pos: nat, n: nat) returns (data: Bytes)
      requires Valid() && pos + n <= NO_OF_BYTES
      ensures data == registers[pos..pos + n]
    {
      data := [];
      for i := 0 to n
        invariant data == registers[pos..pos + i]
      {
        data := data + [registers[pos + i]];
      }
    }

    /** ntp_fpga_read in the register window; the result is both the bytes and their number. */
    method Read(count: nat, fPos: nat) returns (data: Bytes, fPos': nat)
      requires Valid() && fPos <= NO_OF_BYTES
      ensures |data| == Min(count, 128 - fPos) && data == registers[fPos..fPos + |data|] && fPos' == fPos + |data| <= 128
      ensures [data] == Reads(registers[..], fPos, [count])
    {
      if fPos >= NO_OF_BYTES {
        return [], fPos;
      }
      var bytesToRead := 0;
      if count < NO_OF_BYTES - fPos {
        bytesToRead := count;
      } else {
        bytesToRead := NO_OF_BYTES;
      }
      if bytesToRead > NO_OF_BYTES - fPos {
        bytesToRead := NO_OF_BYTES - fPos;
      }
      data := CopyFrom(fPos, bytesToRead);
      fPos' := fPos + bytesToRead;
    }

    /** ntp_fpga_write: replaces a clamped run of registers, and does not advance the position. */
    method Write(buf: Bytes, fPos: Position) returns (written: nat)
      requires Valid() && StaysInside(fPos, |buf|, width)
      modifies registers
      ensures written == (if fPos <= 128 then Min(|buf|, 128 - fPos) else 0)
      ensures registers.Length == 128 && forall k :: 0 <= k < 128 ==>
                registers[k] == if fPos <= k < fPos + written then buf[k - fPos] else old(registers[k])
    {
      StaysInsideIff(fPos, |buf|, width);
      if |buf| <= NO_OF_BYTES {
        written := |buf|;
      } else {
        written := NO_OF_BYTES;
      }
      var left := NO_OF_BYTES - fPos;
      if written > (if width.Bits32? then left else ToSize(left, width)) {
        written := ToSize(left, width);
      }
      for i := 0 to written
        invariant forall k :: 0 <= k < NO_OF_BYTES ==>
                    registers[k] == if fPos <= k < fPos + i then buf[k - fPos] else old(registers[k])
      {
        registers[fPos + i] := buf[i];
      }
    }

    /** A write followed by a read of the same count at the same position returns the written bytes. */
    method WriteThenRead(buf: Bytes, fPos: nat) returns (data: Bytes)
      requires Valid() && fPos <= NO_OF_BYTES
      modifies registers
      ensures data == buf[..Min(|buf|, 128 - fPos)]
      ensures forall i :: 0 <= i < NO_OF_BYTES && !(fPos <= i < fPos + |data|) ==> registers[i] == old(registers[i])
    {
      StaysInsideIff(fPos, |buf|, width);
      var written := Write(buf, fPos);
      var fPos';
      data, fPos' := Read(|buf|, fPos);
    }
  }
}
