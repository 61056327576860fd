/** Slot addresses of the image ring and the values the consumer computes from them. */
module RingGeometry {
  import opened Machine

  /** Physical start address, bytes per slot and number of slots of one ring. */
  datatype Geometry = Geometry(base: int, dataSize: int, length: int)

  /** The ring, with two spare slots for the sentinel, fits a 32-bit address space. The base is arbitrary. */
  predicate Fits(g: Geometry) {
    0 < g.dataSize && 0 < g.length && g.dataSize * (g.length + 2) <= 0x1_0000_0000
  }

  /** The address arithmetic is done in 32-bit int, so it is reduced. */
  function SlotAddress(g: Geometry, slot: int): int {
    Wrap32(g.base + g.dataSize * slot)
  }

  /** What an address register holds, said without the functions that compute it. */
  lemma SlotAddressMeans(g: Geometry, slot: int, v: int)
    requires -0x8000_0000 <= v < 0x8000_0000
    ensures v == SlotAddress(g, slot) <==> (v - (g.base + g.dataSize * slot)) % 0x1_0000_0000 == 0
  {
    Wrap32Unique(g.base + g.dataSize * slot, v);
  }

  /** What the producer's register shows while it writes `slot`: the end of that slot. */
  function SlotEnd(g: Geometry, slot: int): int {
    SlotAddress(g, slot + 1)
  }

  /** The Linux pointer at start-up: behind the last slot. */
  function Sentinel(g: Geometry): int {
    SlotAddress(g, g.length + 1)
  }

  function NextPosition(g: Geometry, position: int): int {
    if position + 1 >= g.length then 0 else position + 1
  }

  /** The availability test, with the wrap branch the source has. */
  predicate DataAvailable(g: Geometry, position: int, fpgaPointer: int) {
    var next := if position + 1 >= g.length + 1 then 0 else position + 1;
    SlotAddress(g, next) != fpgaPointer
  }

  /** Addresses 0..length+1 are pairwise distinct as 32-bit values, whatever the base and even if they wrap. */
  lemma SlotAddressInjective(g: Geometry, i: int, j: int)
    requires Fits(g) && 0 <= i <= g.length + 1 && 0 <= j <= g.length + 1
    ensures SlotAddress(g, i) == SlotAddress(g, j) <==> i == j
  {
    if i < j {
      SlotAddressApart(g, i, j);
    } else if j < i {
      SlotAddressApart(g, j, i);
    }
  }

  lemma SlotAddressApart(g: Geometry, i: int, j: int)
    requires Fits(g) && 0 <= i < j <= g.length + 1
    ensures SlotAddress(g, i) != SlotAddress(g, j)
  {
    var a, b := g.base + g.dataSize * j, g.base + g.dataSize * i;
    assert a - b == g.dataSize * (j - i);
    MulMonotone(g.dataSize, 1, j - i);
    MulMonotone(g.dataSize, j - i, g.length + 1);
    assert g.dataSize * (g.length + 2) == g.dataSize * (g.length + 1) + g.dataSize;
    Wrap32Separates(a, b);
  }

  /** The sentinel is not the start address of any slot, so the producer is never blocked by it. */
  lemma SentinelIsNoSlot(g: Geometry, slot: int)
    requires Fits(g) && 0 <= slot < g.length
    ensures Sentinel(g) != SlotAddress(g, slot)
  {
    SlotAddressInjective(g, g.length + 1, slot);
  }

  /** The test is inequality of the two parties' slots. */
  lemma TestComparesSlots(g: Geometry, position: int, slot: int)
    requires Fits(g) && 0 <= position < g.length && 0 <= slot < g.length
    ensures DataAvailable(g, position, SlotEnd(g, slot)) <==> slot != position
  {
    SlotAddressInjective(g, position + 1, slot + 1);
  }

  /** With any 32-bit register value that is the end address of a slot, the test says whether that is the consumer's. */
  lemma TestMeans(g: Geometry, position: int, slot: int, v: int)
    requires Fits(g) && 0 <= position < g.length && 0 <= slot < g.length
    requires -0x8000_0000 <= v < 0x8000_0000 && (v - (g.base + g.dataSize * (slot + 1))) % 0x1_0000_0000 == 0
    ensures DataAvailable(g, position, v) <==> slot != position
  {
    SlotAddressMeans(g, slot + 1, v);
    TestComparesSlots(g, position, slot);
  }

  /** The bytes [offset, offset + dataSize) handed out for two slots never overlap and lie inside the area. */
  lemma SlotBytesDisjoint(g: Geometry, i: int, j: int)
    requires Fits(g) && 0 <= i < j < g.length
    ensures 0 <= i * g.dataSize
    ensures i * g.dataSize + g.dataSize <= j * g.dataSize
    ensures j * g.dataSize + g.dataSize <= g.dataSize * g.length
  {
    MulMonotone(g.dataSize, 0, i);
    MulMonotone(g.dataSize, i + 1, j);
    MulMonotone(g.dataSize, j + 1, g.length);
  }
}

/** The memory-mapped FPGA registers, the ring buffer object over them, and the camera set-up. */
module SharedRing {
  import opened Machine
  import opened RingGeometry

  const CONTROL: nat := 0x00
  const BUFFER_ADDRESS: nat := 0x04
  const BUFFER_SIZE: nat := 0x08
  const BUFFER_FPGA_POINTER: nat := 0x0c
  const BUFFER_LINUX_POINTER: nat := 0x10
  const CAM_REGISTER_BYTES: nat := 32

  const BUFFER_LENGTH: nat := 8

  /** A bank of 32-bit registers addressed by byte offset. */
  class FPGARegisters {
    const words: array<int>

    ghost predicate Valid() {
      words.Length == CAM_REGISTER_BYTES / 4
    }

    ghost function Value(offset: nat): int
      requires Valid() && offset % 4 == 0 && offset < CAM_REGISTER_BYTES
      reads words
    {
      words[offset / 4]
    }

    constructor (size: nat)
      requires size == CAM_REGISTER_BYTES
      ensures Valid() && fresh(words)
    {
      words := new int[size / 4];
    }

    method GetRegisterValue(offset: nat) returns (value: int)
      requires Valid() && offset % 4 == 0 && offset < CAM_REGISTER_BYTES
      ensures value == Value(offset)
    {
      value := words[offset / 4];
    }

    method SetRegisterValue(offset: nat, value: int)
      requires Valid() && offset % 4 == 0 && offset < CAM_REGISTER_BYTES
      modifies words
      ensures words[..] == old(words[..])[offset / 4 := value]
    {
      words[offset / 4] := value;
    }
  }

  class SharedRingBuffer {
    const g: Geometry
    const registers: FPGARegisters
    var position: int

    ghost predicate Valid()
      reads this
    {
      Fits(g) && 0 <= position < g.length && registers.Valid()
    }

    constructor (base: int, dataSize: int, length: int, registers: FPGARegisters)
      requires Fits(Geometry(base, dataSize, length)) && registers.Valid()
      ensures Valid() && position == 0
      ensures this.g == Geometry(base, dataSize, length) && this.registers == registers
    {
      this.g := Geometry(base, dataSize, length);
      this.registers := registers;
      position := 0;
    }

    /** Offset in the mapped area of the slot the consumer is at; the whole slot is inside the area. */
    method Data() returns (offset: int)
      requires Valid()
      ensures offset == position * g.dataSize
      ensures 0 <= offset && offset + g.dataSize <= g.dataSize * g.length
    {
      offset := position * g.dataSize;
      MulMonotone(g.dataSize, 0, position);
      MulMonotone(g.dataSize, position + 1, g.length);
    }

    /** True exactly if the producer, seen through its pointer register, is not on the consumer's slot. */
    method NewDataAvailable() returns (available: bool)
      requires Valid()
      ensures available == DataAvailable(g, position, registers.Value(BUFFER_FPGA_POINTER))
      // the register at 0x0c is compared with the end of the consumer's slot
      ensures -0x8000_0000 <= registers.words[3] < 0x8000_0000 ==>
                (available <==> (registers.words[3] - (g.base + g.dataSize * (position + 1))) % 0x1_0000_0000 != 0)
      ensures forall slot :: 0 <= slot < g.length && registers.Value(BUFFER_FPGA_POINTER) == SlotEnd(g, slot)
                ==> (available <==> slot != position)
    {
      var fpgaPointer := registers.GetRegisterValue(BUFFER_FPGA_POINTER);
      var nextDataPosition := position + 1;
      if nextDataPosition >= g.length + 1 {
        nextDataPosition := 0;
      }
      available := SlotAddress(g, nextDataPosition) != fpgaPointer;
      if -0x8000_0000 <= fpgaPointer < 0x8000_0000 {
        SlotAddressMeans(g, position + 1, fpgaPointer);
      }
      forall slot | 0 <= slot < g.length && fpgaPointer == SlotEnd(g, slot)
        ensures available <==> slot != position
      {
        TestComparesSlots(g, position, slot);
      }
    }

    /** Steps to the next slot and publishes its 32-bit address in the register at 0x10; no other register changes. */
    method MovePointer()
      requires Valid()
      modifies `position, registers.words
      ensures Valid() && position == NextPosition(g, old(position))
      ensures position == if old(position) == g.length - 1 then 0 else old(position) + 1
      ensures -0x8000_0000 <= registers.words[4] < 0x8000_0000
      ensures (registers.words[4] - (g.base + g.dataSize * position)) % 0x1_0000_0000 == 0
      ensures registers.words[..] == old(registers.words[..])[4 := registers.words[4]]
      ensures registers.words[4] == SlotAddress(g, position)
    {
      position := position + 1;
      if position >= g.length {
        position := 0;
      }
      registers.SetRegisterValue(BUFFER_LINUX_POINTER, SlotAddress(g, position));
      SlotAddressMeans(g, position, SlotAddress(g, position));
    }
  }

  /** The camera: a register bank and an eight-image ring. */
  class MT9V034 {
    const registers: FPGARegisters
    const buffer: SharedRingBuffer

    constructor (base: int)
      ensures fresh(registers) && fresh(registers.words) && fresh(buffer)
      ensures registers.Valid() && buffer.Valid() && buffer.registers == registers
      ensures buffer.g == Geometry(base, IMAGE_SIZE, BUFFER_LENGTH) && buffer.position == 0
      ensures buffer.g.length == 8 && buffer.g.dataSize == 360960
      ensures registers.words[1] == base && registers.words[2] == 360960 * 8
      ensures -0x8000_0000 <= registers.words[4] < 0x8000_0000
      ensures (registers.words[4] - (base + 360960 * 9)) % 0x1_0000_0000 == 0
      ensures registers.Value(BUFFER_LINUX_POINTER) == Sentinel(buffer.g)
      // the sentinel blocks no slot
      ensures forall slot :: 0 <= slot < BUFFER_LENGTH ==> registers.Value(BUFFER_LINUX_POINTER) != SlotAddress(buffer.g, slot)
    {
      var bank := new FPGARegisters(CAM_REGISTER_BYTES);
      registers := bank;
      buffer := new SharedRingBuffer(base, IMAGE_SIZE, BUFFER_LENGTH, bank);
      new;
      registers.SetRegisterValue(BUFFER_ADDRESS, buffer.g.base);
      registers.SetRegisterValue(BUFFER_SIZE, IMAGE_SIZE * BUFFER_LENGTH);
      registers.SetRegisterValue(BUFFER_LINUX_POINTER, Wrap32(buffer.g.base + IMAGE_SIZE * (BUFFER_LENGTH + 1)));
      forall slot | 0 <= slot < BUFFER_LENGTH
        ensures Sentinel(buffer.g) != SlotAddress(buffer.g, slot)
      {
        SentinelIsNoSlot(buffer.g, slot);
      }
    }

    method PowerOff()
      requires registers.Valid()
      modifies registers.words
      ensures registers.words[..] == old(registers.words[..])[0 := 0]
    {
      registers.SetRegisterValue(CONTROL, 0x00);
    }
  }
}
