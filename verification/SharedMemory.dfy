/** The shared memory of the SLAM sensor server: one flagged region per camera, then IMU and configuration. */
module SharedMemoryLayout {
  import opened Machine

  const HEADER_SIZE: nat := 1

  /** A flag byte at `start`, then `size` data bytes. */
  datatype Region = Region(start: nat, size: nat) {
    function End(): nat {
      start + HEADER_SIZE + size
    }

    predicate Contains(a: int) {
      start <= a < End()
    }
  }

  function MemSpace(numCams: nat, imageSize: nat, imuSize: nat, configSize: nat): nat {
    (imageSize + 1) * numCams + imuSize + 1 + configSize + 1
  }

  function CamRegion(imageSize: nat, i: nat): Region {
    Region((imageSize + HEADER_SIZE) * i, imageSize)
  }

  /** All regions in address order: cameras, IMU, configuration. */
  function Regions(numCams: nat, imageSize: nat, imuSize: nat, configSize: nat): seq<Region> {
    seq(numCams, i requires 0 <= i < numCams => CamRegion(imageSize, i))
    + [Region((imageSize + HEADER_SIZE) * numCams, imuSize),
       Region((imageSize + HEADER_SIZE) * numCams + HEADER_SIZE + imuSize, configSize)]
  }

  /** Each region starts where the one before ends; together they are [0, space). */
  ghost predicate Tiles(rs: seq<Region>, space: nat) {
    && rs != []
    && rs[0].start == 0
    && (forall i :: 0 <= i < |rs| - 1 ==> rs[i + 1].start == rs[i].End())
    && rs[|rs| - 1].End() == space
  }

  /** The regions exactly tile the mapped space, for all numbers and sizes. */
  lemma RegionsTile(numCams: nat, imageSize: nat, imuSize: nat, configSize: nat)
    ensures Tiles(Regions(numCams, imageSize, imuSize, configSize), MemSpace(numCams, imageSize, imuSize, configSize))
  {
    var rs := Regions(numCams, imageSize, imuSize, configSize);
    forall i | 0 <= i < |rs| - 1
      ensures rs[i + 1].start == rs[i].End()
    {
      assert (imageSize + HEADER_SIZE) * (i + 1) == (imageSize + HEADER_SIZE) * i + imageSize + HEADER_SIZE;
    }
  }

  lemma TiledInOrder(rs: seq<Region>, space: nat, i: nat, j: nat)
    requires Tiles(rs, space) && i < j < |rs|
    ensures rs[i].End() <= rs[j].start
    decreases j
  {
    if i < j - 1 {
      TiledInOrder(rs, space, i, j - 1);
    }
  }

  lemma TilesInside(rs: seq<Region>, space: nat, i: nat)
    requires Tiles(rs, space) && i < |rs|
    ensures rs[i].End() <= space
  {
    if i < |rs| - 1 {
      TiledInOrder(rs, space, i, |rs| - 1);
    }
  }

  lemma FindRegion(rs: seq<Region>, space: nat, a: nat, n: nat) returns (i: nat)
    requires Tiles(rs, space) && n < |rs| && a < rs[n].End()
    ensures i < |rs| && rs[i].Contains(a)
    decreases n
  {
    if rs[n].start <= a {
      i := n;
    } else {
      i := FindRegion(rs, space, a, n - 1);
    }
  }

  /** Every address of the space lies in exactly one region. */
  lemma ExactlyOneRegion(rs: seq<Region>, space: nat, a: nat)
    requires Tiles(rs, space) && a < space
    ensures exists i :: 0 <= i < |rs| && rs[i].Contains(a) && forall j :: 0 <= j < |rs| && rs[j].Contains(a) ==> j == i
  {
    var i := FindRegion(rs, space, a, |rs| - 1);
    forall j | 0 <= j < |rs| && rs[j].Contains(a)
      ensures j == i
    {
      if i < j {
        TiledInOrder(rs, space, i, j);
      } else if j < i {
        TiledInOrder(rs, space, j, i);
      }
    }
  }

  // ----- what regions mean to their users -----

  /** Access through one region: setting its flag, or writing a byte of its data. */
  datatype Access = SetFlag(region: nat, value: bool) | WriteData(region: nat, offset: nat, byte: Byte)

  predicate InRange(rs: seq<Region>, op: Access) {
    op.region < |rs| && (op.WriteData? ==> op.offset < rs[op.region].size)
  }

  function ApplyAccess(rs: seq<Region>, space: nat, mem: Bytes, op: Access): (mem': Bytes)
    requires |mem| == space && InRange(rs, op) && rs[op.region].End() <= space
    ensures |mem'| == space
  {
    var r := rs[op.region];
    match op
    case SetFlag(_, value) => mem[r.start := if value then 1 else 0]
    case WriteData(_, offset, value) => mem[r.start + HEADER_SIZE + offset := value]
  }

  /** One region on its own: a flag and its data. */
  datatype Record = Record(flag: bool, data: Bytes)

  function View(rs: seq<Region>, space: nat, mem: Bytes, i: nat): Record
    requires |mem| == space && i < |rs| && rs[i].End() <= space
  {
    Record(mem[rs[i].start] != 0, mem[rs[i].start + HEADER_SIZE..rs[i].End()])
  }

  function ApplyRecord(r: Record, op: Access): Record {
    match op
    case SetFlag(_, value) => r.(flag := value)
    case WriteData(_, offset, value) => if offset < |r.data| then r.(data := r.data[offset := value]) else r
  }

  function ApplyRecords(r: Record, ops: seq<Access>, i: nat): Record
    decreases |ops|
  {
    if ops == [] then r
    else ApplyRecords(if ops[0].region == i then ApplyRecord(r, ops[0]) else r, ops[1..], i)
  }

  ghost predicate AllInRange(rs: seq<Region>, ops: seq<Access>) {
    forall op :: op in ops ==> InRange(rs, op)
  }

  ghost function ApplyAccesses(rs: seq<Region>, space: nat, mem: Bytes, ops: seq<Access>): (mem': Bytes)
    requires |mem| == space && Tiles(rs, space) && AllInRange(rs, ops)
    ensures |mem'| == space
    decreases |ops|
  {
    if ops == [] then mem
    else
      assert ops[0] in ops;
      TilesInside(rs, space, ops[0].region);
      assert forall op :: op in ops[1..] ==> op in ops;
      ApplyAccesses(rs, space, ApplyAccess(rs, space, mem, ops[0]), ops[1..])
  }

  lemma AccessIsLocal(rs: seq<Region>, space: nat, mem: Bytes, op: Access, i: nat)
    requires |mem| == space && Tiles(rs, space) && InRange(rs, op) && i < |rs|
    requires rs[op.region].End() <= space && rs[i].End() <= space
    ensures View(rs, space, ApplyAccess(rs, space, mem, op), i)
         == if op.region == i then ApplyRecord(View(rs, space, mem, i), op) else View(rs, space, mem, i)
  {
    if op.region < i {
      TiledInOrder(rs, space, op.region, i);
    } else if i < op.region {
      TiledInOrder(rs, space, i, op.region);
    }
  }

  ghost function TiledView(rs: seq<Region>, space: nat, mem: Bytes, i: nat): Record
    requires |mem| == space && Tiles(rs, space) && i < |rs|
  {
    TilesInside(rs, space, i);
    View(rs, space, mem, i)
  }

  /**
   * Non-interference: over any sequence of flag sets and data writes through all regions, each region behaves as a
   * separate record that sees only its own accesses, and its data never touches its flag.
   */
  lemma {:induction false} RegionsAreSeparateRecords(rs: seq<Region>, space: nat, mem: Bytes, ops: seq<Access>, i: nat)
    requires |mem| == space && Tiles(rs, space) && AllInRange(rs, ops) && i < |rs|
    ensures TiledView(rs, space, ApplyAccesses(rs, space, mem, ops), i) == ApplyRecords(TiledView(rs, space, mem, i), ops, i)
    decreases |ops|
  {
    if ops != [] {
      assert ops[0] in ops;
      assert forall op :: op in ops[1..] ==> op in ops;
      TilesInside(rs, space, ops[0].region);
      TilesInside(rs, space, i);
      AccessIsLocal(rs, space, mem, ops[0], i);
      RegionsAreSeparateRecords(rs, space, ApplyAccess(rs, space, mem, ops[0]), ops[1..], i);
    }
  }

  // ----- the objects -----

  class SharedMemory {
    const mem: array<Byte>
    const addr: nat
    const size: nat

    ghost predicate Valid() {
      Layout().End() <= mem.Length
    }

    function Layout(): Region {
      Region(addr, size)
    }

    constructor (mem: array<Byte>, addr: nat, size: nat)
      requires addr + HEADER_SIZE + size <= mem.Length
      ensures Valid() && this.mem == mem && Layout() == Region(addr, size)
    {
      this.mem, this.addr, this.size := mem, addr, size;
    }

    /** Offset of the data: behind the flag byte, and followed by all of it. */
    method Data() returns (at: nat)
      requires Valid()
      ensures at == addr + 1 && at + size == Layout().End() <= mem.Length
    {
      at := addr + HEADER_SIZE;
    }

    method NewDataAvailable() returns (flag: bool)
      requires Valid()
      ensures flag == View([Layout()], mem.Length, mem[..], 0).flag == (mem[addr] != 0)
    {
      flag := mem[addr] != 0;
    }

    method SetNewDataAvailable(value: bool)
      requires Valid()
      modifies mem
      ensures mem[..] == ApplyAccess([Layout()], mem.Length, old(mem[..]), SetFlag(0, value))
      ensures mem[..] == old(mem[..])[addr := if value then 1 else 0]
    {
      mem[addr] := if value then 1 else 0;
    }
  }

  class SharedMemoryManager {
    const mem: array<Byte>
    const numCams: nat
    var cams: seq<SharedMemory>
    var imu: SharedMemory
    var config: SharedMemory

    /**
     * The regions handed out: one of imageSize bytes per camera, then the IMU's, then the configuration's, each behind its
     * flag byte. They are those of the layout, and so tile the mapped memory.
     */
    constructor (numCams: nat, imageSize: nat, imuSize: nat, configSize: nat)
      ensures this.numCams == numCams && |cams| == numCams
      ensures mem.Length == MemSpace(numCams, imageSize, imuSize, configSize)
      ensures mem.Length == (imageSize + 1) * numCams + (imuSize + 1) + (configSize + 1)
      ensures forall i :: 0 <= i < |cams| ==> cams[i].addr == (imageSize + 1) * i && cams[i].size == imageSize
      ensures imu.addr == (imageSize + 1) * numCams && imu.size == imuSize
      ensures config.addr == imu.addr + 1 + imuSize && config.size == configSize
      ensures forall i :: 0 <= i < |cams| ==> cams[i].Valid() && cams[i].mem == mem
      ensures imu.Valid() && imu.mem == mem && config.Valid() && config.mem == mem
      ensures Regions(numCams, imageSize, imuSize, configSize)
           == seq(|cams|, i requires 0 <= i < |cams| reads this => cams[i].Layout()) + [imu.Layout(), config.Layout()]
      ensures Tiles(Regions(numCams, imageSize, imuSize, configSize), mem.Length)
    {
      var space := (imageSize + 1) * numCams + imuSize + 1 + configSize + 1;
      var area := new Byte[space];
      RegionsTile(numCams, imageSize, imuSize, configSize);
      ghost var rs := Regions(numCams, imageSize, imuSize, configSize);
      TilesInside(rs, space, numCams);
      var pushed := NewCams(area, numCams, imageSize);
      var first := new SharedMemory(area, (imageSize + HEADER_SIZE) * numCams, imuSize);
      var at := first.Data();
      var second := new SharedMemory(area, at + first.size, configSize);
      this.numCams, mem, cams, imu, config := numCams, area, pushed, first, second;
    }

    static method NewCams(area: array<Byte>, numCams: nat, imageSize: nat) returns (pushed: seq<SharedMemory>)
      requires (imageSize + 1) * numCams <= area.Length
      ensures |pushed| == numCams
      ensures forall k :: 0 <= k < numCams ==> pushed[k].Valid() && pushed[k].mem == area
      ensures forall k :: 0 <= k < numCams ==> pushed[k].addr == (imageSize + 1) * k && pushed[k].size == imageSize
    {
      pushed := [];
      for i := 0 to numCams
        invariant |pushed| == i
        invariant forall k :: 0 <= k < i ==> pushed[k].Valid() && pushed[k].mem == area
        invariant forall k :: 0 <= k < i ==> pushed[k].addr == (imageSize + 1) * k && pushed[k].size == imageSize
      {
        MulMonotone(imageSize + 1, i + 1, numCams);
        var cam := new SharedMemory(area, (imageSize + HEADER_SIZE) * i, imageSize);
        pushed := pushed + [cam];
      }
    }
  }
}
