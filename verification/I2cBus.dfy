/** FIFO words of the AXI IIC controller, and the camera's register file as those words drive it. */
module I2cWords {
  import opened Machine

  type UInt16 = x: int | 0 <= x < 0x1_0000

  type Int16 = x: int | -0x8000 <= x < 0x8000

  /** One TX_FIFO entry: a byte, the start bit (1 << 8) and the stop bit (1 << 9). */
  datatype Word = Word(byte: Byte, start: bool, stop: bool)

  const DEVICE_ADDRESS: int := 0x48

  function HighByte(v: Int16): Byte {
    v % 0x1_0000 / 0x100
  }

  function LowByte(v: Int16): Byte {
    v % 0x100
  }

  /** lo | hi << 8, stored into an int16_t. */
  function Join(hi: Byte, lo: Byte): Int16 {
    Wrap16(hi as int * 0x100 + lo as int)
  }

  function WriteWords(reg: Byte, data: Int16): seq<Word> {
    [Word(DEVICE_ADDRESS * 2, true, false), Word(reg, false, false),
     Word(HighByte(data), false, false), Word(LowByte(data), false, true)]
  }

  function ReadWords(reg: Byte): seq<Word> {
    [Word(DEVICE_ADDRESS * 2, true, false), Word(reg, false, false),
     Word(DEVICE_ADDRESS * 2 + 1, true, false), Word(2, false, true)]
  }

  // ----- the slave behind the controller -----

  /** What the next word means to the slave, given the words since the last start. */
  datatype Mode = Unaddressed | WantRegister | WantHigh | WantLow(hi: Byte) | WantCount

  /** 256 registers of 16 bits and the register pointer, which survives a repeated start. */
  datatype Device = Device(regs: seq<UInt16>, pointer: Byte, mode: Mode)

  datatype Result = Result(device: Device, received: Bytes)

  predicate HasRegisters(d: Device) {
    |d.regs| == 256
  }

  /** The bytes a read of n bytes returns, high byte of the addressed register first. */
  function ReadBytes(regs: seq<UInt16>, reg: Byte, n: Byte): Bytes
    requires |regs| == 256
  {
    seq(n, i requires 0 <= i < n =>
          var r := regs[(reg as int + i / 2) % 256];
          if i % 2 == 0 then r / 0x100 else r % 0x100)
  }

  /** What a word does to the slave, apart from its stop bit. Bytes go on to the next register, as reads do. */
  function Effect(d: Device, w: Word): (r: Result)
    requires HasRegisters(d)
    ensures HasRegisters(r.device)
  {
    if w.start then
      Result(d.(mode := if w.byte / 2 != DEVICE_ADDRESS then Unaddressed
                        else if w.byte % 2 == 0 then WantRegister else WantCount), [])
    else
      match d.mode
      case Unaddressed => Result(d, [])
      case WantRegister => Result(d.(pointer := w.byte, mode := WantHigh), [])
      case WantHigh => Result(d.(mode := WantLow(w.byte)), [])
      case WantLow(hi) =>
        Result(d.(regs := d.regs[d.pointer := hi as int * 0x100 + w.byte as int],
                  pointer := (d.pointer as int + 1) % 256, mode := WantHigh), [])
      case WantCount => Result(d, ReadBytes(d.regs, d.pointer, w.byte))
  }

  /** A start addresses the slave (7 address bits, then R/W: section 3.1.10 of UM10204), a stop ends the transaction. */
  function Step(d: Device, w: Word): (r: Result)
    requires HasRegisters(d)
    ensures HasRegisters(r.device)
  {
    var r := Effect(d, w);
    if w.stop then Result(r.device.(mode := Unaddressed), r.received) else r
  }

  function Play(d: Device, ws: seq<Word>): (r: Result)
    requires HasRegisters(d)
    ensures HasRegisters(r.device)
    decreases |ws|
  {
    if ws == [] then Result(d, [])
    else
      var first := Step(d, ws[0]);
      var later := Play(first.device, ws[1..]);
      Result(later.device, first.received + later.received)
  }

  lemma {:induction false} PlayConcat(d: Device, a: seq<Word>, b: seq<Word>)
    requires HasRegisters(d)
    ensures Play(d, a + b) == Result(Play(Play(d, a).device, b).device, Play(d, a).received + Play(Play(d, a).device, b).received)
    decreases |a|
  {
    if a == [] {
      assert a + b == b;
    } else {
      assert (a + b)[1..] == a[1..] + b;
      PlayConcat(Step(d, a[0]).device, a[1..], b);
    }
  }

  lemma ByteSplit(v: Int16)
    ensures HighByte(v) as int * 0x100 + LowByte(v) as int == v % 0x1_0000
    ensures Join(HighByte(v), LowByte(v)) == v
  {
  }

  lemma {:induction false} PlayOne(d: Device, w: Word, ws: seq<Word>)
    requires HasRegisters(d)
    ensures Play(d, [w] + ws)
         == Result(Play(Step(d, w).device, ws).device, Step(d, w).received + Play(Step(d, w).device, ws).received)
  {
    assert ([w] + ws)[1..] == ws;
  }

  lemma {:induction false} PlayFour(d: Device, ws: seq<Word>)
    requires HasRegisters(d) && |ws| == 4
    ensures var r1 := Step(d, ws[0]);
            var r2 := Step(r1.device, ws[1]);
            var r3 := Step(r2.device, ws[2]);
            var r4 := Step(r3.device, ws[3]);
            Play(d, ws) == Result(r4.device, r1.received + (r2.received + (r3.received + r4.received)))
  {
    var d1 := Step(d, ws[0]).device;
    var d2 := Step(d1, ws[1]).device;
    var d3 := Step(d2, ws[2]).device;
    assert ws == [ws[0]] + ws[1..] && ws[1..] == [ws[1]] + ws[2..] && ws[2..] == [ws[2]] + ws[3..] && ws[3..] == [ws[3]] + [];
    PlayOne(d, ws[0], ws[1..]);
    PlayOne(d1, ws[1], ws[2..]);
    PlayOne(d2, ws[2], ws[3..]);
    PlayOne(d3, ws[3], []);
  }

  /**
   * The words of the two calls, in the values written to TX_FIFO: the address with its start bit, the register, and the
   * data high byte first, or the address again for reading and the number of bytes. The stop bit is on the last only.
   */
  lemma WordsOnTheBus(reg: Byte, data: Int16)
    ensures WriteWords(reg, data) == [Word(0x90, true, false), Word(reg, false, false),
                                      Word(data % 0x1_0000 / 0x100, false, false), Word(data % 0x100, false, true)]
    ensures ReadWords(reg) == [Word(0x90, true, false), Word(reg, false, false),
                               Word(0x91, true, false), Word(2, false, true)]
  {
  }

  /** The first n words of a call. */
  lemma PlayFirst(d: Device, ws: seq<Word>, n: nat)
    requires HasRegisters(d) && 0 < n <= |ws|
    ensures Play(d, ws[..n]).device == Step(Play(d, ws[..n - 1]).device, ws[n - 1]).device
  {
    assert ws[..n] == ws[..n - 1] + [ws[n - 1]];
    PlayConcat(d, ws[..n - 1], [ws[n - 1]]);
    assert [ws[n - 1]][1..] == [];
  }

  /** The two bytes of a register joined are its value as a signed number. */
  lemma JoinBytes(v: UInt16)
    ensures Join(v / 0x100, v % 0x100) == Wrap16(v) && (Wrap16(v) - v) % 0x1_0000 == 0
  {
  }

  /** What the slave waits for after the first n words of a write. */
  lemma DuringWrite(d: Device, reg: Byte, data: Int16, n: nat)
    requires HasRegisters(d) && 0 < n <= 4
    ensures Play(d, WriteWords(reg, data)[..n]).device.mode ==
            if n == 1 then WantRegister else if n == 2 then WantHigh
            else if n == 3 then WantLow(HighByte(data)) else Unaddressed
  {
    PlayFirst(d, WriteWords(reg, data), n);
    if n > 1 {
      DuringWrite(d, reg, data, n - 1);
    }
  }

  lemma DuringRead(d: Device, reg: Byte, n: nat)
    requires HasRegisters(d) && 0 < n <= 4
    ensures Play(d, ReadWords(reg)[..n]).device.mode ==
            if n == 1 then WantRegister else if n == 2 then WantHigh else if n == 3 then WantCount else Unaddressed
  {
    PlayFirst(d, ReadWords(reg), n);
    if n > 1 {
      DuringRead(d, reg, n - 1);
    }
  }

  /** The slave is addressed from the first word of a call on until its last: a transaction ends only at its stop word. */
  lemma CallEndsAtStop(d: Device, reg: Byte, data: Int16, n: nat)
    requires HasRegisters(d) && 0 < n <= 4
    ensures Play(d, WriteWords(reg, data)[..n]).device.mode.Unaddressed? <==> n == 4
    ensures Play(d, ReadWords(reg)[..n]).device.mode.Unaddressed? <==> n == 4
  {
    DuringWrite(d, reg, data, n);
    DuringRead(d, reg, n);
  }

  lemma {:induction false} PlayWrite(d: Device, reg: Byte, data: Int16)
    requires HasRegisters(d)
    ensures Play(d, WriteWords(reg, data)).device.regs == d.regs[reg := data % 0x1_0000]
    ensures Play(d, WriteWords(reg, data)).received == []
  {
    PlayFour(d, WriteWords(reg, data));
    ByteSplit(data);
  }

  lemma {:induction false} PlayRead(d: Device, reg: Byte)
    requires HasRegisters(d)
    ensures Play(d, ReadWords(reg)).device.regs == d.regs
    ensures Play(d, ReadWords(reg)).received == [d.regs[reg] / 0x100, d.regs[reg] % 0x100]
  {
    PlayFour(d, ReadWords(reg));
    TwoBytes(d.regs, reg);
  }

  lemma TwoBytes(regs: seq<UInt16>, reg: Byte)
    requires |regs| == 256
    ensures ReadBytes(regs, reg, 2) == [regs[reg] / 0x100, regs[reg] % 0x100]
  {
  }

  /** For every 16-bit value, negative ones included: reading after writing returns it, and only it changed. */
  lemma {:induction false} WriteThenRead(d: Device, reg: Byte, data: Int16)
    requires HasRegisters(d)
    ensures var r := Play(d, WriteWords(reg, data) + ReadWords(reg));
            && |r.received| == 2 && Join(r.received[0], r.received[1]) == data
            && forall k :: 0 <= k < 256 && k != reg ==> r.device.regs[k] == d.regs[k]
  {
    PlayConcat(d, WriteWords(reg, data), ReadWords(reg));
    PlayWrite(d, reg, data);
    var d' := Play(d, WriteWords(reg, data)).device;
    PlayRead(d', reg);
    ByteSplit(data);
    assert d'.regs[reg] == data % 0x1_0000;
    assert Play(d, WriteWords(reg, data) + ReadWords(reg)).received == [HighByte(data), LowByte(data)];
  }

  // ----- any number of transactions -----

  datatype Call = WriteReg(reg: Byte, data: Int16) | ReadReg(reg: Byte)

  function CallWords(call: Call): seq<Word> {
    match call
    case WriteReg(reg, data) => WriteWords(reg, data)
    case ReadReg(reg) => ReadWords(reg)
  }

  function Words(calls: seq<Call>): seq<Word> {
    if calls == [] then [] else CallWords(calls[0]) + Words(calls[1..])
  }

  /** A plain register file: the simple object the transactions stand for. */
  function FileAfter(regs: seq<UInt16>, calls: seq<Call>): (after: seq<UInt16>)
    requires |regs| == 256
    ensures |after| == 256
    decreases |calls|
  {
    if calls == [] then regs
    else FileAfter(if calls[0].WriteReg? then regs[calls[0].reg := calls[0].data % 0x1_0000] else regs, calls[1..])
  }

  function ValuesRead(regs: seq<UInt16>, calls: seq<Call>): seq<UInt16>
    requires |regs| == 256
    decreases |calls|
  {
    if calls == [] then []
    else
      match calls[0]
      case WriteReg(reg, data) => ValuesRead(regs[reg := data % 0x1_0000], calls[1..])
      case ReadReg(reg) => [regs[reg]] + ValuesRead(regs, calls[1..])
  }

  lemma {:induction false} FileSnoc(regs: seq<UInt16>, calls: seq<Call>, c: Call)
    requires |regs| == 256
    ensures var after := FileAfter(regs, calls);
            && FileAfter(regs, calls + [c]) == (if c.WriteReg? then after[c.reg := c.data % 0x1_0000] else after)
            && ValuesRead(regs, calls + [c]) == ValuesRead(regs, calls) + (if c.ReadReg? then [after[c.reg]] else [])
    decreases |calls|
  {
    if calls == [] {
      assert [c][1..] == [];
    } else {
      assert (calls + [c])[1..] == calls[1..] + [c];
      FileSnoc(if calls[0].WriteReg? then regs[calls[0].reg := calls[0].data % 0x1_0000] else regs, calls[1..], c);
    }
  }

  /** The calls that got as far as the bus. */
  function Through(calls: seq<Call>, statuses: seq<int>): seq<Call>
    requires |statuses| == |calls|
  {
    if calls == [] then []
    else
      var n := |calls| - 1;
      Through(calls[..n], statuses[..n]) + (if statuses[n] == 0 then [calls[n]] else [])
  }

  /** Register values as the int16_t the driver returns. */
  function Signed(values: seq<UInt16>): seq<Int16> {
    seq(|values|, i requires 0 <= i < |values| => Wrap16(values[i]))
  }

  function BytesOf(values: seq<UInt16>): Bytes {
    if values == [] then [] else [values[0] / 0x100, values[0] % 0x100] + BytesOf(values[1..])
  }

  /** Any sequence of transactions drives the device as reads and writes of a plain register file. */
  lemma {:induction false} TransactionsRefineRegisterFile(d: Device, calls: seq<Call>)
    requires HasRegisters(d)
    ensures Play(d, Words(calls)).device.regs == FileAfter(d.regs, calls)
    ensures Play(d, Words(calls)).received == BytesOf(ValuesRead(d.regs, calls))
    decreases |calls|
  {
    if calls != [] {
      match calls[0]
      case WriteReg(reg, data) =>
        PlayConcat(d, WriteWords(reg, data), Words(calls[1..]));
        PlayWrite(d, reg, data);
        TransactionsRefineRegisterFile(Play(d, WriteWords(reg, data)).device, calls[1..]);
      case ReadReg(reg) =>
        PlayConcat(d, ReadWords(reg), Words(calls[1..]));
        PlayRead(d, reg);
        TransactionsRefineRegisterFile(Play(d, ReadWords(reg)).device, calls[1..]);
        var v := d.regs[reg];
        assert ([v] + ValuesRead(d.regs, calls[1..]))[1..] == ValuesRead(d.regs, calls[1..]);
    }
  }
}

/** writeReg and readReg over the controller's FIFOs, with the controller running on its own in between. */
module I2cBus {
  import opened Machine
  import opened I2cWords

  const POLLS: nat := 10

  /**
   * The controller: before its k-th access it could have taken taken(k) words from TX_FIFO in all, and have stored stored(k)
   * received bytes; whether the bus is busy at it, and what an empty RX_FIFO reads as. All arbitrary.
   */
  datatype Hardware = Hardware(taken: nat -> nat, stored: nat -> nat, busy: nat -> bool, noise: nat -> Byte)

  /** What a count grows by at its k-th access. */
  function Growth(count: nat -> nat, k: nat): nat {
    if count(k + 1) > count(k) then count(k + 1) - count(k) else 0
  }

  /** Every pace is that of some controller: the environment is not restricted further. */
  lemma {:induction false} EveryPacePossible(pace: nat -> nat, k: nat)
    ensures Growth(n => Total(pace, n), k) == pace(k)
  {
  }

  function Total(pace: nat -> nat, n: nat): nat {
    if n == 0 then 0 else Total(pace, n - 1) + pace(n - 1)
  }

  /** In any ten accesses in a row the controller takes four words, and stores a byte if it has one. */
  ghost predicate Prompt(h: Hardware) {
    forall k: nat :: h.taken(k + 10) >= h.taken(k) + 4 && h.stored(k + 10) > h.stored(k)
  }

  /** In ten accesses from c0 on, and in the 21 of a failing wait, the controller takes fewer than the words queued. */
  ghost predicate TakesTooFew(h: Hardware, c0: nat, queued: nat) {
    h.taken(c0 + 10) < h.taken(c0) + queued && h.taken(c0 + 21) < h.taken(c0) + queued
  }

  /** In ten accesses from c0 on it does not take all words queued, or in the next eleven it stores nothing. */
  ghost predicate StoresTooLate(h: Hardware, c0: nat, queued: nat) {
    h.taken(c0 + 10) < h.taken(c0) + queued
    || (h.stored(c0 + 20) <= h.stored(c0 + 10) && h.stored(c0 + 21) <= h.stored(c0 + 10))
  }

  lemma PromptIsInTime(h: Hardware, c0: nat, queued: nat)
    requires Prompt(h) && queued <= 4
    ensures !TakesTooFew(h, c0, queued) && !StoresTooLate(h, c0, queued)
  {
    assert h.taken(c0 + 10) >= h.taken(c0) + 4;
    var c1 := c0 + 10;
    assert h.stored(c1 + 10) > h.stored(c1);
  }

  /**
   * A wait that began at access c0 with `queued` words in TX_FIFO and is now at `clock` with `left` of them. As long as the
   * byte waited for is not in RX_FIFO, nothing was stored once the words were taken.
   */
  ghost predicate Watch(h: Hardware, c0: nat, queued: nat, clock: nat, left: nat, waiting: bool) {
    && c0 <= clock
    && (left == 0 || left + h.taken(clock) <= queued + h.taken(c0))
    && (h.taken(c0 + 10) >= h.taken(c0) + queued && c0 + 10 <= clock ==>
          left == 0 && (waiting ==> h.stored(clock) <= h.stored(c0 + 10)
                                    && (c0 + 20 <= clock ==> h.stored(c0 + 20) <= h.stored(c0 + 10))))
  }

  lemma WatchTick(h: Hardware, c0: nat, queued: nat, clock: nat, left: nat, waiting: bool, left': nat, waiting': bool)
    requires Watch(h, c0, queued, clock, left, waiting)
    requires left' == left - Min(Growth(h.taken, clock), left) && (waiting' ==> waiting)
    requires left' == 0 && waiting' ==> Growth(h.stored, clock) == 0
    ensures Watch(h, c0, queued, clock + 1, left', waiting')
  {
  }

  lemma WatchEnds(h: Hardware, c0: nat, queued: nat, clock: nat, left: nat, waiting: bool)
    requires Watch(h, c0, queued, clock, left, waiting) && clock == c0 + 21
    ensures left != 0 ==> TakesTooFew(h, c0, queued)
    ensures waiting ==> StoresTooLate(h, c0, queued)
  {
  }

  predicate Suffix(a: seq<Word>, b: seq<Word>) {
    |a| <= |b| && a == b[|b| - |a|..]
  }

  /** Taking n words off the queue changes neither the device's final state nor the bytes still to come. */
  lemma {:induction false} TakeWords(d: Device, tx: seq<Word>, n: nat)
    requires HasRegisters(d) && n <= |tx|
    ensures var r := Play(d, tx[..n]);
            Play(d, tx) == Result(Play(r.device, tx[n..]).device, r.received + Play(r.device, tx[n..]).received)
  {
    var taken, left := tx[..n], tx[n..];
    assert tx == taken + left;
    PlayConcat(d, taken, left);
  }

  lemma {:induction false} ThroughSnoc(calls: seq<Call>, i: nat, statuses: seq<int>, status: int)
    requires i < |calls| && |statuses| == i
    ensures Through(calls[..i + 1], statuses + [status])
         == Through(calls[..i], statuses) + (if status == 0 then [calls[i]] else [])
  {
    assert calls[..i + 1][..i] == calls[..i] && (statuses + [status])[..i] == statuses;
  }

  /** One more call, on the specification's side. */
  lemma {:induction false} RunStep(regs: seq<UInt16>, calls: seq<Call>, i: nat, statuses: seq<int>, status: int,
                                   values: seq<Int16>, value: seq<Int16>)
    requires |regs| == 256 && i < |calls| && |statuses| == i
    ensures var now := FileAfter(regs, Through(calls[..i], statuses));
            FileAfter(regs, Through(calls[..i + 1], statuses + [status])) ==
            if status == 0 && calls[i].WriteReg? then now[calls[i].reg := calls[i].data % 0x1_0000] else now
    ensures var now := FileAfter(regs, Through(calls[..i], statuses));
            && values == Signed(ValuesRead(regs, Through(calls[..i], statuses)))
            && value == (if status == 0 && calls[i].ReadReg? then [Wrap16(now[calls[i].reg])] else [])
            ==> values + value == Signed(ValuesRead(regs, Through(calls[..i + 1], statuses + [status])))
  {
    var before := Through(calls[..i], statuses);
    ThroughSnoc(calls, i, statuses, status);
    FileSnoc(regs, before, calls[i]);
    if status != 0 {
      assert before + [] == before;
    }
  }

  lemma {:induction false} WordsSnoc(calls: seq<Call>, c: Call)
    ensures Words(calls + [c]) == Words(calls) + CallWords(c)
  {
    if calls == [] {
      assert [c][1..] == [];
    } else {
      assert (calls + [c])[1..] == calls[1..] + [c];
      WordsSnoc(calls[1..], c);
      ConcatAssoc(CallWords(calls[0]), Words(calls[1..]), CallWords(c));
    }
  }

  lemma OneMoreThrough(calls: seq<Call>, i: nat, statuses: seq<int>, status: int)
    requires i < |calls| && |statuses| == i
    ensures Words(Through(calls[..i + 1], statuses + [status])) ==
            Words(Through(calls[..i], statuses)) + if status == 0 then CallWords(calls[i]) else []
  {
    ThroughSnoc(calls, i, statuses, status);
    WordsSnoc(Through(calls[..i], statuses), calls[i]);
    var before := Through(calls[..i], statuses);
    assert before + [] == before && Words(before) + [] == Words(before);
  }

  predicate AllZero(statuses: seq<int>) {
    forall k :: 0 <= k < |statuses| ==> statuses[k] == 0
  }

  lemma {:induction false} AllThrough(calls: seq<Call>, statuses: seq<int>)
    requires |statuses| == |calls| && AllZero(statuses)
    ensures Through(calls, statuses) == calls
  {
    if calls != [] {
      var n := |calls| - 1;
      AllThrough(calls[..n], statuses[..n]);
      assert calls == calls[..n] + [calls[n]];
    }
  }

  /** The first i calls have been made: what they left in the registers, and the words they pushed. */
  ghost predicate Ran(regs: seq<UInt16>, calls: seq<Call>, i: nat, statuses: seq<int>, now: seq<UInt16>, words: seq<Word>) {
    && |regs| == 256 && i <= |calls| && |statuses| == i
    && (forall k :: 0 <= k < i ==> statuses[k] == 0 || statuses[k] == 1)
    && now == FileAfter(regs, Through(calls[..i], statuses))
    && words == Words(Through(calls[..i], statuses))
  }

  ghost function ValuesSoFar(regs: seq<UInt16>, calls: seq<Call>, i: nat, statuses: seq<int>): seq<Int16>
    requires |regs| == 256 && i <= |calls| && |statuses| == i
  {
    Signed(ValuesRead(regs, Through(calls[..i], statuses)))
  }

  lemma RanOneMore(regs: seq<UInt16>, calls: seq<Call>, i: nat, statuses: seq<int>, now: seq<UInt16>, words: seq<Word>,
                   status: int, after: seq<UInt16>, added: seq<Word>)
    requires i < |calls| && (status == 0 || status == 1) && |now| == 256 && Ran(regs, calls, i, statuses, now, words)
    requires after == if status == 0 && calls[i].WriteReg? then now[calls[i].reg := calls[i].data % 0x1_0000] else now
    requires added == if status == 0 then CallWords(calls[i]) else []
    ensures Ran(regs, calls, i + 1, statuses + [status], after, words + added)
  {
    RunStep(regs, calls, i, statuses, status, [], []);
    OneMoreThrough(calls, i, statuses, status);
  }

  lemma ValuesOneMore(regs: seq<UInt16>, calls: seq<Call>, i: nat, statuses: seq<int>, now: seq<UInt16>, words: seq<Word>,
                      status: int, value: seq<Int16>)
    requires i < |calls| && |now| == 256 && Ran(regs, calls, i, statuses, now, words)
    requires value == if status == 0 && calls[i].ReadReg? then [Wrap16(now[calls[i].reg])] else []
    ensures ValuesSoFar(regs, calls, i, statuses) + value == ValuesSoFar(regs, calls, i + 1, statuses + [status])
  {
    RunStep(regs, calls, i, statuses, status, ValuesSoFar(regs, calls, i, statuses), value);
  }

  lemma Regroup(rx: Bytes, wire: Bytes, got: Bytes, later: Bytes, m: nat)
    requires m <= |wire + got|
    ensures rx + (wire + (got + later)) == (rx + (wire + got)[..m]) + ((wire + got)[m..] + later)
  {
  }

  class I2CBusRaw {
    const hardware: Hardware
    var clock: nat
    var tx: seq<Word>
    var rx: Bytes
    // bytes the slave has sent that are not in RX_FIFO yet, and the slave
    var wire: Bytes
    var device: Device
    // history: the deepest TX_FIFO fill, the number of sleeps, and every word pushed
    ghost var deepest: nat
    ghost var slept: nat
    ghost var pushed: seq<Word>

    ghost predicate Valid()
      reads this
    {
      HasRegisters(device) && |tx| <= deepest <= 4
    }

    /** Where device and receive stream end up once the queued words have been taken. */
    ghost function Settled(): Result
      requires Valid()
      reads this
    {
      Result(Play(device, tx).device, rx + (wire + Play(device, tx).received))
    }

    constructor (hardware: Hardware, device: Device)
      requires HasRegisters(device)
      ensures Valid() && Settled() == Result(device, []) && tx == []
      ensures this.hardware == hardware && pushed == []
    {
      this.hardware := hardware;
      clock, tx, rx, wire, this.device := 0, [], [], [], device;
      deepest, slept, pushed := 0, 0, [];
    }

    /** The controller runs: it only drains TX_FIFO, in order, and stores what the slave has sent. */
    method Tick()
      requires Valid()
      modifies this
      ensures Valid() && Settled() == old(Settled())
      ensures Suffix(tx, old(tx)) && old(rx) <= rx
      ensures deepest == old(deepest) && slept == old(slept) && pushed == old(pushed)
      ensures clock == old(clock) + 1 && |tx| == |old(tx)| - Min(Growth(hardware.taken, old(clock)), |old(tx)|)
      ensures tx == [] && rx == [] && Settled().received != [] ==> Growth(hardware.stored, old(clock)) == 0
    {
      var n := Min(Growth(hardware.taken, clock), |tx|);
      var r := Play(device, tx[..n]);
      TakeWords(device, tx, n);
      var coming := wire + r.received;
      var m := Min(Growth(hardware.stored, clock), |coming|);
      Regroup(rx, wire, r.received, Play(r.device, tx[n..]).received, m);
      device, tx := r.device, tx[n..];
      rx, wire := rx + coming[..m], coming[m..];
      clock := clock + 1;
    }

    /** A byte is to come and RX_FIFO is empty. */
    ghost predicate Waiting()
      requires Valid()
      reads this
    {
      rx == [] && Settled().received != []
    }

    /** A wait that began at access c0 with `queued` words in TX_FIFO is going on. */
    ghost predicate Watched(c0: nat, queued: nat)
      requires Valid()
      reads this
    {
      Watch(hardware, c0, queued, clock, |tx|, Waiting())
    }

    /** Bits 7, 2 and 6 of the status register. */
    method ReadStatus(ghost c0: nat, ghost queued: nat) returns (txEmpty: bool, busy: bool, rxEmpty: bool)
      requires Valid() && Watched(c0, queued)
      modifies this
      ensures Valid() && Settled() == old(Settled())
      ensures Suffix(tx, old(tx)) && old(rx) <= rx
      ensures deepest == old(deepest) && slept == old(slept) && pushed == old(pushed)
      ensures clock == old(clock) + 1 && Watched(c0, queued)
      ensures txEmpty == (tx == []) && busy == hardware.busy(clock) && rxEmpty == (rx == [])
    {
      ghost var left, waiting := |tx|, Waiting();
      Tick();
      WatchTick(hardware, c0, queued, clock - 1, left, waiting, |tx|, Waiting());
      txEmpty, busy, rxEmpty := tx == [], hardware.busy(clock), rx == [];
    }

    method Sleep(ghost c0: nat, ghost queued: nat)
      requires Valid() && Watched(c0, queued)
      modifies this
      ensures Valid() && Settled() == old(Settled())
      ensures Suffix(tx, old(tx)) && old(rx) <= rx
      ensures deepest == old(deepest) && slept == old(slept) + 1 && pushed == old(pushed)
      ensures clock == old(clock) + 1 && Watched(c0, queued)
    {
      ghost var left, waiting := |tx|, Waiting();
      Tick();
      WatchTick(hardware, c0, queued, clock - 1, left, waiting, |tx|, Waiting());
      slept := slept + 1;
    }

    method Push(w: Word)
      requires Valid() && |tx| < 4
      modifies this
      ensures Valid() && |tx| <= |old(tx)| + 1 && slept == old(slept) && pushed == old(pushed) + [w]
      ensures clock == old(clock) + 1
      ensures Settled().device == Step(old(Settled()).device, w).device
      ensures Settled().received == old(Settled()).received + Step(old(Settled()).device, w).received
    {
      Tick();
      ghost var before := Settled();
      PlayConcat(device, tx, [w]);
      assert [w][1..] == [];
      tx := tx + [w];
      deepest := if |tx| > deepest then |tx| else deepest;
      pushed := pushed + [w];
      assert Settled().received == before.received + Step(before.device, w).received;
    }

    /** Reading RX_FIFO. Nothing is checked: an empty FIFO reads as noise. */
    method PopRx() returns (b: Byte)
      requires Valid()
      modifies this
      ensures Valid() && |tx| <= |old(tx)| && slept == old(slept) && pushed == old(pushed)
      ensures Settled().device == old(Settled()).device
      ensures old(rx) != [] ==> old(Settled()).received == [b] + Settled().received
    {
      Tick();
      if rx == [] {
        b := hardware.noise(clock);
      } else {
        b := rx[0];
        ghost var all := Settled().received;
        rx := rx[1..];
        assert all == [b] + Settled().received;
      }
    }

    /**
     * The three polling loops: at most ten sleeps each, and exactly ten if the wait fails, which this one does only if
     * the controller takes too few words meanwhile.
     */
    method WaitTxEmpty() returns (met: bool)
      requires Valid()
      modifies this
      ensures Valid() && Settled() == old(Settled())
      ensures Suffix(tx, old(tx)) && old(rx) <= rx && pushed == old(pushed)
      ensures old(slept) <= slept <= old(slept) + 10
      ensures met <==> tx == []
      ensures !met ==> slept == old(slept) + 10 && TakesTooFew(hardware, old(clock), |old(tx)|)
    {
      var i := 0;
      ghost var c0, queued := clock, |tx|;
      while true
        invariant i <= POLLS && slept == old(slept) + i && pushed == old(pushed)
        invariant Valid() && Settled() == old(Settled())
        invariant Suffix(tx, old(tx)) && old(rx) <= rx
        invariant clock == c0 + 2 * i && Watched(c0, queued)
        decreases POLLS - i
      {
        var txEmpty, _, _ := ReadStatus(c0, queued);
        if txEmpty || i >= POLLS {
          met := txEmpty;
          break;
        }
        Sleep(c0, queued);
        i := i + 1;
      }
      if !met {
        WatchEnds(hardware, c0, queued, clock, |tx|, Waiting());
      }
    }

    /** True exactly if the bus was found idle. */
    method WaitNotBusy() returns (idle: bool)
      requires Valid()
      modifies this
      ensures Valid() && Settled() == old(Settled())
      ensures Suffix(tx, old(tx)) && old(rx) <= rx && pushed == old(pushed)
      ensures old(slept) <= slept <= old(slept) + 10
      ensures idle == !hardware.busy(clock) && clock > old(clock)
      ensures !idle ==> slept == old(slept) + 10
    {
      var i := 0;
      ghost var c0, queued := clock, |tx|;
      while true
        invariant i <= POLLS && slept == old(slept) + i && pushed == old(pushed)
        invariant Valid() && Settled() == old(Settled())
        invariant Suffix(tx, old(tx)) && old(rx) <= rx
        invariant clock >= old(clock) && Watched(c0, queued)
        decreases POLLS - i
      {
        var _, busy, _ := ReadStatus(c0, queued);
        if !busy || i >= POLLS {
          return !busy;
        }
        Sleep(c0, queued);
        i := i + 1;
      }
    }

    /** The wait for a byte fails only if none is to come, or the controller stores it too late. */
    method WaitRx() returns (met: bool)
      requires Valid()
      modifies this
      ensures Valid() && Settled() == old(Settled())
      ensures |tx| <= |old(tx)| && pushed == old(pushed)
      ensures old(slept) <= slept <= old(slept) + 10
      ensures met <==> rx != []
      ensures !met ==> slept == old(slept) + 10
      ensures !met && Settled().received != [] ==> StoresTooLate(hardware, old(clock), |old(tx)|)
    {
      var i := 0;
      ghost var c0, queued := clock, |tx|;
      while true
        invariant i <= POLLS && slept == old(slept) + i && pushed == old(pushed)
        invariant Valid() && Settled() == old(Settled())
        invariant |tx| <= |old(tx)|
        invariant clock == c0 + 2 * i && Watched(c0, queued)
        decreases POLLS - i
      {
        var _, _, rxEmpty := ReadStatus(c0, queued);
        if !rxEmpty || i >= POLLS {
          met := !rxEmpty;
          break;
        }
        Sleep(c0, queued);
        i := i + 1;
      }
      if !met {
        WatchEnds(hardware, c0, queued, clock, |tx|, Waiting());
      }
    }

    /** The common entry: both waits, then the check that decides between pushing and giving up. */
    method Ready() returns (ready: bool, idle: bool)
      requires Valid()
      modifies this
      ensures Valid() && Settled() == old(Settled())
      ensures Suffix(tx, old(tx)) && old(rx) <= rx && pushed == old(pushed)
      ensures old(slept) <= slept <= old(slept) + 20
      ensures ready <==> tx == []
      ensures !ready ==> slept >= old(slept) + 10 && TakesTooFew(hardware, old(clock), |old(tx)|)
      ensures clock > 0 && (if idle then !hardware.busy(clock - 1) else slept >= old(slept) + 10)
    {
      var met := WaitTxEmpty();
      assert met ==> tx == [];
      idle := WaitNotBusy();
      assert met ==> tx == [];
      var txEmpty, _, _ := ReadStatus(clock, |tx|);
      ready := txEmpty;
    }

    /**
     * Returns 1 having pushed nothing, and only if TX_FIFO was not empty after ten sleeps; or 0 having queued one register
     * write, which then takes effect whatever the controller's pace. It pushes when the bus was idle or after ten sleeps.
     */
    method WriteReg(reg: Byte, data: Int16) returns (status: int)
      requires Valid()
      modifies this
      ensures Valid() && old(slept) <= slept <= old(slept) + 20
      ensures status == 0 || status == 1
      ensures status == 1 ==> tx != [] && slept >= old(slept) + 10 && TakesTooFew(hardware, old(clock), |old(tx)|)
      ensures status == 1 ==> Settled() == old(Settled()) && Suffix(tx, old(tx)) && pushed == old(pushed)
      ensures status == 0 ==> Settled().device.regs == old(Settled()).device.regs[reg := data % 0x1_0000]
      ensures status == 0 ==> Settled().received == old(Settled()).received
      ensures status == 0 ==>
                pushed == old(pushed) +
                [Word(0x90, true, false), Word(reg, false, false),
                 Word(data % 0x1_0000 / 0x100, false, false), Word(data % 0x100, false, true)]
      ensures status == 0 ==> clock >= 5 && (!hardware.busy(clock - 5) || slept >= old(slept) + 10)
      ensures old(tx) == [] ==> status == 0
    {
      var ready, idle := Ready();
      if !ready {
        return 1;
      }
      ghost var d := Settled().device;
      PlayFour(d, WriteWords(reg, data));
      PlayWrite(d, reg, data);
      Push(Word(DEVICE_ADDRESS * 2, true, false));
      Push(Word(reg, false, false));
      Push(Word(HighByte(data), false, false));
      Push(Word(LowByte(data), false, true));
      WordsOnTheBus(reg, data);
      assert pushed == old(pushed) + WriteWords(reg, data);
      return 0;
    }

    /**
     * Returns 1 with `data` untouched and nothing pushed, as a write does, or 0. `timely` says whether both RX waits saw
     * a byte; then, if nothing stale was under way, `result` is the register's value. No read changes a register.
     */
    method ReadReg(reg: Byte, data: Int16) returns (status: int, result: Int16, timely: bool)
      requires Valid()
      modifies this
      ensures Valid() && old(slept) <= slept <= old(slept) + 60
      ensures status == 0 || status == 1
      ensures status == 1 ==> tx != [] && slept >= old(slept) + 10 && TakesTooFew(hardware, old(clock), |old(tx)|)
      ensures status == 1 ==> result == data && Settled() == old(Settled()) && Suffix(tx, old(tx)) && pushed == old(pushed)
      ensures Settled().device.regs == old(Settled()).device.regs
      ensures status == 0 ==>
                pushed == old(pushed) + [Word(0x90, true, false), Word(reg, false, false), Word(0x91, true, false), Word(2, false, true)]
      ensures status == 0 && timely && old(Settled()).received == [] ==>
                (result - old(Settled()).device.regs[reg]) % 0x1_0000 == 0 && Settled().received == []
      ensures old(tx) == [] ==> status == 0
      ensures status == 0 && !timely ==> slept >= old(slept) + 10
      ensures Prompt(hardware) && old(Settled()).received == [] ==> status == 0 && timely
    {
      KnownPrompt();
      var ready, idle := Ready();
      if !ready {
        return 1, data, false;
      }
      result, timely := ReadValue(reg);
      status := 0;
    }

    /** A read that is carried out: four words pushed, two bytes received. */
    method ReadValue(reg: Byte) returns (result: Int16, timely: bool)
      requires Valid() && tx == []
      modifies this
      ensures Valid() && old(slept) <= slept <= old(slept) + 40
      ensures Settled().device.regs == old(Settled()).device.regs
      ensures pushed == old(pushed) + [Word(0x90, true, false), Word(reg, false, false), Word(0x91, true, false), Word(2, false, true)]
      ensures timely && old(Settled()).received == [] ==>
                (result - old(Settled()).device.regs[reg]) % 0x1_0000 == 0 && Settled().received == []
      ensures !timely ==> slept >= old(slept) + 10
      ensures Prompt(hardware) && old(Settled()).received == [] ==> timely
    {
      PushRead(reg);
      ghost var v, coming := Settled().device.regs[reg], Settled().received;
      JoinBytes(v);
      assert old(Settled()).received == [] ==> coming == [v / 0x100, v % 0x100];
      var hi, lo;
      hi, lo, timely := Receive();
      result := Join(hi, lo);
      assert timely && old(Settled()).received == [] ==> coming[0] == hi && coming[1] == lo;
    }

    /** Two bytes out of RX_FIFO, each after a wait; a prompt controller lets none of the waits fail. */
    method Receive() returns (hi: Byte, lo: Byte, timely: bool)
      requires Valid()
      modifies this
      ensures Valid() && old(slept) <= slept <= old(slept) + 20 && pushed == old(pushed)
      ensures Settled().device == old(Settled()).device
      ensures timely && |old(Settled()).received| == 2 ==>
                old(Settled()).received == [hi, lo] && Settled().received == []
      ensures !timely ==> slept >= old(slept) + 10
      ensures Prompt(hardware) && |old(Settled()).received| == 2 ==> timely
    {
      KnownPrompt();
      var metHi := WaitRx();
      hi := PopRx();
      ghost var left := Settled().received;
      KnownPrompt();
      var metLo := WaitRx();
      lo := PopRx();
      timely := metHi && metLo;
      if timely && |old(Settled()).received| == 2 {
        assert old(Settled()).received == [hi] + left && left == [lo] + Settled().received;
      }
    }

    lemma KnownPrompt()
      requires Valid()
      ensures Prompt(hardware) ==>
                !TakesTooFew(hardware, clock, |tx|) && !StoresTooLate(hardware, clock, |tx|)
    {
      if Prompt(hardware) {
        PromptIsInTime(hardware, clock, |tx|);
      }
    }

    method PushRead(reg: Byte)
      requires Valid() && tx == []
      modifies this
      ensures Valid() && old(slept) <= slept <= old(slept) + 20
      ensures Settled().device.regs == old(Settled()).device.regs
      ensures Settled().received == old(Settled()).received
              + [old(Settled()).device.regs[reg] / 0x100, old(Settled()).device.regs[reg] % 0x100]
      ensures pushed == old(pushed) + [Word(0x90, true, false), Word(reg, false, false), Word(0x91, true, false), Word(2, false, true)]
    {
      ghost var d := Settled().device;
      PlayFour(d, ReadWords(reg));
      PlayRead(d, reg);
      Push(Word(DEVICE_ADDRESS * 2, true, false));
      Push(Word(reg, false, false));
      var _ := WaitTxEmpty();
      Push(Word(DEVICE_ADDRESS * 2 + 1, true, false));
      var _ := WaitTxEmpty();
      Push(Word(2, false, true));
    }

    /**
     * Any run of calls, at any pace of the controller. The calls that returned 0, and no others, act as reads and
     * writes of a plain register file, and if no receive wait ran out, `values` are what those reads return. TX_FIFO
     * never holds more than 4 of its 16 entries.
     */
    method RunCalls(calls: seq<Call>) returns (statuses: seq<int>, values: seq<Int16>, timely: bool)
      requires Valid()
      modifies this
      ensures Valid() && |tx| <= deepest <= 4
      ensures slept <= old(slept) + 60 * |calls|
      ensures |statuses| == |calls| && forall k :: 0 <= k < |calls| ==> statuses[k] == 0 || statuses[k] == 1
      ensures Settled().device.regs == FileAfter(old(Settled()).device.regs, Through(calls, statuses))
      ensures pushed == old(pushed) + Words(Through(calls, statuses))
      ensures Prompt(hardware) ==> AllZero(statuses) && Through(calls, statuses) == calls
      ensures Prompt(hardware) && old(Settled()).received == [] ==> timely
      ensures timely && old(Settled()).received == [] ==>
                && values == Signed(ValuesRead(old(Settled()).device.regs, Through(calls, statuses)))
                && Settled().received == []
    {
      statuses, values, timely := [], [], true;
      ghost var regs, words := Settled().device.regs, [];
      ghost var clean := Settled().received == [];
      for i := 0 to |calls|
        invariant Valid() && slept <= old(slept) + 60 * i
        invariant Ran(regs, calls, i, statuses, Settled().device.regs, words) && pushed == old(pushed) + words
        invariant Prompt(hardware) ==> AllZero(statuses) && (clean ==> timely)
        invariant timely && clean ==> values == ValuesSoFar(regs, calls, i, statuses) && Settled().received == []
      {
        ghost var now := Settled().device.regs;
        var status, value, inTime := OneCall(calls[i]);
        ghost var added := if status == 0 then CallWords(calls[i]) else [];
        RanOneMore(regs, calls, i, statuses, now, words, status, Settled().device.regs, added);
        if timely && inTime && clean {
          ValuesOneMore(regs, calls, i, statuses, now, words, status, value);
        }
        ConcatAssoc(old(pushed), words, added);
        words := words + added;
        statuses := statuses + [status];
        timely := timely && inTime;
        values := values + value;
      }
      assert calls[..|calls|] == calls;
      if Prompt(hardware) {
        AllThrough(calls, statuses);
      }
    }

    /** One call of the two functions, with what a successful read returned. */
    method OneCall(call: Call) returns (status: int, value: seq<Int16>, timely: bool)
      requires Valid()
      modifies this
      ensures Valid() && slept <= old(slept) + 60 && (status == 0 || status == 1)
      ensures status == 1 ==> Settled() == old(Settled()) && value == []
      ensures Settled().device.regs ==
              if status == 0 && call.WriteReg? then old(Settled()).device.regs[call.reg := call.data % 0x1_0000]
              else old(Settled()).device.regs
      ensures pushed == old(pushed) + if status == 0 then CallWords(call) else []
      ensures Prompt(hardware) ==> status == 0
      ensures Prompt(hardware) && old(Settled()).received == [] ==> timely
      ensures timely && old(Settled()).received == [] ==> Settled().received == []
      ensures timely && old(Settled()).received == [] ==>
                value == if status == 0 && call.ReadReg? then [Wrap16(old(Settled()).device.regs[call.reg])] else []
    {
      KnownPrompt();
      match call
      case WriteReg(reg, data) =>
        WordsOnTheBus(reg, data);
        status := WriteReg(reg, data);
        value, timely := [], true;
      case ReadReg(reg) =>
        WordsOnTheBus(reg, 0);
        var result;
        status, result, timely := ReadReg(reg, 0);
        value := if status == 0 then [result] else [];
        timely := timely || status == 1;
    }

    /** Write, then read back: if both calls go through in time, the value read is the value written. */
    method WriteThenReadBack(reg: Byte, data: Int16) returns (ok: bool, result: Int16)
      requires Valid() && Settled().received == []
      modifies this
      ensures Valid()
      ensures ok ==> result == data && Settled().received == []
      ensures ok ==> Settled().device.regs == old(Settled()).device.regs[reg := data % 0x1_0000]
    {
      var written := WriteReg(reg, data);
      if written == 1 {
        return false, 0;
      }
      var status, value, timely := ReadReg(reg, 0);
      ok, result := status == 0 && timely, value;
      if ok {
        Wrap16Unique(data % 0x1_0000, result);
        Wrap16Unique(data, data);
      }
    }
  }
}
