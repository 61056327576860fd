/** power_on of the camera: the register writes over I2C, the read-back, then the FPGA is enabled. */
module CameraSetup {
  import opened Machine
  import opened I2cWords
  import opened I2cBus
  import SharedRing

  /** Five writes; `ok` if all returned 0, as they do with a prompt controller. */
  method WriteSettings(bus: I2CBusRaw) returns (ok: bool)
    requires bus.Valid()
    modifies bus
    ensures bus.Valid() && bus.Settled().received == old(bus.Settled()).received
    ensures ok ==>
              bus.Settled().device.regs ==
              old(bus.Settled()).device.regs[0xB2 := 0][0xB6 := 1][0xB1 := 0][0x20 := 0x3C7][0x0C := 1]
    ensures ok ==>
              bus.pushed == old(bus.pushed) + WriteWords(0xB2, 0) + WriteWords(0xB6, 1) + WriteWords(0xB1, 0)
                            + WriteWords(0x20, 0x3C7) + WriteWords(0x0C, 1)
    ensures old(bus.slept) <= bus.slept && (!ok ==> bus.slept >= old(bus.slept) + 10)
    ensures Prompt(bus.hardware) ==> ok
  {
    var s1 := WriteSetting(bus, 0xB2, 0x0000);
    var s2 := WriteSetting(bus, 0xB6, 0x0001);
    var s3 := WriteSetting(bus, 0xB1, 0x0000);
    var s4 := WriteSetting(bus, 0x20, 0x03C7);
    var s5 := WriteSetting(bus, 0x0C, 0x0001);
    ok := s1 == s2 == s3 == s4 == s5 == 0;
  }

  /** One of them, in the terms of its words. */
  method WriteSetting(bus: I2CBusRaw, reg: Byte, data: Int16) returns (status: int)
    requires bus.Valid()
    modifies bus
    ensures bus.Valid() && bus.Settled().received == old(bus.Settled()).received
    ensures status == 0 ==> bus.Settled().device.regs == old(bus.Settled()).device.regs[reg := data % 0x1_0000]
    ensures status == 0 ==> bus.pushed == old(bus.pushed) + WriteWords(reg, data)
    ensures old(bus.slept) <= bus.slept && (status != 0 ==> bus.slept >= old(bus.slept) + 10)
    ensures Prompt(bus.hardware) ==> status == 0
  {
    bus.KnownPrompt();
    WordsOnTheBus(reg, data);
    status := bus.WriteReg(reg, data);
  }

  function ReadsWords(regs: seq<Byte>): seq<Word> {
    if regs == [] then [] else ReadsWords(regs[..|regs| - 1]) + ReadWords(regs[|regs| - 1])
  }

  lemma ReadsOneMore(regs: seq<Byte>, i: nat, before: seq<Word>, words: seq<Word>)
    requires i < |regs| && words == ReadsWords(regs[..i])
    ensures words + ReadWords(regs[i]) == ReadsWords(regs[..i + 1])
    ensures (before + words) + ReadWords(regs[i]) == before + (words + ReadWords(regs[i]))
  {
    assert regs[..i + 1][..i] == regs[..i];
    ConcatAssoc(before, words, ReadWords(regs[i]));
  }

  /** The values printed are those of the registers read. */
  predicate Prints(printed: seq<Int16>, file: seq<UInt16>, regs: seq<Byte>)
    requires |file| == 256
  {
    |printed| <= |regs| && forall k :: 0 <= k < |printed| ==> printed[k] == Wrap16(file[regs[k]])
  }

  /** Successive reads of registers into the same variable; `ok` if each call returned 0 with its bytes in time. */
  method ReadBack(bus: I2CBusRaw, regs: seq<Byte>) returns (ok: bool, printed: seq<Int16>)
    requires bus.Valid() && bus.Settled().received == []
    modifies bus
    ensures bus.Valid() && bus.Settled().device.regs == old(bus.Settled()).device.regs
    ensures |printed| == |regs|
    ensures ok ==> Prints(printed, old(bus.Settled()).device.regs, regs)
    ensures ok ==> bus.pushed == old(bus.pushed) + ReadsWords(regs)
    ensures old(bus.slept) <= bus.slept && (!ok ==> bus.slept >= old(bus.slept) + 10)
    ensures Prompt(bus.hardware) ==> ok
  {
    ok, printed := true, [];
    var data := 0;
    ghost var words, file := [], bus.Settled().device.regs;
    for i := 0 to |regs|
      invariant bus.Valid() && bus.Settled().device.regs == file
      invariant |printed| == i && words == ReadsWords(regs[..i])
      invariant ok ==> bus.Settled().received == [] && bus.pushed == old(bus.pushed) + words
      invariant ok ==> Prints(printed, file, regs)
      invariant old(bus.slept) <= bus.slept && (!ok ==> bus.slept >= old(bus.slept) + 10)
      invariant Prompt(bus.hardware) ==> ok
    {
      var value, good := ReadOne(bus, regs[i], data);
      data := value;
      ok := ok && good;
      printed := printed + [data];
      ReadsOneMore(regs, i, old(bus.pushed), words);
      words := words + ReadWords(regs[i]);
    }
    assert regs[..|regs|] == regs;
  }

  method ReadOne(bus: I2CBusRaw, reg: Byte, data: Int16) returns (value: Int16, good: bool)
    requires bus.Valid()
    modifies bus
    ensures bus.Valid() && bus.Settled().device.regs == old(bus.Settled()).device.regs
    ensures good ==> bus.pushed == old(bus.pushed) + ReadWords(reg)
    ensures good && old(bus.Settled()).received == [] ==>
              value == Wrap16(old(bus.Settled()).device.regs[reg]) && bus.Settled().received == []
    ensures old(bus.slept) <= bus.slept && (!good ==> bus.slept >= old(bus.slept) + 10)
    ensures Prompt(bus.hardware) && old(bus.Settled()).received == [] ==> good
  {
    WordsOnTheBus(reg, 0);
    var status, result, timely := bus.ReadReg(reg, data);
    value, good := result, status == 0 && timely;
    Wrap16Unique(bus.Settled().device.regs[reg], value);
  }

  /**
   * The status of each call is ignored. If all of them went through in time, as they do with a prompt controller, the
   * camera is configured and what is printed confirms it; if not, ten sleeps were spent in a wait. The FPGA is enabled
   * in any case.
   */
  method PowerOn(bus: I2CBusRaw, registers: SharedRing.FPGARegisters) returns (ok: bool, printed: seq<Int16>)
    requires bus.Valid() && bus.Settled().received == [] && registers.Valid()
    modifies bus, registers.words
    ensures bus.Valid() && registers.words[..] == old(registers.words[..])[0 := 1]
    ensures ok ==>
              bus.Settled().device.regs ==
              old(bus.Settled()).device.regs[0xB2 := 0][0xB6 := 1][0xB1 := 0][0x20 := 0x3C7][0x0C := 1]
    ensures ok ==> printed == [0x0000, 0x0001, 0x0000, 0x03C7, Wrap16(old(bus.Settled()).device.regs[0x7F])]
    ensures ok ==>
              bus.pushed == old(bus.pushed) + WriteWords(0xB2, 0) + WriteWords(0xB6, 1) + WriteWords(0xB1, 0)
                            + WriteWords(0x20, 0x3C7) + WriteWords(0x0C, 1)
                            + ReadsWords([0xB2, 0xB6, 0xB1, 0x20, 0x7F])
    ensures !ok ==> bus.slept >= old(bus.slept) + 10
    ensures Prompt(bus.hardware) ==> ok
  {
    var written := WriteSettings(bus);
    ok, printed := ReadBack(bus, [0xB2, 0xB6, 0xB1, 0x20, 0x7F]);
    ok := ok && written;
    registers.SetRegisterValue(SharedRing.CONTROL, 0x01);
  }
}
