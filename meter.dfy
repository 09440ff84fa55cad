/** The HLW8032 driver object: the frame buffer, the raw registers and the
    calibration coefficients, updated in place by the frame reader. The
    serial port is not an object here: the bytes it holds are passed in and
    the bytes it still holds afterwards are handed back. */
module Meter {
  import opened Layout
  import opened Reader

  /** Empties the port: reads until it reports that no byte is left. */
  method Drain(pending: seq<Byte>) returns (rest: seq<Byte>)
    ensures rest == []
  {
    rest := pending;
    while rest != []
      decreases |rest|
    {
      rest := rest[1..];
    }
  }

  class HLW8032 {
    /** The last 24 bytes read as a frame. */
    const transmission: array<Byte>
    /** How many bytes the port held when the reader last counted them. */
    var bytesInRXBuffer: nat
    /** Raised by the first accepted frame, never lowered. */
    var readSuccess: bool
    var VoltageParam: Uint32
    var VoltageData: Uint32
    var CurrentParam: Uint32
    var CurrentData: Uint32
    var PowerParam: Uint32
    var PowerData: Uint32
    var PF: Uint16
    /** How many times the PF register has overflowed, plus one. */
    var PFData: Uint32
    var VCoeff: real
    var CCoeff: real

    ghost predicate Valid()
      reads this
    {
      transmission.Length == TransmissionLength
    }

    /** The raw register state held in the fields. */
    ghost function Regs(): Registers
      reads this
    {
      Registers(VoltageParam, VoltageData, CurrentParam, CurrentData,
                PowerParam, PowerData, PF, PFData, readSuccess)
    }

    /** The frame buffer's contents. */
    ghost function Buffer(): Frame
      reads this, transmission
      requires Valid()
    {
      transmission[..]
    }

    /** A reader before its first poll, taken to be a global object so that
        the members the class leaves uninitialised are zero: zeroed buffer,
        registers and coefficients, the overflow counter at one, the success
        flag lowered. */
    constructor ()
      ensures Valid() && fresh(transmission)
      ensures Regs() == Initial && Buffer() == seq(TransmissionLength, _ => 0)
      ensures bytesInRXBuffer == 0 && VCoeff == 0.0 && CCoeff == 0.0
    {
      transmission := new Byte[TransmissionLength](_ => 0);
      bytesInRXBuffer := 0;
      readSuccess := false;
      VoltageParam, VoltageData := 0, 0;
      CurrentParam, CurrentData := 0, 0;
      PowerParam, PowerData := 0, 0;
      PF, PFData := 0, 1;
      VCoeff, CCoeff := 0.0, 0.0;
    }

    /** One poll of the port. `rx` is what the port holds when first asked;
        `settled` is what arrives during the settle delay (or, when nothing
        was available, just after the poll). Returns what the port still
        holds afterwards and how the poll ended. */
    method SerialReadLoop(rx: seq<Byte>, settled: seq<Byte>) returns (rest: seq<Byte>, outcome: Outcome)
      requires Valid()
      modifies this`bytesInRXBuffer, this`readSuccess, this`VoltageParam, this`VoltageData
      modifies this`CurrentParam, this`CurrentData, this`PowerParam, this`PowerData
      modifies this`PF, this`PFData, transmission
      ensures var s := Poll(old(Regs()), old(Buffer()), rx, settled);
        Regs() == s.regs && Buffer() == s.frame && rest == s.rest && outcome == s.outcome
      ensures bytesInRXBuffer == if rx == [] then old(bytesInRXBuffer) else |rx + settled|
    {
      if rx == [] {
        return settled, NoData;
      }
      var pending := rx + settled;
      bytesInRXBuffer := |pending|;
      if bytesInRXBuffer < TransmissionLength {
        rest := Drain(pending);
        return rest, PartialFrame;
      }

      pending := ReadFrame(pending);
      if transmission[CheckAt] != CheckValue {
        rest := Drain(pending);
        return rest, SyncError;
      }
      var ok := Checksum();
      if !ok {
        return pending, ChecksumError;
      }

      Store();
      return pending, Accepted;
    }

    /** Reads the first 24 pending bytes, in order, into the buffer and
        returns the bytes after them. */
    method ReadFrame(pending: seq<Byte>) returns (rest: seq<Byte>)
      requires Valid() && |pending| >= TransmissionLength
      modifies transmission
      ensures Buffer() == pending[..TransmissionLength] && rest == pending[TransmissionLength..]
    {
      rest := pending;
      for a := 0 to TransmissionLength
        invariant rest == pending[a..]
        invariant transmission[..a] == pending[..a]
      {
        transmission[a] := rest[0];
        rest := rest[1..];
      }
      assert transmission[..] == transmission[..TransmissionLength];
    }

    /** The success path of the reader: raises the success flag and decodes
        the buffer into the registers. */
    method Store()
      requires Valid()
      modifies this`readSuccess, this`VoltageParam, this`VoltageData, this`CurrentParam, this`CurrentData
      modifies this`PowerParam, this`PowerData, this`PF, this`PFData
      ensures Regs() == ApplyFrame(old(Regs()), Buffer())
    {
      readSuccess := true;
      StoreVoltage();
      StoreCurrent();
      StorePower();
      StorePF();
    }

    /** The voltage parameter, and the voltage register value when bit 6 of
        the update register is set. */
    method StoreVoltage()
      requires Valid()
      modifies this`VoltageParam, this`VoltageData
      ensures VoltageParam == Be24(Buffer(), VoltageParamAt)
      ensures VoltageData == if BitRead(Buffer()[UpdateAt], VoltageBit) then Be24(Buffer(), VoltageRegAt) else old(VoltageData)
    {
      var frame := transmission[..];
      VoltageParam := Be24(frame, VoltageParamAt);
      if BitRead(frame[UpdateAt], VoltageBit) {
        VoltageData := Be24(frame, VoltageRegAt);
      }
    }

    /** The current parameter, and the current register value when bit 5 of
        the update register is set. */
    method StoreCurrent()
      requires Valid()
      modifies this`CurrentParam, this`CurrentData
      ensures CurrentParam == Be24(Buffer(), CurrentParamAt)
      ensures CurrentData == if BitRead(Buffer()[UpdateAt], CurrentBit) then Be24(Buffer(), CurrentRegAt) else old(CurrentData)
    {
      var frame := transmission[..];
      CurrentParam := Be24(frame, CurrentParamAt);
      if BitRead(frame[UpdateAt], CurrentBit) {
        CurrentData := Be24(frame, CurrentRegAt);
      }
    }

    /** The power parameter, and the power register value when bit 4 of the
        update register is set. */
    method StorePower()
      requires Valid()
      modifies this`PowerParam, this`PowerData
      ensures PowerParam == Be24(Buffer(), PowerParamAt)
      ensures PowerData == if BitRead(Buffer()[UpdateAt], PowerBit) then Be24(Buffer(), PowerRegAt) else old(PowerData)
    {
      var frame := transmission[..];
      PowerParam := Be24(frame, PowerParamAt);
      if BitRead(frame[UpdateAt], PowerBit) {
        PowerData := Be24(frame, PowerRegAt);
      }
    }

    /** The PF register, and one more PF overflow when bit 7 of the update
        register is set. */
    method StorePF()
      requires Valid()
      modifies this`PF, this`PFData
      ensures PF == Be16(Buffer(), PFAt)
      ensures PFData == if BitRead(Buffer()[UpdateAt], PFOverflowBit) then (old(PFData) + 1) % 0x1_0000_0000 else old(PFData)
    {
      var frame := transmission[..];
      PF := Be16(frame, PFAt);
      if BitRead(frame[UpdateAt], PFOverflowBit) {
        PFData := (PFData + 1) % 0x1_0000_0000;
      }
    }

    /** Adds bytes 2 through 22 of the buffer in an 8-bit accumulator and
        compares the sum with byte 23. (The comparison in the C++ names
        `check`, an identifier declared nowhere; the accumulator `check_sum`
        is what the function's documentation means, and is compared here.) */
    method Checksum() returns (ok: bool)
      requires Valid()
      ensures ok <==> Sum(transmission[VoltageParamAt..ChecksumAt]) % 0x100 == transmission[ChecksumAt]
      ensures ok == ChecksumOk(Buffer())
    {
      var checkSum: Byte := 0;
      var a := VoltageParamAt;
      while a <= TransmissionLength - 2
        invariant VoltageParamAt <= a <= ChecksumAt
        invariant checkSum == ByteSum(transmission[VoltageParamAt..a])
      {
        assert transmission[VoltageParamAt..a + 1][..a - VoltageParamAt] == transmission[VoltageParamAt..a];
        checkSum := (checkSum + transmission[a]) % 0x100;
        a := a + 1;
      }
      ok := checkSum == transmission[ChecksumAt];
    }

    method SetVCoeff(v: real)
      modifies this
      ensures VCoeff == v && CCoeff == old(CCoeff)
      ensures Regs() == old(Regs())
      ensures bytesInRXBuffer == old(bytesInRXBuffer)
    {
      VCoeff := v;
    }

    method SetCCoeff(c: real)
      modifies this
      ensures CCoeff == c && VCoeff == old(VCoeff)
      ensures Regs() == old(Regs())
      ensures bytesInRXBuffer == old(bytesInRXBuffer)
    {
      CCoeff := c;
    }

    /** The PF register of the last accepted frame, zero before any. */
    function GetPF(): (pf: Uint16)
      reads this
      ensures pf == Regs().pf
    {
      PF
    }

    /** The overflow count times the PF register, in 32-bit arithmetic. */
    function GetPFAll(): (all: Uint32)
      reads this
      ensures all == PFAll(Regs())
    {
      (PFData * PF) % 0x1_0000_0000
    }
  }
}
