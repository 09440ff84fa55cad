/** The frame reader of the HLW8032, as values: the raw register state, what
    one accepted frame does to it, what one poll of the serial port does, and
    what a sequence of polls does. */
module Reader {
  import opened Layout

  /** The raw register state the reader owns and the getters read. */
  datatype Registers = Registers(
    voltageParam: Uint32,
    voltageData: Uint32,
    currentParam: Uint32,
    currentData: Uint32,
    powerParam: Uint32,
    powerData: Uint32,
    pf: Uint16,
    pfData: Uint32,
    readSuccess: bool)

  /** The state of a new reader: the overflow counter starts at one and the
      success flag lowered, as the class declares. The other registers have
      no initialiser; they start at zero because the driver is taken to be a
      global object. */
  const Initial := Registers(0, 0, 0, 0, 0, 0, 0, 1, false)

  /** What one poll made of the bytes it found. */
  datatype Outcome =
    | NoData         // nothing was available
    | PartialFrame   // fewer bytes than a frame: all drained
    | SyncError      // the check register is wrong: the rest drained
    | ChecksumError  // the checksum register disagrees: frame discarded
    | Accepted       // the frame was decoded into the registers

  /** A frame passes both validations of the reader. */
  predicate Acceptable(f: Frame)
  {
    f[CheckAt] == CheckValue && ChecksumOk(f)
  }

  /** The registers after the reader decodes an accepted frame `f`. */
  function ApplyFrame(r: Registers, f: Frame): Registers
  {
    var update := f[UpdateAt];
    Registers(
      voltageParam := Be24(f, VoltageParamAt),
      voltageData := if BitRead(update, VoltageBit) then Be24(f, VoltageRegAt) else r.voltageData,
      currentParam := Be24(f, CurrentParamAt),
      currentData := if BitRead(update, CurrentBit) then Be24(f, CurrentRegAt) else r.currentData,
      powerParam := Be24(f, PowerParamAt),
      powerData := if BitRead(update, PowerBit) then Be24(f, PowerRegAt) else r.powerData,
      pf := Be16(f, PFAt),
      pfData := if BitRead(update, PFOverflowBit) then (r.pfData + 1) % 0x1_0000_0000 else r.pfData,
      readSuccess := true)
  }

  /** What an accepted frame does to each register, in terms of its bytes.
      Each parameter and the PF register are always taken from the frame,
      high byte first; each register value only when its update bit in byte
      20 is set; the overflow counter, a 32-bit integer, counts the frames
      with bit 7 set; the success flag is raised. */
  lemma ApplyFrameRegisters(r: Registers, f: Frame)
    ensures ApplyFrame(r, f).readSuccess
    ensures ApplyFrame(r, f).voltageParam == (f[2] as int) * 0x1_0000 + (f[3] as int) * 0x100 + f[4] < 0x100_0000
    ensures ApplyFrame(r, f).currentParam == (f[8] as int) * 0x1_0000 + (f[9] as int) * 0x100 + f[10] < 0x100_0000
    ensures ApplyFrame(r, f).powerParam == (f[14] as int) * 0x1_0000 + (f[15] as int) * 0x100 + f[16] < 0x100_0000
    ensures ApplyFrame(r, f).voltageData
         == if f[20] / 64 % 2 == 1 then (f[5] as int) * 0x1_0000 + (f[6] as int) * 0x100 + f[7] else r.voltageData
    ensures ApplyFrame(r, f).currentData
         == if f[20] / 32 % 2 == 1 then (f[11] as int) * 0x1_0000 + (f[12] as int) * 0x100 + f[13] else r.currentData
    ensures ApplyFrame(r, f).powerData
         == if f[20] / 16 % 2 == 1 then (f[17] as int) * 0x1_0000 + (f[18] as int) * 0x100 + f[19] else r.powerData
    ensures ApplyFrame(r, f).pf == (f[21] as int) * 0x100 + f[22] < 0x1_0000
    ensures ApplyFrame(r, f).pfData == if f[20] >= 128 then (r.pfData + 1) % 0x1_0000_0000 else r.pfData
  {
    BitReadUpdateBits(f[UpdateAt]);
  }

  /** The reader takes every register from its named field of the memory map:
      decoding a frame and then applying it agree. */
  lemma ApplyFrameFields(r: Registers, f: Frame)
    ensures var d, a := Decode(f), ApplyFrame(r, f);
      a.voltageParam == d.voltageParam && a.currentParam == d.currentParam
      && a.powerParam == d.powerParam && a.pf == d.pf
      && a.voltageData == (if BitRead(d.update, VoltageBit) then d.voltageReg else r.voltageData)
      && a.currentData == (if BitRead(d.update, CurrentBit) then d.currentReg else r.currentData)
      && a.powerData == (if BitRead(d.update, PowerBit) then d.powerReg else r.powerData)
      && a.pfData == (if BitRead(d.update, PFOverflowBit) then (r.pfData + 1) % 0x1_0000_0000 else r.pfData)
  {
  }

  /** The registers, the frame buffer, the bytes left pending and the outcome
      after one poll. */
  datatype Step = Step(regs: Registers, frame: Frame, rest: seq<Byte>, outcome: Outcome)

  /** One poll of the serial port. `rx` is what is pending when the reader
      first asks; `settled` is what arrives during the settle delay, or just
      after the poll when it finds nothing and so does not wait; `frame` is
      the frame buffer before the poll. Bytes beyond the first frame are left
      pending, except after a sync error, which drains them. */
  function Poll(r: Registers, frame: Frame, rx: seq<Byte>, settled: seq<Byte>): (s: Step)
    ensures s.outcome == NoData <==> rx == []
    ensures s.outcome == NoData ==> s.frame == frame && s.rest == settled
    ensures s.outcome == PartialFrame <==> rx != [] && |rx + settled| < TransmissionLength
    ensures s.outcome == PartialFrame ==> s.frame == frame && s.rest == []
    ensures rx != [] && |rx + settled| >= TransmissionLength ==>
              s.frame == (rx + settled)[..TransmissionLength]
    ensures s.outcome == SyncError <==>
              rx != [] && |rx + settled| >= TransmissionLength && (rx + settled)[CheckAt] != CheckValue
    ensures s.outcome == SyncError ==> s.rest == []
    ensures s.outcome == ChecksumError <==>
              rx != [] && |rx + settled| >= TransmissionLength && (rx + settled)[CheckAt] == CheckValue
              && !ChecksumOk((rx + settled)[..TransmissionLength])
    ensures s.outcome == Accepted <==>
              rx != [] && |rx + settled| >= TransmissionLength && Acceptable((rx + settled)[..TransmissionLength])
    ensures s.outcome in {ChecksumError, Accepted} ==> s.frame + s.rest == rx + settled
    ensures s.regs == if s.outcome == Accepted then ApplyFrame(r, s.frame) else r
  {
    if rx == [] then Step(r, frame, settled, NoData)
    else
      var pending := rx + settled;
      if |pending| < TransmissionLength then Step(r, frame, [], PartialFrame)
      else
        var f: Frame := pending[..TransmissionLength];
        var rest := pending[TransmissionLength..];
        assert f + rest == pending;
        if f[CheckAt] != CheckValue then Step(r, f, [], SyncError)
        else if !ChecksumOk(f) then Step(r, f, rest, ChecksumError)
        else Step(ApplyFrame(r, f), f, rest, Accepted)
  }

  /** What the reader reports as the accumulated PF: the overflow count times
      the PF register, in 32-bit unsigned arithmetic. */
  function PFAll(r: Registers): (v: Uint32)
    ensures r.pfData == 1 ==> v == r.pf
  {
    (r.pfData * r.pf) % 0x1_0000_0000
  }

  /** The registers after the accepted frames `fs`, in order. */
  function ApplyAll(r: Registers, fs: seq<Frame>): Registers
    decreases |fs|
  {
    if fs == [] then r else ApplyFrame(ApplyAll(r, fs[..|fs| - 1]), fs[|fs| - 1])
  }

  /** How many of the frames `fs` carry the PF-overflow bit. */
  function OverflowCount(fs: seq<Frame>): (n: nat)
    ensures n <= |fs|
    decreases |fs|
  {
    if fs == [] then 0
    else OverflowCount(fs[..|fs| - 1]) + (if BitRead(fs[|fs| - 1][UpdateAt], PFOverflowBit) then 1 else 0)
  }

  /** The register at offset `at` of the last frame in `fs` whose update bit
      `bit` is set, or `default` when no frame has it set. */
  function LatestRegister(fs: seq<Frame>, bit: nat, at: nat, default: Uint32): Uint32
    requires bit < 8 && at + 3 <= TransmissionLength
    decreases |fs|
  {
    if fs == [] then default
    else if BitRead(fs[|fs| - 1][UpdateAt], bit) then Be24(fs[|fs| - 1], at)
    else LatestRegister(fs[..|fs| - 1], bit, at, default)
  }

  lemma ModAddLeft(a: nat, b: nat)
    ensures (a % 0x1_0000_0000 + b) % 0x1_0000_0000 == (a + b) % 0x1_0000_0000
  {
  }

  /** Whole multiples of 2^32 do not change a 32-bit remainder. */
  lemma WordShift(q: nat, y: nat)
    ensures (q * 0x1_0000_0000 + y) % 0x1_0000_0000 == y % 0x1_0000_0000
  {
  }

  lemma ModMulLeft(a: nat, b: nat)
    ensures (a % 0x1_0000_0000 * b) % 0x1_0000_0000 == (a * b) % 0x1_0000_0000
  {
    var q, m := a / 0x1_0000_0000, a % 0x1_0000_0000;
    assert a == q * 0x1_0000_0000 + m;
    assert a * b == (q * b) * 0x1_0000_0000 + m * b;
    WordShift(q * b, m * b);
  }

  /** The overflow counter grows by one, modulo 2^32, for every frame with
      bit 7 of the update register set, and never otherwise. */
  lemma {:induction false} OverflowCounter(r: Registers, fs: seq<Frame>)
    ensures ApplyAll(r, fs).pfData == (r.pfData + OverflowCount(fs)) % 0x1_0000_0000
    decreases |fs|
  {
    if fs != [] {
      var init := fs[..|fs| - 1];
      OverflowCounter(r, init);
      var last := fs[|fs| - 1];
      var c := if BitRead(last[UpdateAt], PFOverflowBit) then 1 else 0;
      assert OverflowCount(fs) == OverflowCount(init) + c;
      ModAddLeft(r.pfData + OverflowCount(init), c);
    }
  }

  /** Each register value keeps the one of the last frame that had its update
      bit set; parameters and the PF register are those of the last frame. */
  lemma {:induction false} StickyRegisters(r: Registers, fs: seq<Frame>)
    ensures ApplyAll(r, fs).voltageData == LatestRegister(fs, VoltageBit, VoltageRegAt, r.voltageData)
    ensures ApplyAll(r, fs).currentData == LatestRegister(fs, CurrentBit, CurrentRegAt, r.currentData)
    ensures ApplyAll(r, fs).powerData == LatestRegister(fs, PowerBit, PowerRegAt, r.powerData)
    ensures fs != [] ==> ApplyAll(r, fs).voltageParam == Be24(fs[|fs| - 1], VoltageParamAt)
    ensures fs != [] ==> ApplyAll(r, fs).currentParam == Be24(fs[|fs| - 1], CurrentParamAt)
    ensures fs != [] ==> ApplyAll(r, fs).powerParam == Be24(fs[|fs| - 1], PowerParamAt)
    ensures fs != [] ==> ApplyAll(r, fs).pf == Be16(fs[|fs| - 1], PFAt)
    ensures ApplyAll(r, fs).readSuccess <==> r.readSuccess || fs != []
    decreases |fs|
  {
    if fs != [] {
      StickyRegisters(r, fs[..|fs| - 1]);
    }
  }

  /** A new reader that has accepted the frames `fs` reports as accumulated
      PF the PF register of the last one times one more than the number of
      overflow frames, in 32-bit arithmetic. */
  lemma PFAllAfterFrames(fs: seq<Frame>)
    requires fs != []
    ensures PFAll(ApplyAll(Initial, fs))
         == ((1 + OverflowCount(fs)) * Be16(fs[|fs| - 1], PFAt)) % 0x1_0000_0000
  {
    OverflowCounter(Initial, fs);
    StickyRegisters(Initial, fs);
    ModMulLeft(1 + OverflowCount(fs), Be16(fs[|fs| - 1], PFAt));
  }

  /** Bytes that reach the port before a poll, and during its settle delay. */
  datatype Batch = Batch(before: seq<Byte>, settled: seq<Byte>)

  /** The state after a run of polls, with the frames the reader accepted. */
  datatype Trace = Trace(regs: Registers, frame: Frame, pending: seq<Byte>, accepted: seq<Frame>)

  /** Polls once per batch, each poll finding what the previous one left
      pending followed by the batch's bytes. */
  function Run(r: Registers, frame: Frame, pending: seq<Byte>, batches: seq<Batch>): Trace
    decreases |batches|
  {
    if batches == [] then Trace(r, frame, pending, [])
    else
      var t := Run(r, frame, pending, batches[..|batches| - 1]);
      var b := batches[|batches| - 1];
      var s := Poll(t.regs, t.frame, t.pending + b.before, b.settled);
      Trace(s.regs, s.frame, s.rest, if s.outcome == Accepted then t.accepted + [s.frame] else t.accepted)
  }

  /** Only accepted frames change the registers: after any run of polls the
      registers are those the accepted frames give, and each of them passed
      both validations. */
  lemma {:induction false} RunAppliesAccepted(r: Registers, frame: Frame, pending: seq<Byte>, batches: seq<Batch>)
    ensures Run(r, frame, pending, batches).regs == ApplyAll(r, Run(r, frame, pending, batches).accepted)
    ensures forall f :: f in Run(r, frame, pending, batches).accepted ==> Acceptable(f)
    decreases |batches|
  {
    if batches != [] {
      var t := Run(r, frame, pending, batches[..|batches| - 1]);
      RunAppliesAccepted(r, frame, pending, batches[..|batches| - 1]);
      var b := batches[|batches| - 1];
      var s := Poll(t.regs, t.frame, t.pending + b.before, b.settled);
      if s.outcome == Accepted {
        var fs := t.accepted + [s.frame];
        assert fs[..|fs| - 1] == t.accepted;
      }
    }
  }

  /** The success flag is never lowered: after a run it is raised exactly when
      it was raised before or some frame was accepted. */
  lemma ReadSuccessSticky(r: Registers, frame: Frame, pending: seq<Byte>, batches: seq<Batch>)
    ensures Run(r, frame, pending, batches).regs.readSuccess
        <==> r.readSuccess || Run(r, frame, pending, batches).accepted != []
  {
    RunAppliesAccepted(r, frame, pending, batches);
    StickyRegisters(r, Run(r, frame, pending, batches).accepted);
  }

  /** After any run of polls of a new reader, the accumulated PF is the PF of
      the last accepted frame times one more than the number of accepted
      frames that signalled an overflow. */
  lemma PFAllAfterRun(frame: Frame, pending: seq<Byte>, batches: seq<Batch>)
    requires Run(Initial, frame, pending, batches).accepted != []
    ensures var fs := Run(Initial, frame, pending, batches).accepted;
      PFAll(Run(Initial, frame, pending, batches).regs)
      == ((1 + OverflowCount(fs)) * Be16(fs[|fs| - 1], PFAt)) % 0x1_0000_0000
  {
    RunAppliesAccepted(Initial, frame, pending, batches);
    PFAllAfterFrames(Run(Initial, frame, pending, batches).accepted);
  }

  /** A frame with voltage parameter 100 and voltage register value 200, its
      voltage, current and power update bits set and its checksum right. */
  const ExampleFrame: Frame :=
    [0x00, 0x5A, 0x00, 0x00, 0x64, 0x00, 0x00, 0xC8, 0, 0, 0, 0, 0, 0,
     0, 0, 0, 0, 0, 0, 0x70, 0x00, 0x00, 0x9C]

  /** The bytes the example frame's checksum covers add up to 412, which is
      0x9C modulo 256. */
  lemma ExampleFrameSum()
    ensures Sum(ExampleFrame[VoltageParamAt..ChecksumAt]) == 412
  {
    var f := ExampleFrame;
    var c := f[VoltageParamAt..ChecksumAt];
    assert c == c[..3] + c[3..6] + c[6..18] + c[18..];
    assert f[2] == 0 && f[3] == 0 && f[4] == 0x64 && f[5] == 0 && f[6] == 0 && f[7] == 0xC8;
    assert f[20] == 0x70 && f[21] == 0 && f[22] == 0;
    assert c[..3][0] == 0 && c[..3][1] == 0 && c[..3][2] == 0x64;
    assert c[3..6][0] == 0 && c[3..6][1] == 0 && c[3..6][2] == 0xC8;
    assert c[18..][0] == 0x70 && c[18..][1] == 0 && c[18..][2] == 0;
    Sum3(c[..3]);
    Sum3(c[3..6]);
    Sum3(c[18..]);
    assert forall k | 8 <= k < 20 :: f[k] == 0;
    assert forall k | 0 <= k < 12 :: c[6..18][k] == f[8 + k];
    SumZeros(c[6..18]);
    SumAppend(c[..3], c[3..6]);
    SumAppend(c[..3] + c[3..6], c[6..18]);
    SumAppend(c[..3] + c[3..6] + c[6..18], c[18..]);
  }

  /** The example frame carries the check byte and a right checksum. */
  lemma ExampleFrameAcceptable()
    ensures Acceptable(ExampleFrame)
  {
    var f := ExampleFrame;
    ExampleFrameSum();
    assert Covered(f) == f[VoltageParamAt..ChecksumAt];
    assert f[CheckAt] == CheckValue && f[ChecksumAt] == 0x9C;
    assert Sum(Covered(f)) % 0x100 == f[ChecksumAt];
  }

  /** Applied to a new reader, the example frame sets both voltage values and
      leaves the overflow counter at one. */
  lemma ExampleFrameDecoded()
    ensures var r := ApplyFrame(Initial, ExampleFrame);
      r.readSuccess && r.voltageParam == 100 && r.voltageData == 200
      && r.pfData == 1 && PFAll(r) == 0
  {
    BitReadUpdateBits(ExampleFrame[UpdateAt]);
  }

  /** A new reader that finds exactly this frame accepts it and takes both
      voltage values from it, leaving nothing pending. */
  lemma ExampleFrameAccepted()
    ensures var s := Poll(Initial, seq(TransmissionLength, _ => 0), ExampleFrame, []);
      s.outcome == Accepted && s.rest == [] && s.regs == ApplyFrame(Initial, ExampleFrame)
  {
    ExampleFrameAcceptable();
    assert ([] + ExampleFrame)[..TransmissionLength] == ExampleFrame;
  }

  /** The pending-byte count as the source stores it: in a byte, so modulo 256. */
  function StoredCount(available: nat): (c: Byte)
    ensures available < 0x100 ==> c == available
  {
    available % 0x100
  }

  /** One poll as the source writes it: the pending count is first stored in
      a byte, so it is compared with the frame length modulo 256. */
  function PollAsStored(r: Registers, frame: Frame, rx: seq<Byte>, settled: seq<Byte>): Step
  {
    if rx != [] && StoredCount(|rx + settled|) < TransmissionLength then Step(r, frame, [], PartialFrame)
    else Poll(r, frame, rx, settled)
  }

  /** While fewer than 256 bytes are pending the stored count changes nothing. */
  lemma PollAsStoredAgrees(r: Registers, frame: Frame, rx: seq<Byte>, settled: seq<Byte>)
    requires |rx + settled| < 0x100
    ensures PollAsStored(r, frame, rx, settled) == Poll(r, frame, rx, settled)
  {
  }

  /** With 256 bytes pending, more than ten whole frames, the stored count is
      zero: the poll drains every byte and keeps the registers, where reading
      the first frame was due. */
  lemma PollAsStoredDropsFrames(r: Registers, frame: Frame, rx: seq<Byte>, settled: seq<Byte>)
    requires rx != [] && |rx + settled| == 0x100
    ensures var s := PollAsStored(r, frame, rx, settled);
      s.outcome == PartialFrame && s.rest == [] && s.regs == r
    ensures Poll(r, frame, rx, settled).outcome != PartialFrame
    ensures Poll(r, frame, rx, settled).frame == (rx + settled)[..TransmissionLength]
  {
  }
}
