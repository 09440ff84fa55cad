/** The HLW8032 transmission: a 24-byte frame read status register first and
    checksum register last, its memory map, the big-endian field decoding,
    the 8-bit checksum and the bit tests on the update register. */
module Layout {

  type Byte = b: int | 0 <= b < 0x100
  type Uint16 = x: int | 0 <= x < 0x1_0000
  type Uint24 = x: int | 0 <= x < 0x100_0000
  type Uint32 = x: int | 0 <= x < 0x1_0000_0000

  /** Number of bytes in one transmission. */
  const TransmissionLength: nat := 24

  /** The value the check register must hold in a well-aligned frame. */
  const CheckValue: Byte := 0x5A

  // The memory map: offset of the first byte of each register.
  const StateAt: nat := 0
  const CheckAt: nat := 1
  const VoltageParamAt: nat := 2
  const VoltageRegAt: nat := 5
  const CurrentParamAt: nat := 8
  const CurrentRegAt: nat := 11
  const PowerParamAt: nat := 14
  const PowerRegAt: nat := 17
  const UpdateAt: nat := 20
  const PFAt: nat := 21
  const ChecksumAt: nat := 23

  // Bits of the update register.
  const PFOverflowBit: nat := 7
  const VoltageBit: nat := 6
  const CurrentBit: nat := 5
  const PowerBit: nat := 4

  type Frame = f: seq<Byte> | |f| == TransmissionLength witness seq(24, _ => 0)

  /** The 3-byte big-endian unsigned integer at offset `at`: high byte first. */
  function Be24(s: seq<Byte>, at: nat): Uint24
    requires at + 3 <= |s|
  {
    (s[at] as int) * 0x1_0000 + (s[at + 1] as int) * 0x100 + s[at + 2]
  }

  /** The high, middle and low bytes are recovered from a 24-bit value by
      division and remainder. */
  lemma Be24Bytes(s: seq<Byte>, at: nat)
    requires at + 3 <= |s|
    ensures Be24(s, at) / 0x1_0000 == s[at]
    ensures Be24(s, at) / 0x100 % 0x100 == s[at + 1]
    ensures Be24(s, at) % 0x100 == s[at + 2]
  {
    var a, b, c := s[at] as int, s[at + 1] as int, s[at + 2] as int;
    var v := Be24(s, at);
    assert 0 <= b * 0x100 + c < 0x1_0000;
    assert v == a * 0x1_0000 + (b * 0x100 + c);
    assert v / 0x100 == a * 0x100 + b;
    assert v % 0x100 == c;
  }

  /** The 2-byte big-endian unsigned integer at offset `at`: high byte first. */
  function Be16(s: seq<Byte>, at: nat): Uint16
    requires at + 2 <= |s|
  {
    (s[at] as int) * 0x100 + s[at + 1]
  }

  /** The high and low bytes are recovered from a 16-bit value. */
  lemma Be16Bytes(s: seq<Byte>, at: nat)
    requires at + 2 <= |s|
    ensures Be16(s, at) / 0x100 == s[at]
    ensures Be16(s, at) % 0x100 == s[at + 1]
  {
  }

  /** The three bytes, high byte first, that carry a 24-bit value. */
  function Encode24(v: Uint24): (s: seq<Byte>)
    ensures |s| == 3 && Be24(s, 0) == v
  {
    [v / 0x1_0000, v / 0x100 % 0x100, v % 0x100]
  }

  /** The two bytes, high byte first, that carry a 16-bit value. */
  function Encode16(v: Uint16): (s: seq<Byte>)
    ensures |s| == 2 && Be16(s, 0) == v
  {
    [v / 0x100, v % 0x100]
  }

  /** A frame with its registers named, multi-byte registers as integers. */
  datatype Fields = Fields(
    state: Byte,
    check: Byte,
    voltageParam: Uint24,
    voltageReg: Uint24,
    currentParam: Uint24,
    currentReg: Uint24,
    powerParam: Uint24,
    powerReg: Uint24,
    update: Byte,
    pf: Uint16,
    checksum: Byte)

  /** Reads every register of the memory map out of a frame. */
  function Decode(f: Frame): Fields
  {
    Fields(
      f[StateAt], f[CheckAt],
      Be24(f, VoltageParamAt), Be24(f, VoltageRegAt),
      Be24(f, CurrentParamAt), Be24(f, CurrentRegAt),
      Be24(f, PowerParamAt), Be24(f, PowerRegAt),
      f[UpdateAt], Be16(f, PFAt), f[ChecksumAt])
  }

  /** Lays the registers out in transmission order, the inverse of Decode. */
  function Encode(d: Fields): Frame
  {
    var vp, vr := Encode24(d.voltageParam), Encode24(d.voltageReg);
    var cp, cr := Encode24(d.currentParam), Encode24(d.currentReg);
    var pp, pr := Encode24(d.powerParam), Encode24(d.powerReg);
    var pf := Encode16(d.pf);
    [d.state, d.check,
     vp[0], vp[1], vp[2], vr[0], vr[1], vr[2],
     cp[0], cp[1], cp[2], cr[0], cr[1], cr[2],
     pp[0], pp[1], pp[2], pr[0], pr[1], pr[2],
     d.update, pf[0], pf[1], d.checksum]
  }

  /** Three bytes are determined by the 24-bit value they carry. */
  lemma Be24Injective(s: seq<Byte>, i: nat, t: seq<Byte>, j: nat)
    requires i + 3 <= |s| && j + 3 <= |t|
    requires Be24(s, i) == Be24(t, j)
    ensures s[i..i + 3] == t[j..j + 3]
  {
    Be24Bytes(s, i);
    Be24Bytes(t, j);
    assert s[i..i + 3] == [s[i], s[i + 1], s[i + 2]];
    assert t[j..j + 3] == [t[j], t[j + 1], t[j + 2]];
  }

  /** Reading back the registers laid out in transmission order gives them
      unchanged. */
  lemma DecodeEncode(d: Fields)
    ensures Decode(Encode(d)) == d
  {
    var vp, vr := Encode24(d.voltageParam), Encode24(d.voltageReg);
    var cp, cr := Encode24(d.currentParam), Encode24(d.currentReg);
    var pp, pr := Encode24(d.powerParam), Encode24(d.powerReg);
    var pf := Encode16(d.pf);
    var f := Encode(d);
    assert Be24(f, VoltageParamAt) == Be24(vp, 0) && Be24(f, VoltageRegAt) == Be24(vr, 0);
    assert Be24(f, CurrentParamAt) == Be24(cp, 0) && Be24(f, CurrentRegAt) == Be24(cr, 0);
    assert Be24(f, PowerParamAt) == Be24(pp, 0) && Be24(f, PowerRegAt) == Be24(pr, 0);
    assert Be16(f, PFAt) == Be16(pf, 0);
  }

  /** Every frame is the encoding of its decoded registers. */
  lemma EncodeDecode(f: Frame)
    ensures Encode(Decode(f)) == f
  {
    Be24Bytes(f, VoltageParamAt);
    Be24Bytes(f, VoltageRegAt);
    Be24Bytes(f, CurrentParamAt);
    Be24Bytes(f, CurrentRegAt);
    Be24Bytes(f, PowerParamAt);
    Be24Bytes(f, PowerRegAt);
    Be16Bytes(f, PFAt);
    var g := Encode(Decode(f));
    assert forall k | 0 <= k < TransmissionLength :: g[k] == f[k];
  }

  /** The plain integer sum of a byte sequence. */
  function Sum(s: seq<Byte>): nat
  {
    if s == [] then 0 else s[0] + Sum(s[1..])
  }

  lemma {:induction false} SumSnoc(s: seq<Byte>, b: Byte)
    ensures Sum(s + [b]) == Sum(s) + b
  {
    if s == [] {
      assert [] + [b] == [b];
    } else {
      assert (s + [b])[1..] == s[1..] + [b];
      SumSnoc(s[1..], b);
    }
  }

  lemma {:induction false} SumAppend(s: seq<Byte>, t: seq<Byte>)
    ensures Sum(s + t) == Sum(s) + Sum(t)
  {
    if s != [] {
      assert (s + t)[1..] == s[1..] + t;
      SumAppend(s[1..], t);
    } else {
      assert s + t == t;
    }
  }

  lemma {:induction false} SumZeros(s: seq<Byte>)
    requires forall k | 0 <= k < |s| :: s[k] == 0
    ensures Sum(s) == 0
  {
    if s != [] {
      SumZeros(s[1..]);
    }
  }

  lemma Sum3(s: seq<Byte>)
    requires |s| == 3
    ensures Sum(s) == s[0] as int + s[1] as int + s[2] as int
  {
    assert Sum(s[2..]) == s[2] as int by {
      assert s[2..][1..] == [];
    }
    assert s[1..][1..] == s[2..];
    assert Sum(s[1..]) == s[1] as int + s[2] as int;
  }

  /** Whole multiples of 256 do not change a byte remainder. */
  lemma ByteShift(q: nat, y: nat)
    ensures (q * 0x100 + y) % 0x100 == y % 0x100
  {
  }

  /** Two sums closer than 256 apart and not equal differ modulo 256. */
  lemma ByteRemaindersDiffer(x: nat, y: nat)
    requires x != y && -0x100 < x - y < 0x100
    ensures x % 0x100 != y % 0x100
  {
    var qx, qy := x / 0x100, y / 0x100;
    assert x == qx * 0x100 + x % 0x100;
    assert y == qy * 0x100 + y % 0x100;
    assert x - y == (qx - qy) * 0x100 + (x % 0x100 - y % 0x100);
  }

  /** The sum an 8-bit accumulator holds after adding the bytes one by one,
      each addition wrapping around at 256. */
  function ByteSum(s: seq<Byte>): (r: Byte)
    ensures r == Sum(s) % 0x100
  {
    if s == [] then 0
    else
      var init := s[..|s| - 1];
      assert init + [s[|s| - 1]] == s;
      SumSnoc(init, s[|s| - 1]);
      var acc := ByteSum(init);
      var q := Sum(init) / 0x100;
      assert Sum(s) == q * 0x100 + (acc + s[|s| - 1]);
      ByteShift(q, acc + s[|s| - 1]);
      (acc + s[|s| - 1]) % 0x100
  }

  /** The bytes the checksum covers: 2 through 22, skipping the state and
      check registers and the checksum register itself. */
  function Covered(f: Frame): (c: seq<Byte>)
    ensures |c| == ChecksumAt - VoltageParamAt
    ensures forall k :: 0 <= k < |c| ==> c[k] == f[VoltageParamAt + k]
  {
    f[VoltageParamAt..ChecksumAt]
  }

  /** The frame's checksum register agrees with its contents. */
  predicate ChecksumOk(f: Frame)
    ensures ChecksumOk(f) <==> Sum(Covered(f)) % 0x100 == f[ChecksumAt]
  {
    ByteSum(Covered(f)) == f[ChecksumAt]
  }

  lemma {:induction false} SumUpdate(s: seq<Byte>, i: nat, b: Byte)
    requires i < |s|
    ensures Sum(s[i := b]) == Sum(s) - s[i] + b
  {
    if i > 0 {
      assert s[i := b][1..] == s[1..][i - 1 := b];
      SumUpdate(s[1..], i - 1, b);
    }
  }

  /** Changing any one covered byte of a frame that passes the checksum makes
      it fail: the 8-bit sum detects every single-byte corruption. */
  lemma SingleByteErrorDetected(f: Frame, i: nat, b: Byte)
    requires ChecksumOk(f)
    requires VoltageParamAt <= i < ChecksumAt && b != f[i]
    ensures !ChecksumOk(f[i := b])
  {
    var g := f[i := b];
    var c := Covered(f);
    assert Covered(g) == c[i - VoltageParamAt := b];
    SumUpdate(c, i - VoltageParamAt, b);
    ByteRemaindersDiffer(Sum(Covered(g)), Sum(c));
    assert g[ChecksumAt] == f[ChecksumAt];
  }

  /** The state and check registers do not enter the checksum. */
  lemma ChecksumSkipsStateAndCheck(f: Frame, state: Byte, check: Byte)
    ensures ChecksumOk(f[StateAt := state][CheckAt := check]) == ChecksumOk(f)
  {
    assert Covered(f[StateAt := state][CheckAt := check]) == Covered(f);
  }

  /** `b` shifted right by `k` places: `b >> k`. */
  function ShiftRight(b: Byte, k: nat): Byte
    requires k < 8
  {
    match k
    case 0 => b
    case 1 => b / 2
    case 2 => b / 4
    case 3 => b / 8
    case 4 => b / 16
    case 5 => b / 32
    case 6 => b / 64
    case _ => b / 128
  }

  /** Shifting by zero places keeps the byte, and each further place halves
      it, dropping the remainder: the recurrence that defines `b >> k`. */
  lemma ShiftRightStep(b: Byte, k: nat)
    requires k < 8
    ensures k == 0 ==> ShiftRight(b, k) == b
    ensures k > 0 ==> ShiftRight(b, k) == ShiftRight(b, k - 1) / 2
  {
    match k
    case 0 =>
    case 1 =>
    case 2 => assert b / 4 == b / 2 / 2;
    case 3 => assert b / 8 == b / 4 / 2;
    case 4 => assert b / 16 == b / 8 / 2;
    case 5 => assert b / 32 == b / 16 / 2;
    case 6 => assert b / 64 == b / 32 / 2;
    case _ => assert b / 128 == b / 64 / 2;
  }

  /** Bit `k` of `b` is one: `(b >> k) & 1 == 1`. */
  predicate BitRead(b: Byte, k: nat)
    requires k < 8
  {
    ShiftRight(b, k) % 2 == 1
  }

  /** The bit tests on the update register, in plain arithmetic. */
  lemma BitReadUpdateBits(b: Byte)
    ensures BitRead(b, PFOverflowBit) <==> b >= 128
    ensures BitRead(b, VoltageBit) <==> b / 64 % 2 == 1
    ensures BitRead(b, CurrentBit) <==> b / 32 % 2 == 1
    ensures BitRead(b, PowerBit) <==> b / 16 % 2 == 1
  {
  }

  /** The update register with its four top flags and low nibble given. */
  function UpdateRegister(overflow: bool, voltage: bool, current: bool, power: bool, low: nat): (b: Byte)
    requires low < 16
    ensures b % 16 == low
  {
    (if overflow then 128 else 0) + (if voltage then 64 else 0)
    + (if current then 32 else 0) + (if power then 16 else 0) + low
  }

  /** Each flag of the update register is read back by its own bit. */
  lemma BitReadUpdateRegister(overflow: bool, voltage: bool, current: bool, power: bool, low: nat)
    requires low < 16
    ensures BitRead(UpdateRegister(overflow, voltage, current, power, low), PFOverflowBit) == overflow
    ensures BitRead(UpdateRegister(overflow, voltage, current, power, low), VoltageBit) == voltage
    ensures BitRead(UpdateRegister(overflow, voltage, current, power, low), CurrentBit) == current
    ensures BitRead(UpdateRegister(overflow, voltage, current, power, low), PowerBit) == power
  {
    var b := UpdateRegister(overflow, voltage, current, power, low);
    var p := (if power then 1 else 0);
    var c := (if current then 1 else 0);
    var v := (if voltage then 1 else 0);
    var o := (if overflow then 1 else 0);
    assert b == 16 * (p + 2 * (c + 2 * (v + 2 * o))) + low;
    assert b / 16 == p + 2 * (c + 2 * (v + 2 * o));
    assert b / 32 == c + 2 * (v + 2 * o);
    assert b / 64 == v + 2 * o;
    assert b / 128 == o;
  }
}
