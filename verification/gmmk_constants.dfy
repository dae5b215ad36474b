/** Constants, byte conversion, colours and the profile template of the GMMK
    keyboard protocol (src/plugins/GMMKPlugin.ts, lines 4-42). */
module GmmkConstants {

  /** An element of a `Uint8Array`. */
  type byte = x: int | 0 <= x < 256

  const CmdStart: byte := 0x01
  const CmdEnd: byte := 0x02
  const CmdKeyColors: byte := 0x11

  const CmdSubcommand: byte := 6
  const SubcmdCmdOffset: nat := 4
  const SubcmdArgOffset: nat := 8

  const PacketSize: nat := 64
  const CommandOffset: nat := 3
  const MaxKey: nat := 126
  const SumOffset: nat := 1

  const KeyColorsCountOffset: nat := 4
  const KeyColorsStartOffset: nat := 5
  const KeyColorsDataOffset: nat := 8
  /** Colour bytes one KEYCOLORS packet can carry: the whole RGB triples
      that fit behind the 8-byte header (see `KeyColorsCapacity`). */
  const KeyColorsDataSize: nat := 54
  /** Keys one KEYCOLORS packet can carry. */
  const KeysPerPacket: nat := 18

  /** The report id `write` stamps into byte 0 and passes to the transport. */
  const ReportId: byte := 0x04

  /** The 64-byte buffer every packet is built in. */
  type Packet = p: seq<byte> | |p| == PacketSize witness seq(64, _ => 0)

  /** A freshly allocated (or reset) buffer. */
  function Zeros(): Packet
  {
    seq(PacketSize, _ => 0)
  }

  /** The data size is floor((64 - 8) / 3) * 3 as the source computes it, a
      whole number of keys, and it fits in the packet. */
  lemma KeyColorsCapacity()
    ensures KeyColorsDataSize == ((PacketSize - KeyColorsDataOffset) / 3) * 3
    ensures KeyColorsDataSize % 3 == 0 && KeyColorsDataSize / 3 == KeysPerPacket
    ensures KeyColorsDataOffset + KeyColorsDataSize <= PacketSize
  {
  }

  /** Storing a number into a `Uint8Array` keeps it modulo 256; Dafny's `%`
      on a positive divisor never yields a negative remainder, which is
      exactly the conversion JavaScript performs on integers. */
  function ToUint8(x: int): (b: byte)
    ensures 0 <= x < 256 ==> b == x
    ensures (x - b) % 256 == 0
  {
    x % 256
  }

  function Min(a: int, b: int): int { if a < b then a else b }
  function Max(a: int, b: int): int { if a < b then b else a }

  /** A key colour: three numbers, truncated to bytes only when written. */
  datatype RGBColor = RGBColor(r: int, g: int, b: int)

  const White: RGBColor := RGBColor(0xff, 0xff, 0xff)

  /** Channel `j` (0 red, 1 green, 2 blue) of `c` as it lands in a buffer:
      the byte congruent to the channel value modulo 256. */
  function Channel(c: RGBColor, j: nat): (b: byte)
    requires j < 3
    ensures j == 0 ==> (c.r - b) % 256 == 0
    ensures j == 1 ==> (c.g - b) % 256 == 0
    ensures j == 2 ==> (c.b - b) % 256 == 0
  {
    if j == 0 then ToUint8(c.r) else if j == 1 then ToUint8(c.g) else ToUint8(c.b)
  }

  /** `fillSingleColor`: `n` clamped to 0..MaxKey copies of `color`. */
  function FillSingleColor(color: RGBColor, n: int): (r: seq<RGBColor>)
    ensures |r| <= MaxKey
    ensures n <= 0 ==> r == []
    ensures 0 <= n <= MaxKey ==> |r| == n
    ensures n > MaxKey ==> |r| == MaxKey
    ensures forall i | 0 <= i < |r| :: r[i] == color
  {
    seq(Min(MaxKey, Max(n, 0)), _ => color)
  }

  /** The vendor's "set profile" message; byte 18 selects the profile. */
  const DataSetProfile: Packet :=
    assert |ProfileHeader| == 3 && |ProfileRow0| == 8 && |ProfileRow5| == 9;
    assert |ProfileRow1| == |ProfileRow2| == |ProfileRow3| == |ProfileRow4| == 11;
    ProfileHeader + ProfileRow0 + ProfileRow1 + ProfileRow2 + ProfileRow3 + ProfileRow4 + ProfileRow5

  /** The template in the source's rows: report id and stored checksum, the
      rest of the first row, then the five further rows. */
  const ProfileHeader: seq<byte> := [0x04, 0xdd, 0x03]
  const ProfileRow0: seq<byte> := [0x04, 0x2c, 0x00, 0x00, 0x00, 0x55, 0xaa, 0xff]
  const ProfileRow1: seq<byte> := [0x02, 0x45, 0x0c, 0x2f, 0x65, 0x00, 0x01, 0x00, 0x08, 0x00, 0x00]
  const ProfileRow2: seq<byte> := [0x00, 0x00, 0x01, 0x02, 0x03, 0x04, 0x05, 0x06, 0x08, 0x07, 0x09]
  const ProfileRow3: seq<byte> := [0x0b, 0x0a, 0x0c, 0x0d, 0x0e, 0x0f, 0x10, 0x11, 0x12, 0x14, 0x00]
  const ProfileRow4: seq<byte> := [0x00, 0x00, 0x00, 0x00, 0x00, 0x00, 0x00, 0x00, 0x00, 0x00, 0x00]
  const ProfileRow5: seq<byte> := [0x00, 0x00, 0x00, 0x00, 0x00, 0x00, 0x00, 0x00, 0x00]

  /** Index of the profile byte inside `DataSetProfile`. */
  const ProfileIndex: nat := 18
}
