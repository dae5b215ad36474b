/** Checksumming and sending one report: `GMMKInterface.write`
    (src/plugins/GMMKPlugin.ts, lines 227-241). */
module GmmkPacket {
  import opened GmmkConstants

  /** The 63 bytes handed to the transport after the report id. */
  type ReportData = s: seq<byte> | |s| == PacketSize - 1 witness seq(63, _ => 0)

  /** One report as handed to `sendReport`: an id and the buffer minus byte 0. */
  datatype Report = Report(id: byte, data: ReportData)

  function Sum(s: seq<byte>): nat
  {
    if s == [] then 0 else s[0] + Sum(s[1..])
  }

  lemma {:induction false} SumBound(s: seq<byte>)
    ensures Sum(s) <= 255 * |s|
  {
    if s != [] {
      SumBound(s[1..]);
    }
  }

  lemma {:induction false} SumConcat(a: seq<byte>, b: seq<byte>)
    ensures Sum(a + b) == Sum(a) + Sum(b)
  {
    if a == [] {
      assert a + b == b;
    } else {
      assert (a + b)[1..] == a[1..] + b;
      SumConcat(a[1..], b);
    }
  }

  /** The bytes the checksum covers: the command byte to the end. */
  function Checked(p: Packet): seq<byte>
  {
    p[CommandOffset..]
  }

  /** The checksummed region holds at most 61 bytes of at most 255, so the
      16-bit mask in `write` never changes the sum. */
  lemma ChecksumNeverTruncates(p: Packet)
    ensures Sum(Checked(p)) <= 61 * 255 < 0x1_0000
  {
    SumBound(Checked(p));
  }

  /** The 16-bit value of two bytes, low byte first. */
  function LittleEndian16(lo: byte, hi: byte): nat
  {
    lo as int + 256 * hi as int
  }

  /** Reading bytes 1-2 back as a little-endian number gives the sum of the
      checked region. */
  ghost predicate ChecksumValid(p: Packet)
  {
    LittleEndian16(p[SumOffset], p[SumOffset + 1]) == Sum(Checked(p))
  }

  /** What `write` does to its buffer argument: report id into byte 0 and the
      masked sum into bytes 1-2, low byte first. */
  function Stamp(p: Packet): (q: Packet)
    ensures q[0] == ReportId
    ensures Checked(q) == Checked(p)
    ensures ChecksumValid(q)
  {
    var sum := Sum(Checked(p)) % 0x1_0000;
    ChecksumNeverTruncates(p);
    var q := p[0 := ReportId][SumOffset := sum % 256][SumOffset + 1 := (sum / 256) % 256];
    assert Checked(q) == Checked(p);
    q
  }

  /** The report `write` sends for a stamped buffer. */
  function ReportOf(p: Packet): (r: Report)
    ensures r.id == ReportId
    ensures forall i | 1 <= i < PacketSize :: r.data[i - 1] == p[i]
  {
    Report(ReportId, p[1..])
  }

  /** The 64-byte packet a report stands for, id first. */
  function PacketOf(r: Report): (p: Packet)
    ensures p[0] == r.id && p[1..] == r.data
  {
    [r.id] + r.data
  }

  /** A report that went out through `write`. */
  ghost predicate WellFormed(r: Report)
  {
    r.id == ReportId && ChecksumValid(PacketOf(r))
  }

  lemma PacketOfReportOf(p: Packet)
    requires p[0] == ReportId
    ensures PacketOf(ReportOf(p)) == p
  {
  }

  /** The buffer and the log after a `write`. */
  datatype Written = Written(buffer: Packet, sent: seq<Report>)

  /** `write(buffer)`: with no selected device nothing happens; otherwise the
      buffer is stamped and exactly one well-formed report carrying it is
      appended to the log. */
  function Write(deviceSelected: bool, buffer: Packet, sent: seq<Report>): (w: Written)
    ensures !deviceSelected ==> w.buffer == buffer && w.sent == sent
    ensures deviceSelected ==> w.buffer[0] == ReportId && ChecksumValid(w.buffer)
    ensures Checked(w.buffer) == Checked(buffer)
    ensures deviceSelected ==> w.sent == sent + [ReportOf(w.buffer)]
    ensures deviceSelected ==> WellFormed(ReportOf(w.buffer)) && PacketOf(ReportOf(w.buffer)) == w.buffer
  {
    if !deviceSelected then Written(buffer, sent)
    else
      var q := Stamp(buffer);
      PacketOfReportOf(q);
      Written(q, sent + [ReportOf(q)])
  }
}
