/** The command layer of `GMMKInterface` (src/plugins/GMMKPlugin.ts, lines
    44-225): one reusable 64-byte buffer, two flags, and the reports handed to
    the device, modelled as an append-only log. Every operation is a function
    from the state before to the state after. */
module GmmkInterface {
  import opened GmmkConstants
  import opened GmmkPacket

  /** The protocol-relevant fields of a `GMMKInterface`. `sent` is every
      report the device has received, oldest first. */
  datatype Gmmk = Gmmk(
    buffer: Packet,
    deviceSelected: bool,
    initialized: bool,
    colors: seq<RGBColor>,
    sent: seq<Report>)

  /** The constructor: zeroed buffer, no device, not initialized, 126 white keys. */
  function New(): (g: Gmmk)
    ensures g.buffer == Zeros() && !g.deviceSelected && !g.initialized && g.sent == []
    ensures |g.colors| == MaxKey && forall i | 0 <= i < |g.colors| :: g.colors[i] == White
  {
    Gmmk(Zeros(), false, false, FillSingleColor(White, MaxKey), [])
  }

  /** Only the buffer and the log may differ. */
  ghost predicate SameSession(g: Gmmk, h: Gmmk)
  {
    h.deviceSelected == g.deviceSelected && h.initialized == g.initialized && h.colors == g.colors
  }

  /** `h.sent` is `g.sent` followed by `n` reports that all went through `write`. */
  ghost predicate Appended(g: Gmmk, h: Gmmk, n: nat)
  {
    && |h.sent| == |g.sent| + n
    && h.sent[..|g.sent|] == g.sent
    && forall k | |g.sent| <= k < |h.sent| :: WellFormed(h.sent[k])
  }

  /** The `k`-th packet sent since state `g`. */
  function NewPacket(g: Gmmk, h: Gmmk, k: nat): Packet
    requires |g.sent| + k < |h.sent|
  {
    PacketOf(h.sent[|g.sent| + k])
  }

  /** The most recently sent packet. */
  function LastPacket(h: Gmmk): Packet
    requires |h.sent| > 0
  {
    PacketOf(h.sent[|h.sent| - 1])
  }

  /** Bytes 3..63 of a packet whose only non-zero bytes from the command byte
      on are the command (3), the sub-command (4), byte 5 and the argument (8). */
  function Body(cmd: byte, b4: byte, b5: byte, arg: byte): (s: seq<byte>)
    ensures |s| == PacketSize - CommandOffset
  {
    [cmd, b4, b5, 0, 0, arg] + seq(55, _ => 0)
  }

  /** Two packets that agree from byte `k` on agree at every such index. */
  lemma SameFrom(p: Packet, q: Packet, k: nat)
    requires k <= PacketSize && p[k..] == q[k..]
    ensures forall i | k <= i < PacketSize :: p[i] == q[i]
  {
    forall i | k <= i < PacketSize
      ensures p[i] == q[i]
    {
      assert p[i] == p[k..][i - k];
    }
  }

  /** A packet's bytes 3..63 are `Body(cmd, b4, b5, arg)` when bytes 3, 4, 5
      and 8 hold those values and every other byte from 6 on is zero. */
  lemma CheckedBody(p: Packet, cmd: byte, b4: byte, b5: byte, arg: byte)
    requires p[CommandOffset] == cmd && p[SubcmdCmdOffset] == b4
    requires p[SubcmdCmdOffset + 1] == b5 && p[SubcmdArgOffset] == arg
    requires forall i | SubcmdCmdOffset + 2 <= i < PacketSize && i != SubcmdArgOffset :: p[i] == 0
    ensures Checked(p) == Body(cmd, b4, b5, arg)
  {
    var body := Body(cmd, b4, b5, arg);
    forall i | 0 <= i < PacketSize - CommandOffset
      ensures Checked(p)[i] == body[i]
    {
      if i >= 6 {
        assert body[i] == seq(55, _ => 0)[i - 6];
      }
    }
  }

  /** A packet whose first three bytes are zero is those zeros followed by
      its checked region. */
  lemma ZeroHeader(p: Packet)
    requires p[0] == 0 && p[1] == 0 && p[2] == 0
    ensures p == [0, 0, 0] + Checked(p)
  {
  }

  /** Three reports sent one after another, read back from the first state. */
  lemma ThreeSent(g: Gmmk, a: Gmmk, b: Gmmk, h: Gmmk)
    requires Appended(g, a, 1) && Appended(a, b, 1) && Appended(b, h, 1)
    ensures Appended(g, h, 3)
    ensures NewPacket(g, h, 0) == LastPacket(a)
    ensures NewPacket(g, h, 1) == LastPacket(b)
    ensures NewPacket(g, h, 2) == LastPacket(h)
  {
    assert h.sent[..|a.sent|] == a.sent by {
      assert h.sent[..|a.sent|] == h.sent[..|b.sent|][..|a.sent|];
    }
    assert h.sent[..|g.sent|] == g.sent by {
      assert h.sent[..|g.sent|] == h.sent[..|a.sent|][..|g.sent|];
    }
    assert h.sent[|g.sent|] == a.sent[|g.sent|] && h.sent[|g.sent| + 1] == b.sent[|a.sent|] by {
      assert h.sent[|g.sent|] == h.sent[..|a.sent|][|g.sent|];
      assert h.sent[|g.sent| + 1] == h.sent[..|b.sent|][|a.sent|];
    }
    forall k | |g.sent| <= k < |h.sent|
      ensures WellFormed(h.sent[k])
    {
      if k == |g.sent| {
        assert a.sent[k] == h.sent[k];
      } else if k == |g.sent| + 1 {
        assert b.sent[k] == h.sent[k];
      }
    }
  }

  /** `write(this.buffer)`. */
  function WriteBuffer(g: Gmmk): (h: Gmmk)
    ensures SameSession(g, h)
    ensures Checked(h.buffer) == Checked(g.buffer)
    ensures !g.deviceSelected ==> h == g
    ensures g.deviceSelected ==>
      && Appended(g, h, 1)
      && LastPacket(h) == h.buffer
      && h.buffer[0] == ReportId
  {
    var w := Write(g.deviceSelected, g.buffer, g.sent);
    g.(buffer := w.buffer, sent := w.sent)
  }

  /** `write(message)` on a buffer other than `this.buffer`: the message is
      stamped and sent, and `this.buffer` is left alone. */
  function WriteMessage(g: Gmmk, message: Packet): (h: Gmmk)
    ensures SameSession(g, h) && h.buffer == g.buffer
    ensures !g.deviceSelected ==> h.sent == g.sent
    ensures g.deviceSelected ==>
      && Appended(g, h, 1)
      && LastPacket(h)[0] == ReportId
      && Checked(LastPacket(h)) == Checked(message)
  {
    g.(sent := Write(g.deviceSelected, message, g.sent).sent)
  }

  /** `resetBuffer`. */
  function ResetBuffer(g: Gmmk): (h: Gmmk)
    ensures SameSession(g, h) && h.sent == g.sent
    ensures forall i | 0 <= i < PacketSize :: h.buffer[i] == 0
  {
    g.(buffer := Zeros())
  }

  /** Both bracketing commands: byte 3 is overwritten, nothing else, then the
      buffer is written. The assignment precedes `write`'s device check, so
      without a device byte 3 still changes. */
  ghost predicate Bracketed(g: Gmmk, h: Gmmk, cmd: byte)
  {
    && SameSession(g, h)
    && h.buffer[CommandOffset] == cmd
    && h.buffer[CommandOffset + 1..] == g.buffer[CommandOffset + 1..]
    && (!g.deviceSelected ==> h.buffer[..CommandOffset] == g.buffer[..CommandOffset] && h.sent == g.sent)
    && (g.deviceSelected ==> Appended(g, h, 1) && LastPacket(h) == h.buffer && h.buffer[0] == ReportId)
  }

  /** `startCommand`. */
  function StartCommand(g: Gmmk): (h: Gmmk)
    ensures Bracketed(g, h, CmdStart)
  {
    WriteBuffer(g.(buffer := g.buffer[CommandOffset := CmdStart]))
  }

  /** `endCommand`. */
  function EndCommand(g: Gmmk): (h: Gmmk)
    ensures Bracketed(g, h, CmdEnd)
  {
    WriteBuffer(g.(buffer := g.buffer[CommandOffset := CmdEnd]))
  }

  /** `setMode`. The sub-command fields are placed first, but `startCommand`
      then overwrites byte 3, so the mode packet itself goes out as a second
      START packet carrying the mode byte. */
  function SetMode(g: Gmmk, mode: int): (h: Gmmk)
    ensures SameSession(g, h)
    ensures !g.deviceSelected ==> h.sent == g.sent
    ensures g.deviceSelected ==> Appended(g, h, 3)
  {
    var g0 := ResetBuffer(g);
    var b := g0.buffer[CommandOffset := CmdSubcommand][SubcmdCmdOffset := 0x01][SubcmdArgOffset := ToUint8(mode)];
    var g1 := StartCommand(g0.(buffer := b));
    var g2 := WriteBuffer(g1);
    var h := EndCommand(g2);
    if g.deviceSelected then
      ThreeSent(g, g1, g2, h);
      h
    else
      h
  }

  /** The three packets of `setMode`: START with the mode fields, the same
      packet again, END with the mode fields; the buffer keeps the last. */
  lemma SetModePackets(g: Gmmk, mode: int)
    requires g.deviceSelected
    ensures var h := SetMode(g, mode);
      && Checked(NewPacket(g, h, 0)) == Body(CmdStart, 0x01, 0, ToUint8(mode))
      && NewPacket(g, h, 1) == NewPacket(g, h, 0)
      && Checked(NewPacket(g, h, 2)) == Body(CmdEnd, 0x01, 0, ToUint8(mode))
      && h.buffer == NewPacket(g, h, 2)
  {
    var m := ToUint8(mode);
    var g0 := ResetBuffer(g);
    var b := g0.buffer[CommandOffset := CmdSubcommand][SubcmdCmdOffset := 0x01][SubcmdArgOffset := m];
    var g1 := StartCommand(g0.(buffer := b));
    var g2 := WriteBuffer(g1);
    var h := EndCommand(g2);
    ThreeSent(g, g1, g2, h);
    SameFrom(g1.buffer, b, CommandOffset + 1);
    SameFrom(g2.buffer, g1.buffer, CommandOffset);
    SameFrom(h.buffer, g2.buffer, CommandOffset + 1);
    CheckedBody(g1.buffer, CmdStart, 0x01, 0, m);
    CheckedBody(h.buffer, CmdEnd, 0x01, 0, m);
  }

  /** Without a device `setMode` still leaves the END command with the mode
      fields in the buffer. */
  lemma SetModeWithoutDevice(g: Gmmk, mode: int)
    requires !g.deviceSelected
    ensures SetMode(g, mode).buffer == [0, 0, 0] + Body(CmdEnd, 0x01, 0, ToUint8(mode))
  {
    var m := ToUint8(mode);
    var g0 := ResetBuffer(g);
    var b := g0.buffer[CommandOffset := CmdSubcommand][SubcmdCmdOffset := 0x01][SubcmdArgOffset := m];
    var g1 := StartCommand(g0.(buffer := b));
    var h := EndCommand(g1);
    SameFrom(g1.buffer, b, CommandOffset + 1);
    SameFrom(h.buffer, g1.buffer, CommandOffset + 1);
    CheckedBody(h.buffer, CmdEnd, 0x01, 0, m);
    ZeroHeader(h.buffer);
  }

  /** `setCustomMode`: mode 20. */
  function SetCustomMode(g: Gmmk): (h: Gmmk)
    ensures SameSession(g, h)
    ensures !g.deviceSelected ==> h.sent == g.sent
    ensures g.deviceSelected ==> Appended(g, h, 3)
  {
    SetMode(g, 20)
  }

  /** The mode packet of `setCustomMode` carries mode 20 under the START
      command byte. */
  lemma SetCustomModePackets(g: Gmmk)
    requires g.deviceSelected
    ensures var p := NewPacket(g, SetCustomMode(g), 1);
      p[CommandOffset] == CmdStart && p[SubcmdCmdOffset] == 0x01 && p[SubcmdArgOffset] == 20
  {
    SetModePackets(g, 20);
    var p := NewPacket(g, SetMode(g, 20), 1);
    assert p[CommandOffset] == Checked(p)[0];
    assert p[SubcmdCmdOffset] == Checked(p)[1];
    assert p[SubcmdArgOffset] == Checked(p)[5];
  }

  /** `setProfile`. The message is a copy of the vendor template with the
      profile byte replaced; it is written from its own buffer, so `this.buffer`
      only sees the START and END commands around it. */
  function SetProfile(g: Gmmk, profile: int): (h: Gmmk)
    requires 1 <= profile <= 3
    ensures SameSession(g, h)
    ensures !g.deviceSelected ==> h == g
    ensures g.deviceSelected ==> Appended(g, h, 3)
  {
    if !g.deviceSelected then g
    else
      var message := DataSetProfile[ProfileIndex := ToUint8(profile - 1)];
      var g1 := StartCommand(g);
      var g2 := WriteMessage(g1, message);
      var h := EndCommand(g2);
      ThreeSent(g, g1, g2, h);
      h
  }

  /** The three packets of `setProfile`: START over the old buffer, the
      template with byte 18 set to `profile - 1` (and its checksum
      recomputed), END over the old buffer. */
  lemma SetProfilePackets(g: Gmmk, profile: int)
    requires 1 <= profile <= 3
    requires g.deviceSelected
    ensures var h := SetProfile(g, profile);
      && NewPacket(g, h, 0)[CommandOffset] == CmdStart
      && NewPacket(g, h, 0)[CommandOffset + 1..] == g.buffer[CommandOffset + 1..]
      && NewPacket(g, h, 1)[0] == ReportId
      && NewPacket(g, h, 1)[ProfileIndex] == profile - 1
      && (forall i | CommandOffset <= i < PacketSize && i != ProfileIndex ::
            NewPacket(g, h, 1)[i] == DataSetProfile[i])
      && NewPacket(g, h, 2)[CommandOffset] == CmdEnd
      && NewPacket(g, h, 2)[CommandOffset + 1..] == g.buffer[CommandOffset + 1..]
      && h.buffer == NewPacket(g, h, 2)
  {
    var message := DataSetProfile[ProfileIndex := ToUint8(profile - 1)];
    var g1 := StartCommand(g);
    var g2 := WriteMessage(g1, message);
    var h := EndCommand(g2);
    ThreeSent(g, g1, g2, h);
    SameFrom(LastPacket(g2), message, CommandOffset);
  }

  /** The clamp `setDelay` applies to its argument. */
  function ClampDelay(delay: int): (d: byte)
    ensures 0 <= delay <= 0xff ==> d == delay
    ensures delay < 0 ==> d == 0
    ensures delay > 0xff ==> d == 0xff
  {
    Max(0, Min(delay, 0xff))
  }

  /** The common shape of `setDelay` and `setRate`: reset the buffer, send
      START, fill in sub-command 0x01 with selector `sub` in byte 5 and the
      argument in byte 8, send it, send END. */
  function SendSubcommand(g: Gmmk, sub: byte, arg: byte): (h: Gmmk)
    ensures SameSession(g, h)
    ensures !g.deviceSelected ==> h.sent == g.sent
    ensures g.deviceSelected ==> Appended(g, h, 3)
  {
    var g0 := StartCommand(ResetBuffer(g));
    var b := g0.buffer[CommandOffset := CmdSubcommand][SubcmdCmdOffset := 0x01]
                      [SubcmdCmdOffset + 1 := sub][SubcmdArgOffset := arg];
    var g1 := WriteBuffer(g0.(buffer := b));
    var h := EndCommand(g1);
    if g.deviceSelected then
      ThreeSent(g, g0, g1, h);
      h
    else
      h
  }

  /** The three packets of a sub-command: a bare START, the sub-command with
      its selector and argument, and END carrying the same fields. */
  lemma SendSubcommandPackets(g: Gmmk, sub: byte, arg: byte)
    requires g.deviceSelected
    ensures var h := SendSubcommand(g, sub, arg);
      && Checked(NewPacket(g, h, 0)) == Body(CmdStart, 0, 0, 0)
      && Checked(NewPacket(g, h, 1)) == Body(CmdSubcommand, 0x01, sub, arg)
      && Checked(NewPacket(g, h, 2)) == Body(CmdEnd, 0x01, sub, arg)
      && h.buffer == NewPacket(g, h, 2)
  {
    var z := ResetBuffer(g);
    var g0 := StartCommand(z);
    var b := g0.buffer[CommandOffset := CmdSubcommand][SubcmdCmdOffset := 0x01]
                      [SubcmdCmdOffset + 1 := sub][SubcmdArgOffset := arg];
    var g1 := WriteBuffer(g0.(buffer := b));
    var h := EndCommand(g1);
    ThreeSent(g, g0, g1, h);
    SameFrom(g0.buffer, z.buffer, CommandOffset + 1);
    SameFrom(g1.buffer, b, CommandOffset);
    SameFrom(h.buffer, g1.buffer, CommandOffset + 1);
    CheckedBody(g0.buffer, CmdStart, 0, 0, 0);
    CheckedBody(b, CmdSubcommand, 0x01, sub, arg);
    CheckedBody(h.buffer, CmdEnd, 0x01, sub, arg);
  }

  /** Without a device the buffer still ends up holding END with the
      sub-command fields. */
  lemma SendSubcommandWithoutDevice(g: Gmmk, sub: byte, arg: byte)
    requires !g.deviceSelected
    ensures SendSubcommand(g, sub, arg).buffer == [0, 0, 0] + Body(CmdEnd, 0x01, sub, arg)
  {
    var z := ResetBuffer(g);
    var g0 := StartCommand(z);
    var b := g0.buffer[CommandOffset := CmdSubcommand][SubcmdCmdOffset := 0x01]
                      [SubcmdCmdOffset + 1 := sub][SubcmdArgOffset := arg];
    var h := EndCommand(g0.(buffer := b));
    SameFrom(h.buffer, b, CommandOffset + 1);
    CheckedBody(h.buffer, CmdEnd, 0x01, sub, arg);
    ZeroHeader(h.buffer);
  }

  /** `setDelay`: selector 0x02, argument clamped to 0..255. */
  function SetDelay(g: Gmmk, delay: int): (h: Gmmk)
    ensures SameSession(g, h)
    ensures !g.deviceSelected ==> h.sent == g.sent
    ensures g.deviceSelected ==> Appended(g, h, 3)
  {
    SendSubcommand(g, 0x02, ClampDelay(delay))
  }

  /** What `setDelay` sends: the clamped delay under selector 0x02. */
  lemma SetDelayPackets(g: Gmmk, delay: int)
    requires g.deviceSelected
    ensures var h := SetDelay(g, delay);
      && Checked(NewPacket(g, h, 0)) == Body(CmdStart, 0, 0, 0)
      && Checked(NewPacket(g, h, 1)) == Body(CmdSubcommand, 0x01, 0x02, ClampDelay(delay))
      && Checked(NewPacket(g, h, 2)) == Body(CmdEnd, 0x01, 0x02, ClampDelay(delay))
  {
    SendSubcommandPackets(g, 0x02, ClampDelay(delay));
  }

  /** `setRate`: selector 0x0f, argument stored unclamped. */
  function SetRate(g: Gmmk, rate: int): (h: Gmmk)
    ensures SameSession(g, h)
    ensures !g.deviceSelected ==> h.sent == g.sent
    ensures g.deviceSelected ==> Appended(g, h, 3)
  {
    SendSubcommand(g, 0x0f, ToUint8(rate))
  }

  /** What `setRate` sends: only the low byte of the rate reaches the device. */
  lemma SetRatePackets(g: Gmmk, rate: int)
    requires g.deviceSelected
    ensures var h := SetRate(g, rate);
      && Checked(NewPacket(g, h, 0)) == Body(CmdStart, 0, 0, 0)
      && Checked(NewPacket(g, h, 1)) == Body(CmdSubcommand, 0x01, 0x0f, ToUint8(rate))
      && Checked(NewPacket(g, h, 2)) == Body(CmdEnd, 0x01, 0x0f, ToUint8(rate))
  {
    SendSubcommandPackets(g, 0x0f, ToUint8(rate));
  }

  lemma ProfileRowSums()
    ensures Sum(ProfileRow0) == 558 && Sum(ProfileRow1) == 240 && Sum(ProfileRow2) == 45
    ensures Sum(ProfileRow3) == 146 && Sum(ProfileRow4) == 0 && Sum(ProfileRow5) == 0
  {
    Row0Sum();
    Row1Sum();
    Row2Sum();
    Row3Sum();
    Row4Sum();
    Row5Sum();
  }

  lemma Row0Sum() ensures Sum(ProfileRow0) == 558 {}
  lemma Row1Sum() ensures Sum(ProfileRow1) == 240 {}
  lemma Row2Sum() ensures Sum(ProfileRow2) == 45 {}
  lemma Row3Sum() ensures Sum(ProfileRow3) == 146 {}
  lemma Row4Sum() ensures Sum(ProfileRow4) == 0 {}
  lemma Row5Sum() ensures Sum(ProfileRow5) == 0 {}

  /** The stored checksum bytes of the template, 0xdd 0x03, are the sum of
      its bytes from the command byte on. */
  lemma TemplateChecksum()
    ensures ChecksumValid(DataSetProfile)
  {
    assert DataSetProfile[..3] == ProfileHeader;
    assert DataSetProfile[1] == DataSetProfile[..3][1];
    assert DataSetProfile[2] == DataSetProfile[..3][2];
    assert Checked(DataSetProfile)
      == ProfileRow0 + ProfileRow1 + ProfileRow2 + ProfileRow3 + ProfileRow4 + ProfileRow5;
    ProfileRowSums();
    SumConcat(ProfileRow0 + ProfileRow1 + ProfileRow2 + ProfileRow3 + ProfileRow4, ProfileRow5);
    SumConcat(ProfileRow0 + ProfileRow1 + ProfileRow2 + ProfileRow3, ProfileRow4);
    SumConcat(ProfileRow0 + ProfileRow1 + ProfileRow2, ProfileRow3);
    SumConcat(ProfileRow0 + ProfileRow1, ProfileRow2);
    SumConcat(ProfileRow0, ProfileRow1);
  }

  /** Profile 1 leaves the profile byte at its template value 0, and the
      template's stored checksum is already right, so `setProfile(1)` sends
      the template byte for byte. */
  lemma SetProfileOneSendsTemplate(g: Gmmk)
    requires g.deviceSelected
    ensures NewPacket(g, SetProfile(g, 1), 1) == DataSetProfile
  {
    var p := NewPacket(g, SetProfile(g, 1), 1);
    SetProfilePackets(g, 1);
    TemplateChecksum();
    assert p[ProfileIndex] == DataSetProfile[ProfileIndex];
    assert Checked(p) == Checked(DataSetProfile);
    assert WellFormed(SetProfile(g, 1).sent[|g.sent| + 1]);
    assert p[0] == DataSetProfile[0];
  }
}
