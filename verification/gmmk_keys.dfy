/** Full-frame colour upload: `GMMKInterface.setKeys`
    (src/plugins/GMMKPlugin.ts, lines 164-208). */
module GmmkKeys {
  import opened GmmkConstants
  import opened GmmkPacket
  import opened GmmkInterface

  /** The keys one KEYCOLORS packet carries: `len` keys from key `start`. */
  datatype Chunk = Chunk(start: nat, len: nat)

  /** The chunks `setKeys` cuts `count` keys into, continuing from key `i`:
      as many keys as fit, then the rest. */
  function Chunks(count: nat, i: nat): (cs: seq<Chunk>)
    ensures cs == [] <==> i >= count
    decreases count - i
  {
    if i >= count then []
    else
      var n := Min(KeysPerPacket, count - i);
      [Chunk(i, n)] + Chunks(count, i + n)
  }

  /** Chunk `k` starts `k` full packets after `i` and is full unless it is
      the last one; there are ceil((count - i) / 18) of them. */
  lemma {:induction false} ChunksShape(count: nat, i: nat)
    requires i <= count
    ensures |Chunks(count, i)| == (count - i + KeysPerPacket - 1) / KeysPerPacket
    ensures forall k | 0 <= k < |Chunks(count, i)| ::
      Chunks(count, i)[k] == Chunk(i + KeysPerPacket * k, Min(KeysPerPacket, count - (i + KeysPerPacket * k)))
    decreases count - i
  {
    if i < count {
      var n := Min(KeysPerPacket, count - i);
      ChunksShape(count, i + n);
      var rest := Chunks(count, i + n);
      assert Chunks(count, i) == [Chunk(i, n)] + rest;
      forall k | 1 <= k < |Chunks(count, i)|
        ensures Chunks(count, i)[k] == Chunk(i + KeysPerPacket * k, Min(KeysPerPacket, count - (i + KeysPerPacket * k)))
      {
        assert Chunks(count, i)[k] == rest[k - 1];
      }
    }
  }

  /** A frame of `count` keys takes ceil(count / 18) packets. */
  lemma ChunksCount(count: nat)
    ensures |Chunks(count, 0)| == (count + KeysPerPacket - 1) / KeysPerPacket
  {
    ChunksShape(count, 0);
  }

  /** Taking the next chunk off the chunks still to send. */
  lemma ChunksStep(count: nat, i: nat, done: seq<Chunk>)
    requires i < count && done + Chunks(count, i) == Chunks(count, 0)
    ensures var c := Chunk(i, Min(KeysPerPacket, count - i));
      (done + [c]) + Chunks(count, i + c.len) == Chunks(count, 0)
  {
    var c := Chunk(i, Min(KeysPerPacket, count - i));
    assert Chunks(count, i) == [c] + Chunks(count, i + c.len);
    assert (done + [c]) + Chunks(count, i + c.len) == done + Chunks(count, i);
  }

  /** The chunks of a frame tile it: they start at key 0, each holds 1 to 18
      keys, each begins where the previous ended, and the last ends at the
      final key. */
  lemma ChunksCover(count: nat)
    ensures var cs := Chunks(count, 0);
      && (count == 0 <==> cs == [])
      && (count > 0 ==> cs[0].start == 0 && cs[|cs| - 1].start + cs[|cs| - 1].len == count)
      && (forall k | 0 <= k < |cs| :: 1 <= cs[k].len <= KeysPerPacket)
      && (forall k | 0 <= k < |cs| - 1 :: cs[k].start + cs[k].len == cs[k + 1].start)
  {
    ChunksShape(count, 0);
    var cs := Chunks(count, 0);
    if count > 0 {
      var last := cs[|cs| - 1];
      assert last.start == KeysPerPacket * (|cs| - 1);
    }
  }

  /** On the 126-key keyboard every chunk offset (3 bytes per key) fits in
      nine bits, so the high offset byte is 0 or 1. */
  lemma OffsetHighByteSmall(count: nat)
    requires count <= MaxKey
    ensures forall c | c in Chunks(count, 0) :: 3 * c.start / 256 <= 1
  {
    ChunksShape(count, 0);
    var cs := Chunks(count, 0);
    forall c | c in cs
      ensures 3 * c.start / 256 <= 1
    {
      var k :| 0 <= k < |cs| && cs[k] == c;
      assert c.start < count;
    }
  }

  /** The colour bytes of `cs`: red, green and blue of each key in order. */
  function EncodeColors(cs: seq<RGBColor>): (e: seq<byte>)
    ensures |e| == 3 * |cs|
  {
    if cs == [] then []
    else [Channel(cs[0], 0), Channel(cs[0], 1), Channel(cs[0], 2)] + EncodeColors(cs[1..])
  }

  lemma {:induction false} EncodeColorsIndex(cs: seq<RGBColor>)
    ensures forall k, j | 0 <= k < |cs| && 0 <= j < 3 :: EncodeColors(cs)[3 * k + j] == Channel(cs[k], j)
  {
    if cs != [] {
      EncodeColorsIndex(cs[1..]);
      forall k, j | 1 <= k < |cs| && 0 <= j < 3
        ensures EncodeColors(cs)[3 * k + j] == Channel(cs[k], j)
      {
        assert cs[k] == cs[1..][k - 1];
        assert EncodeColors(cs)[3 * k + j] == EncodeColors(cs[1..])[3 * (k - 1) + j];
      }
    }
  }

  /** A KEYCOLORS packet for chunk `c` of `colors`: command 0x11, the byte
      count, the little-endian byte offset of the first key, and the keys'
      colour bytes from byte 8 on. */
  ghost predicate KeyColorsLayout(p: Packet, colors: seq<RGBColor>, c: Chunk)
  {
    && c.start + c.len <= |colors|
    && 3 * c.len <= KeyColorsDataSize
    && p[CommandOffset] == CmdKeyColors
    && p[KeyColorsCountOffset] == 3 * c.len
    && p[KeyColorsStartOffset] == (3 * c.start) % 256
    && p[KeyColorsStartOffset + 1] == (3 * c.start / 256) % 256
    && p[KeyColorsDataOffset .. KeyColorsDataOffset + 3 * c.len]
       == EncodeColors(colors[c.start .. c.start + c.len])
  }

  /** Below 65536 the two offset bytes read back as the byte offset. */
  lemma KeyColorsOffset(p: Packet, colors: seq<RGBColor>, c: Chunk)
    requires KeyColorsLayout(p, colors, c)
    requires 3 * c.start < 0x1_0000
    ensures LittleEndian16(p[KeyColorsStartOffset], p[KeyColorsStartOffset + 1]) == 3 * c.start
  {
  }

  lemma SameFromCommand(p: Packet, q: Packet)
    requires Checked(p) == Checked(q)
    ensures forall i | CommandOffset <= i < PacketSize :: p[i] == q[i]
  {
    forall i | CommandOffset <= i < PacketSize
      ensures p[i] == q[i]
    {
      assert p[i] == Checked(p)[i - CommandOffset];
    }
  }

  /** Appending twice appends the concatenation. */
  lemma AppendedTrans(g: Gmmk, h: Gmmk, h': Gmmk, n: nat, m: nat)
    requires Appended(g, h, n) && Appended(h, h', m)
    ensures Appended(g, h', n + m)
    ensures h'.sent[..|h.sent|] == h.sent
  {
    assert h'.sent[..|g.sent|] == h'.sent[..|h.sent|][..|g.sent|];
    forall k | |g.sent| <= k < |h'.sent|
      ensures WellFormed(h'.sent[k])
    {
      if k < |h.sent| {
        assert h'.sent[k] == h.sent[k];
      }
    }
  }

  /** The body of one iteration of the `setKeys` loop up to the write: the
      KEYCOLORS header and chunk `c`'s colours written over `buffer`. Bytes
      0-2, byte 7 and everything after the colour data keep what the
      previous packet left there. */
  function FillKeyColors(buffer: Packet, colors: seq<RGBColor>, c: Chunk): (p: Packet)
    requires c.start < |colors| && c.len == Min(KeysPerPacket, |colors| - c.start)
    ensures KeyColorsLayout(p, colors, c)
    ensures p[..CommandOffset] == buffer[..CommandOffset]
    ensures p[KeyColorsDataOffset - 1] == buffer[KeyColorsDataOffset - 1]
    ensures p[KeyColorsDataOffset + 3 * c.len..] == buffer[KeyColorsDataOffset + 3 * c.len..]
  {
    var bytesToBeSent := Min(KeyColorsDataSize, (|colors| - c.start) * 3);
    var offset := 3 * c.start;
    var b := buffer[CommandOffset := CmdKeyColors][KeyColorsCountOffset := bytesToBeSent]
                   [KeyColorsStartOffset := offset % 256][KeyColorsStartOffset + 1 := ToUint8(offset / 256)];
    b[..KeyColorsDataOffset] + EncodeColors(colors[c.start .. c.start + bytesToBeSent / 3])
      + b[KeyColorsDataOffset + bytesToBeSent..]
  }

  /** What KEYCOLORS packet `p` for chunk `c` keeps of the buffer `q` it was
      built over: `setKeys` never writes byte 7, nor anything after the
      chunk's colours. */
  predicate KeepsStale(p: Packet, q: Packet, c: Chunk)
  {
    && 3 * c.len <= KeyColorsDataSize
    && p[KeyColorsDataOffset - 1] == q[KeyColorsDataOffset - 1]
    && forall i | KeyColorsDataOffset + 3 * c.len <= i < PacketSize :: p[i] == q[i]
  }

  /** Behind the colours of chunk `last`, `p` still holds the colours that
      chunk `prev` before it left there. */
  predicate StaleColors(p: Packet, colors: seq<RGBColor>, prev: Chunk, last: Chunk)
  {
    && prev.start + prev.len <= |colors|
    && 3 * prev.len <= KeyColorsDataSize
    && forall i | KeyColorsDataOffset + 3 * last.len <= i < KeyColorsDataOffset + 3 * prev.len ::
         p[i] == EncodeColors(colors[prev.start .. prev.start + prev.len])[i - KeyColorsDataOffset]
  }

  /** One iteration of the `setKeys` loop: fill in the KEYCOLORS header and
      chunk `c`'s colours over the current buffer, then write it. The buffer
      changes whether or not a device is selected. */
  function SendChunk(g: Gmmk, colors: seq<RGBColor>, c: Chunk): (h: Gmmk)
    requires c.start < |colors| && c.len == Min(KeysPerPacket, |colors| - c.start)
    ensures SameSession(g, h)
    ensures !g.deviceSelected ==> h.sent == g.sent
    ensures g.deviceSelected ==> Appended(g, h, 1) && h.buffer == LastPacket(h)
  {
    WriteBuffer(g.(buffer := FillKeyColors(g.buffer, colors, c)))
  }

  /** The buffer after one iteration, with or without a device: the chunk's
      KEYCOLORS layout over the old buffer, whose byte 7 and bytes after the
      chunk's colours stay; without a device bytes 0-2 stay too. */
  lemma SendChunkBuffer(g: Gmmk, colors: seq<RGBColor>, c: Chunk)
    requires c.start < |colors| && c.len == Min(KeysPerPacket, |colors| - c.start)
    ensures var h := SendChunk(g, colors, c);
      && KeyColorsLayout(h.buffer, colors, c)
      && KeepsStale(h.buffer, g.buffer, c)
      && (!g.deviceSelected ==> h.buffer[..CommandOffset] == g.buffer[..CommandOffset])
  {
    var b := FillKeyColors(g.buffer, colors, c);
    var h := SendChunk(g, colors, c);
    SameFromCommand(h.buffer, b);
    SameFrom(b, g.buffer, KeyColorsDataOffset + 3 * c.len);
    LayoutFromCommand(h.buffer, b, colors, c);
  }

  /** The layout only concerns bytes 3 on. */
  lemma LayoutFromCommand(p: Packet, q: Packet, colors: seq<RGBColor>, c: Chunk)
    requires KeyColorsLayout(q, colors, c)
    requires forall i | CommandOffset <= i < PacketSize :: p[i] == q[i]
    ensures KeyColorsLayout(p, colors, c)
  {
    var lo := KeyColorsDataOffset;
    var hi := KeyColorsDataOffset + 3 * c.len;
    assert forall i | 0 <= i < hi - lo :: p[lo..hi][i] == p[lo + i] == q[lo + i] == q[lo..hi][i];
  }

  /** What the buffer holds after START and the chunks in `done`, starting
      from buffer `b`, whether or not anything was sent: START over `b` while
      no chunk has been written, then the last chunk's layout; byte 7 and the
      bytes after the colour area as in `b`; behind the last chunk's colours,
      those of the chunk before it, or `b`'s bytes after the first chunk. */
  ghost predicate BufferProgress(b: Packet, p: Packet, colors: seq<RGBColor>, done: seq<Chunk>)
  {
    && p[KeyColorsDataOffset - 1] == b[KeyColorsDataOffset - 1]
    && (forall i | KeyColorsDataOffset + KeyColorsDataSize <= i < PacketSize :: p[i] == b[i])
    && (done == [] ==> p[CommandOffset] == CmdStart && forall i | CommandOffset < i < PacketSize :: p[i] == b[i])
    && (done != [] ==> KeyColorsLayout(p, colors, done[|done| - 1]))
    && (|done| == 1 ==> KeepsStale(p, b, done[0]))
    && (|done| >= 2 ==> StaleColors(p, colors, done[|done| - 2], done[|done| - 1]))
  }

  /** A chunk's colours written over the buffer, seen from the buffer
      before the frame. */
  lemma BufferStep(b: Packet, p: Packet, p': Packet, colors: seq<RGBColor>, done: seq<Chunk>, c: Chunk)
    requires BufferProgress(b, p, colors, done)
    requires KeyColorsLayout(p', colors, c) && KeepsStale(p', p, c)
    ensures BufferProgress(b, p', colors, done + [c])
  {
    var done' := done + [c];
    assert done'[|done'| - 1] == c;
    if done != [] {
      var prev := done[|done| - 1];
      assert done'[|done'| - 2] == prev;
      StaleStep(p', p, colors, prev, c);
    }
  }

  lemma StaleStep(p: Packet, q: Packet, colors: seq<RGBColor>, prev: Chunk, c: Chunk)
    requires KeyColorsLayout(q, colors, prev) && KeepsStale(p, q, c)
    ensures StaleColors(p, colors, prev, c)
  {
    var lo := KeyColorsDataOffset;
    var hi := KeyColorsDataOffset + 3 * prev.len;
    forall i | KeyColorsDataOffset + 3 * c.len <= i < hi
      ensures p[i] == EncodeColors(colors[prev.start .. prev.start + prev.len])[i - lo]
    {
      assert q[i] == q[lo..hi][i - lo];
    }
  }

  /** START went out over the buffer of `g`. */
  ghost predicate StartSent(g: Gmmk, h: Gmmk)
  {
    && |h.sent| > |g.sent|
    && NewPacket(g, h, 0)[CommandOffset] == CmdStart
    && NewPacket(g, h, 0)[CommandOffset + 1..] == g.buffer[CommandOffset + 1..]
  }

  /** After START, one KEYCOLORS packet per chunk of `done`, each keeping
      byte 7 and the bytes after its colours from the packet before it. */
  ghost predicate ChunksSent(g: Gmmk, h: Gmmk, colors: seq<RGBColor>, done: seq<Chunk>)
  {
    && |h.sent| > |g.sent| + |done|
    && forall k | 0 <= k < |done| ::
         && KeyColorsLayout(NewPacket(g, h, k + 1), colors, done[k])
         && KeepsStale(NewPacket(g, h, k + 1), NewPacket(g, h, k), done[k])
  }

  /** The loop invariant of `setKeys`. */
  ghost predicate Progress(g: Gmmk, h: Gmmk, colors: seq<RGBColor>, done: seq<Chunk>)
  {
    && SameSession(g, h)
    && BufferProgress(g.buffer, h.buffer, colors, done)
    && (!g.deviceSelected ==> h.sent == g.sent && h.buffer[..CommandOffset] == g.buffer[..CommandOffset])
    && (g.deviceSelected ==>
          && Appended(g, h, |done| + 1)
          && StartSent(g, h)
          && ChunksSent(g, h, colors, done)
          && h.buffer == LastPacket(h))
  }

  lemma ProgressStart(g: Gmmk, colors: seq<RGBColor>)
    ensures Progress(g, StartCommand(g), colors, [])
  {
    var h := StartCommand(g);
    SameFrom(h.buffer, g.buffer, CommandOffset + 1);
  }

  /** Sending one more packet keeps every packet sent before it. */
  lemma AppendOneKeeps(g: Gmmk, h: Gmmk, h': Gmmk, n: nat)
    requires Appended(g, h, n) && Appended(h, h', 1)
    ensures Appended(g, h', n + 1)
    ensures forall k | 0 <= k < n :: NewPacket(g, h', k) == NewPacket(g, h, k)
    ensures NewPacket(g, h', n) == LastPacket(h')
  {
    AppendedTrans(g, h, h', n, 1);
    forall k | 0 <= k < n
      ensures NewPacket(g, h', k) == NewPacket(g, h, k)
    {
      assert h'.sent[|g.sent| + k] == h'.sent[..|h.sent|][|g.sent| + k];
    }
  }

  /** Packets already sent stay as they were. */
  lemma SentKept(g: Gmmk, h: Gmmk, h': Gmmk, colors: seq<RGBColor>, done: seq<Chunk>)
    requires Appended(g, h, |done| + 1) && Appended(h, h', 1)
    requires StartSent(g, h) && ChunksSent(g, h, colors, done)
    ensures Appended(g, h', |done| + 2)
    ensures StartSent(g, h') && ChunksSent(g, h', colors, done)
    ensures NewPacket(g, h', |done|) == LastPacket(h)
  {
    AppendOneKeeps(g, h, h', |done| + 1);
    assert LastPacket(h) == NewPacket(g, h, |done|);
  }

  lemma SentStep(g: Gmmk, h: Gmmk, h': Gmmk, colors: seq<RGBColor>, done: seq<Chunk>, c: Chunk)
    requires Appended(g, h, |done| + 1) && Appended(h, h', 1)
    requires StartSent(g, h) && ChunksSent(g, h, colors, done)
    requires KeyColorsLayout(LastPacket(h'), colors, c) && KeepsStale(LastPacket(h'), LastPacket(h), c)
    ensures Appended(g, h', |done| + 2)
    ensures StartSent(g, h') && ChunksSent(g, h', colors, done + [c])
  {
    SentKept(g, h, h', colors, done);
    AppendOneKeeps(g, h, h', |done| + 1);
    var done' := done + [c];
    forall k | 0 <= k < |done'|
      ensures KeyColorsLayout(NewPacket(g, h', k + 1), colors, done'[k])
      ensures KeepsStale(NewPacket(g, h', k + 1), NewPacket(g, h', k), done'[k])
    {
      if k < |done| {
        assert done'[k] == done[k];
      }
    }
  }

  lemma ProgressStep(g: Gmmk, h: Gmmk, colors: seq<RGBColor>, done: seq<Chunk>, c: Chunk)
    requires Progress(g, h, colors, done)
    requires c.start < |colors| && c.len == Min(KeysPerPacket, |colors| - c.start)
    ensures Progress(g, SendChunk(h, colors, c), colors, done + [c])
  {
    var h' := SendChunk(h, colors, c);
    SendChunkBuffer(h, colors, c);
    BufferStep(g.buffer, h.buffer, h'.buffer, colors, done, c);
    if g.deviceSelected {
      SentStep(g, h, h', colors, done, c);
    }
  }

  /** With a device, a frame over chunks `cs`: START (carrying the previous
      buffer from byte 4 on), one KEYCOLORS packet per chunk, each keeping
      byte 7 and the bytes after its colours from the packet before it, then
      END carrying the last KEYCOLORS packet from byte 4 on. */
  ghost predicate FrameSentOf(g: Gmmk, h: Gmmk, colors: seq<RGBColor>, cs: seq<Chunk>)
  {
    && Appended(g, h, |cs| + 2)
    && StartSent(g, h)
    && ChunksSent(g, h, colors, cs)
    && NewPacket(g, h, |cs| + 1)[CommandOffset] == CmdEnd
    && NewPacket(g, h, |cs| + 1)[CommandOffset + 1..] == NewPacket(g, h, |cs|)[CommandOffset + 1..]
    && h.buffer == LastPacket(h)
  }

  /** What a completed `setKeys` frame sent since `g`, with a device. */
  ghost predicate FrameSent(g: Gmmk, h: Gmmk, colors: seq<RGBColor>)
  {
    FrameSentOf(g, h, colors, Chunks(|colors|, 0))
  }

  lemma ProgressEnd(g: Gmmk, h: Gmmk, colors: seq<RGBColor>, done: seq<Chunk>)
    requires g.deviceSelected && Progress(g, h, colors, done)
    ensures FrameSentOf(g, EndCommand(h), colors, done)
  {
    var h' := EndCommand(h);
    SentKept(g, h, h', colors, done);
  }

  /** `setKeys` never writes byte 7 nor bytes 62-63, so every packet of
      the frame, START, KEYCOLORS and END alike, carries there what the
      buffer held before the frame. */
  lemma FrameKeepsUnwrittenBytes(g: Gmmk, h: Gmmk, colors: seq<RGBColor>)
    requires FrameSent(g, h, colors)
    ensures forall k, i | 0 <= k <= |Chunks(|colors|, 0)| + 1 && Unwritten(i) ::
      NewPacket(g, h, k)[i] == g.buffer[i]
  {
    var cs := Chunks(|colors|, 0);
    forall k, i | 0 <= k <= |cs| + 1 && Unwritten(i)
      ensures NewPacket(g, h, k)[i] == g.buffer[i]
    {
      if k <= |cs| {
        UnwrittenUpTo(g, h, colors, cs, k);
      } else {
        UnwrittenUpTo(g, h, colors, cs, |cs|);
        SameFrom(NewPacket(g, h, k), NewPacket(g, h, |cs|), CommandOffset + 1);
      }
    }
  }

  /** The bytes of the buffer `setKeys` never writes. */
  predicate Unwritten(i: int)
  {
    i == KeyColorsDataOffset - 1 || KeyColorsDataOffset + KeyColorsDataSize <= i < PacketSize
  }

  lemma {:induction false} UnwrittenUpTo(g: Gmmk, h: Gmmk, colors: seq<RGBColor>, cs: seq<Chunk>, k: nat)
    requires FrameSentOf(g, h, colors, cs) && k <= |cs|
    ensures forall i | Unwritten(i) :: NewPacket(g, h, k)[i] == g.buffer[i]
  {
    if k == 0 {
      SameFrom(NewPacket(g, h, 0), g.buffer, CommandOffset + 1);
    } else {
      UnwrittenUpTo(g, h, colors, cs, k - 1);
      assert KeepsStale(NewPacket(g, h, k), NewPacket(g, h, k - 1), cs[k - 1]);
    }
  }

  /** The buffer after END over chunks `cs`, from byte 3 on, starting from
      buffer `b`: END; byte 7 and the bytes after the colour area as in `b`;
      no chunk: the rest of `b`; otherwise the last chunk's header and
      colours, and behind them the colours of the chunk before it, or `b`'s
      bytes when there was only one chunk. */
  ghost predicate EndedOver(b: Packet, p: Packet, colors: seq<RGBColor>, cs: seq<Chunk>)
  {
    var n := |cs|;
    && p[CommandOffset] == CmdEnd
    && p[KeyColorsDataOffset - 1] == b[KeyColorsDataOffset - 1]
    && (forall i | KeyColorsDataOffset + KeyColorsDataSize <= i < PacketSize :: p[i] == b[i])
    && (n == 0 ==> forall i | CommandOffset < i < PacketSize :: p[i] == b[i])
    && (n > 0 ==> KeyColorsLayout(p[CommandOffset := CmdKeyColors], colors, cs[n - 1]))
    && (n == 1 ==> KeepsStale(p, b, cs[0]))
    && (n >= 2 ==> StaleColors(p, colors, cs[n - 2], cs[n - 1]))
  }

  /** What a completed `setKeys` frame leaves in the buffer, with or without
      a device. Every chunk but the last is full, so from byte 8 on the
      buffer is fully determined. */
  ghost predicate FrameLeft(b: Packet, p: Packet, colors: seq<RGBColor>)
  {
    var cs := Chunks(|colors|, 0);
    && EndedOver(b, p, colors, cs)
    && (|cs| >= 2 ==> cs[|cs| - 2].len == KeysPerPacket)
  }

  /** END changes only byte 3 of the buffer from byte 3 on. */
  lemma BufferEnd(b: Packet, p: Packet, p': Packet, colors: seq<RGBColor>, done: seq<Chunk>)
    requires BufferProgress(b, p, colors, done)
    requires p'[CommandOffset] == CmdEnd && p'[CommandOffset + 1..] == p[CommandOffset + 1..]
    ensures EndedOver(b, p', colors, done)
  {
    SameFrom(p', p, CommandOffset + 1);
    if done != [] {
      LayoutFromCommand(p'[CommandOffset := CmdKeyColors], p, colors, done[|done| - 1]);
    }
  }

  /** Every chunk but the last holds 18 keys. */
  lemma ChunksFullButLast(count: nat)
    ensures var cs := Chunks(count, 0);
      |cs| >= 2 ==> cs[|cs| - 2].len == KeysPerPacket
  {
    ChunksShape(count, 0);
  }

  /** The chunks from key `i` on, sent one after the other: what the loop
      of `setKeys` does from key `i`. */
  function RunChunks(h: Gmmk, colors: seq<RGBColor>, i: nat): Gmmk
    decreases |colors| - i
  {
    if i >= |colors| then h
    else
      var c := Chunk(i, Min(KeysPerPacket, |colors| - i));
      RunChunks(SendChunk(h, colors, c), colors, i + c.len)
  }

  /** The byte count of line 183 divided by three is the chunk size. */
  lemma KeysToBeSent(count: nat, i: nat)
    requires i < count
    ensures Min(KeyColorsDataSize, (count - i) * 3) / 3 == Min(KeysPerPacket, count - i)
  {
  }

  /** Running the remaining chunks keeps the loop invariant up to the last
      chunk. The invariant is bound to a name so that it is carried as one
      fact rather than split into its many conjuncts at every step. */
  lemma {:induction false} RunProgress(g: Gmmk, h: Gmmk, colors: seq<RGBColor>, i: nat, done: seq<Chunk>, r: Gmmk)
    requires i <= |colors| && done + Chunks(|colors|, i) == Chunks(|colors|, 0)
    requires var inv := Progress(g, h, colors, done); inv
    requires r == RunChunks(h, colors, i)
    ensures var inv := Progress(g, r, colors, Chunks(|colors|, 0)); inv
    decreases |colors| - i
  {
    if i >= |colors| {
      assert done == Chunks(|colors|, 0);
    } else {
      var c := Chunk(i, Min(KeysPerPacket, |colors| - i));
      var h' := SendChunk(h, colors, c);
      ChunksStep(|colors|, i, done);
      RunChunksStep(h, colors, i);
      ProgressStep(g, h, colors, done, c);
      RunProgress(g, h', colors, i + c.len, done + [c], r);
    }
  }

  /** One step of the chunk loop. */
  lemma RunChunksStep(h: Gmmk, colors: seq<RGBColor>, i: nat)
    requires i < |colors|
    ensures var c := Chunk(i, Min(KeysPerPacket, |colors| - i));
      RunChunks(h, colors, i) == RunChunks(SendChunk(h, colors, c), colors, i + c.len)
  {
  }

  /** The chunk loop of `setKeys`: for each chunk, the KEYCOLORS header and
      colours written over the buffer, then the buffer written. */
  method SendAllChunks(h0: Gmmk, colors: seq<RGBColor>) returns (h: Gmmk)
    ensures h == RunChunks(h0, colors, 0)
  {
    var count := |colors|;
    h := h0;
    var i := 0;
    while i < count
      invariant i <= count
      invariant RunChunks(h, colors, i) == RunChunks(h0, colors, 0)
      decreases count - i
    {
      var keysToBeSent := Min(KeyColorsDataSize, (count - i) * 3) / 3;
      KeysToBeSent(count, i);
      var c := Chunk(i, keysToBeSent);
      h := SendChunk(h, colors, c);
      i := i + keysToBeSent;
    }
  }

  /** `setKeys`: nothing unless initialized; otherwise START, one KEYCOLORS
      packet per chunk (ceil(count / 18) of them), END. The buffer is never
      reset, so START carries the previous buffer contents, every KEYCOLORS
      packet keeps the stale bytes of the one before it, and END carries the
      last chunk's bytes. Without a device nothing is sent, but the buffer
      changes all the same. */
  method SetKeys(g: Gmmk, colors: seq<RGBColor>) returns (h: Gmmk)
    ensures SameSession(g, h)
    ensures !g.initialized ==> h == g
    ensures g.initialized ==> FrameLeft(g.buffer, h.buffer, colors)
    ensures g.initialized && !g.deviceSelected ==>
      h.sent == g.sent && h.buffer[..CommandOffset] == g.buffer[..CommandOffset]
    ensures g.initialized && g.deviceSelected ==> FrameSent(g, h, colors)
    ensures g.initialized && g.deviceSelected ==>
      |Chunks(|colors|, 0)| == (|colors| + KeysPerPacket - 1) / KeysPerPacket
  {
    if !g.initialized {
      return g;
    }
    h := StartCommand(g);
    h := SendAllChunks(h, colors);
    FrameEnd(g, h, colors);
    h := EndCommand(h);
  }

  /** END closes the frame once every chunk has gone out. */
  lemma FrameEnd(g: Gmmk, h: Gmmk, colors: seq<RGBColor>)
    requires g.initialized && h == RunChunks(StartCommand(g), colors, 0)
    ensures SameSession(g, EndCommand(h))
    ensures FrameLeft(g.buffer, EndCommand(h).buffer, colors)
    ensures !g.deviceSelected ==>
      EndCommand(h).sent == g.sent && EndCommand(h).buffer[..CommandOffset] == g.buffer[..CommandOffset]
    ensures g.deviceSelected ==> FrameSent(g, EndCommand(h), colors)
    ensures g.deviceSelected ==>
      |Chunks(|colors|, 0)| == (|colors| + KeysPerPacket - 1) / KeysPerPacket
  {
    ProgressStart(g, colors);
    RunProgress(g, StartCommand(g), colors, 0, [], h);
    var cs := Chunks(|colors|, 0);
    ChunksCount(|colors|);
    ChunksFullButLast(|colors|);
    if g.deviceSelected {
      ProgressEnd(g, h, colors, cs);
    }
    BufferEnd(g.buffer, h.buffer, EndCommand(h).buffer, colors, cs);
  }
}
