/** The run-length encoding of TGA image types 10 and 11: the packer of
    `unload_rle_data` and the unpacker of `load_rle_data`. The packer works
    on the buffer cut into its pixels; the unpacker reads a byte stream. */
module TgaRle {
  import opened Bytes
  import opened Arith
  import opened TgaError

  /** The longest run one packet can describe. */
  const MaxChunk: nat := 128

  // ---------------------------------------------------------------------
  // Pixels of a flat buffer

  /** Every pixel is `bpp` bytes long. */
  ghost predicate Uniform(px: seq<seq<byte>>, bpp: nat)
  {
    forall i | 0 <= i < |px| :: |px[i]| == bpp
  }

  /** A flat buffer of `n` pixels cut into the pixels. */
  function Pixels(d: seq<byte>, bpp: nat, n: nat): (px: seq<seq<byte>>)
    requires |d| == n * bpp
    ensures |px| == n && Uniform(px, bpp)
  {
    if n == 0 then []
    else
      Distribute(1, n - 1, bpp);
      [d[..bpp]] + Pixels(d[bpp..], bpp, n - 1)
  }

  /** The pixels' bytes one after the other. */
  function Flatten(px: seq<seq<byte>>): seq<byte>
  {
    if |px| == 0 then [] else px[0] + Flatten(px[1..])
  }

  lemma {:induction false} FlattenLength(px: seq<seq<byte>>, bpp: nat)
    requires Uniform(px, bpp)
    ensures |Flatten(px)| == |px| * bpp
  {
    if |px| > 0 {
      FlattenLength(px[1..], bpp);
      Distribute(1, |px| - 1, bpp);
    }
  }

  lemma {:induction false} FlattenAppend(a: seq<seq<byte>>, b: seq<seq<byte>>)
    ensures Flatten(a + b) == Flatten(a) + Flatten(b)
  {
    if |a| > 0 {
      assert (a + b)[1..] == a[1..] + b;
      FlattenAppend(a[1..], b);
    } else {
      assert a + b == b;
    }
  }

  /** Cutting a buffer into pixels loses nothing. */
  lemma {:induction false} FlattenPixels(d: seq<byte>, bpp: nat, n: nat)
    requires |d| == n * bpp
    ensures Flatten(Pixels(d, bpp, n)) == d
  {
    if n > 0 {
      Distribute(1, n - 1, bpp);
      FlattenPixels(d[bpp..], bpp, n - 1);
      assert d[..bpp] + d[bpp..] == d;
    }
  }

  /** Pixels that are all `p` flatten to `p` repeated. */
  lemma {:induction false} FlattenConstant(px: seq<seq<byte>>, p: seq<byte>)
    requires forall i | 0 <= i < |px| :: px[i] == p
    ensures Flatten(px) == Repeat(p, |px|)
  {
    if |px| > 0 {
      FlattenConstant(px[1..], p);
    }
  }

  // ---------------------------------------------------------------------
  // Packing

  /** Every two neighbours among pixels `[start, start + len)` differ. */
  ghost predicate RawRun<P>(px: seq<P>, start: nat, len: nat)
    requires start + len <= |px|
  {
    forall i, j | start <= i && j == i + 1 && j < start + len :: px[i] != px[j]
  }

  /** Pixels `[start, start + len)` all equal pixel `start`. */
  ghost predicate RepeatRun<P>(px: seq<P>, start: nat, len: nat)
    requires start < |px| && start + len <= |px|
  {
    forall i | start <= i < start + len :: px[i] == px[start]
  }

  /** The outcome of the inner scan: how many pixels, and whether raw. */
  datatype Run = Run(len: nat, raw: bool)

  /** The inner `while` of `unload_rle_data` from the state (`len`, `raw`)
      at pixel `cur`; the byte-wise `succ_eq` loop compares two neighbouring
      pixels. A raw run gives back its last pixel when that pixel equals the
      next one; a repeat run stops at the first different pixel. */
  function Scan<P(==)>(px: seq<P>, cur: nat, len: nat, raw: bool): (r: Run)
    requires 1 <= len <= MaxChunk && cur + len <= |px|
    requires len == 1 ==> raw
    decreases MaxChunk - len
    ensures 1 <= r.len <= MaxChunk && cur + r.len <= |px|
  {
    if !(cur + len < |px| && len < MaxChunk) then Run(len, raw)
    else
      var same := px[cur + len - 1] == px[cur + len];
      var raw' := if len == 1 then !same else raw;
      if raw' && same then Run(len - 1, raw')
      else if !raw' && !same then Run(len, raw')
      else Scan(px, cur, len + 1, raw')
  }

  /** What the scan promises from a state that satisfies the loop invariant,
      when it ends on a raw run: no equal neighbours, and it stops at the
      end, at 128 pixels or just before an equal pair. */
  lemma {:induction false} ScanRaw<P>(px: seq<P>, cur: nat, len: nat, raw: bool)
    requires 1 <= len <= MaxChunk && cur + len <= |px|
    requires len == 1 ==> raw
    requires raw ==> RawRun(px, cur, len)
    decreases MaxChunk - len
    ensures var r := Scan(px, cur, len, raw);
      r.raw ==> && RawRun(px, cur, r.len)
                && (cur + r.len == |px| || r.len == MaxChunk
                    || (cur + r.len + 1 < |px| && px[cur + r.len] == px[cur + r.len + 1]))
  {
    if cur + len < |px| && len < MaxChunk {
      var same := px[cur + len - 1] == px[cur + len];
      var raw' := if len == 1 then !same else raw;
      if raw' && same {
        RawRunShrinks(px, cur, len);
      } else if raw' {
        RawRunGrows(px, cur, len);
        ScanRaw(px, cur, len + 1, raw');
      } else if same {
        ScanRaw(px, cur, len + 1, raw');
      }
    }
  }

  /** What the scan promises from a state that satisfies the loop invariant,
      when it ends on a repeat run: at least two copies of pixel `cur`, and
      it stops at the end, at 128 pixels or at a different pixel. */
  lemma {:induction false} ScanRepeat<P>(px: seq<P>, cur: nat, len: nat, raw: bool)
    requires 1 <= len <= MaxChunk && cur + len <= |px|
    requires len == 1 ==> raw
    requires !raw ==> RepeatRun(px, cur, len)
    decreases MaxChunk - len
    ensures var r := Scan(px, cur, len, raw);
      !r.raw ==> && r.len >= 2 && RepeatRun(px, cur, r.len)
                 && (cur + r.len == |px| || r.len == MaxChunk || px[cur + r.len] != px[cur])
  {
    if cur + len < |px| && len < MaxChunk {
      var same := px[cur + len - 1] == px[cur + len];
      var raw' := if len == 1 then !same else raw;
      if !raw' && same {
        RepeatRunGrows(px, cur, len);
        ScanRepeat(px, cur, len + 1, raw');
      } else if raw' && !same {
        ScanRepeat(px, cur, len + 1, raw');
      }
    }
  }

  lemma RawRunShrinks<P>(px: seq<P>, cur: nat, len: nat)
    requires 1 <= len && cur + len <= |px| && RawRun(px, cur, len)
    ensures RawRun(px, cur, len - 1)
  {
  }

  lemma RawRunGrows<P>(px: seq<P>, cur: nat, len: nat)
    requires 1 <= len && cur + len < |px| && RawRun(px, cur, len)
    requires px[cur + len - 1] != px[cur + len]
    ensures RawRun(px, cur, len + 1)
  {
  }

  lemma RepeatRunGrows<P>(px: seq<P>, cur: nat, len: nat)
    requires 1 <= len && cur + len < |px| && RepeatRun(px, cur, len)
    requires px[cur + len - 1] == px[cur + len]
    ensures RepeatRun(px, cur, len + 1)
  {
  }

  /** One packet: `len` pixels from `start`, raw or repeated. */
  datatype Packet = Packet(start: nat, len: nat, raw: bool)

  function End(p: Packet): nat { p.start + p.len }

  /** The packet shapes the packer produces: 1 to 128 pixels; a raw packet
      has no two equal neighbours and ends at the buffer's end, at 128
      pixels or just before an equal pair; a repeat packet is at least two
      copies of one pixel and ends at the buffer's end, at 128 pixels or
      just before a different pixel. */
  ghost predicate Shaped<P>(px: seq<P>, p: Packet)
  {
    && Fits(px, p)
    && (p.raw ==> RawRun(px, p.start, p.len))
    && (p.raw ==> End(p) == |px| || p.len == MaxChunk
                  || (End(p) + 1 < |px| && px[End(p)] == px[End(p) + 1]))
    && (!p.raw ==> End(p) == |px| || p.len == MaxChunk || px[End(p)] != px[p.start])
  }

  /** What a packet needs to be written and read back: 1 to 128 pixels
      inside the buffer, and a repeat packet at least two copies of one pixel. */
  ghost predicate Fits<P>(px: seq<P>, p: Packet)
  {
    && 1 <= p.len <= MaxChunk && End(p) <= |px|
    && (!p.raw ==> p.len >= 2 && RepeatRun(px, p.start, p.len))
  }

  /** The packets cover the pixels `[from, |px|)` in order, with no gap or
      overlap, and each fits. */
  ghost predicate Tiles<P>(px: seq<P>, ps: seq<Packet>, from: int)
    decreases |ps|
  {
    if |ps| == 0 then from == |px|
    else ps[0].start == from && Fits(px, ps[0]) && Tiles(px, ps[1..], End(ps[0]))
  }

  /** The packets the outer `while` of `unload_rle_data` emits from pixel `cur` on. */
  function Plan<P(==)>(px: seq<P>, cur: nat): (ps: seq<Packet>)
    requires cur <= |px|
    decreases |px| - cur
    ensures Tiles(px, ps, cur)
    ensures forall k | 0 <= k < |ps| :: Shaped(px, ps[k])
  {
    if cur == |px| then []
    else
      var p := First(px, cur);
      var ps := [p] + Plan(px, End(p));
      assert ps[1..] == Plan(px, End(p));
      ps
  }

  /** The packet the inner scan chooses at pixel `cur`. */
  function First<P(==)>(px: seq<P>, cur: nat): (p: Packet)
    requires cur < |px|
    ensures p.start == cur && Shaped(px, p)
  {
    var r := Scan(px, cur, 1, true);
    ScanRaw(px, cur, 1, true);
    ScanRepeat(px, cur, 1, true);
    Packet(cur, r.len, r.raw)
  }

  /** The packet's header byte. */
  function Control(p: Packet): byte
    requires 1 <= p.len <= MaxChunk && (!p.raw ==> p.len >= 2)
  {
    if p.raw then p.len - 1 else p.len + 127
  }

  /** The header byte tells raw from repeat and gives back the length. */
  lemma ControlDecodes(p: Packet)
    requires 1 <= p.len <= MaxChunk && (!p.raw ==> p.len >= 2)
    ensures Control(p) < 128 <==> p.raw
    ensures p.raw ==> Control(p) + 1 == p.len
    ensures !p.raw ==> Control(p) - 127 == p.len
  {
  }

  /** The bytes of one packet: the header byte, then all its pixels (raw)
      or its one pixel (repeat). */
  function PacketBytes(px: seq<seq<byte>>, p: Packet): seq<byte>
    requires Fits(px, p)
  {
    [Control(p)] + (if p.raw then Flatten(px[p.start .. End(p)]) else px[p.start])
  }

  /** The bytes of a sequence of packets, one after the other. */
  function Emit(px: seq<seq<byte>>, ps: seq<Packet>, from: int): seq<byte>
    requires Tiles(px, ps, from)
    decreases |ps|
  {
    if |ps| == 0 then [] else PacketBytes(px, ps[0]) + Emit(px, ps[1..], End(ps[0]))
  }

  /** `unload_rle_data`: the buffer of `n` pixels packed from pixel 0. */
  function UnloadRle(d: seq<byte>, bpp: nat, n: nat): (r: seq<byte>)
    requires |d| == n * bpp
    ensures r == [] <==> n == 0
    ensures n > 0 ==> |r| >= 1 + bpp
  {
    var px := Pixels(d, bpp, n);
    var ps := Plan(px, 0);
    assert n > 0 ==> |Emit(px, ps, 0)| >= 1 + bpp by {
      if n > 0 {
        var p := ps[0];
        assert Emit(px, ps, 0) == PacketBytes(px, p) + Emit(px, ps[1..], End(p));
        if p.raw {
          var q := px[p.start .. End(p)];
          assert Flatten(q) == q[0] + Flatten(q[1..]);
        }
      }
    }
    Emit(px, ps, 0)
  }

  // ---------------------------------------------------------------------
  // Unpacking

  /** What the unpacker produced and how many stream bytes it used. */
  datatype Decoded = Decoded(data: seq<byte>, consumed: nat)

  /** A decoded packet's bytes in front of whatever the rest of the stream decodes to. */
  function Prepend(chunk: seq<byte>, used: nat, r: Result<Decoded>): Result<Decoded>
  {
    match r
    case Err(e) => Err(e)
    case Ok(rest) => Ok(Decoded(chunk + rest.data, used + rest.consumed))
  }

  /** One packet read from the stream: its bytes, how many stream bytes it
      used and how many pixels it produced. */
  datatype Piece = Piece(data: seq<byte>, used: nat, pixels: nat)

  /** One pass of the `do` loop of `load_rle_data` with `need` pixels still
      to produce: read a header byte `c`; below 128 it announces `c + 1` raw
      pixels, otherwise one pixel repeated `c - 127` times. Fails when the
      stream ends first, or when the packet would produce more pixels than
      are still needed; the packet that would overrun stores nothing. */
  function ReadPacket(s: seq<byte>, bpp: nat, need: nat): (r: Result<Piece>)
    ensures r.Ok? ==> 1 <= r.value.pixels <= need && 0 < r.value.used <= |s|
    ensures r.Ok? ==> |r.value.data| == r.value.pixels * bpp
    ensures |s| == 0 ==> r == Err(TruncatedData)
    ensures r.Err? ==> r.error == TruncatedData || r.error == TooManyPixels
  {
    if |s| == 0 then Err(TruncatedData)
    else
      var c := s[0];
      var len: nat := if c < 128 then c + 1 else c - 127;
      // stream bytes read before the first check that can fail
      var reach: nat := if c < 128 then (if len <= need then len else need + 1) * bpp else bpp;
      if |s| - 1 < reach then Err(TruncatedData)
      else if len > need then Err(TooManyPixels)
      else if c < 128 then Ok(Piece(s[1 .. 1 + len * bpp], 1 + len * bpp, len))
      else Ok(Piece(Repeat(s[1 .. 1 + bpp], len), 1 + bpp, len))
  }

  /** `load_rle_data`: packets until `need` pixels are produced. */
  function LoadRle(s: seq<byte>, bpp: nat, need: nat): (r: Result<Decoded>)
    decreases |s|
    ensures r.Ok? ==> |r.value.data| == need * bpp && 0 < r.value.consumed <= |s|
    ensures |s| == 0 ==> r == Err(TruncatedData)
    ensures r.Err? ==> r.error == TruncatedData || r.error == TooManyPixels
  {
    match ReadPacket(s, bpp, need)
    case Err(e) => Err(e)
    case Ok(piece) =>
      if piece.pixels == need then Ok(Decoded(piece.data, piece.used))
      else
        Distribute(piece.pixels, need - piece.pixels, bpp);
        Prepend(piece.data, piece.used, LoadRle(s[piece.used ..], bpp, need - piece.pixels))
  }

  /** A raw header byte `len - 1` followed by at least `len` whole pixels
      yields those pixels. */
  lemma ReadRaw(s: seq<byte>, bpp: nat, len: nat, need: nat)
    requires 1 <= len <= need && len <= MaxChunk
    requires |s| >= 1 + len * bpp && s[0] == len - 1
    ensures ReadPacket(s, bpp, need) == Ok(Piece(s[1 .. 1 + len * bpp], 1 + len * bpp, len))
  {
  }

  /** A repeat header byte `len + 127` followed by a pixel yields `len`
      copies of it. */
  lemma ReadRepeat(s: seq<byte>, bpp: nat, len: nat, need: nat)
    requires 1 <= len <= need && len <= MaxChunk
    requires |s| >= 1 + bpp && s[0] == len + 127
    ensures ReadPacket(s, bpp, need) == Ok(Piece(Repeat(s[1 .. 1 + bpp], len), 1 + bpp, len))
  {
  }

  /** Reading a packet the packer produced gives back its pixels and uses
      exactly its bytes, whatever follows. */
  lemma ReadShaped(px: seq<seq<byte>>, bpp: nat, p: Packet, s: seq<byte>, tail: seq<byte>, need: nat)
    requires Uniform(px, bpp) && Fits(px, p) && p.len <= need
    requires s == PacketBytes(px, p) + tail
    ensures ReadPacket(s, bpp, need)
              == Ok(Piece(Flatten(px[p.start .. End(p)]), |PacketBytes(px, p)|, p.len))
    ensures s[|PacketBytes(px, p)| ..] == tail
  {
    var run := px[p.start .. End(p)];
    var pb := PacketBytes(px, p);
    if p.raw {
      assert Uniform(run, bpp);
      FlattenLength(run, bpp);
      assert pb == [p.len - 1] + Flatten(run);
      assert s[1 .. 1 + p.len * bpp] == Flatten(run);
      ReadRaw(s, bpp, p.len, need);
    } else {
      assert forall i | 0 <= i < |run| :: run[i] == px[p.start];
      FlattenConstant(run, px[p.start]);
      assert pb == [p.len + 127] + px[p.start];
      assert s[1 .. 1 + bpp] == px[p.start];
      ReadRepeat(s, bpp, p.len, need);
    }
  }

  /** A packet as the unpacker sees it: its stream bytes, the pixel bytes
      it stands for, and how many pixels that is. */
  datatype Coded = Coded(bytes: seq<byte>, data: seq<byte>, pixels: nat)

  /** The stream bytes of packets one after the other. */
  function Stream(cs: seq<Coded>): seq<byte>
  {
    if |cs| == 0 then [] else cs[0].bytes + Stream(cs[1..])
  }

  /** The pixel bytes the packets stand for, one after the other. */
  function Data(cs: seq<Coded>): seq<byte>
  {
    if |cs| == 0 then [] else cs[0].data + Data(cs[1..])
  }

  /** How many pixels the packets stand for. */
  function Count(cs: seq<Coded>): nat
  {
    if |cs| == 0 then 0 else cs[0].pixels + Count(cs[1..])
  }

  /** Followed by `trailer`, each packet is read back as what it stands for. */
  ghost predicate Readable(cs: seq<Coded>, bpp: nat, trailer: seq<byte>)
  {
    if |cs| == 0 then true
    else
      && ReadPacket(cs[0].bytes + (Stream(cs[1..]) + trailer), bpp, cs[0].pixels + Count(cs[1..]))
           == Ok(Piece(cs[0].data, |cs[0].bytes|, cs[0].pixels))
      && Readable(cs[1..], bpp, trailer)
  }

  /** Unpacking a non-empty stream of readable packets gives back what they
      stand for and stops right after the last one, whatever follows. */
  lemma {:induction false} LoadStream(cs: seq<Coded>, bpp: nat, trailer: seq<byte>)
    requires |cs| > 0 && Readable(cs, bpp, trailer)
    decreases |cs|
    ensures LoadRle(Stream(cs) + trailer, bpp, Count(cs)) == Ok(Decoded(Data(cs), |Stream(cs)|))
  {
    if |cs| == 1 {
      LoadLast(cs, bpp, trailer);
    } else {
      LoadStream(cs[1..], bpp, trailer);
      LoadNext(cs, bpp, trailer);
    }
  }

  /** The last packet of a stream. */
  lemma LoadLast(cs: seq<Coded>, bpp: nat, trailer: seq<byte>)
    requires |cs| == 1 && Readable(cs, bpp, trailer)
    ensures LoadRle(Stream(cs) + trailer, bpp, Count(cs)) == Ok(Decoded(Data(cs), |Stream(cs)|))
  {
    ReadHead(cs, bpp, trailer);
    Single(cs);
    LoadStep(Stream(cs) + trailer, bpp, Count(cs), Piece(cs[0].data, |cs[0].bytes|, cs[0].pixels));
  }

  /** A packet in front of a stream that decodes. */
  lemma LoadNext(cs: seq<Coded>, bpp: nat, trailer: seq<byte>)
    requires |cs| > 1 && Readable(cs, bpp, trailer)
    requires LoadRle(Stream(cs[1..]) + trailer, bpp, Count(cs[1..]))
               == Ok(Decoded(Data(cs[1..]), |Stream(cs[1..])|))
    ensures LoadRle(Stream(cs) + trailer, bpp, Count(cs)) == Ok(Decoded(Data(cs), |Stream(cs)|))
  {
    var piece := Piece(cs[0].data, |cs[0].bytes|, cs[0].pixels);
    ReadHead(cs, bpp, trailer);
    ReadHead(cs[1..], bpp, trailer);
    StreamRest(cs, trailer);
    CountCons(cs);
    DataCons(cs);
    Compose(Stream(cs) + trailer, bpp, Count(cs), piece, Stream(cs[1..]) + trailer,
            Decoded(Data(cs[1..]), |Stream(cs[1..])|));
  }

  /** The first packet of a readable stream, read from the whole stream. */
  lemma ReadHead(cs: seq<Coded>, bpp: nat, trailer: seq<byte>)
    requires |cs| > 0 && Readable(cs, bpp, trailer)
    ensures ReadPacket(Stream(cs) + trailer, bpp, Count(cs))
              == Ok(Piece(cs[0].data, |cs[0].bytes|, cs[0].pixels))
    ensures cs[0].pixels >= 1
  {
    StreamCons(cs, trailer);
    CountCons(cs);
  }

  lemma StreamRest(cs: seq<Coded>, trailer: seq<byte>)
    requires |cs| > 0
    ensures |cs[0].bytes| <= |Stream(cs) + trailer|
    ensures (Stream(cs) + trailer)[|cs[0].bytes| ..] == Stream(cs[1..]) + trailer
  {
    StreamCons(cs, trailer);
  }

  lemma Single(cs: seq<Coded>)
    requires |cs| == 1
    ensures Count(cs) == cs[0].pixels && Data(cs) == cs[0].data && |Stream(cs)| == |cs[0].bytes|
  {
    assert cs[1..] == [];
  }

  lemma StreamCons(cs: seq<Coded>, trailer: seq<byte>)
    requires |cs| > 0
    ensures Stream(cs) + trailer == cs[0].bytes + (Stream(cs[1..]) + trailer)
  {
  }

  lemma DataCons(cs: seq<Coded>)
    requires |cs| > 0
    ensures Data(cs) == cs[0].data + Data(cs[1..])
  {
  }

  lemma CountCons(cs: seq<Coded>)
    requires |cs| > 0
    ensures |Stream(cs)| == |cs[0].bytes| + |Stream(cs[1..])|
    ensures Count(cs) == cs[0].pixels + Count(cs[1..])
  {
  }

  /** The packer's packets from pixel `from` on, as the unpacker sees them. */
  function Code(px: seq<seq<byte>>, ps: seq<Packet>, from: int): (cs: seq<Coded>)
    requires Tiles(px, ps, from) && 0 <= from
    decreases |ps|
    ensures |cs| == |ps|
    ensures Stream(cs) == Emit(px, ps, from)
    ensures Count(cs) == |px| - from
    ensures Data(cs) == Flatten(px[from..])
  {
    if |ps| == 0 then []
    else
      var p := ps[0];
      SplitAt(px, from, End(p));
      var cs := [Coded(PacketBytes(px, p), Flatten(px[p.start .. End(p)]), p.len)] + Code(px, ps[1..], End(p));
      assert cs[1..] == Code(px, ps[1..], End(p));
      cs
  }

  /** Every packet the packer writes is read back as what it stands for. */
  lemma {:induction false} CodeReadable(px: seq<seq<byte>>, bpp: nat, ps: seq<Packet>, from: nat, trailer: seq<byte>)
    requires Uniform(px, bpp) && Tiles(px, ps, from)
    decreases |ps|
    ensures Readable(Code(px, ps, from), bpp, trailer)
  {
    if |ps| > 0 {
      CodeReadable(px, bpp, ps[1..], End(ps[0]), trailer);
      CodeHead(px, bpp, ps, from, trailer);
    }
  }

  /** The first packet the packer writes is read back as what it stands for. */
  lemma CodeHead(px: seq<seq<byte>>, bpp: nat, ps: seq<Packet>, from: nat, trailer: seq<byte>)
    requires Uniform(px, bpp) && Tiles(px, ps, from) && |ps| > 0
    requires Readable(Code(px, ps[1..], End(ps[0])), bpp, trailer)
    ensures Readable(Code(px, ps, from), bpp, trailer)
  {
    var p := ps[0];
    var head := Coded(PacketBytes(px, p), Flatten(px[p.start .. End(p)]), p.len);
    var rest := Code(px, ps[1..], End(p));
    ReadShaped(px, bpp, p, head.bytes + (Stream(rest) + trailer), Stream(rest) + trailer, p.len + Count(rest));
    ReadableCons(head, rest, bpp, trailer);
    CodeCons(px, ps, from);
  }

  lemma CodeCons(px: seq<seq<byte>>, ps: seq<Packet>, from: int)
    requires Tiles(px, ps, from) && 0 <= from && |ps| > 0
    ensures Code(px, ps, from)
              == [Coded(PacketBytes(px, ps[0]), Flatten(px[ps[0].start .. End(ps[0])]), ps[0].len)]
                 + Code(px, ps[1..], End(ps[0]))
  {
  }

  lemma ReadableCons(c: Coded, rest: seq<Coded>, bpp: nat, trailer: seq<byte>)
    requires ReadPacket(c.bytes + (Stream(rest) + trailer), bpp, c.pixels + Count(rest))
               == Ok(Piece(c.data, |c.bytes|, c.pixels))
    requires Readable(rest, bpp, trailer)
    ensures Readable([c] + rest, bpp, trailer)
  {
    var cs := [c] + rest;
    assert cs[0] == c && cs[1..] == rest;
  }

  /** A packet, then a stream that decodes the remaining pixels. */
  lemma Compose(s: seq<byte>, bpp: nat, need: nat, piece: Piece, tail: seq<byte>, rest: Decoded)
    requires ReadPacket(s, bpp, need) == Ok(piece) && piece.pixels < need
    requires s[piece.used ..] == tail
    requires LoadRle(tail, bpp, need - piece.pixels) == Ok(rest)
    ensures LoadRle(s, bpp, need) == Ok(Decoded(piece.data + rest.data, piece.used + rest.consumed))
  {
    LoadStep(s, bpp, need, piece);
  }

  /** One pass of the `do` loop, then either done or the rest of the stream. */
  lemma LoadStep(s: seq<byte>, bpp: nat, need: nat, piece: Piece)
    requires ReadPacket(s, bpp, need) == Ok(piece)
    ensures piece.pixels == need ==> LoadRle(s, bpp, need) == Ok(Decoded(piece.data, piece.used))
    ensures piece.pixels < need ==>
      LoadRle(s, bpp, need)
        == Prepend(piece.data, piece.used, LoadRle(s[piece.used ..], bpp, need - piece.pixels))
  {
  }

  /** The bytes of pixels `[cur, |px|)` are those of `[cur, mid)` then `[mid, |px|)`. */
  lemma SplitAt(px: seq<seq<byte>>, cur: nat, mid: nat)
    requires cur <= mid <= |px|
    ensures Flatten(px[cur..]) == Flatten(px[cur .. mid]) + Flatten(px[mid..])
  {
    assert px[cur..] == px[cur .. mid] + px[mid..];
    FlattenAppend(px[cur .. mid], px[mid..]);
  }

  /** `load_rle_data` undoes `unload_rle_data`: a buffer of `n >= 1` pixels
      packed and then unpacked comes back byte for byte, and the unpacker
      uses exactly the packed bytes. */
  lemma RoundTrip(d: seq<byte>, bpp: nat, n: nat, trailer: seq<byte>)
    requires |d| == n * bpp && n >= 1
    ensures LoadRle(UnloadRle(d, bpp, n) + trailer, bpp, n)
              == Ok(Decoded(d, |UnloadRle(d, bpp, n)|))
  {
    var px := Pixels(d, bpp, n);
    var ps := Plan(px, 0);
    var cs := Code(px, ps, 0);
    CodeReadable(px, bpp, ps, 0, trailer);
    LoadStream(cs, bpp, trailer);
    assert Data(cs) == d by {
      assert px[0..] == px;
      FlattenPixels(d, bpp, n);
    }
    Transfer(Stream(cs), UnloadRle(d, bpp, n), trailer, bpp, Count(cs), n, Data(cs), d);
  }

  /** Equal streams decode alike. */
  lemma Transfer(a: seq<byte>, b: seq<byte>, trailer: seq<byte>, bpp: nat, need: nat, need': nat, data: seq<byte>, data': seq<byte>)
    requires a == b && need == need' && data == data'
    requires LoadRle(a + trailer, bpp, need) == Ok(Decoded(data, |a|))
    ensures LoadRle(b + trailer, bpp, need') == Ok(Decoded(data', |b|))
  {
  }

  /** Two equal grey pixels pack into one repeat packet. */
  lemma PackRepeatExample()
    ensures UnloadRle([10, 10], 1, 2) == [129, 10]
  {
    var d: seq<byte> := [10, 10];
    var px := TwoPixels(d);
    assert Scan(px, 0, 2, false) == Run(2, false);
    var p := Packet(0, 2, false);
    assert First(px, 0) == p;
    assert Plan(px, 2) == [];
    assert Plan(px, 0) == [p];
    assert PacketBytes(px, p) == [129, 10];
  }

  /** Three different grey pixels pack into one raw packet. */
  lemma PackRawExample()
    ensures UnloadRle([1, 2, 3], 1, 3) == [2, 1, 2, 3]
  {
    var d: seq<byte> := [1, 2, 3];
    var px := ThreePixels(d);
    assert Scan(px, 0, 3, true) == Run(3, true);
    assert Scan(px, 0, 1, true) == Run(3, true);
    var p := Packet(0, 3, true);
    assert First(px, 0) == p;
    assert Plan(px, 3) == [];
    assert Plan(px, 0) == [p];
    assert px[0..3] == px;
    FlattenPixels(d, 1, 3);
    assert PacketBytes(px, p) == [2, 1, 2, 3];
  }

  /** Three different RGB pixels pack into one raw packet: the header byte
      2 and the nine bytes as they are. */
  lemma PackRgbExample()
    ensures UnloadRle([1, 2, 3, 4, 5, 6, 7, 8, 9], 3, 3) == [2, 1, 2, 3, 4, 5, 6, 7, 8, 9]
  {
    var d: seq<byte> := [1, 2, 3, 4, 5, 6, 7, 8, 9];
    var px := RgbPixels(d);
    assert px[0] != px[1] && px[1] != px[2] by {
      assert px[0][0] == 1 && px[1][0] == 4 && px[2][0] == 7;
    }
    var p := RawTriple(px);
    assert px[0..3] == px;
    FlattenPixels(d, 3, 3);
    assert PacketBytes(px, p) == [2] + d;
    assert Emit(px, [p], 0) == PacketBytes(px, p) + Emit(px, [], 3);
  }

  /** Three pixels without equal neighbours make one raw packet. */
  lemma RawTriple<P>(px: seq<P>) returns (p: Packet)
    requires |px| == 3 && px[0] != px[1] && px[1] != px[2]
    ensures p == Packet(0, 3, true) && Plan(px, 0) == [p]
  {
    assert Scan(px, 0, 3, true) == Run(3, true);
    assert Scan(px, 0, 2, true) == Run(3, true);
    assert Scan(px, 0, 1, true) == Run(3, true);
    p := Packet(0, 3, true);
    assert First(px, 0) == p;
    assert Plan(px, 3) == [];
  }

  lemma RgbPixels(d: seq<byte>) returns (px: seq<seq<byte>>)
    requires |d| == 9
    ensures px == Pixels(d, 3, 3) == [d[0..3], d[3..6], d[6..9]]
  {
    var r := d[3..];
    PixelsOne(r[3..], 3);
    assert Pixels(r, 3, 2) == [r[..3]] + Pixels(r[3..], 3, 1);
    assert r[..3] == d[3..6] && r[3..] == d[6..9];
    assert d[..3] == d[0..3];
    px := Pixels(d, 3, 3);
  }

  lemma ThreePixels(d: seq<byte>) returns (px: seq<seq<byte>>)
    requires |d| == 3
    ensures px == Pixels(d, 1, 3) == [[d[0]], [d[1]], [d[2]]]
  {
    var rest := TwoPixels(d[1..]);
    assert d[..1] == [d[0]];
    px := Pixels(d, 1, 3);
  }

  /** The two packets above read back, the raw one with a byte after it;
      a repeat header with no pixel after it is a truncated stream. */
  lemma UnpackExamples()
    ensures LoadRle([129, 10], 1, 2) == Ok(Decoded([10, 10], 2))
    ensures LoadRle([2, 1, 2, 3, 0], 1, 3) == Ok(Decoded([1, 2, 3], 4))
    ensures LoadRle([129], 1, 2) == Err(TruncatedData)
  {
    var r: seq<byte> := [129, 10];
    assert r[1 .. 2] == [10];
    assert Repeat([10], 1) == [10];
    assert Repeat([10], 2) == [10, 10];
    ReadRepeat(r, 1, 2, 2);
    LoadStep(r, 1, 2, Piece([10, 10], 2, 2));
    var s: seq<byte> := [2, 1, 2, 3, 0];
    assert s[1 .. 4] == [1, 2, 3];
  }

  lemma TwoPixels(d: seq<byte>) returns (px: seq<seq<byte>>)
    requires |d| == 2
    ensures px == Pixels(d, 1, 2) == [[d[0]], [d[1]]]
  {
    PixelsOne(d[1..], 1);
    assert d[..1] == [d[0]] && d[1..] == [d[1]];
    px := Pixels(d, 1, 2);
  }

  lemma PixelsOne(p: seq<byte>, bpp: nat)
    requires |p| == bpp
    ensures Pixels(p, bpp, 1) == [p]
  {
    assert p[..bpp] == p;
  }

  // ---------------------------------------------------------------------
  // How many pixels the unpacker stores

  function Min(a: nat, b: nat): nat { if a <= b then a else b }

  /** How many pixels `load_rle_data` writes into a buffer of `need`
      pixels. As written (`checkFirst` false) each pixel is stored and only
      then counted and compared with the pixel count, so a packet that
      runs past the end stores one pixel too many before the reader gives
      up; with the comparison moved in front of the store (`checkFirst`
      true) it stores none beyond the end. A packet stores the pixels it
      manages to read, up to that room; the loop goes on only after a
      packet that was read whole and did not reach the end. */
  function Stores(s: seq<byte>, bpp: nat, need: nat, checkFirst: bool): (r: nat)
    decreases |s|
    ensures r <= need + (if checkFirst then 0 else 1)
  {
    if |s| == 0 then 0
    else
      var c := s[0];
      var len: nat := if c < 128 then c + 1 else c - 127;
      var readable: nat :=
        if c < 128 then (if bpp == 0 then len else Min(len, (|s| - 1) / bpp))
        else if |s| - 1 < bpp then 0
        else len;
      var room := if checkFirst then need else need + 1;
      if readable < len || len > need then Min(readable, room)
      else if len == need then len
      else
        var used: nat := if c < 128 then 1 + len * bpp else 1 + bpp;
        assert used <= |s| by {
          if c < 128 && bpp > 0 {
            BlocksFit(len, |s| - 1, bpp);
          }
        }
        len + Stores(s[used..], bpp, need - len, checkFirst)
  }

  /** The pixels `load_rle_data` as written stores: never more than one
      past the buffer. */
  function StoresAsWritten(s: seq<byte>, bpp: nat, need: nat): (r: nat)
    ensures r <= need + 1
  {
    Stores(s, bpp, need, false)
  }

  /** The pixels the reader stores with the count compared before each
      store: never past the buffer. */
  function StoresChecked(s: seq<byte>, bpp: nat, need: nat): (r: nat)
    ensures r <= need
  {
    Stores(s, bpp, need, true)
  }

  /** A one-pixel grayscale image whose stream holds a repeat packet of
      two pixels: the reader as written stores two pixels into the
      one-pixel buffer before it fails, while the checked reader stores one
      and the unpacker model rejects the stream. */
  lemma OverrunExample()
    ensures StoresAsWritten([129, 10], 1, 1) == 2
    ensures StoresChecked([129, 10], 1, 1) == 1
    ensures LoadRle([129, 10], 1, 1) == Err(TooManyPixels)
  {
  }

  /** On a stream the unpacker accepts, both readers store exactly the
      pixels of the buffer: the overrun happens only on streams that are
      rejected. */
  lemma {:induction false} StoresOnSuccess(s: seq<byte>, bpp: nat, need: nat, checkFirst: bool)
    requires LoadRle(s, bpp, need).Ok?
    decreases |s|
    ensures Stores(s, bpp, need, checkFirst) == need
  {
    var piece := ReadPacket(s, bpp, need).value;
    LoadStep(s, bpp, need, piece);
    StoresStep(s, bpp, need, checkFirst, piece);
    if piece.pixels < need {
      StoresOnSuccess(s[piece.used ..], bpp, need - piece.pixels, checkFirst);
    }
  }

  /** A packet the unpacker reads whole is stored whole, and the store
      count goes on with the rest of the stream. */
  lemma StoresStep(s: seq<byte>, bpp: nat, need: nat, checkFirst: bool, piece: Piece)
    requires ReadPacket(s, bpp, need) == Ok(piece)
    ensures piece.used <= |s|
    ensures Stores(s, bpp, need, checkFirst)
              == if piece.pixels == need then need
                 else piece.pixels + Stores(s[piece.used ..], bpp, need - piece.pixels, checkFirst)
  {
    var c := s[0];
    var len: nat := if c < 128 then c + 1 else c - 127;
    assert piece.pixels == len && piece.used == (if c < 128 then 1 + len * bpp else 1 + bpp);
    if c < 128 && bpp > 0 {
      BlocksFit(len, |s| - 1, bpp);
    }
  }
}
