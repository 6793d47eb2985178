/** The code at the two ends of the bridge: reads and writes that may be split or interrupted
    anywhere, the daemon's session reader, and the client's sender and frame reader. */
module BridgeEnds {
  import Arith
  import opened Bytes
  import opened BridgeProtocol
  import opened Framing
  import opened Options
  import opened Seqs
  import FramePath
  import FrameSpec

  /** What the next `read` calls deliver: data, an interrupted call, or an error. */
  datatype Delivery = Data(bytes: seq<byte>) | Interrupted | Failed

  /** A `read` that delivers no bytes has met the end of the stream. */
  predicate Ends(d: Delivery) { d == Failed || d == Data([]) }

  /** All bytes that can still be read. */
  function Available(d: seq<Delivery>): seq<byte> {
    if d == [] || Ends(d[0]) then []
    else if d[0].Interrupted? then Available(d[1..])
    else d[0].bytes + Available(d[1..])
  }

  /** At most the first `n` elements. */
  function First<T>(s: seq<T>, n: nat): (r: seq<T>)
    ensures r <= s && |r| == if |s| < n then |s| else n
  {
    if |s| <= n then s else s[..n]
  }

  /** The bytes of the pieces, in order. */
  function Joined(pieces: seq<seq<byte>>): seq<byte> {
    if pieces == [] then [] else pieces[0] + Joined(pieces[1..])
  }

  /** The pieces, with `gaps[i]` interrupted calls ahead of piece `i`. */
  function Delivered(pieces: seq<seq<byte>>, gaps: seq<nat>): seq<Delivery>
    requires |gaps| == |pieces|
  {
    if pieces == [] then []
    else seq(gaps[0], _ => Interrupted) + [Data(pieces[0])] + Delivered(pieces[1..], gaps[1..])
  }

  lemma {:induction false} InterruptionsSkipped(n: nat, rest: seq<Delivery>)
    ensures Available(seq(n, _ => Interrupted) + rest) == Available(rest)
  {
    if n == 0 {
      assert seq(0, _ => Interrupted) + rest == rest;
    } else {
      InterruptionsSkipped(n - 1, rest);
      assert (seq(n, _ => Interrupted) + rest)[1..] == seq(n - 1, _ => Interrupted) + rest;
    }
  }

  /** However a stream is cut into pieces, and however often a call is interrupted, what can be read is the
      stream, up to the end of the stream or an error. */
  lemma {:induction false} AnySplitArrives(pieces: seq<seq<byte>>, gaps: seq<nat>, end: Delivery, rest: seq<Delivery>)
    requires |gaps| == |pieces| && (forall i :: 0 <= i < |pieces| ==> pieces[i] != []) && Ends(end)
    ensures Available(Delivered(pieces, gaps) + [end] + rest) == Joined(pieces)
  {
    if pieces == [] {
      assert Delivered(pieces, gaps) + [end] + rest == [end] + rest;
    } else {
      AnySplitArrives(pieces[1..], gaps[1..], end, rest);
      var tail := Delivered(pieces[1..], gaps[1..]) + [end] + rest;
      InterruptionsSkipped(gaps[0], [Data(pieces[0])] + tail);
      assert Delivered(pieces, gaps) + [end] + rest == seq(gaps[0], _ => Interrupted) + ([Data(pieces[0])] + tail);
      assert ([Data(pieces[0])] + tail)[1..] == tail;
    }
  }

  /** The receiving side of a socket. */
  class Receiver {
    var pending: seq<Delivery>

    constructor (deliveries: seq<Delivery>)
      ensures pending == deliveries
    {
      pending := deliveries;
    }

    ghost function Rest(): seq<byte>
      reads this
    {
      Available(pending)
    }

    /** Reads exactly `n` bytes, however the stream is split; fails only if it ends too early. */
    method ReadFull(n: nat) returns (ok: bool, data: seq<byte>)
      modifies this
      ensures ok <==> n <= old(|Rest()|)
      ensures ok ==> data == old(Rest())[..n] && Rest() == old(Rest())[n..]
    {
      data := [];
      while |data| < n
        invariant |data| <= n && data + Rest() == old(Rest())
        decreases n - |data|, |pending|
      {
        if pending == [] || Ends(pending[0]) { return false, data; }
        var head, more := pending[0], pending[1..];
        assert pending == [head] + more;
        if head.Interrupted? {
          pending := more;
        } else {
          var want := n - |data|;
          if |head.bytes| <= want {
            Regroup(data, head.bytes, Available(more));
            data := data + head.bytes;
            pending := more;
          } else {
            var first, second := head.bytes[..want], head.bytes[want..];
            assert head.bytes == first + second;
            Regroup(first, second, Available(more));
            Regroup(data, first, second + Available(more));
            data := data + first;
            pending := [Data(second)] + more;
          }
        }
      }
      ok := true;
    }

    /** One round of the session loop. */
    method ReadUnit() returns (r: Option<Unit>)
      modifies this
      ensures r.None? ==> ParseUnits(old(Rest())) == []
      ensures r.Some? ==> |Rest()| < old(|Rest()|) && ParseUnits(old(Rest())) == [r.value] + ParseUnits(Rest())
    {
      ghost var here := Rest();
      var got, head := ReadFull(8);
      if !got { return None; }
      SameWord(head, here, 0);
      SameWord(head, here, 4);
      var len := WordAt(head, 4);
      if WordAt(head, 0) != INPUT || len == 0 || len > MAX_INPUT { return None; }
      var whole, u := ReadFull(len);
      if !whole { return None; }
      assert u == here[8..8 + len] && Rest() == here[8 + len..];
      r := Some(u);
    }

    /** The hello and the session loop. The loop also ends once `rounds` units have been handed over,
        because it was told to stop or the decoder refused the next buffer; apart from that the
        session depends on the bytes alone. */
    method ReadSession(rounds: nat) returns (r: Session)
      modifies this
      ensures var whole := ParseSession(old(Rest()));
              r == if whole.NoSession? then NoSession else Session(whole.codec, First(whole.units, rounds))
    {
      ghost var all := Rest();
      var ok, hello := ReadFull(8);
      if !ok { return NoSession; }
      SameWord(hello, all, 0);
      SameWord(hello, all, 4);
      if WordAt(hello, 0) != HELLO || (WordAt(hello, 4) != 4 && WordAt(hello, 4) != 36) { return NoSession; }
      var units := ReadUnits(rounds);
      r := Session(WordAt(hello, 4), units);
    }

    method ReadUnits(rounds: nat) returns (units: seq<Unit>)
      modifies this
      ensures units == First(ParseUnits(old(Rest())), rounds)
    {
      units := [];
      ghost var all := ParseUnits(Rest());
      while |units| < rounds
        invariant |units| <= rounds && units + ParseUnits(Rest()) == all
        decreases |Rest()|
      {
        var u := ReadUnit();
        if u.None? { break; }
        Regroup(units, [u.value], ParseUnits(Rest()));
        units := units + [u.value];
      }
    }

    /** One round of the client's render loop, up to the colour conversion. */
    method ReadFrame() returns (r: Option<Frame>)
      modifies this
      ensures r.None? ==> ParseFrames(old(Rest())) == []
      ensures r.Some? ==> |Rest()| < old(|Rest()|) && ParseFrames(old(Rest())) == [r.value] + ParseFrames(Rest())
    {
      ghost var here := Rest();
      var got, header := ReadFull(24);
      if !got { return None; }
      SameWord(header, here, 0);
      SameWord(header, here, 4);
      SameWord(header, here, 8);
      SameWord(header, here, 12);
      SameWord(header, here, 16);
      var w, h, ylen, vulen := WordAt(header, 4), WordAt(header, 8), WordAt(header, 12), WordAt(header, 16);
      if !HeaderAccepted(WordAt(header, 0), w, h, ylen, vulen) { return None; }
      var whole, yuv := ReadFull(ylen + vulen);
      if !whole { return None; }
      TailSlices(here, yuv, ylen, vulen);
      FrameTaken(here, w, h, ylen, vulen);
      r := Some(Frame(w, h, yuv[..ylen], yuv[ylen..]));
    }

    /** The client's render loop; a failing window ends it after `rounds` frames. */
    method ReadFrames(rounds: nat) returns (fs: seq<Frame>)
      modifies this
      ensures fs == First(ParseFrames(old(Rest())), rounds)
    {
      fs := [];
      ghost var all := ParseFrames(Rest());
      while |fs| < rounds
        invariant |fs| <= rounds && fs + ParseFrames(Rest()) == all
        decreases |Rest()|
      {
        var f := ReadFrame();
        if f.None? { break; }
        Regroup(fs, [f.value], ParseFrames(Rest()));
        fs := fs + [f.value];
      }
    }
  }

  lemma TailSlices(here: seq<byte>, yuv: seq<byte>, ylen: nat, vulen: nat)
    requires 24 + (ylen + vulen) <= |here| && yuv == here[24..][..ylen + vulen]
    ensures yuv[..ylen] == here[24..24 + ylen] && yuv[ylen..] == here[24 + ylen..24 + (ylen + vulen)]
    ensures here[24..][ylen + vulen..] == here[24 + (ylen + vulen)..]
  {
  }

  /** How the next `write` calls go: so many bytes taken, interrupted, or failed. */
  datatype Acceptance = Takes(n: nat) | Retry | Broken

  /** The sending side of a socket: everything written so far, and whether a write has failed. A
      stream that failed once takes no more bytes. */
  class Sender {
    var written: seq<byte>
    var broken: bool

    constructor (start: seq<byte>)
      ensures written == start && !broken
    {
      written, broken := start, false;
    }

    /** Writes all of `buf`, or a proper prefix of it if the peer goes away. */
    method WriteFull(buf: seq<byte>, plan: seq<Acceptance>) returns (ok: bool)
      modifies this
      ensures ok ==> written == old(written) + buf && broken == old(broken)
      ensures !ok ==> broken && exists k :: 0 <= k < |buf| && written == old(written) + buf[..k]
      ensures old(broken) && buf != [] ==> !ok && written == old(written)
    {
      assert buf[..0] == [];
      if broken && buf != [] { return false; }
      var sent: nat, i: nat := 0, 0;
      while sent < |buf|
        invariant sent <= |buf| && i <= |plan| && written == old(written) + buf[..sent] && broken == old(broken)
        decreases |plan| - i
      {
        if i == |plan| || plan[i].Broken? || plan[i] == Takes(0) {
          broken := true;
          return false;
        }
        if plan[i].Takes? {
          var r := if plan[i].n < |buf| - sent then plan[i].n else |buf| - sent;
          assert buf[..sent + r] == buf[..sent] + buf[sent..sent + r];
          written := written + buf[sent..sent + r];
          sent := sent + r;
        }
        i := i + 1;
      }
      assert buf[..sent] == buf;
      ok := true;
    }
  }

  /** The client's decoder handle: parameter sets go out once, ahead of the first access unit. */
  class GokeDecoder {
    const codec: nat
    const stream: Sender
    var csdSent: bool
    ghost var sent: seq<Unit>

    ghost predicate Valid()
      reads this, stream
    {
      && (codec == 4 || codec == 36) && (forall u :: u in sent ==> Sendable(u))
      && stream.written <= ClientBytes(codec, sent) && (!stream.broken ==> stream.written == ClientBytes(codec, sent))
    }

    constructor (hevc: bool)
      ensures Valid() && fresh(stream) && !stream.broken && sent == [] && !csdSent && codec == if hevc then 36 else 4
    {
      codec := if hevc then 36 else 4;
      stream := new Sender(Word(HELLO) + Word(if hevc then 36 else 4));
      csdSent, sent := false, [];
      new;
      assert Word(HELLO) + Word(codec) + EncodeUnits([]) == Word(HELLO) + Word(codec);
    }

    /** Sends one unit. It fails for a unit too long to announce, on a broken stream, and when the
        stream breaks inside the unit; only then does the stream change. */
    method Send(data: Unit, plan: seq<Acceptance>) returns (ok: bool)
      requires Valid()
      modifies this`sent, stream
      ensures Valid()
      ensures ok ==> sent == old(sent) + [data] && !stream.broken
      ensures !ok && sent == old(sent) ==>
                && stream.written == old(stream.written) && stream.broken == old(stream.broken)
                && (!Sendable(data) || stream.broken)
      ensures !ok && sent != old(sent) ==> sent == old(sent) + [data] && stream.broken && !old(stream.broken)
    {
      if |data| >= LIMIT32 { return false; }
      if stream.broken {
        ok := stream.WriteFull(EncodeUnit(data), plan);
        return;
      }
      ok := stream.WriteFull(EncodeUnit(data), plan);
      AppendUnit(codec, sent, data);
      sent := sent + [data];
      if !ok {
        ghost var k :| 0 <= k < |EncodeUnit(data)| && stream.written == old(stream.written) + EncodeUnit(data)[..k];
        assert stream.written == (old(stream.written) + EncodeUnit(data))[..|old(stream.written)| + k];
      }
    }

    /** Whatever happens, a prefix of the planned units goes out, in order, parameter sets first and
        only once; success means all of them on an unbroken stream. */
    method Decode(data: Unit, csd: Option<Unit>, plan: seq<Acceptance>, plan2: seq<Acceptance>) returns (ok: bool)
      requires Valid()
      modifies this`sent, this`csdSent, stream
      ensures Valid()
      ensures var planned := (if old(csdSent) || csd.None? then [] else [csd.value]) + [data];
              old(sent) <= sent <= old(sent) + planned && (ok <==> !stream.broken && sent == old(sent) + planned)
      ensures old(csdSent) || csd.None? || ok ==> csdSent
    {
      if !csdSent {
        if csd.Some? {
          var first := Send(csd.value, plan);
          if !first { return false; }
        }
        csdSent := true;
      }
      ok := Send(data, plan2);
    }
  }

  lemma AppendUnit(codec: nat, units: seq<Unit>, u: Unit)
    ensures ClientBytes(codec, units + [u]) == ClientBytes(codec, units) + EncodeUnit(u)
  {
    EncodeAppend(EncodeUnit, units, u);
    Regroup(Word(HELLO) + Word(codec), EncodeUnits(units), EncodeUnit(u));
  }

  /** End to end: whatever units the client sent and whatever prefix of its stream arrives, in whatever
      pieces, the daemon sees no session before the hello is complete; from then on it sees the right
      codec, and the units complete so far up to the first one out of limits. */
  lemma DaemonSeesPrefix(codec: nat, units: seq<Unit>, k: nat) returns (n: nat)
    requires (codec == 4 || codec == 36) && (forall u :: u in units ==> Sendable(u)) && k <= |ClientBytes(codec, units)|
    ensures k < 8 ==> ParseSession(ClientBytes(codec, units)[..k]) == NoSession
    ensures k >= 8 ==>
              && n <= |units| && CompleteWithin(EncodeUnit, units, k - 8, n)
              && ParseSession(ClientBytes(codec, units)[..k]) == Session(codec, GoodPrefix(units[..n]))
  {
    n := 0;
    if k >= 8 {
      n := CutStream(units, k - 8);
      CutConcat(Word(HELLO) + Word(codec), EncodeUnits(units), k);
      HelloLayout(codec, EncodeUnits(units)[..k - 8]);
    }
  }

  /** The header the daemon writes for any frame its routine accepts passes the client's test. */
  lemma DaemonHeaderAccepted(f: FramePath.FrameInfo, g: FramePath.Generation)
    requires g.Valid() && FramePath.Accepted(f, g)
    ensures var (ow, oh) := FrameSpec.Fit(f.w, f.h, g.boxW, g.boxH);
            HeaderAccepted(OUTPUT_NV21, ow, oh, ow * oh, ow * oh / 2)
  {
    FrameSpec.FitInBox(f.w, f.h, g.boxW, g.boxH);
    var (ow, oh) := FrameSpec.Fit(f.w, f.h, g.boxW, g.boxH);
    HeaderFits(ow, oh);
  }

  lemma HeaderFits(ow: nat, oh: nat)
    requires 0 < ow <= 1920 && 0 < oh <= 1080
    ensures HeaderAccepted(OUTPUT_NV21, ow, oh, ow * oh, ow * oh / 2)
  {
    Arith.MulMono(ow, 1920, oh);
  }

  /** What the daemon writes for a converted frame: the announced numbers of luma and chroma bytes,
      from the start of its scratch planes. */
  function SentFrame(ow: nat, oh: nat, lumaBuf: seq<byte>, chromaBuf: seq<byte>): Frame
    requires ow * oh <= |lumaBuf| && ow * oh / 2 <= |chromaBuf|
  {
    Frame(ow, oh, lumaBuf[..ow * oh], chromaBuf[..ow * oh / 2])
  }

  lemma SentFrameParses(ow: nat, oh: nat, lumaBuf: seq<byte>, chromaBuf: seq<byte>)
    requires 0 < ow <= 1920 && 0 < oh <= 1080 && ow * oh <= |lumaBuf| && ow * oh / 2 <= |chromaBuf|
    ensures var sent := SentFrame(ow, oh, lumaBuf, chromaBuf); Emitted(sent) && ParseFrames(EncodeFrame(sent)) == [sent]
  {
    HeaderFits(ow, oh);
    var sent := SentFrame(ow, oh, lumaBuf, chromaBuf);
    ParseOneFrame(sent, []);
    assert EncodeFrame(sent) + [] == EncodeFrame(sent);
  }

  /** The client gets exactly one frame back from what was written, with the luma plane of the frame;
      it gets the chroma plane of the frame if and only if the frame was scaled or its height is even. */
  lemma ClientSeesPlanes(f: FramePath.FrameInfo, g: FramePath.Generation, y: seq<byte>, vu: seq<byte>,
                         lumaBuf: seq<byte>, chromaBuf: seq<byte>, ow: nat, oh: nat)
    requires g.Valid() && FramePath.Accepted(f, g) && FramePath.Covers(f, g, y, vu)
    requires (ow, oh) == FrameSpec.Fit(f.w, f.h, g.boxW, g.boxH)
    requires FramePath.LumaOut(f, g, y, vu) <= lumaBuf && FramePath.ChromaOut(f, g, y, vu) <= chromaBuf
    requires ow * oh <= |lumaBuf| && ow * oh / 2 <= |chromaBuf|
    ensures var sent := SentFrame(ow, oh, lumaBuf, chromaBuf);
            && Emitted(sent) && ParseFrames(EncodeFrame(sent)) == [sent]
            && sent.y == FramePath.LumaOut(f, g, y, vu)
            && (sent.vu == FramePath.ChromaOut(f, g, y, vu) <==> FramePath.Scales(f, g) || f.h % 2 == 0)
  {
    FrameSpec.FitInBox(f.w, f.h, g.boxW, g.boxH);
    SentFrameParses(ow, oh, lumaBuf, chromaBuf);
    FramePath.LumaSize(f, g, y, vu, ow, oh);
    CutEqual(FramePath.LumaOut(f, g, y, vu), lumaBuf, ow * oh);
    FramePath.ChromaCountExact(f, g, y, vu);
    CutEqual(FramePath.ChromaOut(f, g, y, vu), chromaBuf, ow * oh / 2);
  }

  lemma CutEqual(plane: seq<byte>, buf: seq<byte>, n: nat)
    requires plane <= buf && n <= |buf|
    ensures buf[..n] == plane <==> |plane| == n
  {
  }
}
