/** The length-prefixed protocol between the client library and the decoder daemon. */
module BridgeProtocol {
  import opened Arith
  import opened Bytes
  import opened Framing

  const HELLO := 0x474b4849
  const INPUT := 0x474b494e
  const OUTPUT_NV21 := 0x47524632
  const MAX_INPUT := 16 * 1024 * 1024
  const MAX_YUV := 4096 * 2304 * 3 / 2
  const LIMIT32 := 0x1_0000_0000

  type Unit = seq<byte>

  function Word(x: nat): (s: seq<byte>)
    ensures |s| == 4
  {
    ToLE(x, 4)
  }

  /** The 32-bit word at byte `at`. */
  function WordAt(s: seq<byte>, at: nat): nat
    requires at + 4 <= |s|
  {
    FromLE(s[at..at + 4])
  }

  /** The bytes of a word as they appear on the wire, lowest first. */
  lemma WordBytes(a: byte, b: byte, c: byte, d: byte)
    ensures Word(a + 0x100 * b + 0x1_0000 * c + 0x100_0000 * d) == [a, b, c, d]
  {
    var x := a + 0x100 * b + 0x1_0000 * c + 0x100_0000 * d;
    assert x % 256 == a && x / 256 == b + 0x100 * c + 0x1_0000 * d;
    assert x / 256 % 256 == b && x / 256 / 256 == c + 0x100 * d;
    assert x / 256 / 256 % 256 == c && x / 256 / 256 / 256 == d;
    assert ToLE(d, 1) == [d] + ToLE(d / 256, 0);
    assert ToLE(c + 0x100 * d, 2) == [c] + ToLE(d, 1);
    assert ToLE(b + 0x100 * c + 0x1_0000 * d, 3) == [b] + ToLE(c + 0x100 * d, 2);
  }

  // ----- client to daemon

  function EncodeUnit(u: Unit): (s: seq<byte>)
    ensures |s| == 8 + |u|
  {
    Word(INPUT) + Word(|u|) + u
  }

  function EncodeUnits(units: seq<Unit>): seq<byte> {
    EncodeAll(EncodeUnit, units)
  }

  function ClientBytes(codec: nat, units: seq<Unit>): seq<byte> {
    Word(HELLO) + Word(codec) + EncodeUnits(units)
  }

  /** What the daemon accepts: between one byte and 16 MiB. */
  predicate GoodUnit(u: Unit) { 1 <= |u| <= MAX_INPUT }

  /** A length that the client can announce. */
  predicate Sendable(u: Unit) { |u| < LIMIT32 }

  /** The access units the daemon's session loop hands to the decoder. */
  function ParseUnits(s: seq<byte>): seq<Unit>
    decreases |s|
  {
    if |s| < 8 then []
    else
      var len := WordAt(s, 4);
      if WordAt(s, 0) != INPUT || len == 0 || len > MAX_INPUT || |s| < 8 + len then []
      else [s[8..8 + len]] + ParseUnits(s[8 + len..])
  }

  datatype Session = NoSession | Session(codec: nat, units: seq<Unit>)

  function ParseSession(s: seq<byte>): Session {
    if |s| < 8 || WordAt(s, 0) != HELLO || (WordAt(s, 4) != 4 && WordAt(s, 4) != 36) then NoSession
    else Session(WordAt(s, 4), ParseUnits(s[8..]))
  }

  lemma UnitLayout(u: Unit, rest: seq<byte>)
    requires Sendable(u)
    ensures var s := EncodeUnit(u) + rest;
            && s[0..4] == Word(INPUT) && s[4..8] == Word(|u|) && s[8..8 + |u|] == u && s[8 + |u|..] == rest
            && WordAt(s, 0) == INPUT && WordAt(s, 4) == |u|
  {
    Word32(INPUT);
    Word32(|u|);
  }

  lemma ParseOneUnit(u: Unit, rest: seq<byte>)
    requires Sendable(u)
    ensures ParseUnits(EncodeUnit(u) + rest) == if GoodUnit(u) then [u] + ParseUnits(rest) else []
  {
    UnitLayout(u, rest);
  }

  /** A unit cut short yields nothing. */
  lemma ParseCutUnit(u: Unit, k: nat)
    requires Sendable(u) && k < |EncodeUnit(u)|
    ensures ParseUnits(EncodeUnit(u)[..k]) == []
  {
    if k >= 8 {
      UnitLayout(u, []);
      var s, cut := EncodeUnit(u) + [], EncodeUnit(u)[..k];
      assert cut[0..4] == s[0..4] && cut[4..8] == s[4..8];
    }
  }

  /** The units before the first one the daemon would refuse. */
  function GoodPrefix(units: seq<Unit>): seq<Unit> {
    Leading(GoodUnit, units)
  }

  lemma {:induction false} ParseAll(units: seq<Unit>)
    requires forall u :: u in units ==> Sendable(u)
    ensures ParseUnits(EncodeUnits(units)) == GoodPrefix(units)
  {
    if units != [] {
      ParseOneUnit(units[0], EncodeUnits(units[1..]));
      ParseAll(units[1..]);
    }
  }

  /** The daemon recovers exactly what the client sent, if and only if every unit is within limits. */
  lemma DaemonRecovers(codec: nat, units: seq<Unit>)
    requires (codec == 4 || codec == 36) && forall u :: u in units ==> Sendable(u)
    ensures ParseSession(ClientBytes(codec, units)) == Session(codec, GoodPrefix(units))
    ensures ParseSession(ClientBytes(codec, units)) == Session(codec, units) <==> forall u :: u in units ==> GoodUnit(u)
  {
    HelloLayout(codec, EncodeUnits(units));
    ParseAll(units);
    LeadingAll(GoodUnit, units);
  }

  lemma HelloLayout(codec: nat, rest: seq<byte>)
    requires codec == 4 || codec == 36
    ensures var s := Word(HELLO) + Word(codec) + rest;
            s[8..] == rest && WordAt(s, 0) == HELLO && WordAt(s, 4) == codec
  {
    Word32(HELLO);
    Word32(codec);
    var s := Word(HELLO) + Word(codec) + rest;
    assert s[0..4] == Word(HELLO) && s[4..8] == Word(codec);
  }

  lemma UnitsUndone()
    ensures Undoes(EncodeUnit, ParseUnits, Sendable, GoodUnit)
  {
    forall u: Unit, rest: seq<byte> | Sendable(u)
      ensures ParseUnits(EncodeUnit(u) + rest) == if GoodUnit(u) then [u] + ParseUnits(rest) else []
    {
      ParseOneUnit(u, rest);
    }
    forall u: Unit, k: nat | Sendable(u) && k < |EncodeUnit(u)| ensures ParseUnits(EncodeUnit(u)[..k]) == [] {
      ParseCutUnit(u, k);
    }
  }

  /** Whatever units the client sent, a stream cut after `k` bytes yields exactly the units that are
      complete within it, up to the first one that is out of limits. */
  lemma CutStream(units: seq<Unit>, k: nat) returns (n: nat)
    requires (forall u :: u in units ==> Sendable(u)) && k <= |EncodeUnits(units)|
    ensures CompleteWithin(EncodeUnit, units, k, n) && ParseUnits(EncodeUnits(units)[..k]) == GoodPrefix(units[..n])
    ensures ParseUnits(EncodeUnits(units)[..k]) == units[..n] <==> forall u :: u in units[..n] ==> GoodUnit(u)
  {
    UnitsUndone();
    n := CutRecovers(EncodeUnit, ParseUnits, Sendable, GoodUnit, units, k);
    LeadingAll(GoodUnit, units[..n]);
  }

  lemma ClientWords()
    ensures Word(HELLO) == [0x49, 0x48, 0x4b, 0x47] && Word(INPUT) == [0x4e, 0x49, 0x4b, 0x47]
    ensures Word(36) == [36, 0, 0, 0] && Word(4) == [4, 0, 0, 0]
  {
    WordBytes(0x49, 0x48, 0x4b, 0x47);
    WordBytes(0x4e, 0x49, 0x4b, 0x47);
    WordBytes(36, 0, 0, 0);
    WordBytes(4, 0, 0, 0);
  }

  /** What the client sends, byte by byte: "IHKG" and the codec (36 for HEVC, 4 for H.264) once, then for
      each unit "NIKG", its length and its bytes. */
  lemma ClientWire(hevc: bool, u: Unit, length: seq<byte>)
    requires |length| == 4 && |u| == FromLE(length)
    ensures ClientBytes(if hevc then 36 else 4, []) ==
            [0x49, 0x48, 0x4b, 0x47] + (if hevc then [36, 0, 0, 0] else [4, 0, 0, 0])
    ensures EncodeUnit(u) == [0x4e, 0x49, 0x4b, 0x47] + length + u
    ensures GoodUnit(u) <==> 1 <= |u| <= 16_777_216
  {
    ClientWords();
    WordOf(length);
    assert Word(HELLO) + Word(if hevc then 36 else 4) + [] == Word(HELLO) + Word(if hevc then 36 else 4);
  }

  /** Words and the bytes they are read from determine each other. */
  lemma WordIs(s: seq<byte>, at: nat, x: nat)
    requires at + 4 <= |s| && x < LIMIT32
    ensures WordAt(s, at) == x <==> s[at..at + 4] == Word(x)
  {
    WordOf(s[at..at + 4]);
    Word32(x);
  }

  /** The marks of the three kinds of message, as bytes. */
  lemma Marks(s: seq<byte>)
    requires |s| >= 4
    ensures WordAt(s, 0) == HELLO <==> s[0..4] == [0x49, 0x48, 0x4b, 0x47]
    ensures WordAt(s, 0) == INPUT <==> s[0..4] == [0x4e, 0x49, 0x4b, 0x47]
    ensures WordAt(s, 0) == OUTPUT_NV21 <==> s[0..4] == [0x32, 0x46, 0x52, 0x47]
  {
    ClientWords();
    WordBytes(0x32, 0x46, 0x52, 0x47);
    WordIs(s, 0, HELLO);
    WordIs(s, 0, INPUT);
    WordIs(s, 0, OUTPUT_NV21);
  }

  /** Exactly which streams open a session: those that start with "IHKG" and one of the two codecs. */
  lemma SessionOpensExactly(s: seq<byte>)
    ensures ParseSession(s).Session? <==>
            |s| >= 8 && s[0..4] == [0x49, 0x48, 0x4b, 0x47] && (s[4..8] == [36, 0, 0, 0] || s[4..8] == [4, 0, 0, 0])
  {
    ClientWords();
    if |s| >= 8 {
      Marks(s);
      WordIs(s, 4, 36);
      WordIs(s, 4, 4);
    }
  }

  lemma {:induction false} UnitTaken(s: seq<byte>, n: nat)
    requires |s| >= 8 && n == WordAt(s, 4)
    ensures ParseUnits(s) != [] <==> WordAt(s, 0) == INPUT && 1 <= n <= MAX_INPUT && 8 + n <= |s|
    ensures ParseUnits(s) != [] ==> ParseUnits(s) == [s[8..8 + n]] + ParseUnits(s[8 + n..])
  {
  }

  /** Exactly when the daemon takes another unit: "NIKG", a length from one byte to 16 MiB, and that many
      bytes; the unit is those bytes, and the next one starts right after them. */
  lemma UnitTakenExactly(s: seq<byte>, n: nat)
    requires |s| >= 8 ==> n == FromLE(s[4..8])
    ensures ParseUnits(s) != [] <==>
            |s| >= 8 && s[0..4] == [0x4e, 0x49, 0x4b, 0x47] && 1 <= n <= 16_777_216 && 8 + n <= |s|
    ensures ParseUnits(s) != [] ==> 8 + n <= |s| && ParseUnits(s) == [s[8..8 + n]] + ParseUnits(s[8 + n..])
  {
    if |s| >= 8 {
      Marks(s);
      UnitTaken(s, n);
    }
  }

  // ----- daemon to client

  datatype Frame = Frame(w: nat, h: nat, y: seq<byte>, vu: seq<byte>)

  /** Frames the daemon emits: positive sizes within the accepted maximum, planes of the announced sizes. */
  predicate Emitted(f: Frame) {
    0 < f.w <= 4096 && 0 < f.h <= 2304 && |f.y| == f.w * f.h && |f.vu| == f.w * f.h / 2
  }

  function HeaderBytes(w: nat, h: nat, ylen: nat, vulen: nat): (s: seq<byte>)
    ensures |s| == 24
  {
    Word(OUTPUT_NV21) + Word(w) + Word(h) + Word(ylen) + Word(vulen) + Word(w)
  }

  function EncodeFrame(f: Frame): (s: seq<byte>)
    ensures |s| == 24 + |f.y| + |f.vu|
  {
    HeaderBytes(f.w, f.h, f.w * f.h, f.w * f.h / 2) + f.y + f.vu
  }

  function EncodeFrames(fs: seq<Frame>): seq<byte> {
    EncodeAll(EncodeFrame, fs)
  }

  /** The client's header test. */
  predicate HeaderAccepted(magic: nat, w: nat, h: nat, ylen: nat, vulen: nat) {
    && magic == OUTPUT_NV21 && 0 < w <= 4096 && 0 < h <= 2304
    && ylen == w * h && vulen == w * h / 2 && ylen + vulen <= MAX_YUV
  }

  /** The frames the client's render loop presents. */
  function ParseFrames(s: seq<byte>): seq<Frame>
    decreases |s|
  {
    if |s| < 24 then []
    else
      var w, h, ylen, vulen := WordAt(s, 4), WordAt(s, 8), WordAt(s, 12), WordAt(s, 16);
      if !HeaderAccepted(WordAt(s, 0), w, h, ylen, vulen) || |s| < 24 + (ylen + vulen) then []
      else [Frame(w, h, s[24..24 + ylen], s[24 + ylen..24 + (ylen + vulen)])] + ParseFrames(s[24 + (ylen + vulen)..])
  }

  /** What the daemon sends ahead of the planes, byte by byte: "2FRG", then width, height, the two lengths
      and the width again, and what the client accepts. */
  lemma HeaderWire(w: seq<byte>, h: seq<byte>, y: seq<byte>, vu: seq<byte>)
    requires |w| == 4 && |h| == 4 && |y| == 4 && |vu| == 4
    ensures HeaderBytes(FromLE(w), FromLE(h), FromLE(y), FromLE(vu)) == [0x32, 0x46, 0x52, 0x47] + w + h + y + vu + w
  {
    WordBytes(0x32, 0x46, 0x52, 0x47);
    WordOf(w);
    WordOf(h);
    WordOf(y);
    WordOf(vu);
  }

  lemma WordOf(s: seq<byte>)
    requires |s| == 4
    ensures Word(FromLE(s)) == s
  {
    ByteOrder(s[0], s[1], s[2], s[3]);
    WordBytes(s[0], s[1], s[2], s[3]);
    assert s == [s[0], s[1], s[2], s[3]];
  }

  /** The headers the client accepts, in numbers; its last test, on the total, never decides. */
  lemma HeaderAcceptedExactly(magic: nat, w: nat, h: nat, ylen: nat, vulen: nat)
    ensures HeaderAccepted(magic, w, h, ylen, vulen) <==>
            && magic == 0x4752_4632 && 1 <= w <= 4096 && 1 <= h <= 2304
            && ylen == w * h && 2 * vulen <= ylen <= 2 * vulen + 1
  {
    if w <= 4096 && h <= 2304 {
      MulMono(w, 4096, h);
      MulMono(h, 2304, 4096);
    }
  }

  lemma {:induction false} FrameRefused(s: seq<byte>)
    requires |s| >= 24
    requires var ylen, vulen := WordAt(s, 12), WordAt(s, 16);
             !HeaderAccepted(WordAt(s, 0), WordAt(s, 4), WordAt(s, 8), ylen, vulen) || |s| < 24 + (ylen + vulen)
    ensures ParseFrames(s) == []
  {
  }

  lemma {:induction false} FrameHeld(s: seq<byte>, w: nat, h: nat, ylen: nat, vulen: nat)
    requires |s| >= 24 && w == WordAt(s, 4) && h == WordAt(s, 8) && ylen == WordAt(s, 12) && vulen == WordAt(s, 16)
    requires HeaderAccepted(WordAt(s, 0), w, h, ylen, vulen) && 24 + (ylen + vulen) <= |s|
    ensures ParseFrames(s) == [Frame(w, h, s[24..24 + ylen], s[24 + ylen..24 + (ylen + vulen)])]
                              + ParseFrames(s[24 + (ylen + vulen)..])
  {
  }

  lemma {:induction false} FrameTaken(s: seq<byte>, w: nat, h: nat, ylen: nat, vulen: nat)
    requires |s| >= 24 && w == WordAt(s, 4) && h == WordAt(s, 8) && ylen == WordAt(s, 12) && vulen == WordAt(s, 16)
    ensures ParseFrames(s) != [] <==> HeaderAccepted(WordAt(s, 0), w, h, ylen, vulen) && 24 + (ylen + vulen) <= |s|
    ensures ParseFrames(s) != [] ==>
              ParseFrames(s) == [Frame(w, h, s[24..24 + ylen], s[24 + ylen..24 + (ylen + vulen)])]
                                + ParseFrames(s[24 + (ylen + vulen)..])
  {
    if HeaderAccepted(WordAt(s, 0), w, h, ylen, vulen) && 24 + (ylen + vulen) <= |s| {
      FrameHeld(s, w, h, ylen, vulen);
    } else {
      FrameRefused(s);
    }
  }

  /** Exactly when the client takes another frame, and what it then holds; the next one starts right
      after it. */
  lemma FrameTakenExactly(s: seq<byte>, w: nat, h: nat, ylen: nat, vulen: nat)
    requires |s| >= 24 ==> w == FromLE(s[4..8]) && h == FromLE(s[8..12])
    requires |s| >= 24 ==> ylen == FromLE(s[12..16]) && vulen == FromLE(s[16..20])
    ensures ParseFrames(s) != [] <==>
            && |s| >= 24 && s[0..4] == [0x32, 0x46, 0x52, 0x47] && 1 <= w <= 4096 && 1 <= h <= 2304
            && ylen == w * h && 2 * vulen <= ylen <= 2 * vulen + 1 && 24 + (ylen + vulen) <= |s|
    ensures ParseFrames(s) != [] ==>
              && 24 + (ylen + vulen) <= |s|
              && ParseFrames(s) == [Frame(w, h, s[24..24 + ylen], s[24 + ylen..24 + (ylen + vulen)])]
                                   + ParseFrames(s[24 + (ylen + vulen)..])
  {
    if |s| >= 24 {
      Marks(s);
      FrameTaken(s, w, h, ylen, vulen);
      HeaderAcceptedExactly(WordAt(s, 0), w, h, ylen, vulen);
    }
  }

  lemma EmittedBounds(f: Frame)
    requires Emitted(f)
    ensures f.w * f.h <= 4096 * 2304
    ensures HeaderAccepted(OUTPUT_NV21, f.w, f.h, f.w * f.h, f.w * f.h / 2)
  {
    MulMono(f.w, 4096, f.h);
  }

  lemma HeaderLayout(w: nat, h: nat, ylen: nat, vulen: nat, rest: seq<byte>)
    requires w < LIMIT32 && h < LIMIT32 && ylen < LIMIT32 && vulen < LIMIT32
    ensures var s := HeaderBytes(w, h, ylen, vulen) + rest;
            && WordAt(s, 0) == OUTPUT_NV21 && WordAt(s, 4) == w && WordAt(s, 8) == h
            && WordAt(s, 12) == ylen && WordAt(s, 16) == vulen && s[24..] == rest
  {
    Word32(OUTPUT_NV21);
    Word32(w);
    Word32(h);
    Word32(ylen);
    Word32(vulen);
    SixWords(Word(OUTPUT_NV21), Word(w), Word(h), Word(ylen), Word(vulen), Word(w), rest);
  }

  lemma SixWords(a: seq<byte>, b: seq<byte>, c: seq<byte>, d: seq<byte>, e: seq<byte>, f: seq<byte>, rest: seq<byte>)
    requires |a| == 4 && |b| == 4 && |c| == 4 && |d| == 4 && |e| == 4 && |f| == 4
    ensures var s := a + b + c + d + e + f + rest;
            && s[0..4] == a && s[4..8] == b && s[8..12] == c && s[12..16] == d && s[16..20] == e && s[24..] == rest
  {
  }

  lemma HeaderAndPlanes(head: seq<byte>, y: seq<byte>, vu: seq<byte>, rest: seq<byte>)
    requires |head| == 24
    ensures var s, n := head + y + vu + rest, |y| + |vu|;
            && s == head + (y + vu + rest)
            && s[24..24 + |y|] == y && s[24 + |y|..24 + n] == vu && s[24 + n..] == rest
  {
    var s, t := head + y + vu + rest, y + vu + rest;
    assert s == head + t && s[24..] == t;
    assert t[..|y|] == y && t[|y|..|y| + |vu|] == vu && t[|y| + |vu|..] == rest;
  }

  /** A prefix of a stream that reaches past a word shows the same word. */
  lemma SameWord(head: seq<byte>, all: seq<byte>, at: nat)
    requires head <= all && at + 4 <= |head|
    ensures WordAt(head, at) == WordAt(all, at)
  {
    assert head[at..at + 4] == all[at..at + 4];
  }

  lemma FrameLayout(f: Frame, rest: seq<byte>)
    requires Emitted(f)
    ensures var s, n := EncodeFrame(f) + rest, |f.y| + |f.vu|;
            && WordAt(s, 0) == OUTPUT_NV21 && WordAt(s, 4) == f.w && WordAt(s, 8) == f.h
            && WordAt(s, 12) == |f.y| && WordAt(s, 16) == |f.vu|
            && s[24..24 + |f.y|] == f.y && s[24 + |f.y|..24 + n] == f.vu && s[24 + n..] == rest
  {
    EmittedBounds(f);
    HeaderLayout(f.w, f.h, |f.y|, |f.vu|, f.y + f.vu + rest);
    HeaderAndPlanes(HeaderBytes(f.w, f.h, |f.y|, |f.vu|), f.y, f.vu, rest);
  }

  lemma ParseOneFrame(f: Frame, rest: seq<byte>)
    requires Emitted(f)
    ensures ParseFrames(EncodeFrame(f) + rest) == [f] + ParseFrames(rest)
  {
    FrameLayout(f, rest);
    EmittedBounds(f);
  }

  lemma ParseCutFrame(f: Frame, k: nat)
    requires Emitted(f) && k < |EncodeFrame(f)|
    ensures ParseFrames(EncodeFrame(f)[..k]) == []
  {
    if k >= 24 {
      FrameLayout(f, []);
      var s, cut := EncodeFrame(f) + [], EncodeFrame(f)[..k];
      SameWord(cut, s, 12);
      SameWord(cut, s, 16);
    }
  }

  lemma FramesUndone()
    ensures Undoes(EncodeFrame, ParseFrames, Emitted, Emitted)
  {
    forall f: Frame, rest: seq<byte> | Emitted(f)
      ensures ParseFrames(EncodeFrame(f) + rest) == [f] + ParseFrames(rest)
    {
      ParseOneFrame(f, rest);
    }
    forall f: Frame, k: nat | Emitted(f) && k < |EncodeFrame(f)| ensures ParseFrames(EncodeFrame(f)[..k]) == [] {
      ParseCutFrame(f, k);
    }
  }

  /** The client parses back every frame that arrived in full, in order, and nothing else. */
  lemma ClientRecovers(fs: seq<Frame>, k: nat) returns (n: nat)
    requires (forall f :: f in fs ==> Emitted(f)) && k <= |EncodeFrames(fs)|
    ensures CompleteWithin(EncodeFrame, fs, k, n) && ParseFrames(EncodeFrames(fs)[..k]) == fs[..n]
  {
    FramesUndone();
    n := CutRecovers(EncodeFrame, ParseFrames, Emitted, Emitted, fs, k);
    LeadingAll(Emitted, fs[..n]);
  }
}
