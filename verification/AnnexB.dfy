/** Access units: from length-prefixed NAL units to the byte stream format of section B.2 of
    ITU-T H.265, and the daemon's scan for NAL unit types in such a stream. */
module AnnexB {
  import opened Bytes
  import opened Options

  type Nal = seq<byte>

  const START_CODE: seq<byte> := [0, 0, 0, 1]
  const MAX_LISTED := 20

  /** Each unit behind its length, a big-endian 32-bit number. */
  function LengthPrefixed(nals: seq<Nal>): seq<byte> {
    if nals == [] then [] else ToBE(|nals[0]|, 4) + nals[0] + LengthPrefixed(nals[1..])
  }

  /** Each unit behind a start code. */
  function ByteStream(nals: seq<Nal>): seq<byte> {
    if nals == [] then [] else START_CODE + nals[0] + ByteStream(nals[1..])
  }

  // ----- the rewrite

  /** Replaces every length by a start code; `None` if a length runs past the end of the data. */
  function Rewritten(raw: seq<byte>): Option<seq<byte>>
    decreases |raw|
  {
    if |raw| < 4 then Some([])
    else
      var n := FromBE(raw[..4]);
      if 4 + n > |raw| then None
      else
        var rest := Rewritten(raw[4 + n..]);
        if rest.None? then None else Some(START_CODE + raw[4..4 + n] + rest.value)
  }

  function Prefixed(au: seq<byte>, rest: Option<seq<byte>>): Option<seq<byte>> {
    if rest.None? then None else Some(au + rest.value)
  }

  lemma PrefixedNothing(rest: Option<seq<byte>>)
    ensures Prefixed([], rest) == rest
  {
    if rest.Some? { assert [] + rest.value == rest.value; }
  }

  /** One round of the loop. */
  lemma RewriteRound(raw: seq<byte>, off: nat, n: nat, au: seq<byte>)
    requires off + 4 + n <= |raw| && n == FromBE(raw[off..off + 4])
    ensures Prefixed(au, Rewritten(raw[off..])) ==
            Prefixed(au + START_CODE + raw[off + 4..off + 4 + n], Rewritten(raw[off + 4 + n..]))
  {
    var here, unit := raw[off..], raw[off + 4..off + 4 + n];
    assert here[..4] == raw[off..off + 4] && here[4..4 + n] == unit && here[4 + n..] == raw[off + 4 + n..];
    var tail := Rewritten(raw[off + 4 + n..]);
    if tail.Some? { assert au + (START_CODE + unit + tail.value) == au + START_CODE + unit + tail.value; }
  }

  method Rewrite(raw: seq<byte>) returns (r: Option<seq<byte>>)
    ensures r == Rewritten(raw)
  {
    var au: seq<byte>, off: nat := [], 0;
    assert raw[0..] == raw;
    PrefixedNothing(Rewritten(raw));
    while off + 4 <= |raw|
      invariant off <= |raw| && Rewritten(raw) == Prefixed(au, Rewritten(raw[off..]))
      decreases |raw| - off
    {
      var n := FromBE(raw[off..off + 4]);
      assert raw[off..][..4] == raw[off..off + 4];
      if off + 4 + n > |raw| { return None; }
      RewriteRound(raw, off, n, au);
      au := au + START_CODE + raw[off + 4..off + 4 + n];
      off := off + 4 + n;
    }
    assert au + [] == au;
    r := Some(au);
  }

  /** A unit in a length-prefixed stream: its length, highest byte first, then the unit. */
  lemma PrefixWire(n: Nal, a: byte, b: byte, c: byte, d: byte)
    requires |n| == 0x100_0000 * a + 0x1_0000 * b + 0x100 * c + d
    ensures LengthPrefixed([n]) == [a, b, c, d] + n && ByteStream([n]) == [0, 0, 0, 1] + n
  {
    ByteOrder(a, b, c, d);
    BytesOfBE(a, b, c, d);
    assert [n][1..] == [];
    assert LengthPrefixed([n]) == ToBE(|n|, 4) + n + [];
    assert ByteStream([n]) == START_CODE + n + [];
  }

  /** On well-formed input the rewrite yields the byte stream of the same units. */
  lemma {:induction false} RewriteWellFormed(nals: seq<Nal>)
    requires forall n :: n in nals ==> |n| < 0x1_0000_0000
    ensures Rewritten(LengthPrefixed(nals)) == Some(ByteStream(nals))
  {
    if nals != [] {
      var n, tail := nals[0], LengthPrefixed(nals[1..]);
      assert n in nals;
      RewriteWellFormed(nals[1..]);
      Word32(|n|);
      var raw := ToBE(|n|, 4) + n + tail;
      assert raw[..4] == ToBE(|n|, 4) && raw[4..4 + |n|] == n && raw[4 + |n|..] == tail;
    }
  }

  /** Whatever the input, an accepted rewrite keeps its length, up to the fewer than four stray
      bytes that may follow the last unit. */
  lemma {:induction false} RewriteKeepsLength(raw: seq<byte>)
    ensures Rewritten(raw).Some? ==> |Rewritten(raw).value| <= |raw| < |Rewritten(raw).value| + 4
    decreases |raw|
  {
    if |raw| >= 4 {
      var n := FromBE(raw[..4]);
      if 4 + n <= |raw| { RewriteKeepsLength(raw[4 + n..]); }
    }
  }

  lemma {:induction false} SameTotalLength(nals: seq<Nal>)
    ensures |ByteStream(nals)| == |LengthPrefixed(nals)|
  {
    if nals != [] { SameTotalLength(nals[1..]); }
  }

  // ----- the scan

  /** Bits 1 to 6 of the first header byte: `(b >> 1) & 63`. */
  function NalType(b: byte): nat { b / 2 % 64 }

  /** The six bits after the first: the forbidden bit `f` and the lowest bit are not part of the type. */
  lemma NalTypeBits(f: nat, t: nat, low: nat)
    requires f < 2 && t < 64 && low < 2
    ensures NalType(128 * f + 2 * t + low) == t
  {
    var b: byte := 128 * f + 2 * t + low;
    assert b / 2 == 64 * f + t;
  }

  predicate StartsAt(s: seq<byte>, i: nat)
    requires i + 2 < |s|
  {
    s[i] == 0 && s[i + 1] == 0 && s[i + 2] == 1
  }

  /** The types listed from a stream when `count` have been listed already. */
  function Listed(s: seq<byte>, count: nat): seq<nat>
    decreases |s|
  {
    if |s| <= 5 || count >= MAX_LISTED then []
    else if StartsAt(s, 0) then [NalType(s[3])] + Listed(s[4..], count + 1)
    else Listed(s[1..], count)
  }

  method LogHevcNals(data: seq<byte>) returns (types: seq<nat>)
    ensures types == Listed(data, 0)
  {
    types := [];
    var i: nat, count := 0, 0;
    assert data[0..] == data;
    while i + 5 < |data| && count < MAX_LISTED
      invariant i <= |data| && count == |types| && types + Listed(data[i..], count) == Listed(data, 0)
      decreases |data| - i
    {
      ghost var here := data[i..];
      assert here[1..] == data[i + 1..] && here[4..] == data[i + 4..];
      if data[i] != 0 || data[i + 1] != 0 || data[i + 2] != 1 {
        i := i + 1;
        continue;
      }
      ghost var t := [NalType(data[i + 3])];
      assert types + (t + Listed(data[i + 4..], count + 1)) == types + t + Listed(data[i + 4..], count + 1);
      types := types + [NalType(data[i + 3])];
      count := count + 1;
      i := i + 4;
    }
  }

  /** The unit does not contain a start code, as the standard requires of NAL units. */
  predicate NoStartCode(n: Nal) {
    forall i :: 0 <= i < |n| - 2 ==> !StartsAt(n, i)
  }

  predicate WellFormed(nals: seq<Nal>) {
    nals == [] || (nals[0] != [] && NoStartCode(nals[0]) && WellFormed(nals[1..]))
  }

  /** The types of the units, without a last unit of fewer than three bytes, which is too close to the
      end of the data for the scan. */
  function Visible(nals: seq<Nal>): seq<nat>
    requires WellFormed(nals)
  {
    if nals == [] || (|nals| == 1 && |nals[0]| < 3) then []
    else [NalType(nals[0][0])] + Visible(nals[1..])
  }

  /** The types of all units. */
  function Types(nals: seq<Nal>): seq<nat>
    requires WellFormed(nals)
  {
    if nals == [] then [] else [NalType(nals[0][0])] + Types(nals[1..])
  }

  /** The last unit has fewer than the three bytes that the scan wants to see after a start code. */
  predicate ShortLast(nals: seq<Nal>) { nals != [] && |nals[|nals| - 1]| < 3 }

  function Take(s: seq<nat>, n: nat): seq<nat> { if |s| <= n then s else s[..n] }

  /** No match inside the rest of a unit, nor across its end into the next start code. */
  lemma {:induction false} BodySkipped(t: seq<byte>, nals: seq<Nal>, count: nat)
    requires NoStartCode(t)
    ensures Listed(t + ByteStream(nals), count) == Listed(ByteStream(nals), count)
    decreases |t|
  {
    var next := ByteStream(nals);
    if t == [] {
      assert t + next == next;
    } else {
      var s := t + next;
      assert NoStartCode(t[1..]) by {
        forall i | 0 <= i < |t[1..]| - 2 ensures !StartsAt(t[1..], i) { assert !StartsAt(t, i + 1); }
      }
      BodySkipped(t[1..], nals, count);
      if |s| > 5 {
        assert !StartsAt(s, 0) by { if |t| >= 3 { assert !StartsAt(t, 0); } }
        assert s[1..] == t[1..] + next;
      }
    }
  }

  /** The scan lists the types of the first twenty units, in order and with no false match, except
      that a last unit of one or two bytes goes unseen. */
  lemma {:induction false} ScanListsTypes(nals: seq<Nal>, count: nat)
    requires WellFormed(nals) && count <= MAX_LISTED
    ensures Listed(ByteStream(nals), count) == Take(Visible(nals), MAX_LISTED - count)
  {
    if nals != [] && count < MAX_LISTED {
      var n, rest := nals[0], ByteStream(nals[1..]);
      var s := START_CODE + n + rest;
      if |nals| == 1 && |n| < 3 {
        assert |s[1..]| <= 5;
      } else {
        assert |rest| == 0 || |rest| >= 5;
        assert !StartsAt(s, 0);
        var s1 := s[1..];
        assert StartsAt(s1, 0) && s1[3] == n[0] && s1[4..] == n[1..] + rest;
        assert Listed(s, count) == [NalType(n[0])] + Listed(n[1..] + rest, count + 1);
        assert NoStartCode(n[1..]) by {
          forall i | 0 <= i < |n[1..]| - 2 ensures !StartsAt(n[1..], i) { assert !StartsAt(n, i + 1); }
        }
        BodySkipped(n[1..], nals[1..], count + 1);
        ScanListsTypes(nals[1..], count + 1);
      }
    }
  }

  /** What the scan can list is everything, or everything but a short last unit. */
  lemma {:induction false} VisibleTypes(nals: seq<Nal>)
    requires WellFormed(nals)
    ensures |Types(nals)| == |nals|
    ensures Visible(nals) == if ShortLast(nals) then Types(nals)[..|nals| - 1] else Types(nals)
  {
    if nals != [] {
      VisibleTypes(nals[1..]);
      var t := [NalType(nals[0][0])];
      if |nals| > 1 {
        assert nals[1..][|nals| - 2] == nals[|nals| - 1];
        assert (t + Types(nals[1..]))[..|nals| - 1] == t + Types(nals[1..])[..|nals| - 2];
      }
    }
  }

  /** Exactly when the scan does what it is for. It lists the types of the first twenty units unless
      the last unit is too short and among those twenty; it lists the types of all units if and only
      if there are at most twenty and the last one is long enough. */
  lemma ListsTypesExactly(nals: seq<Nal>)
    requires WellFormed(nals)
    ensures Listed(ByteStream(nals), 0) == Take(Types(nals), 20) <==> !ShortLast(nals) || |nals| > 20
    ensures Listed(ByteStream(nals), 0) == Types(nals) <==> !ShortLast(nals) && |nals| <= 20
  {
    ScanListsTypes(nals, 0);
    VisibleTypes(nals);
  }

  /** A single unit of two bytes is not listed at all. */
  lemma ShortUnitMissed()
    ensures WellFormed([[74, 1]]) && NalType(74) == 37 && Listed(ByteStream([[74, 1]]), 0) == []
  {
    var nals: seq<Nal> := [[74, 1]];
    assert nals[1..] == [] && WellFormed(nals);
    ScanListsTypes(nals, 0);
  }

  /** From the recorded file to the daemon's log: what is listed for a rewritten access unit, and
      exactly when that is the types of its first twenty units. */
  lemma RecordedUnitsAreListed(nals: seq<Nal>)
    requires WellFormed(nals) && forall n :: n in nals ==> |n| < 0x1_0000_0000
    ensures Rewritten(LengthPrefixed(nals)).Some?
    ensures var types := Listed(Rewritten(LengthPrefixed(nals)).value, 0);
            && types == Take(Visible(nals), MAX_LISTED)
            && (types == Take(Types(nals), MAX_LISTED) <==> !ShortLast(nals) || |nals| > MAX_LISTED)
  {
    RewriteWellFormed(nals);
    ScanListsTypes(nals, 0);
    ListsTypesExactly(nals);
  }
}
