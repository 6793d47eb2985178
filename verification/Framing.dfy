/** Streams of self-delimiting items, for any item encoding and any parser that undoes it. */
module Framing {
  import opened Bytes
  import opened Seqs

  function EncodeAll<T>(enc: T -> seq<byte>, items: seq<T>): seq<byte> {
    if items == [] then [] else enc(items[0]) + EncodeAll(enc, items[1..])
  }

  /** Exactly `n` encoded items end within the first `k` bytes. */
  ghost predicate CompleteWithin<T>(enc: T -> seq<byte>, items: seq<T>, k: nat, n: nat) {
    && n <= |items| && |EncodeAll(enc, items[..n])| <= k
    && (n < |items| ==> k < |EncodeAll(enc, items[..n + 1])|)
  }

  /** The items before the first one that is not good. */
  function Leading<T>(good: T -> bool, items: seq<T>): seq<T> {
    if items == [] || !good(items[0]) then [] else [items[0]] + Leading(good, items[1..])
  }

  lemma {:induction false} LeadingAll<T>(good: T -> bool, items: seq<T>)
    ensures Leading(good, items) == items <==> forall x :: x in items ==> good(x)
  {
    if items != [] {
      LeadingAll(good, items[1..]);
      assert items == [items[0]] + items[1..];
    }
  }

  lemma LeadingCons<T>(good: T -> bool, items: seq<T>, m: nat)
    requires m < |items|
    ensures Leading(good, items[..m + 1]) == if good(items[0]) then [items[0]] + Leading(good, items[1..][..m]) else []
  {
    assert items[..m + 1][1..] == items[1..][..m];
  }

  /** The parser takes an encoded good item off the front of a stream, gives up at any other item that
      can be sent, and finds nothing in a cut one. */
  ghost predicate Undoes<T(!new)>(enc: T -> seq<byte>, parse: seq<byte> -> seq<T>,
                                  sendable: T -> bool, good: T -> bool)
  {
    && parse([]) == []
    && (forall x: T, rest: seq<byte> :: sendable(x) ==>
          parse(enc(x) + rest) == if good(x) then [x] + parse(rest) else [])
    && (forall x: T, k: nat :: sendable(x) && k < |enc(x)| ==> parse(enc(x)[..k]) == [])
  }

  lemma PrefixEncodes<T>(enc: T -> seq<byte>, items: seq<T>, m: nat)
    requires items != [] && m < |items|
    ensures EncodeAll(enc, items[..m + 1]) == enc(items[0]) + EncodeAll(enc, items[1..][..m])
  {
    assert items[..m + 1][1..] == items[1..][..m];
  }

  lemma CompleteCons<T>(enc: T -> seq<byte>, items: seq<T>, k: nat, m: nat)
    requires items != [] && |enc(items[0])| <= k && CompleteWithin(enc, items[1..], k - |enc(items[0])|, m)
    ensures CompleteWithin(enc, items, k, m + 1)
  {
    PrefixEncodes(enc, items, m);
    if m + 1 < |items| { PrefixEncodes(enc, items, m + 1); }
  }

  /** The first item, complete, in front of a stream that yields the good ones among the next `m`. */
  lemma ParseFirst<T(!new)>(enc: T -> seq<byte>, parse: seq<byte> -> seq<T>, sendable: T -> bool, good: T -> bool,
                            items: seq<T>, rest: seq<byte>, m: nat)
    requires Undoes(enc, parse, sendable, good) && m < |items| && sendable(items[0])
    requires parse(rest) == Leading(good, items[1..][..m])
    ensures parse(enc(items[0]) + rest) == Leading(good, items[..m + 1])
  {
    LeadingCons(good, items, m);
  }

  lemma ParseCut<T(!new)>(enc: T -> seq<byte>, parse: seq<byte> -> seq<T>, sendable: T -> bool, good: T -> bool,
                          x: T, k: nat)
    requires Undoes(enc, parse, sendable, good) && sendable(x) && k < |enc(x)|
    ensures parse(enc(x)[..k]) == []
  {
  }

  /** A stream cut after `k` bytes yields exactly the items that are complete within it, up to the first
      one that is not good. */
  lemma {:induction false} CutRecovers<T(!new)>(enc: T -> seq<byte>, parse: seq<byte> -> seq<T>,
                                                sendable: T -> bool, good: T -> bool, items: seq<T>, k: nat)
    returns (n: nat)
    requires Undoes(enc, parse, sendable, good)
    requires (forall x :: x in items ==> sendable(x)) && k <= |EncodeAll(enc, items)|
    ensures CompleteWithin(enc, items, k, n) && parse(EncodeAll(enc, items)[..k]) == Leading(good, items[..n])
    decreases |items|
  {
    n := 0;
    if items != [] {
      var x, tail := items[0], EncodeAll(enc, items[1..]);
      CutConcat(enc(x), tail, k);
      if k < |enc(x)| {
        ParseCut(enc, parse, sendable, good, x, k);
        PrefixEncodes(enc, items, 0);
      } else {
        var m := CutRecovers(enc, parse, sendable, good, items[1..], k - |enc(x)|);
        n := m + 1;
        CompleteCons(enc, items, k, m);
        ParseFirst(enc, parse, sendable, good, items, tail[..k - |enc(x)|], m);
      }
    }
  }

  lemma {:induction false} EncodeAppend<T>(enc: T -> seq<byte>, items: seq<T>, x: T)
    ensures EncodeAll(enc, items + [x]) == EncodeAll(enc, items) + enc(x)
  {
    if items == [] {
      assert [x][1..] == [] && [] + [x] == [x];
    } else {
      EncodeAppend(enc, items[1..], x);
      assert (items + [x])[1..] == items[1..] + [x];
      Regroup(enc(items[0]), EncodeAll(enc, items[1..]), enc(x));
    }
  }
}
