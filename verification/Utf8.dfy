/** UTF-8 as a buffer is filled from a string: a surrogate without its partner is written as U+FFFD. */
module Utf8 {
  import opened Units

  type Byte = b: int | 0 <= b < 256

  type Bytes = seq<Byte>

  /** A code point outside the surrogate range. */
  type Scalar = c: int | 0 <= c < 0xD800 || 0xE000 <= c < 0x110000

  const REPLACEMENT: Scalar := 0xFFFD

  /** Whether a text starts with a whole surrogate pair. */
  predicate PairFirst(text: Text) {
    |text| > 1 && IsLead(text[0]) && IsTrail(text[1])
  }

  function PairScalar(lead: Unit, trail: Unit): Scalar
    requires IsLead(lead) && IsTrail(trail)
  {
    0x10000 + (lead - 0xD800) * 0x400 + (trail - 0xDC00)
  }

  /** The code points of a text, each lone surrogate replaced. */
  function Scalars(text: Text): seq<Scalar> {
    if text == [] then []
    else if PairFirst(text) then [PairScalar(text[0], text[1])] + Scalars(text[2..])
    else if IsLead(text[0]) || IsTrail(text[0]) then [REPLACEMENT] + Scalars(text[1..])
    else [text[0]] + Scalars(text[1..])
  }

  /** A code point beyond the first plane is written as the pair of its upper and lower ten bits, and read back from it. */
  lemma PairInFull(c: int)
    requires 0x10000 <= c <= 0x10FFFF
    ensures Scalars([0xD800 + (c - 0x10000) / 0x400, 0xDC00 + (c - 0x10000) % 0x400]) == [c]
  {
    var lead: Unit, trail: Unit := 0xD800 + (c - 0x10000) / 0x400, 0xDC00 + (c - 0x10000) % 0x400;
    assert PairScalar(lead, trail) == c;
    assert [lead, trail][2..] == [] && Scalars([]) == [];
  }

  /** No surrogate stands alone. */
  predicate WellFormed(text: Text) {
    text == []
    || if PairFirst(text) then WellFormed(text[2..]) else !IsLead(text[0]) && !IsTrail(text[0]) && WellFormed(text[1..])
  }

  function EncodeScalar(c: Scalar): (bytes: Bytes)
    ensures 1 <= |bytes| <= 4
  {
    if c < 0x80 then [c]
    else if c < 0x800 then [0xC0 + c / 0x40, 0x80 + c % 0x40]
    else if c < 0x10000 then [0xE0 + c / 0x1000, 0x80 + c / 0x40 % 0x40, 0x80 + c % 0x40]
    else [0xF0 + c / 0x40000, 0x80 + c / 0x1000 % 0x40, 0x80 + c / 0x40 % 0x40, 0x80 + c % 0x40]
  }

  function EncodeAll(scalars: seq<Scalar>): Bytes {
    if scalars == [] then [] else EncodeScalar(scalars[0]) + EncodeAll(scalars[1..])
  }

  function Encode(text: Text): Bytes {
    EncodeAll(Scalars(text))
  }

  // ----- decoding

  /** The number of bytes that a first byte announces. */
  function Width(first: Byte): nat {
    if first < 0x80 then 1 else if first < 0xE0 then 2 else if first < 0xF0 then 3 else 4
  }

  /** The code point that the bytes of one scalar stand for. */
  function Joined(bytes: seq<int>): int
    requires bytes != []
  {
    if |bytes| == 1 then bytes[0]
    else if |bytes| == 2 then (bytes[0] - 0xC0) * 0x40 + (bytes[1] - 0x80)
    else if |bytes| == 3 then (bytes[0] - 0xE0) * 0x1000 + (bytes[1] - 0x80) * 0x40 + (bytes[2] - 0x80)
    else if |bytes| == 4 then
      (bytes[0] - 0xF0) * 0x40000 + (bytes[1] - 0x80) * 0x1000 + (bytes[2] - 0x80) * 0x40 + (bytes[3] - 0x80)
    else 0
  }

  lemma SixBits(c: nat)
    ensures c == c / 0x40 * 0x40 + c % 0x40
    ensures c / 0x1000 == c / 0x40 / 0x40 && c / 0x40000 == c / 0x40 / 0x40 / 0x40
  {
  }

  /** The bytes of a scalar announce their own number and give the scalar back. */
  lemma ScalarRoundTrip(c: Scalar)
    ensures |EncodeScalar(c)| == Width(EncodeScalar(c)[0]) && Joined(EncodeScalar(c)) == c
  {
    var low, middle, high := c / 0x40, c / 0x1000, c / 0x40000;
    SixBits(c);
    SixBits(low);
    SixBits(middle);
    assert c == low * 0x40 + c % 0x40 && low == middle * 0x40 + low % 0x40 && middle == high * 0x40 + middle % 0x40;
  }

  lemma ScalarIsPrefixFree(c: Scalar, d: Scalar, restC: Bytes, restD: Bytes)
    requires EncodeScalar(c) + restC == EncodeScalar(d) + restD
    ensures c == d && restC == restD
  {
    hide EncodeScalar, Joined;
    var bc, bd := EncodeScalar(c), EncodeScalar(d);
    ScalarRoundTrip(c);
    ScalarRoundTrip(d);
    assert (bc + restC)[0] == bc[0] && (bd + restD)[0] == bd[0];
    assert (bc + restC)[..|bc|] == bc && (bd + restD)[..|bd|] == bd;
    assert (bc + restC)[|bc|..] == restC && (bd + restD)[|bd|..] == restD;
  }

  lemma {:induction false} AllDecodable(a: seq<Scalar>, b: seq<Scalar>)
    requires EncodeAll(a) == EncodeAll(b)
    ensures a == b
  {
    if a != [] && b != [] {
      ScalarIsPrefixFree(a[0], b[0], EncodeAll(a[1..]), EncodeAll(b[1..]));
      AllDecodable(a[1..], b[1..]);
      assert a == [a[0]] + a[1..] && b == [b[0]] + b[1..];
    }
  }

  /** Two texts encode alike exactly when they have the same code points, lone surrogates replaced. */
  lemma EncodesAlike(a: Text, b: Text)
    ensures Encode(a) == Encode(b) <==> Scalars(a) == Scalars(b)
  {
    if Encode(a) == Encode(b) {
      AllDecodable(Scalars(a), Scalars(b));
    }
  }

  lemma {:induction false} PlainText(text: Text)
    requires forall i :: 0 <= i < |text| ==> text[i] < 0x80
    ensures Encode(text) == text
  {
    if text != [] {
      PlainText(text[1..]);
      assert text == [text[0]] + text[1..];
    }
  }

  lemma PairIsApart(a: Unit, b: Unit, c: Unit, d: Unit)
    requires IsLead(a) && IsTrail(b) && IsLead(c) && IsTrail(d) && PairScalar(a, b) == PairScalar(c, d)
    ensures a == c && b == d
  {
  }

  /** A text without lone surrogates is given by its code points. */
  lemma {:induction false} WellFormedIsGivenByScalars(a: Text, b: Text)
    requires WellFormed(a) && WellFormed(b) && Scalars(a) == Scalars(b)
    ensures a == b
    decreases |a|
  {
    if a != [] && b != [] {
      var sa, sb := Scalars(a), Scalars(b);
      assert PairFirst(a) <==> sa[0] >= 0x10000;
      assert PairFirst(b) <==> sb[0] >= 0x10000;
      if PairFirst(a) {
        PairIsApart(a[0], a[1], b[0], b[1]);
        assert sa[1..] == Scalars(a[2..]) && sb[1..] == Scalars(b[2..]);
        WellFormedIsGivenByScalars(a[2..], b[2..]);
        assert a == [a[0], a[1]] + a[2..] && b == [b[0], b[1]] + b[2..];
      } else {
        assert sa[1..] == Scalars(a[1..]) && sb[1..] == Scalars(b[1..]);
        WellFormedIsGivenByScalars(a[1..], b[1..]);
        assert a == [a[0]] + a[1..] && b == [b[0]] + b[1..];
      }
    }
  }

  // ----- where a NUL comes from

  /** Text or bytes that end at their only NUL. */
  predicate NulTerminated(s: seq<int>) {
    s != [] && s[|s| - 1] == 0 && forall i :: 0 <= i < |s| - 1 ==> s[i] != 0
  }

  lemma ScalarNul(c: Scalar)
    ensures 0 in EncodeScalar(c) <==> c == 0
    ensures EncodeScalar(0) == [0]
  {
  }

  lemma NulTerminatedTail(head: seq<int>, tail: seq<int>)
    requires head != [] && 0 !in head
    ensures NulTerminated(head + tail) <==> NulTerminated(tail)
  {
    var all := head + tail;
    assert forall i :: 0 <= i < |head| ==> all[i] in head;
    assert forall i :: 0 <= i < |tail| ==> tail[i] == all[|head| + i];
    assert forall i :: |head| <= i < |all| ==> all[i] == tail[i - |head|];
    if NulTerminated(all) {
      assert tail != [] by { assert all[|all| - 1] !in head; }
    }
  }

  lemma NulTerminatedHead(s: seq<int>)
    requires s != [] && s[0] == 0
    ensures NulTerminated(s) <==> |s| == 1
  {
  }

  /** A text ends at its only NUL exactly when its bytes do. */
  lemma {:induction false} NulTerminatedAlike(text: Text)
    ensures NulTerminated(Encode(text)) <==> NulTerminated(text)
    decreases |text|
  {
    if text != [] {
      var c := Scalars(text)[0];
      var n := if PairFirst(text) then 2 else 1;
      var rest := text[n..];
      assert Scalars(text) == [c] + Scalars(rest);
      assert Encode(text) == EncodeScalar(c) + Encode(rest);
      assert text == text[..n] + rest;
      ScalarNul(c);
      hide EncodeScalar, EncodeAll;
      if c == 0 {
        NulTerminatedHead(text);
        NulTerminatedHead(Encode(text));
        NothingEncoded(rest);
      } else {
        NulTerminatedAlike(rest);
        NulTerminatedTail(EncodeScalar(c), Encode(rest));
        NulTerminatedTail(text[..n], rest);
      }
    }
  }

  lemma NothingEncoded(text: Text)
    ensures Encode(text) == [] <==> text == []
  {
  }
}
