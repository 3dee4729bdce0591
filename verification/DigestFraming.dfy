/** The bytes that a profile digest is taken over: a domain, a count, and length-prefixed members. */
module DigestFraming {
  import opened Units
  import opened Utf8
  import opened Wrappers

  datatype Member = Member(path: Text, bytes: Bytes)

  const LIMIT := 0x1_0000_0000

  /** Four bytes, highest first; a value outside 32 bits throws. */
  function Uint32be(value: nat): (r: Option<Bytes>)
    ensures r.Some? <==> value < 0x1_0000_0000
    ensures r.Some? ==> |r.value| == 4
  {
    if value < LIMIT then
      Some([value / 0x100_0000, value / 0x1_0000 % 0x100, value / 0x100 % 0x100, value % 0x100])
    else None
  }

  function ReadUint32be(bytes: Bytes): nat
    requires |bytes| == 4
  {
    var a: nat, b: nat, c: nat, d: nat := bytes[0], bytes[1], bytes[2], bytes[3];
    a * 0x100_0000 + b * 0x1_0000 + c * 0x100 + d
  }

  lemma Uint32RoundTrip(value: nat)
    requires value < LIMIT
    ensures ReadUint32be(Uint32be(value).value) == value
  {
    var high, middle, low := value / 0x100_0000, value / 0x1_0000, value / 0x100;
    assert middle / 0x100 == high && low / 0x100 == middle;
    assert middle == 0x100 * high + middle % 0x100 && low == 0x100 * middle + low % 0x100;
    assert Uint32be(value).value == [high, middle % 0x100, low % 0x100, value % 0x100];
    assert value == 0x100 * low + value % 0x100;
  }

  /** A presence byte, the length and the UTF-8 bytes of the text. */
  function NonNullString(text: Text): (r: Option<Bytes>)
    ensures r.Some? <==> |Encode(text)| < LIMIT
  {
    var bytes := Encode(text);
    var length := Uint32be(|bytes|);
    if length.Some? then Some([1] + length.value + bytes) else None
  }

  function MemberBytes(m: Member): (r: Option<Bytes>)
    ensures r.Some? <==> |Encode(m.path)| < LIMIT && |m.bytes| < LIMIT
  {
    var path, length := NonNullString(m.path), Uint32be(|m.bytes|);
    if path.Some? && length.Some? then Some(path.value + length.value + m.bytes) else None
  }

  ghost predicate Framable(members: seq<Member>) {
    |members| < LIMIT && forall i :: 0 <= i < |members| ==> |Encode(members[i].path)| < LIMIT && |members[i].bytes| < LIMIT
  }

  function MembersBytes(members: seq<Member>): (r: Option<Bytes>)
    ensures r.Some? <==> forall i :: 0 <= i < |members| ==> |Encode(members[i].path)| < LIMIT && |members[i].bytes| < LIMIT
  {
    if members == [] then Some([])
    else
      var before, last := MembersBytes(members[..|members| - 1]), MemberBytes(members[|members| - 1]);
      assert members == members[..|members| - 1] + [members[|members| - 1]];
      if before.Some? && last.Some? then Some(before.value + last.value) else None
  }

  /** Everything that is fed to the hash for one profile; None when a length does not fit 32 bits. */
  function Stream(domain: Text, members: seq<Member>): (r: Option<Bytes>)
    ensures r.Some? <==> Framable(members)
  {
    var count, body := Uint32be(|members|), MembersBytes(members);
    if count.Some? && body.Some? then Some(Encode(domain) + count.value + body.value) else None
  }

  /** Feeds the hash piece by piece; `fed` is all the bytes it has been given. */
  method FeedProfile(domain: Text, members: seq<Member>) returns (fed: Option<Bytes>)
    ensures fed == Stream(domain, members)
  {
    hide Encode, Uint32be;
    var count := Uint32be(|members|);
    if count.None? { return None; }
    var hash := Encode(domain) + count.value;
    var i := 0;
    while i < |members|
      invariant i <= |members|
      invariant MembersBytes(members[..i]).Some? && hash == Encode(domain) + count.value + MembersBytes(members[..i]).value
    {
      assert members[..i + 1][..i] == members[..i];
      var path, length := NonNullString(members[i].path), Uint32be(|members[i].bytes|);
      if path.None? || length.None? { return None; }
      hash := hash + path.value;
      hash := hash + length.value;
      hash := hash + members[i].bytes;
      assert hash == Encode(domain) + count.value + (MembersBytes(members[..i]).value + (path.value + length.value + members[i].bytes));
      i := i + 1;
    }
    assert members[..i] == members;
    fed := Some(hash);
  }

  // ----- unique decoding

  /** The members from the front: the framing of the first and the framing of the rest. */
  lemma {:induction false} FirstMember(members: seq<Member>)
    requires members != [] && MembersBytes(members).Some?
    ensures MemberBytes(members[0]).Some? && MembersBytes(members[1..]).Some?
    ensures MembersBytes(members).value == MemberBytes(members[0]).value + MembersBytes(members[1..]).value
  {
    hide MemberBytes;
    var n := |members| - 1;
    if n > 0 {
      FirstMember(members[..n]);
      assert members[..n][1..] == members[1..][..n - 1];
    } else {
      assert members[..0] == [] && members[1..] == [];
    }
  }

  /** Equal up to what UTF-8 does not tell apart: lone surrogates in paths. */
  ghost predicate SameMember(a: Member, b: Member) {
    Scalars(a.path) == Scalars(b.path) && a.bytes == b.bytes
  }

  ghost predicate SameMembers(a: seq<Member>, b: seq<Member>) {
    |a| == |b| && forall i :: 0 <= i < |a| ==> SameMember(a[i], b[i])
  }

  /** Two framed members with arbitrary bytes behind them agree only when the members do. */
  lemma MemberIsPrefixFree(a: Member, b: Member, restA: Bytes, restB: Bytes)
    requires MemberBytes(a).Some? && MemberBytes(b).Some?
    requires MemberBytes(a).value + restA == MemberBytes(b).value + restB
    ensures SameMember(a, b) && restA == restB
  {
    hide Encode, Uint32be;
    var pathA, pathB := Encode(a.path), Encode(b.path);
    var tailA := Uint32be(|a.bytes|).value + (a.bytes + restA);
    var tailB := Uint32be(|b.bytes|).value + (b.bytes + restB);
    assert MemberBytes(a).value + restA == [1] + (Uint32be(|pathA|).value + (pathA + tailA));
    assert MemberBytes(b).value + restB == [1] + (Uint32be(|pathB|).value + (pathB + tailB));
    Uncons(1, Uint32be(|pathA|).value + (pathA + tailA), Uint32be(|pathB|).value + (pathB + tailB));
    LengthPrefixed(pathA, pathB, tailA, tailB);
    LengthPrefixed(a.bytes, b.bytes, restA, restB);
    EncodesAlike(a.path, b.path);
  }

  lemma Uncons(head: Byte, a: Bytes, b: Bytes)
    requires [head] + a == [head] + b
    ensures a == b
  {
    assert ([head] + a)[1..] == a && ([head] + b)[1..] == b;
  }

  lemma LengthPrefixed(a: Bytes, b: Bytes, restA: Bytes, restB: Bytes)
    requires |a| < LIMIT && |b| < LIMIT
    requires Uint32be(|a|).value + (a + restA) == Uint32be(|b|).value + (b + restB)
    ensures a == b && restA == restB
  {
    hide Uint32be;
    var la, lb := Uint32be(|a|).value, Uint32be(|b|).value;
    assert (la + (a + restA))[..4] == la && (lb + (b + restB))[..4] == lb;
    Uint32RoundTrip(|a|);
    Uint32RoundTrip(|b|);
    assert (la + (a + restA))[4..] == a + restA && (lb + (b + restB))[4..] == b + restB;
    assert (a + restA)[..|a|] == a && (b + restB)[..|b|] == b;
    assert (a + restA)[|a|..] == restA && (b + restB)[|b|..] == restB;
  }

  /** Equally many framed members agree exactly when the lists do. */
  lemma {:induction false} MembersAreDecodable(a: seq<Member>, b: seq<Member>)
    requires |a| == |b| && MembersBytes(a).Some? && MembersBytes(b).Some?
    ensures MembersBytes(a) == MembersBytes(b) <==> SameMembers(a, b)
  {
    hide MemberBytes, MembersBytes, SameMember;
    if a != [] {
      FirstMember(a);
      FirstMember(b);
      MembersAreDecodable(a[1..], b[1..]);
      assert SameMembers(a, b) <==> SameMember(a[0], b[0]) && SameMembers(a[1..], b[1..]) by {
        assert a == [a[0]] + a[1..] && b == [b[0]] + b[1..];
      }
      if MembersBytes(a) == MembersBytes(b) {
        MemberIsPrefixFree(a[0], b[0], MembersBytes(a[1..]).value, MembersBytes(b[1..]).value);
      } else if SameMembers(a, b) {
        FramedAlike(a[0], b[0]);
        assert false;
      }
    } else {
      assert a == b;
    }
  }

  lemma FramedAlike(a: Member, b: Member)
    requires SameMember(a, b)
    ensures MemberBytes(a) == MemberBytes(b)
  {
    EncodesAlike(a.path, b.path);
  }

  /**
   For one domain, equal streams mean equal member lists and the other way round: the same count, bytes,
   and paths up to lone surrogates.
   */
  lemma SameDomainDecodes(domain: Text, a: seq<Member>, b: seq<Member>)
    requires Framable(a) && Framable(b)
    ensures Stream(domain, a) == Stream(domain, b) <==> SameMembers(a, b)
  {
    hide Uint32be, MembersBytes, SameMember, Encode;
    var start := Encode(domain);
    var ca, cb, ba, bb := Uint32be(|a|).value, Uint32be(|b|).value, MembersBytes(a).value, MembersBytes(b).value;
    assert Stream(domain, a).value == start + (ca + ba) && Stream(domain, b).value == start + (cb + bb);
    if Stream(domain, a) == Stream(domain, b) {
      assert (start + (ca + ba))[|start|..] == ca + ba && (start + (cb + bb))[|start|..] == cb + bb;
      assert (ca + ba)[..4] == ca && (cb + bb)[..4] == cb && (ca + ba)[4..] == ba && (cb + bb)[4..] == bb;
      Uint32RoundTrip(|a|);
      Uint32RoundTrip(|b|);
    }
    if |a| == |b| { MembersAreDecodable(a, b); }
  }

  /** Paths without lone surrogates are told apart in full. */
  lemma WellFormedMembersAreEqual(a: seq<Member>, b: seq<Member>)
    requires SameMembers(a, b)
    requires forall i :: 0 <= i < |a| ==> WellFormed(a[i].path)
    requires forall i :: 0 <= i < |b| ==> WellFormed(b[i].path)
    ensures a == b
  {
    forall i | 0 <= i < |a|
      ensures a[i] == b[i]
    {
      assert SameMember(a[i], b[i]);
      WellFormedIsGivenByScalars(a[i].path, b[i].path);
    }
  }

  /** A lone surrogate in a path is written like U+FFFD, so two lists that differ there feed the same bytes. */
  lemma LoneSurrogatesCollide(domain: Text, bytes: Bytes)
    requires |bytes| < LIMIT
    ensures Stream(domain, [Member([0xD800], bytes)]) == Stream(domain, [Member([0xFFFD], bytes)])
  {
    hide Uint32be, MembersBytes, Stream;
    assert Scalars([0xD800]) == [REPLACEMENT] + Scalars([]) && Scalars([0xFFFD]) == [0xFFFD] + Scalars([]);
    assert Encode([0xD800]) == Encode([0xFFFD]) == EncodeScalar(REPLACEMENT) + EncodeAll([]);
    SameDomainDecodes(domain, [Member([0xD800], bytes)], [Member([0xFFFD], bytes)]);
  }

  lemma FirstNul(stream: Bytes, n: nat, m: nat)
    requires n <= |stream| && m <= |stream| && NulTerminated(stream[..n]) && NulTerminated(stream[..m])
    ensures n >= m
  {
  }

  /** Among domains that end at their only NUL, equal streams mean equal domains and equal member lists. */
  lemma NulTerminatedDomainsDecode(domain: Text, domain': Text, a: seq<Member>, b: seq<Member>)
    requires NulTerminated(domain) && NulTerminated(domain') && Framable(a) && Framable(b)
    ensures Stream(domain, a) == Stream(domain', b) <==> Scalars(domain) == Scalars(domain') && SameMembers(a, b)
    ensures WellFormed(domain) && WellFormed(domain') && Stream(domain, a) == Stream(domain', b) ==> domain == domain'
  {
    hide Uint32be, MembersBytes, Encode, Scalars, SameMembers, WellFormed;
    var start, start' := Encode(domain), Encode(domain');
    EncodesAlike(domain, domain');
    if Stream(domain, a) == Stream(domain', b) {
      var stream := Stream(domain, a).value;
      assert start <= stream && start' <= stream;
      var n, n' := |start|, |start'|;
      assert stream[..n] == start && stream[..n'] == start';
      NulTerminatedAlike(domain);
      NulTerminatedAlike(domain');
      FirstNul(stream, n, n');
      FirstNul(stream, n', n);
      assert start == start';
      if WellFormed(domain) && WellFormed(domain') { WellFormedIsGivenByScalars(domain, domain'); }
    }
    if start == start' {
      SameDomainDecodes(domain, a, b);
    }
  }

  const ZERO4: Bytes := [0, 0, 0, 0]
  const FOUR4: Bytes := [0, 0, 0, 4]
  const ONE4: Bytes := [0, 0, 0, 1]

  lemma SmallLengths()
    ensures Uint32be(0) == Some(ZERO4) && Uint32be(1) == Some(ONE4) && Uint32be(4) == Some(FOUR4)
  {
  }

  lemma NothingFramed()
    ensures MembersBytes([]) == Some([])
  {
  }

  lemma FourZeroMember()
    ensures MembersBytes([Member([], ZERO4)]) == Some([1] + ZERO4 + FOUR4 + ZERO4)
  {
    hide Uint32be;
    SmallLengths();
    var member := Member([], ZERO4);
    assert Encode([]) == [];
    assert [1] + ZERO4 + [] == [1] + ZERO4;
    assert MemberBytes(member) == Some([1] + ZERO4 + FOUR4 + ZERO4);
    assert [member][..0] == [] && MembersBytes([]) == Some([]);
    assert [] + ([1] + ZERO4 + FOUR4 + ZERO4) == [1] + ZERO4 + FOUR4 + ZERO4;
  }

  lemma OneMemberStream()
    ensures Stream([], [Member([], ZERO4)]) == Some(ONE4 + ([1] + ZERO4 + FOUR4 + ZERO4))
  {
    hide Uint32be, Encode, MembersBytes;
    PlainText([]);
    SmallLengths();
    FourZeroMember();
    assert [] + ONE4 == ONE4;
  }

  lemma NoMemberStream(domain: Text)
    requires forall i :: 0 <= i < |domain| ==> domain[i] < 0x80
    ensures Stream(domain, []) == Some(domain + ZERO4)
  {
    hide Uint32be, Encode, MembersBytes;
    PlainText(domain);
    SmallLengths();
    NothingFramed();
    assert domain + ZERO4 + [] == domain + ZERO4;
  }

  /** Domains with a NUL inside them can run into the framing: two profiles then feed the same bytes. */
  lemma InnerNulIsAmbiguous()
    ensures
      var domain: Text := [0, 0, 0, 1, 1, 0, 0, 0, 0, 0, 0, 0, 4];
      Stream([], [Member([], ZERO4)]) == Stream(domain, []) && !NulTerminated(domain)
  {
    hide Stream;
    var domain: Text := [0, 0, 0, 1, 1, 0, 0, 0, 0, 0, 0, 0, 4];
    OneMemberStream();
    NoMemberStream(domain);
    assert ONE4 + ([1] + ZERO4 + FOUR4 + ZERO4) == domain + ZERO4;
    assert domain[0] == 0;
  }
}
