/** The key-order-independent text of a JSON value, by which a stored snapshot is compared with a new one. */
module StableJson {
  import opened Sequences
  import opened Units
  import opened Wrappers
  import opened JsonText
  import opened JsonReader
  import opened JsonGrammar
  import JsonLexemes

  // ----- printing strings

  function HexDigit(v: nat): (u: Unit)
    requires v < 16
    ensures HexValue(u) == Some(v) && u != QUOTE && u != BACKSLASH
  {
    if v < 10 then 0x30 + v else 0x61 + v - 10
  }

  /** The letter of the two-character escape of a unit, when it has one. */
  function ShortLetter(u: Unit): (letter: Option<Unit>)
    ensures letter.Some? ==> ShortEscape(letter.value) == Some(u)
  {
    if u == 0x08 then Some(0x62)
    else if u == 0x09 then Some(0x74)
    else if u == 0x0A then Some(0x6E)
    else if u == 0x0C then Some(0x66)
    else if u == 0x0D then Some(0x72)
    else if u == QUOTE || u == BACKSLASH then Some(u)
    else None
  }

  function HexOf(u: Unit): (h: Text)
    ensures |h| == 4
  {
    [HexDigit(u / 0x1000), HexDigit(u / 0x100 % 0x10), HexDigit(u / 0x10 % 0x10), HexDigit(u % 0x10)]
  }

  /** One unit inside quotes; a surrogate that gets here is not part of a pair. */
  function EncodeUnit(u: Unit): Text {
    if ShortLetter(u).Some? then [BACKSLASH, ShortLetter(u).value]
    else if u < 0x20 || IsLead(u) || IsTrail(u) then
      [BACKSLASH, 0x75] + HexOf(u)
    else [u]
  }

  function Encode(text: Text): Text
    decreases |text|
  {
    if text == [] then []
    else if |text| > 1 && IsLead(text[0]) && IsTrail(text[1]) then [text[0]] + ([text[1]] + Encode(text[2..]))
    else EncodeUnit(text[0]) + Encode(text[1..])
  }

  /** How `JSON.stringify` writes one unit: short escapes where there are some, small hexadecimal digits elsewhere. */
  lemma UnitInFull(u: Unit)
    ensures
      Encode([u])
      == if u == 0x22 then [0x5C, 0x22] else if u == 0x5C then [0x5C, 0x5C]
         else if u == 0x08 then [0x5C, 0x62] else if u == 0x0C then [0x5C, 0x66] else if u == 0x0A then [0x5C, 0x6E]
         else if u == 0x0D then [0x5C, 0x72] else if u == 0x09 then [0x5C, 0x74]
         else if u < 0x20 || 0xD800 <= u <= 0xDFFF then
           [0x5C, 0x75, SmallHex(u / 0x1000), SmallHex(u / 0x100 % 0x10), SmallHex(u / 0x10 % 0x10), SmallHex(u % 0x10)]
         else [u]
  {
    assert [u][1..] == [];
    assert Encode([u]) == EncodeUnit(u) + [];
  }

  /** A whole surrogate pair is written as it is. */
  lemma PairStays(lead: Unit, trail: Unit)
    requires 0xD800 <= lead <= 0xDBFF && 0xDC00 <= trail <= 0xDFFF
    ensures Encode([lead, trail]) == [lead, trail]
  {
    assert [lead, trail][2..] == [];
    assert Encode([lead, trail]) == [lead] + ([trail] + Encode([]));
  }

  ghost function SmallHex(v: nat): int { if v <= 9 then v + 0x30 else v + 0x57 }

  lemma HexDigitsSum(u: nat)
    requires u < 0x10000
    ensures u == (u / 0x1000) * 0x1000 + (u / 0x100 % 0x10) * 0x100 + (u / 0x10 % 0x10) * 0x10 + u % 0x10
  {
    assert u / 0x100 == 0x10 * (u / 0x1000) + u / 0x100 % 0x10;
    assert u / 0x10 == 0x10 * (u / 0x100) + u / 0x10 % 0x10;
  }

  lemma HexRoundTrip(u: Unit)
    ensures HexUnit(HexOf(u)) == Some(u)
    ensures forall i :: 0 <= i < 4 ==> HexOf(u)[i] != QUOTE && HexOf(u)[i] != BACKSLASH
  {
    hide HexDigit, HexValue;
    HexDigitsSum(u);
  }

  lemma DecodeUnit(u: Unit, rest: Text)
    ensures Decode(EncodeUnit(u) + rest) == Prepend(u, Decode(rest))
  {
    hide HexUnit, HexOf;
    var body := EncodeUnit(u) + rest;
    if ShortLetter(u).Some? {
      assert body[2..] == rest;
    } else if u < 0x20 || IsLead(u) || IsTrail(u) {
      HexRoundTrip(u);
      assert body[2..6] == HexOf(u) && body[6..] == rest;
    } else {
      DecodeRaw(u, rest);
    }
  }

  lemma DecodeRaw(u: Unit, rest: Text)
    requires u >= 0x20 && u != QUOTE && u != BACKSLASH
    ensures Decode([u] + rest) == Prepend(u, Decode(rest))
  {
  }

  lemma {:induction false} DecodeEncode(text: Text)
    ensures Decode(Encode(text)) == Some(text)
    decreases |text|
  {
    hide EncodeUnit, Decode;
    if text == [] {
      DecodeNothing();
    } else if |text| > 1 && IsLead(text[0]) && IsTrail(text[1]) {
      var rest := Encode(text[2..]);
      DecodeRaw(text[0], [text[1]] + rest);
      DecodeRaw(text[1], rest);
      DecodeEncode(text[2..]);
      assert [text[0]] + ([text[1]] + text[2..]) == text;
    } else {
      DecodeUnit(text[0], Encode(text[1..]));
      DecodeEncode(text[1..]);
      assert [text[0]] + text[1..] == text;
    }
  }

  lemma DecodeNothing()
    ensures Decode([]) == Some([])
  {
  }

  /** Scanning passes over the encoding of a unit without finding a quote in it. */
  lemma ScanUnit(u: Unit, before: Text, rest: Text)
    ensures StringEnd(before + EncodeUnit(u) + rest, |before|) == StringEnd(before + EncodeUnit(u) + rest, |before| + |EncodeUnit(u)|)
  {
    var chunk := EncodeUnit(u);
    var t, o := before + chunk + rest, |before|;
    assert forall i :: 0 <= i < |chunk| ==> t[o + i] == chunk[i];
    if |chunk| == 6 {
      HexRoundTrip(u);
      assert forall i :: 2 <= i < 6 ==> chunk[i] == HexOf(u)[i - 2];
      hide HexOf;
      assert StringEnd(t, o) == StringEnd(t, o + 2) == StringEnd(t, o + 3) == StringEnd(t, o + 4) == StringEnd(t, o + 5) == StringEnd(t, o + 6);
    }
  }

  lemma ScanTwo(t: Text, o: nat)
    requires o + 1 < |t| && IsLead(t[o]) && IsTrail(t[o + 1])
    ensures StringEnd(t, o) == StringEnd(t, o + 2)
  {
  }

  lemma {:induction false} ScanEncoding(text: Text, before: Text)
    ensures StringEnd(before + Encode(text) + [QUOTE], |before|) == Some(|before| + |Encode(text)| + 1)
    decreases |text|
  {
    hide EncodeUnit, StringEnd;
    var t := before + Encode(text) + [QUOTE];
    if text == [] {
      ScanClose(before);
      assert before + [] + [QUOTE] == before + [QUOTE];
    } else if |text| > 1 && IsLead(text[0]) && IsTrail(text[1]) {
      var pair := before + [text[0], text[1]];
      ScanTwo(t, |before|);
      ScanEncoding(text[2..], pair);
      assert t == pair + Encode(text[2..]) + [QUOTE];
    } else {
      var chunk, rest := EncodeUnit(text[0]), Encode(text[1..]);
      ScanUnit(text[0], before, rest + [QUOTE]);
      ScanEncoding(text[1..], before + chunk);
      assert t == before + chunk + (rest + [QUOTE]);
      assert t == before + chunk + rest + [QUOTE];
    }
  }

  lemma ScanClose(before: Text)
    ensures StringEnd(before + [QUOTE], |before|) == Some(|before| + 1)
  {
  }

  function Quote(text: Text): Text {
    [QUOTE] + Encode(text) + [QUOTE]
  }

  /** A quoted string is a string token of the reader and stands for the string. */
  lemma QuoteIsToken(text: Text)
    ensures StringToken(Quote(text)) && TokenText(Quote(text)) == text
  {
    hide StringEnd, Decode, Encode;
    ScanEncoding(text, [QUOTE]);
    DecodeEncode(text);
    assert Quote(text)[1..|Quote(text)| - 1] == Encode(text);
  }

  // ----- printing values

  /** A value that can be printed: numbers by their token, names distinct at every depth. */
  ghost predicate Printable(value: Json) {
    match value
    case Number(lexeme) => NumberToken(lexeme)
    case Arr(items) => forall i :: 0 <= i < |items| ==> Printable(items[i])
    case Obj(members) => Distinct(members) && forall i :: 0 <= i < |members| ==> Printable(members[i].1)
    case _ => true
  }

  /** How `JSON.stringify` writes a value: without any white space. */
  function TreeOf(value: Json): Tree
    decreases value, 0
  {
    match value
    case Null => Scalar([], NULL)
    case Bool(b) => Scalar([], if b then TRUE else FALSE)
    case Number(lexeme) => Scalar([], lexeme)
    case Str(text) => Scalar([], Quote(text))
    case Arr(items) => if items == [] then EmptyArray([], []) else Array([], ItemsOf(items))
    case Obj(members) => if members == [] then EmptyObject([], []) else Object([], MembersOf(members))
  }

  function ItemsOf(items: seq<Json>): Items
    requires items != []
    decreases items, |items|
  {
    if |items| == 1 then LastItem(TreeOf(items[0]), []) else Item(TreeOf(items[0]), [], ItemsOf(items[1..]))
  }

  function TaggedOf(member: (Text, Json)): Tagged
    decreases member, 0
  {
    Tagged([], Quote(member.0), [], TreeOf(member.1), [])
  }

  function MembersOf(members: seq<(Text, Json)>): Members
    requires members != []
    decreases members, |members|
  {
    var head := TaggedOf(members[0]);
    if |members| == 1 then LastMember(head) else Member(head, MembersOf(members[1..]))
  }

  function Stringify(value: Json): Text {
    Print(TreeOf(value))
  }

  /** There is no white space in what `JSON.stringify` writes. */
  lemma {:induction false} WrittenWithoutSpace(value: Json)
    ensures JsonLexemes.Stripped(TreeOf(value)) == TreeOf(value)
    decreases value, 0
  {
    match value
    case Arr(items) =>
      if items != [] { ItemsWithoutSpace(items); }
    case Obj(members) =>
      if members != [] { MembersWithoutSpace(members); }
    case _ =>
  }

  lemma {:induction false} ItemsWithoutSpace(items: seq<Json>)
    requires items != []
    ensures JsonLexemes.StrippedItems(ItemsOf(items)) == ItemsOf(items)
    decreases items, |items|
  {
    WrittenWithoutSpace(items[0]);
    if |items| > 1 { ItemsWithoutSpace(items[1..]); }
  }

  lemma {:induction false} MembersWithoutSpace(members: seq<(Text, Json)>)
    requires members != []
    ensures JsonLexemes.StrippedMembers(MembersOf(members)) == MembersOf(members)
    decreases members, |members|
  {
    TaggedWithoutSpace(members[0]);
    if |members| > 1 { MembersWithoutSpace(members[1..]); }
  }

  lemma {:induction false} TaggedWithoutSpace(member: (Text, Json))
    ensures JsonLexemes.StrippedTagged(TaggedOf(member)) == TaggedOf(member)
    decreases member, 0
  {
    WrittenWithoutSpace(member.1);
  }

  lemma {:induction false} TreeOfMeansValue(value: Json)
    requires Printable(value)
    ensures WellFormed(TreeOf(value)) && Value(TreeOf(value)) == value
    decreases value, 0
  {
    match value
    case Str(text) =>
      QuoteIsToken(text);
      QuoteIsNoKeyword(text);
    case Number(lexeme) =>
      NumberStart(lexeme);
    case Arr(items) =>
      if items != [] { ItemsOfMean(items); }
    case Obj(members) =>
      if members != [] { MembersOfMean(members); }
    case _ =>
  }

  lemma QuoteIsNoKeyword(text: Text)
    ensures Quote(text) != TRUE && Quote(text) != FALSE && Quote(text) != NULL
  {
    assert Quote(text)[0] == QUOTE;
  }

  lemma {:induction false} ItemsOfMean(items: seq<Json>)
    requires items != [] && forall i :: 0 <= i < |items| ==> Printable(items[i])
    ensures WellFormedItems(ItemsOf(items)) && ItemValues(ItemsOf(items)) == items
    decreases items, |items|
  {
    hide Printable, WellFormed, Value, TreeOf;
    TreeOfMeansValue(items[0]);
    if |items| > 1 {
      ItemsOfMean(items[1..]);
      assert [items[0]] + items[1..] == items;
    }
  }

  lemma {:induction false} TaggedOfMeans(member: (Text, Json))
    requires Printable(member.1)
    ensures WellFormedTagged(TaggedOf(member)) && TaggedValue(TaggedOf(member)) == member
    decreases member, 0
  {
    hide Quote, StringToken, Printable, WellFormed, Value;
    TreeOfMeansValue(member.1);
    QuoteIsToken(member.0);
  }

  lemma {:induction false} MembersOfMean(members: seq<(Text, Json)>)
    requires members != [] && forall i :: 0 <= i < |members| ==> Printable(members[i].1)
    ensures WellFormedMembers(MembersOf(members)) && MemberValues(MembersOf(members)) == members
    decreases members, |members|
  {
    hide Quote, StringToken, Printable, WellFormed, Value;
    TaggedOfMeans(members[0]);
    if |members| > 1 {
      MembersOfMean(members[1..]);
      assert [members[0]] + members[1..] == members;
    }
  }

  /** What `JSON.stringify` prints, the strict reader reads back. */
  lemma StringifyRoundTrip(value: Json)
    requires Printable(value)
    ensures ParseText(Stringify(value)) == Ok(value)
  {
    TreeOfMeansValue(value);
    ParseReadsBack(TreeOf(value), []);
    assert Print(TreeOf(value)) + [] == Stringify(value);
  }

  // ----- the order of names

  /** JavaScript's `<` on strings. */
  predicate Less(a: Text, b: Text) {
    b != [] && (a == [] || a[0] < b[0] || (a[0] == b[0] && Less(a[1..], b[1..])))
  }

  /** Code units decide at the first difference, and a proper beginning comes first. */
  lemma {:induction false} LessRule(a: Text, b: Text)
    ensures Less(a, b) <==>
      exists n :: 0 <= n <= |a| && n < |b| && a[..n] == b[..n] && (n == |a| || a[n] < b[n])
  {
    if a != [] && b != [] && a[0] == b[0] {
      LessRule(a[1..], b[1..]);
      if n :| 0 <= n <= |a| - 1 && n < |b| - 1 && a[1..][..n] == b[1..][..n] && (n == |a| - 1 || a[1..][n] < b[1..][n]) {
        assert a[..n + 1] == [a[0]] + a[1..][..n] && b[..n + 1] == [b[0]] + b[1..][..n];
      }
      if n :| 0 <= n <= |a| && n < |b| && a[..n] == b[..n] && (n == |a| || a[n] < b[n]) {
        assert n > 0;
        assert a[1..][..n - 1] == a[..n][1..] && b[1..][..n - 1] == b[..n][1..];
      }
    } else {
      assert a[..0] == b[..0] == [];
      forall n | 0 < n <= |a| && n < |b|
        ensures a[..n] != b[..n]
      {
        assert a[..n][0] == a[0] && b[..n][0] == b[0];
      }
    }
  }

  lemma {:induction false} LessIsTotal(a: Text, b: Text)
    ensures Less(a, b) || Less(b, a) || a == b
    ensures !(Less(a, b) && Less(b, a)) && !Less(a, a)
  {
    if a != [] {
      LessIsTotal(a[1..], a[1..]);
      if b != [] && a[0] == b[0] {
        LessIsTotal(a[1..], b[1..]);
        if a[1..] == b[1..] { assert a == [a[0]] + a[1..] && b == [b[0]] + b[1..]; }
      }
    }
  }

  lemma {:induction false} LessIsTransitive(a: Text, b: Text, c: Text)
    requires Less(a, b) && Less(b, c)
    ensures Less(a, c)
  {
    if a != [] && a[0] == b[0] && b[0] == c[0] {
      LessIsTransitive(a[1..], b[1..], c[1..]);
    }
  }

  predicate NamedBefore(a: (Text, Json), b: (Text, Json)) { Less(a.0, b.0) }

  lemma TextsCompare()
    ensures Compares(Less) && Compares(NamedBefore)
  {
    forall a, b
      ensures Less(a, b) ==> !Less(b, a)
    {
      LessIsTotal(a, b);
    }
    forall a, b, c
      ensures !Less(b, a) && !Less(c, b) ==> !Less(c, a)
    {
      NotLessIsTransitive(a, b, c);
    }
  }

  lemma NotLessIsTransitive(a: Text, b: Text, c: Text)
    ensures !Less(b, a) && !Less(c, b) ==> !Less(c, a)
  {
    LessIsTotal(a, b);
    LessIsTotal(b, c);
    LessIsTotal(a, c);
    if Less(a, b) && Less(b, c) { LessIsTransitive(a, b, c); }
  }

  function SortByName(members: seq<(Text, Json)>): seq<(Text, Json)> {
    Sort(NamedBefore, members)
  }

  ghost predicate Ascending(members: seq<(Text, Json)>) {
    forall i, j :: 0 <= i < j < |members| ==> Less(members[i].0, members[j].0)
  }

  ghost function Elements(members: seq<(Text, Json)>): set<(Text, Json)> {
    set i | 0 <= i < |members| :: members[i]
  }

  lemma ElementsOfConcat(xs: seq<(Text, Json)>, ys: seq<(Text, Json)>)
    ensures Elements(xs + ys) == Elements(xs) + Elements(ys)
  {
    var all := xs + ys;
    assert forall i :: 0 <= i < |xs| ==> all[i] == xs[i];
    assert forall i :: 0 <= i < |ys| ==> all[|xs| + i] == ys[i];
  }

  lemma SameElements(xs: seq<(Text, Json)>, ys: seq<(Text, Json)>)
    requires multiset(xs) == multiset(ys)
    ensures Elements(xs) == Elements(ys)
  {
    forall m
      ensures m in Elements(xs) <==> m in Elements(ys)
    {
      assert m in multiset(xs) <==> m in multiset(ys);
    }
  }

  lemma SortsByName(members: seq<(Text, Json)>)
    ensures Elements(SortByName(members)) == Elements(members)
    ensures |SortByName(members)| == |members|
    ensures Distinct(members) ==> Ascending(SortByName(members))
  {
    var sorted := SortByName(members);
    TextsCompare();
    SortSorts(NamedBefore, members);
    SameElements(sorted, members);
    assert |multiset(sorted)| == |multiset(members)|;
    if Distinct(members) {
      DistinctAlike(members, sorted);
      forall i, j | 0 <= i < j < |sorted|
        ensures Less(sorted[i].0, sorted[j].0)
      {
        assert !NamedBefore(sorted[j], sorted[i]);
        LessIsTotal(sorted[i].0, sorted[j].0);
      }
    }
  }

  lemma {:induction false} DistinctAlike(xs: seq<(Text, Json)>, ys: seq<(Text, Json)>)
    requires Distinct(xs) && multiset(xs) == multiset(ys)
    ensures Distinct(ys)
  {
    forall i, j | 0 <= i < j < |ys|
      ensures ys[i].0 != ys[j].0
    {
      assert ys[i] in multiset(xs) && ys[j] in multiset(xs);
      if ys[i].0 == ys[j].0 {
        TwiceInMultiset(ys, i, j);
        OnceInMultiset(xs, ys[i]);
        assert false;
      }
    }
  }

  lemma TwiceInMultiset(ys: seq<(Text, Json)>, i: nat, j: nat)
    requires i < j < |ys|
    ensures ys[i] == ys[j] ==> multiset(ys)[ys[i]] >= 2
  {
    assert ys == ys[..i] + [ys[i]] + ys[i + 1..j] + [ys[j]] + ys[j + 1..];
  }

  lemma {:induction false} OnceInMultiset(xs: seq<(Text, Json)>, m: (Text, Json))
    requires Distinct(xs)
    ensures multiset(xs)[m] <= 1
  {
    if xs != [] {
      var init, last := xs[..|xs| - 1], xs[|xs| - 1];
      OnceInMultiset(init, m);
      assert xs == init + [last];
      assert last !in init;
    }
  }

  /** There is one ascending arrangement of a set of members. */
  lemma {:induction false} AscendingIsUnique(xs: seq<(Text, Json)>, ys: seq<(Text, Json)>)
    requires Ascending(xs) && Ascending(ys) && Elements(xs) == Elements(ys)
    ensures xs == ys
  {
    if xs == [] {
      NonEmpty(ys);
    } else {
      assert xs[0] in Elements(ys);
      FirstIsLeast(xs, ys);
      RestElements(xs);
      RestElements(ys);
      AscendingIsUnique(xs[1..], ys[1..]);
      assert xs == [xs[0]] + xs[1..] && ys == [ys[0]] + ys[1..];
    }
  }

  lemma NonEmpty(xs: seq<(Text, Json)>)
    ensures Elements(xs) == {} ==> xs == []
  {
    if xs != [] { assert xs[0] in Elements(xs); }
  }

  lemma FirstIsLeast(xs: seq<(Text, Json)>, ys: seq<(Text, Json)>)
    requires xs != [] && ys != [] && Ascending(xs) && Ascending(ys) && Elements(xs) == Elements(ys)
    ensures xs[0] == ys[0]
  {
    assert xs[0] in Elements(ys) && ys[0] in Elements(xs);
    var j :| 0 <= j < |ys| && ys[j] == xs[0];
    var i :| 0 <= i < |xs| && xs[i] == ys[0];
    LessIsTotal(xs[0].0, ys[0].0);
  }

  lemma RestElements(xs: seq<(Text, Json)>)
    requires xs != [] && Ascending(xs)
    ensures Elements(xs[1..]) == Elements(xs) - {xs[0]}
  {
    assert xs == [xs[0]] + xs[1..];
    ElementsOfConcat([xs[0]], xs[1..]);
    LessIsTotal(xs[0].0, xs[0].0);
    assert forall i :: 1 <= i < |xs| ==> Less(xs[0].0, xs[i].0);
    assert xs[0] !in Elements(xs[1..]);
  }

  // ----- values up to the order of members

  /** The value with the members of every object sorted by name. */
  function Normalize(value: Json): Json {
    match value
    case Arr(items) => Arr(seq(|items|, i requires 0 <= i < |items| => Normalize(items[i])))
    case Obj(members) =>
      Obj(SortByName(seq(|members|, i requires 0 <= i < |members| => (members[i].0, Normalize(members[i].1)))))
    case _ => value
  }

  function StableText(value: Json): Text {
    Stringify(Normalize(value))
  }

  /** The same value up to the order of object members, at every depth. */
  ghost predicate Same(a: Json, b: Json) {
    match (a, b)
    case (Arr(xs), Arr(ys)) => |xs| == |ys| && forall i :: 0 <= i < |xs| ==> Same(xs[i], ys[i])
    case (Obj(ms), Obj(ns)) =>
      && Names(ms) == Names(ns)
      && forall i, j :: 0 <= i < |ms| && 0 <= j < |ns| && ms[i].0 == ns[j].0 ==> Same(ms[i].1, ns[j].1)
    case _ => a == b
  }

  ghost function NormalMembers(members: seq<(Text, Json)>): (normal: seq<(Text, Json)>)
    ensures |normal| == |members|
    ensures forall i :: 0 <= i < |members| ==> normal[i] == (members[i].0, Normalize(members[i].1))
  {
    seq(|members|, i requires 0 <= i < |members| => (members[i].0, Normalize(members[i].1)))
  }

  lemma NormalizeObject(members: seq<(Text, Json)>)
    ensures Normalize(Obj(members)) == Obj(SortByName(NormalMembers(members)))
  {
  }

  lemma {:induction false} NormalizeKeepsPrintable(value: Json)
    requires Printable(value)
    ensures Printable(Normalize(value))
  {
    match value
    case Arr(items) =>
      forall i | 0 <= i < |items| { NormalizeKeepsPrintable(items[i]); }
    case Obj(members) =>
      var normal := NormalMembers(members);
      NormalizeObject(members);
      forall i | 0 <= i < |members| { NormalizeKeepsPrintable(members[i].1); }
      SortsByName(normal);
      var sorted := SortByName(normal);
      AscendingIsDistinct(sorted);
      forall i | 0 <= i < |sorted|
        ensures Printable(sorted[i].1)
      {
        assert sorted[i] in Elements(normal);
      }
    case _ =>
  }

  lemma AscendingIsDistinct(members: seq<(Text, Json)>)
    requires Ascending(members)
    ensures Distinct(members)
  {
    forall i, j | 0 <= i < j < |members|
      ensures members[i].0 != members[j].0
    {
      LessIsTotal(members[i].0, members[j].0);
    }
  }

  /** Sorted members agree exactly when the members are the same pairs. */
  lemma SortedAlike(ms: seq<(Text, Json)>, ns: seq<(Text, Json)>)
    requires Distinct(ms) && Distinct(ns)
    ensures SortByName(ms) == SortByName(ns) <==> Elements(ms) == Elements(ns)
  {
    SortsByName(ms);
    SortsByName(ns);
    if Elements(ms) == Elements(ns) {
      AscendingIsUnique(SortByName(ms), SortByName(ns));
    }
  }

  /** The pairs agree exactly when the names do and each name has the same value on both sides. */
  lemma PairsAlike(ms: seq<(Text, Json)>, ns: seq<(Text, Json)>)
    requires Distinct(ms) && Distinct(ns)
    ensures Elements(ms) == Elements(ns) <==>
      && Names(ms) == Names(ns)
      && forall i, j :: 0 <= i < |ms| && 0 <= j < |ns| && ms[i].0 == ns[j].0 ==> ms[i].1 == ns[j].1
  {
    if Elements(ms) == Elements(ns) {
      PairsIncluded(ms, ns);
      PairsIncluded(ns, ms);
    } else if Names(ms) == Names(ns)
      && forall i, j :: 0 <= i < |ms| && 0 <= j < |ns| && ms[i].0 == ns[j].0 ==> ms[i].1 == ns[j].1 {
      NamesIncluded(ms, ns);
      NamesIncluded(ns, ms);
      assert false;
    }
  }

  lemma PairsIncluded(ms: seq<(Text, Json)>, ns: seq<(Text, Json)>)
    requires Distinct(ms) && Distinct(ns) && Elements(ms) <= Elements(ns)
    ensures Names(ms) <= Names(ns)
    ensures forall i, j :: 0 <= i < |ms| && 0 <= j < |ns| && ms[i].0 == ns[j].0 ==> ms[i].1 == ns[j].1
  {
    forall i | 0 <= i < |ms|
      ensures ms[i].0 in Names(ns)
      ensures forall j :: 0 <= j < |ns| && ms[i].0 == ns[j].0 ==> ms[i].1 == ns[j].1
    {
      assert ms[i] in Elements(ns);
    }
  }

  lemma NamesIncluded(ms: seq<(Text, Json)>, ns: seq<(Text, Json)>)
    requires Names(ms) <= Names(ns)
    requires forall i, j :: 0 <= i < |ms| && 0 <= j < |ns| && ms[i].0 == ns[j].0 ==> ms[i].1 == ns[j].1
    ensures Elements(ms) <= Elements(ns)
  {
    forall i | 0 <= i < |ms|
      ensures ms[i] in Elements(ns)
    {
      assert ms[i].0 in Names(ns);
      var j :| 0 <= j < |ns| && ns[j].0 == ms[i].0;
      assert ns[j] == ms[i];
    }
  }

  lemma {:induction false} NormalFormsAgree(a: Json, b: Json)
    requires Printable(a) && Printable(b)
    ensures Normalize(a) == Normalize(b) <==> Same(a, b)
  {
    match (a, b)
    case (Arr(xs), Arr(ys)) =>
      SameArrays(xs, ys);
      ArraysAgree(xs, ys);
      forall i | 0 <= i < |xs| && i < |ys|
        ensures Normalize(xs[i]) == Normalize(ys[i]) <==> Same(xs[i], ys[i])
      {
        NormalFormsAgree(xs[i], ys[i]);
      }
    case (Obj(ms), Obj(ns)) =>
      SameObjects(ms, ns);
      ObjectsAgree(ms, ns);
      forall i, j | 0 <= i < |ms| && 0 <= j < |ns|
        ensures Normalize(ms[i].1) == Normalize(ns[j].1) <==> Same(ms[i].1, ns[j].1)
      {
        NormalFormsAgree(ms[i].1, ns[j].1);
      }
    case _ =>
  }

  lemma SameArrays(xs: seq<Json>, ys: seq<Json>)
    ensures Same(Arr(xs), Arr(ys)) <==> |xs| == |ys| && forall i :: 0 <= i < |xs| ==> Same(xs[i], ys[i])
  {
  }

  lemma SameObjects(ms: seq<(Text, Json)>, ns: seq<(Text, Json)>)
    ensures Same(Obj(ms), Obj(ns)) <==>
      && Names(ms) == Names(ns)
      && forall i, j :: 0 <= i < |ms| && 0 <= j < |ns| && ms[i].0 == ns[j].0 ==> Same(ms[i].1, ns[j].1)
  {
  }

  lemma ArraysAgree(xs: seq<Json>, ys: seq<Json>)
    ensures Normalize(Arr(xs)) == Normalize(Arr(ys)) <==>
      |xs| == |ys| && forall i :: 0 <= i < |xs| ==> Normalize(xs[i]) == Normalize(ys[i])
  {
    var xs', ys' := Normalize(Arr(xs)).items, Normalize(Arr(ys)).items;
    assert |xs'| == |xs| && |ys'| == |ys|;
    assert forall i :: 0 <= i < |xs| ==> xs'[i] == Normalize(xs[i]);
    assert forall i :: 0 <= i < |ys| ==> ys'[i] == Normalize(ys[i]);
  }

  lemma ObjectsAgree(ms: seq<(Text, Json)>, ns: seq<(Text, Json)>)
    requires Distinct(ms) && Distinct(ns)
    ensures Normalize(Obj(ms)) == Normalize(Obj(ns)) <==>
      && Names(ms) == Names(ns)
      && forall i, j :: 0 <= i < |ms| && 0 <= j < |ns| && ms[i].0 == ns[j].0 ==> Normalize(ms[i].1) == Normalize(ns[j].1)
  {
    var ms', ns' := NormalMembers(ms), NormalMembers(ns);
    NormalizeObject(ms);
    NormalizeObject(ns);
    SortedAlike(ms', ns');
    PairsAlike(ms', ns');
    NamesOfNormal(ms);
    NamesOfNormal(ns);
  }

  lemma NamesOfNormal(ms: seq<(Text, Json)>)
    ensures Names(NormalMembers(ms)) == Names(ms)
  {
  }

  /** Two values print alike exactly when they are the same up to the order of members at every depth. */
  lemma StableTextComparesValues(a: Json, b: Json)
    requires Printable(a) && Printable(b)
    ensures StableText(a) == StableText(b) <==> Same(a, b)
  {
    NormalizeKeepsPrintable(a);
    NormalizeKeepsPrintable(b);
    StringifyRoundTrip(Normalize(a));
    StringifyRoundTrip(Normalize(b));
    NormalFormsAgree(a, b);
  }

  // ----- sorted lists of texts

  function SortTexts(texts: seq<Text>): seq<Text> {
    Sort(Less, texts)
  }

  lemma FirstTextAgrees(xs: seq<Text>, ys: seq<Text>)
    requires Ordered(Less, xs) && Ordered(Less, ys) && multiset(xs) == multiset(ys) && xs != []
    ensures ys != [] && xs[0] == ys[0]
  {
    assert xs[0] in multiset(ys);
    var j :| 0 <= j < |ys| && ys[j] == xs[0];
    assert ys[0] in multiset(xs);
    var i :| 0 <= i < |xs| && xs[i] == ys[0];
    LessIsTotal(xs[0], ys[0]);
  }

  lemma RestOfMultiset(xs: seq<Text>)
    requires xs != []
    ensures multiset(xs[1..]) == multiset(xs) - multiset{xs[0]}
  {
    assert xs == [xs[0]] + xs[1..];
  }

  lemma {:induction false} OrderIsUnique(xs: seq<Text>, ys: seq<Text>)
    requires Ordered(Less, xs) && Ordered(Less, ys) && multiset(xs) == multiset(ys)
    ensures xs == ys
  {
    if xs == [] {
      assert |multiset(ys)| == 0;
    } else {
      FirstTextAgrees(xs, ys);
      RestOfMultiset(xs);
      RestOfMultiset(ys);
      OrderIsUnique(xs[1..], ys[1..]);
      assert xs == [xs[0]] + xs[1..] && ys == [ys[0]] + ys[1..];
    }
  }

  function Strings(texts: seq<Text>): Json {
    Arr(seq(|texts|, i requires 0 <= i < |texts| => Str(texts[i])))
  }

  lemma StringsIsInjective(xs: seq<Text>, ys: seq<Text>)
    ensures Strings(xs) == Strings(ys) <==> xs == ys
  {
    var xs', ys' := Strings(xs).items, Strings(ys).items;
    if xs' == ys' {
      assert |xs| == |ys|;
      forall i | 0 <= i < |xs|
        ensures xs[i] == ys[i]
      {
        assert xs'[i] == Str(xs[i]) && ys'[i] == Str(ys[i]);
      }
    }
  }

  lemma StringsAreSame(xs: seq<Text>, ys: seq<Text>)
    ensures Same(Strings(xs), Strings(ys)) <==> Strings(xs) == Strings(ys)
  {
  }

  /** Two locale lists print alike after sorting exactly when they hold the same locales equally often. */
  lemma LocalesCompare(xs: seq<Text>, ys: seq<Text>)
    ensures StableText(Strings(SortTexts(xs))) == StableText(Strings(SortTexts(ys))) <==> multiset(xs) == multiset(ys)
  {
    hide StableText, Strings, Same;
    TextsCompare();
    SortSorts(Less, xs);
    SortSorts(Less, ys);
    var a, b := Strings(SortTexts(xs)), Strings(SortTexts(ys));
    StringsArePrintable(SortTexts(xs));
    StringsArePrintable(SortTexts(ys));
    StableTextComparesValues(a, b);
    StringsAreSame(SortTexts(xs), SortTexts(ys));
    StringsIsInjective(SortTexts(xs), SortTexts(ys));
    if multiset(xs) == multiset(ys) {
      OrderIsUnique(SortTexts(xs), SortTexts(ys));
    }
  }

  lemma StringsArePrintable(xs: seq<Text>)
    ensures Printable(Strings(xs))
  {
  }
}
