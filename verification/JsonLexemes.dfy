/**
 The lexical grammar of JSON in its own terms: white space, numbers and strings by their code points, as
 sections 2, 6 and 7 of RFC 8259 give them, and that the reader recognises exactly these.
 */
module JsonLexemes {
  import opened Units
  import opened Wrappers
  import opened JsonText
  import opened JsonReader
  import opened JsonGrammar

  // ----- white space

  /** The class `\s`, code point by code point. */
  lemma SpaceRule(u: Unit)
    ensures IsSpace(u) <==> u in {0x09, 0x0A, 0x0B, 0x0C, 0x0D, 0x20, 0xA0, 0x1680, 0x2000, 0x2001, 0x2002, 0x2003, 0x2004,
                                  0x2005, 0x2006, 0x2007, 0x2008, 0x2009, 0x200A, 0x2028, 0x2029, 0x202F, 0x205F, 0x3000, 0xFEFF}
  {
  }

  /** Blanks, tabs, line feeds and carriage returns. */
  ghost predicate PlainSpace(t: Text) {
    forall i :: 0 <= i < |t| ==> t[i] in {0x20, 0x09, 0x0A, 0x0D}
  }

  /** White space in front of any text, accepted or not, leaves the answer as it is, errors included. */
  lemma SpaceInFrontIsFree(space: Text, t: Text)
    requires PlainSpace(space)
    ensures ParseText(space + t) == ParseText(t)
  {
    hide ReadValue;
    SkipsOver(space, t);
    SameFromSkipped(space + t, t);
  }

  lemma {:induction false} SkipsOver(space: Text, t: Text)
    requires PlainSpace(space)
    ensures SkipSpace(space + t) == SkipSpace(t)
  {
    if space == [] {
      assert space + t == t;
    } else {
      assert (space + t)[1..] == space[1..] + t;
      SpaceRule(space[0]);
      SkipsOver(space[1..], t);
    }
  }

  lemma SameFromSkipped(s: Text, t: Text)
    requires SkipSpace(s) == SkipSpace(t)
    ensures ReadValue(s) == ReadValue(t)
  {
    hide ReadObject, ReadArray, ReadString, ReadScalar;
  }

  /** A tree without any white space. */
  ghost function Stripped(tree: Tree): Tree {
    match tree
    case Scalar(_, token) => Scalar([], token)
    case EmptyArray(_, _) => EmptyArray([], [])
    case Array(_, items) => Array([], StrippedItems(items))
    case EmptyObject(_, _) => EmptyObject([], [])
    case Object(_, members) => Object([], StrippedMembers(members))
  }

  ghost function StrippedItems(items: Items): Items {
    match items
    case LastItem(value, _) => LastItem(Stripped(value), [])
    case Item(value, _, rest) => Item(Stripped(value), [], StrippedItems(rest))
  }

  ghost function StrippedTagged(head: Tagged): Tagged {
    Tagged([], head.key, [], Stripped(head.value), [])
  }

  ghost function StrippedMembers(members: Members): Members {
    match members
    case LastMember(head) => LastMember(StrippedTagged(head))
    case Member(head, rest) => Member(StrippedTagged(head), StrippedMembers(rest))
  }

  /** A tree whose white space, wherever there is any, is plain. */
  ghost predicate Spaced(tree: Tree) {
    && PlainSpace(tree.space)
    && match tree
       case Scalar(_, _) => true
       case EmptyArray(_, gap) => PlainSpace(gap)
       case EmptyObject(_, gap) => PlainSpace(gap)
       case Array(_, items) => SpacedItems(items)
       case Object(_, members) => SpacedMembers(members)
  }

  ghost predicate SpacedItems(items: Items) {
    Spaced(items.value) && PlainSpace(items.after) && (items.Item? ==> SpacedItems(items.rest))
  }

  ghost predicate SpacedTagged(head: Tagged) {
    PlainSpace(head.before) && PlainSpace(head.between) && Spaced(head.value) && PlainSpace(head.after)
  }

  ghost predicate SpacedMembers(members: Members) {
    SpacedTagged(members.head) && (members.Member? ==> SpacedMembers(members.rest))
  }

  lemma PlainIsSpace(t: Text)
    requires PlainSpace(t)
    ensures AllSpace(t)
  {
    forall i | 0 <= i < |t|
      ensures IsSpace(t[i])
    {
      SpaceRule(t[i]);
    }
  }

  lemma {:induction false} SpacedTree(tree: Tree)
    requires WellFormed(Stripped(tree)) && Spaced(tree)
    ensures WellFormed(tree) && Value(tree) == Value(Stripped(tree))
    decreases tree, 1
  {
    hide StringToken, NumberToken, AllSpace, TokenValue, IsSpace;
    PlainIsSpace(tree.space);
    match tree
    case Scalar(_, _) =>
    case EmptyArray(_, gap) => PlainIsSpace(gap);
    case EmptyObject(_, gap) => PlainIsSpace(gap);
    case Array(_, items) => SpacedItemsTree(items);
    case Object(_, members) => SpacedMembersTree(members);
  }

  lemma {:induction false} SpacedItemsTree(items: Items)
    requires WellFormedItems(StrippedItems(items)) && SpacedItems(items)
    ensures WellFormedItems(items) && ItemValues(items) == ItemValues(StrippedItems(items))
    decreases items, 0
  {
    hide StringToken, NumberToken, AllSpace, TokenValue, IsSpace;
    SpacedTree(items.value);
    PlainIsSpace(items.after);
    if items.Item? { SpacedItemsTree(items.rest); }
  }

  lemma {:induction false} SpacedMembersTree(members: Members)
    requires WellFormedMembers(StrippedMembers(members)) && SpacedMembers(members)
    ensures WellFormedMembers(members) && MemberValues(members) == MemberValues(StrippedMembers(members))
    decreases members, 0
  {
    hide StringToken, NumberToken, AllSpace, TokenValue, TokenText, IsSpace;
    var head := members.head;
    SpacedTree(head.value);
    PlainIsSpace(head.before);
    PlainIsSpace(head.between);
    PlainIsSpace(head.after);
    if members.Member? { SpacedMembersTree(members.rest); }
  }

  /** Any plain white space before, between and behind the tokens of a text without any leaves its value as it is. */
  lemma SpaceIsFree(tree: Tree, space: Text)
    requires WellFormed(Stripped(tree)) && Spaced(tree) && PlainSpace(space)
    ensures ParseText(Print(tree) + space) == ParseText(Print(Stripped(tree))) == Ok(Value(Stripped(tree)))
  {
    hide ParseText, WellFormed, Value, Print;
    SpacedTree(tree);
    PlainIsSpace(space);
    ParseReadsBack(tree, space);
    ParseReadsBack(Stripped(tree), []);
    assert Print(Stripped(tree)) + [] == Print(Stripped(tree));
  }

  /** A code point in front of a keyword is skipped exactly when it is of the class. */
  lemma OnlySpaceIsSkipped(u: Unit)
    ensures ParseText([u, 0x6E, 0x75, 0x6C, 0x6C]) == Ok(Null) <==>
      u in {0x09, 0x0A, 0x0B, 0x0C, 0x0D, 0x20, 0xA0, 0x1680, 0x2000, 0x2001, 0x2002, 0x2003, 0x2004,
            0x2005, 0x2006, 0x2007, 0x2008, 0x2009, 0x200A, 0x2028, 0x2029, 0x202F, 0x205F, 0x3000, 0xFEFF}
  {
    hide ParseText, IsSpace, Value;
    var t := [u, 0x6E, 0x75, 0x6C, 0x6C];
    SpaceRule(u);
    if IsSpace(u) {
      var tree := Scalar([u], NULL);
      assert Print(tree) + [] == t;
      NullTree(tree);
      ParseReadsBack(tree, []);
    }
    if ParseText(t) == Ok(Null) {
      ParseAcceptsExactly(t, Null);
      var tree, space :| Writes(tree, space, t, Null);
      OnlyNull(tree);
      assert t == tree.space + NULL + space;
      assert NULL[1] == 0x75 && t[1] == 0x6E;
      assert t[|tree.space| + 1] == NULL[1];
      assert t[0] == tree.space[0] && AllSpace(tree.space);
    }
  }

  lemma NullTree(tree: Tree)
    requires tree.Scalar? && tree.token == NULL
    ensures Value(tree) == Null
  {
  }

  lemma OnlyNull(tree: Tree)
    requires Value(tree) == Null
    ensures tree.Scalar? && tree.token == NULL
  {
  }

  // ----- numbers

  /** The parts of a number of section 6 of RFC 8259. */
  datatype Exponent = Exponent(mark: Unit, sign: Text, digits: Text)

  datatype Numeral = Numeral(minus: bool, integer: Text, fraction: Option<Text>, exponent: Option<Exponent>)

  ghost predicate Digits(t: Text) {
    t != [] && forall i :: 0 <= i < |t| ==> 0x30 <= t[i] <= 0x39
  }

  ghost predicate Sound(n: Numeral) {
    && Digits(n.integer) && (n.integer[0] == 0x30 ==> |n.integer| == 1)
    && (n.fraction.Some? ==> Digits(n.fraction.value))
    && (n.exponent.Some? ==>
          var e := n.exponent.value;
          e.mark in {0x65, 0x45} && (e.sign == [] || e.sign == [0x2B] || e.sign == [0x2D]) && Digits(e.digits))
  }

  ghost function Sign(n: Numeral): Text { if n.minus then [0x2D] else [] }

  ghost function Fraction(n: Numeral): Text { if n.fraction.Some? then [0x2E] + n.fraction.value else [] }

  ghost function Power(n: Numeral): Text {
    if n.exponent.Some? then [n.exponent.value.mark] + (n.exponent.value.sign + n.exponent.value.digits) else []
  }

  ghost function Written(n: Numeral): Text {
    Sign(n) + (n.integer + (Fraction(n) + Power(n)))
  }

  lemma {:induction false} DigitsRun(t: Text, i: nat, j: nat)
    requires i <= j <= |t| && (forall k :: i <= k < j ==> 0x30 <= t[k] <= 0x39) && (j < |t| ==> !(0x30 <= t[j] <= 0x39))
    ensures DigitsEnd(t, i) == j
    decreases j - i
  {
    if i < j { DigitsRun(t, i + 1, j); }
  }

  lemma {:induction false} DigitsBefore(t: Text, i: nat)
    requires i <= |t|
    ensures forall k :: i <= k < DigitsEnd(t, i) ==> 0x30 <= t[k] <= 0x39
    decreases |t| - i
  {
    if i < |t| && IsDigit(t[i]) { DigitsBefore(t, i + 1); }
  }

  /** Every sound numeral is matched whole by the number pattern. */
  lemma NumeralIsNumber(n: Numeral)
    requires Sound(n)
    ensures NumberEnd(Written(n)) == Some(|Written(n)|)
    ensures IntegerEnd(Written(n)) == Some(|Sign(n)| + |n.integer|)
    ensures FractionEnd(Written(n), |Sign(n)| + |n.integer|) == |Sign(n)| + |n.integer| + |Fraction(n)|
  {
    hide Written, Sign, Fraction, Power, Sound, IntegerEnd, FractionEnd, ExponentEnd;
    IntegerOfNumeral(n);
    FractionOfNumeral(n);
    ExponentOfNumeral(n);
  }

  lemma FourParts(a: Text, b: Text, c: Text, d: Text)
    ensures
      var t := a + (b + (c + d));
      var i := |a| + |b|;
      var j := i + |c|;
      && |t| == j + |d| && t[j..] == d
      && (forall k :: 0 <= k < |a| ==> t[k] == a[k])
      && (forall k :: |a| <= k < i ==> t[k] == b[k - |a|])
      && (forall k :: i <= k < j ==> t[k] == c[k - i])
      && (forall k :: j <= k < |t| ==> t[k] == d[k - j])
  {
  }

  /** Where the parts of a numeral stand in its text. */
  lemma WrittenParts(n: Numeral)
    ensures
      var t, s := Written(n), |Sign(n)|;
      var i := s + |n.integer|;
      var j := i + |Fraction(n)|;
      && |t| == j + |Power(n)| && t[j..] == Power(n)
      && (forall k :: 0 <= k < s ==> t[k] == Sign(n)[k])
      && (forall k :: s <= k < i ==> t[k] == n.integer[k - s])
      && (forall k :: i <= k < j ==> t[k] == Fraction(n)[k - i])
      && (forall k :: j <= k < |t| ==> t[k] == Power(n)[k - j])
  {
    hide Sign, Fraction, Power;
    FourParts(Sign(n), n.integer, Fraction(n), Power(n));
  }

  lemma IntegerOfNumeral(n: Numeral)
    requires Sound(n)
    ensures IntegerEnd(Written(n)) == Some(|Sign(n)| + |n.integer|)
  {
    hide Written, DigitsEnd;
    var t, s := Written(n), |Sign(n)|;
    var i := s + |n.integer|;
    WrittenParts(n);
    assert t[s] == n.integer[0];
    assert i < |t| ==> t[i] == 0x2E || t[i] == 0x65 || t[i] == 0x45;
    if n.integer[0] != 0x30 { DigitsRun(t, s + 1, i); }
  }

  lemma FractionOfNumeral(n: Numeral)
    requires Sound(n)
    ensures FractionEnd(Written(n), |Sign(n)| + |n.integer|) == |Sign(n)| + |n.integer| + |Fraction(n)|
  {
    hide Written, DigitsEnd;
    var t := Written(n);
    var i := |Sign(n)| + |n.integer|;
    var j := i + |Fraction(n)|;
    WrittenParts(n);
    assert j < |t| ==> t[j] == 0x65 || t[j] == 0x45;
    if n.fraction.Some? {
      assert forall k :: i + 1 <= k < j ==> t[k] == n.fraction.value[k - i - 1];
      assert t[i] == 0x2E && 0x30 <= t[i + 1] <= 0x39;
      DigitsRun(t, i + 1, j);
    }
  }

  lemma ExponentOfNumeral(n: Numeral)
    requires Sound(n)
    ensures
      var j := |Sign(n)| + |n.integer| + |Fraction(n)|;
      j <= |Written(n)| && ExponentEnd(Written(n), j) == |Written(n)|
  {
    hide Written, DigitsEnd;
    var t := Written(n);
    var j := |Sign(n)| + |n.integer| + |Fraction(n)|;
    WrittenParts(n);
    if n.exponent.Some? {
      var e := n.exponent.value;
      var d := j + 1 + |e.sign|;
      assert Power(n) == [e.mark] + (e.sign + e.digits);
      assert t[j] == e.mark && |t| == d + |e.digits|;
      assert forall k :: d <= k < |t| ==> t[k] == e.digits[k - d];
      assert e.sign != [] ==> t[j + 1] == e.sign[0];
      assert e.sign == [] ==> t[j + 1] == e.digits[0];
      DigitsRun(t, d, |t|);
    }
  }

  lemma IntegerPart(t: Text)
    requires IntegerEnd(t).Some?
    ensures
      var s, i := if t[0] == 0x2D then 1 else 0, IntegerEnd(t).value;
      s < i && Digits(t[s..i]) && (t[s] == 0x30 ==> i == s + 1)
  {
    hide DigitsEnd;
    DigitsBefore(t, if t[0] == 0x2D then 2 else 1);
  }

  lemma FractionPart(t: Text, i: nat)
    requires i <= |t|
    ensures
      var j := FractionEnd(t, i);
      j == i || (i + 1 < j && t[i] == 0x2E && Digits(t[i + 1..j]))
  {
    if FractionEnd(t, i) > i {
      DigitsBefore(t, i + 1);
      assert DigitsEnd(t, i + 1) > i + 1;
    }
  }

  lemma ExponentPart(t: Text, j: nat) returns (e: Exponent)
    requires j < |t| && ExponentEnd(t, j) == |t|
    ensures e.mark in {0x65, 0x45} && (e.sign == [] || e.sign == [0x2B] || e.sign == [0x2D]) && Digits(e.digits)
    ensures t[j..] == [e.mark] + (e.sign + e.digits)
  {
    hide DigitsEnd;
    var d := if j + 1 < |t| && (t[j + 1] == 0x2B || t[j + 1] == 0x2D) then j + 2 else j + 1;
    DigitsBefore(t, d);
    e := Exponent(t[j], t[j + 1..d], t[d..]);
    assert t[j + 1..d] == [] || t[j + 1..d] == [t[j + 1]];
    assert t[j..] == [t[j]] + (t[j + 1..d] + t[d..]);
  }

  /** Whatever the number pattern matches whole is a sound numeral. */
  lemma NumberIsNumeral(t: Text) returns (n: Numeral)
    requires NumberEnd(t) == Some(|t|)
    ensures Sound(n) && Written(n) == t
  {
    hide IntegerEnd, FractionEnd, ExponentEnd;
    var i := IntegerEnd(t).value;
    var j := FractionEnd(t, i);
    var s := if t[0] == 0x2D then 1 else 0;
    IntegerPart(t);
    FractionPart(t, i);
    var exponent := None;
    if j < |t| {
      var e := ExponentPart(t, j);
      exponent := Some(e);
    }
    n := Numeral(s == 1, t[s..i], if j > i then Some(t[i + 1..j]) else None, exponent);
    hide Digits, NumberEnd;
    assert Sign(n) == t[..s];
    assert Fraction(n) == t[i..j] by { FractionText(t, i, j); }
    assert Power(n) == t[j..];
    hide Sign, Fraction, Power;
    Assembled(t, n, s, i, j);
  }

  lemma FractionText(t: Text, i: nat, j: nat)
    requires i <= j <= |t| && (j == i || (i + 1 < j && t[i] == 0x2E))
    ensures t[i..j] == if j > i then [0x2E] + t[i + 1..j] else []
  {
  }

  lemma Assembled(t: Text, n: Numeral, s: nat, i: nat, j: nat)
    requires s <= i <= j <= |t| && t[..s] == Sign(n) && t[s..i] == n.integer && t[i..j] == Fraction(n) && t[j..] == Power(n)
    ensures Written(n) == t
  {
    hide Sign, Fraction, Power;
    assert t == t[..s] + (t[s..i] + (t[i..j] + t[j..]));
  }

  /** The reader takes a text for a number exactly when it is a numeral of the grammar. */
  lemma NumberRule(t: Text)
    ensures NumberEnd(t) == Some(|t|) <==> exists n :: Sound(n) && Written(n) == t
  {
    hide NumberEnd, Sound, Written;
    if NumberEnd(t) == Some(|t|) {
      var n := NumberIsNumeral(t);
    }
    if n :| Sound(n) && Written(n) == t {
      NumeralIsNumber(n);
    }
  }

  ghost function Pow(b: nat, n: nat): nat {
    if n == 0 then 1 else b * Pow(b, n - 1)
  }

  ghost function ValueOf(digits: Text): nat
    requires forall i :: 0 <= i < |digits| ==> 0x30 <= digits[i] <= 0x39
  {
    if digits == [] then 0 else 10 * ValueOf(digits[..|digits| - 1]) + (digits[|digits| - 1] - 0x30)
  }

  lemma {:induction false} PowOfSum(b: nat, m: nat, n: nat)
    ensures Pow(b, m + n) == Pow(b, m) * Pow(b, n)
  {
    if n > 0 {
      PowOfSum(b, m, n - 1);
      assert Pow(b, m + n) == b * Pow(b, m + (n - 1));
      assert b * (Pow(b, m) * Pow(b, n - 1)) == Pow(b, m) * (b * Pow(b, n - 1));
    }
  }

  lemma {:induction false} TensAgree(n: nat)
    ensures PowerOfTen(n) == Pow(10, n)
  {
    if n > 0 { TensAgree(n - 1); }
  }

  lemma TwoTo64()
    ensures Pow(2, 64) == 0x1_0000_0000_0000_0000 && Pow(2, 2) == 4 && Pow(2, 8) == 0x100
  {
    assert Pow(2, 4) == 16;
    PowOfSum(2, 4, 4);
    hide Pow;
    PowOfSum(2, 8, 8);
    PowOfSum(2, 16, 16);
    PowOfSum(2, 32, 32);
  }

  lemma TwoTo512()
    ensures Pow(2, 128) == 0x100000000000000000000000000000000 && Pow(2, 256) == 0x10000000000000000000000000000000000000000000000000000000000000000
    ensures Pow(2, 512) == 0x100000000000000000000000000000000000000000000000000000000000000000000000000000000000000000000000000000000000000000000000000000000
  {
    hide Pow;
    TwoTo64();
    PowOfSum(2, 64, 64);
    PowOfSum(2, 128, 128);
    PowOfSum(2, 256, 256);
  }

  /** The bound from which a double is infinite: halfway between the largest double and the power of two above it. */
  lemma OverflowIsTheBound()
    ensures OVERFLOW == Pow(2, 1024) - Pow(2, 970)
  {
    hide Pow;
    TwoTo64();
    TwoTo512();
    PowOfSum(2, 512, 512);
    PowOfSum(2, 512, 256);
    PowOfSum(2, 768, 128);
    PowOfSum(2, 896, 64);
    PowOfSum(2, 960, 8);
    PowOfSum(2, 968, 2);
  }

  // ----- overflow

  ghost predicate AllDigits(t: Text) {
    forall i :: 0 <= i < |t| ==> 0x30 <= t[i] <= 0x39
  }

  ghost function FractionDigits(n: Numeral): Text { if n.fraction.Some? then n.fraction.value else [] }

  ghost function ExponentValue(n: Numeral): int
    requires Sound(n)
  {
    if n.exponent.None? then 0
    else if n.exponent.value.sign == [0x2D] then 0 - ValueOf(n.exponent.value.digits)
    else ValueOf(n.exponent.value.digits)
  }

  /** The size of a numeral, without its sign, lies below the bound from which a double is infinite. */
  ghost predicate Finite(n: Numeral)
    requires Sound(n)
  {
    var digits, exponent := n.integer + FractionDigits(n), ExponentValue(n) - |FractionDigits(n)|;
    var bound := Pow(2, 1024) - Pow(2, 970);
    if exponent >= 0 then ValueOf(digits) * Pow(10, exponent) < bound else ValueOf(digits) < bound * Pow(10, -exponent)
  }

  lemma {:induction false} DigitsHaveValue(t: Text)
    requires AllDigits(t)
    ensures DigitsValue(t) == ValueOf(t)
  {
    if t != [] { DigitsHaveValue(t[..|t| - 1]); }
  }

  /** A character that is no digit does not count. */
  lemma {:induction false} NonDigitIsSkipped(a: Text, u: Unit, b: Text)
    requires !(0x30 <= u <= 0x39)
    ensures DigitsValue(a + ([u] + b)) == DigitsValue(a + b)
  {
    var t := a + ([u] + b);
    if b == [] {
      assert t[..|t| - 1] == a && a + b == a;
    } else {
      var c := b[..|b| - 1];
      NonDigitIsSkipped(a, u, c);
      assert t[..|t| - 1] == a + ([u] + c);
      assert (a + b)[..|a + b| - 1] == a + c;
    }
  }

  lemma MantissaOf(n: Numeral)
    requires Sound(n)
    ensures
      var j := |Sign(n)| + |n.integer| + |Fraction(n)|;
      j <= |Written(n)| && DigitsValue(Written(n)[..j]) == ValueOf(n.integer + FractionDigits(n))
  {
    hide DigitsValue, ValueOf, Power;
    var j := |Sign(n)| + |n.integer| + |Fraction(n)|;
    assert Written(n)[..j] == Sign(n) + (n.integer + Fraction(n));
    if n.minus {
      NonDigitIsSkipped([], 0x2D, n.integer + Fraction(n));
      assert [] + ([0x2D] + (n.integer + Fraction(n))) == Sign(n) + (n.integer + Fraction(n));
      assert [] + (n.integer + Fraction(n)) == n.integer + Fraction(n);
    } else {
      assert Sign(n) + (n.integer + Fraction(n)) == n.integer + Fraction(n);
    }
    if n.fraction.Some? { NonDigitIsSkipped(n.integer, 0x2E, n.fraction.value); }
    DigitsHaveValue(n.integer + FractionDigits(n));
  }

  lemma ExponentOf(n: Numeral)
    requires Sound(n) && n.exponent.Some?
    ensures DigitsValue(Power(n)) == ValueOf(n.exponent.value.digits)
    ensures 0x2D in Power(n) <==> n.exponent.value.sign == [0x2D]
  {
    hide DigitsValue, ValueOf;
    var e := n.exponent.value;
    NonDigitIsSkipped([], e.mark, e.sign + e.digits);
    assert [] + ([e.mark] + (e.sign + e.digits)) == Power(n) && [] + (e.sign + e.digits) == e.sign + e.digits;
    if e.sign != [] {
      NonDigitIsSkipped([], e.sign[0], e.digits);
      assert [] + ([e.sign[0]] + e.digits) == e.sign + e.digits && [] + e.digits == e.digits;
    } else {
      assert e.sign + e.digits == e.digits;
    }
    DigitsHaveValue(e.digits);
  }

  /** The reader's overflow test is the bound on the number that is written. */
  lemma FiniteRule(n: Numeral)
    requires Sound(n)
    ensures NumberEnd(Written(n)) == Some(|Written(n)|)
    ensures IsFinite(Written(n)) <==> Finite(n)
  {
    hide Written, DigitsValue, ValueOf, Pow, PowerOfTen, NumberEnd, IntegerEnd, FractionEnd, ExponentEnd;
    var t := Written(n);
    var i := |Sign(n)| + |n.integer|;
    var j := i + |Fraction(n)|;
    NumeralIsNumber(n);
    MantissaOf(n);
    assert t[j..] == Power(n) && |t| == j + |Power(n)| by { WrittenParts(n); }
    if n.exponent.Some? { ExponentOf(n); }
    OverflowIsTheBound();
    var exponent := ExponentValue(n) - |FractionDigits(n)|;
    TensAgree(if exponent >= 0 then exponent else -exponent);
  }

  /** A numeral is read as itself when it is finite and refused otherwise. */
  lemma NumeralIsRead(n: Numeral)
    requires Sound(n)
    ensures ParseText(Written(n)) == if Finite(n) then Ok(Number(Written(n))) else Err(NonFiniteNumber)
  {
    hide IsFinite, Finite, NumberEnd;
    var t := Written(n);
    FiniteRule(n);
    NumeralStart(n);
    hide Written, Sound;
    assert SkipSpace(t) == t by { SkipUnfold(t); }
    assert ReadValue(t) == ReadScalar(t);
    assert t[..|t|] == t && t[|t|..] == [];
    assert SkipSpace([]) == [];
  }

  lemma NumeralStart(n: Numeral)
    requires Sound(n)
    ensures Written(n) != [] && (Written(n)[0] == 0x2D || 0x30 <= Written(n)[0] <= 0x39)
  {
    assert n.minus ==> Written(n)[0] == 0x2D;
    assert !n.minus ==> Written(n)[0] == n.integer[0];
  }

  // ----- strings

  /** What section 7 of RFC 8259 puts between quotes: a plain unit, a letter escape, or four hexadecimal digits. */
  datatype Piece = Raw(u: Unit) | Short(letter: Unit) | Hex(a: Unit, b: Unit, c: Unit, d: Unit)

  ghost predicate HexDigit(u: Unit) { 0x30 <= u <= 0x39 || 0x41 <= u <= 0x46 || 0x61 <= u <= 0x66 }

  ghost function HexDigitValue(u: Unit): int {
    if u <= 0x39 then u - 0x30 else if u <= 0x46 then u - 0x37 else u - 0x57
  }

  ghost predicate SoundPiece(p: Piece) {
    match p
    case Raw(u) => u >= 0x20 && u != 0x22 && u != 0x5C
    case Short(letter) => letter in {0x22, 0x5C, 0x2F, 0x62, 0x66, 0x6E, 0x72, 0x74}
    case Hex(a, b, c, d) => HexDigit(a) && HexDigit(b) && HexDigit(c) && HexDigit(d)
  }

  ghost function WrittenPiece(p: Piece): Text {
    match p
    case Raw(u) => [u]
    case Short(letter) => [0x5C, letter]
    case Hex(a, b, c, d) => [0x5C, 0x75, a, b, c, d]
  }

  ghost function MeantPiece(p: Piece): int {
    match p
    case Raw(u) => u
    case Short(letter) =>
      if letter == 0x62 then 0x08 else if letter == 0x66 then 0x0C else if letter == 0x6E then 0x0A
      else if letter == 0x72 then 0x0D else if letter == 0x74 then 0x09 else letter
    case Hex(a, b, c, d) =>
      HexDigitValue(a) * 0x1000 + HexDigitValue(b) * 0x100 + HexDigitValue(c) * 0x10 + HexDigitValue(d)
  }

  ghost predicate SoundPieces(ps: seq<Piece>) {
    forall i :: 0 <= i < |ps| ==> SoundPiece(ps[i])
  }

  ghost function WrittenPieces(ps: seq<Piece>): Text {
    if ps == [] then [] else WrittenPiece(ps[0]) + WrittenPieces(ps[1..])
  }

  ghost function MeantPieces(ps: seq<Piece>): seq<int> {
    if ps == [] then [] else [MeantPiece(ps[0])] + MeantPieces(ps[1..])
  }

  lemma ShortIsDecoded(letter: Unit, rest: Text)
    requires SoundPiece(Short(letter))
    ensures ShortEscape(letter) == Some(MeantPiece(Short(letter)))
    ensures Decode([0x5C, letter] + rest) == Prepend(ShortEscape(letter).value, Decode(rest))
  {
    assert ([0x5C, letter] + rest)[2..] == rest;
  }

  lemma HexIsValued(a: Unit, b: Unit, c: Unit, d: Unit)
    requires SoundPiece(Hex(a, b, c, d))
    ensures HexUnit([a, b, c, d]) == Some(MeantPiece(Hex(a, b, c, d)))
  {
    HexDigitIsValued(a);
    HexDigitIsValued(b);
    HexDigitIsValued(c);
    HexDigitIsValued(d);
    hide HexValue, HexDigit, HexDigitValue;
  }

  lemma HexDigitIsValued(u: Unit)
    requires HexDigit(u)
    ensures HexValue(u) == Some(HexDigitValue(u)) && 0 <= HexDigitValue(u) < 16
  {
  }

  lemma HexIsDecoded(h: Text, rest: Text)
    requires |h| == 4 && HexUnit(h).Some?
    ensures Decode([0x5C, 0x75] + h + rest) == Prepend(HexUnit(h).value, Decode(rest))
  {
    hide HexUnit;
    var body := [0x5C, 0x75] + h + rest;
    assert body[2..6] == h && body[6..] == rest;
  }

  lemma PieceIsDecoded(p: Piece, rest: Text)
    requires SoundPiece(p)
    ensures 0 <= MeantPiece(p) < 0x10000
    ensures Decode(WrittenPiece(p) + rest) == Prepend(MeantPiece(p), Decode(rest))
  {
    match p
    case Raw(u) => assert ([u] + rest)[1..] == rest;
    case Short(letter) => ShortIsDecoded(letter, rest);
    case Hex(a, b, c, d) =>
      hide Decode;
      HexIsValued(a, b, c, d);
      HexIsDecoded([a, b, c, d], rest);
      assert [0x5C, 0x75] + [a, b, c, d] == WrittenPiece(p);
  }

  lemma {:induction false} PiecesAreDecoded(ps: seq<Piece>)
    requires SoundPieces(ps)
    ensures Decode(WrittenPieces(ps)).Some? && Decode(WrittenPieces(ps)).value == MeantPieces(ps)
  {
    if ps != [] {
      PieceIsDecoded(ps[0], WrittenPieces(ps[1..]));
      PiecesAreDecoded(ps[1..]);
    }
  }

  /** The first piece of what decodes. */
  lemma FirstPiece(body: Text) returns (p: Piece)
    requires body != [] && Decode(body).Some?
    ensures SoundPiece(p) && WrittenPiece(p) <= body && Decode(body[|WrittenPiece(p)|..]).Some?
    ensures body == WrittenPiece(p) + body[|WrittenPiece(p)|..]
  {
    if body[0] != 0x5C {
      p := Raw(body[0]);
    } else if ShortEscape(body[1]).Some? {
      p := Short(body[1]);
    } else {
      p := Hex(body[2], body[3], body[4], body[5]);
      assert body[2..6] == [body[2], body[3], body[4], body[5]];
    }
  }

  lemma {:induction false} DecodedHasPieces(body: Text) returns (ps: seq<Piece>)
    requires Decode(body).Some?
    ensures SoundPieces(ps) && WrittenPieces(ps) == body
    decreases |body|
  {
    hide Decode, SoundPiece;
    if body == [] {
      ps := [];
    } else {
      var p := FirstPiece(body);
      var n := |WrittenPiece(p)|;
      assert n > 0;
      var rest := DecodedHasPieces(body[n..]);
      ps := [p] + rest;
      assert ps[1..] == rest;
    }
  }

  lemma {:induction false} ScanPieces(ps: seq<Piece>, before: Text)
    requires SoundPieces(ps)
    ensures StringEnd(before + WrittenPieces(ps) + [0x22], |before|) == Some(|before| + |WrittenPieces(ps)| + 1)
    decreases |ps|
  {
    hide StringEnd, WrittenPiece, SoundPiece;
    var t := before + WrittenPieces(ps) + [0x22];
    if ps == [] {
      assert t == before + [0x22];
      StringEndUnfold(t, |before|);
    } else {
      var written, rest := WrittenPiece(ps[0]), WrittenPieces(ps[1..]);
      assert t == (before + written) + rest + [0x22];
      ScanPieces(ps[1..], before + written);
      ScanPiece(ps[0], before, rest + [0x22]);
      assert before + written + (rest + [0x22]) == t;
    }
  }

  lemma ScanPiece(p: Piece, before: Text, rest: Text)
    requires SoundPiece(p)
    ensures StringEnd(before + WrittenPiece(p) + rest, |before|)
            == StringEnd(before + WrittenPiece(p) + rest, |before| + |WrittenPiece(p)|)
  {
    var t, o := before + WrittenPiece(p) + rest, |before|;
    assert forall i :: 0 <= i < |WrittenPiece(p)| ==> t[o + i] == WrittenPiece(p)[i];
    if p.Hex? {
      assert t[o] == 0x5C && t[o + 2] == p.a && t[o + 3] == p.b && t[o + 4] == p.c && t[o + 5] == p.d;
      StringEndUnfold(t, o);
      StringEndUnfold(t, o + 2);
      StringEndUnfold(t, o + 3);
      StringEndUnfold(t, o + 4);
      StringEndUnfold(t, o + 5);
    } else {
      assert t[o] == WrittenPiece(p)[0];
      StringEndUnfold(t, o);
    }
  }

  /** A text is a string token that stands for some units exactly when it is quoted pieces that mean these. */
  lemma StringRule(t: Text, meant: Text)
    ensures StringToken(t) && TokenText(t) == meant <==>
      exists ps :: SoundPieces(ps) && t == [0x22] + WrittenPieces(ps) + [0x22] && meant == MeantPieces(ps)
  {
    hide SoundPieces, WrittenPieces, MeantPieces, Decode, StringEnd;
    if StringToken(t) && TokenText(t) == meant {
      var body := t[1..|t| - 1];
      var ps := DecodedHasPieces(body);
      PiecesAreDecoded(ps);
      assert t == [0x22] + body + [0x22];
    }
    if ps :| SoundPieces(ps) && t == [0x22] + WrittenPieces(ps) + [0x22] && meant == MeantPieces(ps) {
      PiecesAreDecoded(ps);
      ScanPieces(ps, [0x22]);
      assert t[1..|t| - 1] == WrittenPieces(ps);
    }
  }

  // ----- every punctuation mark and keyword at work

  lemma QuotedLetter(c: Unit)
    requires 0x61 <= c <= 0x7A
    ensures StringToken([0x22, c, 0x22]) && TokenText([0x22, c, 0x22]) == [c]
  {
    var ps := [Raw(c)];
    assert WrittenPieces(ps) == [c] + WrittenPieces([]) && MeantPieces(ps) == [c] + MeantPieces([]);
    assert [0x22] + WrittenPieces(ps) + [0x22] == [0x22, c, 0x22] && MeantPieces(ps) == [c];
    assert SoundPieces(ps);
    StringRule([0x22, c, 0x22], [c]);
  }

  ghost function FlagsItems(): Items { Item(Scalar([], TRUE), [], LastItem(Scalar([], FALSE), [])) }

  ghost function FlagsMember(): Tagged { Tagged([0x0A, 0x20, 0x20], [0x22, 0x61, 0x22], [], Array([], FlagsItems()), []) }

  ghost function NullMember(): Tagged { Tagged([], [0x22, 0x62, 0x22], [], Scalar([], NULL), []) }

  ghost function EmptyMember(): Tagged { Tagged([], [0x22, 0x63, 0x22], [], EmptyObject([], []), [0x0A]) }

  lemma FlagsText()
    ensures PrintTagged(FlagsMember())
            == [0x0A, 0x20, 0x20, 0x22, 0x61, 0x22, 0x3A, 0x5B, 0x74, 0x72, 0x75, 0x65, 0x2C,
                0x66, 0x61, 0x6C, 0x73, 0x65, 0x5D]
    ensures FlagsMember().after == []
  {
    var last := LastItem(Scalar([], FALSE), []);
    assert PrintItems(last) == [0x66, 0x61, 0x6C, 0x73, 0x65, 0x5D];
    assert PrintItems(FlagsItems()) == [0x74, 0x72, 0x75, 0x65] + ([] + ([0x2C] + PrintItems(last)));
    hide PrintItems;
    assert Print(Array([], FlagsItems())) == [] + ([0x5B] + PrintItems(FlagsItems()));
  }

  lemma NullText()
    ensures PrintTagged(NullMember()) == [0x22, 0x62, 0x22, 0x3A, 0x6E, 0x75, 0x6C, 0x6C] && NullMember().after == []
  {
  }

  lemma EmptyText()
    ensures PrintTagged(EmptyMember()) == [0x22, 0x63, 0x22, 0x3A, 0x7B, 0x7D] && EmptyMember().after == [0x0A]
  {
  }

  lemma FlagsSound()
    ensures WellFormedTagged(FlagsMember()) && TaggedValue(FlagsMember()) == ([0x61], Arr([Bool(true), Bool(false)]))
  {
    hide StringToken, NumberToken, TokenText, IsSpace;
    QuotedLetter(0x61);
    SpaceRule(0x0A);
    SpaceRule(0x20);
    assert ItemValues(FlagsItems()) == [Bool(true), Bool(false)];
    assert WellFormed(Array([], FlagsItems()));
  }

  lemma OthersSound()
    ensures WellFormedTagged(NullMember()) && TaggedValue(NullMember()) == ([0x62], Null)
    ensures WellFormedTagged(EmptyMember()) && TaggedValue(EmptyMember()) == ([0x63], Obj([]))
  {
    hide StringToken, NumberToken, TokenText, IsSpace;
    QuotedLetter(0x62);
    QuotedLetter(0x63);
    SpaceRule(0x0A);
  }

  /** `{"a":[true,false],"b":null,"c":{}}` with line breaks and two blanks inside, read member by member. */
  lemma ReadsAnObject()
    ensures
      ParseText([0x7B]
                + ([0x0A, 0x20, 0x20, 0x22, 0x61, 0x22, 0x3A, 0x5B, 0x74, 0x72, 0x75, 0x65, 0x2C,
                    0x66, 0x61, 0x6C, 0x73, 0x65, 0x5D]
                   + ([0x2C] + ([0x22, 0x62, 0x22, 0x3A, 0x6E, 0x75, 0x6C, 0x6C]
                   + ([0x2C] + ([0x22, 0x63, 0x22, 0x3A, 0x7B, 0x7D]
                   + ([0x0A] + [0x7D])))))))
      == Ok(Obj([([0x61], Arr([Bool(true), Bool(false)])), ([0x62], Null), ([0x63], Obj([]))]))
  {
    hide PrintTagged, WellFormedTagged, TaggedValue, FlagsMember, NullMember, EmptyMember, Print, WellFormed, Value, ParseText;
    FlagsSound();
    OthersSound();
    FlagsText();
    NullText();
    EmptyText();
    ObjectOfThree(FlagsMember(), NullMember(), EmptyMember());
    var tree := Object([], Member(FlagsMember(), Member(NullMember(), LastMember(EmptyMember()))));
    ParseReadsBack(tree, []);
    assert Print(tree) + [] == Print(tree);
  }

  /** The text and the value of an object of three members. */
  lemma ObjectOfThree(a: Tagged, b: Tagged, c: Tagged)
    requires WellFormedTagged(a) && WellFormedTagged(b) && WellFormedTagged(c) && a.after == [] && b.after == []
    requires Distinct([TaggedValue(a), TaggedValue(b), TaggedValue(c)])
    ensures
      var tree := Object([], Member(a, Member(b, LastMember(c))));
      && WellFormed(tree) && Value(tree) == Obj([TaggedValue(a), TaggedValue(b), TaggedValue(c)])
      && Print(tree) == [0x7B] + (PrintTagged(a) + ([0x2C] + (PrintTagged(b) + ([0x2C] + (PrintTagged(c) + (c.after + [0x7D]))))))
  {
    hide PrintTagged, WellFormedTagged, TaggedValue;
    var third := LastMember(c);
    var second := Member(b, third);
    assert MemberValues(third) == [TaggedValue(c)];
    assert MemberValues(second) == [TaggedValue(b), TaggedValue(c)];
    assert MemberValues(Member(a, second)) == [TaggedValue(a), TaggedValue(b), TaggedValue(c)];
    assert PrintMembers(second) == PrintTagged(b) + ([] + ([0x2C] + PrintMembers(third)));
    assert PrintMembers(Member(a, second)) == PrintTagged(a) + ([] + ([0x2C] + PrintMembers(second)));
    assert [] + ([0x2C] + PrintMembers(second)) == [0x2C] + PrintMembers(second);
    assert [] + ([0x2C] + PrintMembers(third)) == [0x2C] + PrintMembers(third);
    hide PrintMembers;
    assert WellFormedMembers(third);
    assert WellFormedMembers(second);
    assert WellFormedMembers(Member(a, second));
  }
}
