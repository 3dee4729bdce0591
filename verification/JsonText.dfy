/** JSON text as UTF-16 code units, and the tokens that the strict reader recognises in it. */
module JsonText {
  import opened Units
  import opened Wrappers

  datatype Json =
    | Null
    | Bool(b: bool)
    | Number(lexeme: Text)
    | Str(text: Text)
    | Arr(items: seq<Json>)
    | Obj(members: seq<(Text, Json)>)

  const QUOTE: Unit := 0x22
  const BACKSLASH: Unit := 0x5C
  const COMMA: Unit := 0x2C
  const COLON: Unit := 0x3A
  const OPEN_BRACKET: Unit := 0x5B
  const CLOSE_BRACKET: Unit := 0x5D
  const OPEN_BRACE: Unit := 0x7B
  const CLOSE_BRACE: Unit := 0x7D
  const MINUS: Unit := 0x2D
  const PLUS: Unit := 0x2B
  const POINT: Unit := 0x2E
  const ZERO: Unit := 0x30
  const TRUE: Text := [0x74, 0x72, 0x75, 0x65]
  const FALSE: Text := [0x66, 0x61, 0x6C, 0x73, 0x65]
  const NULL: Text := [0x6E, 0x75, 0x6C, 0x6C]

  // ----- white space

  /** The class `\s` of JavaScript, which is wider than the four characters of section 2 of RFC 8259. */
  predicate IsSpace(u: Unit) {
    || 0x09 <= u <= 0x0D || u == 0x20 || u == 0xA0 || u == 0x1680 || 0x2000 <= u <= 0x200A
    || u == 0x2028 || u == 0x2029 || u == 0x202F || u == 0x205F || u == 0x3000 || u == 0xFEFF
  }

  predicate AllSpace(t: Text) {
    forall i :: 0 <= i < |t| ==> IsSpace(t[i])
  }

  function SkipSpace(t: Text): (rest: Text)
    ensures |rest| <= |t|
    ensures rest == [] || !IsSpace(rest[0])
  {
    if t != [] && IsSpace(t[0]) then SkipSpace(t[1..]) else t
  }

  lemma {:induction false} SkippedSpace(t: Text) returns (space: Text)
    ensures AllSpace(space) && t == space + SkipSpace(t)
  {
    if t != [] && IsSpace(t[0]) {
      space := SkippedSpace(t[1..]);
      space := [t[0]] + space;
    } else {
      space := [];
    }
  }

  lemma {:induction false} SkipsAll(space: Text, t: Text)
    requires AllSpace(space) && (t == [] || !IsSpace(t[0]))
    ensures SkipSpace(space + t) == t
  {
    if space == [] {
      assert space + t == t;
    } else {
      assert (space + t)[1..] == space[1..] + t;
      SkipsAll(space[1..], t);
    }
  }

  // ----- numbers

  predicate IsDigit(u: Unit) { 0x30 <= u <= 0x39 }

  predicate IsExponentMark(u: Unit) { u == 0x65 || u == 0x45 }

  /** The end of the run of digits that starts at `i`. */
  function DigitsEnd(t: Text, i: nat): (end: nat)
    requires i <= |t|
    ensures i <= end <= |t|
    decreases |t| - i
  {
    if i < |t| && IsDigit(t[i]) then DigitsEnd(t, i + 1) else i
  }

  function FractionEnd(t: Text, i: nat): (end: nat)
    requires i <= |t|
    ensures i <= end <= |t|
  {
    if i + 1 < |t| && t[i] == POINT && IsDigit(t[i + 1]) then DigitsEnd(t, i + 1) else i
  }

  function ExponentEnd(t: Text, i: nat): (end: nat)
    requires i <= |t|
    ensures i <= end <= |t|
  {
    if i < |t| && IsExponentMark(t[i]) then
      var j := if i + 1 < |t| && (t[i + 1] == PLUS || t[i + 1] == MINUS) then i + 2 else i + 1;
      if DigitsEnd(t, j) > j then DigitsEnd(t, j) else i
    else i
  }

  /** The end of the integer part, or None when there is none. */
  function IntegerEnd(t: Text): (end: Option<nat>)
    ensures end.Some? ==> 0 < end.value <= |t|
  {
    var i := if t != [] && t[0] == MINUS then 1 else 0;
    if i == |t| || !IsDigit(t[i]) then None
    else if t[i] == ZERO then Some(i + 1)
    else Some(DigitsEnd(t, i + 1))
  }

  /** The length of the number at the start of a text, or None: the longest match of the pattern. */
  function NumberEnd(t: Text): (end: Option<nat>)
    ensures end.Some? ==> 0 < end.value <= |t|
  {
    var i := IntegerEnd(t);
    if i.None? then None else Some(ExponentEnd(t, FractionEnd(t, i.value)))
  }

  /** Whether what follows a token can neither extend nor complete a number. */
  predicate Boundary(rest: Text) {
    rest == [] || !(IsDigit(rest[0]) || rest[0] == POINT || IsExponentMark(rest[0]) || rest[0] == PLUS || rest[0] == MINUS)
  }

  lemma {:induction false} DigitsEndBefore(t: Text, rest: Text, i: nat)
    requires i <= |t| && Boundary(rest)
    ensures DigitsEnd(t + rest, i) == DigitsEnd(t, i)
    decreases |t| - i
  {
    if i < |t| && IsDigit(t[i]) {
      DigitsEndBefore(t, rest, i + 1);
    }
  }

  /** A number token followed by a boundary is read whole and alone. */
  lemma NumberEndBefore(t: Text, rest: Text)
    requires NumberEnd(t) == Some(|t|) && Boundary(rest)
    ensures NumberEnd(t + rest) == Some(|t|)
  {
    var i := if t[0] == MINUS then 1 else 0;
    DigitsEndBefore(t, rest, i + 1);
    var j := IntegerEnd(t).value;
    FractionEndBefore(t, rest, j);
    ExponentEndBefore(t, rest, FractionEnd(t, j));
  }

  lemma FractionEndBefore(t: Text, rest: Text, i: nat)
    requires i <= |t| && Boundary(rest)
    ensures FractionEnd(t + rest, i) == FractionEnd(t, i)
  {
    if i + 1 < |t| {
      DigitsEndBefore(t, rest, i + 1);
    }
  }

  lemma ExponentEndBefore(t: Text, rest: Text, i: nat)
    requires i <= |t| && Boundary(rest)
    ensures ExponentEnd(t + rest, i) == ExponentEnd(t, i)
  {
    if i < |t| && IsExponentMark(t[i]) {
      DigitsEndBefore(t, rest, i + 1);
      if i + 1 < |t| { DigitsEndBefore(t, rest, i + 2); }
    }
  }

  lemma {:induction false} DigitsEndWithin(t: Text, n: nat, i: nat)
    requires i <= |t| && DigitsEnd(t, i) <= n <= |t|
    ensures DigitsEnd(t[..n], i) == DigitsEnd(t, i)
    decreases |t| - i
  {
    if i < |t| && IsDigit(t[i]) {
      DigitsEndWithin(t, n, i + 1);
    }
  }

  lemma IntegerEndWithin(t: Text, n: nat)
    requires IntegerEnd(t).Some? && IntegerEnd(t).value <= n <= |t|
    ensures IntegerEnd(t[..n]) == IntegerEnd(t)
  {
    var i := if t[0] == MINUS then 1 else 0;
    if t[i] != ZERO {
      DigitsEndWithin(t, n, i + 1);
    }
  }

  lemma FractionEndWithin(t: Text, n: nat, i: nat)
    requires i <= |t| && FractionEnd(t, i) <= n <= |t|
    requires FractionEnd(t, i) == i ==> n == i || t[i] != POINT
    ensures FractionEnd(t[..n], i) == FractionEnd(t, i)
  {
    if FractionEnd(t, i) > i {
      DigitsEndWithin(t, n, i + 1);
      assert DigitsEnd(t, i + 1) > i + 1;
    }
  }

  lemma ExponentEndWithin(t: Text, i: nat)
    requires i <= |t|
    ensures ExponentEnd(t[..ExponentEnd(t, i)], i) == ExponentEnd(t, i)
  {
    var n := ExponentEnd(t, i);
    if n > i {
      var j := if t[i + 1] == PLUS || t[i + 1] == MINUS then i + 2 else i + 1;
      DigitsEndWithin(t, n, j);
    }
  }

  /** The text that a number match covers is a number token. */
  lemma NumberEndWithin(t: Text)
    requires NumberEnd(t).Some?
    ensures
      var n := NumberEnd(t).value;
      NumberEnd(t[..n]) == Some(n)
  {
    hide FractionEnd, ExponentEnd, IntegerEnd;
    var n, i := NumberEnd(t).value, IntegerEnd(t).value;
    IntegerEndWithin(t, n);
    NoPointBeforeExponent(t, i);
    FractionEndWithin(t, n, i);
    ExponentEndWithin(t, FractionEnd(t, i));
  }

  lemma NoPointBeforeExponent(t: Text, i: nat)
    requires i <= |t|
    ensures FractionEnd(t, i) == i && ExponentEnd(t, i) > i ==> t[i] != POINT
  {
  }

  /** Two to the 1024th less two to the 970th: from here on the nearest double is infinite. */
  const OVERFLOW := 179769313486231580793728971405303415079934132710037826936173778980444968292764750946649017977587207096330286416692887910946555547851940402630657488671505820681908902000708383676273854845817711531764475730270069855571366959622842914819860834936475292719074168444365510704342711559699508093042880177904174497792

  function PowerOfTen(n: nat): nat {
    if n == 0 then 1 else 10 * PowerOfTen(n - 1)
  }

  /** The digits of a text read as one number. */
  function DigitsValue(t: Text): nat {
    if t == [] then 0
    else if IsDigit(t[|t| - 1]) then 10 * DigitsValue(t[..|t| - 1]) + (t[|t| - 1] - ZERO)
    else DigitsValue(t[..|t| - 1])
  }

  /** Whether a number token converts to a finite double. */
  predicate IsFinite(t: Text)
    requires NumberEnd(t) == Some(|t|)
  {
    var i := IntegerEnd(t).value;
    var j := FractionEnd(t, i);
    var mantissa := DigitsValue(t[..j]);
    var power := if j < |t| then DigitsValue(t[j..]) else 0;
    var exponent := (if MINUS in t[j..] then -power else power) - if j > i then j - i - 1 else 0;
    if exponent >= 0 then mantissa * PowerOfTen(exponent) < OVERFLOW else mantissa < OVERFLOW * PowerOfTen(-exponent)
  }

  // ----- strings

  /** The end of the string whose opening quote lies before `o`: the first quote that no backslash covers. */
  function StringEnd(t: Text, o: nat): (end: Option<nat>)
    ensures end.Some? ==> o < end.value <= |t| && t[end.value - 1] == QUOTE
    decreases |t| - o
  {
    if o >= |t| then None
    else if t[o] == QUOTE then Some(o + 1)
    else if t[o] == BACKSLASH then StringEnd(t, o + 2)
    else StringEnd(t, o + 1)
  }

  lemma {:induction false} StringEndBefore(t: Text, rest: Text, o: nat)
    requires StringEnd(t, o).Some?
    ensures StringEnd(t + rest, o) == StringEnd(t, o)
    decreases |t| - o
  {
    if t[o] == BACKSLASH {
      StringEndBefore(t, rest, o + 2);
    } else if t[o] != QUOTE {
      StringEndBefore(t, rest, o + 1);
    }
  }

  lemma {:induction false} StringEndWithin(t: Text, o: nat)
    requires StringEnd(t, o).Some?
    ensures StringEnd(t[..StringEnd(t, o).value], o) == StringEnd(t, o)
    decreases |t| - o
  {
    if t[o] == BACKSLASH {
      StringEndWithin(t, o + 2);
    } else if t[o] != QUOTE {
      StringEndWithin(t, o + 1);
    }
  }

  function HexValue(u: Unit): (v: Option<nat>)
    ensures v.Some? ==> v.value < 16
  {
    if IsDigit(u) then Some(u - 0x30)
    else if 0x41 <= u <= 0x46 then Some(u - 0x41 + 10)
    else if 0x61 <= u <= 0x66 then Some(u - 0x61 + 10)
    else None
  }

  /** What the letter after a backslash stands for; `u` is not among these. */
  function ShortEscape(u: Unit): Option<Unit> {
    if u == QUOTE || u == BACKSLASH || u == 0x2F then Some(u)
    else if u == 0x62 then Some(0x08)
    else if u == 0x66 then Some(0x0C)
    else if u == 0x6E then Some(0x0A)
    else if u == 0x72 then Some(0x0D)
    else if u == 0x74 then Some(0x09)
    else None
  }

  /** What the text between the quotes of a string stands for, or None when it is malformed (section 7 of RFC 8259). */
  function Decode(body: Text): Option<Text>
    decreases |body|
  {
    if body == [] then Some([])
    else if body[0] == BACKSLASH then
      if |body| >= 2 && ShortEscape(body[1]).Some? then Prepend(ShortEscape(body[1]).value, Decode(body[2..]))
      else if |body| >= 6 && body[1] == 0x75 && HexUnit(body[2..6]).Some? then
        Prepend(HexUnit(body[2..6]).value, Decode(body[6..]))
      else None
    else if body[0] == QUOTE || body[0] < 0x20 then None
    else Prepend(body[0], Decode(body[1..]))
  }

  function Prepend(u: Unit, rest: Option<Text>): Option<Text> {
    if rest.Some? then Some([u] + rest.value) else None
  }

  function HexUnit(h: Text): Option<Unit>
    requires |h| == 4
  {
    var a, b, c, d := HexValue(h[0]), HexValue(h[1]), HexValue(h[2]), HexValue(h[3]);
    if a.Some? && b.Some? && c.Some? && d.Some? then
      Some(a.value * 0x1000 + b.value * 0x100 + c.value * 0x10 + d.value)
    else None
  }

  /** A string token: quotes around a well-formed body. */
  predicate StringToken(t: Text) {
    |t| >= 2 && t[0] == QUOTE && StringEnd(t, 1) == Some(|t|) && Decode(t[1..|t| - 1]).Some?
  }

  function TokenText(t: Text): Text
    requires StringToken(t)
  {
    Decode(t[1..|t| - 1]).value
  }

  predicate NumberToken(t: Text) {
    NumberEnd(t) == Some(|t|) && IsFinite(t)
  }
}
