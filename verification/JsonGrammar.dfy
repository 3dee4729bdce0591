/**
 The texts that the strict reader accepts: JSON of sections 2 to 7 of RFC 8259 with distinct names,
 white space being any run of `\s`. A tree records how a value was written, down to every space.
 */
module JsonGrammar {
  import opened Units
  import opened Wrappers
  import opened JsonText
  import opened JsonReader

  datatype Tree =
    | Scalar(space: Text, token: Text)
    | EmptyArray(space: Text, gap: Text)
    | Array(space: Text, items: Items)
    | EmptyObject(space: Text, gap: Text)
    | Object(space: Text, members: Members)

  datatype Items =
    | LastItem(value: Tree, after: Text)
    | Item(value: Tree, after: Text, rest: Items)

  datatype Members =
    | LastMember(head: Tagged)
    | Member(head: Tagged, rest: Members)

  datatype Tagged = Tagged(before: Text, key: Text, between: Text, value: Tree, after: Text)

  // ----- the text of a tree

  function Print(tree: Tree): Text {
    match tree
    case Scalar(space, token) => space + token
    case EmptyArray(space, gap) => space + ([OPEN_BRACKET] + (gap + [CLOSE_BRACKET]))
    case Array(space, items) => space + ([OPEN_BRACKET] + PrintItems(items))
    case EmptyObject(space, gap) => space + ([OPEN_BRACE] + (gap + [CLOSE_BRACE]))
    case Object(space, members) => space + ([OPEN_BRACE] + PrintMembers(members))
  }

  function PrintItems(items: Items): Text {
    match items
    case LastItem(value, after) => Print(value) + (after + [CLOSE_BRACKET])
    case Item(value, after, rest) => Print(value) + (after + ([COMMA] + PrintItems(rest)))
  }

  function PrintTagged(head: Tagged): Text {
    head.before + (head.key + (head.between + ([COLON] + Print(head.value))))
  }

  function PrintMembers(members: Members): Text {
    match members
    case LastMember(head) => PrintTagged(head) + (head.after + [CLOSE_BRACE])
    case Member(head, rest) => PrintTagged(head) + (head.after + ([COMMA] + PrintMembers(rest)))
  }

  // ----- the value of a tree

  predicate Distinct(members: seq<(Text, Json)>) {
    forall i, j :: 0 <= i < j < |members| ==> members[i].0 != members[j].0
  }

  ghost predicate WellFormed(tree: Tree) {
    && AllSpace(tree.space)
    && match tree
       case Scalar(_, token) => token == TRUE || token == FALSE || token == NULL || StringToken(token) || NumberToken(token)
       case EmptyArray(_, gap) => AllSpace(gap)
       case EmptyObject(_, gap) => AllSpace(gap)
       case Array(_, items) => WellFormedItems(items)
       case Object(_, members) => WellFormedMembers(members) && Distinct(MemberValues(members))
  }

  ghost predicate WellFormedItems(items: Items) {
    WellFormed(items.value) && AllSpace(items.after) && (items.Item? ==> WellFormedItems(items.rest))
  }

  ghost predicate WellFormedTagged(head: Tagged) {
    && AllSpace(head.before) && StringToken(head.key) && AllSpace(head.between)
    && WellFormed(head.value) && AllSpace(head.after)
  }

  ghost predicate WellFormedMembers(members: Members) {
    WellFormedTagged(members.head) && (members.Member? ==> WellFormedMembers(members.rest))
  }

  ghost function TokenValue(token: Text): Json {
    if token == TRUE then Bool(true)
    else if token == FALSE then Bool(false)
    else if token == NULL then Null
    else if StringToken(token) then Str(TokenText(token))
    else Number(token)
  }

  ghost function Value(tree: Tree): Json {
    match tree
    case Scalar(_, token) => TokenValue(token)
    case EmptyArray(_, _) => Arr([])
    case Array(_, items) => Arr(ItemValues(items))
    case EmptyObject(_, _) => Obj([])
    case Object(_, members) => Obj(MemberValues(members))
  }

  ghost function ItemValues(items: Items): seq<Json> {
    [Value(items.value)] + if items.Item? then ItemValues(items.rest) else []
  }

  ghost function TaggedValue(head: Tagged): (Text, Json) {
    (if StringToken(head.key) then TokenText(head.key) else [], Value(head.value))
  }

  ghost function MemberValues(members: Members): seq<(Text, Json)> {
    [TaggedValue(members.head)] + if members.Member? then MemberValues(members.rest) else []
  }

  // ----- every such text is read back

  lemma ReadsString(token: Text, rest: Text)
    requires StringToken(token)
    ensures ReadString(token + rest) == Ok((TokenText(token), rest))
  {
    StringEndBefore(token, rest, 1);
    assert (token + rest)[1..|token| - 1] == token[1..|token| - 1];
    assert (token + rest)[|token|..] == rest;
  }

  lemma ReadsNumber(token: Text, rest: Text)
    requires NumberToken(token) && Boundary(rest)
    ensures ReadScalar(token + rest) == Ok((Number(token), rest))
    ensures token[0] == MINUS || IsDigit(token[0])
  {
    NumberEndBefore(token, rest);
    assert (token + rest)[..|token|] == token;
    assert (token + rest)[|token|..] == rest;
  }

  lemma ReadsKeyword(token: Text, rest: Text)
    requires token == TRUE || token == FALSE || token == NULL
    ensures ReadScalar(token + rest) == Ok((TokenValue(token), rest))
  {
    var t := token + rest;
    assert token <= t && t[|token|..] == rest && t[0] == token[0];
  }

  lemma ReadsScalar(token: Text, rest: Text)
    requires WellFormed(Scalar([], token)) && Boundary(rest)
    ensures ReadValue(token + rest) == Ok((TokenValue(token), rest))
    ensures token != [] && !IsSpace(token[0])
  {
    var t := token + rest;
    if StringToken(token) {
      ReadsString(token, rest);
      assert t[0] == QUOTE && SkipSpace(t) == t;
    } else if NumberToken(token) {
      ReadsNumber(token, rest);
      assert SkipSpace(t) == t;
    } else {
      ReadsKeyword(token, rest);
      assert SkipSpace(t) == t;
    }
  }

  /** Leading white space makes no difference to what is read. */
  lemma ReadsPastSpace(space: Text, t: Text)
    requires AllSpace(space) && (t == [] || !IsSpace(t[0]))
    ensures ReadValue(space + t) == ReadValue(t)
  {
    SkipsAll(space, t);
    SkipsAll([], t);
    assert [] + t == t;
  }

  lemma Reassociate(a: Text, b: Text, c: Text)
    ensures (a + b) + c == a + (b + c)
  {
  }

  /** Printed under any white space, a value with distinct names is read back, and reading stops behind it. */
  lemma {:induction false} ReadsTree(tree: Tree, rest: Text)
    requires WellFormed(tree) && Boundary(rest)
    ensures ReadValue(Print(tree) + rest) == Ok((Value(tree), rest))
    decreases tree, 1
  {
    hide ReadValue, ReadScalar, ReadString, ReadMembers, ReadItems;
    match tree
    case Scalar(space, token) =>
      ReadsScalar(token, rest);
      ReadsPastSpace(space, token + rest);
      Reassociate(space, token, rest);
    case EmptyArray(space, gap) =>
      ReadsBracketed(space, OPEN_BRACKET, gap + [CLOSE_BRACKET], rest);
      SkipsAll(gap, [CLOSE_BRACKET] + rest);
      Reassociate(gap, [CLOSE_BRACKET], rest);
    case EmptyObject(space, gap) =>
      ReadsBracketed(space, OPEN_BRACE, gap + [CLOSE_BRACE], rest);
      SkipsAll(gap, [CLOSE_BRACE] + rest);
      Reassociate(gap, [CLOSE_BRACE], rest);
    case Array(space, items) =>
      ReadsBracketed(space, OPEN_BRACKET, PrintItems(items), rest);
      ReadsItems(items, [], rest);
      NoEarlyClose(items, rest);
      ItemsPastSpace(PrintItems(items) + rest);
      assert [] + ItemValues(items) == ItemValues(items);
    case Object(space, members) =>
      ReadsBracketed(space, OPEN_BRACE, PrintMembers(members), rest);
      assert [] + MemberValues(members) == MemberValues(members);
      ReadsMembers(members, [], rest);
      MembersStartWithKey(members, rest);
      MembersPastSpace(PrintMembers(members) + rest);
  }

  lemma ReadsBracketed(space: Text, open: Unit, inner: Text, rest: Text)
    requires AllSpace(space) && (open == OPEN_BRACKET || open == OPEN_BRACE)
    ensures
      ReadValue(space + ([open] + inner) + rest)
      == if open == OPEN_BRACE then ReadObject(inner + rest) else ReadArray(inner + rest)
  {
    var t := [open] + (inner + rest);
    ReadsPastSpace(space, t);
    assert space + ([open] + inner) + rest == space + t;
    assert t[1..] == inner + rest && SkipSpace(t) == t;
  }

  /** Reading members and items starts by skipping space, so having skipped it before changes nothing. */
  lemma MembersPastSpace(t: Text)
    ensures ReadMembers(SkipSpace(t), []) == ReadMembers(t, [])
  {
  }

  lemma SkipTwice(t: Text)
    ensures SkipSpace(SkipSpace(t)) == SkipSpace(t)
  {
  }

  lemma ItemsPastSpace(t: Text)
    ensures ReadItems(SkipSpace(t), []) == ReadItems(t, [])
  {
  }

  /** The text of a tree is white space and then a character that opens a value. */
  lemma TreeStart(tree: Tree)
    requires WellFormed(tree)
    ensures
      var n := |tree.space|;
      && tree.space <= Print(tree) && n < |Print(tree)|
      && !IsSpace(Print(tree)[n]) && Print(tree)[n] != CLOSE_BRACKET
  {
  }

  lemma NoEarlyClose(items: Items, rest: Text)
    requires WellFormedItems(items)
    ensures
      var s := SkipSpace(PrintItems(items) + rest);
      s != [] && s[0] != CLOSE_BRACKET
  {
    hide Print;
    var p, n, t := Print(items.value), |items.value.space|, PrintItems(items) + rest;
    TreeStart(items.value);
    assert p <= t && t == t[..n] + t[n..] && t[..n] == items.value.space && t[n] == p[n];
    SkipsAll(t[..n], t[n..]);
  }

  lemma MembersStartWithKey(members: Members, rest: Text)
    requires WellFormedMembers(members)
    ensures
      var s := SkipSpace(PrintMembers(members) + rest);
      s != [] && s[0] == QUOTE
  {
    hide Print, StringEnd, Decode;
    var head := members.head;
    var inner := head.between + ([COLON] + Print(head.value));
    var close := if members.LastMember? then [CLOSE_BRACE] else [COMMA] + PrintMembers(members.rest);
    var key := head.key + (inner + (head.after + close) + rest);
    assert PrintMembers(members) + rest == head.before + key;
    assert key[0] == head.key[0];
    SkipsAll(head.before, key);
  }

  lemma AfterValue(after: Text, delimiter: Unit, rest: Text)
    requires AllSpace(after) && delimiter in {COMMA, CLOSE_BRACE, CLOSE_BRACKET}
    ensures SkipSpace(after + ([delimiter] + rest)) == [delimiter] + rest
    ensures Boundary(after + ([delimiter] + rest))
  {
    SkipsAll(after, [delimiter] + rest);
    if after != [] { assert IsSpace(after[0]); }
  }

  lemma {:induction false} ReadsItems(items: Items, read: seq<Json>, rest: Text)
    requires WellFormedItems(items)
    ensures ReadItems(PrintItems(items) + rest, read) == Ok((Arr(read + ItemValues(items)), rest))
    decreases items, 0
  {
    hide ReadValue, ReadItems, Print, Value, WellFormed, SkipSpace, IsSpace, Boundary, AllSpace;
    var p, longer := Print(items.value), read + [Value(items.value)];
    var tail := if items.LastItem? then rest else PrintItems(items.rest) + rest;
    var delimiter := if items.LastItem? then CLOSE_BRACKET else COMMA;
    var behind := items.after + ([delimiter] + tail);
    assert PrintItems(items) + rest == p + behind;
    AfterValue(items.after, delimiter, tail);
    ReadsTree(items.value, behind);
    ItemsUnfold(p + behind, read);
    assert ([delimiter] + tail)[1..] == tail;
    if items.Item? {
      ReadsItems(items.rest, longer, rest);
      assert longer + ItemValues(items.rest) == read + ItemValues(items);
    } else {
      assert longer == read + ItemValues(items);
    }
  }

  lemma ReadsTagged(head: Tagged, names: set<Text>, behind: Text)
    requires WellFormedTagged(head) && TokenText(head.key) !in names
    requires ReadValue(Print(head.value) + behind) == Ok((Value(head.value), behind))
    ensures ReadMember(PrintTagged(head) + behind, names) == Ok((TaggedValue(head), behind))
  {
    hide ReadValue, ReadString, Print, Value, WellFormed, IsSpace, AllSpace, SkipSpace;
    var p := Print(head.value);
    var value := [COLON] + (p + behind);
    var key := head.key + (head.between + value);
    assert PrintTagged(head) + behind == head.before + key;
    NotSpaceAtQuote(key);
    SkipsAll(head.before, key);
    ReadsString(head.key, head.between + value);
    NotSpaceAtColon(value);
    SkipsAll(head.between, value);
    assert value[1..] == p + behind;
  }

  lemma NotSpaceAtQuote(t: Text)
    requires t != [] && t[0] == QUOTE
    ensures !IsSpace(t[0])
  {
  }

  lemma NotSpaceAtColon(t: Text)
    requires t != [] && t[0] == COLON
    ensures !IsSpace(t[0])
  {
  }

  /** The first member stands in front of its delimiter and the rest. */
  lemma MembersText(members: Members, rest: Text)
    ensures
      var head := members.head;
      PrintMembers(members) + rest
      == PrintTagged(head)
         + (head.after
            + (if members.LastMember? then [CLOSE_BRACE] + rest else [COMMA] + (PrintMembers(members.rest) + rest)))
  {
  }

  lemma {:induction false} ReadsMembers(members: Members, read: seq<(Text, Json)>, rest: Text)
    requires WellFormedMembers(members) && Distinct(read + MemberValues(members))
    ensures ReadMembers(PrintMembers(members) + rest, read) == Ok((Obj(read + MemberValues(members)), rest))
    decreases members, 0
  {
    hide ReadValue, ReadMember, ReadMembers, PrintTagged, Print, Value, WellFormed, SkipSpace, IsSpace, Boundary, AllSpace;
    var head := members.head;
    var longer := read + [TaggedValue(head)];
    var tail := if members.LastMember? then rest else PrintMembers(members.rest) + rest;
    var delimiter := if members.LastMember? then CLOSE_BRACE else COMMA;
    var behind := head.after + ([delimiter] + tail);
    MembersText(members, rest);
    AfterValue(head.after, delimiter, tail);
    ReadsTree(head.value, behind);
    NewName(read, members);
    ReadsTagged(head, Names(read), behind);
    MembersUnfold(PrintTagged(head) + behind, read);
    assert ([delimiter] + tail)[1..] == tail;
    if members.Member? {
      assert longer + MemberValues(members.rest) == read + MemberValues(members);
      ReadsMembers(members.rest, longer, rest);
    } else {
      assert longer == read + MemberValues(members);
    }
  }

  lemma NewName(read: seq<(Text, Json)>, members: Members)
    requires WellFormedTagged(members.head) && Distinct(read + MemberValues(members))
    ensures TokenText(members.head.key) !in Names(read)
  {
    hide StringEnd, Decode, WellFormed;
    var all := read + MemberValues(members);
    assert all[|read|] == TaggedValue(members.head);
    assert forall i :: 0 <= i < |read| ==> all[i] == read[i];
  }

  // ----- nothing else is accepted

  lemma {:induction false} SoundScalar(t: Text) returns (token: Text)
    requires ReadScalar(t).Ok?
    ensures WellFormed(Scalar([], token)) && t == token + ReadScalar(t).value.1
    ensures TokenValue(token) == ReadScalar(t).value.0
  {
    hide IsFinite, NumberEnd, StringEnd, Decode;
    token := t[..|t| - |ReadScalar(t).value.1|];
    if !(TRUE <= t || FALSE <= t || NULL <= t) {
      NumberEndWithin(t);
      NumberStart(token);
    }
  }

  lemma NumberStart(token: Text)
    requires NumberEnd(token).Some?
    ensures token[0] == MINUS || IsDigit(token[0])
  {
  }

  lemma SoundString(t: Text) returns (token: Text)
    requires t != [] && t[0] == QUOTE && ReadString(t).Ok?
    ensures StringToken(token) && t == token + ReadString(t).value.1 && TokenText(token) == ReadString(t).value.0
  {
    hide Decode;
    var n := StringEnd(t, 1).value;
    token := t[..n];
    StringEndWithin(t, 1);
    assert token[1..n - 1] == t[1..n - 1];
  }

  /** Whatever is read was printed by some tree of the value that was returned. */
  lemma {:induction false} SoundValue(t: Text) returns (tree: Tree)
    requires ReadValue(t).Ok?
    ensures WellFormed(tree) && t == Print(tree) + ReadValue(t).value.1 && Value(tree) == ReadValue(t).value.0
    decreases |t|, 1
  {
    hide ReadScalar, ReadString, ReadMembers, ReadItems, SkipSpace;
    var space := SkippedSpace(t);
    var s := SkipSpace(t);
    if s != [] && s[0] == OPEN_BRACE {
      tree := SoundObject(space, s[1..]);
      assert s == [OPEN_BRACE] + s[1..];
    } else if s != [] && s[0] == OPEN_BRACKET {
      tree := SoundArray(space, s[1..]);
      assert s == [OPEN_BRACKET] + s[1..];
    } else if s != [] && s[0] == QUOTE {
      var token := SoundString(s);
      tree := Scalar(space, token);
    } else {
      var token := SoundScalar(s);
      tree := Scalar(space, token);
    }
  }

  lemma {:induction false} SoundObject(space: Text, t: Text) returns (tree: Tree)
    requires ReadObject(t).Ok? && AllSpace(space)
    ensures WellFormed(tree) && space + ([OPEN_BRACE] + t) == Print(tree) + ReadObject(t).value.1
    ensures Value(tree) == ReadObject(t).value.0
    decreases |t|, 3
  {
    hide ReadMembers, SkipSpace;
    var gap := SkippedSpace(t);
    var s := SkipSpace(t);
    if s != [] && s[0] == CLOSE_BRACE {
      tree := EmptyObject(space, gap);
      assert t == gap + ([CLOSE_BRACE] + s[1..]);
    } else {
      SkipTwice(t);
      MembersPastSpace(t);
      var members := SoundMembers(t, []);
      assert [] + MemberValues(members) == MemberValues(members);
      tree := Object(space, members);
    }
  }

  lemma {:induction false} SoundArray(space: Text, t: Text) returns (tree: Tree)
    requires ReadArray(t).Ok? && AllSpace(space)
    ensures WellFormed(tree) && space + ([OPEN_BRACKET] + t) == Print(tree) + ReadArray(t).value.1
    ensures Value(tree) == ReadArray(t).value.0
    decreases |t|, 3
  {
    hide ReadItems, SkipSpace;
    var gap := SkippedSpace(t);
    var s := SkipSpace(t);
    if s != [] && s[0] == CLOSE_BRACKET {
      tree := EmptyArray(space, gap);
      assert t == gap + ([CLOSE_BRACKET] + s[1..]);
    } else {
      ItemsPastSpace(t);
      var items := SoundItems(t, []);
      assert [] + ItemValues(items) == ItemValues(items);
      tree := Array(space, items);
    }
  }

  lemma {:induction false} SoundItems(t: Text, read: seq<Json>) returns (items: Items)
    requires ReadItems(t, read).Ok?
    ensures WellFormedItems(items) && t == PrintItems(items) + ReadItems(t, read).value.1
    ensures ReadItems(t, read).value.0 == Arr(read + ItemValues(items))
    decreases |t|, 2
  {
    hide ReadValue, ReadItems, SkipSpace, Print, Value, WellFormed;
    ItemsUnfold(t, read);
    var value := SoundValue(t);
    var behind := ReadValue(t).value.1;
    var after := SkippedSpace(behind);
    var s, longer := SkipSpace(behind), read + [Value(value)];
    assert s == [s[0]] + s[1..];
    if s[0] == CLOSE_BRACKET {
      items := LastItem(value, after);
    } else {
      var rest := SoundItems(s[1..], longer);
      items := Item(value, after, rest);
      assert longer + ItemValues(rest) == read + ItemValues(items);
    }
  }

  lemma {:induction false} SoundTagged(t: Text, names: set<Text>) returns (head: Tagged)
    requires ReadMember(t, names).Ok?
    ensures head.after == [] && WellFormedTagged(head) && t == PrintTagged(head) + ReadMember(t, names).value.1
    ensures TaggedValue(head) == ReadMember(t, names).value.0 && TaggedValue(head).0 !in names
    decreases |t|, 0
  {
    hide ReadValue, ReadString, SkipSpace, Print, Value, WellFormed, StringEnd, Decode;
    var before := SkippedSpace(t);
    var s := SkipSpace(t);
    var key := SoundString(s);
    var between := SkippedSpace(ReadString(s).value.1);
    var colon := SkipSpace(ReadString(s).value.1);
    var value := SoundValue(colon[1..]);
    assert colon == [COLON] + colon[1..];
    head := Tagged(before, key, between, value, []);
  }

  lemma {:induction false} SoundMembers(t: Text, read: seq<(Text, Json)>) returns (members: Members)
    requires ReadMembers(t, read).Ok? && Distinct(read)
    ensures WellFormedMembers(members) && t == PrintMembers(members) + ReadMembers(t, read).value.1
    ensures ReadMembers(t, read).value.0 == Obj(read + MemberValues(members))
    ensures Distinct(read + MemberValues(members))
    decreases |t|, 2
  {
    hide ReadValue, ReadMember, ReadMembers, SkipSpace, PrintTagged, Value, WellFormed, StringToken, Distinct, Names;
    MembersUnfold(t, read);
    var bare := SoundTagged(t, Names(read));
    var behind := ReadMember(t, Names(read)).value.1;
    var after := SkippedSpace(behind);
    var head := bare.(after := after);
    SameTag(bare, after);
    var s, longer := SkipSpace(behind), read + [TaggedValue(head)];
    assert s == [s[0]] + s[1..];
    DistinctAfter(read, TaggedValue(head));
    if s[0] == CLOSE_BRACE {
      members := LastMember(head);
      assert longer == read + MemberValues(members);
    } else {
      var rest := SoundMembers(s[1..], longer);
      members := Member(head, rest);
      assert longer + MemberValues(rest) == read + MemberValues(members);
    }
  }

  lemma DistinctAfter(read: seq<(Text, Json)>, member: (Text, Json))
    requires Distinct(read) && member.0 !in Names(read)
    ensures Distinct(read + [member])
  {
  }

  lemma SameTag(head: Tagged, after: Text)
    ensures PrintTagged(head.(after := after)) == PrintTagged(head)
    ensures TaggedValue(head.(after := after)) == TaggedValue(head)
  {
  }

  // ----- the accepted texts

  /** The texts that write a value: a tree of the value and white space behind it. */
  ghost predicate Writes(tree: Tree, space: Text, source: Text, value: Json) {
    WellFormed(tree) && AllSpace(space) && source == Print(tree) + space && Value(tree) == value
  }

  /** Every text of a value, under any white space, parses to that value. */
  lemma ParseReadsBack(tree: Tree, space: Text)
    requires WellFormed(tree) && AllSpace(space)
    ensures ParseText(Print(tree) + space) == Ok(Value(tree))
  {
    hide ReadValue, Print, Value, WellFormed;
    if space != [] { assert IsSpace(space[0]); }
    ReadsTree(tree, space);
    SkipsAll(space, []);
    assert space + [] == space;
  }

  /** The reader accepts exactly the texts of values, each as the value it writes. */
  lemma ParseAcceptsExactly(source: Text, value: Json)
    ensures ParseText(source) == Ok(value) <==> exists tree, space :: Writes(tree, space, source, value)
  {
    hide ReadValue, Print, Value, WellFormed;
    if ParseText(source) == Ok(value) {
      var tree := SoundValue(source);
      var space := SkippedSpace(ReadValue(source).value.1);
      assert space + [] == space;
      assert Writes(tree, space, source, value);
    }
    if tree, space :| Writes(tree, space, source, value) {
      ParseReadsBack(tree, space);
    }
  }

  /** No object inside the value, at any depth, repeats a name. */
  ghost predicate NoDuplicates(value: Json) {
    match value
    case Arr(items) => forall i :: 0 <= i < |items| ==> NoDuplicates(items[i])
    case Obj(members) => Distinct(members) && forall i :: 0 <= i < |members| ==> NoDuplicates(members[i].1)
    case _ => true
  }

  lemma {:induction false} TreesHaveNoDuplicates(tree: Tree)
    requires WellFormed(tree)
    ensures NoDuplicates(Value(tree))
    decreases tree, 1
  {
    match tree
    case Array(_, items) => ItemsHaveNoDuplicates(items);
    case Object(_, members) => MembersHaveNoDuplicates(members);
    case _ =>
  }

  lemma {:induction false} ItemsHaveNoDuplicates(items: Items)
    requires WellFormedItems(items)
    ensures forall i :: 0 <= i < |ItemValues(items)| ==> NoDuplicates(ItemValues(items)[i])
    decreases items, 0
  {
    TreesHaveNoDuplicates(items.value);
    if items.Item? {
      ItemsHaveNoDuplicates(items.rest);
    }
  }

  lemma {:induction false} MembersHaveNoDuplicates(members: Members)
    requires WellFormedMembers(members)
    ensures forall i :: 0 <= i < |MemberValues(members)| ==> NoDuplicates(MemberValues(members)[i].1)
    decreases members, 0
  {
    TreesHaveNoDuplicates(members.head.value);
    if members.Member? {
      MembersHaveNoDuplicates(members.rest);
    }
  }

  /** An accepted text repeats no name in any object at any depth. */
  lemma AcceptedHasNoDuplicates(source: Text)
    requires ParseText(source).Ok?
    ensures NoDuplicates(ParseText(source).value)
  {
    hide ReadValue, Print, Value, WellFormed, NoDuplicates;
    var tree := SoundValue(source);
    TreesHaveNoDuplicates(tree);
  }

  /** Unlike section 2 of RFC 8259, the reader takes a no-break space as white space between tokens. */
  lemma NoBreakSpaceIsAccepted()
    ensures ParseText([0xA0] + NULL) == Ok(Null)
  {
    var tree := Scalar([0xA0], NULL);
    assert Print(tree) + [] == [0xA0] + NULL;
    ParseReadsBack(tree, []);
  }
}
