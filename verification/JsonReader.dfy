/** The strict JSON reader: recursive descent over a mutable offset. */
module JsonReader {
  import opened Units
  import opened Wrappers
  import opened JsonText

  datatype JsonError =
    | TrailingData
    | InvalidJson
    | NonFiniteNumber
    | KeyNotAString
    | DuplicateKey(key: Text)
    | MissingColon(key: Text)
    | ObjectNotSeparated
    | ArrayNotSeparated
    | UnterminatedString
    | MalformedString

  /** A value and the text behind it, or the error that was thrown. */
  type Reading<T> = Result<(T, Text), JsonError>

  function Names(members: seq<(Text, Json)>): set<Text> {
    set i | 0 <= i < |members| :: members[i].0
  }

  // ----- reading as a function of the remaining text

  function ReadString(t: Text): (r: Reading<Text>)
    requires t != [] && t[0] == QUOTE
    ensures r.Ok? ==> |r.value.1| < |t|
  {
    var end := StringEnd(t, 1);
    if end.None? then Err(UnterminatedString)
    else
      var text := Decode(t[1..end.value - 1]);
      if text.None? then Err(MalformedString) else Ok((text.value, t[end.value..]))
  }

  function ReadScalar(t: Text): (r: Reading<Json>)
    ensures r.Ok? ==> |r.value.1| < |t|
  {
    if TRUE <= t then Ok((Bool(true), t[|TRUE|..]))
    else if FALSE <= t then Ok((Bool(false), t[|FALSE|..]))
    else if NULL <= t then Ok((Null, t[|NULL|..]))
    else if NumberEnd(t).None? then Err(InvalidJson)
    else
      var n := NumberEnd(t).value;
      NumberEndWithin(t);
      if IsFinite(t[..n]) then Ok((Number(t[..n]), t[n..])) else Err(NonFiniteNumber)
  }

  function ReadValue(t: Text): (r: Reading<Json>)
    ensures r.Ok? ==> |r.value.1| < |t|
    decreases |t|, 1
  {
    var s := SkipSpace(t);
    if s != [] && s[0] == OPEN_BRACE then ReadObject(s[1..])
    else if s != [] && s[0] == OPEN_BRACKET then ReadArray(s[1..])
    else if s != [] && s[0] == QUOTE then
      var r := ReadString(s);
      if r.Err? then Err(r.error) else Ok((Str(r.value.0), r.value.1))
    else ReadScalar(s)
  }

  function ReadObject(t: Text): (r: Reading<Json>)
    ensures r.Ok? ==> |r.value.1| < |t|
    decreases |t|, 3
  {
    var s := SkipSpace(t);
    if s != [] && s[0] == CLOSE_BRACE then Ok((Obj([]), s[1..])) else ReadMembers(s, [])
  }

  /** One name, its colon and its value; the name must not be among those already read. */
  function ReadMember(t: Text, names: set<Text>): (r: Reading<(Text, Json)>)
    ensures r.Ok? ==> |r.value.1| < |t|
    decreases |t|, 0
  {
    var s := SkipSpace(t);
    if s == [] || s[0] != QUOTE then Err(KeyNotAString)
    else
      var key := ReadString(s);
      if key.Err? then Err(key.error)
      else if key.value.0 in names then Err(DuplicateKey(key.value.0))
      else
        var colon := SkipSpace(key.value.1);
        if colon == [] || colon[0] != COLON then Err(MissingColon(key.value.0))
        else
          var value := ReadValue(colon[1..]);
          if value.Err? then Err(value.error) else Ok(((key.value.0, value.value.0), value.value.1))
  }

  /** The members of an object from the next one on, behind those already read. */
  function ReadMembers(t: Text, read: seq<(Text, Json)>): (r: Reading<Json>)
    ensures r.Ok? ==> |r.value.1| < |t|
    decreases |t|, 2
  {
    var member := ReadMember(t, Names(read));
    if member.Err? then Err(member.error)
    else
      var members, after := read + [member.value.0], SkipSpace(member.value.1);
      if after == [] then Err(ObjectNotSeparated)
      else if after[0] == CLOSE_BRACE then Ok((Obj(members), after[1..]))
      else if after[0] == COMMA then ReadMembers(after[1..], members)
      else Err(ObjectNotSeparated)
  }

  function ReadArray(t: Text): (r: Reading<Json>)
    ensures r.Ok? ==> |r.value.1| < |t|
    decreases |t|, 3
  {
    var s := SkipSpace(t);
    if s != [] && s[0] == CLOSE_BRACKET then Ok((Arr([]), s[1..])) else ReadItems(s, [])
  }

  function ReadItems(t: Text, read: seq<Json>): (r: Reading<Json>)
    ensures r.Ok? ==> |r.value.1| < |t|
    decreases |t|, 2
  {
    var value := ReadValue(t);
    if value.Err? then value
    else
      var items := read + [value.value.0];
      var after := SkipSpace(value.value.1);
      if after == [] then Err(ArrayNotSeparated)
      else if after[0] == CLOSE_BRACKET then Ok((Arr(items), after[1..]))
      else if after[0] == COMMA then ReadItems(after[1..], items)
      else Err(ArrayNotSeparated)
  }

  lemma SkipUnfold(t: Text)
    ensures SkipSpace(t) == if t != [] && IsSpace(t[0]) then SkipSpace(t[1..]) else t
  {
  }

  lemma StringEndUnfold(t: Text, o: nat)
    ensures StringEnd(t, o)
            == if o >= |t| then None
               else if t[o] == QUOTE then Some(o + 1)
               else StringEnd(t, if t[o] == BACKSLASH then o + 2 else o + 1)
  {
  }

  lemma MembersUnfold(t: Text, read: seq<(Text, Json)>)
    ensures
      var member := ReadMember(t, Names(read));
      ReadMembers(t, read)
      == if member.Err? then Err(member.error)
         else
           var members, after := read + [member.value.0], SkipSpace(member.value.1);
           if after == [] then Err(ObjectNotSeparated)
           else if after[0] == CLOSE_BRACE then Ok((Obj(members), after[1..]))
           else if after[0] == COMMA then ReadMembers(after[1..], members)
           else Err(ObjectNotSeparated)
  {
  }

  lemma ItemsUnfold(t: Text, read: seq<Json>)
    ensures
      var value := ReadValue(t);
      ReadItems(t, read)
      == if value.Err? then value
         else
           var items, after := read + [value.value.0], SkipSpace(value.value.1);
           if after == [] then Err(ArrayNotSeparated)
           else if after[0] == CLOSE_BRACKET then Ok((Arr(items), after[1..]))
           else if after[0] == COMMA then ReadItems(after[1..], items)
           else Err(ArrayNotSeparated)
  {
  }

  /** The whole text as one value. */
  function ParseText(source: Text): Result<Json, JsonError> {
    var r := ReadValue(source);
    if r.Err? then Err(r.error)
    else if SkipSpace(r.value.1) != [] then Err(TrailingData)
    else Ok(r.value.0)
  }

  // ----- the reader

  class StrictJsonReader {
    const source: Text
    var offset: nat

    constructor (source: Text)
      ensures this.source == source && offset == 0
    {
      this.source := source;
      offset := 0;
    }

    /** The text that is still to be read. */
    ghost function Rest(): Text
      reads this
    {
      if offset <= |source| then source[offset..] else []
    }

    /** A call that read `t` answers as the function does and stands behind what it read. */
    ghost predicate Agrees<T>(answer: Result<T, JsonError>, reading: Reading<T>)
      reads this
    {
      match reading
      case Ok((value, rest)) => answer == Ok(value) && offset <= |source| && Rest() == rest
      case Err(error) => answer == Err(error)
    }

    method Parse() returns (r: Result<Json, JsonError>)
      requires offset == 0
      modifies this`offset
      ensures r == ParseText(source)
    {
      r := ParseValue();
      if r.Err? { return; }
      SkipWhitespace();
      if offset != |source| { r := Err(TrailingData); }
    }

    method SkipWhitespace()
      requires offset <= |source|
      modifies this`offset
      ensures offset <= |source| && Rest() == SkipSpace(old(Rest()))
    {
      hide IsSpace, SkipSpace;
      while offset < |source| && IsSpace(source[offset])
        invariant offset <= |source|
        invariant SkipSpace(Rest()) == SkipSpace(old(Rest()))
      {
        SkipUnfold(Rest());
        offset := offset + 1;
      }
      SkipUnfold(Rest());
    }

    method ParseString() returns (r: Result<Text, JsonError>)
      requires offset < |source| && source[offset] == QUOTE
      modifies this`offset
      ensures Agrees(r, ReadString(old(Rest())))
    {
      hide Decode, StringEnd;
      ghost var t := Rest();
      var start := offset;
      offset := offset + 1;
      while offset < |source|
        invariant start < offset
        invariant StringEnd(t, offset - start) == StringEnd(t, 1)
      {
        var scalar := source[offset];
        assert scalar == t[offset - start];
        StringEndUnfold(t, offset - start);
        if scalar == QUOTE {
          offset := offset + 1;
          assert t == source[start..];
          assert source[start..][1..offset - start - 1] == source[start + 1..offset - 1];
          var text := Decode(source[start + 1..offset - 1]);
          assert t[offset - start..] == source[offset..];
          return if text.None? then Err(MalformedString) else Ok(text.value);
        }
        if scalar == BACKSLASH { offset := offset + 1; }
        offset := offset + 1;
      }
      StringEndUnfold(t, offset - start);
      r := Err(UnterminatedString);
    }

    /** `startsWith` at the offset. */
    predicate Ahead(token: Text)
      requires offset <= |source|
      reads this
    {
      token <= source[offset..]
    }

    method Advance(n: nat)
      requires offset + n <= |source|
      modifies this`offset
      ensures offset == old(offset) + n && Rest() == old(Rest())[n..]
    {
      offset := offset + n;
    }

    method ParseScalar() returns (r: Result<Json, JsonError>)
      requires offset <= |source|
      modifies this`offset
      ensures Agrees(r, ReadScalar(old(Rest())))
    {
      if Ahead(TRUE) {
        Advance(|TRUE|);
        return Ok(Bool(true));
      }
      if Ahead(FALSE) {
        Advance(|FALSE|);
        return Ok(Bool(false));
      }
      if Ahead(NULL) {
        Advance(|NULL|);
        return Ok(Null);
      }
      var rest := source[offset..];
      var matched := NumberEnd(rest);
      if matched.None? { return Err(InvalidJson); }
      Advance(matched.value);
      NumberEndWithin(rest);
      if !IsFinite(rest[..matched.value]) { return Err(NonFiniteNumber); }
      r := Ok(Number(rest[..matched.value]));
    }

    method ParseValue() returns (r: Result<Json, JsonError>)
      requires offset <= |source|
      modifies this`offset
      ensures Agrees(r, ReadValue(old(Rest())))
      decreases |source| - offset, 1
    {
      SkipWhitespace();
      if offset < |source| && source[offset] == OPEN_BRACE {
        r := ParseObject();
      } else if offset < |source| && source[offset] == OPEN_BRACKET {
        r := ParseArray();
      } else if offset < |source| && source[offset] == QUOTE {
        var text := ParseString();
        r := if text.Ok? then Ok(Str(text.value)) else Err(text.error);
      } else {
        r := ParseScalar();
      }
    }

    /** Takes the next character, when there is one. */
    method Take() returns (u: Option<Unit>)
      requires offset <= |source|
      modifies this`offset
      ensures offset <= |source|
      ensures u == if old(Rest()) == [] then None else Some(old(Rest())[0])
      ensures u.Some? ==> Rest() == old(Rest())[1..]
      ensures |source| - offset == old(|source| - offset) - if u.Some? then 1 else 0
    {
      if offset == |source| { return None; }
      u := Some(source[offset]);
      offset := offset + 1;
    }

    method ParseMember(keys: set<Text>) returns (r: Result<(Text, Json), JsonError>)
      requires offset <= |source|
      modifies this`offset
      ensures Agrees(r, ReadMember(old(Rest()), keys))
      decreases |source| - offset, 2
    {
      hide ReadValue, ReadString, SkipSpace;
      SkipWhitespace();
      if offset == |source| || source[offset] != QUOTE { return Err(KeyNotAString); }
      var key := ParseString();
      if key.Err? { return Err(key.error); }
      if key.value in keys { return Err(DuplicateKey(key.value)); }
      SkipWhitespace();
      var colon := Take();
      if colon != Some(COLON) { return Err(MissingColon(key.value)); }
      var value := ParseValue();
      r := if value.Err? then Err(value.error) else Ok((key.value, value.value));
    }

    method ParseObject() returns (r: Result<Json, JsonError>)
      requires offset < |source|
      modifies this`offset
      ensures Agrees(r, ReadObject(old(Rest())[1..]))
      decreases |source| - offset, 0
    {
      Advance(1);
      var result: seq<(Text, Json)>, keys: set<Text> := [], {};
      assert keys == Names(result);
      hide SkipSpace, ReadMember, ReadMembers, Names;
      SkipWhitespace();
      if offset < |source| && source[offset] == CLOSE_BRACE {
        Advance(1);
        return Ok(Obj(result));
      }
      ghost var reading := ReadMembers(Rest(), []);
      while true
        invariant old(offset) < offset <= |source|
        invariant keys == Names(result)
        invariant ReadMembers(Rest(), result) == reading
        decreases |source| - offset
      {
        MembersUnfold(Rest(), result);
        var member := ParseMember(keys);
        if member.Err? { return Err(member.error); }
        NamesGrow(result, member.value);
        keys := keys + {member.value.0};
        result := result + [member.value];
        SkipWhitespace();
        var delimiter := Take();
        if delimiter == Some(CLOSE_BRACE) { return Ok(Obj(result)); }
        if delimiter != Some(COMMA) { return Err(ObjectNotSeparated); }
      }
    }

    method ParseArray() returns (r: Result<Json, JsonError>)
      requires offset < |source|
      modifies this`offset
      ensures Agrees(r, ReadArray(old(Rest())[1..]))
      decreases |source| - offset, 0
    {
      Advance(1);
      var result: seq<Json> := [];
      hide SkipSpace, ReadValue, ReadItems;
      SkipWhitespace();
      if offset < |source| && source[offset] == CLOSE_BRACKET {
        Advance(1);
        return Ok(Arr(result));
      }
      ghost var reading := ReadItems(Rest(), []);
      while true
        invariant old(offset) < offset <= |source|
        invariant ReadItems(Rest(), result) == reading
        decreases |source| - offset
      {
        ItemsUnfold(Rest(), result);
        var value := ParseValue();
        if value.Err? { return value; }
        result := result + [value.value];
        SkipWhitespace();
        var delimiter := Take();
        if delimiter == Some(CLOSE_BRACKET) { return Ok(Arr(result)); }
        if delimiter != Some(COMMA) { return Err(ArrayNotSeparated); }
      }
    }
  }

  lemma NamesGrow(members: seq<(Text, Json)>, member: (Text, Json))
    ensures Names(members + [member]) == Names(members) + {member.0}
  {
    var longer := members + [member];
    assert longer[|members|].0 == member.0;
    assert forall i :: 0 <= i < |members| ==> longer[i] == members[i];
  }
}
