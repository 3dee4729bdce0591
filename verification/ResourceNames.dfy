/** Provider resource names of an accepted catalogue, and the documentation block rendered from one. */
module ResourceNames {
  import opened Wrappers
  import opened Texts
  import opened AnchorText

  const CATALOGUE_VERSION := "google-provider-identifiers-v1"
  const CATALOGUE_PATH := "test-fixtures/" + CATALOGUE_VERSION + ".json"
  const LENGTH_LIMIT := 1024

  datatype Resource =
    | Account(accountId: string)
    | Location(accountId: string, locationId: string)
    | Review(accountId: string, locationId: string, reviewId: string)

  predicate IsAlphanumeric(c: char) { IsDigit(c) || 'a' <= c <= 'z' || 'A' <= c <= 'Z' }

  predicate IsSegmentChar(c: char) { IsAlphanumeric(c) || c == '.' || c == '_' || c == '~' || c == '-' }

  predicate IsSegment(text: string) {
    1 <= |text| <= 255 && IsAlphanumeric(text[0]) && forall i :: 0 < i < |text| ==> IsSegmentChar(text[i])
  }

  // ----- splitting at slashes

  function Split(text: string): (parts: seq<string>)
    ensures parts != []
  {
    if text == "" then [""]
    else
      var rest := Split(text[1..]);
      if text[0] == '/' then [""] + rest else [[text[0]] + rest[0]] + rest[1..]
  }

  function Join(parts: seq<string>): string {
    if parts == [] then "" else if |parts| == 1 then parts[0] else parts[0] + "/" + Join(parts[1..])
  }

  lemma {:induction false} JoinSplit(text: string)
    ensures Join(Split(text)) == text
  {
    if text != "" {
      var rest := Split(text[1..]);
      JoinSplit(text[1..]);
      if text[0] == '/' {
        assert ([""] + rest)[1..] == rest;
      } else {
        assert ([[text[0]] + rest[0]] + rest[1..])[1..] == rest[1..];
      }
    }
  }

  lemma {:induction false} SplitPlain(text: string)
    requires '/' !in text
    ensures Split(text) == [text]
  {
    if text != "" {
      SplitPlain(text[1..]);
      assert [text[0]] + text[1..] == text;
    }
  }

  lemma {:induction false} SplitFirst(part: string, rest: string)
    requires '/' !in part
    ensures Split(part + "/" + rest) == [part] + Split(rest)
  {
    var text := part + "/" + rest;
    if part == "" {
      assert text[1..] == rest;
    } else {
      SplitFirst(part[1..], rest);
      assert text[1..] == part[1..] + "/" + rest;
      assert [part[0]] + part[1..] == part;
    }
  }

  lemma {:induction false} SplitJoin(parts: seq<string>)
    requires parts != [] && forall i :: 0 <= i < |parts| ==> '/' !in parts[i]
    ensures Split(Join(parts)) == parts
  {
    if |parts| == 1 {
      SplitPlain(parts[0]);
    } else {
      SplitJoin(parts[1..]);
      SplitFirst(parts[0], Join(parts[1..]));
      assert [parts[0]] + parts[1..] == parts;
    }
  }

  // ----- resource names

  /**
   The resource that a literal names. The length limit is on UTF-8 bytes; a literal with any character
   beyond ASCII is no resource whatever its length, so counting characters decides the same.
   */
  function ParseResource(literal: string): Option<Resource> {
    if |literal| > LENGTH_LIMIT || !("accounts/" <= literal) then None
    else
      var parts := Split(literal);
      if |parts| == 2 && parts[0] == "accounts" && IsSegment(parts[1]) then Some(Account(parts[1]))
      else if |parts| == 4 && parts[0] == "accounts" && IsSegment(parts[1]) && parts[2] == "locations" && IsSegment(parts[3]) then
        Some(Location(parts[1], parts[3]))
      else if |parts| == 6 && parts[0] == "accounts" && IsSegment(parts[1]) && parts[2] == "locations" && IsSegment(parts[3])
              && parts[4] == "reviews" && IsSegment(parts[5]) then
        Some(Review(parts[1], parts[3], parts[5]))
      else None
  }

  ghost predicate WellFormed(r: Resource) {
    && IsSegment(r.accountId)
    && (!r.Account? ==> IsSegment(r.locationId))
    && (r.Review? ==> IsSegment(r.reviewId))
  }

  function Parts(r: Resource): seq<string> {
    match r
    case Account(a) => ["accounts", a]
    case Location(a, l) => ["accounts", a, "locations", l]
    case Review(a, l, v) => ["accounts", a, "locations", l, "reviews", v]
  }

  function Name(r: Resource): string {
    Join(Parts(r))
  }

  lemma PartsArePlain(r: Resource)
    requires WellFormed(r)
    ensures forall i :: 0 <= i < |Parts(r)| ==> '/' !in Parts(r)[i] && '<' !in Parts(r)[i]
  {
  }

  lemma {:induction false} JoinIsPlain(parts: seq<string>)
    requires forall i :: 0 <= i < |parts| ==> '<' !in parts[i]
    ensures '<' !in Join(parts)
  {
    if |parts| > 1 {
      JoinIsPlain(parts[1..]);
    }
  }

  lemma NameStart(r: Resource)
    ensures "accounts/" <= Name(r)
  {
  }

  /** A literal parses to a resource exactly when it is that resource's name, its segments sound and the whole in bounds. */
  lemma ParsesExactlyNames(literal: string, r: Resource)
    ensures ParseResource(literal) == Some(r) <==> WellFormed(r) && literal == Name(r) && |literal| <= LENGTH_LIMIT
  {
    hide IsSegment, Join, Split;
    if ParseResource(literal) == Some(r) {
      JoinSplit(literal);
      assert Split(literal) == Parts(r);
    }
    if WellFormed(r) && literal == Name(r) && |literal| <= LENGTH_LIMIT {
      PartsArePlain(r);
      SplitJoin(Parts(r));
      NameStart(r);
    }
  }

  ghost predicate Letter(c: char) { 'A' <= c <= 'Z' || 'a' <= c <= 'z' || '0' <= c <= '9' }

  /** One to 255 characters: a letter or digit, then letters, digits, points, underscores, tildes and hyphens. */
  ghost predicate Segment(text: string) {
    && 1 <= |text| <= 255 && Letter(text[0])
    && forall i :: 0 < i < |text| ==> Letter(text[i]) || text[i] in "._~-"
  }

  lemma SegmentRule(text: string)
    ensures IsSegment(text) <==> Segment(text)
  {
  }

  /** The literals that are accepted, written out. */
  lemma AcceptedLiterals(literal: string, a: string, l: string, v: string)
    ensures ParseResource(literal) == Some(Account(a)) <==>
      Segment(a) && literal == "accounts/" + a && |literal| <= 1024
    ensures ParseResource(literal) == Some(Location(a, l)) <==>
      Segment(a) && Segment(l) && literal == "accounts/" + a + "/locations/" + l && |literal| <= 1024
    ensures ParseResource(literal) == Some(Review(a, l, v)) <==>
      && Segment(a) && Segment(l) && Segment(v)
      && literal == "accounts/" + a + "/locations/" + l + "/reviews/" + v && |literal| <= 1024
  {
    hide ParseResource, IsSegment, Segment, Name;
    SegmentRule(a);
    SegmentRule(l);
    SegmentRule(v);
    ParsesExactlyNames(literal, Account(a));
    ParsesExactlyNames(literal, Location(a, l));
    ParsesExactlyNames(literal, Review(a, l, v));
    NamesInFull(a, l, v);
  }

  lemma JoinOn(part: string, rest: seq<string>)
    requires rest != []
    ensures Join([part] + rest) == part + "/" + Join(rest)
  {
    assert ([part] + rest)[1..] == rest;
  }

  /** Joining one pair more in front of a name that goes on. */
  lemma PairInFront(kind: string, id: string, rest: seq<string>)
    requires rest != []
    ensures Join([kind, id] + rest) == (kind + "/") + id + ("/" + Join(rest))
  {
    JoinOn(kind, [id] + rest);
    JoinOn(id, rest);
    assert [kind] + ([id] + rest) == [kind, id] + rest;
    var tail := Join(rest);
    assert kind + "/" + (id + "/" + tail) == (kind + "/") + id + ("/" + tail);
  }

  lemma LastPair(kind: string, id: string)
    ensures Join([kind, id]) == kind + "/" + id
  {
  }

  lemma Slashes()
    ensures "accounts" + "/" == "accounts/" && "locations" + "/" == "locations/"
    ensures "/" + "locations/" == "/locations/" && "/" + "reviews/" == "/reviews/" && "reviews" + "/" == "reviews/"
  {
  }

  lemma NamesInFull(a: string, l: string, v: string)
    ensures Name(Account(a)) == "accounts/" + a
    ensures Name(Location(a, l)) == "accounts/" + a + "/locations/" + l
    ensures Name(Review(a, l, v)) == "accounts/" + a + "/locations/" + l + "/reviews/" + v
  {
    hide Join;
    Slashes();
    LastPair("accounts", a);
    LastPair("locations", l);
    LastPair("reviews", v);
    PairInFront("accounts", a, ["locations", l]);
    PairInFront("locations", l, ["reviews", v]);
    PairInFront("accounts", a, ["locations", l, "reviews", v]);
    assert ["accounts", a] + ["locations", l] == ["accounts", a, "locations", l];
    assert ["locations", l] + ["reviews", v] == ["locations", l, "reviews", v];
    assert ["accounts", a] + ["locations", l, "reviews", v] == ["accounts", a, "locations", l, "reviews", v];
    Regroup("accounts/" + a, "/", "locations/", l, []);
    Regroup("accounts/" + a, "/", "locations/", l, "/" + ("reviews/" + v));
    Regroup("accounts/" + a + "/locations/" + l, "/", "reviews/", v, []);
  }

  lemma Regroup(front: string, slash: string, kind: string, id: string, tail: string)
    ensures front + (slash + (kind + id)) == front + (slash + kind) + id
    ensures front + (slash + (kind + id + tail)) == front + (slash + kind) + id + tail
  {
    assert slash + (kind + id) == slash + kind + id;
    assert slash + (kind + id + tail) == slash + kind + id + tail;
    assert front + (slash + kind + id) == front + (slash + kind) + id;
    assert front + (slash + kind + id + tail) == front + (slash + kind) + id + tail;
  }

  // ----- the documentation block

  const GENERATED_FROM := "\n> Generated from `"
  const SHA := ", SHA-256 `"
  const DO_NOT_EDIT := "`). Do not edit this block.\n"
  const RESOURCE_LINE := "> Canonical synthetic review resource: `"
  const LINE_END := "`.\n"

  function Middle(digest: string, literal: string): string {
    (GENERATED_FROM + CATALOGUE_PATH + "` (" + CATALOGUE_VERSION + SHA)
    + (digest + ((DO_NOT_EDIT + RESOURCE_LINE) + (literal + LINE_END)))
  }

  function RenderDocBlock(digest: string, literal: string): string {
    ANCHOR_START + Middle(digest, literal) + ANCHOR_END
  }

  /** The block in full: the digest stands in its first line and the resource in its second. */
  lemma BlockInFull(digest: string, literal: string)
    ensures
      RenderDocBlock(digest, literal)
      == "<" + "!-- google-provider-identifiers-v1:start --" + ">"
         + (("\n> Generated from `" + ("test-fixtures/" + "google-provider-identifiers-v1" + ".json")
             + "` (" + "google-provider-identifiers-v1" + ", SHA-256 `")
            + (digest
               + (("`). Do not edit this block.\n" + "> Canonical synthetic review resource: `")
                  + (literal + "`.\n"))))
         + ("<" + "!-- google-provider-identifiers-v1:end --" + ">")
  {
    MarkersInFull();
  }

  predicate IsHexDigest(digest: string) {
    |digest| == 64 && forall i :: 0 <= i < |digest| ==> IsDigit(digest[i]) || 'a' <= digest[i] <= 'f'
  }

  lemma FixedTextIsPlain()
    ensures '<' !in GENERATED_FROM + CATALOGUE_PATH + "` (" + CATALOGUE_VERSION + SHA
    ensures '<' !in DO_NOT_EDIT + RESOURCE_LINE && '<' !in LINE_END
  {
    PathIsPlain();
    assert '<' !in GENERATED_FROM && '<' !in "` (" && '<' !in SHA;
    assert '<' !in DO_NOT_EDIT;
    assert '<' !in RESOURCE_LINE;
  }

  lemma PathIsPlain()
    ensures '<' !in CATALOGUE_VERSION && '<' !in CATALOGUE_PATH
  {
  }

  lemma MiddleIsPlain(digest: string, literal: string)
    requires '<' !in digest && '<' !in literal
    ensures '<' !in Middle(digest, literal)
  {
    FixedTextIsPlain();
    var fixed := GENERATED_FROM + CATALOGUE_PATH + "` (" + CATALOGUE_VERSION + SHA;
    Concat(fixed, digest + ((DO_NOT_EDIT + RESOURCE_LINE) + (literal + LINE_END)));
    Concat(digest, (DO_NOT_EDIT + RESOURCE_LINE) + (literal + LINE_END));
    Concat(DO_NOT_EDIT + RESOURCE_LINE, literal + LINE_END);
    Concat(literal, LINE_END);
  }

  lemma Concat(a: string, b: string)
    ensures '<' !in a && '<' !in b ==> '<' !in a + b
  {
  }

  /** The block of an accepted literal has each marker once, at its two ends. */
  lemma RenderedBlockIsABlock(digest: string, literal: string)
    requires IsHexDigest(digest) && ParseResource(literal).Some?
    ensures Block(RenderDocBlock(digest, literal))
  {
    hide Block, Middle, IsSegment, ParseResource;
    var r := ParseResource(literal).value;
    ParsesExactlyNames(literal, r);
    PartsArePlain(r);
    JoinIsPlain(Parts(r));
    MiddleIsPlain(digest, literal);
    PlainMiddleMakesABlock(Middle(digest, literal));
  }

  /** Generating over a generated document gives the document of the later catalogue: regeneration is stable. */
  lemma RegenerationIsStable(document: string, digest: string, literal: string, digest': string, literal': string)
    requires IsHexDigest(digest) && ParseResource(literal).Some?
    requires ReplaceAnchor(document, RenderDocBlock(digest, literal)).Ok?
    ensures
      var once := ReplaceAnchor(document, RenderDocBlock(digest, literal)).value;
      && ReplaceAnchor(once, RenderDocBlock(digest, literal)) == Ok(once)
      && ReplaceAnchor(once, RenderDocBlock(digest', literal')) == ReplaceAnchor(document, RenderDocBlock(digest', literal'))
  {
    hide Block, RenderDocBlock, ReplaceAnchor, ParseResource;
    RenderedBlockIsABlock(digest, literal);
    LastBlockWins(document, RenderDocBlock(digest, literal), RenderDocBlock(digest', literal'));
  }

  /**
   The generator formats the document before it writes it. As long as formatting leaves the block as it is and
   a formatted document unchanged, generating over what was written changes nothing.
   */
  lemma WrittenDocumentIsStable(document: string, digest: string, literal: string, format: string -> string,
                                before: string, after: string)
    requires IsHexDigest(digest) && ParseResource(literal).Some?
    requires ReplaceAnchor(document, RenderDocBlock(digest, literal)).Ok?
    requires
      var block := RenderDocBlock(digest, literal);
      var written := format(ReplaceAnchor(document, block).value);
      written == before + block + after && Clean(before) && Clean(after) && format(written) == written
    ensures
      var block := RenderDocBlock(digest, literal);
      var written := format(ReplaceAnchor(document, block).value);
      ReplaceAnchor(written, block).Ok? && format(ReplaceAnchor(written, block).value) == written
  {
    var block := RenderDocBlock(digest, literal);
    var written := format(ReplaceAnchor(document, block).value);
    RenderedBlockIsABlock(digest, literal);
    ReplacesThePair(written, before, block, after, block);
  }
}
