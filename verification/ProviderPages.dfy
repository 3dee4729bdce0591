/** Cursor pagination of the scripted provider: page tokens are a prefix, a colon and an offset. */
module ProviderPages {
  import opened Sequences
  import opened Wrappers
  import opened Texts

  const MAX_SAFE_INTEGER := 9007199254740991

  /** The position of the last colon. */
  function LastColon(text: string): (index: Option<nat>)
    ensures index.Some? ==> index.value < |text| && text[index.value] == ':'
    ensures forall i :: (if index.Some? then index.value + 1 else 0) <= i < |text| ==> text[i] != ':'
  {
    if text == "" then None
    else if text[|text| - 1] == ':' then Some(|text| - 1)
    else LastColon(text[..|text| - 1])
  }

  /**
   `Number` on the text behind the colon, as far as it yields a safe non-negative integer. Plain digits
   and the empty text, which counts as zero, are read here; `coerce` answers for every other text that
   JavaScript also takes for a number.
   */
  function OffsetOf(text: string, coerce: string -> Option<nat>): (offset: Option<nat>)
    ensures offset.Some? ==> offset.value <= 9007199254740991
  {
    var value := if AllDigits(text) then Some(NumeralValue(text)) else coerce(text);
    if value.Some? && value.value <= MAX_SAFE_INTEGER then value else None
  }

  /** The offset a request asks for; None refuses the token. */
  function PageOffset(token: Option<string>, prefix: string, coerce: string -> Option<nat>): Option<nat> {
    if token.None? then Some(0)
    else
      var separator := LastColon(token.value);
      if separator.None? || separator.value == 0 || token.value[..separator.value] != prefix then None
      else OffsetOf(token.value[separator.value + 1..], coerce)
  }

  datatype Page<T> = Page(items: seq<T>, nextPageToken: Option<string>)

  function Token(prefix: string, offset: nat): string {
    prefix + ":" + Decimal(offset)
  }

  function ProviderPage<T>(items: seq<T>, offset: nat, pageSize: nat, prefix: string): Page<T> {
    Page(Slice(items, offset, offset + pageSize),
         if offset + pageSize < |items| then Some(Token(prefix, offset + pageSize)) else None)
  }

  // ----- tokens

  lemma {:induction false} LastColonOfConcat(prefix: string, tail: string)
    requires ':' !in tail
    ensures LastColon(prefix + ":" + tail) == Some(|prefix|)
    decreases |tail|
  {
    var text := prefix + ":" + tail;
    if tail != "" {
      assert text[|text| - 1] == tail[|tail| - 1] && tail[|tail| - 1] in tail;
      assert text[..|text| - 1] == prefix + ":" + tail[..|tail| - 1];
      LastColonOfConcat(prefix, tail[..|tail| - 1]);
    }
  }

  /** An issued token decodes to its offset under its own prefix, colons in it or not, and under no other. */
  lemma TokenDecodes(prefix: string, offset: nat, asked: string, coerce: string -> Option<nat>)
    requires prefix != "" && offset <= 9007199254740991
    ensures PageOffset(Some(Token(prefix, offset)), asked, coerce) == if asked == prefix then Some(offset) else None
  {
    hide Decimal, NumeralValue;
    var token, numeral := Token(prefix, offset), Decimal(offset);
    assert forall i :: 0 <= i < |numeral| ==> IsDigit(numeral[i]);
    assert !IsDigit(':');
    LastColonOfConcat(prefix, numeral);
    assert token[..|prefix|] == prefix && token[|prefix| + 1..] == numeral;
    NumeralRoundTrip(offset);
  }

  /** A token that does not start with the prefix and a colon is refused, and every token is when there is no prefix. */
  lemma ForeignTokenIsRefused(token: string, prefix: string, coerce: string -> Option<nat>)
    requires prefix == "" || !(prefix + ":" <= token)
    ensures PageOffset(Some(token), prefix, coerce) == None
  {
    hide OffsetOf, LastColon;
    var separator := LastColon(token);
    if separator.Some? && token[..separator.value] == prefix {
      assert prefix + ":" == token[..separator.value + 1];
    }
  }

  // ----- following the tokens

  /** All pages a client gets that follows the tokens from one on; None when a token on the way is refused. */
  ghost function Following<T>(items: seq<T>, token: Option<string>, pageSize: nat, prefix: string,
                              coerce: string -> Option<nat>): Option<seq<Page<T>>>
    requires pageSize > 0 && prefix != "" && |items| <= MAX_SAFE_INTEGER
    decreases Left(|items|, PageOffset(token, prefix, coerce))
  {
    var offset := PageOffset(token, prefix, coerce);
    if offset.None? then None
    else
      var page := ProviderPage(items, offset.value, pageSize, prefix);
      if page.nextPageToken.None? then Some([page])
      else
        TokenDecodes(prefix, offset.value + pageSize, prefix, coerce);
        var rest := Following(items, page.nextPageToken, pageSize, prefix, coerce);
        if rest.None? then None else Some([page] + rest.value)
  }

  ghost function Left(n: nat, offset: Option<nat>): nat {
    if offset.Some? && offset.value < n then n - offset.value else 0
  }

  ghost function ItemsOf<T>(pages: seq<Page<T>>): seq<T> {
    if pages == [] then [] else pages[0].items + ItemsOf(pages[1..])
  }

  /** The number of pages that `n` items fill, and one page for none. */
  function PageCount(n: nat, pageSize: nat): nat
    requires pageSize > 0
  {
    if n <= pageSize then 1 else 1 + PageCount(n - pageSize, pageSize)
  }

  /**
   The page count is the ceiling of n / pageSize and at least one: that many pages hold the items, and
   one page less would not.
   */
  lemma {:induction false} PageCountIsCeiling(n: nat, pageSize: nat)
    requires pageSize > 0
    ensures PageCount(n, pageSize) >= 1 && n <= PageCount(n, pageSize) * pageSize
    ensures n > 0 ==> (PageCount(n, pageSize) - 1) * pageSize < n
  {
    if n > pageSize {
      PageCountIsCeiling(n - pageSize, pageSize);
      var rest := PageCount(n - pageSize, pageSize);
      assert (1 + rest) * pageSize == pageSize + rest * pageSize;
      assert rest * pageSize == (rest - 1) * pageSize + pageSize;
    }
  }

  lemma {:induction false} PagesHoldTheRest<T>(items: seq<T>, token: Option<string>, pageSize: nat, prefix: string,
                                               coerce: string -> Option<nat>)
    requires pageSize > 0 && prefix != "" && |items| <= MAX_SAFE_INTEGER
    requires PageOffset(token, prefix, coerce).Some? && PageOffset(token, prefix, coerce).value <= |items|
    ensures
      var offset, pages := PageOffset(token, prefix, coerce).value, Following(items, token, pageSize, prefix, coerce);
      pages.Some? && ItemsOf(pages.value) == items[offset..] && |pages.value| == PageCount(|items| - offset, pageSize)
    decreases Left(|items|, PageOffset(token, prefix, coerce))
  {
    hide PageOffset, Token;
    var offset := PageOffset(token, prefix, coerce).value;
    var page := ProviderPage(items, offset, pageSize, prefix);
    if page.nextPageToken.None? {
      assert page.items == items[offset..];
      assert ItemsOf([page]) == page.items + ItemsOf([]);
    } else {
      TokenDecodes(prefix, offset + pageSize, prefix, coerce);
      PagesHoldTheRest(items, page.nextPageToken, pageSize, prefix, coerce);
      var rest := Following(items, page.nextPageToken, pageSize, prefix, coerce).value;
      assert ([page] + rest)[1..] == rest;
      assert page.items + items[offset + pageSize..] == items[offset..];
    }
  }

  /**
   Following the tokens of an unchanged list from the start yields every item once and in order, in as
   many pages as the items fill and one page for an empty list; no token on the way is refused.
   */
  lemma FollowingTokensYieldsEverything<T>(items: seq<T>, pageSize: nat, prefix: string, coerce: string -> Option<nat>)
    requires pageSize > 0 && prefix != "" && |items| <= MAX_SAFE_INTEGER
    ensures
      var pages := Following(items, None, pageSize, prefix, coerce);
      pages.Some? && ItemsOf(pages.value) == items && |pages.value| == PageCount(|items|, pageSize)
  {
    PagesHoldTheRest(items, None, pageSize, prefix, coerce);
  }

  /** A client: it asks for pages until no token comes back. */
  method CollectAll<T>(items: seq<T>, pageSize: nat, prefix: string, coerce: string -> Option<nat>) returns (collected: seq<T>, pages: nat)
    requires pageSize > 0 && prefix != "" && |items| <= MAX_SAFE_INTEGER
    ensures collected == items && pages == PageCount(|items|, pageSize)
  {
    hide Token;
    collected, pages := [], 0;
    var token: Option<string> := None;
    ghost var at: nat := 0;
    var more := true;
    while more
      invariant at <= |items| && collected == items[..at]
      invariant more ==> PageOffset(token, prefix, coerce) == Some(at)
      invariant more ==> pages + PageCount(|items| - at, pageSize) == PageCount(|items|, pageSize)
      invariant !more ==> at == |items| && pages == PageCount(|items|, pageSize)
      decreases more, |items| - at
    {
      var offset := PageOffset(token, prefix, coerce);
      var page := ProviderPage(items, offset.value, pageSize, prefix);
      assert collected + page.items == items[..if at + pageSize < |items| then at + pageSize else |items|];
      collected := collected + page.items;
      pages := pages + 1;
      token := page.nextPageToken;
      more := token.Some?;
      at := if at + pageSize < |items| then at + pageSize else |items|;
      if more { TokenDecodes(prefix, at, prefix, coerce); }
    }
  }
}
