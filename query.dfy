/** The query side of the search modal: normalising what the user types
    (`handleSearch`) and filtering the corpus against it (`doSearch`). */
module Query {
  import opened Wrappers
  import opened Text
  import opened Filtering

  /** The `frontmatter` of a search entry; the three optional fields may be absent. */
  datatype Frontmatter = Frontmatter(
    title: string,
    description: Option<string>,
    categories: Option<seq<string>>,
    tags: Option<seq<string>>)

  /** One entry of the search corpus. */
  datatype SearchItem = SearchItem(frontmatter: Frontmatter, content: string)

  /** `handleSearch`: drop the first backslash of the input, then lower-case it. */
  function Normalise(value: string): (q: string)
    ensures IsLower(q)
    ensures |q| == |value| - (if '\\' in value then 1 else 0)
    ensures '\\' !in value ==> q == Lower(value)
    ensures '\\' in value ==>
              exists k :: 0 <= k < |value| && value[k] == '\\' && '\\' !in value[..k]
                          && q == Lower(value[..k] + value[k + 1..])
  {
    Lower(ReplaceFirst(value, '\\'))
  }

  /** A string that is already lower-case and has no backslash comes out of
      normalisation unchanged. */
  lemma NormaliseFixesNormal(s: string)
    requires IsLower(s) && '\\' !in s
    ensures Normalise(s) == s
  {
    LowerOfLower(s);
  }

  /** Only the first backslash is dropped: a second one survives, so
      normalising twice can differ from normalising once. */
  lemma NormaliseDropsOnlyFirstBackslash()
    ensures Normalise("a\\\\b") == "a\\b"
    ensures Normalise(Normalise("a\\\\b")) == "ab"
  {
    assert IndexOf("a\\\\b", '\\') == 1;
    assert ReplaceFirst("a\\\\b", '\\') == "a\\b";
    LowerOfLower("a\\b");
    assert IndexOf("a\\b", '\\') == 1;
    assert ReplaceFirst("a\\b", '\\') == "ab";
    LowerOfLower("ab");
  }

  /** The characters a JavaScript `RegExp` gives a meaning other than itself. */
  predicate IsRegexMeta(c: char)
  {
    c in "\\^$.*+?()[]{}|"
  }

  /** A query that `new RegExp(query, "gi")` reads as literal text. */
  predicate IsLiteralPattern(q: string)
  {
    forall i :: 0 <= i < |q| ==> !IsRegexMeta(q[i])
  }

  /** `text.match(new RegExp(pattern, "gi"))` is non-null: for a literal
      pattern, the pattern occurs in the text ignoring ASCII case. */
  function RegexMatch(text: string, pattern: string): (b: bool)
    requires IsLiteralPattern(pattern)
    ensures b <==> Occurs(Lower(pattern), Lower(text))
  {
    Contains(Lower(text), Lower(pattern))
  }

  /** For a lower-case pattern, the regex test on a lower-cased field is plain
      occurrence of the pattern in the lower-cased field. */
  lemma RegexMatchLower(text: string, q: string)
    requires IsLiteralPattern(q)
    ensures IsLower(q) ==> (RegexMatch(Lower(text), q) <==> Occurs(q, Lower(text)))
  {
    if IsLower(q) {
      LowerOfLower(q);
    }
    LowerIdempotent(text);
  }

  /** `field?.toLowerCase().match(regex)` is truthy: an absent field never
      matches, a present one matches when the pattern occurs in it ignoring case. */
  function OptionalMatch(field: Option<string>, pattern: string): (b: bool)
    requires IsLiteralPattern(pattern)
    ensures field.None? ==> !b
    ensures field.Some? ==> (b <==> Occurs(Lower(pattern), Lower(field.value)))
  {
    match field
    case None => false
    case Some(text) =>
      LowerIdempotent(text);
      RegexMatch(Lower(text), pattern)
  }

  /** `list?.join(" ")`: an absent list stays absent, a present one is joined
      with single spaces. */
  function JoinedWords(list: Option<seq<string>>): (r: Option<string>)
    ensures r.None? <==> list.None?
    ensures list.Some? ==> r.value == Join(list.value, " ")
  {
    match list
    case None => None
    case Some(words) => Some(Join(words, " "))
  }

  /** Reference definition of a hit: the query occurs in the lower-cased title,
      description, space-joined categories, space-joined tags or content,
      absent fields contributing nothing. */
  ghost predicate Mentions(item: SearchItem, q: string)
  {
    var fm := item.frontmatter;
    Occurs(q, Lower(fm.title))
    || (fm.description.Some? && Occurs(q, Lower(fm.description.value)))
    || (fm.categories.Some? && Occurs(q, Lower(Join(fm.categories.value, " "))))
    || (fm.tags.Some? && Occurs(q, Lower(Join(fm.tags.value, " "))))
    || Occurs(q, Lower(item.content))
  }

  /** The callback `doSearch` passes to `filter`; for a lower-case query it
      agrees with the reference definition. */
  function ItemMatches(item: SearchItem, pattern: string): (b: bool)
    requires IsLiteralPattern(pattern)
    ensures IsLower(pattern) ==> (b <==> Mentions(item, pattern))
  {
    var fm := item.frontmatter;
    RegexMatchLower(fm.title, pattern);
    RegexMatchLower(item.content, pattern);
    var hit :=
      RegexMatch(Lower(fm.title), pattern)
      || RegexMatch(Lower(item.content), pattern)
      || OptionalMatch(fm.description, pattern)
      || OptionalMatch(JoinedWords(fm.categories), pattern)
      || OptionalMatch(JoinedWords(fm.tags), pattern);
    if IsLower(pattern) then LowerOfLower(pattern); hit else hit
  }

  /** A query found in a single category is found in the item. */
  lemma CategoryHitIsItemHit(item: SearchItem, q: string, k: nat)
    requires IsLiteralPattern(q) && IsLower(q)
    requires item.frontmatter.categories.Some?
    requires k < |item.frontmatter.categories.value|
    requires Occurs(q, Lower(item.frontmatter.categories.value[k]))
    ensures ItemMatches(item, q)
  {
    OccursInJoin(q, item.frontmatter.categories.value, " ", k);
  }

  /** The callback as a function value, for `filter`. */
  function Callback(pattern: string): (keep: SearchItem -> bool)
    requires IsLiteralPattern(pattern)
  {
    item => ItemMatches(item, pattern)
  }

  /** `doSearch`: nothing for the empty query, otherwise the filtered corpus. */
  function DoSearch(data: seq<SearchItem>, searchString: string): (r: seq<SearchItem>)
    requires IsLiteralPattern(searchString)
    ensures searchString == "" ==> r == []
    ensures |r| <= |data|
    ensures forall x :: x in r ==> x in data && ItemMatches(x, searchString)
  {
    if searchString == "" then []
    else
      FilterKeepsAccepted(data, Callback(searchString));
      Filter(data, Callback(searchString))
  }

  /** The result of `doSearch` is an order-preserving selection of the corpus
      whose positions are exactly those of the matching items. */
  lemma DoSearchSelects(data: seq<SearchItem>, q: string)
    requires IsLiteralPattern(q) && q != ""
    ensures IsSelection(DoSearch(data, q), data, Hits(data, Callback(q)))
    ensures forall i :: 0 <= i < |data| ==> (i in Hits(data, Callback(q)) <==> ItemMatches(data[i], q))
  {
    FilterAtHits(data, Callback(q));
    HitsAreAccepted(data, Callback(q));
  }

  /** For a non-empty normalised query, an item is in the result iff it is in
      the corpus and mentions the query in one of its five fields. */
  lemma DoSearchMembership(data: seq<SearchItem>, q: string, x: SearchItem)
    requires IsLiteralPattern(q) && IsLower(q) && q != ""
    ensures x in DoSearch(data, q) <==> x in data && Mentions(x, q)
  {
    if x in data && ItemMatches(x, q) {
      var i :| 0 <= i < |data| && data[i] == x;
      DoSearchSelects(data, q);
      var k :| 0 <= k < |Hits(data, Callback(q))| && Hits(data, Callback(q))[k] == i;
      assert DoSearch(data, q)[k] == x;
    }
  }

  /** No item is added or duplicated: each item occurs in the result as often
      as in the corpus when it matches a non-empty query, and never otherwise. */
  lemma DoSearchCount(data: seq<SearchItem>, q: string, x: SearchItem)
    requires IsLiteralPattern(q)
    ensures multiset(DoSearch(data, q))[x] == if q != "" && ItemMatches(x, q) then multiset(data)[x] else 0
  {
    if q != "" {
      FilterCount(data, Callback(q), x);
    }
  }

  /** The whole render step: the corpus filtered by the normalised input.
      An input that normalises to nothing (empty, or one lone backslash)
      finds nothing, whatever the corpus. */
  function Search(data: seq<SearchItem>, value: string): (r: seq<SearchItem>)
    requires IsLiteralPattern(Normalise(value))
    ensures |value| <= 1 && (value == "" || value[0] == '\\') ==> r == []
    ensures forall x :: x in r ==> x in data
  {
    DoSearch(data, Normalise(value))
  }
}
