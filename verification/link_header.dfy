/**
  `parseLinkHeader` of services/githubService.js: turns a pagination `Link`
  header such as `<https://h/p?page=2>; rel="next", <https://h/p?page=5>; rel="last"`
  into a map from relation name to URL. A simplified reading of the Link
  header field of section 3 of RFC 8288: every comma-separated entry must
  hold exactly one `;`.
 */
module LinkHeader {
  import opened Wrappers
  import opened TextOps
  import opened WrappedMatch

  /** The message thrown when an entry does not split on `;` into two sections. */
  const SplitError: string := "section could not be split on ';'"

  /** Opening literal of the `rel="(.*)"` pattern. */
  const RelOpen: string := "rel=\""

  /**
    Assigning to the `__proto__` property of a plain JavaScript object with a
    string value is ignored by the prototype setter, so a relation of this
    name never appears in the result.
   */
  const ProtoKey: string := "__proto__"

  datatype Link = Link(rel: string, url: string)

  /** The URL section: `<(.*)>` replaced by its contents, then trimmed. */
  function UrlOf(section: string): string {
    Trim(ReplaceWrapped(section, "<", '>'))
  }

  /** The relation section: `rel="(.*)"` replaced by its contents, then trimmed. */
  function RelOf(section: string): string {
    Trim(ReplaceWrapped(section, RelOpen, '"'))
  }

  /** An entry that splits on `;` into exactly two sections. */
  predicate WellFormed(entry: string) {
    Count(entry, ';') == 1
  }

  /** One comma-separated entry; `None` where `parseLinkHeader` throws. */
  function ParseEntry(entry: string): (r: Option<Link>)
    ensures r.None? <==> !WellFormed(entry)
    ensures r.Some? ==> IsTrimmed(r.value.rel) && IsTrimmed(r.value.url)
  {
    var sections := Split(entry, ';');
    if |sections| != 2 then None
    else Some(Link(RelOf(sections[1]), UrlOf(sections[0])))
  }

  /**
    `links[name] = url` on a plain object: the relation gains its URL, replacing
    any earlier one, except that `__proto__` is never added; every other key
    keeps its value.
   */
  function Store(links: map<string, string>, link: Link): (m: map<string, string>)
    ensures forall k :: k in m <==> k in links || (k == link.rel && k != ProtoKey)
    ensures link.rel != ProtoKey ==> m[link.rel] == link.url
    ensures forall k :: k in links && (k != link.rel || k == ProtoKey) ==> m[k] == links[k]
  {
    if link.rel == ProtoKey then links else links[link.rel := link.url]
  }

  /** Storing a link adds at most one key. */
  lemma StoreSize(links: map<string, string>, link: Link)
    ensures |Store(links, link)| <= |links| + 1
  {
    assert Store(links, link).Keys <= links.Keys + {link.rel};
    assert |links.Keys + {link.rel}| <= |links.Keys| + 1;
  }

  /** `ParseEntry` applied to every entry. */
  function ParseEntries(entries: seq<string>): (parsed: seq<Option<Link>>)
    ensures |parsed| == |entries|
    ensures forall i :: 0 <= i < |entries| ==> parsed[i] == ParseEntry(entries[i])
  {
    seq(|entries|, i requires 0 <= i < |entries| => ParseEntry(entries[i]))
  }

  /**
    The `forEach` over the parsed entries: each link is stored in turn, and
    the first malformed entry throws. It fails exactly when some entry is
    malformed, and never holds more keys than there are entries.
   */
  function Collect(parsed: seq<Option<Link>>): (r: Result<map<string, string>, string>)
    ensures r.Failure? <==> exists i :: 0 <= i < |parsed| && parsed[i].None?
    ensures r.Failure? ==> r.error == SplitError
    ensures r.Success? ==> |r.value| <= |parsed|
    decreases |parsed|
  {
    if |parsed| == 0 then Success(map[])
    else
      var prefix := parsed[..|parsed| - 1];
      var rest := Collect(prefix);
      var last := parsed[|parsed| - 1];
      if rest.Failure? then
        rest
      else if last.None? then Failure(SplitError)
      else
        StoreSize(rest.value, last.value);
        Success(Store(rest.value, last.value))
  }

  /** Entry `i` is the last one naming its relation. */
  predicate IsLastFor(parsed: seq<Option<Link>>, i: int)
    requires 0 <= i < |parsed| && parsed[i].Some?
  {
    forall j :: i < j < |parsed| && parsed[j].Some? ==> parsed[j].value.rel != parsed[i].value.rel
  }

  /** `parseLinkHeader(header)`; `None` is an absent header. */
  function ParseLinkHeader(header: Option<string>): (r: Result<map<string, string>, string>)
    ensures header.None? || header == Some("") ==> r == Success(map[])
    ensures header.Some? && header.value != "" ==>
              (r.Failure? <==> exists e :: e in Split(header.value, ',') && !WellFormed(e))
    ensures r.Failure? ==> r.error == SplitError
  {
    if header.None? || |header.value| == 0 then Success(map[])
    else Collect(ParseEntries(Split(header.value, ',')))
  }

  /** The keys of a successful collection are the relations named, except `__proto__`. */
  lemma {:induction false} CollectKeys(parsed: seq<Option<Link>>)
    requires Collect(parsed).Success?
    ensures forall k :: k in Collect(parsed).value <==>
              k != ProtoKey && exists i :: 0 <= i < |parsed| && parsed[i].Some? && parsed[i].value.rel == k
    decreases |parsed|
  {
    if |parsed| > 0 {
      var prefix := parsed[..|parsed| - 1];
      CollectKeys(prefix);
      assert forall i :: 0 <= i < |prefix| ==> prefix[i] == parsed[i];
      var last := parsed[|parsed| - 1];
      forall k | k != ProtoKey && exists i :: 0 <= i < |parsed| && parsed[i].Some? && parsed[i].value.rel == k
        ensures k in Collect(parsed).value
      {
        var i :| 0 <= i < |parsed| && parsed[i].Some? && parsed[i].value.rel == k;
        if i < |prefix| {
          assert prefix[i].value.rel == k;
        }
      }
    }
  }

  /** Last write wins: each relation maps to the URL of the last entry naming it. */
  lemma {:induction false} CollectLastWins(parsed: seq<Option<Link>>, i: int)
    requires Collect(parsed).Success?
    requires 0 <= i < |parsed| && parsed[i].Some? && parsed[i].value.rel != ProtoKey
    requires IsLastFor(parsed, i)
    ensures parsed[i].value.rel in Collect(parsed).value
    ensures Collect(parsed).value[parsed[i].value.rel] == parsed[i].value.url
    decreases |parsed|
  {
    var prefix := parsed[..|parsed| - 1];
    if i < |prefix| {
      assert forall j :: 0 <= j < |prefix| ==> prefix[j] == parsed[j];
      assert IsLastFor(prefix, i);
      CollectLastWins(prefix, i);
    }
  }

  lemma NoSeparatorInWhitespace(w: string)
    requires AllWhitespace(w)
    ensures ';' !in w && ',' !in w
  {
  }

  /** The URL section `<u>`, padded with whitespace, yields `u`. */
  lemma UrlOfPadded(w1: string, u: string, w2: string)
    requires AllWhitespace(w1) && AllWhitespace(w2) && IsTrimmed(u)
    requires SingleLine(u)
    ensures UrlOf(w1 + "<" + u + ">" + w2) == u
  {
    ReplaceWrappedPadded(w1, "<", u, '>', w2);
    TrimPadded(w1, u, w2);
  }

  /** The relation section `rel="n"`, padded with whitespace, yields `n`. */
  lemma RelOfPadded(w1: string, n: string, w2: string)
    requires AllWhitespace(w1) && AllWhitespace(w2) && IsTrimmed(n)
    requires SingleLine(n)
    ensures RelOf(w1 + RelOpen + n + "\"" + w2) == n
  {
    ReplaceWrappedPadded(w1, RelOpen, n, '"', w2);
    TrimPadded(w1, n, w2);
  }

  /** An entry made of two `;`-free sections splits into exactly those sections. */
  lemma SplitEntry(urlSection: string, relSection: string)
    requires ';' !in urlSection && ';' !in relSection
    ensures Split(urlSection + ";" + relSection, ';') == [urlSection, relSection]
  {
    SplitJoin([urlSection, relSection], ';');
    assert Join([urlSection, relSection], ';') == urlSection + ";" + relSection;
  }

  /**
    An entry `<u>; rel="n"`, with any whitespace around either section,
    parses to relation `n` and URL `u`.
   */
  lemma EntryOfPadded(w1: string, u: string, w2: string, w3: string, n: string, w4: string)
    requires AllWhitespace(w1) && AllWhitespace(w2) && AllWhitespace(w3) && AllWhitespace(w4)
    requires IsTrimmed(u) && IsTrimmed(n)
    requires ';' !in u && ';' !in n
    requires SingleLine(u)
    requires SingleLine(n)
    ensures ParseEntry((w1 + "<" + u + ">" + w2) + ";" + (w3 + RelOpen + n + "\"" + w4)) == Some(Link(n, u))
  {
    var urlSection := w1 + "<" + u + ">" + w2;
    var relSection := w3 + RelOpen + n + "\"" + w4;
    NoSeparatorInWhitespace(w1);
    NoSeparatorInWhitespace(w2);
    NoSeparatorInWhitespace(w3);
    NoSeparatorInWhitespace(w4);
    SplitEntry(urlSection, relSection);
    UrlOfPadded(w1, u, w2);
    RelOfPadded(w3, n, w4);
  }

  /** Entry `i` of the header parses and names relation `k`. */
  predicate EntryNames(entries: seq<string>, i: int, k: string)
    requires 0 <= i < |entries|
  {
    ParseEntry(entries[i]).Some? && ParseEntry(entries[i]).value.rel == k
  }

  lemma ParseLinkHeaderUnfold(header: string)
    requires header != ""
    ensures ParseLinkHeader(Some(header)) == Collect(ParseEntries(Split(header, ',')))
  {
  }

  lemma EntriesKeys(entries: seq<string>)
    requires Collect(ParseEntries(entries)).Success?
    ensures forall k :: k in Collect(ParseEntries(entries)).value <==>
              k != ProtoKey && exists i :: 0 <= i < |entries| && EntryNames(entries, i, k)
  {
    var parsed := ParseEntries(entries);
    var links := Collect(parsed).value;
    CollectKeys(parsed);
    forall k | k in links
      ensures exists i :: 0 <= i < |entries| && EntryNames(entries, i, k)
    {
      var i :| 0 <= i < |parsed| && parsed[i].Some? && parsed[i].value.rel == k;
      assert EntryNames(entries, i, k);
    }
    forall k, i | 0 <= i < |entries| && EntryNames(entries, i, k) && k != ProtoKey
      ensures k in links
    {
      assert parsed[i].Some? && parsed[i].value.rel == k;
    }
  }

  /**
    A header whose comma-separated entries all split on `;` into two sections
    parses successfully, and its keys are exactly the relations those entries
    name, except `__proto__`; so there are at most as many keys as entries.
   */
  lemma ParsedKeys(header: string, entries: seq<string>)
    requires header != "" && entries == Split(header, ',')
    requires forall i :: 0 <= i < |entries| ==> WellFormed(entries[i])
    ensures ParseLinkHeader(Some(header)).Success?
    ensures forall k :: k in ParseLinkHeader(Some(header)).value <==>
              k != ProtoKey && exists i :: 0 <= i < |entries| && EntryNames(entries, i, k)
    ensures |ParseLinkHeader(Some(header)).value| <= |entries|
  {
    ParseLinkHeaderUnfold(header);
    assert forall i :: 0 <= i < |entries| ==> ParseEntries(entries)[i].Some?;
    EntriesKeys(entries);
  }

  lemma EntriesLastFor(entries: seq<string>, i: int)
    requires 0 <= i < |entries| && ParseEntry(entries[i]).Some?
    requires forall j :: i < j < |entries| ==> !EntryNames(entries, j, ParseEntry(entries[i]).value.rel)
    ensures IsLastFor(ParseEntries(entries), i)
  {
    var parsed := ParseEntries(entries);
    forall j | i < j < |parsed| && parsed[j].Some?
      ensures parsed[j].value.rel != parsed[i].value.rel
    {
      assert !EntryNames(entries, j, parsed[i].value.rel);
    }
  }

  lemma EntriesLastWins(entries: seq<string>, i: int)
    requires Collect(ParseEntries(entries)).Success?
    requires 0 <= i < |entries| && ParseEntry(entries[i]).Some?
    requires ParseEntry(entries[i]).value.rel != ProtoKey
    requires forall j :: i < j < |entries| ==> !EntryNames(entries, j, ParseEntry(entries[i]).value.rel)
    ensures ParseEntry(entries[i]).value.rel in Collect(ParseEntries(entries)).value
    ensures Collect(ParseEntries(entries)).value[ParseEntry(entries[i]).value.rel] == ParseEntry(entries[i]).value.url
  {
    EntriesLastFor(entries, i);
    CollectLastWins(ParseEntries(entries), i);
  }

  /** Every one of `entries` is free of commas and splits on `;` into two sections. */
  predicate PlainEntries(entries: seq<string>) {
    forall j :: 0 <= j < |entries| ==> ',' !in entries[j] && WellFormed(entries[j])
  }

  /** The entry at `i` parses to `link`, and no later entry names its relation. */
  predicate LastNaming(entries: seq<string>, i: int, link: Link) {
    0 <= i < |entries| && ParseEntry(entries[i]) == Some(link) &&
    forall j :: i < j < |entries| ==> !EntryNames(entries, j, link.rel)
  }

  /**
    In the header made of the comma-separated `entries`, each relation maps to
    the URL of the last entry that names it. Every header is of this form:
    the join of its own split (`JoinSplit`).
   */
  lemma ParsedLastWins(entries: seq<string>, i: int, link: Link)
    requires PlainEntries(entries) && LastNaming(entries, i, link) && link.rel != ProtoKey
    ensures var r := ParseLinkHeader(Some(Join(entries, ',')));
              r.Success? && link.rel in r.value && r.value[link.rel] == link.url
  {
    JoinParses(entries);
    EntriesLastWins(entries, i);
  }

  /** The header joining plain entries parses as those entries do, successfully. */
  lemma JoinParses(entries: seq<string>)
    requires |entries| > 0 && PlainEntries(entries)
    ensures Collect(ParseEntries(entries)).Success?
    ensures ParseLinkHeader(Some(Join(entries, ','))) == Collect(ParseEntries(entries))
  {
    JoinEntries(entries);
    ParseLinkHeaderUnfold(Join(entries, ','));
    assert forall j :: 0 <= j < |entries| ==> ParseEntries(entries)[j].Some?;
  }

  /** Well-formed comma-free entries joined by commas make a non-empty header
      that splits back into them. */
  lemma JoinEntries(entries: seq<string>)
    requires |entries| > 0
    requires forall j :: 0 <= j < |entries| ==> ',' !in entries[j] && WellFormed(entries[j])
    ensures Join(entries, ',') != "" && Split(Join(entries, ','), ',') == entries
  {
    SplitJoin(entries, ',');
    assert ';' in entries[0];
    if |entries| > 1 {
      assert Join(entries, ',') == entries[0] + [','] + Join(entries[1..], ',');
    }
  }

  lemma CollectOne(link: Link)
    ensures Collect([Some(link)]) == Success(Store(map[], link))
  {
    assert [Some(link)][..0] == [];
  }

  lemma CollectTwo(first: Link, second: Link)
    ensures Collect([Some(first), Some(second)]) == Success(Store(Store(map[], first), second))
  {
    assert [Some(first), Some(second)][..1] == [Some(first)];
    CollectOne(first);
  }

  /** The entry texts `<u>; rel="n"` and ` <u>; rel="n"` cut at their `;`. */
  lemma EntryText(u: string, n: string)
    ensures "<" + u + ">; rel=\"" + n + "\"" == ("" + "<" + u + ">" + "") + ";" + (" " + RelOpen + n + "\"" + "")
    ensures " <" + u + ">; rel=\"" + n + "\"" == (" " + "<" + u + ">" + "") + ";" + (" " + RelOpen + n + "\"" + "")
  {
  }

  /** `<u>; rel="n"`, with or without a leading space, parses to `Link(n, u)`. */
  lemma EntryShape(u: string, n: string)
    requires IsTrimmed(u) && IsTrimmed(n) && SingleLine(u) && SingleLine(n)
    requires ';' !in u && ';' !in n
    ensures ParseEntry("<" + u + ">; rel=\"" + n + "\"") == Some(Link(n, u))
    ensures ParseEntry(" <" + u + ">; rel=\"" + n + "\"") == Some(Link(n, u))
  {
    EntryText(u, n);
    EntryOfPadded("", u, "", " ", n, "");
    EntryOfPadded(" ", u, "", " ", n, "");
  }

  lemma EntryShapeHasNoComma(u: string, n: string)
    requires ',' !in u && ',' !in n
    ensures ',' !in "<" + u + ">; rel=\"" + n + "\""
    ensures ',' !in " <" + u + ">; rel=\"" + n + "\""
  {
  }

  lemma HeaderOfOne(entry: string, link: Link)
    requires entry != "" && ',' !in entry && ParseEntry(entry) == Some(link)
    ensures ParseLinkHeader(Some(entry)) == Success(Store(map[], link))
  {
    SplitNoSeparator(entry, ',');
    ParseLinkHeaderUnfold(entry);
    assert ParseEntries([entry]) == [Some(link)];
    CollectOne(link);
  }

  lemma HeaderOfTwo(first: string, second: string, l1: Link, l2: Link)
    requires ',' !in first && ',' !in second
    requires ParseEntry(first) == Some(l1) && ParseEntry(second) == Some(l2)
    ensures ParseLinkHeader(Some(first + [','] + second)) == Success(Store(Store(map[], l1), l2))
  {
    SplitJoin([first, second], ',');
    assert Join([first, second], ',') == first + [','] + second;
    ParseLinkHeaderUnfold(first + [','] + second);
    assert ParseEntries([first, second]) == [Some(l1), Some(l2)];
    CollectTwo(l1, l2);
  }

  /** A header holding the single entry `<u>; rel="n"` parses to `{n: u}`. */
  lemma ParseSingleEntry(u: string, n: string)
    requires IsTrimmed(u) && IsTrimmed(n) && SingleLine(u) && SingleLine(n)
    requires ';' !in u && ';' !in n && ',' !in u && ',' !in n
    requires n != ProtoKey
    ensures ParseLinkHeader(Some("<" + u + ">; rel=\"" + n + "\"")) == Success(map[n := u])
  {
    EntryShape(u, n);
    EntryShapeHasNoComma(u, n);
    HeaderOfOne("<" + u + ">; rel=\"" + n + "\"", Link(n, u));
  }

  /** Of two entries naming the same relation, the later one's URL is kept. */
  lemma ParseRepeatedRel(first: string, second: string, n: string, u1: string, u2: string)
    requires ',' !in first && ',' !in second && n != ProtoKey
    requires ParseEntry(first) == Some(Link(n, u1)) && ParseEntry(second) == Some(Link(n, u2))
    ensures ParseLinkHeader(Some(first + [','] + second)) == Success(map[n := u2])
  {
    HeaderOfTwo(first, second, Link(n, u1), Link(n, u2));
    StoreTwice(n, u1, u2);
  }

  lemma StoreTwice(n: string, u1: string, u2: string)
    requires n != ProtoKey
    ensures Store(Store(map[], Link(n, u1)), Link(n, u2)) == map[n := u2]
  {
  }

  const SearchUrl: string := "https://api.github.com" + "/search/repositories"
  const NextUrl: string := SearchUrl + "?page=2"
  const LastUrl: string := SearchUrl + "?page=34"

  lemma PageUrlIsPlain(query: string)
    requires query == "?page=2" || query == "?page=34"
    ensures IsTrimmed(SearchUrl + query) && SingleLine(SearchUrl + query)
    ensures ';' !in SearchUrl + query && ',' !in SearchUrl + query
  {
    var api, path := "https://api.github.com", "/search/repositories";
    assert ';' !in api && ';' !in path && ';' !in query;
    assert ',' !in api && ',' !in path && ',' !in query;
    assert SingleLine(api) && SingleLine(path) && SingleLine(query);
    SingleLineConcat(api, path);
    SingleLineConcat(api + path, query);
    assert (SearchUrl + query)[0] == 'h';
  }

  /** The header GitHub sends on the first page of a search. */
  lemma ParseFirstPageHeader()
    ensures ParseLinkHeader(Some("<" + NextUrl + ">; rel=\"" + "next" + "\"")) == Success(map["next" := NextUrl])
  {
    PageUrlIsPlain("?page=2");
    ParseSingleEntry(NextUrl, "next");
  }

  /** The header `<u1>; rel="n", <u2>; rel="n"` parses to `{n: u2}`. */
  lemma TwoEntriesSameRel(u1: string, u2: string, n: string)
    requires IsTrimmed(u1) && IsTrimmed(u2) && IsTrimmed(n)
    requires SingleLine(u1) && SingleLine(u2) && SingleLine(n)
    requires ';' !in u1 && ';' !in u2 && ';' !in n && ',' !in u1 && ',' !in u2 && ',' !in n
    requires n != ProtoKey
    ensures ParseLinkHeader(Some(("<" + u1 + ">; rel=\"" + n + "\"") + [','] + (" <" + u2 + ">; rel=\"" + n + "\"")))
            == Success(map[n := u2])
  {
    EntryShape(u1, n);
    EntryShape(u2, n);
    EntryShapeHasNoComma(u1, n);
    EntryShapeHasNoComma(u2, n);
    ParseRepeatedRel("<" + u1 + ">; rel=\"" + n + "\"", " <" + u2 + ">; rel=\"" + n + "\"", n, u1, u2);
  }

  /** Two `next` links: the later one wins. */
  lemma ParseRepeatedNext()
    ensures ParseLinkHeader(Some(("<" + NextUrl + ">; rel=\"" + "next" + "\"") + [','] + (" <" + LastUrl + ">; rel=\"" + "next" + "\"")))
            == Success(map["next" := LastUrl])
  {
    PageUrlIsPlain("?page=2");
    PageUrlIsPlain("?page=34");
    TwoEntriesSameRel(NextUrl, LastUrl, "next");
  }
}
