/**
 The route comparison of the route-based tag helpers. A match string lists
 entries separated by ';'. An entry is either `base` or `base[name=value]`.
 The comparison holds when some entry's base equals the current route value
 (area, controller, action or page), ignoring case, and, for a bracketed
 entry, the query parameter `name` also equals `value`, ignoring case.
 */
module RouteMatch {
  import opened Results
  import opened Text
  import opened Requests

  datatype RouteOption = Area | Controller | Action | Page

  /** `option.ToString()`. */
  function OptionName(option: RouteOption): string {
    match option
    case Area => "Area"
    case Controller => "Controller"
    case Action => "Action"
    case Page => "Page"
  }

  /** The route-value key: the option's name, lower-cased. */
  function RouteKey(option: RouteOption): (k: string)
    ensures option == Area ==> k == "area"
    ensures option == Controller ==> k == "controller"
    ensures option == Action ==> k == "action"
    ensures option == Page ==> k == "page"
  {
    Lower(OptionName(option))
  }

  /** The current route values that are strings, keyed by lower-cased name
      (the host's route-value dictionary ignores case). A value that is
      missing, or is not a string, reads as null through `as string`. */
  type RouteValues = m: map<string, string> | forall k | k in m :: Lower(k) == k

  function RouteValue(values: RouteValues, option: RouteOption): Option<string> {
    if RouteKey(option) in values then Some(values[RouteKey(option)]) else None
  }

  // ---------------------------------------------------------------------
  // Entries
  // ---------------------------------------------------------------------

  /** A page entry gets a leading '/' unless it has one. */
  function NormalisePage(entry: string): (r: string)
    requires entry != ""
    ensures r != "" && r[0] == '/'
    ensures r == entry || r == "/" + entry
    ensures entry[0] == '/' <==> r == entry
  {
    if entry[0] != '/' then "/" + entry else entry
  }

  /** The entries of a match string as the comparison sees them: pages
      normalised, every other option left alone. */
  function Normalise(option: RouteOption, entries: seq<string>): (r: seq<string>)
    requires forall k | 0 <= k < |entries| :: entries[k] != ""
    ensures |r| == |entries|
    ensures forall k | 0 <= k < |r| :: r[k] != ""
    ensures option == Page ==> forall k | 0 <= k < |r| :: r[k][0] == '/' && (entries[k][0] == '/' ==> r[k] == entries[k])
    ensures option == Page ==> forall k | 0 <= k < |r| :: entries[k][0] != '/' ==> r[k] == "/" + entries[k]
    ensures option != Page ==> r == entries
  {
    if option == Page
    then seq(|entries|, k requires 0 <= k < |entries| => NormalisePage(entries[k]))
    else entries
  }

  /** Normalising twice is normalising once. */
  lemma {:induction false} NormaliseIdempotent(option: RouteOption, entries: seq<string>)
    requires forall k | 0 <= k < |entries| :: entries[k] != ""
    ensures Normalise(option, Normalise(option, entries)) == Normalise(option, entries)
  {
  }

  /** A parsed entry (`EnhancedMatch`): a base alone, or a base with a query
      parameter condition, both name and value lower-cased. */
  datatype EnhancedMatch =
    | Plain(baseMatch: string)
    | WithQuery(baseMatch: string, queryParamName: string, queryParamValue: string)

  /** The two ways a bracketed entry makes the comparison throw. */
  datatype RouteError =
      /** No ']' after the first '[': `Substring` is asked for a negative length. */
    | BracketsOutOfOrder(entry: string)
      /** No '=' between the brackets: the split has no second part. */
    | MissingEquals(entry: string)

  /** The text between the first '[' and the last ']', when the last ']'
      comes after the first '['. */
  function BracketText(entry: string): string
    requires '[' in entry && IndexOf(entry, '[') < LastIndexOf(entry, ']')
  {
    entry[IndexOf(entry, '[') + 1..LastIndexOf(entry, ']')]
  }

  /** The text of `s` up to its first '=', or all of it. */
  function UpToEquals(s: string): (r: string)
    ensures '=' !in r
    ensures r <= s
    ensures '=' !in s ==> r == s
    ensures '=' in s ==> |r| < |s| && s[|r|] == '='
  {
    var i := IndexOf(s, '=');
    if i < 0 then s else s[..i]
  }

  /** How one entry of the list is turned into a match (see `ParseEntryErrors`
      and `ParseEntryParts` for what it yields). */
  function ParseEntry(entry: string): (r: Result<EnhancedMatch, RouteError>)
    ensures '[' !in entry ==> r == Ok(Plain(entry))
  {
    if '[' !in entry then Ok(Plain(entry))
    else
      var matchStart := IndexOf(entry, '[') + 1;
      var matchEnd := LastIndexOf(entry, ']');
      if matchEnd - matchStart < 0 then Err(BracketsOutOfOrder(entry))
      else
        var matchSplit := Split(entry[matchStart..matchEnd], '=');
        if |matchSplit| < 2 then Err(MissingEquals(entry))
        else Ok(WithQuery(entry[..matchStart - 1], Lower(matchSplit[0]), Lower(matchSplit[1])))
  }

  /** A bracketed entry throws exactly when no ']' follows its first '[', or
      when the text between the first '[' and the last ']' has no '='. */
  lemma {:induction false} ParseEntryErrors(entry: string)
    ensures ParseEntry(entry) == Err(BracketsOutOfOrder(entry))
            <==> '[' in entry && LastIndexOf(entry, ']') <= IndexOf(entry, '[')
    ensures ParseEntry(entry) == Err(MissingEquals(entry))
            <==> '[' in entry && IndexOf(entry, '[') < LastIndexOf(entry, ']')
                 && '=' !in BracketText(entry)
    ensures ParseEntry(entry).Err? ==> '[' in entry
  {
    if '[' in entry && IndexOf(entry, '[') < LastIndexOf(entry, ']') {
      SplitHead(BracketText(entry), '=');
    }
  }

  /** A well-formed bracketed entry yields the text before the first '[' as
      its base, and the lower-cased text before the first '=' and between the
      first and the second '=' of the bracket text as name and value. */
  lemma {:induction false} ParseEntryParts(entry: string)
    requires '[' in entry && ParseEntry(entry).Ok?
    ensures IndexOf(entry, '[') < LastIndexOf(entry, ']') && '=' in BracketText(entry)
    ensures var inner := BracketText(entry);
            var eq := IndexOf(inner, '=');
            ParseEntry(entry)
            == Ok(WithQuery(entry[..IndexOf(entry, '[')], Lower(inner[..eq]), Lower(UpToEquals(inner[eq + 1..]))))
  {
    ParseEntryShape(entry);
    SplitHead(BracketText(entry), '=');
  }

  /** A well-formed bracketed entry, in terms of the split of its bracket text. */
  lemma {:induction false} ParseEntryShape(entry: string)
    requires '[' in entry && ParseEntry(entry).Ok?
    ensures IndexOf(entry, '[') < LastIndexOf(entry, ']')
    ensures |Split(BracketText(entry), '=')| >= 2
    ensures ParseEntry(entry)
            == Ok(WithQuery(entry[..IndexOf(entry, '[')],
                            Lower(Split(BracketText(entry), '=')[0]),
                            Lower(Split(BracketText(entry), '=')[1])))
  {
  }

  /** The first two parts of a split are the text before the first separator
      and the text after it up to the next separator; there are two parts
      exactly when the separator occurs. */
  lemma {:induction false} SplitHead(s: string, sep: char)
    ensures |Split(s, sep)| >= 2 <==> sep in s
    ensures sep in s ==> Split(s, sep)[0] == s[..IndexOf(s, sep)]
    ensures sep in s ==>
              var rest := s[IndexOf(s, sep) + 1..];
              Split(s, sep)[1] == (if sep in rest then rest[..IndexOf(rest, sep)] else rest)
  {
    var i := IndexOf(s, sep);
    if 0 <= i {
      var rest := s[i + 1..];
      var tail := Split(rest, sep);
      assert Split(s, sep) == [s[..i]] + tail;
      assert tail[0] == if sep in rest then rest[..IndexOf(rest, sep)] else rest;
    } else {
      assert Split(s, sep) == [s];
    }
  }

  /** A rendered entry `base[name=value]` parses back to its parts. */
  lemma {:induction false} ParseRendered(base: string, name: string, value: string)
    requires '[' !in base && '=' !in name && '=' !in value
    ensures ParseEntry(base + "[" + name + "=" + value + "]")
            == Ok(WithQuery(base, Lower(name), Lower(value)))
  {
    var entry := base + "[" + name + "=" + value + "]";
    var inner := name + "=" + value;
    RenderedBrackets(base, name, value);
    ParseEntryErrors(entry);
    ParseEntryParts(entry);
    IndexOfAfter(name, '=', value);
    assert UpToEquals(value) == value;
  }

  /** Where the brackets of a rendered entry are, and what they enclose. */
  lemma {:induction false} RenderedBrackets(base: string, name: string, value: string)
    requires '[' !in base
    ensures var entry := base + "[" + name + "=" + value + "]";
            && '[' in entry
            && IndexOf(entry, '[') == |base|
            && LastIndexOf(entry, ']') == |entry| - 1
            && |base| < |entry| - 1
            && entry[..|base|] == base
            && BracketText(entry) == name + "=" + value
  {
    var entry := base + "[" + name + "=" + value + "]";
    IndexOfAfter(base, '[', name + "=" + value + "]");
    assert entry == base + ['['] + (name + "=" + value + "]");
    assert entry[|base|] == '[';
    assert entry[|entry| - 1] == ']';
    assert entry[|base| + 1..|entry| - 1] == name + "=" + value;
  }

  /** Entry `k` is the first one that does not parse. */
  predicate FirstFailure(entries: seq<string>, k: int)
    requires 0 <= k < |entries|
  {
    ParseEntry(entries[k]).Err? && forall j | 0 <= j < k :: ParseEntry(entries[j]).Ok?
  }

  /** Parse every entry, in order; the first malformed one stops the parse. */
  function ParseAll(entries: seq<string>): (r: Result<seq<EnhancedMatch>, RouteError>)
    ensures r.Ok? <==> forall k | 0 <= k < |entries| :: ParseEntry(entries[k]).Ok?
    ensures r.Ok? ==> |r.value| == |entries|
                      && forall k | 0 <= k < |entries| :: ParseEntry(entries[k]) == Ok(r.value[k])
    ensures r.Err? ==> exists k | 0 <= k < |entries| :: FirstFailure(entries, k) && ParseEntry(entries[k]) == Err(r.error)
  {
    var results := seq(|entries|, k requires 0 <= k < |entries| => ParseEntry(entries[k]));
    assert forall k | 0 <= k < |entries| :: results[k] == ParseEntry(entries[k]);
    var r := Collect(results);
    if r.Err? then FirstFailureOf(entries, results, r.error); r else r
  }

  lemma {:induction false} FirstFailureOf(entries: seq<string>, results: seq<Result<EnhancedMatch, RouteError>>, e: RouteError)
    requires |results| == |entries|
    requires forall k | 0 <= k < |entries| :: results[k] == ParseEntry(entries[k])
    requires exists k :: FirstErrAt(results, k, e)
    ensures exists k | 0 <= k < |entries| :: FirstFailure(entries, k) && ParseEntry(entries[k]) == Err(e)
  {
    var k :| FirstErrAt(results, k, e);
    assert FirstFailure(entries, k);
  }

  // ---------------------------------------------------------------------
  // The comparison
  // ---------------------------------------------------------------------

  /** Whether one parsed entry matches the route value and the query. */
  predicate Hit(routeValue: Option<string>, m: EnhancedMatch, query: Collection) {
    match m
    case Plain(b) => EqualsIgnoreCase(routeValue, Some(b))
    case WithQuery(b, name, value) =>
      EqualsIgnoreCase(routeValue, Some(b)) && EqualsIgnoreCase(QueryValue(query, name), Some(value))
  }

  /** Whether an entry parses. */
  predicate Parses(entry: string) {
    ParseEntry(entry).Ok?
  }

  /** Whether an entry parses and then matches. */
  predicate EntryHits(routeValue: Option<string>, entry: string, query: Collection) {
    ParseEntry(entry).Ok? && Hit(routeValue, ParseEntry(entry).value, query)
  }

  /** The comparison over a list of entries, as the tag helper runs it: a
      list without any '[' is compared on bases alone; otherwise every entry
      is parsed first, and then some parsed entry must hit. */
  function MatchEntries(routeValue: Option<string>, entries: seq<string>, query: Collection)
    : (r: Result<bool, RouteError>)
    ensures r.Ok? <==> forall k | 0 <= k < |entries| :: Parses(entries[k])
    ensures r.Ok? ==> (r.value <==> exists k | 0 <= k < |entries| :: EntryHits(routeValue, entries[k], query))
    ensures r.Err? ==> exists k | 0 <= k < |entries| :: FirstFailure(entries, k) && ParseEntry(entries[k]) == Err(r.error)
  {
    if forall k | 0 <= k < |entries| :: '[' !in entries[k] then
      Ok(exists k | 0 <= k < |entries| :: EqualsIgnoreCase(routeValue, Some(entries[k])))
    else
      match ParseAll(entries)
      case Err(e) => Err(e)
      case Ok(ms) => Ok(exists k | 0 <= k < |ms| :: Hit(routeValue, ms[k], query))
  }

  /** The comparison `AddRouteMatch` registers, for the current route values,
      match string and query. A match string without '[' never throws, and a
      missing route value never matches. */
  function Matches(option: RouteOption, values: RouteValues, matchTo: string, query: Collection)
    : (r: Result<bool, RouteError>)
    ensures '[' !in matchTo ==> r.Ok?
    ensures r.Ok? && r.value ==> RouteValue(values, option).Some?
  {
    var routeValue := RouteValue(values, option);
    var entries := Normalise(option, SplitEntries(matchTo, ';'));
    MissingValueNeverHits(entries, query);
    BracketFreeNoThrow(option, matchTo, routeValue, query);
    MatchEntries(routeValue, entries, query)
  }

  /** A match string without '[' gives a list that does not throw. */
  lemma {:induction false} BracketFreeNoThrow(option: RouteOption, matchTo: string, routeValue: Option<string>, query: Collection)
    ensures '[' !in matchTo ==> MatchEntries(routeValue, Normalise(option, SplitEntries(matchTo, ';')), query).Ok?
  {
    if '[' !in matchTo {
      NoBrackets(option, matchTo);
      AllParseNoThrow(routeValue, Normalise(option, SplitEntries(matchTo, ';')), query);
    }
  }

  /** Without a route value no entry hits. */
  lemma {:induction false} MissingValueNeverHits(entries: seq<string>, query: Collection)
    ensures MatchEntries(None, entries, query) != Ok(true)
  {
    assert forall k | 0 <= k < |entries| :: !EntryHits(None, entries[k], query);
  }

  /** A list whose entries all parse does not throw. */
  lemma {:induction false} AllParseNoThrow(routeValue: Option<string>, entries: seq<string>, query: Collection)
    requires forall k | 0 <= k < |entries| :: Parses(entries[k])
    ensures MatchEntries(routeValue, entries, query).Ok?
  {
  }

  /** The registered comparison is the comparison of the match string's
      entries, split on ';' and normalised for pages, so `MatchEntries`'
      characterisation applies to it. */
  lemma {:induction false} MatchesEntries(option: RouteOption, values: RouteValues, matchTo: string, query: Collection)
    ensures Matches(option, values, matchTo, query)
            == MatchEntries(RouteValue(values, option), Normalise(option, SplitEntries(matchTo, ';')), query)
  {
  }

  /** The entries of a match string without '[' have no '[' either, pages
      included. */
  lemma {:induction false} NoBrackets(option: RouteOption, matchTo: string)
    requires '[' !in matchTo
    ensures forall k | 0 <= k < |Normalise(option, SplitEntries(matchTo, ';'))| ::
              Parses(Normalise(option, SplitEntries(matchTo, ';'))[k])
  {
    SplitKeepsAbsent(matchTo, ';', '[');
    var entries := SplitEntries(matchTo, ';');
    var normal := Normalise(option, entries);
    forall k | 0 <= k < |normal| ensures Parses(normal[k]) {
      assert entries[k] in Split(matchTo, ';');
      assert '[' !in entries[k];
      assert normal[k] == entries[k] || normal[k] == "/" + entries[k];
      assert '[' !in normal[k];
    }
  }

  /** A single page entry without a leading '/' is compared with '/' put in
      front of it. */
  lemma {:induction false} PageEntryGetsSlash(values: RouteValues, entry: string, query: Collection)
    requires entry != "" && entry[0] != '/' && '[' !in entry && ';' !in entry
    ensures Matches(Page, values, entry, query) == Ok(EqualsIgnoreCase(RouteValue(values, Page), Some("/" + entry)))
  {
    SingleEntry(entry, ';');
    var normal := Normalise(Page, [entry]);
    assert normal == ["/" + entry];
    assert '[' !in "/" + entry;
    PlainEntries(RouteValue(values, Page), normal, query);
    assert normal[0] == "/" + entry;
  }

  // ---------------------------------------------------------------------
  // Properties
  // ---------------------------------------------------------------------

  /** An empty match string, or one of ';' alone, never matches. */
  lemma {:induction false} NothingButSeparatorsNeverMatches(option: RouteOption, values: RouteValues, matchTo: string, query: Collection)
    requires forall i | 0 <= i < |matchTo| :: matchTo[i] == ';'
    ensures Matches(option, values, matchTo, query) == Ok(false)
  {
    SplitEntriesEmpty(matchTo, ';');
  }

  /** Without brackets the comparison asks only whether some entry equals
      the route value, ignoring case. */
  lemma {:induction false} PlainEntries(routeValue: Option<string>, entries: seq<string>, query: Collection)
    requires forall k | 0 <= k < |entries| :: '[' !in entries[k]
    ensures MatchEntries(routeValue, entries, query)
            == Ok(exists k | 0 <= k < |entries| :: EqualsIgnoreCase(routeValue, Some(entries[k])))
  {
  }

  /** A single bracketed entry matches exactly when its base equals the route
      value and the query parameter equals its value, both ignoring case. */
  lemma {:induction false} BracketedEntry(routeValue: Option<string>, base: string, name: string, value: string, query: Collection)
    requires '[' !in base && '=' !in name && '=' !in value
    ensures MatchEntries(routeValue, [base + "[" + name + "=" + value + "]"], query)
            == Ok(EqualsIgnoreCase(routeValue, Some(base))
                  && EqualsIgnoreCase(QueryValue(query, Lower(name)), Some(value)))
  {
    var entry := base + "[" + name + "=" + value + "]";
    var m := WithQuery(base, Lower(name), Lower(value));
    ParseRendered(base, name, value);
    var r := MatchEntries(routeValue, [entry], query);
    assert [entry][0] == entry;
    assert r.Ok?;
    assert r.value <==> Hit(routeValue, m, query);
    LowerIdempotent(value);
    assert EqualsIgnoreCase(QueryValue(query, Lower(name)), Some(Lower(value)))
           <==> EqualsIgnoreCase(QueryValue(query, Lower(name)), Some(value));
  }

  /** Reordering the entries changes neither whether the comparison throws
      nor its answer. */
  lemma {:induction false} ReorderingKeepsResult(routeValue: Option<string>, a: seq<string>, b: seq<string>, query: Collection)
    requires multiset(a) == multiset(b)
    ensures MatchEntries(routeValue, a, query).Ok? == MatchEntries(routeValue, b, query).Ok?
    ensures MatchEntries(routeValue, a, query).Ok? ==>
              MatchEntries(routeValue, a, query).value == MatchEntries(routeValue, b, query).value
  {
    assert forall e :: e in a <==> e in b by {
      forall e ensures e in a <==> e in b {
        assert e in a <==> e in multiset(a);
        assert e in b <==> e in multiset(b);
      }
    }
    SameEntriesSameResult(routeValue, a, b, query);
  }

  /** Only which entries occur matters, not where or how often. */
  lemma {:induction false} SameEntriesSameResult(routeValue: Option<string>, a: seq<string>, b: seq<string>, query: Collection)
    requires forall e :: e in a <==> e in b
    ensures MatchEntries(routeValue, a, query).Ok? == MatchEntries(routeValue, b, query).Ok?
    ensures MatchEntries(routeValue, a, query).Ok? ==>
              MatchEntries(routeValue, a, query).value == MatchEntries(routeValue, b, query).value
  {
    SameEntriesOneWay(routeValue, a, b, query);
    SameEntriesOneWay(routeValue, b, a, query);
  }

  lemma {:induction false} SameEntriesOneWay(routeValue: Option<string>, a: seq<string>, b: seq<string>, query: Collection)
    requires forall e :: e in b ==> e in a
    ensures MatchEntries(routeValue, a, query).Ok? ==> MatchEntries(routeValue, b, query).Ok?
    ensures MatchEntries(routeValue, a, query).Ok? && MatchEntries(routeValue, b, query) == Ok(true)
            ==> MatchEntries(routeValue, a, query) == Ok(true)
  {
    var ra, rb := MatchEntries(routeValue, a, query), MatchEntries(routeValue, b, query);
    if ra.Ok? {
      AllParse(a, b);
    }
    if ra.Ok? && rb == Ok(true) {
      var k :| 0 <= k < |b| && EntryHits(routeValue, b[k], query);
      assert b[k] in a;
      var j :| 0 <= j < |a| && a[j] == b[k];
      assert EntryHits(routeValue, a[j], query);
    }
  }

  lemma {:induction false} AllParse(a: seq<string>, b: seq<string>)
    requires forall e :: e in b ==> e in a
    requires forall k | 0 <= k < |a| :: Parses(a[k])
    ensures forall k | 0 <= k < |b| :: Parses(b[k])
  {
    forall k | 0 <= k < |b| ensures Parses(b[k]) {
      assert b[k] in a;
      var j :| 0 <= j < |a| && a[j] == b[k];
    }
  }

  /** Adding an entry never turns a match into a non-match; it can only
      make the comparison throw, when the new entry is malformed. */
  lemma {:induction false} AddingEntryKeepsMatch(routeValue: Option<string>, entries: seq<string>, extra: string, query: Collection)
    requires forall k | 0 <= k < |entries| :: Parses(entries[k])
    requires exists k | 0 <= k < |entries| :: EntryHits(routeValue, entries[k], query)
    ensures MatchEntries(routeValue, entries, query) == Ok(true)
    ensures MatchEntries(routeValue, entries + [extra], query) == Ok(true)
            || (MatchEntries(routeValue, entries + [extra], query).Err? && !ParseEntry(extra).Ok?)
  {
    ListMatches(routeValue, entries, query);
    var more := entries + [extra];
    if ParseEntry(extra).Ok? {
      ExtendedEntries(routeValue, entries, extra, query);
      ListMatches(routeValue, more, query);
    } else {
      ListThrows(more, |entries|, routeValue, query);
    }
  }

  /** A list whose entries all parse, one of them hitting, matches. */
  lemma {:induction false} ListMatches(routeValue: Option<string>, entries: seq<string>, query: Collection)
    requires forall k | 0 <= k < |entries| :: Parses(entries[k])
    requires exists k | 0 <= k < |entries| :: EntryHits(routeValue, entries[k], query)
    ensures MatchEntries(routeValue, entries, query) == Ok(true)
  {
  }

  /** A list with a malformed entry throws. */
  lemma {:induction false} ListThrows(entries: seq<string>, k: int, routeValue: Option<string>, query: Collection)
    requires 0 <= k < |entries| && !Parses(entries[k])
    ensures MatchEntries(routeValue, entries, query).Err?
  {
  }

  /** Appending an entry that parses keeps every entry parsing and keeps the
      entry that hits. */
  lemma {:induction false} ExtendedEntries(routeValue: Option<string>, entries: seq<string>, extra: string, query: Collection)
    requires forall k | 0 <= k < |entries| :: Parses(entries[k])
    requires exists k | 0 <= k < |entries| :: EntryHits(routeValue, entries[k], query)
    requires Parses(extra)
    ensures forall j | 0 <= j < |entries + [extra]| :: Parses((entries + [extra])[j])
    ensures exists j | 0 <= j < |entries + [extra]| :: EntryHits(routeValue, (entries + [extra])[j], query)
  {
    var more := entries + [extra];
    var k :| 0 <= k < |entries| && EntryHits(routeValue, entries[k], query);
    assert more[k] == entries[k];
    forall j | 0 <= j < |more| ensures Parses(more[j]) {
      if j < |entries| {
        assert more[j] == entries[j];
      } else {
        assert more[j] == extra;
      }
    }
  }
}
