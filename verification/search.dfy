/** The search manager: an index built from the manga library, additive
    substring scoring of a query against it, a filter predicate, a two-level
    sort (score first, then the chosen criterion), a bounded duplicate-free
    history of queries, genre toggling and the suggestion list. */
module Search {
  import opened Common
  import opened Strings
  import Sorting

  /** At most this many past queries are kept. */
  const MaxHistorySize: nat := 20

  /** At most this many suggestions are shown. */
  const MaxSuggestions: nat := 5

  /** A library entry's `info`. Absent text is "", absent numbers are 0 and
      absent genres are the empty list: the index treats each absent value
      like its falsy fallback. */
  datatype MangaInfo = MangaInfo(
    name: string, description: string, author: string, genres: seq<string>,
    rating: real, year: int, status: string, lastUpdate: int)

  datatype Manga = Manga(id: string, info: MangaInfo, scanCount: nat)

  datatype IndexItem = IndexItem(
    id: string, name: string, searchText: string, rating: real, year: int,
    status: string, popularity: nat, updated: int, genres: seq<string>)

  /** The lower-cased text a query is matched against: name, description,
      author and genres joined with spaces. */
  function SearchText(info: MangaInfo): (r: string)
    ensures StartsWith(r, Lower(info.name))
    ensures forall g :: g in info.genres ==> Contains(r, Lower(g))
  {
    var ws := [info.name, info.description, info.author] + info.genres;
    JoinStartsWith(ws, " ");
    LowerStartsWith(Join(ws, " "), info.name);
    forall g | g in info.genres ensures Contains(Lower(Join(ws, " ")), Lower(g)) {
      var k :| 0 <= k < |info.genres| && info.genres[k] == g;
      assert ws[k + 3] == g;
      JoinContains(ws, " ", k + 3);
      LowerContains(Join(ws, " "), g);
    }
    Lower(Join(ws, " "))
  }

  /** One index entry; `now` is the clock reading used for a missing
      `lastUpdate`. */
  function IndexEntry(m: Manga, now: int): (r: IndexItem)
    ensures r.id == m.id && r.name == m.info.name
    ensures StartsWith(r.searchText, Lower(r.name))
    ensures forall g :: g in m.info.genres ==> Contains(r.searchText, Lower(g))
    ensures r.status == (if m.info.status == "" then "unknown" else m.info.status)
    ensures r.updated == (if m.info.lastUpdate == 0 then now else m.info.lastUpdate)
    ensures r.popularity == m.scanCount
  {
    IndexItem(m.id, m.info.name, SearchText(m.info), m.info.rating, m.info.year,
      if m.info.status != "" then m.info.status else "unknown",
      m.scanCount,
      if m.info.lastUpdate != 0 then m.info.lastUpdate else now,
      m.info.genres)
  }

  /** `buildSearchIndex`: without a library the old index stays; otherwise the
      index is rebuilt, one entry per library entry, in library order. */
  function BuildSearchIndex(library: Option<seq<Manga>>, current: seq<IndexItem>, now: int)
    : (r: seq<IndexItem>)
    ensures library.None? ==> r == current
    ensures library.Some? ==> |r| == |library.value|
    ensures library.Some? ==> forall i :: 0 <= i < |r| ==>
      r[i].id == library.value[i].id && StartsWith(r[i].searchText, Lower(r[i].name))
  {
    match library
    case None => current
    case Some(ms) => seq(|ms|, i requires 0 <= i < |ms| => IndexEntry(ms[i], now))
  }

  /** How many of `words` occur in `text`. */
  function WordHits(words: seq<string>, text: string): (r: nat)
    ensures r <= |words|
    ensures r > 0 <==> exists w :: w in words && Contains(text, w)
    ensures (forall w :: w in words ==> Contains(text, w)) ==> r == |words|
  {
    if |words| == 0 then 0
    else (if Contains(text, words[0]) then 1 else 0) + WordHits(words[1..], text)
  }

  /** The score of an item for an already lower-cased query: 100 when the
      name starts with it, 50 when the name merely contains it, 20 more when
      the searchable text contains it, and 10 for each space-separated word of
      the query found in the searchable text. */
  function Score(item: IndexItem, q: string): (r: nat)
    ensures r > 0 <==>
      Contains(Lower(item.name), q) || Contains(item.searchText, q)
      || exists w :: w in Split(q, ' ') && Contains(item.searchText, w)
  {
    var name := Lower(item.name);
    var nameScore := if Contains(name, q) then (if StartsWith(name, q) then 100 else 50) else 0;
    var textScore := if Contains(item.searchText, q) then 20 else 0;
    nameScore + textScore + 10 * WordHits(Split(q, ' '), item.searchText)
  }

  /** Because the searchable text begins with the name, a query found in the
      name also earns the text bonus and every word bonus. */
  lemma NameMatchScore(item: IndexItem, q: string)
    requires StartsWith(item.searchText, Lower(item.name))
    requires Contains(Lower(item.name), q)
    ensures Score(item, q) >= 70 + 10 * |Split(q, ' ')|
    ensures StartsWith(Lower(item.name), q) ==> Score(item, q) >= 120 + 10 * |Split(q, ' ')|
  {
    var name := Lower(item.name);
    StartsWithContains(item.searchText, name);
    ContainsTransitive(item.searchText, name, q);
    SplitPiecesOccur(q, ' ');
    forall w | w in Split(q, ' ') ensures Contains(item.searchText, w) {
      ContainsTransitive(item.searchText, q, w);
    }
  }

  /** The secondary sort criterion; `Other` stands for a value the switch does
      not list, which leaves ties unordered. */
  datatype SortKey = ByName | ByRating | ByYear | ByPopularity | ByUpdated | Other

  datatype Filters = Filters(
    genres: seq<string>, status: string, rating: real, sortBy: SortKey, descending: bool)

  /** The filters a fresh search manager starts with. */
  const DefaultFilters: Filters := Filters([], "all", 0.0, ByName, false)

  /** `passesFilters`: checked in turn, the genre filter (when any genre is
      selected, the item must have one of them), the status filter (unless
      "all") and the minimum rating. */
  predicate PassesFilters(item: IndexItem, f: Filters)
    ensures PassesFilters(item, f) <==>
      (|f.genres| == 0 || exists g :: g in f.genres && g in item.genres)
      && (f.status == "all" || item.status == f.status)
      && item.rating >= f.rating
  {
    if |f.genres| > 0 && !(exists g :: g in f.genres && g in item.genres) then false
    else if f.status != "all" && item.status != f.status then false
    else !(item.rating < f.rating)
  }

  datatype Hit = Hit(item: IndexItem, score: nat)

  /** The scored items that survive the filters, in index order. */
  function Candidates(index: seq<IndexItem>, q: string, f: Filters): (r: seq<Hit>)
    ensures forall h :: h in r <==>
      h.item in index && PassesFilters(h.item, f) && h.score == Score(h.item, q) && h.score > 0
  {
    if |index| == 0 then []
    else
      var item := index[0];
      var score := if PassesFilters(item, f) then Score(item, q) else 0;
      assert index == [item] + index[1..];
      (if score > 0 then [Hit(item, score)] else []) + Candidates(index[1..], q, f)
  }

  function Sign(x: real): int {
    if x > 0.0 then 1 else if x < 0.0 then -1 else 0
  }

  /** The tie-break of `sortResults`: the chosen criterion (names by
      `nameOrder`, standing for `localeCompare`; numbers larger first),
      reversed when the order is descending. */
  function Secondary(a: Hit, b: Hit, f: Filters, nameOrder: (string, string) -> int): int {
    var c := match f.sortBy
      case ByName => nameOrder(a.item.name, b.item.name)
      case ByRating => Sign(b.item.rating - a.item.rating)
      case ByYear => b.item.year - a.item.year
      case ByPopularity => b.item.popularity - a.item.popularity
      case ByUpdated => b.item.updated - a.item.updated
      case Other => 0;
    if f.descending then -c else c
  }

  /** The comparator of `sortResults`: higher score first; on equal scores the
      tie-break decides. */
  function Compare(a: Hit, b: Hit, f: Filters, nameOrder: (string, string) -> int): int {
    var primary := b.score - a.score;
    if primary != 0 then primary else Secondary(a, b, f, nameOrder)
  }

  function Comparator(f: Filters, nameOrder: (string, string) -> int): (Hit, Hit) -> int {
    (a: Hit, b: Hit) => Compare(a, b, f, nameOrder)
  }

  /** The descending order only reverses the secondary criterion: two hits
      with different scores compare the same either way. */
  lemma DescendingKeepsScoreOrder(a: Hit, b: Hit, f: Filters, nameOrder: (string, string) -> int)
    ensures a.score != b.score ==>
      Compare(a, b, f.(descending := true), nameOrder) == Compare(a, b, f.(descending := false), nameOrder)
    ensures a.score == b.score ==>
      Compare(a, b, f.(descending := true), nameOrder) == -Compare(a, b, f.(descending := false), nameOrder)
    ensures a.score > b.score ==> Compare(a, b, f, nameOrder) < 0
  {
  }

  /** `search`: the filtered, scored items, sorted. */
  function SearchIndex(index: seq<IndexItem>, query: string, f: Filters,
                       nameOrder: (string, string) -> int): (r: seq<Hit>)
    ensures forall h :: h in r <==>
      h.item in index && PassesFilters(h.item, f)
      && h.score == Score(h.item, Lower(query)) && h.score > 0
    ensures multiset(r) == multiset(Candidates(index, Lower(query), f))
  {
    var c := Candidates(index, Lower(query), f);
    var r := Sorting.SortWith(c, Comparator(f, nameOrder));
    assert forall h :: h in r <==> h in multiset(c);
    r
  }

  function NegScore(h: Hit): int { -(h.score as int) }

  /** Results come out by score, highest first, whatever the secondary
      criterion and order. */
  lemma SearchRanked(index: seq<IndexItem>, query: string, f: Filters,
                     nameOrder: (string, string) -> int)
    ensures var r := SearchIndex(index, query, f, nameOrder);
      forall i, j :: 0 <= i < j < |r| ==> r[i].score >= r[j].score
  {
    var cmp := Comparator(f, nameOrder);
    assert Sorting.KeyFirst(cmp, NegScore);
    Sorting.SortWithSorted(Candidates(index, Lower(query), f), cmp, NegScore);
  }

  /** The tie-break is a consistent order on hits whenever the name order is
      one. */
  lemma SecondaryConsistent(f: Filters, nameOrder: (string, string) -> int)
    requires f.sortBy == ByName ==> Sorting.Consistent(nameOrder)
    ensures forall a, b :: Secondary(a, b, f, nameOrder) <= 0 <==> Secondary(b, a, f, nameOrder) >= 0
    ensures forall a, b, c ::
      (Secondary(a, b, f, nameOrder) <= 0 && Secondary(b, c, f, nameOrder) <= 0
       ==> Secondary(a, c, f, nameOrder) <= 0)
  {
    if f.sortBy == ByName {
      assert forall a: Hit, b: Hit ::
        (Secondary(a, b, f, nameOrder)
         == if f.descending then -nameOrder(a.item.name, b.item.name) else nameOrder(a.item.name, b.item.name));
    }
  }

  /** Score first, then the tie-break: a consistent order on hits. */
  lemma CompareConsistent(f: Filters, nameOrder: (string, string) -> int)
    requires f.sortBy == ByName ==> Sorting.Consistent(nameOrder)
    ensures Sorting.Consistent(Comparator(f, nameOrder))
  {
    SecondaryConsistent(f, nameOrder);
    var cmp := Comparator(f, nameOrder);
    forall a, b, c | cmp(a, b) <= 0 && cmp(b, c) <= 0 ensures cmp(a, c) <= 0 {
      assert a.score >= b.score >= c.score;
    }
  }

  /** In a list sorted by the comparator, equal scores follow the tie-break. */
  lemma TieOrder(r: seq<Hit>, f: Filters, nameOrder: (string, string) -> int)
    requires Sorting.SortedWith(r, Comparator(f, nameOrder))
    ensures forall i, j :: 0 <= i < j < |r| && r[i].score == r[j].score ==>
      Secondary(r[i], r[j], f, nameOrder) <= 0
  {
    var cmp := Comparator(f, nameOrder);
    forall i, j | 0 <= i < j < |r| && r[i].score == r[j].score
      ensures Secondary(r[i], r[j], f, nameOrder) <= 0
    {
      assert cmp(r[i], r[j]) <= 0;
    }
  }

  /** Results are in `sortResults` order throughout: a higher score comes
      first, and among equal scores the tie-break never puts a hit after one
      it ranks below (the name order being consistent, as `localeCompare` is);
      sorting by year, for instance, lists the newer first unless descending. */
  lemma SearchTieOrder(index: seq<IndexItem>, query: string, f: Filters,
                       nameOrder: (string, string) -> int)
    requires f.sortBy == ByName ==> Sorting.Consistent(nameOrder)
    ensures var r := SearchIndex(index, query, f, nameOrder);
      forall i, j :: 0 <= i < j < |r| && r[i].score == r[j].score ==>
        Secondary(r[i], r[j], f, nameOrder) <= 0
    ensures var r := SearchIndex(index, query, f, nameOrder);
      forall i, j :: 0 <= i < j < |r| && r[i].score == r[j].score && f.sortBy == ByYear ==>
        (if f.descending then r[i].item.year <= r[j].item.year else r[i].item.year >= r[j].item.year)
  {
    var cmp := Comparator(f, nameOrder);
    var c := Candidates(index, Lower(query), f);
    var r := SearchIndex(index, query, f, nameOrder);
    assert r == Sorting.SortWith(c, cmp);
    CompareConsistent(f, nameOrder);
    Sorting.SortWithOrdered(c, cmp);
    TieOrder(r, f, nameOrder);
  }

  /** `addToHistory`: an empty or already-recorded query changes nothing;
      otherwise the query goes in front and the list is cut to 20. */
  function AddToHistory(history: seq<string>, query: string): (r: seq<string>)
    ensures query == "" || query in history ==> r == history
    ensures query != "" && query !in history ==>
      |r| == Min(|history| + 1, MaxHistorySize) && r[0] == query && r[1..] == history[..|r| - 1]
    ensures |history| <= MaxHistorySize ==> |r| <= MaxHistorySize
    ensures NoDup(history) ==> NoDup(r)
    ensures query in r <==> query != "" || query in history
  {
    if query == "" || query in history then history
    else
      var added := [query] + history;
      var r := if |added| > MaxHistorySize then added[..MaxHistorySize] else added;
      assert r[1..] == history[..|r| - 1];
      assert forall i, j :: 0 <= i < j < |r| ==> r[i] == added[i] && r[j] == added[j];
      r
  }

  /** `toggleGenre`: the genre filter gains an absent genre at the end or loses
      a present one; nothing else changes. */
  function ToggleGenre(f: Filters, genre: string): (r: Filters)
    ensures r == f.(genres := r.genres)
    ensures genre !in f.genres ==> r.genres == f.genres + [genre]
    ensures genre in f.genres ==> |r.genres| == |f.genres| - 1
    ensures NoDup(f.genres) ==> NoDup(r.genres) && (genre in r.genres <==> genre !in f.genres)
  {
    f.(genres := Toggle(f.genres, genre))
  }

  /** Toggling a genre twice gives back the same selection of genres. */
  lemma ToggleGenreTwice(f: Filters, genre: string)
    requires NoDup(f.genres)
    ensures forall g :: g in ToggleGenre(ToggleGenre(f, genre), genre).genres <==> g in f.genres
  {
    ToggleTwice(f.genres, genre);
  }

  /** The names in the index that contain the query, ignoring case, in index
      order. */
  function MatchingNames(index: seq<IndexItem>, query: string): (r: seq<string>)
    ensures |r| <= |index|
  {
    if |index| == 0 then []
    else
      var rest := MatchingNames(index[..|index| - 1], query);
      var last := index[|index| - 1];
      rest + (if Contains(Lower(last.name), Lower(query)) then [last.name] else [])
  }

  /** The suggestion list: for a non-empty query the first five matching
      names, otherwise the five most recent queries. */
  method Suggestions(index: seq<IndexItem>, history: seq<string>, query: string)
    returns (r: seq<string>)
    ensures |r| <= MaxSuggestions
    ensures |query| > 0 ==> r == Take(MatchingNames(index, query), MaxSuggestions)
    ensures |query| == 0 ==> r == Take(history, MaxSuggestions)
  {
    if |query| > 0 {
      r := [];
      var i := 0;
      while i < |index|
        invariant 0 <= i <= |index|
        invariant r == Take(MatchingNames(index[..i], query), MaxSuggestions)
      {
        var seen := MatchingNames(index[..i], query);
        var hit := Contains(Lower(index[i].name), Lower(query));
        assert index[..i + 1][..i] == index[..i];
        assert MatchingNames(index[..i + 1], query) == seen + (if hit then [index[i].name] else []);
        if hit {
          TakeSnoc(seen, index[i].name, MaxSuggestions);
        }
        if hit && |r| < MaxSuggestions {
          r := r + [index[i].name];
        }
        i := i + 1;
      }
      assert index[..|index|] == index;
    } else {
      r := Take(history, MaxSuggestions);
    }
  }
}
