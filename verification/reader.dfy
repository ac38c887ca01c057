/** The state of the book reader: the open manga, its pages and the index of
    the page on show; the reading history (per manga, the last page index and
    when it was saved) and the bookmark list. Pages are grouped into chapters
    for the chapter navigation. */
module Reader {
  import opened Common
  import OrderedMap
  import Sorting
  import Strings

  /** The group name of pages without a chapter. */
  const UnknownChapter: string := "Chapitre inconnu"

  /** How many entries the "current reading" list shows. */
  const RecentCount: nat := 5

  datatype Page = Page(chapter: string, image: string)

  datatype Manga = Manga(name: string, scans: seq<Page>)

  datatype HistoryEntry = HistoryEntry(pageIndex: int, timestamp: int, mangaName: string)

  /** The library and the reading history, both keyed by manga id. */
  type Library = seq<OrderedMap.Entry<string, Manga>>
  type History = seq<OrderedMap.Entry<string, HistoryEntry>>

  /** `currentManga`, `currentPages`, `currentPageIndex`. */
  datatype ReaderState = ReaderState(manga: Option<string>, pages: seq<Page>, index: int)

  const Closed: ReaderState := ReaderState(None, [], 0)

  // ----- page navigation -----

  /** `nextPage`: never moves past the last page. */
  function NextPage(st: ReaderState): (r: ReaderState)
    ensures r.manga == st.manga && r.pages == st.pages
    ensures r.index == st.index || (r.index == st.index + 1 && r.index < |st.pages|)
    ensures 0 <= st.index < |st.pages| ==> 0 <= r.index < |st.pages|
  {
    if st.index < |st.pages| - 1 then st.(index := st.index + 1) else st
  }

  /** `previousPage`: never moves before the first page. */
  function PrevPage(st: ReaderState): (r: ReaderState)
    ensures r.manga == st.manga && r.pages == st.pages
    ensures r.index == st.index || (r.index == st.index - 1 && r.index >= 0)
    ensures 0 <= st.index < |st.pages| ==> 0 <= r.index < |st.pages|
  {
    if st.index > 0 then st.(index := st.index - 1) else st
  }

  datatype NavButtons = NavButtons(prevDisabled: bool, nextDisabled: bool)

  /** `updateNavigationButtons`: on a page in range, a button is disabled
      exactly when pressing it would not move. */
  function Buttons(st: ReaderState): (b: NavButtons)
    ensures 0 <= st.index < |st.pages| ==>
      (b.prevDisabled <==> PrevPage(st) == st) && (b.nextDisabled <==> NextPage(st) == st)
  {
    NavButtons(st.index == 0, st.index == |st.pages| - 1)
  }

  // ----- chapters -----

  /** `page.chapter || 'Chapitre inconnu'`. */
  function ChapterKey(p: Page): (k: string)
    ensures k != ""
    ensures p.chapter != "" ==> k == p.chapter
    ensures p.chapter == "" ==> k == UnknownChapter
  {
    if p.chapter != "" then p.chapter else UnknownChapter
  }

  /** The test "this page belongs to group `k`". */
  function InGroup(k: string): Page -> bool {
    p => ChapterKey(p) == k
  }

  /** The pages of group `k`, in reading order. */
  function PagesOf(pages: seq<Page>, k: string): seq<Page> {
    Filter(pages, InGroup(k))
  }

  datatype Group = Group(name: string, pages: seq<Page>)

  function Names(gs: seq<Group>): (r: seq<string>)
    ensures |r| == |gs|
    ensures forall i :: 0 <= i < |gs| ==> r[i] == gs[i].name
  {
    seq(|gs|, i requires 0 <= i < |gs| => gs[i].name)
  }

  /** One step of the `forEach`: append the page to its group, opening the
      group at the end when it is new. */
  function AddPage(gs: seq<Group>, p: Page): seq<Group> {
    var j := IndexOf(Names(gs), ChapterKey(p));
    if j < 0 then gs + [Group(ChapterKey(p), [p])]
    else gs[j := Group(gs[j].name, gs[j].pages + [p])]
  }

  /** `groupPagesByChapter`: the groups in order of first appearance. */
  function GroupPagesByChapter(pages: seq<Page>): seq<Group>
    decreases |pages|
  {
    if |pages| == 0 then []
    else AddPage(GroupPagesByChapter(pages[..|pages| - 1]), pages[|pages| - 1])
  }

  lemma PagesOfSingle(p: Page, k: string)
    ensures PagesOf([p], k) == if ChapterKey(p) == k then [p] else []
  {
    assert [p][1..] == [];
  }

  /** The grouping `gs` of `pages` is faithful: no group name twice, every
      group holds exactly the pages with its key in reading order (and at
      least one), and every page's key names a group. */
  ghost predicate Faithful(pages: seq<Page>, gs: seq<Group>) {
    && NoDup(Names(gs))
    && (forall i :: 0 <= i < |gs| ==> gs[i].pages == PagesOf(pages, gs[i].name) && |gs[i].pages| > 0)
    && (forall p :: p in pages ==> ChapterKey(p) in Names(gs))
  }

  lemma PagesOfSnoc(init: seq<Page>, p: Page, k: string)
    ensures PagesOf(init + [p], k) == PagesOf(init, k) + (if ChapterKey(p) == k then [p] else [])
  {
    FilterConcat(init, [p], InGroup(k));
    PagesOfSingle(p, k);
  }

  lemma {:induction false} PagesOfNone(pages: seq<Page>, k: string)
    requires forall x :: x in pages ==> ChapterKey(x) != k
    ensures PagesOf(pages, k) == []
  {
    if |pages| > 0 {
      PagesOfNone(pages[1..], k);
    }
  }

  /** A page with a new key opens a group of its own at the end. */
  lemma AddPageNew(init: seq<Page>, h: seq<Group>, p: Page)
    requires Faithful(init, h)
    requires ChapterKey(p) !in Names(h)
    ensures Faithful(init + [p], AddPage(h, p))
  {
    var k := ChapterKey(p);
    var g := AddPage(h, p);
    assert g == h + [Group(k, [p])];
    assert Names(g) == Names(h) + [k];
    PagesOfNone(init, k);
    PagesOfSnoc(init, p, k);
    forall i | 0 <= i < |h| ensures g[i].pages == PagesOf(init + [p], g[i].name) {
      PagesOfSnoc(init, p, h[i].name);
    }
  }

  /** A page with a known key joins the end of that group. */
  lemma AddPageKnown(init: seq<Page>, h: seq<Group>, p: Page)
    requires Faithful(init, h)
    requires ChapterKey(p) in Names(h)
    ensures Faithful(init + [p], AddPage(h, p))
  {
    var g := AddPage(h, p);
    assert Names(g) == Names(h);
    forall i | 0 <= i < |g| ensures g[i].pages == PagesOf(init + [p], g[i].name) {
      PagesOfSnoc(init, p, h[i].name);
    }
  }

  lemma {:induction false} GroupsFaithful(pages: seq<Page>)
    ensures Faithful(pages, GroupPagesByChapter(pages))
    decreases |pages|
  {
    if |pages| > 0 {
      var init, p := pages[..|pages| - 1], pages[|pages| - 1];
      assert pages == init + [p];
      GroupsFaithful(init);
      if ChapterKey(p) in Names(GroupPagesByChapter(init)) {
        AddPageKnown(init, GroupPagesByChapter(init), p);
      } else {
        AddPageNew(init, GroupPagesByChapter(init), p);
      }
    }
  }

  function TotalPages(gs: seq<Group>): nat
    decreases |gs|
  {
    if |gs| == 0 then 0 else TotalPages(gs[..|gs| - 1]) + |gs[|gs| - 1].pages|
  }

  lemma {:induction false} TotalPagesUpdate(gs: seq<Group>, j: nat, g: Group)
    requires j < |gs|
    ensures TotalPages(gs[j := g]) + |gs[j].pages| == TotalPages(gs) + |g.pages|
    decreases |gs|
  {
    var n := |gs| - 1;
    if j < n {
      TotalPagesUpdate(gs[..n], j, g);
      assert gs[j := g][..n] == gs[..n][j := g];
    } else {
      assert gs[j := g][..n] == gs[..n];
    }
  }

  /** Every page lands in exactly one group: the group sizes add up to the
      page count. */
  lemma {:induction false} GroupSizesSum(pages: seq<Page>)
    ensures TotalPages(GroupPagesByChapter(pages)) == |pages|
    decreases |pages|
  {
    if |pages| > 0 {
      var init, p := pages[..|pages| - 1], pages[|pages| - 1];
      var h := GroupPagesByChapter(init);
      GroupSizesSum(init);
      var j := IndexOf(Names(h), ChapterKey(p));
      if j < 0 {
        assert (h + [Group(ChapterKey(p), [p])])[..|h|] == h;
      } else {
        TotalPagesUpdate(h, j, Group(h[j].name, h[j].pages + [p]));
      }
    }
  }

  /** `jumpToChapter`, as written: it looks for the first page whose raw
      `chapter` field equals the name, and does nothing when there is none. */
  function JumpToChapter(st: ReaderState, name: string): (r: ReaderState)
    ensures r.manga == st.manga && r.pages == st.pages
    ensures (forall i :: 0 <= i < |st.pages| ==> st.pages[i].chapter != name) ==> r == st
    ensures (exists i :: 0 <= i < |st.pages| && st.pages[i].chapter == name) ==>
      0 <= r.index < |st.pages| && st.pages[r.index].chapter == name
      && forall i :: 0 <= i < r.index ==> st.pages[i].chapter != name
  {
    var i := FindIndex(st.pages, (p: Page) => p.chapter == name);
    if i >= 0 then st.(index := i) else st
  }

  /** Corrected jump: compare the page's group key, as the grouping does. */
  function JumpToGroup(st: ReaderState, name: string): (r: ReaderState)
    ensures r.manga == st.manga && r.pages == st.pages
    ensures (forall i :: 0 <= i < |st.pages| ==> ChapterKey(st.pages[i]) != name) ==> r == st
    ensures (exists i :: 0 <= i < |st.pages| && ChapterKey(st.pages[i]) == name) ==>
      0 <= r.index < |st.pages| && ChapterKey(st.pages[r.index]) == name
      && forall i :: 0 <= i < r.index ==> ChapterKey(st.pages[i]) != name
  {
    var i := FindIndex(st.pages, InGroup(name));
    if i >= 0 then st.(index := i) else st
  }

  function GroupName(g: Group): string { g.name }

  /** `Object.keys(chapters)`: the order the chapter menu lists the groups in.
      `chapters` is a plain object, so groups named by an array index ("2",
      "10") come first, by number, and the others follow in order of first
      appearance. */
  function ChapterMenu(pages: seq<Page>): (r: seq<Group>)
    ensures multiset(r) == multiset(GroupPagesByChapter(pages))
    ensures forall g :: g in r <==> g in GroupPagesByChapter(pages)
  {
    var gs := GroupPagesByChapter(pages);
    var r := OrderedMap.ObjectOrder(gs, GroupName);
    assert forall g :: g in r <==> g in multiset(gs);
    r
  }

  /** The menu's order: numbered groups first and ascending, the other groups
      in order of first appearance. */
  lemma ChapterMenuOrder(pages: seq<Page>)
    ensures var r := ChapterMenu(pages);
      forall i, j :: 0 <= i < j < |r| && !OrderedMap.IsArrayIndex(r[i].name) ==>
        !OrderedMap.IsArrayIndex(r[j].name)
    ensures var r := ChapterMenu(pages);
      forall i, j :: (0 <= i < j < |r| && OrderedMap.IsArrayIndex(r[i].name)
                      && OrderedMap.IsArrayIndex(r[j].name)) ==>
        Strings.ParseDigits(r[i].name) <= Strings.ParseDigits(r[j].name)
    ensures Filter(ChapterMenu(pages), OrderedMap.NamedBy(GroupName))
         == Filter(GroupPagesByChapter(pages), OrderedMap.NamedBy(GroupName))
  {
    var gs := GroupPagesByChapter(pages);
    OrderedMap.ObjectIndexFirst(gs, GroupName);
    OrderedMap.ObjectIndexAscending(gs, GroupName);
    OrderedMap.ObjectNamedKept(gs, GroupName);
  }

  /** Without numbered chapters the menu follows reading order. */
  lemma ChapterMenuPlain(pages: seq<Page>)
    requires forall p :: p in pages ==> !OrderedMap.IsArrayIndex(ChapterKey(p))
    ensures ChapterMenu(pages) == GroupPagesByChapter(pages)
  {
    var gs := GroupPagesByChapter(pages);
    GroupsFaithful(pages);
    forall g | g in gs ensures !OrderedMap.IsArrayIndex(GroupName(g)) {
      var k :| 0 <= k < |gs| && gs[k] == g;
      assert |g.pages| > 0 && g.pages[0] in PagesOf(pages, g.name);
    }
    OrderedMap.ObjectNoIndex(gs, GroupName);
  }

  lemma TwoChapterGroups(p1: Page, p2: Page)
    requires ChapterKey(p1) != ChapterKey(p2)
    ensures GroupPagesByChapter([p1, p2])
         == [Group(ChapterKey(p1), [p1]), Group(ChapterKey(p2), [p2])]
  {
    var g1 := Group(ChapterKey(p1), [p1]);
    assert [p1][..0] == [];
    assert GroupPagesByChapter([p1]) == AddPage([], p1);
    assert Names([]) == [];
    assert GroupPagesByChapter([p1]) == [g1];
    assert [p1, p2][..1] == [p1];
    assert Names([g1]) == [ChapterKey(p1)];
    assert IndexOf(Names([g1]), ChapterKey(p2)) == -1;
  }

  /** A numbered chapter read after a named one is listed before it. */
  lemma NumberedChapterFirst(p1: Page, p2: Page)
    requires !OrderedMap.IsArrayIndex(ChapterKey(p1)) && OrderedMap.IsArrayIndex(ChapterKey(p2))
    ensures GroupPagesByChapter([p1, p2])
         == [Group(ChapterKey(p1), [p1]), Group(ChapterKey(p2), [p2])]
    ensures ChapterMenu([p1, p2]) == [Group(ChapterKey(p2), [p2]), Group(ChapterKey(p1), [p1])]
  {
    TwoChapterGroups(p1, p2);
    OrderedMap.ObjectOrderSwap(Group(ChapterKey(p1), [p1]), Group(ChapterKey(p2), [p2]), GroupName);
  }

  /** Jumping to any group the menu lists shows that group's first page. */
  lemma JumpToGroupShowsFirstPage(st: ReaderState, g: Group)
    requires g in ChapterMenu(st.pages)
    ensures |g.pages| > 0 && 0 <= JumpToGroup(st, g.name).index < |st.pages|
    ensures st.pages[JumpToGroup(st, g.name).index] == g.pages[0]
  {
    GroupsFaithful(st.pages);
    var gs := GroupPagesByChapter(st.pages);
    var i :| 0 <= i < |gs| && gs[i] == g;
    var x := g.pages[0];
    assert x in PagesOf(st.pages, g.name);
    FilterFirst(st.pages, InGroup(g.name));
  }

  // ----- progress, bookmarks, history -----

  /** `Math.round((pageIndex / len) * 100)`: the exact quotient 100 i / n
      rounded to the nearest integer. Exactly halfway, the floating-point
      product can land just below the half (23 / 40 * 100 is
      57.49999999999999) or on it; `belowHalf` says which, and it matters only
      there: below the half rounds down, on it rounds up. */
  function RoundPercent(pageIndex: int, len: int, belowHalf: bool): (r: int)
    requires len > 0
    ensures 2 * len * r - len <= 200 * pageIndex <= 2 * len * r + len
    ensures 200 * pageIndex == 2 * len * r + len ==> belowHalf
    ensures 200 * pageIndex == 2 * len * r - len ==> !belowHalf
    ensures 0 <= pageIndex < len ==> 0 <= r <= 100
  {
    var d := 2 * len;
    var x := 200 * pageIndex + len;
    var up := x / d;
    assert d * up <= x < d * up + d;
    assert x % d == 0 <==> x == d * up;
    var r := if x % d == 0 && belowHalf then up - 1 else up;
    MulPred(d, up);
    if 0 <= pageIndex < len then PercentInRange(len, r); r else r
  }

  lemma MulPred(d: int, u: int)
    ensures d * (u - 1) == d * u - d
  {
  }

  /** Only an exact half depends on the floating-point outcome, and there the
      two outcomes are neighbours. */
  lemma RoundPercentTies(pageIndex: int, len: int)
    requires len > 0
    ensures (200 * pageIndex + len) % (2 * len) != 0 ==>
      RoundPercent(pageIndex, len, true) == RoundPercent(pageIndex, len, false)
    ensures (200 * pageIndex + len) % (2 * len) == 0 ==>
      RoundPercent(pageIndex, len, false) == RoundPercent(pageIndex, len, true) + 1
  {
  }

  /** Page 24 of 40 is such a half: 57 or 58 depending on the product. */
  lemma RoundPercentHalfExample()
    ensures RoundPercent(23, 40, true) == 57 && RoundPercent(23, 40, false) == 58
  {
  }

  /** Multiplying by a positive factor keeps the order, both ways. */
  lemma MulLe(a: int, b: int, c: int)
    requires a > 0
    ensures b <= c <==> a * b <= a * c
  {
    assert a * c - a * b == a * (c - b);
  }

  /** A quotient of the rounding division lies in [0, 100] when its bounds
      place it between 0 and 201 halves of the divisor. */
  lemma PercentInRange(len: int, r: int)
    requires len > 0
    requires 2 * len * r - len < 200 * len && 0 <= 2 * len * r + len
    ensures 0 <= r <= 100
  {
    MulLe(2 * len, 101, r);
    MulLe(2 * len, r, -1);
  }

  /** `getReadingProgress`: 0 without a history entry, without the manga, or
      with no pages; otherwise the rounded percentage of the saved index. */
  function ReadingProgress(library: Library, history: History, id: string, belowHalf: bool): (r: int)
    ensures OrderedMap.Lookup(history, id).None? ==> r == 0
    ensures OrderedMap.Lookup(library, id).None? ==> r == 0
    ensures OrderedMap.Lookup(library, id).Some? && |OrderedMap.Lookup(library, id).value.scans| == 0 ==> r == 0
    ensures (OrderedMap.Lookup(history, id).Some? && OrderedMap.Lookup(library, id).Some?
      && |OrderedMap.Lookup(library, id).value.scans| > 0) ==>
        var len := |OrderedMap.Lookup(library, id).value.scans|;
        var p := OrderedMap.Lookup(history, id).value.pageIndex;
        && 2 * len * r - len <= 200 * p <= 2 * len * r + len
        && (200 * p == 2 * len * r + len ==> belowHalf)
        && (200 * p == 2 * len * r - len ==> !belowHalf)
        && (0 <= p < len ==> 0 <= r <= 100)
  {
    match OrderedMap.Lookup(history, id)
    case None => 0
    case Some(h) =>
      match OrderedMap.Lookup(library, id)
      case None => 0
      case Some(m) => if |m.scans| == 0 then 0 else RoundPercent(h.pageIndex, |m.scans|, belowHalf)
  }

  /** `toggleBookmark`: removes a bookmarked id, appends any other. */
  function ToggleBookmark(bookmarks: seq<string>, id: string): (r: seq<string>)
    ensures id !in bookmarks ==> r == bookmarks + [id]
    ensures forall y :: y != id ==> (y in r <==> y in bookmarks)
    ensures NoDup(bookmarks) ==> NoDup(r) && (id in r <==> id !in bookmarks)
  {
    Toggle(bookmarks, id)
  }

  /** Toggling twice restores the bookmark list's membership, and the list
      itself when the id was not bookmarked. */
  lemma ToggleBookmarkTwice(bookmarks: seq<string>, id: string)
    requires NoDup(bookmarks)
    ensures forall y :: y in ToggleBookmark(ToggleBookmark(bookmarks, id), id) <==> y in bookmarks
    ensures id !in bookmarks ==> ToggleBookmark(ToggleBookmark(bookmarks, id), id) == bookmarks
  {
    ToggleTwice(bookmarks, id);
  }

  /** The page `openMangaReader` starts on: the saved index, unchecked, or 0. */
  function StartIndex(history: History, id: string): (i: int)
    ensures OrderedMap.Lookup(history, id).None? ==> i == 0
    ensures OrderedMap.Lookup(history, id).Some? ==>
      OrderedMap.Entry(id, HistoryEntry(i, OrderedMap.Lookup(history, id).value.timestamp,
        OrderedMap.Lookup(history, id).value.mangaName)) in history
  {
    match OrderedMap.Lookup(history, id)
    case None => 0
    case Some(h) => h.pageIndex
  }

  /** `openMangaReader`: a missing manga, or one without pages, leaves the
      reader as it was; otherwise its pages are shown from the start index. */
  function OpenMangaReader(st: ReaderState, library: Library, history: History, id: string)
    : (r: ReaderState)
    ensures OrderedMap.Lookup(library, id).None? ==> r == st
    ensures OrderedMap.Lookup(library, id).Some? && |OrderedMap.Lookup(library, id).value.scans| == 0 ==> r == st
    ensures OrderedMap.Lookup(library, id).Some? && |OrderedMap.Lookup(library, id).value.scans| > 0 ==>
      r.manga == Some(id) && OrderedMap.Entry(id, Manga(OrderedMap.Lookup(library, id).value.name, r.pages)) in library
      && r.index == StartIndex(history, id)
  {
    match OrderedMap.Lookup(library, id)
    case None => st
    case Some(m) => if |m.scans| == 0 then st else ReaderState(Some(id), m.scans, StartIndex(history, id))
  }

  /** `saveReadingProgress`: with a manga open (a non-empty id) and a
      non-negative index, the history records the index, the time and the
      manga's name; no other manga's entry changes. */
  function SaveReadingProgress(st: ReaderState, library: Library, history: History, now: int)
    : (r: History)
    ensures st.manga.None? || st.manga.value == "" || st.index < 0 ==> r == history
    ensures forall k :: (st.manga.None? || k != st.manga.value) ==>
      OrderedMap.Lookup(r, k) == OrderedMap.Lookup(history, k)
    ensures (st.manga.Some? && st.manga.value != "" && st.index >= 0
      && OrderedMap.Lookup(library, st.manga.value).Some?) ==>
        OrderedMap.Lookup(r, st.manga.value)
          == Some(HistoryEntry(st.index, now, OrderedMap.Lookup(library, st.manga.value).value.name))
  {
    if st.manga.None? || st.manga.value == "" || st.index < 0 then history
    else
      match OrderedMap.Lookup(library, st.manga.value)
      case None => history
      case Some(m) => OrderedMap.Put(history, st.manga.value, HistoryEntry(st.index, now, m.name))
  }

  /** `closeReader`: save the progress, then reset the reader. */
  function CloseReader(st: ReaderState, library: Library, history: History, now: int)
    : (r: (ReaderState, History))
    ensures r.0 == Closed
    ensures r.1 == SaveReadingProgress(st, library, history, now)
  {
    (Closed, SaveReadingProgress(st, library, history, now))
  }

  /** Closing a manga and opening it again resumes on the page that was on
      show. */
  lemma CloseThenOpenResumes(st: ReaderState, library: Library, history: History, now: int)
    requires st.manga.Some? && st.manga.value != "" && st.index >= 0
    requires OrderedMap.Lookup(library, st.manga.value).Some?
    requires |OrderedMap.Lookup(library, st.manga.value).value.scans| > 0
    ensures var (closed, h) := CloseReader(st, library, history, now);
      OpenMangaReader(closed, library, h, st.manga.value).index == st.index
  {
  }

  // ----- the page display and the history it writes -----

  /** A manga is open under a non-empty id that the library knows. */
  predicate Showing(st: ReaderState, library: Library) {
    st.manga.Some? && st.manga.value != "" && OrderedMap.Lookup(library, st.manga.value).Some?
  }

  /** What `updatePageDisplay` does to the reading history: nothing without
      pages; when the index names no page, reading `currentPages[i].chapter`
      throws before the progress is saved, so the history stays; otherwise the
      progress is saved. */
  function ShowPage(st: ReaderState, library: Library, history: History, now: int): (r: History)
    ensures !(0 <= st.index < |st.pages|) ==> r == history
    ensures forall k :: (st.manga.None? || k != st.manga.value) ==>
      OrderedMap.Lookup(r, k) == OrderedMap.Lookup(history, k)
    ensures 0 <= st.index < |st.pages| && Showing(st, library) ==>
      OrderedMap.Lookup(r, st.manga.value)
        == Some(HistoryEntry(st.index, now, OrderedMap.Lookup(library, st.manga.value).value.name))
    ensures Showing(st, library) ==> StartIndex(r, st.manga.value) == StartIndex(history, st.manga.value)
                                      || StartIndex(r, st.manga.value) == st.index
  {
    if 0 <= st.index < |st.pages| then SaveReadingProgress(st, library, history, now) else history
  }

  /** The reader together with the reading history it writes. */
  datatype Session = Session(reader: ReaderState, history: History)

  /** `openMangaReader` with its page displays: the reader opens as
      `OpenMangaReader` says and the page shown is saved, so the manga's
      resume point stays where it was and no other manga's entry changes. */
  function OpenWithHistory(s: Session, library: Library, id: string, now: int): (r: Session)
    ensures r.reader == OpenMangaReader(s.reader, library, s.history, id)
    ensures (OrderedMap.Lookup(library, id).None? || |OrderedMap.Lookup(library, id).value.scans| == 0)
      ==> r == s
    ensures forall k :: k != id ==> OrderedMap.Lookup(r.history, k) == OrderedMap.Lookup(s.history, k)
    ensures StartIndex(r.history, id) == StartIndex(s.history, id)
    ensures (id != "" && OrderedMap.Lookup(library, id).Some?
             && 0 <= StartIndex(s.history, id) < |OrderedMap.Lookup(library, id).value.scans|) ==>
        OrderedMap.Lookup(r.history, id)
          == Some(HistoryEntry(StartIndex(s.history, id), now, OrderedMap.Lookup(library, id).value.name))
  {
    match OrderedMap.Lookup(library, id)
    case None => s
    case Some(m) =>
      if |m.scans| == 0 then s
      else
        var st := OpenMangaReader(s.reader, library, s.history, id);
        Session(st, ShowPage(st, library, s.history, now))
  }

  /** `nextPage`: a move shows the new page, which the history records. */
  function NextPageSaved(s: Session, library: Library, now: int): (r: Session)
    ensures r.reader == NextPage(s.reader)
    ensures r.reader == s.reader ==> r.history == s.history
    ensures forall k :: (s.reader.manga.None? || k != s.reader.manga.value) ==>
      OrderedMap.Lookup(r.history, k) == OrderedMap.Lookup(s.history, k)
    ensures r.reader != s.reader && r.reader.index >= 0 && Showing(s.reader, library) ==>
      StartIndex(r.history, s.reader.manga.value) == r.reader.index
  {
    var st := NextPage(s.reader);
    if st == s.reader then s else Session(st, ShowPage(st, library, s.history, now))
  }

  /** `previousPage`: a move shows the new page, which the history records. */
  function PrevPageSaved(s: Session, library: Library, now: int): (r: Session)
    ensures r.reader == PrevPage(s.reader)
    ensures r.reader == s.reader ==> r.history == s.history
    ensures forall k :: (s.reader.manga.None? || k != s.reader.manga.value) ==>
      OrderedMap.Lookup(r.history, k) == OrderedMap.Lookup(s.history, k)
    ensures r.reader != s.reader && r.reader.index < |r.reader.pages| && Showing(s.reader, library) ==>
      StartIndex(r.history, s.reader.manga.value) == r.reader.index
  {
    var st := PrevPage(s.reader);
    if st == s.reader then s else Session(st, ShowPage(st, library, s.history, now))
  }

  /** `jumpToChapter`: when some page carries the chapter, the reader shows the
      first such page and the history records it; otherwise nothing changes. */
  function JumpToChapterSaved(s: Session, library: Library, name: string, now: int): (r: Session)
    ensures r.reader == JumpToChapter(s.reader, name)
    ensures (forall i :: 0 <= i < |s.reader.pages| ==> s.reader.pages[i].chapter != name) ==> r == s
    ensures forall k :: (s.reader.manga.None? || k != s.reader.manga.value) ==>
      OrderedMap.Lookup(r.history, k) == OrderedMap.Lookup(s.history, k)
    ensures ((exists i :: 0 <= i < |s.reader.pages| && s.reader.pages[i].chapter == name)
             && Showing(s.reader, library)) ==>
        StartIndex(r.history, s.reader.manga.value) == r.reader.index
  {
    var i := FindIndex(s.reader.pages, (p: Page) => p.chapter == name);
    if i < 0 then s
    else
      var st := JumpToChapter(s.reader, name);
      Session(st, ShowPage(st, library, s.history, now))
  }

  function NegTimestamp(e: OrderedMap.Entry<string, HistoryEntry>): int {
    -e.value.timestamp
  }

  /** The history as `Object.entries(readingHistory)` lists it: manga ids that
      are array indices first, by number, then the others in the order they
      were first saved. */
  function HistoryEntries(history: History): (r: History)
    ensures multiset(r) == multiset(history)
  {
    OrderedMap.ObjectOrder(history, OrderedMap.KeyOf)
  }

  /** The "current reading" list: the history entries sorted newest first (a
      stable sort, so equal timestamps keep their object order), cut to five
      entries. */
  function RecentReads(history: History): (r: History)
    ensures |r| == Min(RecentCount, |history|)
    ensures forall x :: x in r ==> x in history
    ensures multiset(r) <= multiset(history)
  {
    var entries := HistoryEntries(history);
    var sorted := Sorting.SortBy(entries, NegTimestamp);
    assert multiset(sorted) == multiset(history);
    assert |sorted| == |history| by {
      assert |multiset(sorted)| == |multiset(history)|;
    }
    assert forall x :: x in sorted ==> x in history by {
      forall x | x in sorted ensures x in history {
        assert x in multiset(sorted);
      }
    }
    var r := Take(sorted, RecentCount);
    assert sorted == r + sorted[|r|..];
    r
  }

  /** A prefix of a list sorted newest first is itself newest first, and holds
      nothing older than what it leaves out. */
  lemma TakeNewestFirst(sorted: History, n: nat)
    requires Sorting.SortedBy(sorted, NegTimestamp)
    ensures forall i, j :: 0 <= i < j < |Take(sorted, n)| ==>
      Take(sorted, n)[i].value.timestamp >= Take(sorted, n)[j].value.timestamp
    ensures forall x, y :: x in sorted && x !in Take(sorted, n) && y in Take(sorted, n) ==>
      x.value.timestamp <= y.value.timestamp
  {
    var r := Take(sorted, n);
    forall i, j | 0 <= i < j < |r| ensures r[i].value.timestamp >= r[j].value.timestamp {
      assert NegTimestamp(sorted[i]) <= NegTimestamp(sorted[j]);
    }
    forall x, y | x in sorted && x !in r && y in r ensures x.value.timestamp <= y.value.timestamp {
      var a :| 0 <= a < |sorted| && sorted[a] == x;
      var b :| 0 <= b < |r| && r[b] == y;
      assert a >= |r|;
      assert NegTimestamp(sorted[b]) <= NegTimestamp(sorted[a]);
    }
  }

  /** The list is ordered newest first, and every history entry left out is no
      newer than any entry shown. */
  lemma RecentReadsNewestFirst(history: History)
    ensures forall i, j :: 0 <= i < j < |RecentReads(history)| ==>
      RecentReads(history)[i].value.timestamp >= RecentReads(history)[j].value.timestamp
    ensures forall x, y :: x in history && x !in RecentReads(history) && y in RecentReads(history) ==>
      x.value.timestamp <= y.value.timestamp
  {
    var sorted := Sorting.SortBy(HistoryEntries(history), NegTimestamp);
    Sorting.SortBySorted(HistoryEntries(history), NegTimestamp);
    assert RecentReads(history) == Take(sorted, RecentCount);
    TakeNewestFirst(sorted, RecentCount);
    forall x | x in history ensures x in sorted {
      assert x in multiset(sorted);
    }
  }

  /** When some page has no chapter and no page is literally named after the
      fallback, the fallback group is listed, yet jumping to it does nothing,
      while the corrected jump shows its first page. */
  lemma JumpToUnknownChapterIgnored(st: ReaderState, i: nat)
    requires i < |st.pages| && st.pages[i].chapter == ""
    requires forall j :: 0 <= j < |st.pages| ==> st.pages[j].chapter != UnknownChapter
    ensures UnknownChapter in Names(GroupPagesByChapter(st.pages))
    ensures JumpToChapter(st, UnknownChapter) == st
    ensures JumpToGroup(st, UnknownChapter).index <= i
    ensures st.pages[JumpToGroup(st, UnknownChapter).index].chapter == ""
  {
    GroupsFaithful(st.pages);
    assert ChapterKey(st.pages[i]) == UnknownChapter;
  }

  /** An instance: chapter 1, then a page without a chapter. */
  lemma JumpToUnknownChapterExample()
    ensures var st := ReaderState(Some("m"), [Page("Chapitre 1", "1.jpg"), Page("", "2.jpg")], 0);
      UnknownChapter in Names(GroupPagesByChapter(st.pages))
      && JumpToChapter(st, UnknownChapter) == st
      && JumpToGroup(st, UnknownChapter).index == 1
  {
    var st := ReaderState(Some("m"), [Page("Chapitre 1", "1.jpg"), Page("", "2.jpg")], 0);
    assert "Chapitre 1" != UnknownChapter;
    JumpToUnknownChapterIgnored(st, 1);
  }
}
