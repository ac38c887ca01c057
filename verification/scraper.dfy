/** The catalogue generator of the anime-sama scraper. Nothing is fetched:
    the scans of a manga are generated from a fixed address pattern, a fixed
    table of six mangas is walked for the popular list, and a search filters
    that list by name. Numeric options arrive through `parseInt`, so they may
    be NaN, against which every comparison is false. */
module Scraper {
  import opened Common
  import opened Strings
  import OrderedMap

  // ----- JavaScript numbers as `parseInt` produces them -----

  datatype Num = Int(v: int) | NaN

  /** `i <= n`, false against NaN. */
  predicate AtMost(i: int, n: Num) {
    n.Int? && i <= n.v
  }

  /** `i >= n`, false against NaN. */
  predicate AtLeast(i: int, n: Num) {
    n.Int? && i >= n.v
  }

  /** The characters `parseInt` skips before the number: white space and
      line terminators. */
  predicate IsSpace(c: char) {
    var k := c as int;
    (9 <= k <= 13) || k == 32 || k == 0xA0 || k == 0x1680 || (0x2000 <= k <= 0x200A)
    || k == 0x2028 || k == 0x2029 || k == 0x202F || k == 0x205F || k == 0x3000 || k == 0xFEFF
  }

  function TrimStart(s: string): (r: string)
    ensures |r| <= |s| && r == s[|s| - |r|..]
    ensures |r| > 0 ==> !IsSpace(r[0])
    ensures |s| == 0 || !IsSpace(s[0]) ==> r == s
  {
    if |s| > 0 && IsSpace(s[0]) then
      var r := TrimStart(s[1..]);
      assert s[1..][|s| - 1 - |r|..] == s[|s| - |r|..];
      r
    else s
  }

  /** The value of a digit character in bases up to 16, 16 for anything else. */
  function DigitOf(c: char): (d: nat)
    ensures d <= 16
    ensures IsDigit(c) ==> d == DigitValue(c)
  {
    if '0' <= c <= '9' then c as int - '0' as int
    else if 'a' <= c <= 'f' then c as int - 'a' as int + 10
    else if 'A' <= c <= 'F' then c as int - 'A' as int + 10
    else 16
  }

  /** The longest prefix of digits of base `radix`. */
  function LeadingDigits(s: string, radix: nat): (r: string)
    ensures r <= s
    ensures forall i :: 0 <= i < |r| ==> DigitOf(r[i]) < radix
    ensures |r| < |s| ==> DigitOf(s[|r|]) >= radix
  {
    if |s| > 0 && DigitOf(s[0]) < radix then [s[0]] + LeadingDigits(s[1..], radix) else []
  }

  lemma {:induction false} LeadingDigitsAll(s: string, radix: nat)
    requires forall i :: 0 <= i < |s| ==> DigitOf(s[i]) < radix
    ensures LeadingDigits(s, radix) == s
  {
    if |s| > 0 {
      LeadingDigitsAll(s[1..], radix);
    }
  }

  lemma MulNat(a: nat, b: nat)
    ensures a * b >= 0
  {
  }

  function DigitsValue(ds: string, radix: nat): nat
    requires forall i :: 0 <= i < |ds| ==> DigitOf(ds[i]) < radix
  {
    if |ds| == 0 then 0
    else
      var prefix := ds[..|ds| - 1];
      assert forall i :: 0 <= i < |prefix| ==> prefix[i] == ds[i];
      var v: nat := DigitsValue(prefix, radix);
      MulNat(v, radix);
      v * radix + DigitOf(ds[|ds| - 1])
  }

  /** The unsigned part of `parseInt`: a `0x` or `0X` prefix selects base
      16, then the longest run of digits is read; with no digit the result
      is NaN. */
  function ParseUnsigned(u: string): (r: Num)
    ensures r.Int? ==> r.v >= 0
  {
    var hex := |u| >= 2 && u[0] == '0' && (u[1] == 'x' || u[1] == 'X');
    var radix := if hex then 16 else 10;
    var ds := LeadingDigits(if hex then u[2..] else u, radix);
    if |ds| == 0 then NaN else Int(DigitsValue(ds, radix))
  }

  /** `parseInt(s)` without a radix: leading white space is skipped and one
      sign is read before the unsigned part. */
  function ParseInt(s: string): (r: Num)
    ensures r.NaN? <==> ParseUnsigned(Unsigned(TrimStart(s))).NaN?
  {
    var t := TrimStart(s);
    var n := ParseUnsigned(Unsigned(t));
    if |t| > 0 && t[0] == '-' && n.Int? then Int(-n.v) else n
  }

  /** The text after an optional sign. */
  function Unsigned(t: string): (u: string)
    ensures |u| <= |t| && u == t[|t| - |u|..]
  {
    if |t| > 0 && (t[0] == '-' || t[0] == '+') then t[1..] else t
  }

  lemma {:induction false} DecimalDigitsValue(ds: string)
    requires forall c :: c in ds ==> IsDigit(c)
    ensures forall i :: 0 <= i < |ds| ==> DigitOf(ds[i]) < 10
    ensures DigitsValue(ds, 10) == ParseDigits(ds)
  {
    if |ds| > 0 {
      DecimalDigitsValue(ds[..|ds| - 1]);
    }
  }

  /** A decimal rendering followed by text that cannot continue it reads
      as the rendered number. */
  lemma ParseUnsignedOfNat(n: nat, rest: string)
    requires |rest| == 0 || (DigitOf(rest[0]) >= 10 && rest[0] != 'x' && rest[0] != 'X')
    ensures ParseUnsigned(NatToString(n) + rest) == Int(n)
  {
    var d := NatToString(n);
    var u := d + rest;
    assert d[0] in d;
    assert u[0] == d[0];
    assert |d| >= 2 ==> d[1] in d && u[1] == d[1];
    assert |d| == 1 && |rest| > 0 ==> u[1] == rest[0];
    DecimalDigitsValue(d);
    LeadingDigitsStops(d, rest, 10);
    NatToStringRoundTrip(n);
  }

  lemma DigitNotSpace(d: string)
    requires |d| > 0 && forall c :: c in d ==> IsDigit(c)
    ensures !IsSpace(d[0]) && d[0] != '-' && d[0] != '+'
  {
    assert d[0] in d;
  }

  /** `parseInt` reads back the decimal rendering of any natural number. */
  lemma ParseIntOfNat(n: nat)
    ensures ParseInt(NatToString(n)) == Int(n)
  {
    var d := NatToString(n);
    DigitNotSpace(d);
    assert TrimStart(d) == d;
    assert Unsigned(d) == d;
    ParseUnsignedOfNat(n, "");
    assert d + "" == d;
  }

  /** Text that starts with neither white space, a sign nor a digit reads as
      NaN. */
  lemma ParseIntNoDigit(s: string)
    requires |s| == 0 || (!IsSpace(s[0]) && s[0] != '-' && s[0] != '+' && DigitOf(s[0]) >= 10)
    ensures ParseInt(s) == NaN
  {
    assert TrimStart(s) == s;
    assert Unsigned(s) == s;
    assert LeadingDigits(s, 10) == [];
  }

  /** One leading space is skipped before text that does not start with
      white space. */
  lemma TrimOneSpace(u: string)
    requires |u| > 0 && !IsSpace(u[0])
    ensures TrimStart(" " + u) == u
  {
    assert (" " + u)[1..] == u;
  }

  /** Leading white space and trailing text are ignored. */
  lemma ParseIntIgnoresSurroundings(n: nat, rest: string)
    requires |rest| == 0 || (DigitOf(rest[0]) >= 10 && rest[0] != 'x' && rest[0] != 'X')
    ensures ParseInt(" " + NatToString(n) + rest) == Int(n)
  {
    var u := NatToString(n) + rest;
    NatTextStart(n, rest);
    TrimOneSpace(u);
    assert " " + NatToString(n) + rest == " " + u;
    ParseIntUnsigned(" " + u, u);
    ParseUnsignedOfNat(n, rest);
  }

  /** A decimal rendering, whatever follows it, starts with a digit. */
  lemma NatTextStart(n: nat, rest: string)
    ensures var u := NatToString(n) + rest;
      |u| > 0 && !IsSpace(u[0]) && u[0] != '-' && u[0] != '+'
  {
    var d := NatToString(n);
    DigitNotSpace(d);
    assert (d + rest)[0] == d[0];
  }

  /** Text that, once trimmed, starts without a sign reads as its unsigned
      part. */
  lemma ParseIntUnsigned(s: string, u: string)
    requires TrimStart(s) == u
    requires |u| > 0 && u[0] != '-' && u[0] != '+'
    ensures ParseInt(s) == ParseUnsigned(u)
  {
    assert Unsigned(u) == u;
  }

  lemma {:induction false} LeadingDigitsStops(d: string, rest: string, radix: nat)
    requires forall i :: 0 <= i < |d| ==> DigitOf(d[i]) < radix
    requires |rest| == 0 || DigitOf(rest[0]) >= radix
    ensures LeadingDigits(d + rest, radix) == d
  {
    if |d| == 0 {
      assert d + rest == rest;
    } else {
      assert (d + rest)[1..] == d[1..] + rest;
      LeadingDigitsStops(d[1..], rest, radix);
    }
  }

  // ----- query parameters and defaults -----

  /** A query-string parameter: missing, or given as text. */
  datatype QueryParam = Absent | Text(s: string)

  const DefaultChapters: nat := 5
  const DefaultPages: nat := 10
  const DefaultMangas: nat := 6

  /** A destructuring default applies only to a missing parameter, then
      `parseInt` reads the text (or the default number's text). */
  function NumberParam(p: QueryParam, default: nat): (r: Num)
    ensures p.Absent? ==> r == Int(default)
    ensures p.Text? ==> r == ParseInt(p.s)
  {
    match p
    case Absent => ParseIntOfNat(default); ParseInt(NatToString(default))
    case Text(s) => ParseInt(s)
  }

  // ----- the catalogue -----

  const BaseUrl := "https://anime-sama.fr"
  const ScansUrl := "https://anime-sama.fr/s2/scans"

  datatype MangaInfo = MangaInfo(name: string, url: string, maxChapters: nat)

  /** The fixed table of popular mangas, keyed by id, in walking order. */
  const Catalogue: seq<OrderedMap.Entry<string, MangaInfo>> := [
    OrderedMap.Entry("naruto", MangaInfo("Naruto", "/catalogue/naruto/scan/vf/", 700)),
    OrderedMap.Entry("one-piece", MangaInfo("One Piece", "/catalogue/one-piece/scan/vf/", 1100)),
    OrderedMap.Entry("demon-slayer", MangaInfo("Demon Slayer", "/catalogue/demon-slayer/scan/vf/", 205)),
    OrderedMap.Entry("my-hero-academia", MangaInfo("My Hero Academia", "/catalogue/my-hero-academia/scan/vf/", 400)),
    OrderedMap.Entry("attack-on-titan", MangaInfo("Attack on Titan", "/catalogue/attack-on-titan/scan/vf/", 139)),
    OrderedMap.Entry("dragon-ball", MangaInfo("Dragon Ball", "/catalogue/dragon-ball/scan/vf/", 519))
  ]

  const FolderTable: seq<(string, string)> := [
    ("naruto", "Naruto"),
    ("one-piece", "One%20Piece"),
    ("demon-slayer", "Demon%20Slayer"),
    ("my-hero-academia", "My%20Hero%20Academia"),
    ("attack-on-titan", "Attack%20on%20Titan"),
    ("dragon-ball", "Dragon%20Ball")
  ]

  function FolderLookup(table: seq<(string, string)>, id: string): (r: Option<string>)
    ensures r.None? <==> forall i :: 0 <= i < |table| ==> table[i].0 != id
    ensures r.Some? ==> exists i :: 0 <= i < |table| && table[i] == (id, r.value)
  {
    if |table| == 0 then None
    else if table[0].0 == id then Some(table[0].1)
    else
      var r := FolderLookup(table[1..], id);
      assert forall i :: 1 <= i < |table| ==> table[1..][i - 1] == table[i];
      r
  }

  /** `getMangaFolderName`: the folder of a known id, `Naruto` for any other. */
  function FolderName(id: string): (f: string)
    ensures (forall i :: 0 <= i < |FolderTable| ==> FolderTable[i].0 != id) ==> f == "Naruto"
    ensures forall i :: 0 <= i < |FolderTable| && FolderTable[i].0 == id ==> f == FolderTable[i].1
  {
    var r := FolderLookup(FolderTable, id);
    if r.Some? then r.value else "Naruto"
  }

  // ----- the scans of one manga -----

  /** One page record; the random file size is not part of the model. */
  datatype Scan = Scan(
    title: string,
    image: string,
    chapter: string,
    chapterNumber: nat,
    page: nat,
    link: string,
    source: string,
    site: string,
    mangaName: string)

  function ImageUrl(folder: string, chapter: nat, page: nat): string {
    ScansUrl + "/" + folder + "/" + NatToString(chapter) + "/" + NatToString(page) + ".jpg"
  }

  function ScanAt(id: string, info: MangaInfo, chapter: nat, page: nat): (s: Scan)
    ensures s.chapterNumber == chapter && s.page == page
    ensures s.chapter == "Chapitre " + NatToString(chapter)
    ensures s.image == ImageUrl(FolderName(id), chapter, page)
    ensures s.mangaName == info.name
  {
    Scan(info.name + " - Chapitre " + NatToString(chapter) + " - Page " + NatToString(page),
         ImageUrl(FolderName(id), chapter, page),
         "Chapitre " + NatToString(chapter),
         chapter, page,
         BaseUrl + info.url,
         "Anime-Sama", "anime-sama",
         info.name)
  }

  /** How many times a `for (i = 1; i <= n; i++)` loop runs. */
  function Count(n: Num): (c: nat)
    ensures n.Int? && n.v >= 1 ==> c == n.v
    ensures !(n.Int? && n.v >= 1) ==> c == 0
  {
    if n.Int? && n.v >= 1 then n.v else 0
  }

  /** The scans of a manga in chapter-major order: record `i` is page
      `i mod P + 1` of chapter `i div P + 1`, `P` being the pages per chapter. */
  function MangaScans(id: string, info: MangaInfo, chapters: Num, pages: Num): (r: seq<Scan>)
    ensures |r| == Count(chapters) * Count(pages)
  {
    var p := Count(pages);
    seq(Count(chapters) * p, i requires 0 <= i < Count(chapters) * p => ScanAt(id, info, i / p + 1, i % p + 1))
  }

  lemma MulSucc(a: nat, p: nat)
    ensures (a + 1) * p == a * p + p
  {
  }

  lemma DivMod(q: nat, r: nat, p: nat)
    requires r < p
    ensures (q * p + r) / p == q && (q * p + r) % p == r
  {
    var x := q * p + r;
    var d, m := x / p, x % p;
    assert x == d * p + m;
    if d > q {
      MulMonotone(q + 1, d, p);
    } else if d < q {
      MulMonotone(d + 1, q, p);
    }
  }

  /** `getMangaScans`: the two nested loops, chapter by chapter and page by
      page. */
  method GetMangaScans(id: string, info: MangaInfo, maxChapters: Num, maxPagesPerChapter: Num)
    returns (scans: seq<Scan>)
    ensures scans == MangaScans(id, info, maxChapters, maxPagesPerChapter)
  {
    scans := NestedLoops(maxChapters, maxPagesPerChapter, (c: nat, p: nat) => ScanAt(id, info, c, p));
    var r := MangaScans(id, info, maxChapters, maxPagesPerChapter);
    assert forall k :: 0 <= k < |r| ==> scans[k] == r[k];
  }

  /** Appending the call for the next page keeps element `k` equal to the
      call for chapter `k div P + 1` and page `k mod P + 1`. */
  lemma AppendCell<T>(r: seq<T>, pc: nat, f: (nat, nat) -> T, chapter: nat, page: nat)
    requires 1 <= chapter && 1 <= page <= pc
    requires |r| == (chapter - 1) * pc + (page - 1)
    requires forall k :: 0 <= k < |r| ==> r[k] == f(k / pc + 1, k % pc + 1)
    ensures var r' := r + [f(chapter, page)];
      forall k :: 0 <= k < |r'| ==> r'[k] == f(k / pc + 1, k % pc + 1)
  {
    var r' := r + [f(chapter, page)];
    DivMod(chapter - 1, page - 1, pc);
    forall k | 0 <= k < |r'| ensures r'[k] == f(k / pc + 1, k % pc + 1) {
      if k < |r| {
        assert r'[k] == r[k];
      }
    }
  }

  /** `for (c = 1; c <= chapters; c++) for (p = 1; p <= pages; p++)`, collecting
      `f(c, p)`: element `k` is the call for chapter `k div P + 1` and page
      `k mod P + 1`. */
  method NestedLoops<T>(chapters: Num, pages: Num, f: (nat, nat) -> T) returns (r: seq<T>)
    ensures |r| == Count(chapters) * Count(pages)
    ensures forall k :: 0 <= k < |r| ==> r[k] == f(k / Count(pages) + 1, k % Count(pages) + 1)
  {
    var cc, pc := Count(chapters), Count(pages);
    r := [];
    var chapter := 1;
    while AtMost(chapter, chapters)
      invariant 1 <= chapter <= cc + 1
      invariant |r| == (chapter - 1) * pc
      invariant forall k :: 0 <= k < |r| ==> r[k] == f(k / pc + 1, k % pc + 1)
      decreases cc + 1 - chapter
    {
      ghost var base := |r|;
      var page := 1;
      while AtMost(page, pages)
        invariant 1 <= page <= pc + 1
        invariant |r| == base + (page - 1)
        invariant forall k :: 0 <= k < |r| ==> r[k] == f(k / pc + 1, k % pc + 1)
        decreases pc + 1 - page
      {
        AppendCell(r, pc, f, chapter, page);
        r := r + [f(chapter, page)];
        page := page + 1;
      }
      MulSucc(chapter - 1, pc);
      chapter := chapter + 1;
    }
    assert chapter == cc + 1;
  }

  /** The records come in chapter-major order and stay inside the bounds. */
  lemma MangaScansOrder(id: string, info: MangaInfo, chapters: Num, pages: Num, i: nat, j: nat)
    requires i < j < Count(chapters) * Count(pages)
    ensures var r := MangaScans(id, info, chapters, pages);
      1 <= r[i].page <= Count(pages) && 1 <= r[i].chapterNumber <= Count(chapters)
      && (r[i].chapterNumber < r[j].chapterNumber
          || (r[i].chapterNumber == r[j].chapterNumber && r[i].page < r[j].page))
  {
    var p := Count(pages);
    MangaScansAt(id, info, chapters, pages, i);
    MangaScansAt(id, info, chapters, pages, j);
    DivLess(i, p, Count(chapters));
    DivMonotone(i, j, p);
  }

  /** Record `i` is page `i mod P + 1` of chapter `i div P + 1`. */
  lemma MangaScansAt(id: string, info: MangaInfo, chapters: Num, pages: Num, i: nat)
    requires i < Count(chapters) * Count(pages)
    ensures Count(pages) > 0
    ensures var r := MangaScans(id, info, chapters, pages); var p := Count(pages);
      r[i].chapterNumber == i / p + 1 && r[i].page == i % p + 1
  {
  }

  lemma DivLess(i: nat, p: nat, c: nat)
    requires i < c * p
    ensures i / p < c
  {
    if i / p >= c {
      MulMonotone(c, i / p, p);
    }
  }

  lemma MulMonotone(a: nat, b: nat, p: nat)
    requires a <= b
    ensures a * p <= b * p
  {
  }

  lemma DivMonotone(i: nat, j: nat, p: nat)
    requires i < j && p > 0
    ensures i / p <= j / p
    ensures i / p == j / p ==> i % p < j % p
  {
    if i / p > j / p {
      MulMonotone(j / p + 1, i / p, p);
    }
  }

  lemma FirstSlash(a: string, b: string)
    requires '/' !in a
    ensures Common.IndexOf(a + "/" + b, '/') == |a|
  {
    var x := a + "/" + b;
    assert x[|a|] == '/';
    assert forall k :: 0 <= k < |a| ==> x[k] == a[k] && a[k] in a;
  }

  lemma SplitAtSlash(a: string, b: string, c: string, d: string)
    requires '/' !in a && '/' !in c
    requires a + "/" + b == c + "/" + d
    ensures a == c && b == d
  {
    var x := a + "/" + b;
    FirstSlash(a, b);
    FirstSlash(c, d);
    assert a == x[..|a|] == c;
    assert b == x[|a| + 1..] == d;
  }

  lemma CancelPrefix(pre: string, a: string, b: string)
    requires pre + a == pre + b
    ensures a == b
  {
    assert a == (pre + a)[|pre|..];
  }

  lemma CancelSuffix(a: string, b: string, post: string)
    requires a + post == b + post
    ensures a == b
  {
    assert a == (a + post)[..|a|];
  }

  lemma NatTextNoSlash(n: nat)
    ensures '/' !in NatToString(n)
  {
    assert forall c :: c in NatToString(n) ==> IsDigit(c);
  }

  /** An image address is the manga's folder prefix followed by the chapter,
      a slash and the page file. */
  lemma ImageUrlParts(f: string, c: nat, p: nat)
    ensures ImageUrl(f, c, p)
         == (ScansUrl + "/" + f + "/") + (NatToString(c) + "/" + (NatToString(p) + ".jpg"))
  {
  }

  /** Two pages of one manga never share an image address. */
  lemma ImageUrlInjective(id: string, c1: nat, p1: nat, c2: nat, p2: nat)
    requires ImageUrl(FolderName(id), c1, p1) == ImageUrl(FolderName(id), c2, p2)
    ensures c1 == c2 && p1 == p2
  {
    var f := FolderName(id);
    var n1, m1, n2, m2 := NatToString(c1), NatToString(p1), NatToString(c2), NatToString(p2);
    ImageUrlParts(f, c1, p1);
    ImageUrlParts(f, c2, p2);
    CancelPrefix(ScansUrl + "/" + f + "/", n1 + "/" + (m1 + ".jpg"), n2 + "/" + (m2 + ".jpg"));
    NatTextNoSlash(c1);
    NatTextNoSlash(c2);
    SplitAtSlash(n1, m1 + ".jpg", n2, m2 + ".jpg");
    CancelSuffix(m1, m2, ".jpg");
    NatToStringInjective(c1, c2);
    NatToStringInjective(p1, p2);
  }

  /** Every record of a manga names a different image. */
  lemma MangaScansDistinctImages(id: string, info: MangaInfo, chapters: Num, pages: Num, i: nat, j: nat)
    requires i < j < Count(chapters) * Count(pages)
    ensures MangaScans(id, info, chapters, pages)[i].image != MangaScans(id, info, chapters, pages)[j].image
  {
    var r := MangaScans(id, info, chapters, pages);
    MangaScansOrder(id, info, chapters, pages, i, j);
    if r[i].image == r[j].image {
      ImageUrlInjective(id, r[i].chapterNumber, r[i].page, r[j].chapterNumber, r[j].page);
    }
  }

  // ----- the popular list -----

  datatype MangaResult = MangaResult(info: MangaInfo, scans: seq<Scan>)

  /** The `results` object, in insertion order. */
  type Popular = seq<OrderedMap.Entry<string, MangaResult>>

  /** The selection loop from the current catalogue position: stop once
      `processed >= maxMangas`, keep a manga only if it has scans. */
  function PopularFrom(entries: seq<OrderedMap.Entry<string, MangaInfo>>, chapters: Num, pages: Num,
                       maxMangas: Num, processed: nat): (r: Popular)
    ensures |r| <= |entries|
    ensures forall x :: x in r ==> |x.value.scans| > 0
    decreases |entries|
  {
    if |entries| == 0 || AtLeast(processed, maxMangas) then []
    else
      var e := entries[0];
      var scans := MangaScans(e.key, e.value, chapters, pages);
      if |scans| > 0 then
        [OrderedMap.Entry(e.key, MangaResult(e.value, scans))]
          + PopularFrom(entries[1..], chapters, pages, maxMangas, processed + 1)
      else PopularFrom(entries[1..], chapters, pages, maxMangas, processed)
  }

  /** `getPopularScans`. */
  function PopularScans(chapters: Num, pages: Num, maxMangas: Num): Popular {
    PopularFrom(Catalogue, chapters, pages, maxMangas, 0)
  }

  /** How many mangas the loop can still take: all of them against NaN, no
      more than the cap otherwise. */
  function Room(entries: nat, maxMangas: Num, processed: nat): nat {
    if maxMangas.NaN? then entries
    else if maxMangas.v - processed <= 0 then 0
    else Min(entries, maxMangas.v - processed)
  }

  lemma {:induction false} PopularFromShape(entries: seq<OrderedMap.Entry<string, MangaInfo>>, chapters: Num,
                                            pages: Num, maxMangas: Num, processed: nat)
    ensures var r := PopularFrom(entries, chapters, pages, maxMangas, processed);
      |r| == (if Count(chapters) * Count(pages) == 0 then 0 else Room(|entries|, maxMangas, processed))
      && forall i :: 0 <= i < |r| ==> i < |entries| && r[i].key == entries[i].key && r[i].value.info == entries[i].value
    decreases |entries|
  {
    if |entries| > 0 && !AtLeast(processed, maxMangas) {
      PopularFromShape(entries[1..], chapters, pages, maxMangas, processed + 1);
      PopularFromShape(entries[1..], chapters, pages, maxMangas, processed);
    }
  }

  /** The popular list holds nothing when a manga gets no scans (every manga
      gets the same number), and otherwise the first `min(6, maxMangas)`
      catalogue entries, all six when `maxMangas` is NaN; each under its id
      and with its catalogue record. */
  lemma PopularScansShape(chapters: Num, pages: Num, maxMangas: Num)
    ensures var r := PopularScans(chapters, pages, maxMangas);
      |r| == (if Count(chapters) * Count(pages) == 0 then 0 else Room(6, maxMangas, 0))
      && forall i :: 0 <= i < |r| ==> i < |Catalogue| && r[i].key == Catalogue[i].key && r[i].value.info == Catalogue[i].value
  {
    PopularFromShape(Catalogue, chapters, pages, maxMangas, 0);
  }

  /** The options used by `searchManga`: default chapters and pages, at most
      ten mangas. */
  function SearchOptions(): (Num, Num, Num) {
    (Int(DefaultChapters), Int(DefaultPages), Int(10))
  }

  function NameMatches(query: string): OrderedMap.Entry<string, MangaResult> -> bool {
    (e: OrderedMap.Entry<string, MangaResult>) => Contains(Lower(e.value.info.name), Lower(query))
  }

  /** `searchManga`: the popular mangas (fetched with at most ten mangas)
      whose name contains the query, ignoring case, in catalogue order. */
  function SearchManga(query: string): (r: Popular)
    ensures var all := PopularScans(Int(DefaultChapters), Int(DefaultPages), Int(10));
      forall x :: x in r <==> x in all && Contains(Lower(x.value.info.name), Lower(query))
  {
    var (c, p, m) := SearchOptions();
    Filter(PopularScans(c, p, m), NameMatches(query))
  }

  /** An empty query matches every popular manga: the search returns all six,
      each with its fifty default records. */
  lemma SearchEmptyQuery()
    ensures SearchManga("") == PopularScans(Int(DefaultChapters), Int(DefaultPages), Int(10))
    ensures |SearchManga("")| == 6
  {
    var all := PopularScans(Int(DefaultChapters), Int(DefaultPages), Int(10));
    forall i | 0 <= i < |all| ensures NameMatches("")(all[i]) {
      ContainsEmpty(Lower(all[i].value.info.name));
    }
    FilterAll(all, NameMatches(""));
    PopularScansShape(Int(DefaultChapters), Int(DefaultPages), Int(10));
  }
}
