/** `LocationService.getPagedFeedbackContent`: a location's feedbacks of one
    type, sorted by rating or date and cut into pages, with the page
    metadata the service reports; and the parsing of its sort criteria. */
module FeedbackPaging {
  import opened Text
  import opened Notes
  import opened Sorting

  /** A feedback record. Its rating (a `double`) and its date (a text parsed
      as a date-time) are modelled by integer keys with the same order. */
  datatype Feedback = Feedback(id: string, locationId: string, feedbackType: string, rate: int, date: int)

  /** The feedback ids each location lists (`None` when the list is null) and
      the feedback table by id. */
  datatype FeedbackTables = FeedbackTables(
    locationFeedbacks: map<string, Option<seq<string>>>,
    feedbacks: map<string, Feedback>)

  /** A listed id that names a stored feedback of the wanted type. With the
      wanted type already in lower case, `equalsIgnoreCase` against it is a
      comparison of the lower-cased type. */
  predicate Wanted(st: FeedbackTables, id: string, wanted: string) {
    id in st.feedbacks && Lower(st.feedbacks[id].feedbackType) == wanted
  }

  /** Fetching the listed feedbacks, dropping missing ones and those of
      another type, in list order. */
  function Kept(st: FeedbackTables, ids: seq<string>, wanted: string): (r: seq<Feedback>)
    ensures |r| <= |ids|
    ensures forall j :: 0 <= j < |r| ==> Lower(r[j].feedbackType) == wanted
    ensures forall i :: 0 <= i < |ids| && Wanted(st, ids[i], wanted) ==> st.feedbacks[ids[i]] in r
    ensures forall j :: 0 <= j < |r| ==>
      exists i :: 0 <= i < |ids| && Wanted(st, ids[i], wanted) && st.feedbacks[ids[i]] == r[j]
  {
    if ids == [] then []
    else
      var init, last := ids[..|ids| - 1], ids[|ids| - 1];
      var prior := Kept(st, init, wanted);
      assert forall i :: 0 <= i < |init| ==> init[i] == ids[i];
      if Wanted(st, last, wanted) then prior + [st.feedbacks[last]] else prior
  }

  /** One more listed id adds its feedback at the end exactly when it is wanted. */
  lemma KeptSnoc(st: FeedbackTables, ids: seq<string>, x: string, wanted: string)
    ensures Kept(st, ids + [x], wanted)
      == Kept(st, ids, wanted) + (if Wanted(st, x, wanted) then [st.feedbacks[x]] else [])
  {
    assert (ids + [x])[..|ids + [x]| - 1] == ids;
  }

  /** Filtering keeps list order: it works on each part of a list separately. */
  lemma {:induction false} KeptAppend(st: FeedbackTables, a: seq<string>, b: seq<string>, wanted: string)
    ensures Kept(st, a + b, wanted) == Kept(st, a, wanted) + Kept(st, b, wanted)
    decreases |b|
  {
    if b == [] {
      assert a + b == a;
    } else {
      var b', x := b[..|b| - 1], b[|b| - 1];
      assert b == b' + [x];
      assert a + b == (a + b') + [x];
      KeptAppend(st, a, b', wanted);
      KeptSnoc(st, a + b', x, wanted);
      KeptSnoc(st, b', x, wanted);
    }
  }

  datatype Basis = ByRating | ByDate

  datatype SortSpec = SortSpec(basis: Basis, descending: bool)

  /** A null or empty criterion means "rating,asc". */
  function CriteriaText(sort: Option<string>): string {
    if sort.None? || sort.value == "" then "rating,asc" else sort.value
  }

  /** The checks of `sortFeedbacks` on the parts of the criteria: exactly two
      parts, a basis of rating or date and an order of asc or desc, each
      trimmed and compared ignoring case. */
  function ParseSortParts(parts: seq<string>): (r: Outcome<SortSpec>)
    ensures r.Raised? ==> r.exception == "IllegalArgumentException"
    ensures r.Raised? ==> r.note.FeedbackSortFormat? || r.note.FeedbackSortBasis? || r.note.SortOrder?
    ensures r.Raised? && r.note.FeedbackSortFormat? <==> |parts| != 2
    ensures r.Raised? && r.note.FeedbackSortBasis? <==>
      |parts| == 2 && Lower(Trim(parts[0])) != "rating" && Lower(Trim(parts[0])) != "date"
    ensures r.Raised? && r.note.SortOrder? <==>
      |parts| == 2 && (Lower(Trim(parts[0])) == "rating" || Lower(Trim(parts[0])) == "date")
      && Lower(Trim(parts[1])) != "asc" && Lower(Trim(parts[1])) != "desc"
    ensures r.Done? <==>
      |parts| == 2 && (Lower(Trim(parts[0])) == "rating" || Lower(Trim(parts[0])) == "date")
      && (Lower(Trim(parts[1])) == "asc" || Lower(Trim(parts[1])) == "desc")
    ensures r.Done? ==>
      |parts| == 2
      && (r.value.basis == ByRating <==> Lower(Trim(parts[0])) == "rating")
      && (r.value.basis == ByDate <==> Lower(Trim(parts[0])) == "date")
      && (r.value.descending <==> Lower(Trim(parts[1])) == "desc")
      && (!r.value.descending <==> Lower(Trim(parts[1])) == "asc")
  {
    if |parts| != 2 then Raised("IllegalArgumentException", FeedbackSortFormat)
    else
      var basis := Lower(Trim(parts[0]));
      var order := Lower(Trim(parts[1]));
      if basis != "rating" && basis != "date" then Raised("IllegalArgumentException", FeedbackSortBasis)
      else if order != "asc" && order != "desc" then Raised("IllegalArgumentException", SortOrder)
      else Done(SortSpec(if basis == "rating" then ByRating else ByDate, order == "desc"))
  }

  function SortParts(sort: Option<string>): seq<string> {
    JavaSplit(CriteriaText(sort), ',')
  }

  /** `sortFeedbacks`' reading of the criteria. */
  function ParseFeedbackSort(sort: Option<string>): Outcome<SortSpec> {
    ParseSortParts(SortParts(sort))
  }

  /** A trailing comma does not change how criteria with a comma are read. */
  lemma TrailingCommaIgnored(criteria: string)
    requires ',' in criteria
    ensures ParseFeedbackSort(Some(criteria + ",")) == ParseFeedbackSort(Some(criteria))
  {
    TrailingSeparatorDropped(criteria, ',');
    assert criteria + "," == criteria + [','];
    assert CriteriaText(Some(criteria + ",")) == criteria + ",";
    assert CriteriaText(Some(criteria)) == criteria;
    assert SortParts(Some(criteria + ",")) == SortParts(Some(criteria));
  }

  lemma DefaultParts()
    ensures SortParts(None) == ["rating", "asc"]
  {
    assert "rating,asc" == "rating" + [','] + "asc";
    SplitTwo("rating", "asc", ',');
  }

  lemma DefaultWords()
    ensures Lower(Trim("rating")) == "rating" && Lower(Trim("asc")) == "asc"
  {
    assert TrimStart("rating") == "rating" && TrimEnd("rating") == "rating";
    assert TrimStart("asc") == "asc" && TrimEnd("asc") == "asc";
    assert Lower("rating") == "rating" by {
      assert forall i :: 0 <= i < 6 ==> Lower("rating")[i] == LowerChar("rating"[i]);
    }
    assert Lower("asc") == "asc" by {
      assert forall i :: 0 <= i < 3 ==> Lower("asc")[i] == LowerChar("asc"[i]);
    }
  }

  /** A missing criterion sorts by ascending rating. */
  lemma DefaultCriteria()
    ensures ParseFeedbackSort(None) == Done(SortSpec(ByRating, false))
  {
    DefaultParts();
    DefaultWords();
    var parts := SortParts(None);
    assert parts[0] == "rating" && parts[1] == "asc";
    assert ParseSortParts(parts) == ParseSortParts(["rating", "asc"]);
  }

  /** Criteria without a comma are one part, never two. */
  lemma NoCommaIsFormatError(criteria: string)
    requires ',' !in criteria && criteria != ""
    ensures ParseFeedbackSort(Some(criteria)) == Raised("IllegalArgumentException", FeedbackSortFormat)
  {
  }

  function RateKey(f: Feedback): int {
    f.rate
  }

  function DateKey(f: Feedback): int {
    f.date
  }

  function SortKey(basis: Basis): Feedback -> int {
    if basis == ByRating then RateKey else DateKey
  }

  /** The stream sort with the comparator the criteria select. */
  function SortFeedbacks(fs: seq<Feedback>, spec: SortSpec): (r: seq<Feedback>)
    ensures multiset(r) == multiset(fs)
    ensures SortedBy(r, SortKey(spec.basis), spec.descending)
  {
    SortBy(fs, SortKey(spec.basis), spec.descending)
  }

  /** Feedbacks of equal rating or date keep their stored order under both
      directions, so the sort decides which of them a page shows. */
  lemma SortFeedbacksStable(fs: seq<Feedback>, spec: SortSpec, k: int)
    ensures WithKey(SortFeedbacks(fs, spec), SortKey(spec.basis), k) == WithKey(fs, SortKey(spec.basis), k)
  {
    SortByStable(fs, SortKey(spec.basis), spec.descending, k);
  }

  /** The sort entry of the page: trimmed property, upper-cased direction. */
  datatype SortDto = SortDto(direction: string, ascending: bool, property: string)

  /** `buildSortDtos`. It reads the second part without checking that there is
      one; the service calls it only once the criteria have been accepted. */
  function BuildSortDto(sort: Option<string>): SortDto
    requires |SortParts(sort)| >= 2
  {
    var parts := SortParts(sort);
    var direction := Upper(Trim(parts[1]));
    SortDto(direction, Lower(direction) == "asc", Trim(parts[0]))
  }

  /** ASCII case mapping: upper-casing forgets a previous lower-casing. */
  lemma UpperOfLower(s: string)
    ensures Upper(Lower(s)) == Upper(s)
  {
    var l := Lower(s);
    forall i | 0 <= i < |s|
      ensures Upper(l)[i] == Upper(s)[i]
    {
      assert l[i] == LowerChar(s[i]);
    }
  }

  lemma LowerOfUpper(s: string)
    ensures Lower(Upper(s)) == Lower(s)
  {
    var u := Upper(s);
    forall i | 0 <= i < |s|
      ensures Lower(u)[i] == Lower(s)[i]
    {
      assert u[i] == UpperChar(s[i]);
    }
  }

  /** The direction reported for an order text that reads "asc" or "desc"
      ignoring case, and whether it counts as ascending. */
  lemma DirectionOf(t: string)
    requires Lower(t) == "asc" || Lower(t) == "desc"
    ensures Lower(t) == "asc" ==> Upper(t) == "ASC"
    ensures Lower(t) == "desc" ==> Upper(t) == "DESC"
    ensures Lower(Upper(t)) == "asc" <==> Lower(t) == "asc"
  {
    UpperOfLower(t);
    LowerOfUpper(t);
    if Lower(t) == "asc" {
      assert Upper("asc") == "ASC" by {
        assert forall i :: 0 <= i < 3 ==> Upper("asc")[i] == UpperChar("asc"[i]);
      }
    } else {
      assert Upper("desc") == "DESC" by {
        assert forall i :: 0 <= i < 4 ==> Upper("desc")[i] == UpperChar("desc"[i]);
      }
    }
  }

  /** For accepted criteria the reported direction is "ASC" or "DESC" and
      `ascending` holds exactly for an ascending sort. */
  lemma SortDtoAgrees(sort: Option<string>)
    requires ParseFeedbackSort(sort).Done?
    ensures BuildSortDto(sort).ascending <==> !ParseFeedbackSort(sort).value.descending
    ensures BuildSortDto(sort).direction == (if ParseFeedbackSort(sort).value.descending then "DESC" else "ASC")
  {
    var parts := SortParts(sort);
    var spec := ParseSortParts(parts).value;
    DirectionOf(Trim(parts[1]));
    assert BuildSortDto(sort).direction == Upper(Trim(parts[1]));
  }

  /** `(int) Math.ceil((double) n / size)`; the quotient of two `int`s is exact
      enough in a `double` for the ceiling to be the integer one. */
  function TotalPages(n: nat, size: int): (t: nat)
    requires size > 0
    ensures n == 0 ==> t == 0
    ensures n > 0 ==> (t - 1) * size < n <= t * size
  {
    var q, m := (n + size - 1) / size, (n + size - 1) % size;
    assert n + size - 1 == q * size + m;
    assert (q - 1) * size == q * size - size;
    if n == 0 then 0 else q
  }

  /** The first index of the page, with the product taken exactly: the
      corrected form of the source's 32-bit `page * size` (see
      `PageContentAsWritten` below for the wrapping one). Its properties are
      proved in `PageContentBounds`, `EmptyExactlyPastLastPage` and
      `PagesCoverSorted`. */
  function PageStart(page: nat, size: nat, n: nat): (start: nat)
    ensures start == if page * size < n then page * size else n
    ensures start <= n
  {
    if page * size >= n then n else page * size
  }

  /** `Math.min(start + size, n)`. */
  function PageEnd(start: nat, size: nat, n: nat): nat {
    if start + size < n then start + size else n
  }

  /** The content of the page: the sublist [start, min(start + size, n)). */
  function PageContent<T>(sorted: seq<T>, page: nat, size: nat): (c: seq<T>)
  {
    var n := |sorted|;
    var start := PageStart(page, size, n);
    if start < n then sorted[start..PageEnd(start, size, n)] else []
  }

  /** Past the end the page is the empty slice at the end. */
  lemma PageContentIsSlice<T>(sorted: seq<T>, page: nat, size: nat)
    ensures
      var start := PageStart(page, size, |sorted|);
      start <= PageEnd(start, size, |sorted|) <= |sorted|
      && PageContent(sorted, page, size) == sorted[start..PageEnd(start, size, |sorted|)]
  {
  }

  datatype Pageable = Pageable(offset: int, sort: SortDto, paged: bool, pageSize: int, pageNumber: int, unpaged: bool)

  datatype FeedbackPage = FeedbackPage(
    totalPages: int,
    totalElements: int,
    size: int,
    content: seq<Feedback>,
    number: int,
    sort: SortDto,
    first: bool,
    last: bool,
    numberOfElements: int,
    pageable: Pageable,
    empty: bool)

  /** The feedbacks the location lists that are of the wanted type. */
  function LocationFeedbacks(st: FeedbackTables, locationId: string, wanted: string): seq<Feedback>
    requires locationId in st.locationFeedbacks
  {
    match st.locationFeedbacks[locationId]
    case None => []
    case Some(ids) => Kept(st, ids, wanted)
  }

  /** The page cut from the sorted feedbacks, with its metadata. */
  function BuildPage(kept: seq<Feedback>, page: nat, size: int, spec: SortSpec, sort: Option<string>): FeedbackPage
    requires size > 0 && |SortParts(sort)| >= 2
  {
    var sorted := SortFeedbacks(kept, spec);
    var content := PageContent(sorted, page, size);
    var total := TotalPages(|kept|, size);
    var dto := BuildSortDto(sort);
    FeedbackPage(
      total, |kept|, size, content, page, dto,
      page == 0, page >= total - 1, |content|,
      Pageable(PageStart(page, size, |kept|), dto, true, size, page, false),
      content == [])
  }

  /** `getPagedFeedbackContent`: the type check, the paging check, the
      location lookup, the criteria check, then the page. */
  function PagedFeedbackContent(st: FeedbackTables, locationId: string, page: int, size: int, feedbackType: string, sort: Option<string>): (r: Outcome<FeedbackPage>)
    ensures r.Raised? && r.note.BadFeedbackType? <==>
      Lower(Trim(feedbackType)) != "service" && Lower(Trim(feedbackType)) != "cuisine"
    ensures r.Raised? && r.note.BadPagination? <==>
      (Lower(Trim(feedbackType)) == "service" || Lower(Trim(feedbackType)) == "cuisine")
      && (page < 0 || size <= 0)
    ensures r.Raised? && r.note.LocationNotFound? <==>
      (Lower(Trim(feedbackType)) == "service" || Lower(Trim(feedbackType)) == "cuisine")
      && page >= 0 && size > 0 && locationId !in st.locationFeedbacks
    ensures r.Raised? ==>
      r.exception == (if r.note.LocationNotFound? then "ResourceNotFoundException" else "IllegalArgumentException")
    ensures r.Raised? && r.note.BadPagination? ==> r.note == BadPagination(page, size)
    ensures r.Raised? && r.note.LocationNotFound? ==> r.note == LocationNotFound(locationId)
    ensures r.Done? <==>
      (Lower(Trim(feedbackType)) == "service" || Lower(Trim(feedbackType)) == "cuisine")
      && page >= 0 && size > 0 && locationId in st.locationFeedbacks && ParseFeedbackSort(sort).Done?
  {
    var wanted := Lower(Trim(feedbackType));
    if wanted != "service" && wanted != "cuisine" then Raised("IllegalArgumentException", BadFeedbackType)
    else if page < 0 || size <= 0 then Raised("IllegalArgumentException", BadPagination(page, size))
    else if locationId !in st.locationFeedbacks then
      Raised("ResourceNotFoundException", LocationNotFound(locationId))
    else
      var kept := LocationFeedbacks(st, locationId, wanted);
      match ParseFeedbackSort(sort)
      case Raised(e, note) =>
        Raised(e, note)
      case Done(spec) => Done(BuildPage(kept, page, size, spec, sort))
  }

  /** An accepted request pages the location's feedbacks of the wanted type,
      sorted by the criteria. */
  lemma PageIsBuiltFromKept(st: FeedbackTables, locationId: string, page: int, size: int, feedbackType: string, sort: Option<string>)
    requires PagedFeedbackContent(st, locationId, page, size, feedbackType, sort).Done?
    ensures page >= 0 && size > 0 && |SortParts(sort)| == 2 && locationId in st.locationFeedbacks
    ensures PagedFeedbackContent(st, locationId, page, size, feedbackType, sort).value
      == BuildPage(LocationFeedbacks(st, locationId, Lower(Trim(feedbackType))), page, size, ParseFeedbackSort(sort).value, sort)
  {
  }

  /** The page holds at most `size` elements, exactly those from `start` on,
      and is empty exactly when the page starts at or past the end. */
  lemma PageContentBounds<T>(sorted: seq<T>, page: nat, size: nat)
    requires size > 0
    ensures |PageContent(sorted, page, size)| <= size
    ensures PageContent(sorted, page, size) == [] <==> page * size >= |sorted|
    ensures forall j :: 0 <= j < |PageContent(sorted, page, size)| ==>
      page * size + j < |sorted| && PageContent(sorted, page, size)[j] == sorted[page * size + j]
  {
  }

  lemma MulMono(a: int, b: int, c: nat)
    requires a <= b
    ensures a * c <= b * c
  {
    assert b * c - a * c == (b - a) * c;
  }

  /** The pages are empty exactly from the reported page count on. */
  lemma EmptyExactlyPastLastPage<T>(sorted: seq<T>, page: nat, size: nat)
    requires size > 0
    ensures PageContent(sorted, page, size) == [] <==> page >= TotalPages(|sorted|, size)
  {
    PageContentBounds(sorted, page, size);
    var n, t := |sorted|, TotalPages(|sorted|, size);
    if n > 0 {
      if page >= t {
        MulMono(t, page, size);
      } else {
        MulMono(page, t - 1, size);
      }
    }
  }

  /** Every element of the sorted list is on exactly one page: element `k`
      is at position `k % size` of page `k / size`. */
  lemma PagesCoverSorted<T>(sorted: seq<T>, size: nat, k: nat)
    requires size > 0 && k < |sorted|
    ensures k % size < |PageContent(sorted, k / size, size)|
    ensures PageContent(sorted, k / size, size)[k % size] == sorted[k]
  {
    var p := k / size;
    assert p * size + k % size == k;
    PageContentBounds(sorted, p, size);
  }

  /** The page metadata: the count of the filtered list, the page count as
      its ceiling over the page size, the flags and the offset. */
  lemma PageMetadata(kept: seq<Feedback>, page: nat, size: int, spec: SortSpec, sort: Option<string>)
    requires size > 0 && |SortParts(sort)| >= 2
    ensures
      var r := BuildPage(kept, page, size, spec, sort);
      r.totalElements == |kept| && r.totalPages == TotalPages(|kept|, size)
      && (r.first <==> page == 0)
      && (r.last <==> page >= r.totalPages - 1)
      && (r.empty <==> r.content == [])
      && (r.empty <==> page >= r.totalPages)
      && r.pageable.offset == PageStart(page, size, |kept|)
      && r.size == size && r.number == page
      && |r.content| <= size && r.numberOfElements == |r.content|
  {
    var sorted := SortFeedbacks(kept, spec);
    var r := BuildPage(kept, page, size, spec, sort);
    assert r.content == PageContent(sorted, page, size);
    EmptyExactlyPastLastPage(sorted, page, size);
    PageContentBounds(sorted, page, size);
  }

  /** A page is a sorted run of the feedbacks it is cut from, none of them
      repeated more often than in the filtered list. */
  lemma PageFromSorted(kept: seq<Feedback>, page: nat, size: int, spec: SortSpec, sort: Option<string>)
    requires size > 0 && |SortParts(sort)| >= 2
    ensures
      var c := BuildPage(kept, page, size, spec, sort).content;
      SortedBy(c, SortKey(spec.basis), spec.descending)
      && multiset(c) <= multiset(kept)
      && forall j :: 0 <= j < |c| ==> c[j] in kept
  {
    var sorted := SortFeedbacks(kept, spec);
    var c := PageContent(sorted, page, size);
    assert BuildPage(kept, page, size, spec, sort).content == c;
    var start := PageStart(page, size, |sorted|);
    PageContentIsSlice(sorted, page, size);
    SliceOfSorted(sorted, start, PageEnd(start, size, |sorted|), SortKey(spec.basis), spec.descending);
    forall j | 0 <= j < |c|
      ensures c[j] in kept
    {
      assert c[j] in multiset(c);
    }
  }

  /** A page cut from feedbacks of one type holds only feedbacks of that type. */
  lemma PageKeepsType(kept: seq<Feedback>, page: nat, size: int, spec: SortSpec, sort: Option<string>, wanted: string)
    requires size > 0 && |SortParts(sort)| >= 2
    requires forall j :: 0 <= j < |kept| ==> Lower(kept[j].feedbackType) == wanted
    ensures forall f :: f in BuildPage(kept, page, size, spec, sort).content ==> Lower(f.feedbackType) == wanted
  {
    PageFromSorted(kept, page, size, spec, sort);
  }

  /** Every feedback on the page is of the requested type. */
  lemma PageOfWantedType(st: FeedbackTables, locationId: string, page: int, size: int, feedbackType: string, sort: Option<string>)
    requires PagedFeedbackContent(st, locationId, page, size, feedbackType, sort).Done?
    ensures
      var c := PagedFeedbackContent(st, locationId, page, size, feedbackType, sort).value.content;
      forall j :: 0 <= j < |c| ==> Lower(c[j].feedbackType) == Lower(Trim(feedbackType))
  {
    PageIsBuiltFromKept(st, locationId, page, size, feedbackType, sort);
    var wanted := Lower(Trim(feedbackType));
    var kept := LocationFeedbacks(st, locationId, wanted);
    PageKeepsType(kept, page, size, ParseFeedbackSort(sort).value, sort, wanted);
  }

  // The paging arithmetic as written, on Java's 32-bit `int`.

  /** Reduction of an integer to Java's `int` range. */
  function Wrap32(x: int): (w: int)
    ensures -0x8000_0000 <= w < 0x8000_0000
    ensures (w - x) % 0x1_0000_0000 == 0
  {
    var m := x % 0x1_0000_0000;
    if m >= 0x8000_0000 then m - 0x1_0000_0000 else m
  }

  /** The page as the code computes it: `page * size` and `start + size` in
      `int`, then `subList`, which throws for a negative start or an end
      before the start. */
  function PageContentAsWritten<T>(sorted: seq<T>, page: int, size: int): Outcome<seq<T>>
  {
    var n := |sorted|;
    var start := if Wrap32(page * size) >= n then n else Wrap32(page * size);
    var sum := Wrap32(start + size);
    var end := if sum < n then sum else n;
    if start < n then
      if 0 <= start <= end then Done(sorted[start..end])
      else Raised("IndexOutOfBoundsException", BadPagination(page, size))
    else Done([])
  }

  /** With ten feedbacks and four per page, page 2^30 is past the end, but the
      product wraps to 0 and the code serves the first page. */
  lemma OverflowServesFirstPage(sorted: seq<int>)
    requires |sorted| == 10
    ensures PageContentAsWritten(sorted, 0x4000_0000, 4) == Done(sorted[..4])
    ensures PageContent(sorted, 0x4000_0000, 4) == []
  {
    assert Wrap32(0x4000_0000 * 4) == 0;
    assert Wrap32(0 + 4) == 4;
  }

  /** Page 2^29 of four wraps to -2^31, and `subList` throws. */
  lemma OverflowThrows(sorted: seq<int>)
    requires |sorted| == 10
    ensures PageContentAsWritten(sorted, 0x2000_0000, 4).Raised?
    ensures PageContent(sorted, 0x2000_0000, 4) == []
  {
    assert Wrap32(0x2000_0000 * 4) == -0x8000_0000;
  }

  /** Without overflow the code's arithmetic is the exact one. */
  lemma AsWrittenAgreesWithoutOverflow<T>(sorted: seq<T>, page: nat, size: nat)
    requires size > 0 && page * size < 0x8000_0000 && |sorted| + size < 0x8000_0000
    ensures PageContentAsWritten(sorted, page, size) == Done(PageContent(sorted, page, size))
  {
    var p := page * size;
    Wrap32InRange(p);
    var start := PageStart(page, size, |sorted|);
    Wrap32InRange(start + size);
  }

  lemma Wrap32InRange(x: int)
    requires -0x8000_0000 <= x < 0x8000_0000
    ensures Wrap32(x) == x
  {
    if x < 0 {
      assert x % 0x1_0000_0000 == x + 0x1_0000_0000;
    }
  }
}
