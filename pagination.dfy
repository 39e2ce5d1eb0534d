/** assets/js/pagination.js: reading the page number, slicing a list into
    pages, and the list of controls the pager shows. The DOM elements render
    creates become Entry values appended to a sequence, in the order in which
    render appends them to the container. */
module Pagination {
  import opened Text
  import opened Wrappers

  function Max(a: int, b: int): int { if a >= b then a else b }
  function Min(a: int, b: int): int { if a <= b then a else b }

  // ---------------------------------------------------------------------
  // getPageParam

  predicate IsDigit(c: char) { '0' <= c <= '9' }

  /** The longest prefix of s made of decimal digits. */
  function DigitPrefix(s: string): (r: string)
    ensures forall i :: 0 <= i < |r| ==> IsDigit(r[i])
  {
    if s == [] || !IsDigit(s[0]) then "" else [s[0]] + DigitPrefix(s[1..])
  }

  function DigitValue(c: char): nat
    requires IsDigit(c)
  {
    c as int - '0' as int
  }

  /** The number a run of decimal digits denotes. */
  function DigitsValue(ds: string): nat
    requires forall i :: 0 <= i < |ds| ==> IsDigit(ds[i])
  {
    if ds == [] then 0 else DigitsValue(ds[..|ds| - 1]) * 10 + DigitValue(ds[|ds| - 1])
  }

  predicate IsSigned(t: string) {
    |t| > 0 && (t[0] == '-' || t[0] == '+')
  }

  /** The text after an optional sign. */
  function Unsigned(t: string): string {
    if IsSigned(t) then t[1..] else t
  }

  /** parseInt(s, 10): leading white space is skipped, then an optional sign,
      then the longest run of decimal digits; None stands for NaN. */
  function ParseInt(s: string): Option<int> {
    var t := TrimStart(s);
    var digits := DigitPrefix(Unsigned(t));
    var magnitude: int := DigitsValue(digits);
    if digits == "" then None
    else Some(if IsSigned(t) && t[0] == '-' then -magnitude else magnitude)
  }

  /** getPageParam, over the raw value of the page search parameter (None
      when it is absent): a missing or empty value reads as "1", and NaN or a
      value below 1 gives 1. */
  function GetPageParam(raw: Option<string>): (r: int)
    ensures r >= 1
    ensures var text := if raw.None? || raw.value == "" then "1" else raw.value;
      (ParseInt(text).Some? && ParseInt(text).value >= 1 ==> r == ParseInt(text).value)
      && (ParseInt(text).None? || ParseInt(text).value < 1 ==> r == 1)
  {
    var text := if raw.None? || raw.value == "" then "1" else raw.value;
    match ParseInt(text)
    case None => 1
    case Some(v) => if v < 1 then 1 else v
  }

  lemma {:induction false} DigitsOfNat(n: nat)
    ensures DigitsValue(NatToString(n)) == n
    decreases n
  {
    var s := NatToString(n);
    if n >= 10 {
      DigitsOfNat(n / 10);
      assert s[..|s| - 1] == NatToString(n / 10);
    }
  }

  /** The digit prefix of a run of digits followed by a non-digit, or by
      nothing, is that run. */
  lemma {:induction false} DigitPrefixOfDigits(ds: string, rest: string)
    requires forall i :: 0 <= i < |ds| ==> IsDigit(ds[i])
    requires rest == [] || !IsDigit(rest[0])
    ensures DigitPrefix(ds + rest) == ds
    decreases |ds|
  {
    if ds != [] {
      DigitPrefixOfDigits(ds[1..], rest);
      assert (ds + rest)[1..] == ds[1..] + rest;
    }
  }

  /** parseInt of a text that has no leading white space and whose digits
      after the optional sign are ds. */
  lemma ParseIntOfText(t: string, ds: string, negative: bool)
    requires ds != [] && forall i :: 0 <= i < |ds| ==> IsDigit(ds[i])
    requires TrimStart(t) == t && (IsSigned(t) && t[0] == '-' <==> negative)
    requires DigitPrefix(Unsigned(t)) == ds
    ensures ParseInt(t) == Some(if negative then -(DigitsValue(ds) as int) else DigitsValue(ds))
  {
  }

  /** A text that starts with a digit has no white space and no sign to skip. */
  lemma DigitText(t: string)
    requires t != [] && IsDigit(t[0])
    ensures TrimStart(t) == t && !IsSigned(t) && Unsigned(t) == t
  {
    assert !IsJsSpace(t[0]);
  }

  /** A minus sign followed by the digits ds. */
  lemma MinusText(ds: string)
    requires ds != [] && IsDigit(ds[0])
    ensures var t := "-" + ds;
      TrimStart(t) == t && IsSigned(t) && t[0] == '-' && Unsigned(t) == ds
  {
    var t := "-" + ds;
    assert t[0] == '-';
    assert !IsJsSpace(t[0]);
    assert t[1..] == ds;
  }

  lemma DigitPrefixOfAllDigits(ds: string)
    requires forall i :: 0 <= i < |ds| ==> IsDigit(ds[i])
    ensures DigitPrefix(ds) == ds
  {
    DigitPrefixOfDigits(ds, "");
    assert ds + "" == ds;
  }

  /** parseInt reads back what String writes, and stops at the first
      character that is not a digit. */
  lemma ParseIntOfNat(n: nat, rest: string)
    requires rest == [] || !IsDigit(rest[0])
    ensures ParseInt(NatToString(n) + rest) == Some(n)
  {
    var ds := NatToString(n);
    var t := ds + rest;
    assert t[0] == ds[0];
    DigitText(t);
    DigitPrefixOfDigits(ds, rest);
    ParseIntOfText(t, ds, false);
    DigitsOfNat(n);
  }

  lemma ParseIntOfNatString(n: nat)
    ensures ParseInt(NatToString(n)) == Some(n)
  {
    var ds := NatToString(n);
    DigitText(ds);
    DigitPrefixOfAllDigits(ds);
    ParseIntOfText(ds, ds, false);
    DigitsOfNat(n);
  }

  lemma ParseIntOfNegative(k: nat)
    ensures ParseInt("-" + NatToString(k)) == Some(-(k as int))
  {
    var ds := NatToString(k);
    MinusText(ds);
    DigitPrefixOfAllDigits(ds);
    ParseIntOfText("-" + ds, ds, true);
    DigitsOfNat(k);
  }

  /** parseInt(String(i)) == i for every integer i. */
  lemma ParseIntOfInt(i: int)
    ensures ParseInt(IntToString(i)) == Some(i)
  {
    if i < 0 {
      ParseIntOfNegative(-i);
    } else {
      ParseIntOfNatString(i);
    }
  }

  /** A page number written in the address is the page read back, and
      trailing text after the digits is ignored. */
  lemma PageParamRoundTrip(n: nat, rest: string)
    requires n >= 1
    requires rest == [] || !IsDigit(rest[0])
    ensures GetPageParam(Some(NatToString(n) + rest)) == n
  {
    ParseIntOfNat(n, rest);
  }

  /** A missing or empty page parameter is page 1. */
  lemma MissingPageIsFirst()
    ensures GetPageParam(None) == 1 && GetPageParam(Some("")) == 1
  {
    assert TrimStart("1") == "1" by {
      assert !IsJsSpace("1"[0]);
    }
    assert DigitPrefix("1") == "1" by {
      assert "1"[1..] == "";
    }
    assert DigitsValue("1") == 1 by {
      assert "1"[..0] == "";
    }
  }

  // ---------------------------------------------------------------------
  // paginate

  datatype PageSlice<T> = PageSlice(pageItems: seq<T>, totalPages: int, currentPage: int)

  /** Math.ceil(n / d) for d > 0. */
  function CeilDiv(n: nat, d: nat): nat
    requires d > 0
  {
    (n + d - 1) / d
  }

  /** items.slice(start, end) for 0 <= start <= end. */
  function Slice<T>(items: seq<T>, start: nat, end: nat): seq<T>
    requires start <= end
  {
    items[Min(start, |items|)..Min(end, |items|)]
  }

  /** The items shown on page k. */
  function PageItems<T>(items: seq<T>, perPage: nat, k: nat): seq<T>
    requires k >= 1
  {
    Slice(items, (k - 1) * perPage, (k - 1) * perPage + perPage)
  }

  /** paginate. The callers pass PER_PAGE = 4 and a page from getPageParam. */
  function Paginate<T>(items: seq<T>, perPage: nat, currentPage: int): (r: PageSlice<T>)
    requires perPage > 0 && currentPage >= 1
    ensures r.totalPages == Max(1, CeilDiv(|items|, perPage))
    ensures 1 <= r.currentPage <= r.totalPages
    ensures currentPage <= r.totalPages ==> r.currentPage == currentPage
    ensures currentPage > r.totalPages ==> r.currentPage == r.totalPages
    ensures r.pageItems == PageItems(items, perPage, r.currentPage)
    ensures |r.pageItems| <= perPage
  {
    var totalPages := Max(1, CeilDiv(|items|, perPage));
    var page := Min(currentPage, totalPages);
    var start := (page - 1) * perPage;
    PageSlice(Slice(items, start, start + perPage), totalPages, page)
  }

  /** The page count is the least that holds every item, and the page
      shown holds some item unless there is none. */
  lemma PaginateCovers<T>(items: seq<T>, perPage: nat, currentPage: int)
    requires perPage > 0 && currentPage >= 1
    ensures var r := Paginate(items, perPage, currentPage);
      && |items| <= r.totalPages * perPage
      && ((r.totalPages - 1) * perPage < |items| || (|items| == 0 && r.totalPages == 1))
      && (|items| > 0 ==> |r.pageItems| > 0)
  {
    var r := Paginate(items, perPage, currentPage);
    CeilDivBounds(|items|, perPage);
    CoverArith(|items|, perPage, CeilDiv(|items|, perPage), r.totalPages, r.currentPage);
    if |items| > 0 {
      PageItemsNonEmpty(items, perPage, r.currentPage);
    }
  }

  lemma CoverArith(n: nat, d: nat, q: nat, t: int, p: int)
    requires d > 0 && n <= q * d && (n > 0 ==> (q - 1) * d < n) && (n == 0 ==> q == 0)
    requires t == Max(1, q) && 1 <= p <= t
    ensures n <= t * d
    ensures (t - 1) * d < n || (n == 0 && t == 1)
    ensures n > 0 ==> (p - 1) * d < n
  {
    if n > 0 {
      PageStartBelow(p, t, d);
    }
  }

  lemma PageItemsNonEmpty<T>(items: seq<T>, perPage: nat, k: nat)
    requires k >= 1 && perPage > 0 && (k - 1) * perPage < |items|
    ensures |PageItems(items, perPage, k)| > 0
  {
  }

  /** Math.ceil: enough pages for n items, and no empty page at the end. */
  lemma CeilDivBounds(n: nat, d: nat)
    requires d > 0
    ensures n <= CeilDiv(n, d) * d
    ensures n > 0 ==> (CeilDiv(n, d) - 1) * d < n
    ensures n == 0 ==> CeilDiv(n, d) == 0
  {
    var q := CeilDiv(n, d);
    assert (n + d - 1) == q * d + (n + d - 1) % d;
  }

  lemma PageStartBelow(page: int, totalPages: int, perPage: nat)
    requires 1 <= page <= totalPages
    ensures (page - 1) * perPage <= (totalPages - 1) * perPage
  {
    var k := totalPages - page;
    assert (totalPages - 1) * perPage == (page - 1) * perPage + k * perPage;
  }

  /** Pages 1..k one after another. */
  function FirstPages<T>(items: seq<T>, perPage: nat, k: nat): seq<T>
  {
    if k == 0 then [] else FirstPages(items, perPage, k - 1) + PageItems(items, perPage, k)
  }

  lemma {:induction false} FirstPagesArePrefix<T>(items: seq<T>, perPage: nat, k: nat)
    ensures FirstPages(items, perPage, k) == items[..Min(k * perPage, |items|)]
  {
    if k > 0 {
      FirstPagesArePrefix(items, perPage, k - 1);
      var a := Min((k - 1) * perPage, |items|);
      var b := Min(k * perPage, |items|);
      assert (k - 1) * perPage + perPage == k * perPage;
      assert items[..a] + items[a..b] == items[..b];
    }
  }

  /** Concatenating pages 1..totalPages gives back the items, exactly. */
  lemma AllPagesReproduceItems<T>(items: seq<T>, perPage: nat)
    requires perPage > 0
    ensures FirstPages(items, perPage, Paginate(items, perPage, 1).totalPages) == items
  {
    var n := Paginate(items, perPage, 1).totalPages;
    PaginateCovers(items, perPage, 1);
    FirstPagesArePrefix(items, perPage, n);
    assert Min(n * perPage, |items|) == |items|;
    assert items[..|items|] == items;
  }

  // ---------------------------------------------------------------------
  // render

  /** The entries of the "pages" array: a page number or the ellipsis "…". */
  datatype PageMark = Num(n: int) | Gap

  datatype Label = Prev | Next | PageLabel(text: string)

  /** What render appends: a control made by createLink, or the ellipsis span. */
  datatype Entry =
    | Control(kind: Label, isDisabled: bool, isCurrent: bool, href: Option<string>)
    | Ellipsis

  function QueryPrefix(queryString: string): string {
    if queryString != "" then "?" + queryString + "&page=" else "?page="
  }

  /** createLink: a span (no href) when disabled or current, a link otherwise. */
  function CreateLink(kind: Label, page: int, isDisabled: bool, isCurrent: bool, basePath: string, queryString: string): (e: Entry)
    ensures e.Control? && e.kind == kind && e.isDisabled == isDisabled && e.isCurrent == isCurrent
    ensures e.href.Some? <==> !isDisabled && !isCurrent
    ensures e.href.Some? ==> e.href.value == basePath + QueryPrefix(queryString) + IntToString(page)
  {
    Control(kind, isDisabled, isCurrent,
      if !isDisabled && !isCurrent then Some(basePath + QueryPrefix(queryString) + IntToString(page)) else None)
  }

  /** Num(lo), ..., Num(hi - 1). */
  function Range(lo: int, hi: int): (r: seq<PageMark>)
    ensures |r| == if lo <= hi then hi - lo else 0
    decreases hi - lo
  {
    if lo >= hi then [] else [Num(lo)] + Range(lo + 1, hi)
  }

  /** The pages array. */
  function PageMarks(currentPage: int, totalPages: int): seq<PageMark> {
    if totalPages <= 7 then Range(1, totalPages + 1)
    else
      [Num(1)] + (if currentPage > 3 then [Gap] else [])
      + Range(Max(2, currentPage - 1), Min(totalPages - 1, currentPage + 1) + 1)
      + (if currentPage < totalPages - 2 then [Gap] else []) + [Num(totalPages)]
  }

  function MarkEntry(m: PageMark, currentPage: int, basePath: string, queryString: string): Entry {
    match m
    case Gap => Ellipsis
    case Num(n) => CreateLink(PageLabel(IntToString(n)), n, false, n == currentPage, basePath, queryString)
  }

  function MarkEntries(marks: seq<PageMark>, currentPage: int, basePath: string, queryString: string): (r: seq<Entry>)
    ensures |r| == |marks|
  {
    if marks == [] then []
    else (MarkEntries(marks[..|marks| - 1], currentPage, basePath, queryString)
      + [MarkEntry(marks[|marks| - 1], currentPage, basePath, queryString)])
  }

  /** Everything render appends to the container, in order. */
  function Entries(currentPage: int, totalPages: int, basePath: string, queryString: string): (r: seq<Entry>)
    ensures r == [] <==> totalPages <= 1
  {
    if totalPages <= 1 then []
    else
      [CreateLink(Prev, currentPage - 1, currentPage <= 1, false, basePath, queryString)]
      + MarkEntries(PageMarks(currentPage, totalPages), currentPage, basePath, queryString)
      + [CreateLink(Next, currentPage + 1, currentPage >= totalPages, false, basePath, queryString)]
  }

  /** for (let i = lo; i <= hi; i += 1) pages.push(i). */
  method PushRange(pages: seq<PageMark>, lo: int, hi: int) returns (r: seq<PageMark>)
    ensures r == pages + Range(lo, hi + 1)
  {
    r := pages;
    var i := lo;
    while i <= hi
      invariant lo <= i <= Max(lo, hi + 1)
      invariant r == pages + Range(lo, i)
    {
      RangeSnoc(lo, i);
      r := r + [Num(i)];
      i := i + 1;
    }
    RangeEmpty(lo, hi + 1);
  }

  /** The statements of render that fill the pages array. */
  method BuildPages(currentPage: int, totalPages: int) returns (pages: seq<PageMark>)
    ensures pages == PageMarks(currentPage, totalPages)
  {
    pages := [];
    if totalPages <= 7 {
      pages := PushRange(pages, 1, totalPages);
      assert pages == Range(1, totalPages + 1);
    } else {
      pages := pages + [Num(1)];
      ghost var gapBefore: seq<PageMark> := [];
      if currentPage > 3 {
        pages := pages + [Gap];
        gapBefore := [Gap];
      }
      assert pages == [Num(1)] + gapBefore;
      var start := Max(2, currentPage - 1);
      var end := Min(totalPages - 1, currentPage + 1);
      pages := PushRange(pages, start, end);
      ghost var middle := pages;
      ghost var gapAfter: seq<PageMark> := [];
      if currentPage < totalPages - 2 {
        pages := pages + [Gap];
        gapAfter := [Gap];
      }
      assert pages == middle + gapAfter;
      pages := pages + [Num(totalPages)];
    }
  }

  /** pages.forEach: one entry per element of the pages array. */
  method AppendMarks(container: seq<Entry>, pages: seq<PageMark>, currentPage: int, basePath: string, queryString: string)
    returns (r: seq<Entry>)
    ensures r == container + MarkEntries(pages, currentPage, basePath, queryString)
  {
    r := container;
    var k := 0;
    while k < |pages|
      invariant 0 <= k <= |pages|
      invariant r == container + MarkEntries(pages[..k], currentPage, basePath, queryString)
    {
      MarkEntriesPrefix(pages, k, currentPage, basePath, queryString);
      r := r + [MarkEntry(pages[k], currentPage, basePath, queryString)];
      k := k + 1;
    }
    PrefixAll(pages);
  }

  /** render: the container is emptied, then the controls are appended. */
  method Render(currentPage: int, totalPages: int, basePath: string, queryString: string) returns (container: seq<Entry>)
    ensures container == Entries(currentPage, totalPages, basePath, queryString)
  {
    container := [];
    if totalPages <= 1 {
      return;
    }
    container := container + [CreateLink(Prev, currentPage - 1, currentPage <= 1, false, basePath, queryString)];
    assert container == [CreateLink(Prev, currentPage - 1, currentPage <= 1, false, basePath, queryString)];
    var pages := BuildPages(currentPage, totalPages);
    container := AppendMarks(container, pages, currentPage, basePath, queryString);
    container := container + [CreateLink(Next, currentPage + 1, currentPage >= totalPages, false, basePath, queryString)];
  }

  lemma {:induction false} RangeIndex(lo: int, hi: int, i: int)
    requires 0 <= i < hi - lo
    ensures Range(lo, hi)[i] == Num(lo + i)
    decreases hi - lo
  {
    if i > 0 {
      RangeIndex(lo + 1, hi, i - 1);
    }
  }

  lemma RangeSnoc(lo: int, hi: int)
    requires lo <= hi
    ensures Range(lo, hi + 1) == Range(lo, hi) + [Num(hi)]
  {
    forall i | 0 <= i < hi + 1 - lo
      ensures Range(lo, hi + 1)[i] == (Range(lo, hi) + [Num(hi)])[i]
    {
      RangeIndex(lo, hi + 1, i);
      if i < hi - lo {
        RangeIndex(lo, hi, i);
      }
    }
  }

  lemma RangeEmpty(lo: int, hi: int)
    ensures lo >= hi ==> Range(lo, hi) == []
    ensures Range(lo, Max(lo, hi)) == Range(lo, hi)
  {
  }

  lemma MarkEntriesPrefix(marks: seq<PageMark>, k: nat, currentPage: int, basePath: string, queryString: string)
    requires k < |marks|
    ensures MarkEntries(marks[..k + 1], currentPage, basePath, queryString)
      == MarkEntries(marks[..k], currentPage, basePath, queryString) + [MarkEntry(marks[k], currentPage, basePath, queryString)]
  {
    assert marks[..k + 1][..k] == marks[..k];
  }

  // ---------------------------------------------------------------------
  // Properties of the pages array and of the entries.

  lemma RangeShort(lo: int)
    ensures Range(lo, lo + 1) == [Num(lo)]
    ensures Range(lo, lo + 2) == [Num(lo), Num(lo + 1)]
    ensures Range(lo, lo + 3) == [Num(lo), Num(lo + 1), Num(lo + 2)]
  {
    assert Range(lo + 2, lo + 3) == [Num(lo + 2)];
    assert Range(lo + 1, lo + 3) == [Num(lo + 1), Num(lo + 2)];
  }

  /** Up to seven pages, every page is listed, in order, with no ellipsis. */
  lemma {:induction false} FewPagesAllListed(currentPage: int, totalPages: int)
    requires totalPages <= 7
    ensures |PageMarks(currentPage, totalPages)| == Max(0, totalPages)
    ensures forall i :: 0 <= i < |PageMarks(currentPage, totalPages)| ==> PageMarks(currentPage, totalPages)[i] == Num(i + 1)
    ensures Gap !in PageMarks(currentPage, totalPages)
  {
    var m := PageMarks(currentPage, totalPages);
    forall i | 0 <= i < |m|
      ensures m[i] == Num(i + 1)
    {
      RangeIndex(1, totalPages + 1, i);
    }
  }

  /** The seven shapes the pages array takes beyond seven pages, one for each
      position of the current page. */
  lemma WindowShapes(c: int, n: int)
    requires n > 7 && 1 <= c <= n
    ensures c == 1 ==> PageMarks(c, n) == [Num(1), Num(2), Gap, Num(n)]
    ensures c == 2 ==> PageMarks(c, n) == [Num(1), Num(2), Num(3), Gap, Num(n)]
    ensures c == 3 ==> PageMarks(c, n) == [Num(1), Num(2), Num(3), Num(4), Gap, Num(n)]
    ensures 4 <= c <= n - 3 ==> PageMarks(c, n) == [Num(1), Gap, Num(c - 1), Num(c), Num(c + 1), Gap, Num(n)]
    ensures c == n - 2 ==> PageMarks(c, n) == [Num(1), Gap, Num(n - 3), Num(n - 2), Num(n - 1), Num(n)]
    ensures c == n - 1 ==> PageMarks(c, n) == [Num(1), Gap, Num(n - 2), Num(n - 1), Num(n)]
    ensures c == n ==> PageMarks(c, n) == [Num(1), Gap, Num(n - 1), Num(n)]
  {
    RangeShort(Max(2, c - 1));
  }

  /** Beyond seven pages: page 1 first and the last page last, an ellipsis
      right after page 1 exactly when the current page is above 3 and one right
      before the last page exactly when it is below n - 2, and the pages shown
      are exactly 1, n and the neighbours of the current page. */
  lemma WindowedPages(c: int, n: int)
    requires n > 7 && 1 <= c <= n
    ensures var m := PageMarks(c, n);
      && 4 <= |m| <= 7
      && m[0] == Num(1) && m[|m| - 1] == Num(n)
      && (m[1] == Gap <==> c > 3)
      && (m[|m| - 2] == Gap <==> c < n - 2)
      && (forall k :: Num(k) in m <==> 1 <= k <= n && (k == 1 || k == n || c - 1 <= k <= c + 1))
  {
    WindowShapes(c, n);
  }

  /** Page numbers strictly increase along the array, two neighbouring
      numbers differ by one, and an ellipsis stands between two numbers
      exactly where pages are skipped. */
  predicate Ordered(m: seq<PageMark>) {
    && (forall i, j :: 0 <= i < j < |m| && m[i].Num? && m[j].Num? ==> m[i].n < m[j].n)
    && (forall i :: 0 <= i < |m| - 1 && m[i].Num? && m[i + 1].Num? ==> m[i + 1].n == m[i].n + 1)
    && (forall i :: 0 <= i < |m| && m[i].Gap? ==> 0 < i < |m| - 1 && m[i - 1].Num? && m[i + 1].Num? && m[i + 1].n > m[i - 1].n + 1)
  }

  /** The pages array read from position k on: a page number, followed by
      the next page number or by an ellipsis and a page number further on. */
  predicate ChainFrom(m: seq<PageMark>, k: nat)
    requires k < |m|
    decreases |m| - k
  {
    && m[k].Num?
    && (|| k == |m| - 1
        || (m[k + 1].Num? && m[k + 1].n == m[k].n + 1 && ChainFrom(m, k + 1))
        || (k + 2 < |m| && m[k + 1].Gap? && m[k + 2].Num? && m[k + 2].n > m[k].n + 1 && ChainFrom(m, k + 2)))
  }

  /** A chain is ordered from where it starts. */
  lemma {:induction false} ChainFromOrdered(m: seq<PageMark>, k: nat)
    requires k < |m| && ChainFrom(m, k)
    ensures forall i, j :: k <= i < j < |m| && m[i].Num? && m[j].Num? ==> m[i].n < m[j].n
    ensures forall i :: k <= i < |m| - 1 && m[i].Num? && m[i + 1].Num? ==> m[i + 1].n == m[i].n + 1
    ensures forall i :: k <= i < |m| && m[i].Gap? ==> k < i < |m| - 1 && m[i - 1].Num? && m[i + 1].Num? && m[i + 1].n > m[i - 1].n + 1
    decreases |m| - k
  {
    if k < |m| - 1 {
      if m[k + 1].Num? && m[k + 1].n == m[k].n + 1 && ChainFrom(m, k + 1) {
        ChainFromOrdered(m, k + 1);
      } else {
        ChainFromOrdered(m, k + 2);
      }
    }
  }

  lemma ChainOrdered(m: seq<PageMark>)
    requires |m| > 0 && ChainFrom(m, 0)
    ensures Ordered(m)
  {
    ChainFromOrdered(m, 0);
  }

  /** The pages array is ordered in this sense whatever the number of pages. */
  lemma PagesOrdered(c: int, n: int)
    requires 1 <= c <= n
    ensures Ordered(PageMarks(c, n))
  {
    if n <= 7 {
      FewPagesAllListed(c, n);
    } else {
      WindowShapes(c, n);
      if c <= 3 {
        NearFirstChains(n);
      } else if c <= n - 3 {
        MiddleChains(c, n);
      } else {
        NearLastChains(n);
      }
      ChainOrdered(PageMarks(c, n));
    }
  }

  lemma NearFirstChains(n: int)
    requires n > 7
    ensures ChainFrom([Num(1), Num(2), Gap, Num(n)], 0)
    ensures ChainFrom([Num(1), Num(2), Num(3), Gap, Num(n)], 0)
    ensures ChainFrom([Num(1), Num(2), Num(3), Num(4), Gap, Num(n)], 0)
  {
    var a := [Num(1), Num(2), Gap, Num(n)];
    assert ChainFrom(a, 3) && ChainFrom(a, 1);
    var b := [Num(1), Num(2), Num(3), Gap, Num(n)];
    assert ChainFrom(b, 4) && ChainFrom(b, 2) && ChainFrom(b, 1);
    var c := [Num(1), Num(2), Num(3), Num(4), Gap, Num(n)];
    assert ChainFrom(c, 5) && ChainFrom(c, 3) && ChainFrom(c, 2) && ChainFrom(c, 1);
  }

  lemma MiddleChains(c: int, n: int)
    requires 4 <= c <= n - 3
    ensures ChainFrom([Num(1), Gap, Num(c - 1), Num(c), Num(c + 1), Gap, Num(n)], 0)
  {
    var m := [Num(1), Gap, Num(c - 1), Num(c), Num(c + 1), Gap, Num(n)];
    assert ChainFrom(m, 6) && ChainFrom(m, 4) && ChainFrom(m, 3) && ChainFrom(m, 2);
  }

  lemma NearLastChains(n: int)
    requires n > 7
    ensures ChainFrom([Num(1), Gap, Num(n - 3), Num(n - 2), Num(n - 1), Num(n)], 0)
    ensures ChainFrom([Num(1), Gap, Num(n - 2), Num(n - 1), Num(n)], 0)
    ensures ChainFrom([Num(1), Gap, Num(n - 1), Num(n)], 0)
  {
    var a := [Num(1), Gap, Num(n - 3), Num(n - 2), Num(n - 1), Num(n)];
    assert ChainFrom(a, 5) && ChainFrom(a, 4) && ChainFrom(a, 3) && ChainFrom(a, 2);
    var b := [Num(1), Gap, Num(n - 2), Num(n - 1), Num(n)];
    assert ChainFrom(b, 4) && ChainFrom(b, 3) && ChainFrom(b, 2);
    var c := [Num(1), Gap, Num(n - 1), Num(n)];
    assert ChainFrom(c, 3) && ChainFrom(c, 2);
  }

  /** The example of ten pages opened at the first one: 1 2 … 10. */
  lemma TenPagesFromFirst()
    ensures PageMarks(1, 10) == [Num(1), Num(2), Gap, Num(10)]
  {
    WindowShapes(1, 10);
  }

  lemma {:induction false} MarkEntriesIndex(marks: seq<PageMark>, i: nat, currentPage: int, basePath: string, queryString: string)
    requires i < |marks|
    ensures MarkEntries(marks, currentPage, basePath, queryString)[i] == MarkEntry(marks[i], currentPage, basePath, queryString)
  {
    if i < |marks| - 1 {
      MarkEntriesIndex(marks[..|marks| - 1], i, currentPage, basePath, queryString);
    }
  }

  /** The current page is always among the pages shown. */
  lemma CurrentPageShown(c: int, n: int)
    requires 1 <= c <= n
    ensures Num(c) in PageMarks(c, n)
  {
    if n <= 7 {
      FewPagesAllListed(c, n);
      assert PageMarks(c, n)[c - 1] == Num(c);
    } else {
      WindowedPages(c, n);
    }
  }

  /** What render appends, entry by entry: Prev first, disabled exactly on the
      first page; Next last, disabled exactly on the last page; between them
      one entry per element of the pages array, an ellipsis for "…" and for a
      page number a control labelled with the number that is current exactly
      for the current page and carries the page's link exactly when it is not
      current. */
  lemma EntriesLayout(c: int, n: int, basePath: string, queryString: string)
    requires n > 1
    ensures var e := Entries(c, n, basePath, queryString);
      var m := PageMarks(c, n);
      && |e| == |m| + 2
      && e[0].Control? && e[0].kind == Prev && !e[0].isCurrent && (e[0].isDisabled <==> c <= 1)
      && (e[0].href.Some? <==> c > 1)
      && (e[0].href.Some? ==> e[0].href.value == basePath + QueryPrefix(queryString) + IntToString(c - 1))
      && e[|e| - 1].Control? && e[|e| - 1].kind == Next && !e[|e| - 1].isCurrent && (e[|e| - 1].isDisabled <==> c >= n)
      && (e[|e| - 1].href.Some? <==> c < n)
      && (e[|e| - 1].href.Some? ==> e[|e| - 1].href.value == basePath + QueryPrefix(queryString) + IntToString(c + 1))
      && (forall i :: 0 <= i < |m| && m[i].Gap? ==> e[i + 1] == Ellipsis)
      && (forall i :: 0 <= i < |m| && m[i].Num? ==>
            && e[i + 1].Control? && e[i + 1].kind == PageLabel(IntToString(m[i].n)) && !e[i + 1].isDisabled
            && (e[i + 1].isCurrent <==> m[i].n == c)
            && (e[i + 1].href.Some? <==> m[i].n != c)
            && (e[i + 1].href.Some? ==> e[i + 1].href.value == basePath + QueryPrefix(queryString) + IntToString(m[i].n)))
  {
    var e := Entries(c, n, basePath, queryString);
    var m := PageMarks(c, n);
    var marks := MarkEntries(m, c, basePath, queryString);
    assert e == [CreateLink(Prev, c - 1, c <= 1, false, basePath, queryString)] + marks
      + [CreateLink(Next, c + 1, c >= n, false, basePath, queryString)];
    forall i | 0 <= i < |m|
      ensures e[i + 1] == MarkEntry(m[i], c, basePath, queryString)
    {
      MarkEntriesIndex(m, i, c, basePath, queryString);
    }
  }
}
