/** Paging through a document's history: `handle-history` and `parse-int-safe` of src/chrondb/api/v1.clj. */
module HistoryPaging {
  import opened Wrappers
  import Decimal

  // ---------- parameters ----------

  predicate IsWhitespace(c: char) {
    c as int == 32 || 9 <= c as int <= 13 || 28 <= c as int <= 31
  }

  predicate Blank(s: string) {
    forall c :: c in s ==> IsWhitespace(c)
  }

  /** Java's Integer.parseInt on ASCII digits, with nothing for anything it refuses. */
  function ParseIntSafe(value: Option<string>): Option<int> {
    if value.None? || Blank(value.value) then None
    else
      var s := value.value;
      var signed := s[0] == '-' || s[0] == '+';
      var digits := if signed then s[1..] else s;
      if digits == [] || !(forall c :: c in digits ==> Decimal.IsDigit(c)) then None
      else
        var n: int := if s[0] == '-' then 0 - Decimal.Value(digits) else Decimal.Value(digits);
        if -0x8000_0000 <= n < 0x8000_0000 then Some(n) else None
  }

  function Print(n: int): string {
    if n < 0 then "-" + Decimal.Digits(-n) else Decimal.Digits(n)
  }

  lemma {:induction false} ParseDigits(digits: string, n: nat)
    requires digits != [] && (forall c :: c in digits ==> Decimal.IsDigit(c)) && Decimal.Value(digits) == n
    ensures ParseIntSafe(Some(digits)) == if n < 0x8000_0000 then Some(n) else None
    ensures ParseIntSafe(Some("-" + digits)) == if n <= 0x8000_0000 then Some(0 - n) else None
  {
    assert digits[0] in digits && Decimal.IsDigit(digits[0]) && !Blank(digits);
    var s := "-" + digits;
    assert s[0] in s && !Blank(s) && s[1..] == digits;
  }

  /** A printed number is read back exactly if it fits in 32 bits. */
  lemma {:induction false} ParsePrinted(n: int)
    ensures ParseIntSafe(Some(Print(n))) == if -0x8000_0000 <= n < 0x8000_0000 then Some(n) else None
  {
    var size: nat := if n < 0 then -n else n;
    Decimal.ValueOfDigits(size);
    ParseDigits(Decimal.Digits(size), size);
  }

  predicate AllDigits(s: string) {
    s != [] && forall c :: c in s ==> Decimal.IsDigit(c)
  }

  /** A decimal numeral within 32 bits, with a sign or without. */
  predicate Denotes(s: string, digits: string, n: int) {
    && AllDigits(digits) && -0x8000_0000 <= n < 0x8000_0000
    && (((s == digits || s == "+" + digits) && n == Decimal.Value(digits))
        || (s == "-" + digits && n == 0 - Decimal.Value(digits)))
  }

  lemma {:induction false} DenotedIsParsed(s: string, digits: string, n: int)
    requires Denotes(s, digits, n)
    ensures ParseIntSafe(Some(s)) == Some(n)
  {
    assert digits[0] in digits && Decimal.IsDigit(digits[0]);
    assert s[0] in s && !IsWhitespace(s[0]);
    if s != digits {
      assert s[1..] == digits;
    }
  }

  lemma {:induction false} ParsedIsDenoted(s: string, n: int) returns (digits: string)
    requires ParseIntSafe(Some(s)) == Some(n)
    ensures Denotes(s, digits, n)
  {
    digits := if s[0] == '-' || s[0] == '+' then s[1..] else s;
    assert s == [s[0]] + s[1..];
  }

  /** A parameter is read exactly if it is such a numeral, with its value; a missing one is not. */
  lemma {:induction false} ParsesIff(s: string, n: int)
    ensures ParseIntSafe(Some(s)) == Some(n) <==> exists digits :: Denotes(s, digits, n)
    ensures ParseIntSafe(None) == None
  {
    if ParseIntSafe(Some(s)) == Some(n) {
      var digits := ParsedIsDenoted(s, n);
    }
    if digits :| Denotes(s, digits, n) {
      DenotedIsParsed(s, digits, n);
    }
  }

  // ---------- one request ----------

  datatype Entry = Entry(commitId: string, document: string)

  datatype Response = Response(status: int, count: nat, truncated: bool, history: seq<Entry>)

  /** What follows the first entry with this commit id; nothing if there is none. */
  function After(history: seq<Entry>, id: string): seq<Entry> {
    if history == [] then []
    else if history[0].commitId == id then history[1..]
    else After(history[1..], id)
  }

  function PageOf(history: seq<Entry>, since: Option<string>, limit: Option<int>): Response {
    var filtered := if since.Some? && !Blank(since.value) then After(history, since.value) else history;
    var limited :=
      if limit.Some? && limit.value > 0 && limit.value < |filtered| then filtered[..limit.value] else filtered;
    Response(if history == [] then 404 else 200, |limited|, limit.Some? && |filtered| > |limited|, limited)
  }

  function HandleHistory(history: seq<Entry>, since: Option<string>, limit: Option<string>): Response {
    PageOf(history, since, ParseIntSafe(limit))
  }

  /** Every response counts the entries it has, and is an error exactly if the document has no history. */
  lemma {:induction false} CountsWhatItHas(history: seq<Entry>, since: Option<string>, limit: Option<string>)
    ensures var response := HandleHistory(history, since, limit);
            && response.count == |response.history|
            && (response.status == 200 <==> history != []) && (response.status == 404 <==> history == [])
  {
  }

  /** A parameter that sets no limit: missing, not a numeral, too big, or not positive. */
  ghost predicate NoLimit(limit: Option<string>) {
    limit.None? || forall digits, n: int :: Denotes(limit.value, digits, n) ==> n <= 0
  }

  /** Then the page is all that follows the entry `since` names (everything if it names none), and is not truncated. */
  lemma {:induction false} UnlimitedPage(history: seq<Entry>, since: Option<string>, limit: Option<string>, i: nat)
    requires NoLimit(limit) && Identified(history)
    requires if since.Some? && !Blank(since.value) then 1 <= i <= |history| && history[i - 1].commitId == since.value
             else i == 0
    ensures var response := HandleHistory(history, since, limit);
            response.history == history[i..] && response.count == |history| - i && !response.truncated
  {
    if limit.Some? && ParseIntSafe(limit).Some? {
      var n := ParseIntSafe(limit).value;
      var digits := ParsedIsDenoted(limit.value, n);
      assert Denotes(limit.value, digits, n);
    }
    if i > 0 {
      AfterFirst(history, i - 1);
    }
  }

  // ---------- following the pages ----------

  /** Commit ids are distinct, and none is blank. */
  predicate Identified(history: seq<Entry>) {
    && (forall i, j :: 0 <= i < j < |history| ==> history[i].commitId != history[j].commitId)
    && (forall i :: 0 <= i < |history| ==> !Blank(history[i].commitId))
  }

  /** The history newest first, as each request finds it: entries are only ever added in front. */
  predicate OnlyPrepended(histories: seq<seq<Entry>>) {
    && (forall k :: 0 <= k < |histories| ==> Identified(histories[k]))
    && (forall k {:trigger Extends(histories[k], histories[k - 1])} ::
          0 < k < |histories| ==> Extends(histories[k], histories[k - 1]))
  }

  predicate Extends(longer: seq<Entry>, history: seq<Entry>) {
    |history| <= |longer| && longer[|longer| - |history|..] == history
  }

  /** Each request after the first asks for what follows the last entry of a page that said it was truncated. */
  predicate Followed(histories: seq<seq<Entry>>, limit: int, pages: seq<Response>) {
    && |pages| == |histories| >= 1
    && pages[0] == HandleHistory(histories[0], None, Some(Print(limit)))
    && forall k {:trigger NextPage(histories[k], limit, pages[k - 1], pages[k])} ::
         0 < k < |pages| ==> NextPage(histories[k], limit, pages[k - 1], pages[k])
  }

  predicate NextPage(history: seq<Entry>, limit: int, previous: Response, page: Response) {
    && previous.truncated && previous.history != []
    && page == HandleHistory(history, Some(previous.history[|previous.history| - 1].commitId), Some(Print(limit)))
  }

  function Concat(pages: seq<Response>): seq<Entry> {
    if pages == [] then [] else Concat(pages[..|pages| - 1]) + pages[|pages| - 1].history
  }

  lemma {:induction false} AfterFirst(history: seq<Entry>, i: nat)
    requires Identified(history) && i < |history|
    ensures After(history, history[i].commitId) == history[i + 1..]
  {
    if i > 0 {
      AfterFirst(history[1..], i - 1);
      assert history[1..][i - 1 + 1..] == history[i + 1..];
    }
  }

  lemma {:induction false} ExtendsFirst(histories: seq<seq<Entry>>, k: nat)
    requires OnlyPrepended(histories) && k < |histories|
    ensures Extends(histories[k], histories[0])
  {
    if k > 0 {
      ExtendsFirst(histories, k - 1);
      assert Extends(histories[k], histories[k - 1]);
    }
  }

  /** Up to `limit` entries from a position on. */
  function Stretch(h: seq<Entry>, from: nat, limit: nat): seq<Entry>
    requires from <= |h|
  {
    if from + limit < |h| then h[from..from + limit] else h[from..]
  }

  /** Newer entries in front do not change what follows a known entry. */
  lemma {:induction false} AfterKnown(h: seq<Entry>, newer: seq<Entry>, from: nat)
    requires 0 < from <= |h| && Identified(newer) && Extends(newer, h)
    ensures After(newer, h[from - 1].commitId) == h[from..] && !Blank(h[from - 1].commitId)
  {
    var at := |newer| - |h| + from;
    assert h[from - 1] == newer[at - 1];
    AfterFirst(newer, at - 1);
    assert newer[at..] == h[from..];
  }

  /** A page is a stretch of the history, and says whether more follows. */
  predicate IsStretch(page: Response, h: seq<Entry>, from: nat, limit: nat) {
    from <= |h| && page.history == Stretch(h, from, limit) && (page.truncated <==> from + limit < |h|)
  }

  lemma {:induction false} PageIsStretch(h: seq<Entry>, newer: seq<Entry>, from: nat, limit: int, last: Entry,
                                         page: Response)
    requires limit > 0 && 0 < from <= |h| && Identified(newer) && Extends(newer, h)
    requires last == h[from - 1] && page == PageOf(newer, Some(last.commitId), Some(limit))
    ensures IsStretch(page, h, from, limit)
  {
    AfterKnown(h, newer, from);
    if from + limit < |h| {
      assert h[from..][..limit] == h[from..from + limit];
    }
  }

  lemma {:induction false} FirstIsStretch(h: seq<Entry>, limit: int)
    requires 0 < limit < 0x8000_0000
    ensures IsStretch(HandleHistory(h, None, Some(Print(limit))), h, 0, limit)
  {
    ParsePrinted(limit);
  }

  lemma {:induction false} StretchEnds(h: seq<Entry>, from: nat, limit: nat)
    requires from + limit < |h| && limit > 0
    ensures var stretch := Stretch(h, from, limit);
            stretch != [] && stretch[|stretch| - 1] == h[from + limit - 1]
  {
  }

  lemma {:induction false} NextAsks(history: seq<Entry>, limit: int, previous: Response, page: Response)
    returns (last: Entry)
    requires 0 < limit < 0x8000_0000 && NextPage(history, limit, previous, page)
    ensures previous.truncated && previous.history != [] && last == previous.history[|previous.history| - 1]
    ensures page == PageOf(history, Some(last.commitId), Some(limit))
  {
    ParsePrinted(limit);
    last := previous.history[|previous.history| - 1];
  }

  lemma {:induction false} NextIsStretch(h: seq<Entry>, newer: seq<Entry>, from: nat, limit: int, previous: Response,
                                         page: Response)
    requires 0 < limit < 0x8000_0000 && Identified(newer) && Extends(newer, h)
    requires IsStretch(previous, h, from, limit) && NextPage(newer, limit, previous, page)
    ensures IsStretch(page, h, from + limit, limit)
  {
    var last := NextAsks(newer, limit, previous, page);
    StretchEnds(h, from, limit);
    PageIsStretch(h, newer, from + limit, limit, last, page);
  }

  /** Where the k-th page begins. */
  function Start(k: nat, limit: nat): nat {
    if k == 0 then 0 else Start(k - 1, limit) + limit
  }

  lemma {:induction false} StartIsMultiple(k: nat, limit: nat)
    ensures Start(k, limit) == k * limit
  {
    if k > 0 {
      StartIsMultiple(k - 1, limit);
    }
  }

  /** The k-th page is the k-th stretch of the first history, and truncated exactly if more entries follow. */
  lemma {:induction false} PagesAreStretches(histories: seq<seq<Entry>>, limit: int, pages: seq<Response>, k: nat)
    requires 0 < limit < 0x8000_0000 && OnlyPrepended(histories) && Followed(histories, limit, pages) && k < |pages|
    ensures IsStretch(pages[k], histories[0], Start(k, limit), limit)
  {
    if k == 0 {
      FirstIsStretch(histories[0], limit);
    } else {
      PagesAreStretches(histories, limit, pages, k - 1);
      ExtendsFirst(histories, k);
      assert NextPage(histories[k], limit, pages[k - 1], pages[k]);
      NextIsStretch(histories[0], histories[k], Start(k - 1, limit), limit, pages[k - 1], pages[k]);
    }
  }

  lemma {:induction false} EarlierIsTruncated(histories: seq<seq<Entry>>, limit: int, pages: seq<Response>, k: nat)
    requires Followed(histories, limit, pages) && 0 < k < |pages|
    ensures pages[k - 1].truncated
  {
    assert NextPage(histories[k], limit, pages[k - 1], pages[k]);
  }

  lemma {:induction false} LastStretch(h: seq<Entry>, from: nat, limit: nat)
    requires from <= |h|
    ensures h[..from] + Stretch(h, from, limit) <= h
    ensures h[..from] + Stretch(h, from, limit) == h <==> !(from + limit < |h|)
  {
  }

  lemma {:induction false} ConcatIsPrefix(histories: seq<seq<Entry>>, limit: int, pages: seq<Response>, n: nat)
    requires 0 < limit < 0x8000_0000 && OnlyPrepended(histories) && Followed(histories, limit, pages) && n < |pages|
    ensures Start(n, limit) <= |histories[0]| && Concat(pages[..n]) == histories[0][..Start(n, limit)]
  {
    PagesAreStretches(histories, limit, pages, n);
    if n > 0 {
      EarlierIsTruncated(histories, limit, pages, n);
      var h, from := histories[0], Start(n - 1, limit);
      ConcatIsPrefix(histories, limit, pages, n - 1);
      PagesAreStretches(histories, limit, pages, n - 1);
      assert pages[..n][..n - 1] == pages[..n - 1];
      LastStretch(h, from, limit);
    }
  }

  /** A limit that does not fit in 32 bits is dropped: one page with everything. */
  lemma {:induction false} HugeLimitIsNoLimit(histories: seq<seq<Entry>>, limit: int, pages: seq<Response>)
    requires limit >= 0x8000_0000 && Followed(histories, limit, pages)
    ensures |pages| == 1 && pages[0].history == histories[0] && !pages[0].truncated
  {
    ParsePrinted(limit);
    if |pages| > 1 {
      EarlierIsTruncated(histories, limit, pages, 1);
    }
  }

  /** Following `since` from page to page, while newer entries may be added in front: the pages so far are always the
      beginning of the history as the first request found it, without gap or repetition; they are all of it
      exactly when the last page is not truncated; and that page comes after at most |history| / limit more. */
  lemma {:induction false} PagingIsComplete(histories: seq<seq<Entry>>, limit: int, pages: seq<Response>)
    requires limit > 0 && OnlyPrepended(histories) && Followed(histories, limit, pages)
    ensures Concat(pages) <= histories[0]
    ensures Concat(pages) == histories[0] <==> !pages[|pages| - 1].truncated
    ensures (|pages| - 1) * limit <= |histories[0]|
  {
    var h, n := histories[0], |pages| - 1;
    if limit < 0x8000_0000 {
      ConcatIsPrefix(histories, limit, pages, n);
      PagesAreStretches(histories, limit, pages, n);
      StartIsMultiple(n, limit);
      LastStretch(h, Start(n, limit), limit);
    } else {
      HugeLimitIsNoLimit(histories, limit, pages);
      assert pages[..0] == [] && Concat(pages) == [] + h;
    }
  }

  function TotalCount(pages: seq<Response>): nat {
    if pages == [] then 0 else TotalCount(pages[..|pages| - 1]) + pages[|pages| - 1].count
  }

  lemma {:induction false} CountsAddUp(pages: seq<Response>)
    requires forall k :: 0 <= k < |pages| ==> pages[k].count == |pages[k].history|
    ensures TotalCount(pages) == |Concat(pages)|
  {
    if pages != [] {
      CountsAddUp(pages[..|pages| - 1]);
    }
  }

  /** The counts of the pages followed add up to what they hold, and so to the whole first history once the last page is
      not truncated, and to less before that. */
  lemma {:induction false} PagesAreCounted(histories: seq<seq<Entry>>, limit: int, pages: seq<Response>)
    requires limit > 0 && OnlyPrepended(histories) && Followed(histories, limit, pages)
    ensures TotalCount(pages) == |Concat(pages)| <= |histories[0]|
    ensures TotalCount(pages) == |histories[0]| <==> !pages[|pages| - 1].truncated
    ensures forall k :: 0 <= k < |pages| ==> (pages[k].status == 200 <==> histories[k] != [])
  {
    forall k | 0 <= k < |pages|
      ensures pages[k].count == |pages[k].history| && (pages[k].status == 200 <==> histories[k] != [])
    {
      assert k > 0 ==> NextPage(histories[k], limit, pages[k - 1], pages[k]);
    }
    CountsAddUp(pages);
    PagingIsComplete(histories, limit, pages);
  }

  /** A truncated page can always be followed: it is not empty. */
  lemma {:induction false} TruncatedPagesHaveEntries(history: seq<Entry>, since: Option<string>, limit: Option<string>)
    ensures HandleHistory(history, since, limit).truncated ==> HandleHistory(history, since, limit).history != []
  {
  }

  lemma {:induction false} NothingAfterUnknown(history: seq<Entry>, id: string)
    requires forall i :: 0 <= i < |history| ==> history[i].commitId != id
    ensures After(history, id) == []
  {
    if history != [] {
      NothingAfterUnknown(history[1..], id);
    }
  }

  /** A commit id that is not in the history gives an empty last page, and an error only if there is no history. */
  lemma {:induction false} UnknownSinceIsEmpty(history: seq<Entry>, id: string, limit: Option<string>)
    requires !Blank(id) && forall i :: 0 <= i < |history| ==> history[i].commitId != id
    ensures HandleHistory(history, Some(id), limit) == Response(if history == [] then 404 else 200, 0, false, [])
  {
    NothingAfterUnknown(history, id);
  }
}
