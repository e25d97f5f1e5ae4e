/**
 * The Addgene plasmid-ID crawler: the 9000 four-digit search keys, the per-key
 * pagination loop with its 429 back-off, and the union of all keys' IDs.
 *
 * HTTP is abstracted: the replies the catalogue search gives to one key, in the
 * order the loop requests them, are a finite sequence of `Response` values.
 * Sleeping is abstracted: the loop reports the back-off waits it would sleep.
 */
module AddgeneIds {
  import opened Wrappers
  import opened Text
  import opened Collections

  const MaxRetries: nat := 5
  const BackoffFactor: nat := 2

  // ---------------------------------------------------------------------------
  // Query keys

  function DigitChar(d: nat): (c: char)
    requires d < 10
    ensures IsAsciiDigit(c)
  {
    ('0' as int + d) as char
  }

  function DigitValue(c: char): nat
    requires IsAsciiDigit(c)
  {
    c as int - '0' as int
  }

  /** The number a string of ASCII digits denotes. */
  function DecimalValue(s: string): nat
    requires forall i :: 0 <= i < |s| ==> IsAsciiDigit(s[i])
  {
    if s == [] then 0 else 10 * DecimalValue(s[..|s| - 1]) + DigitValue(s[|s| - 1])
  }

  /** Strict lexicographic order on strings, as Python compares `str` values. */
  predicate LexLess(a: string, b: string)
  {
    exists k: nat | k < |b| :: k <= |a| && a[..k] == b[..k] && (k == |a| || a[k] < b[k])
  }

  /**
   * The search keys: `product(range(1, 10), range(10), range(10), range(10))`,
   * each tuple joined into a string, in the order `product` yields them.
   */
  function QueryKeys(): seq<string>
  {
    seq(9000, i requires 0 <= i < 9000 => seq(4, p requires 0 <= p < 4 => DigitChar(KeyDigit(i, p))))
  }

  /** Digit `p` of the `i`-th tuple of the product: the first ranges over 1..9, the others over 0..9. */
  function KeyDigit(i: nat, p: nat): (d: nat)
    requires p < 4
    ensures d < 10
  {
    if p == 0 then 1 + i / 1000 % 9 else if p == 1 then i / 100 % 10 else if p == 2 then i / 10 % 10 else i % 10
  }

  /** The `i`-th tuple's digits spell `i` in base ten, once the first is lowered by one. */
  lemma KeyDigitsSum(i: nat)
    requires i < 9000
    ensures KeyDigit(i, 0) >= 1
    ensures i == 1000 * (KeyDigit(i, 0) - 1) + 100 * KeyDigit(i, 1) + 10 * KeyDigit(i, 2) + KeyDigit(i, 3)
  {
    var q := i / 10;
    var h := q / 10;
    assert i == 10 * q + i % 10;
    assert q == 10 * h + q % 10;
    assert h == 10 * (h / 10) + h % 10 && h / 10 < 9;
    assert i / 100 == h && i / 1000 == h / 10;
  }

  /** Tuples of the product come in lexicographic order. */
  lemma KeyDigitsOrdered(i: nat, j: nat) returns (k: nat)
    requires i < j < 9000
    ensures k < 4 && KeyDigit(i, k) < KeyDigit(j, k)
    ensures forall p :: 0 <= p < k ==> KeyDigit(i, p) == KeyDigit(j, p)
  {
    KeyDigitsSum(i);
    KeyDigitsSum(j);
    var a0, a1, a2, a3 := KeyDigit(i, 0), KeyDigit(i, 1), KeyDigit(i, 2), KeyDigit(i, 3);
    var b0, b1, b2, b3 := KeyDigit(j, 0), KeyDigit(j, 1), KeyDigit(j, 2), KeyDigit(j, 3);
    if a0 != b0 {
      k := 0;
    } else if a1 != b1 {
      k := 1;
    } else if a2 != b2 {
      k := 2;
    } else {
      k := 3;
    }
  }

  /** Four ASCII digits denote the number they spell. */
  lemma DecimalValueOfFour(s: string)
    requires |s| == 4 && forall i :: 0 <= i < 4 ==> IsAsciiDigit(s[i])
    ensures DecimalValue(s) == 1000 * DigitValue(s[0]) + 100 * DigitValue(s[1]) + 10 * DigitValue(s[2]) + DigitValue(s[3])
  {
    assert s[..3][..2] == s[..2] && s[..2][..1] == s[..1] && s[..1][..0] == [] && s[..4] == s;
    assert DecimalValue(s[..1]) == DigitValue(s[0]);
    assert DecimalValue(s[..2]) == 10 * DigitValue(s[0]) + DigitValue(s[1]);
    assert DecimalValue(s[..3]) == 100 * DigitValue(s[0]) + 10 * DigitValue(s[1]) + DigitValue(s[2]);
  }

  /** Each key is four ASCII digits, the first not '0', spelling the number 1000 + its position. */
  lemma QueryKeyAt(i: nat)
    requires i < 9000
    ensures |QueryKeys()| == 9000
    ensures |QueryKeys()[i]| == 4 && QueryKeys()[i][0] != '0'
    ensures forall k :: 0 <= k < 4 ==> IsAsciiDigit(QueryKeys()[i][k])
    ensures DecimalValue(QueryKeys()[i]) == 1000 + i
  {
    var s := QueryKeys()[i];
    KeyDigitsSum(i);
    DecimalValueOfFour(s);
    assert DigitValue(s[0]) == KeyDigit(i, 0) && DigitValue(s[1]) == KeyDigit(i, 1);
    assert DigitValue(s[2]) == KeyDigit(i, 2) && DigitValue(s[3]) == KeyDigit(i, 3);
  }

  /** The keys are in ascending string order, so they run "1000", "1001", ..., "9999". */
  lemma QueryKeysAscending(i: nat, j: nat)
    requires i < j < 9000
    ensures LexLess(QueryKeys()[i], QueryKeys()[j])
  {
    var a, b := QueryKeys()[i], QueryKeys()[j];
    var k := KeyDigitsOrdered(i, j);
    assert a[..k] == b[..k];
    assert a[k] < b[k];
  }

  // ---------------------------------------------------------------------------
  // One page of search results

  /**
   * A page of results: for each `<article>`, the text of its `col-xs-10` div, or
   * None when the article has no such div; and the class list of the `next-btn`
   * item, or None when the page has none.
   */
  datatype Page = Page(articles: seq<Option<string>>, nextButton: Option<seq<string>>)

  /** What one request yields: a reply with a status code, or an exception from the HTTP client itself. */
  datatype Response = Reply(status: int, page: Page) | RequestFailed

  /** Why a key's loop stopped. `OutOfResponses` only marks the end of the given replies. */
  datatype QueryEnd = LastPage | RetriesExhausted | HttpFailure(status: int) | OutOfResponses

  /** What `fetch_plasmid_data_for_combo` does for one key: return its ID list, or raise. */
  datatype QueryOutcome = Returned(ids: seq<string>, end: QueryEnd) | Raised

  /** `raise_for_status` raises for every client (4xx) and server (5xx) status. */
  predicate IsHttpError(status: int) { 400 <= status < 600 }

  predicate IsRateLimited(r: Response) { r.Reply? && r.status == 429 }

  predicate IsHash(c: char) { c == '#' }

  /**
   * The plasmid ID in an article's text: whitespace stripped, then '#'
   * characters stripped. What the second strip removes is '#' characters, from
   * both ends only, and the ID neither starts nor ends with '#'.
   */
  function ExtractId(text: string): (id: string)
    ensures id != [] ==> id[0] != '#' && id[|id| - 1] != '#'
    ensures exists k: nat :: (OccursAt(StripSpace(text), id, k)
                              && (forall i :: 0 <= i < k ==> StripSpace(text)[i] == '#')
                              && (forall i :: k + |id| <= i < |StripSpace(text)| ==> StripSpace(text)[i] == '#'))
  {
    StripInfix(StripSpace(text), IsHash);
    Strip(StripSpace(text), IsHash)
  }

  predicate AllPresent(articles: seq<Option<string>>)
  {
    forall k :: 0 <= k < |articles| ==> articles[k].Some?
  }

  /** The IDs of the articles that have an ID div, in page order. */
  function PresentIds(articles: seq<Option<string>>): seq<string>
  {
    if articles == [] then []
    else
      var last := articles[|articles| - 1];
      PresentIds(articles[..|articles| - 1]) + (if last.Some? then [ExtractId(last.value)] else [])
  }

  /** There is a next button and its class list lacks 'disabled'. */
  predicate NextEnabled(nextButton: Option<seq<string>>)
  {
    nextButton.Some? && "disabled" !in nextButton.value
  }

  /** A reply that is parsed to the end and moves the loop to the next page. */
  predicate Advancing(r: Response)
  {
    r.Reply? && !IsHttpError(r.status) && AllPresent(r.page.articles) && NextEnabled(r.page.nextButton)
  }

  /** The value of `retries` after the replies `rs`: the 429s since the page last advanced. */
  function Retries(rs: seq<Response>): nat
  {
    if rs == [] || !IsRateLimited(rs[|rs| - 1]) then 0 else 1 + Retries(rs[..|rs| - 1])
  }

  /** The number of times the page advanced during the replies `rs`. */
  function Advances(rs: seq<Response>): nat
  {
    if rs == [] then 0 else Advances(rs[..|rs| - 1]) + (if Advancing(rs[|rs| - 1]) then 1 else 0)
  }

  /** After the replies `rs`, the reply `r` keeps the loop going. */
  predicate Continues(rs: seq<Response>, r: Response)
  {
    Advancing(r) || (IsRateLimited(r) && Retries(rs) < MaxRetries)
  }

  /** How many replies the loop reads, scanning from index `k`: up to and including the first that stops it. */
  function Consumed(rs: seq<Response>, k: nat): (n: nat)
    requires k <= |rs|
    ensures k <= n <= |rs|
    ensures forall j :: k <= j < n - 1 ==> Continues(rs[..j], rs[j])
    ensures n < |rs| ==> k < n && !Continues(rs[..n - 1], rs[n - 1])
    decreases |rs| - k
  {
    if k == |rs| then k
    else if Continues(rs[..k], rs[k]) then Consumed(rs, k + 1)
    else k + 1
  }

  /** The IDs the successfully parsed replies among `rs` carry, in order, duplicates included. */
  function Harvest(rs: seq<Response>): seq<string>
  {
    if rs == [] then []
    else
      var r := rs[|rs| - 1];
      Harvest(rs[..|rs| - 1]) + (if r.Reply? && !IsHttpError(r.status) then PresentIds(r.page.articles) else [])
  }

  function Pow(b: nat, e: nat): nat
  {
    if e == 0 then 1 else b * Pow(b, e - 1)
  }

  /** The back-off waits the replies `rs` cause: `BACKOFF_FACTOR ** retries` for each 429 that is retried. */
  function Waits(rs: seq<Response>): seq<nat>
  {
    if rs == [] then []
    else
      var init := rs[..|rs| - 1];
      Waits(init) + (if IsRateLimited(rs[|rs| - 1]) && Retries(init) < MaxRetries
                     then [Pow(BackoffFactor, Retries(init))] else [])
  }

  /** The `page_number` sent with each of the first `n` requests. */
  function Requested(rs: seq<Response>, n: nat): (pages: seq<nat>)
    requires n <= |rs|
    ensures |pages| == n
  {
    if n == 0 then [] else Requested(rs, n - 1) + [1 + Advances(rs[..n - 1])]
  }

  /** `ids` without repetitions, each kept where it first occurs. */
  function Dedup(ids: seq<string>): seq<string>
  {
    if ids == [] then []
    else
      var init := ids[..|ids| - 1];
      if ids[|ids| - 1] in init then Dedup(init) else Dedup(init) + [ids[|ids| - 1]]
  }

  /** What the loop for one key ends with, given the replies to its requests. */
  function Outcome(rs: seq<Response>): QueryOutcome
  {
    var n := Consumed(rs, 0);
    var ids := Dedup(Harvest(rs[..n]));
    if n == 0 || Continues(rs[..n - 1], rs[n - 1]) then Returned(ids, OutOfResponses)
    else Ending(rs[n - 1], ids)
  }

  /** The outcome when the reply `r` stops the loop, `ids` having been gathered. */
  function Ending(r: Response, ids: seq<string>): QueryOutcome
  {
    match r
    case RequestFailed => Raised
    case Reply(status, page) =>
      if status == 429 then Returned(ids, RetriesExhausted)
      else if IsHttpError(status) then Returned(ids, HttpFailure(status))
      else if !AllPresent(page.articles) then Raised
      else Returned(ids, LastPage)
  }

  /** How reading the reply at index `i` extends each quantity of the loop. */
  lemma Step(rs: seq<Response>, i: nat)
    requires i < |rs|
    ensures Harvest(rs[..i + 1]) == Harvest(rs[..i])
      + (if rs[i].Reply? && !IsHttpError(rs[i].status) then PresentIds(rs[i].page.articles) else [])
    ensures Waits(rs[..i + 1]) == Waits(rs[..i])
      + (if IsRateLimited(rs[i]) && Retries(rs[..i]) < MaxRetries then [Pow(BackoffFactor, Retries(rs[..i]))] else [])
    ensures Retries(rs[..i + 1]) == if IsRateLimited(rs[i]) then 1 + Retries(rs[..i]) else 0
    ensures Advances(rs[..i + 1]) == Advances(rs[..i]) + (if Advancing(rs[i]) then 1 else 0)
    ensures Requested(rs, i + 1) == Requested(rs, i) + [1 + Advances(rs[..i])]
  {
    HarvestStep(rs, i);
    WaitsStep(rs, i);
    CountersStep(rs, i);
  }

  lemma HarvestStep(rs: seq<Response>, i: nat)
    requires i < |rs|
    ensures Harvest(rs[..i + 1]) == Harvest(rs[..i])
      + (if rs[i].Reply? && !IsHttpError(rs[i].status) then PresentIds(rs[i].page.articles) else [])
  {
    assert rs[..i + 1][..i] == rs[..i];
  }

  lemma WaitsStep(rs: seq<Response>, i: nat)
    requires i < |rs|
    ensures Waits(rs[..i + 1]) == Waits(rs[..i])
      + (if IsRateLimited(rs[i]) && Retries(rs[..i]) < MaxRetries then [Pow(BackoffFactor, Retries(rs[..i]))] else [])
  {
    assert rs[..i + 1][..i] == rs[..i];
  }

  lemma CountersStep(rs: seq<Response>, i: nat)
    requires i < |rs|
    ensures Retries(rs[..i + 1]) == if IsRateLimited(rs[i]) then 1 + Retries(rs[..i]) else 0
    ensures Advances(rs[..i + 1]) == Advances(rs[..i]) + (if Advancing(rs[i]) then 1 else 0)
  {
    assert rs[..i + 1][..i] == rs[..i];
  }

  /** The reply at index `i`, reached with every earlier reply continuing, stops the loop. */
  lemma Stop(rs: seq<Response>, i: nat)
    requires i < |rs| && Consumed(rs, 0) == Consumed(rs, i) && !Continues(rs[..i], rs[i])
    ensures Consumed(rs, 0) == i + 1
    ensures Outcome(rs) == Ending(rs[i], Dedup(Harvest(rs[..i + 1])))
  {
    assert rs[..i + 1][..i] == rs[..i];
  }

  // ---------------------------------------------------------------------------
  // Properties of the specification

  lemma DedupSnoc(ids: seq<string>, x: string)
    ensures Dedup(ids + [x]) == if x in ids then Dedup(ids) else Dedup(ids) + [x]
  {
    assert (ids + [x])[..|ids|] == ids;
  }

  /** Deduplication keeps exactly the IDs of its input. */
  lemma {:induction false} DedupElems(ids: seq<string>)
    ensures forall x :: x in Dedup(ids) <==> x in ids
  {
    if ids != [] {
      var init := ids[..|ids| - 1];
      DedupElems(init);
      assert ids == init + [ids[|ids| - 1]];
    }
  }

  /** Deduplication leaves no ID twice. */
  lemma {:induction false} DedupNoDup(ids: seq<string>)
    ensures NoDup(Dedup(ids))
  {
    if ids != [] {
      var init := ids[..|ids| - 1];
      DedupNoDup(init);
      DedupElems(init);
    }
  }

  /** Index of the first occurrence of `x` in `s`. */
  function FirstIndex(s: seq<string>, x: string): (i: nat)
    requires x in s
    ensures i < |s| && s[i] == x && x !in s[..i]
  {
    if s[0] == x then 0 else 1 + FirstIndex(s[1..], x)
  }

  lemma FirstIndexInPrefix(s: seq<string>, t: seq<string>, x: string)
    requires x in s
    ensures x in s + t && FirstIndex(s + t, x) == FirstIndex(s, x)
  {
    if s[0] != x {
      FirstIndexInPrefix(s[1..], t, x);
      assert (s + t)[1..] == s[1..] + t;
    }
  }

  /** Deduplicated IDs keep the order in which they were first seen. */
  lemma {:induction false} DedupFirstSeenOrder(ids: seq<string>)
    ensures forall i, j :: 0 <= i < j < |Dedup(ids)| ==>
      Dedup(ids)[i] in ids && Dedup(ids)[j] in ids &&
      FirstIndex(ids, Dedup(ids)[i]) < FirstIndex(ids, Dedup(ids)[j])
  {
    if ids != [] {
      var init, x := ids[..|ids| - 1], ids[|ids| - 1];
      assert ids == init + [x];
      DedupFirstSeenOrder(init);
      DedupElems(init);
      var d, d0 := Dedup(ids), Dedup(init);
      assert d == d0 || (x !in init && d == d0 + [x]);
      forall i, j | 0 <= i < j < |d|
        ensures d[i] in ids && d[j] in ids && FirstIndex(ids, d[i]) < FirstIndex(ids, d[j])
      {
        assert d[i] == d0[i] && d0[i] in init;
        FirstIndexInPrefix(init, [x], d[i]);
        if j < |d0| {
          assert d[j] == d0[j] && d0[j] in init;
          FirstIndexInPrefix(init, [x], d[j]);
        } else {
          assert d[j] == x && x !in init;
          assert FirstIndex(ids, x) == |init| by {
            assert ids[..|init|] == init;
          }
        }
      }
    } else {
      assert Dedup(ids) == [];
    }
  }

  /** While the loop runs, `retries` never exceeds MAX_RETRIES. */
  lemma {:induction false} RetriesBounded(rs: seq<Response>)
    requires forall k :: 0 <= k < |rs| ==> Continues(rs[..k], rs[k])
    ensures Retries(rs) <= MaxRetries
  {
    if rs != [] {
      var init := rs[..|rs| - 1];
      assert init[..|init|] == init;
      assert Continues(rs[..|rs| - 1], rs[|rs| - 1]);
    }
  }

  /** Every back-off wait is one of 1, 2, 4, 8, 16 seconds. */
  lemma {:induction false} WaitsArePowersOfTwo(rs: seq<Response>)
    ensures forall w :: w in Waits(rs) ==> w in {1, 2, 4, 8, 16}
  {
    if rs != [] {
      WaitsArePowersOfTwo(rs[..|rs| - 1]);
      var r := Retries(rs[..|rs| - 1]);
      if r < MaxRetries {
        assert Pow(BackoffFactor, r) in {1, 2, 4, 8, 16} by {
          assert r == 0 || r == 1 || r == 2 || r == 3 || r == 4;
        }
      }
    }
  }

  /** The back-off waits after `n` 429s in a row, starting from zero retries. */
  function Backoffs(n: nat): seq<nat>
  {
    if n == 0 then [] else Backoffs(n - 1) + [Pow(BackoffFactor, n - 1)]
  }

  /**
   * After a prefix that leaves `retries` at 0 (the start, or a page advance),
   * a run of 429s raises `retries` to the run's length and, while at most five,
   * waits 1, 2, 4, ... seconds.
   */
  lemma {:induction false} ConsecutiveRateLimits(rs: seq<Response>, run: seq<Response>)
    requires Retries(rs) == 0
    requires forall k :: 0 <= k < |run| ==> IsRateLimited(run[k])
    ensures Retries(rs + run) == |run|
    ensures |run| <= MaxRetries ==> Waits(rs + run) == Waits(rs) + Backoffs(|run|)
  {
    if run != [] {
      var init := run[..|run| - 1];
      ConsecutiveRateLimits(rs, init);
      var s := rs + run;
      assert s[..|s| - 1] == rs + init;
      assert s[|s| - 1] == run[|run| - 1];
      if |run| <= MaxRetries {
        calc {
          Waits(s);
          Waits(rs + init) + [Pow(BackoffFactor, |init|)];
          Waits(rs) + Backoffs(|init|) + [Pow(BackoffFactor, |init|)];
          Waits(rs) + Backoffs(|run|);
        }
      }
    } else {
      assert rs + run == rs;
    }
  }

  lemma RetriesOfRun(run: seq<Response>)
    requires forall k :: 0 <= k < |run| ==> IsRateLimited(run[k])
    ensures Retries(run) == |run|
  {
    ConsecutiveRateLimits([], run);
    assert [] + run == run;
  }

  /** Replies that are all HTTP errors carry no IDs. */
  lemma {:induction false} HarvestOfErrors(rs: seq<Response>)
    requires forall k :: 0 <= k < |rs| ==> rs[k].Reply? && IsHttpError(rs[k].status)
    ensures Harvest(rs) == []
  {
    if rs != [] {
      HarvestOfErrors(rs[..|rs| - 1]);
    }
  }

  lemma ConsumedFrom(rs: seq<Response>, k: nat)
    requires k < |rs| && Continues(rs[..k], rs[k])
    ensures Consumed(rs, k) == Consumed(rs, k + 1)
  {
  }

  lemma {:induction false} ConsumedAll(rs: seq<Response>, k: nat)
    requires k <= |rs|
    requires forall j :: k <= j < |rs| ==> Continues(rs[..j], rs[j])
    ensures Consumed(rs, k) == |rs|
    decreases |rs| - k
  {
    if k < |rs| {
      ConsumedAll(rs, k + 1);
    }
  }

  lemma {:induction false} ConsumedStop(rs: seq<Response>, k: nat, n: nat)
    requires k < n <= |rs|
    requires forall j :: k <= j < n - 1 ==> Continues(rs[..j], rs[j])
    requires !Continues(rs[..n - 1], rs[n - 1])
    ensures Consumed(rs, k) == n
    decreases n - k
  {
    if k < n - 1 {
      ConsumedStop(rs, k + 1, n);
    }
  }

  /**
   * A page gets at most MAX_RETRIES back-off waits, 1, 2, 4, 8 and 16 seconds:
   * the sixth 429 in a row ends the query, which returns the IDs gathered so far.
   */
  lemma SixthRateLimitEndsQuery(rs: seq<Response>)
    requires |rs| >= 6 && forall k :: 0 <= k < 6 ==> IsRateLimited(rs[k])
    ensures Consumed(rs, 0) == 6
    ensures Outcome(rs) == Returned([], RetriesExhausted)
    ensures Waits(rs[..6]) == [1, 2, 4, 8, 16]
  {
    SixRateLimitsConsumed(rs);
    HarvestOfErrors(rs[..6]);
    assert Dedup([]) == [];
    SixRateLimitsWaits(rs);
  }

  /** The sixth 429 in a row is the first reply that stops the loop. */
  lemma SixRateLimitsConsumed(rs: seq<Response>)
    requires |rs| >= 6 && forall k :: 0 <= k < 6 ==> IsRateLimited(rs[k])
    ensures Consumed(rs, 0) == 6 && !Continues(rs[..5], rs[5])
  {
    forall j | 0 <= j <= 5 ensures Retries(rs[..j]) == j {
      RetriesOfRun(rs[..j]);
    }
    ConsumedStop(rs, 0, 6);
  }

  /** Five retried 429s wait 1, 2, 4, 8 and 16 seconds; the sixth is not retried. */
  lemma SixRateLimitsWaits(rs: seq<Response>)
    requires |rs| >= 6 && forall k :: 0 <= k < 6 ==> IsRateLimited(rs[k])
    ensures Waits(rs[..6]) == [1, 2, 4, 8, 16]
  {
    var five := rs[..5];
    RetriesOfRun(five);
    WaitsStep(rs, 5);
    assert [] + five == five;
    ConsecutiveRateLimits([], five);
    assert Backoffs(5) == [1, 2, 4, 8, 16];
  }

  /** The page number sent with request `j` counts the advances before it. */
  lemma {:induction false} RequestedAt(rs: seq<Response>, n: nat, j: nat)
    requires j < n <= |rs|
    ensures Requested(rs, n)[j] == 1 + Advances(rs[..j])
  {
    if j < n - 1 {
      RequestedAt(rs, n - 1, j);
    }
  }

  /**
   * `page_number` starts at 1, and from one request to the next grows by exactly
   * one when the reply advanced the page and stays put otherwise.
   */
  lemma PageNumbers(rs: seq<Response>, n: nat, k: nat)
    requires k + 1 < n <= |rs|
    ensures Requested(rs, n)[0] == 1
    ensures Requested(rs, n)[k + 1] == Requested(rs, n)[k] + (if Advancing(rs[k]) then 1 else 0)
  {
    RequestedAt(rs, n, 0);
    RequestedAt(rs, n, k);
    RequestedAt(rs, n, k + 1);
    assert rs[..k + 1][..k] == rs[..k];
  }

  /**
   * Among the replies that keep the loop going, `retries` drops to 0 exactly on
   * the ones that advance the page, and goes up by one on all others.
   */
  lemma RetriesReset(rs: seq<Response>, k: nat)
    requires k + 1 < Consumed(rs, 0)
    ensures Retries(rs[..k + 1]) == 0 <==> Advancing(rs[k])
    ensures Retries(rs[..k + 1]) == Retries(rs[..k]) + 1 <==> !Advancing(rs[k])
  {
    Step(rs, k);
    assert Continues(rs[..k], rs[k]);
  }

  /**
   * There is no page cap: as long as every reply advances the page, the loop
   * asks for pages 1, 2, 3, ... and never stops on its own.
   */
  lemma NoPageCap(rs: seq<Response>)
    requires forall k :: 0 <= k < |rs| ==> Advancing(rs[k])
    ensures Consumed(rs, 0) == |rs|
    ensures Outcome(rs).Returned? && Outcome(rs).end == OutOfResponses
    ensures forall k :: 0 <= k < |rs| ==> Requested(rs, |rs|)[k] == k + 1
  {
    ConsumedAll(rs, 0);
    forall k | 0 <= k < |rs| ensures Requested(rs, |rs|)[k] == k + 1 {
      RequestedAt(rs, |rs|, k);
      AdvancesAll(rs[..k]);
    }
  }

  lemma {:induction false} AdvancesAll(rs: seq<Response>)
    requires forall k :: 0 <= k < |rs| ==> Advancing(rs[k])
    ensures Advances(rs) == |rs|
  {
    if rs != [] {
      AdvancesAll(rs[..|rs| - 1]);
    }
  }

  /** An ID with no surrounding whitespace and no surrounding '#'. */
  predicate CleanId(id: string)
  {
    id != [] && !IsSpace(id[0]) && !IsSpace(id[|id| - 1]) && id[0] != '#' && id[|id| - 1] != '#'
  }

  lemma ExtractCleanId(id: string)
    requires CleanId(id)
    ensures ExtractId(id) == id
  {
    StripSpaceNoop(id);
    assert TrimStart(id, IsHash) == id;
    assert TrimEnd(id, IsHash) == id;
  }

  /** The texts of articles that all have an ID div. */
  function Texts(articles: seq<Option<string>>): (texts: seq<string>)
    requires AllPresent(articles)
    ensures |texts| == |articles|
  {
    seq(|articles|, k requires 0 <= k < |articles| && AllPresent(articles) => articles[k].value)
  }

  lemma TextsSnoc(articles: seq<Option<string>>)
    requires articles != [] && AllPresent(articles)
    ensures Texts(articles) == Texts(articles[..|articles| - 1]) + [articles[|articles| - 1].value]
  {
  }

  /** When every article has a clean ID, the IDs harvested are the article texts as they are. */
  lemma {:induction false} PresentCleanIds(articles: seq<Option<string>>)
    requires AllPresent(articles)
    requires forall k :: 0 <= k < |articles| ==> CleanId(articles[k].value)
    ensures PresentIds(articles) == Texts(articles)
  {
    if articles != [] {
      var init, last := articles[..|articles| - 1], articles[|articles| - 1];
      PresentCleanIds(init);
      ExtractCleanId(last.value);
      TextsSnoc(articles);
    }
  }

  lemma {:induction false} DedupDistinct(ids: seq<string>)
    requires NoDup(ids)
    ensures Dedup(ids) == ids
  {
    if ids != [] {
      var init := ids[..|ids| - 1];
      assert NoDup(init);
      DedupDistinct(init);
      assert ids[|ids| - 1] !in init;
    }
  }

  /** A reply that parses and has no enabled next button: the loop's last page. */
  predicate LastOk(r: Response)
  {
    r.Reply? && !IsHttpError(r.status) && r.status != 429 && AllPresent(r.page.articles) && !NextEnabled(r.page.nextButton)
  }

  lemma TwoPagesHarvest(rs: seq<Response>)
    requires |rs| == 2 && Advancing(rs[0]) && LastOk(rs[1])
    ensures Harvest(rs) == PresentIds(rs[0].page.articles) + PresentIds(rs[1].page.articles)
    ensures Waits(rs) == [] && Requested(rs, 2) == [1, 2]
  {
    assert rs[..2] == rs;
    assert Harvest(rs[..1]) == PresentIds(rs[0].page.articles) by {
      assert rs[..0] == [];
      Step(rs, 0);
    }
    assert Waits(rs[..1]) == [] && Advances(rs[..1]) == 1 by {
      assert rs[..0] == [];
      Step(rs, 0);
    }
    assert Requested(rs, 1) == [1] by {
      assert rs[..0] == [];
    }
    Step(rs, 1);
  }

  lemma TwoPagesRun(rs: seq<Response>)
    requires |rs| == 2 && Advancing(rs[0]) && LastOk(rs[1])
    ensures Consumed(rs, 0) == 2
    ensures Outcome(rs) == Returned(Dedup(PresentIds(rs[0].page.articles) + PresentIds(rs[1].page.articles)), LastPage)
    ensures Requested(rs, 2) == [1, 2]
    ensures Waits(rs) == []
  {
    assert rs[..1][..0] == [] && rs[..2] == rs;
    assert !Continues(rs[..1], rs[1]);
    ConsumedStop(rs, 1, 2);
    Stop(rs, 1);
    TwoPagesHarvest(rs);
  }

  /**
   * Two pages of distinct clean IDs, the second the last: the loop requests
   * pages 1 and 2, never waits, and returns both pages' IDs in page order.
   */
  lemma TwoPages(rs: seq<Response>)
    requires |rs| == 2 && Advancing(rs[0]) && LastOk(rs[1])
    requires forall k :: 0 <= k < |rs[0].page.articles| ==> CleanId(rs[0].page.articles[k].value)
    requires forall k :: 0 <= k < |rs[1].page.articles| ==> CleanId(rs[1].page.articles[k].value)
    requires NoDup(Texts(rs[0].page.articles) + Texts(rs[1].page.articles))
    ensures Consumed(rs, 0) == 2
    ensures Outcome(rs) == Returned(Texts(rs[0].page.articles) + Texts(rs[1].page.articles), LastPage)
    ensures Requested(rs, 2) == [1, 2]
    ensures Waits(rs) == []
  {
    TwoPagesRun(rs);
    PresentCleanIds(rs[0].page.articles);
    PresentCleanIds(rs[1].page.articles);
    DedupDistinct(Texts(rs[0].page.articles) + Texts(rs[1].page.articles));
  }

  // ---------------------------------------------------------------------------
  // The loop for one key, and the crawl over all keys

  lemma AddOneId(articles: seq<Option<string>>, j: nat, seen: seq<string>)
    requires j < |articles| && articles[j].Some?
    ensures var id, before := ExtractId(articles[j].value), seen + PresentIds(articles[..j]);
      && seen + PresentIds(articles[..j + 1]) == before + [id]
      && (id in Dedup(before) <==> id in before)
      && Dedup(before + [id]) == if id in before then Dedup(before) else Dedup(before) + [id]
  {
    var id, before := ExtractId(articles[j].value), seen + PresentIds(articles[..j]);
    PresentIdsSnoc(articles, j);
    assert seen + PresentIds(articles[..j + 1]) == before + [id];
    DedupElems(before);
    DedupSnoc(before, id);
  }

  lemma PresentIdsSnoc(articles: seq<Option<string>>, j: nat)
    requires j < |articles| && articles[j].Some?
    ensures PresentIds(articles[..j + 1]) == PresentIds(articles[..j]) + [ExtractId(articles[j].value)]
  {
    assert articles[..j + 1][..j] == articles[..j];
  }

  lemma AllPresentSnoc(articles: seq<Option<string>>, j: nat)
    requires j < |articles|
    ensures AllPresent(articles[..j + 1]) <==> AllPresent(articles[..j]) && articles[j].Some?
  {
    assert articles[..j + 1][..j] == articles[..j];
  }

  /**
   * The `for plasmid in plasmids` block: append each article's ID unless already
   * encountered. `ok` is false when an article has no ID div, where Python raises.
   */
  method AddPageIds(articles: seq<Option<string>>, encountered: set<string>, plasmidData: seq<string>,
                    ghost seen: seq<string>)
    returns (ok: bool, encountered': set<string>, plasmidData': seq<string>)
    requires plasmidData == Dedup(seen)
    requires forall x :: x in encountered <==> x in plasmidData
    ensures ok <==> AllPresent(articles)
    ensures ok ==> plasmidData' == Dedup(seen + PresentIds(articles))
    ensures ok ==> forall x :: x in encountered' <==> x in plasmidData'
  {
    encountered', plasmidData' := encountered, plasmidData;
    var j := 0;
    assert articles[..0] == [];
    assert seen + PresentIds(articles[..0]) == seen;
    while j < |articles|
      invariant j <= |articles|
      invariant AllPresent(articles[..j])
      invariant plasmidData' == Dedup(seen + PresentIds(articles[..j]))
      invariant forall x :: x in encountered' <==> x in plasmidData'
    {
      var article := articles[j];
      if article.None? {
        return false, encountered', plasmidData';
      }
      var id := ExtractId(article.value);
      AddOneId(articles, j, seen);
      AllPresentSnoc(articles, j);
      if id !in encountered' {
        encountered' := encountered' + {id};
        plasmidData' := plasmidData' + [id];
      }
      j := j + 1;
    }
    assert articles[..j] == articles;
    ok := true;
  }

  /**
   * The loop's variables after it has read `rs[..i]`, every one of which kept it
   * going: `page_number`, `retries`, `plasmid_data`, `encountered_ids`, the waits
   * slept and the page numbers requested so far.
   */
  ghost predicate Tracks(rs: seq<Response>, i: nat, pageNumber: nat, retries: nat, plasmidData: seq<string>,
                         encountered: set<string>, waits: seq<nat>, requested: seq<nat>)
  {
    && i <= |rs|
    && Consumed(rs, 0) == Consumed(rs, i)
    && (0 < i ==> Continues(rs[..i - 1], rs[i - 1]))
    && pageNumber == 1 + Advances(rs[..i])
    && retries == Retries(rs[..i])
    && plasmidData == Dedup(Harvest(rs[..i]))
    && (forall x :: x in encountered <==> x in plasmidData)
    && waits == Waits(rs[..i])
    && requested == Requested(rs, i)
  }

  lemma TracksStart(rs: seq<Response>)
    ensures Tracks(rs, 0, 1, 0, [], {}, [], [])
  {
    assert rs[..0] == [];
  }

  /** A 429 with retries left: wait, count the retry, ask for the same page again. */
  lemma TracksRetry(rs: seq<Response>, i: nat, pageNumber: nat, retries: nat, plasmidData: seq<string>,
                    encountered: set<string>, waits: seq<nat>, requested: seq<nat>)
    requires Tracks(rs, i, pageNumber, retries, plasmidData, encountered, waits, requested)
    requires i < |rs| && IsRateLimited(rs[i]) && retries < MaxRetries
    ensures Tracks(rs, i + 1, pageNumber, retries + 1, plasmidData, encountered,
                   waits + [Pow(BackoffFactor, retries)], requested + [pageNumber])
  {
    Step(rs, i);
    ConsumedFrom(rs, i);
    assert rs[..i + 1][..i] == rs[..i];
    assert IsHttpError(rs[i].status);
    assert Harvest(rs[..i]) + [] == Harvest(rs[..i]);
  }

  /** A parsed page with an enabled next button: advance the page and reset the retries. */
  lemma TracksAdvance(rs: seq<Response>, i: nat, pageNumber: nat, retries: nat, plasmidData: seq<string>,
                      encountered: set<string>, waits: seq<nat>, requested: seq<nat>,
                      plasmidData': seq<string>, encountered': set<string>)
    requires Tracks(rs, i, pageNumber, retries, plasmidData, encountered, waits, requested)
    requires i < |rs| && Advancing(rs[i])
    requires plasmidData' == Dedup(Harvest(rs[..i]) + PresentIds(rs[i].page.articles))
    requires forall x :: x in encountered' <==> x in plasmidData'
    ensures Tracks(rs, i + 1, pageNumber + 1, 0, plasmidData', encountered', waits, requested + [pageNumber])
  {
    Step(rs, i);
    assert rs[..i + 1][..i] == rs[..i];
    ConsumedFrom(rs, i);
    assert Waits(rs[..i + 1]) == Waits(rs[..i]) + [];
  }

  /** A reply that stops the loop: what the loop returns and what it has done. */
  lemma TracksStop(rs: seq<Response>, i: nat, pageNumber: nat, waits: seq<nat>, requested: seq<nat>)
    requires i < |rs| && Consumed(rs, 0) == Consumed(rs, i) && !Continues(rs[..i], rs[i])
    requires pageNumber == 1 + Advances(rs[..i]) && waits == Waits(rs[..i]) && requested == Requested(rs, i)
    ensures Consumed(rs, 0) == i + 1
    ensures Outcome(rs) == Ending(rs[i], Dedup(Harvest(rs[..i + 1])))
    ensures Waits(rs[..i + 1]) == waits
    ensures Requested(rs, i + 1) == requested + [pageNumber]
    ensures rs[i].Reply? && IsHttpError(rs[i].status) ==> Harvest(rs[..i + 1]) == Harvest(rs[..i])
    ensures NoDup(Dedup(Harvest(rs[..i + 1])))
  {
    Step(rs, i);
    Stop(rs, i);
    DedupNoDup(Harvest(rs[..i + 1]));
    assert Waits(rs[..i + 1]) == Waits(rs[..i]) + [];
    assert Harvest(rs[..i]) + [] == Harvest(rs[..i]);
  }

  /** The replies ran out while the loop was still going. */
  lemma TracksEnd(rs: seq<Response>, pageNumber: nat, retries: nat, plasmidData: seq<string>,
                  encountered: set<string>, waits: seq<nat>, requested: seq<nat>)
    requires Tracks(rs, |rs|, pageNumber, retries, plasmidData, encountered, waits, requested)
    ensures Consumed(rs, 0) == |rs|
    ensures rs != [] ==> Continues(rs[..|rs| - 1], rs[|rs| - 1])
    ensures Outcome(rs) == Returned(plasmidData, OutOfResponses)
    ensures waits == Waits(rs[..|rs|]) && requested == Requested(rs, |rs|)
    ensures NoDup(plasmidData)
  {
    var n := Consumed(rs, 0);
    assert n == |rs|;
    assert rs[..n] == rs;
    DedupNoDup(Harvest(rs));
  }

  /**
   * `fetch_plasmid_data_for_combo`: request the search pages for one key, the
   * replies arriving as `responses`, until a reply stops the loop. Returns what
   * the Python function returns or raises, the back-off waits it sleeps, and the
   * `page_number` of every request it sends.
   */
  method FetchPlasmidDataForCombo(responses: seq<Response>)
    returns (outcome: QueryOutcome, waits: seq<nat>, requested: seq<nat>)
    ensures outcome == Outcome(responses)
    ensures waits == Waits(responses[..Consumed(responses, 0)])
    ensures requested == Requested(responses, Consumed(responses, 0))
    ensures outcome.Returned? ==> NoDup(outcome.ids)
  {
    var encountered: set<string> := {};
    var pageNumber: nat := 1;
    var plasmidData: seq<string> := [];
    var retries: nat := 0;
    var i := 0;
    waits, requested := [], [];
    TracksStart(responses);
    while i < |responses|
      invariant Tracks(responses, i, pageNumber, retries, plasmidData, encountered, waits, requested)
    {
      var response := responses[i];
      match response
      case RequestFailed =>
        TracksStop(responses, i, pageNumber, waits, requested);
        requested := requested + [pageNumber];
        outcome := Raised;
        return;
      case Reply(status, page) =>
        if IsHttpError(status) {
          if status == 429 && retries < MaxRetries {
            TracksRetry(responses, i, pageNumber, retries, plasmidData, encountered, waits, requested);
            requested := requested + [pageNumber];
            waits := waits + [Pow(BackoffFactor, retries)];
            retries := retries + 1;
            i := i + 1;
          } else {
            TracksStop(responses, i, pageNumber, waits, requested);
            requested := requested + [pageNumber];
            outcome := if status == 429 then Returned(plasmidData, RetriesExhausted)
                       else Returned(plasmidData, HttpFailure(status));
            return;
          }
        } else {
          var parsed, encountered', plasmidData' :=
            AddPageIds(page.articles, encountered, plasmidData, Harvest(responses[..i]));
          if parsed && NextEnabled(page.nextButton) {
            TracksAdvance(responses, i, pageNumber, retries, plasmidData, encountered, waits, requested,
                          plasmidData', encountered');
            requested := requested + [pageNumber];
            encountered, plasmidData := encountered', plasmidData';
            pageNumber := pageNumber + 1;
            retries := 0;
            i := i + 1;
          } else {
            TracksStop(responses, i, pageNumber, waits, requested);
            assert Harvest(responses[..i + 1]) == Harvest(responses[..i]) + PresentIds(page.articles) by {
              Step(responses, i);
            }
            requested := requested + [pageNumber];
            outcome := if parsed then Returned(plasmidData', LastPage) else Raised;
            return;
          }
        }
    }
    TracksEnd(responses, pageNumber, retries, plasmidData, encountered, waits, requested);
    outcome := Returned(plasmidData, OutOfResponses);
  }

  /** The IDs a key's loop returns; nothing when it raises. */
  function ReturnedIds(rs: seq<Response>): seq<string>
  {
    match Outcome(rs)
    case Returned(ids, _) => ids
    case Raised => []
  }

  /** The IDs each key's loop returns. */
  function Returns(server: string -> seq<Response>): string -> seq<string>
  {
    q => ReturnedIds(server(q))
  }

  /** The lists `f` gives the keys `keys`, concatenated in key order. */
  function Concat(f: string -> seq<string>, keys: seq<string>): seq<string>
  {
    if keys == [] then []
    else Concat(f, keys[..|keys| - 1]) + f(keys[|keys| - 1])
  }

  /** An element is in the concatenation exactly when some key's list holds it. */
  lemma {:induction false} ConcatElems(f: string -> seq<string>, keys: seq<string>, x: string)
    ensures x in Concat(f, keys) <==> exists k :: 0 <= k < |keys| && x in f(keys[k])
  {
    if keys != [] {
      var init, last := keys[..|keys| - 1], keys[|keys| - 1];
      ConcatElems(f, init, x);
      assert Concat(f, keys) == Concat(f, init) + f(last);
      if x in Concat(f, keys) {
        if x in Concat(f, init) {
          var k :| 0 <= k < |init| && x in f(init[k]);
          assert keys[k] == init[k];
        } else {
          assert x in f(keys[|keys| - 1]);
        }
      }
      if exists k :: 0 <= k < |keys| && x in f(keys[k]) {
        var k :| 0 <= k < |keys| && x in f(keys[k]);
        if k < |init| {
          assert init[k] == keys[k];
        }
      }
    }
  }

  /**
   * `parallel_scrape`: run the loop for every search key, the server's replies to
   * key `q` being `server(q)`, and return the distinct IDs of the loops that
   * returned, in no particular order. Keys are run one after the other.
   */
  method ParallelScrape(server: string -> seq<Response>) returns (ids: seq<string>)
    ensures NoDup(ids)
    ensures forall x :: x in ids <==> exists k :: 0 <= k < 9000 && x in ReturnedIds(server(QueryKeys()[k]))
  {
    var combinations := QueryKeys();
    var allPlasmidData: seq<string> := [];
    for i := 0 to |combinations|
      invariant allPlasmidData == Concat(Returns(server), combinations[..i])
    {
      var outcome, _, _ := FetchPlasmidDataForCombo(server(combinations[i]));
      assert combinations[..i + 1][..i] == combinations[..i];
      if outcome.Returned? {
        allPlasmidData := allPlasmidData + outcome.ids;
      }
    }
    assert combinations[..|combinations|] == combinations;
    ids := ListOfSet(set x | x in allPlasmidData);
    forall x ensures x in ids <==> exists k :: 0 <= k < 9000 && x in ReturnedIds(server(QueryKeys()[k])) {
      ConcatElems(Returns(server), combinations, x);
    }
  }
}
