/**
 * The list page: the "load more" pagination (the `loadMoreButton` click
 * handler and the first `loadPokemonItens(offset, limit)` call) and the
 * `#NNN` number on every card.
 *
 * The page is a small state machine: the module-level `offset` and whether
 * the button is still in the DOM. Each click yields one request for the
 * records `[offset, offset + count)`.
 */
module PokemonList {
  import opened Wrappers
  import opened Text

  /** The page size and the number of records in the catalogue. */
  datatype Config = Config(limit: int, maxRecords: int)

  /** `limit = 10` and `maxRecords = 151`. */
  const Source: Config := Config(10, 151)

  /** A page size that is positive and smaller than the catalogue. */
  predicate Valid(c: Config) {
    0 < c.limit < c.maxRecords
  }

  lemma SourceIsValid()
    ensures Valid(Source)
  {
  }

  /** One `loadPokemonItens(offset, count)` request: the records `[offset, offset + count)`. */
  datatype Page = Page(offset: int, count: int)

  function End(p: Page): int {
    p.offset + p.count
  }

  /** The module-level `offset` and whether `loadMoreButton` is still attached. */
  datatype Pager = Pager(offset: int, buttonPresent: bool)

  /**
   * The state after the script's first `loadPokemonItens(offset, limit)`:
   * `offset` still 0 and the button attached, with a further page to load.
   */
  function Start(c: Config): (p: Pager)
    ensures p.offset == 0 && p.buttonPresent
    ensures Valid(c) ==> p.offset + c.limit < c.maxRecords
  {
    Pager(0, true)
  }

  /** The request the script issues when it starts: the first `limit` records. */
  function FirstPage(c: Config): (p: Page)
    ensures p.offset == 0 && End(p) == c.limit
    ensures Valid(c) ==> 0 < p.count && End(p) < c.maxRecords
  {
    Page(0, c.limit)
  }

  function Min(a: int, b: int): int {
    if a <= b then a else b
  }

  /**
   * One click on "load more". With the button gone nothing can be clicked
   * and nothing is requested. Otherwise the offset first advances by
   * `limit`; the request then covers the next `limit` records cut off at
   * `maxRecords`, and the button stays exactly when records remain after it.
   */
  function Click(c: Config, p: Pager): (r: (Pager, Option<Page>))
    ensures !p.buttonPresent ==> r == (p, None)
    ensures p.buttonPresent ==> r.1.Some? && r.1.value.offset == p.offset + c.limit == r.0.offset
    ensures p.buttonPresent ==> End(r.1.value) == Min(r.1.value.offset + c.limit, c.maxRecords)
    ensures p.buttonPresent ==> (r.0.buttonPresent <==> End(r.1.value) < c.maxRecords)
  {
    if !p.buttonPresent then (p, None)
    else
      var offset := p.offset + c.limit;
      if offset + c.limit >= c.maxRecords then
        (Pager(offset, false), Some(Page(offset, c.maxRecords - offset)))
      else
        (Pager(offset, true), Some(Page(offset, c.limit)))
  }

  /** While the button is present, one more full page still ends before `maxRecords`. */
  predicate ButtonInv(c: Config, p: Pager) {
    p.buttonPresent ==> 0 <= p.offset && p.offset + c.limit < c.maxRecords
  }

  /** The first page fits and leaves records for the button to load. */
  lemma StartInBounds(c: Config)
    requires Valid(c)
    ensures ButtonInv(c, Start(c))
    ensures 0 < FirstPage(c).count && End(FirstPage(c)) <= c.maxRecords
  {
  }

  /**
   * A click from a state where the button invariant holds requests a
   * non-empty page of at most `limit` records inside `[0, maxRecords)`,
   * and leaves a state where the invariant still holds.
   */
  lemma ClickInBounds(c: Config, p: Pager)
    requires Valid(c) && ButtonInv(c, p) && p.buttonPresent
    ensures var (next, page) := Click(c, p);
            page.Some? && 0 <= page.value.offset &&
            0 < page.value.count <= c.limit && End(page.value) <= c.maxRecords &&
            ButtonInv(c, next)
  {
  }

  // ---------------------------------------------------------------------
  // The whole run
  // ---------------------------------------------------------------------

  /** Each request starts where the previous one ended. */
  predicate Contiguous(pages: seq<Page>) {
    forall k :: 0 <= k < |pages| - 1 ==> End(pages[k]) == pages[k + 1].offset
  }

  /** Record `x` is requested by some page. */
  predicate Covered(pages: seq<Page>, x: int) {
    exists k :: 0 <= k < |pages| && pages[k].offset <= x < End(pages[k])
  }

  /** Contiguous requests of non-negative size never move backwards. */
  lemma {:induction false} ContiguousOrdered(pages: seq<Page>, j: nat, k: nat)
    requires Contiguous(pages) && forall i :: 0 <= i < |pages| ==> pages[i].count >= 0
    requires j < k < |pages|
    ensures End(pages[j]) <= pages[k].offset
    decreases k - j
  {
    if j + 1 < k {
      ContiguousOrdered(pages, j + 1, k);
    }
  }

  /** Contiguous requests cover exactly the range from the first start to the last end. */
  lemma {:induction false} ContiguousCover(pages: seq<Page>, x: int)
    requires |pages| > 0 && Contiguous(pages)
    requires forall i :: 0 <= i < |pages| ==> pages[i].count >= 0
    ensures Covered(pages, x) <==> pages[0].offset <= x < End(pages[|pages| - 1])
  {
    var n := |pages|;
    if n > 1 {
      var init := pages[..n - 1];
      assert Contiguous(init);
      ContiguousCover(init, x);
      ContiguousOrdered(pages, 0, n - 1);
      assert init[0] == pages[0];
      if Covered(pages, x) {
        var k :| 0 <= k < n && pages[k].offset <= x < End(pages[k]);
        if k < n - 1 {
          assert init[k] == pages[k];
          assert Covered(init, x);
        }
      }
      if pages[0].offset <= x < End(pages[n - 1]) && x < pages[n - 1].offset {
        assert Covered(init, x);
        var k :| 0 <= k < n - 1 && init[k].offset <= x < End(init[k]);
        assert pages[k] == init[k];
      }
    }
  }

  lemma MulMonotone(a: int, b: int, m: int)
    requires a <= b && 0 < m
    ensures a * m <= b * m
  {
  }

  /**
   * `n` requests whose offsets step by `limit`, the last one non-empty, at
   * most `limit` long and ending at `maxRecords`, are `ceil(maxRecords / limit)`.
   */
  lemma PageCount(n: int, limit: int, maxRecords: int, lastCount: int)
    requires 0 < limit && n >= 1
    requires 0 < lastCount <= limit && (n - 1) * limit + lastCount == maxRecords
    ensures n == (maxRecords + limit - 1) / limit
  {
    var q := (maxRecords + limit - 1) / limit;
    var rem := (maxRecords + limit - 1) % limit;
    assert maxRecords + limit - 1 == n * limit + (lastCount - 1);
    assert 0 <= lastCount - 1 < limit;
    assert q * limit + rem == n * limit + (lastCount - 1);
    if q < n {
      MulMonotone(q, n - 1, limit);
      assert false;
    } else if q > n {
      MulMonotone(n + 1, q, limit);
      assert false;
    }
  }

  /**
   * The whole list as the user sees it by clicking until the button is
   * gone: the first request and then one per click, each non-empty and at
   * most `limit` long, each starting where the previous one ended, covering
   * exactly the records `[0, maxRecords)` with `ceil(maxRecords / limit)`
   * requests.
   */
  method LoadAll(c: Config) returns (pages: seq<Page>)
    requires Valid(c)
    ensures |pages| >= 1 && pages[0] == FirstPage(c)
    ensures Contiguous(pages)
    ensures forall k :: 0 <= k < |pages| ==> pages[k].offset == k * c.limit
    ensures forall k :: 0 <= k < |pages| - 1 ==> pages[k].count == c.limit
    ensures forall k :: 0 <= k < |pages| ==> 0 < pages[k].count <= c.limit
    ensures End(pages[|pages| - 1]) == c.maxRecords
    ensures forall x :: Covered(pages, x) <==> 0 <= x < c.maxRecords
    ensures |pages| == (c.maxRecords + c.limit - 1) / c.limit
  {
    var pager := Start(c);
    pages := [FirstPage(c)];
    while pager.buttonPresent
      invariant |pages| >= 1 && pages[0] == FirstPage(c)
      invariant Contiguous(pages)
      invariant forall k :: 0 <= k < |pages| ==> 0 < pages[k].count <= c.limit
      invariant forall k :: 0 <= k < |pages| ==> pages[k].offset == k * c.limit
      invariant forall k :: 0 <= k < |pages| - 1 ==> pages[k].count == c.limit
      invariant pager.offset == pages[|pages| - 1].offset == (|pages| - 1) * c.limit
      invariant pager.buttonPresent ==>
        End(pages[|pages| - 1]) == pager.offset + c.limit < c.maxRecords
      invariant !pager.buttonPresent ==> End(pages[|pages| - 1]) == c.maxRecords
      decreases c.maxRecords - pager.offset
    {
      var (next, page) := Click(c, pager);
      pages := pages + [page.value];
      pager := next;
    }
    FinishedRun(c, pages);
  }

  /**
   * A contiguous run of requests from `(0, limit)`, each non-empty and at
   * most `limit` long and stepping by `limit`, that ends at `maxRecords`
   * covers exactly `[0, maxRecords)` with `ceil(maxRecords / limit)` requests.
   */
  lemma FinishedRun(c: Config, pages: seq<Page>)
    requires Valid(c) && |pages| >= 1 && pages[0] == FirstPage(c) && Contiguous(pages)
    requires forall k :: 0 <= k < |pages| ==> 0 < pages[k].count <= c.limit
    requires pages[|pages| - 1].offset == (|pages| - 1) * c.limit
    requires End(pages[|pages| - 1]) == c.maxRecords
    ensures forall x :: Covered(pages, x) <==> 0 <= x < c.maxRecords
    ensures |pages| == (c.maxRecords + c.limit - 1) / c.limit
  {
    var last := pages[|pages| - 1];
    PageCount(|pages|, c.limit, c.maxRecords, last.count);
    forall x ensures Covered(pages, x) <==> 0 <= x < c.maxRecords {
      ContiguousCover(pages, x);
    }
  }

  /** Later requests start no earlier than earlier ones end: no record is requested twice. */
  lemma RequestsDisjoint(pages: seq<Page>, j: nat, k: nat, x: int)
    requires Contiguous(pages) && forall i :: 0 <= i < |pages| ==> pages[i].count >= 0
    requires j < k < |pages|
    ensures !(pages[j].offset <= x < End(pages[j]) && pages[k].offset <= x < End(pages[k]))
  {
    ContiguousOrdered(pages, j, k);
  }

  // ---------------------------------------------------------------------
  // The card number
  // ---------------------------------------------------------------------

  lemma NumeralLength(n: nat)
    ensures n < 1000 ==> |NatToString(n)| <= 3
    ensures n >= 100 ==> |NatToString(n)| >= 3
  {
    if n >= 10 {
      assert NatToString(n) == NatToString(n / 10) + [DigitChar(n % 10)];
      if n >= 100 {
        assert NatToString(n / 10) == NatToString(n / 100) + [DigitChar((n / 10) % 10)];
      } else {
        assert n / 10 < 10;
      }
      if n < 1000 && n >= 100 {
        assert n / 100 < 10;
      }
    }
  }

  /**
   * `#${number.toString().padStart(3, "0")}`: a '#' and at least three
   * digits that read back as the number; exactly three below 1000, and the
   * plain numeral from 100 up.
   */
  function NumberLabel(number: nat): (s: string)
    ensures |s| >= 4 && s[0] == '#'
    ensures AllDigits(s[1..]) && ParseDecimal(s[1..]) == number
    ensures number < 1000 ==> |s| == 4
    ensures number >= 100 ==> s[1..] == NatToString(number)
  {
    var digits := NatToString(number);
    var padded := PadStart(digits, 3, '0');
    NumeralLength(number);
    ParseNatToString(number);
    ParseLeadingZeros(|padded| - |digits|, digits);
    assert padded == Repeat('0', |padded| - |digits|) + digits;
    var s := "#" + padded;
    assert s[1..] == padded;
    s
  }
}
