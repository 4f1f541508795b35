/**
 * The page navigator's rules, shared by both versions of `SerialDisplay`:
 * where the page index may be for a given number of pages, how the "<" and
 * ">" buttons move it, when each button is enabled, and which pages are
 * placed in the frame after the current page is shown.
 */
module Navigation {

  /** Where the index may be: on a page when there are pages, and at 0 when
      there are none. */
  predicate InRange(i: int, n: nat) {
    (n > 0 ==> 0 <= i < n) && (n == 0 ==> i == 0)
  }

  /** The index after "<" (`show_previous_page`): one back, unless already
      at 0. */
  function Prev(i: int): (r: int)
    ensures i > 0 ==> r == i - 1
    ensures i <= 0 ==> r == i
  {
    if i > 0 then i - 1 else i
  }

  /** The index after ">" (`show_next_page`): one forward, unless already at
      the last page. */
  function Next(i: int, n: nat): (r: int)
    ensures i < n - 1 ==> r == i + 1
    ensures i >= n - 1 ==> r == i
  {
    if i < n - 1 then i + 1 else i
  }

  /** The "<" button is disabled exactly on index 0. */
  predicate PrevEnabled(i: int) {
    i != 0
  }

  /** The ">" button is disabled exactly on index `n - 1`; with no pages
      that is index -1, so on an empty display it is enabled. */
  predicate NextEnabled(i: int, n: nat) {
    i != n - 1
  }

  /** Of the display's pages, exactly the current one is placed. */
  predicate OnlyCurrentPlaced<T>(placed: set<T>, pages: seq<T>, i: int)
    requires InRange(i, |pages|)
  {
    forall p :: p in pages ==> (p in placed <==> p == pages[i])
  }

  /** The pages placed in the frame after `show_current_page`: every page
      of the list is taken off, then the current one (if any) is put on.
      Pages that are no longer in the list keep their place. */
  function Regrid<T>(placed: set<T>, pages: seq<T>, i: int): (r: set<T>)
    requires InRange(i, |pages|)
    ensures OnlyCurrentPlaced(r, pages, i)
    ensures r - (set p | p in pages) == placed - (set p | p in pages)
  {
    (placed - set p | p in pages) + (if |pages| > 0 then {pages[i]} else {})
  }

  /** Both buttons keep the index in range, and so does adding a page. */
  lemma MovesStayInRange(i: int, n: nat)
    requires InRange(i, n)
    ensures InRange(Prev(i), n)
    ensures InRange(Next(i, n), n)
    ensures InRange(i, n + 1)
  {
  }

  /** On a display with pages, a button is enabled exactly when pressing it
      moves the index. */
  lemma EnabledIffMoves(i: int, n: nat)
    requires n > 0 && InRange(i, n)
    ensures PrevEnabled(i) <==> Prev(i) != i
    ensures NextEnabled(i, n) <==> Next(i, n) != i
  {
  }

  /** On an empty display the ">" button is enabled but pressing it does
      nothing. */
  lemma EmptyDisplayNextEnabled(i: int)
    requires InRange(i, 0)
    ensures NextEnabled(i, 0) && Next(i, 0) == i
    ensures !PrevEnabled(i) && Prev(i) == i
  {
  }

  /** ">" undoes "<" wherever "<" moved, and "<" undoes ">" wherever ">"
      moved. */
  lemma PrevNextInverse(i: int, n: nat)
    requires InRange(i, n)
    ensures i > 0 ==> Next(Prev(i), n) == i
    ensures i < n - 1 ==> Prev(Next(i, n)) == i
  {
  }

  /** The index after pressing ">" `k` times. */
  function NextTimes(i: int, n: nat, k: nat): int
  {
    if k == 0 then i else Next(NextTimes(i, n, k - 1), n)
  }

  /** Pressing ">" `k` times from an in-range index moves `k` pages forward,
      stopping at the last page. */
  lemma {:induction false} NextTimesStopsAtLast(i: int, n: nat, k: nat)
    requires n > 0 && InRange(i, n)
    ensures NextTimes(i, n, k) == if i + k <= n - 1 then i + k else n - 1
  {
    if k > 0 {
      NextTimesStopsAtLast(i, n, k - 1);
    }
  }
}
