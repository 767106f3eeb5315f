/**
 * Platform sizing helpers of src/util.rs. The `sysconf(_SC_PAGESIZE)` value
 * and the page size are parameters instead of platform queries.
 */
module Util {
  import opened Error
  import Bits

  /** The page size follows from the raw `sysconf` answer, which fails when not positive. */
  function GetPageSize(sysconf: int): (r: Result<nat>)
    ensures r.Ok? <==> sysconf > 0
    ensures r.Ok? ==> r.value == sysconf
    ensures r.Err? ==> r.error == IO
  {
    if sysconf <= 0 then Err(IO) else Ok(sysconf as nat)
  }

  /**
   * Rounds n up to a positive multiple of the page size. A positive exact
   * multiple is kept; everything else, 0 included, moves to the next multiple.
   */
  function RoundUpToPageSize(n: nat, page: nat): (r: nat)
    requires page > 0
    ensures r > 0 && r % page == 0 && r >= n
    ensures n > 0 && n % page == 0 ==> r == n
    ensures n == 0 ==> r == page
    ensures n > 0 ==> r - n < page
  {
    if n > 0 && n % page == 0 then n
    else
      var q := n / page;
      assert n == page * q + n % page;
      Bits.ModUnique((q + 1) * page, page, q + 1, 0);
      (q + 1) * page
  }

  /** No smaller positive page multiple covers n. */
  lemma RoundUpIsLeast(n: nat, page: nat, m: nat)
    requires page > 0 && m > 0 && m % page == 0 && m >= n
    ensures RoundUpToPageSize(n, page) <= m
  {
    var r := RoundUpToPageSize(n, page);
    assert r == page * (r / page);
    assert m == page * (m / page);
    Bits.MulOutsideUnit(page, m / page);
    Bits.MulOutsideUnit(page, r / page - m / page);
    assert r - m == page * (r / page - m / page);
  }

  /** With n in (2p, 3p], the rounded size is 3p, whatever p is. */
  lemma RoundUpToThreePages(n: nat, page: nat)
    requires page > 0 && 2 * page < n <= 3 * page
    ensures RoundUpToPageSize(n, page) == 3 * page
  {
    var r := RoundUpToPageSize(n, page);
    RoundUpIsLeast(n, page, 3 * page);
    assert r == page * (r / page);
    Bits.MulOutsideUnit(page, r / page - 2);
    assert r - 2 * page == page * (r / page - 2);
    Bits.MulOutsideUnit(page, 3 - r / page);
    assert 3 * page - r == page * (3 - r / page);
  }
}
