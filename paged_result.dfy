/** The response envelope of the query endpoint (PagedResult<T>). */
module PagedResults {
  import opened Int32Arith

  /** The ceiling of the rational `a / b`, characterised by the two
      inequalities that pin it down for either sign of the divisor. */
  function CeilDiv(a: int, b: int): (r: int)
    requires b != 0
    ensures b > 0 ==> (r - 1) * b < a <= r * b
    ensures b < 0 ==> r * b <= a < (r - 1) * b
  {
    if b > 0 then
      var q := (-a) / b;
      assert q * b + (-a) % b == -a;
      -q
    else
      var q := a / (-b);
      assert q * (-b) + a % (-b) == a;
      -q
  }

  /** A page of records with its count, its position and its size, set once
      when the envelope is built. */
  datatype PagedResult<T> = PagedResult(data: seq<T>, totalCount: Int32, page: Int32, pageSize: Int32)
  {
    /** The number of pages of `pageSize` records that `totalCount` records
        fill, rounded up; zero when the page size is zero. */
    function TotalPages(): (r: int)
      ensures pageSize == 0 ==> r == 0
      ensures pageSize > 0 ==> (r - 1) * pageSize < totalCount <= r * pageSize
      ensures pageSize < 0 ==> r * pageSize <= totalCount < (r - 1) * pageSize
    {
      if pageSize != 0 then CeilDiv(totalCount, pageSize) else 0
    }
  }

  /** Multiplying by a positive number keeps the order of integers, in both
      directions. */
  lemma MulLe(a: int, b: int, d: int)
    requires d > 0
    ensures a <= b <==> a * d <= b * d
  {
    assert b * d - a * d == (b - a) * d;
    MulSign(b - a, d);
  }

  lemma MulSign(x: int, d: int)
    requires d > 0
    ensures x >= 0 <==> x * d >= 0
  {
  }

  lemma CeilingUnique(n: int, d: int, r: int, q: int)
    requires d > 0
    requires (r - 1) * d < n <= r * d
    requires (q - 1) * d < n <= q * d
    ensures r == q
  {
    MulLe(r, q - 1, d);
    MulLe(q, r - 1, d);
  }

  /** For a positive page size and a count that is not negative, TotalPages is
      the integer ceiling division `(count + size - 1) / size`. */
  lemma TotalPagesFormula<T>(p: PagedResult<T>)
    requires p.pageSize > 0 && p.totalCount >= 0
    ensures p.TotalPages() == (p.totalCount + p.pageSize - 1) / p.pageSize
  {
    var n: int, d: int := p.totalCount, p.pageSize;
    var q, m := (n + d - 1) / d, (n + d - 1) % d;
    assert q * d + m == n + d - 1 && 0 <= m < d;
    assert (q - 1) * d == q * d - d;
    CeilingUnique(n, d, p.TotalPages(), q);
  }

  /** No records means no pages, whatever the page size. */
  lemma TotalPagesOfEmpty<T>(p: PagedResult<T>)
    requires p.totalCount == 0
    ensures p.TotalPages() == 0
  {
    var d: int, r := p.pageSize, p.TotalPages();
    if d > 0 {
      CeilingUnique(0, d, r, 0);
    } else if d < 0 {
      MulSign(-r + 1, -d);
      MulSign(r, -d);
    }
  }

  /** A positive count fills at least one page: the pages cover the count,
      and one page fewer would not. */
  lemma TotalPagesPositive<T>(p: PagedResult<T>)
    requires p.pageSize > 0 && p.totalCount > 0
    ensures p.TotalPages() >= 1
    ensures p.TotalPages() * p.pageSize >= p.totalCount
    ensures (p.TotalPages() - 1) * p.pageSize < p.totalCount
  {
    MulLe(p.TotalPages(), 0, p.pageSize);
  }

  /** With the page size fixed, more records never mean fewer pages. */
  lemma TotalPagesMonotone<T>(p: PagedResult<T>, p': PagedResult<T>)
    requires p.pageSize == p'.pageSize > 0
    requires p.totalCount <= p'.totalCount
    ensures p.TotalPages() <= p'.TotalPages()
  {
    MulLe(p'.TotalPages(), p.TotalPages() - 1, p.pageSize);
  }

  /** A count that fits in one page gives at most one page. */
  lemma TotalPagesOfOnePage<T>(p: PagedResult<T>)
    requires 0 <= p.totalCount <= p.pageSize
    requires p.pageSize > 0
    ensures 0 <= p.TotalPages() <= 1
  {
    if p.totalCount == 0 {
      TotalPagesOfEmpty(p);
    } else {
      CeilingUnique(p.totalCount, p.pageSize, p.TotalPages(), 1);
    }
  }

  /** TotalPages reads only the count and the page size: replacing the page
      number or the records leaves it as it was. */
  lemma TotalPagesIgnoresPageAndData<T>(p: PagedResult<T>, data: seq<T>, page: Int32)
    ensures p.(data := data, page := page).TotalPages() == p.TotalPages()
  {
  }
}
