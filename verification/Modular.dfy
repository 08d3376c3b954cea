/** Bytes, and small helpers every module shares. */
module Bytes {
  type byte = bv8

  function Min(a: nat, b: nat): nat { if a <= b then a else b }

  function PowerOf(base: nat, n: nat): (p: nat)
    ensures base > 0 ==> p > 0
  {
    if n == 0 then 1 else base * PowerOf(base, n - 1)
  }

  /** dest with the elements from `to` on replaced by data. */
  function Splice<T>(dest: seq<T>, to: nat, data: seq<T>): seq<T>
    requires to + |data| <= |dest|
  {
    dest[..to] + data + dest[to + |data|..]
  }

  lemma SpliceLength<T>(dest: seq<T>, to: nat, data: seq<T>)
    requires to + |data| <= |dest|
    ensures |Splice(dest, to, data)| == |dest|
  {
  }

  lemma SpliceTwice<T>(dest: seq<T>, to: nat, a: seq<T>, b: seq<T>)
    requires to + |a| + |b| <= |dest|
    ensures Splice(Splice(dest, to, a), to + |a|, b) == Splice(dest, to, a + b)
  {
  }

  lemma SpliceNothing<T>(dest: seq<T>, to: nat, a: seq<T>)
    requires to + |a| <= |dest|
    ensures Splice(dest, to, a + []) == Splice(dest, to, a)
  {
  }

  lemma SpliceEmpty<T>(dest: seq<T>, to: nat)
    requires to <= |dest|
    ensures Splice(dest, to, []) == dest
  {
  }

  lemma SpliceOne<T>(dest: seq<T>, to: nat, data: seq<T>, b: T)
    requires to + |data| < |dest|
    ensures |Splice(dest, to, data)| == |dest|
    ensures Splice(dest, to, data)[to + |data| := b] == Splice(dest, to, data + [b])
  {
  }

  lemma SplicePrefix<T>(dest: seq<T>, whole: seq<T>, done: nat, chunk: nat)
    requires done + chunk <= |whole| && done + chunk <= |dest|
    ensures Splice(Splice(dest, 0, whole[..done]), done, whole[done..][..chunk]) ==
            Splice(dest, 0, whole[..done + chunk])
    ensures whole[done..][chunk..] == whole[done + chunk..]
  {
    assert whole[..done] + whole[done..][..chunk] == whole[..done + chunk];
    SpliceTwice(dest, 0, whole[..done], whole[done..][..chunk]);
  }
}

/** Arithmetic of positions on a ring of n cells: running totals are unbounded, cells are totals mod n. */
module Modular {

  /** The cell that running total p falls on. */
  function Cell(p: nat, n: nat): (r: nat)
    requires 0 < n
    ensures r < n
  {
    p % n
  }

  lemma ModUnique(a: int, q: int, r: int, n: int)
    requires 0 <= r < n
    requires a == q * n + r
    ensures a % n == r
  {
    var d := a / n - q;
    assert d * n == r - a % n;
    Multiple(d, n);
  }

  lemma Multiple(d: int, n: nat)
    ensures d >= 1 ==> d * n >= n
    ensures d <= -1 ==> d * n + n <= 0
    ensures d == 0 ==> d * n == 0
  {
  }

  /** Two totals less than a full turn apart fall on different cells. */
  lemma DistinctCells(a: nat, b: nat, n: nat)
    requires a < b < a + n
    ensures Cell(a, n) != Cell(b, n)
  {
    var d := b / n - a / n;
    assert d * n == b - a - b % n + a % n;
    Multiple(d, n);
  }

  /** The cell i places after total p, computed from the cell of p with one wrap at most. */
  lemma CellAfter(p: nat, i: nat, n: nat)
    requires 0 < n && i <= n
    ensures Cell(p + i, n) == if Cell(p, n) + i < n then Cell(p, n) + i else Cell(p, n) + i - n
  {
    var h := p % n;
    if h + i < n {
      ModUnique(p + i, p / n, h + i, n);
    } else {
      assert (p / n + 1) * n == p / n * n + n;
      ModUnique(p + i, p / n + 1, h + i - n, n);
    }
  }

  /** Reducing the cell of p instead of p itself makes no difference. */
  lemma CellOfCell(p: nat, i: nat, n: nat)
    requires 0 < n
    ensures (Cell(p, n) + i) % n == Cell(p + i, n) == Cell(Cell(p, n) + i, n)
  {
    var q := (p % n + i) / n;
    assert (p / n + q) * n == p / n * n + q * n;
    ModUnique(p + i, p / n + q, (p % n + i) % n, n);
  }

  /** The used-cells formula: the distance from the tail's cell to the head's cell. */
  lemma UsedFormula(p: nat, c: nat, n: nat)
    requires 0 < n && c <= p < c + n
    ensures (Cell(p, n) + n - Cell(c, n)) % n == p - c
  {
    var k := 1 + c / n - p / n;
    assert k * n == n + c / n * n - p / n * n;
    ModUnique(p % n + n - c % n, k, p - c, n);
  }

  /** The free-cells formula: what is left below a capacity of n - 1. */
  lemma FreeFormula(p: nat, c: nat, n: nat)
    requires 0 < n && c <= p < c + n
    ensures (n - 1 + Cell(c, n) - Cell(p, n)) % n == n - 1 - (p - c)
  {
    var k := p / n - c / n;
    assert k * n == p / n * n - c / n * n;
    ModUnique(n - 1 + c % n - p % n, k, n - 1 - (p - c), n);
  }

  /** Within two turns the remainder is a plain subtraction. */
  lemma WrapOnce(x: nat, n: nat)
    requires 0 < n && x < 2 * n
    ensures x % n == Cell(x, n) == if x < n then x else x - n
  {
    if x < n { ModUnique(x, 0, x, n); } else { ModUnique(x, 1, x - n, n); }
  }

  /** The cells of a ring from tail to head, in order. */
  function Queue<T>(ring: seq<T>, head: nat, tail: nat): seq<T>
    requires head < |ring| && tail < |ring|
  {
    seq((head + |ring| - tail) % |ring|, i requires 0 <= i => ring[Cell(tail + i, |ring|)])
  }
}
