/** Positions in a ring buffer: a byte numbered k lives at k modulo the size. */
module Ring {
  lemma MulSucc(q: int, n: int)
    ensures (q + 1) * n == q * n + n
  {
  }

  lemma {:induction false} MulPositive(d: nat, n: nat)
    requires d >= 1
    ensures d * n >= n
  {
    if d > 1 {
      MulPositive(d - 1, n);
      MulSucc(d - 1, n);
    }
  }

  lemma MulBig(d: int, n: nat)
    requires d != 0
    ensures d * n >= n || d * n + n <= 0
  {
    if d >= 1 {
      MulPositive(d, n);
    } else {
      MulPositive(-d, n);
      assert (-d) * n == -(d * n);
    }
  }

  /** Bytes less than one ring apart live at different positions. */
  lemma ModUnique(a: nat, b: nat, n: nat)
    requires a < b < a + n
    ensures a % n != b % n
  {
    var d := b / n - a / n;
    assert b - a == d * n + (b % n - a % n);
    if d != 0 {
      MulBig(d, n);
    }
  }

  lemma ModOf(x: nat, q: nat, r: nat, n: nat)
    requires x == q * n + r && r < n
    ensures x % n == r
  {
    var d := x / n - q;
    assert d * n == r - x % n;
    if d != 0 {
      MulBig(d, n);
    }
  }

  lemma DivOf(x: nat, q: nat, r: nat, n: nat)
    requires x == q * n + r && r < n
    ensures x / n == q
  {
    var d := x / n - q;
    assert d * n == r - x % n;
    if d != 0 {
      MulBig(d, n);
    }
  }

  lemma Expand(x: int, y: int, c: int)
    ensures (x + y) * c == x * c + y * c
  {
  }

  lemma Associate(q: int, p: int, c: int)
    ensures (q * p) * c == q * (c * p)
  {
  }

  /** Two digits as one. */
  lemma Regroup(q: nat, p: nat, r: nat, c: nat, x: nat)
    requires r < p && x < c
    ensures (q * p + r) * c + x == q * (c * p) + (r * c + x) && r * c + x < c * p
  {
    Expand(q * p, r, c);
    Associate(q, p, c);
    MulPositive(p - r, c);
    Expand(p - r, r, c);
  }

  lemma Divided(n: nat, c: nat)
    requires c > 0
    ensures n == (n / c) * c + n % c && n % c < c
  {
  }

  /** The remainder modulo a product, digit by digit. */
  lemma ModParts(n: nat, c: nat, p: nat)
    requires c > 0 && p > 0
    ensures c * p > 0 && n % (c * p) == (n / c) % p * c + n % c
  {
    MulPositive(p, c);
    Divided(n, c);
    Divided(n / c, p);
    var q, r := (n / c) / p, (n / c) % p;
    Regroup(q, p, r, c, n % c);
    ModOf(n, q, r * c + n % c, c * p);
  }

  /** Dividing in two steps. */
  lemma DivDiv(n: nat, c: nat, p: nat)
    requires c > 0 && p > 0
    ensures c * p > 0 && n / (c * p) == n / c / p
  {
    MulPositive(p, c);
    Divided(n, c);
    Divided(n / c, p);
    var q, r := (n / c) / p, (n / c) % p;
    Regroup(q, p, r, c, n % c);
    DivOf(n, q, r * c + n % c, c * p);
  }

  lemma DivMod(a: nat, n: nat) returns (q: nat, r: nat)
    requires n > 0
    ensures a == q * n + r && r < n && r == a % n
  {
    q, r := a / n, a % n;
  }

  /** Stepping a position is stepping the number. */
  lemma ModNext(a: nat, n: nat)
    requires n > 0
    ensures (a % n + 1) % n == (a + 1) % n
  {
    var q, r := DivMod(a, n);
    if r + 1 < n {
      ModOf(a + 1, q, r + 1, n);
      ModOf(r + 1, 0, r + 1, n);
    } else {
      MulSucc(q, n);
      ModOf(a + 1, q + 1, 0, n);
      ModOf(n, 1, 0, n);
    }
  }

  /** The ring holds the stream from `frontier` on: `used` bytes, the next one
      to be stored at `writePos`. */
  ghost predicate RingOk<T>(ring: seq<T>, used: int, writePos: int, data: seq<T>, frontier: int) {
    && 0 < |ring| && 0 <= frontier && 0 <= used <= |ring| && used == |data| - frontier
    && writePos == |data| % |ring|
    && forall k | frontier <= k < |data| :: ring[k % |ring|] == data[k]
  }

  lemma RingFacts<T>(ring: seq<T>, used: int, writePos: int, data: seq<T>, frontier: int)
    requires RingOk(ring, used, writePos, data, frontier)
    ensures 0 < |ring| && 0 <= frontier && 0 <= used <= |ring| && used == |data| - frontier
  {
  }

  /** The oldest byte held is at the frontier's position. */
  lemma RingRead<T>(ring: seq<T>, used: int, writePos: int, data: seq<T>, frontier: int)
    requires RingOk(ring, used, writePos, data, frontier) && used > 0
    ensures 0 < |ring| && 0 <= frontier < |data| && 0 <= frontier % |ring| < |ring|
    ensures ring[frontier % |ring|] == data[frontier]
  {
  }

  /** Storing a value at the write position extends the stream by it. */
  lemma RingStore<T>(ring: seq<T>, used: int, writePos: int, data: seq<T>, frontier: int, b: T)
    requires RingOk(ring, used, writePos, data, frontier) && used < |ring|
    ensures 0 <= writePos < |ring|
    ensures RingOk(ring[writePos := b], used + 1, (writePos + 1) % |ring|, data + [b], frontier)
  {
    ModNext(|data|, |ring|);
    forall k | frontier <= k < |data| ensures k % |ring| != writePos {
      ModUnique(k, |data|, |ring|);
    }
  }

  /** Reclaiming old bytes keeps the rest where it is. */
  lemma RingReclaim<T>(ring: seq<T>, used: int, writePos: int, data: seq<T>, frontier: int, frontier': int)
    requires RingOk(ring, used, writePos, data, frontier) && frontier <= frontier' <= |data|
    ensures RingOk(ring, |data| - frontier', writePos, data, frontier')
  {
  }

  /** A position `used` bytes on. */
  lemma ModAdd(a: nat, used: nat, n: nat)
    requires n > 0
    ensures (a + used) % n == (a % n + used) % n
  {
    var q, r := DivMod(a, n);
    var q', r' := DivMod(r + used, n);
    assert a + used == (q + q') * n + r' by { Distribute(q, q', n); }
    ModOf(a + used, q + q', r', n);
  }

  lemma Distribute(x: int, y: int, n: int)
    ensures (x + y) * n == x * n + y * n
  {
  }
}
