/** Types and small facts shared by every component. */
module Base {

  type Byte = b: int | 0 <= b < 0x100
  type U16 = w: int | 0 <= w < 0x1_0000
  /** An IPv4 address as the 32-bit number the source passes around. */
  type Ip = a: int | 0 <= a < 0x1_0000_0000

  const IPPROTO_UDP := 17

  datatype Option<+T> = None | Some(value: T)

  ghost predicate Distinct<T>(s: seq<T>) {
    forall i, j :: 0 <= i < j < |s| ==> s[i] != s[j]
  }

  ghost function SetOf<T>(s: seq<T>): set<T> {
    set x | x in s
  }

  lemma {:induction false} DistinctCount<T>(s: seq<T>)
    requires Distinct(s)
    ensures |SetOf(s)| == |s|
  {
    if s != [] {
      DistinctCount(s[1..]);
      assert SetOf(s) == SetOf(s[1..]) + {s[0]};
      assert s[0] !in s[1..];
    }
  }

  lemma SetOfAppend<T>(s: seq<T>, t: seq<T>)
    ensures SetOf(s + t) == SetOf(s) + SetOf(t)
  {}

  lemma SubsetCount<T>(a: set<T>, b: set<T>)
    requires a <= b
    ensures |a| <= |b|
    ensures |a| == |b| ==> a == b
  {
    assert |b| == |a| + |b - a| by { assert b == a + (b - a); }
  }

  /** The numbers below `n`. */
  function Below(n: nat): (s: set<nat>)
    ensures |s| == n && forall i: nat :: i in s <==> i < n
  {
    if n == 0 then {} else Below(n - 1) + {n - 1}
  }

  /** A map without repeated values has at most as many keys as there are values to take. */
  lemma {:induction false} InjectionCount<A, B>(f: map<A, B>, s: set<B>)
    requires forall a, b | a in f && b in f && f[a] == f[b] :: a == b
    requires forall a | a in f :: f[a] in s
    ensures |f| <= |s|
    decreases |f|
  {
    if f != map[] {
      var a :| a in f;
      assert f.Keys == (f - {a}).Keys + {a};
      assert s == (s - {f[a]}) + {f[a]};
      InjectionCount(f - {a}, s - {f[a]});
    }
  }

  /** Quotient and remainder are unique. */
  lemma Residue(x: int, q: int, r: int, n: int)
    requires n > 0 && x == q * n + r && 0 <= r < n
    ensures x / n == q && x % n == r
  {
    var k, m := x / n, x % n;
    Distribute(k, q, n);
    if k != q {
      LargeMultiple(k - q, n);
    }
  }

  lemma Distribute(k: int, q: int, n: int)
    ensures (k - q) * n == k * n - q * n
  {}

  lemma LargeMultiple(k: int, n: int)
    requires n > 0 && k != 0
    ensures k * n >= n || k * n <= -n
  {
    if k > 0 {
      Distribute(k, 1, n);
      assert (k - 1) * n >= 0;
    } else {
      Distribute(-1, k, n);
      assert (-1 - k) * n >= 0;
    }
  }

  /** Two maps that undo each other have the same size. */
  lemma BijectionCount<A, B>(f: map<A, B>, g: map<B, A>)
    requires forall a | a in f :: f[a] in g && g[f[a]] == a
    requires forall b | b in g :: g[b] in f && f[g[b]] == b
    ensures |f| == |g|
  {
    InjectionCount(f, g.Keys);
    InjectionCount(g, f.Keys);
    assert |f| == |f.Keys| && |g| == |g.Keys|;
  }
}
