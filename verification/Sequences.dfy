/** Facts about sequences that the solver should not have to find again each time. */
module Sequences {
  lemma Assoc<T>(a: seq<T>, b: seq<T>, c: seq<T>)
    ensures (a + b) + c == a + (b + c)
  {
  }

  lemma ConsJoin<T>(x: T, a: seq<T>, b: seq<T>)
    ensures ([x] + a) + b == [x] + (a + b)
    ensures ([x] + a)[0] == x && ([x] + a)[1..] == a
  {
  }

  lemma Snoc<T>(a: seq<T>, x: T)
    ensures (a + [x])[..|a|] == a && (a + [x])[|a|] == x && |a + [x]| == |a| + 1
  {
  }

  lemma NextTake<T>(s: seq<T>, n: nat)
    requires n < |s|
    ensures s[..n+1] == s[..n] + [s[n]] && s[..n+1][..n] == s[..n] && s[..n+1][n] == s[n]
    ensures s[n..][0] == s[n] && s[n..][1..] == s[n+1..]
  {
  }

  lemma TakeCons<T>(x: T, s: seq<T>, n: nat)
    requires n <= |s|
    ensures ([x] + s)[..n+1] == [x] + s[..n]
  {
  }

  lemma ConsSnoc<T>(x: T, s: seq<T>)
    requires s != []
    ensures var n := |s|; ([x] + s)[..n] == [x] + s[..n-1] && ([x] + s)[n] == s[n-1] && |[x] + s| == n + 1
  {
  }

  lemma Unit<T>(a: seq<T>)
    ensures a + [] == a && [] + a == a
  {
  }
}
