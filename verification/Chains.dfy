/** A partial function as a finite map of links, and the chains it forms; nothing here assumes acyclicity. */
module Chains {
  import opened Wrappers
  import opened Sorting

  /** From each element to the next: a group to its parent, an offset to the following one. */
  type Links<T> = map<T, T>

  /** The element reached from `x` by following exactly `k` links. */
  ghost function Up<T>(m: Links<T>, x: T, k: nat): Option<T>
    decreases k
  {
    if k == 0 then Some(x) else if x in m then Up(m, m[x], k - 1) else None
  }

  /** `a` is `x` or one of its ancestors. */
  ghost predicate Reaches<T>(m: Links<T>, x: T, a: T) {
    exists k: nat :: Up(m, x, k) == Some(a)
  }

  ghost predicate Acyclic<T(!new)>(m: Links<T>) {
    forall x, k: nat | k > 0 :: Up(m, x, k) != Some(x)
  }

  /** The chain from `x` ends, after exactly `k` links. */
  ghost predicate RootedAt<T>(m: Links<T>, x: T, k: nat) {
    Up(m, x, k).Some? && Up(m, x, k + 1).None?
  }

  lemma {:induction false} UpCompose<T>(m: Links<T>, x: T, i: nat, j: nat)
    ensures Up(m, x, i + j) == if Up(m, x, i).Some? then Up(m, Up(m, x, i).value, j) else None
    decreases i
  {
    if i > 0 && x in m {
      UpCompose(m, m[x], i - 1, j);
    }
  }

  lemma UpStep<T>(m: Links<T>, x: T, k: nat)
    ensures Up(m, x, k + 1) ==
      if Up(m, x, k).Some? && Up(m, x, k).value in m then Some(m[Up(m, x, k).value]) else None
  {
    UpCompose(m, x, k, 1);
    if Up(m, x, k).Some? {
      var y := Up(m, x, k).value;
      assert y in m ==> Up(m, m[y], 0) == Some(m[y]);
    }
  }

  lemma {:induction false} UpDefinedBelow<T>(m: Links<T>, x: T, i: nat, k: nat)
    requires i <= k && Up(m, x, k).Some?
    ensures Up(m, x, i).Some?
  {
    UpCompose(m, x, i, k - i);
  }

  /** Once a chain repeats an id it visits nothing new. */
  lemma {:induction false} RepeatIsPeriodic<T>(m: Links<T>, x: T, j: nat, k: nat, n: nat)
    requires j < k && Up(m, x, j) == Up(m, x, k) && Up(m, x, j).Some?
    ensures exists i: nat :: i < k && Up(m, x, i) == Up(m, x, n)
    decreases n
  {
    if n >= k {
      UpCompose(m, x, j, n - k);
      UpCompose(m, x, k, n - k);
      RepeatIsPeriodic(m, x, j, k, n - k + j);
    }
  }

  lemma {:induction false} RootedIsUnique<T>(m: Links<T>, x: T, k: nat, l: nat)
    requires RootedAt(m, x, k) && RootedAt(m, x, l)
    ensures k == l
  {
    if k < l {
      UpDefinedBelow(m, x, k + 1, l);
    } else if l < k {
      UpDefinedBelow(m, x, l + 1, k);
    }
  }

  /** The first `k` ids of the chain from `x`. */
  ghost function Chain<T>(m: Links<T>, x: T, k: nat): (c: seq<T>)
    requires k > 0 ==> Up(m, x, k - 1).Some?
    ensures |c| == k && forall i | 0 <= i < k :: Up(m, x, i) == Some(c[i])
  {
    if k == 0 then []
    else
      assert k > 1 ==> Up(m, x, k - 2).Some? by { if k > 1 { UpDefinedBelow(m, x, k - 2, k - 1); } }
      Chain(m, x, k - 1) + [Up(m, x, k - 1).value]
  }

  lemma RootedChainDistinct<T>(m: Links<T>, x: T, k: nat, i: nat, j: nat)
    requires RootedAt(m, x, k) && i < j <= k
    ensures Up(m, x, i) != Up(m, x, j)
  {
    if Up(m, x, i) == Up(m, x, j) {
      UpCompose(m, x, i, k + 1 - j);
      UpCompose(m, x, j, k + 1 - j);
      UpDefinedBelow(m, x, i + (k + 1 - j), k);
    }
  }

  lemma RootedBound<T>(m: Links<T>, x: T, k: nat)
    requires RootedAt(m, x, k)
    ensures k <= |m|
  {
    if k > 0 {
      UpDefinedBelow(m, x, k - 1, k);
      var c := Chain(m, x, k);
      forall i, j | 0 <= i < j < k
        ensures c[i] != c[j]
      {
        RootedChainDistinct(m, x, k, i, j);
      }
      forall i | 0 <= i < k
        ensures c[i] in m.Keys
      {
        UpStep(m, x, i);
        UpDefinedBelow(m, x, i + 1, k);
      }
      DistinctBound(c, m.Keys);
    }
  }

  /** In an acyclic relation every chain ends. */
  lemma AcyclicIsRooted<T(!new)>(m: Links<T>, x: T) returns (k: nat)
    requires Acyclic(m)
    ensures RootedAt(m, x, k)
  {
    k := 0;
    while Up(m, x, k + 1).Some?
      invariant Up(m, x, k).Some? && k <= |m|
      decreases |m| - k
    {
      AcyclicChainBound(m, x, k + 1);
      k := k + 1;
    }
  }

  lemma AcyclicChainBound<T(!new)>(m: Links<T>, x: T, k: nat)
    requires Acyclic(m) && Up(m, x, k).Some?
    ensures k <= |m|
  {
    if k > 0 {
      UpDefinedBelow(m, x, k - 1, k);
      var c := Chain(m, x, k);
      forall i, j | 0 <= i < j < k
        ensures c[i] != c[j]
      {
        UpCompose(m, x, i, j - i);
      }
      forall i | 0 <= i < k
        ensures c[i] in m.Keys
      {
        UpStep(m, x, i);
        UpDefinedBelow(m, x, i + 1, k);
      }
      DistinctBound(c, m.Keys);
    }
  }

  // ----- Changing links -----

  /** Removing links removes paths. */
  lemma {:induction false} FewerLinks<T>(m: Links<T>, m': Links<T>, x: T, k: nat)
    requires forall y <- m' :: y in m && m[y] == m'[y]
    requires Up(m', x, k).Some?
    ensures Up(m, x, k) == Up(m', x, k)
    decreases k
  {
    if k > 0 {
      FewerLinks(m, m', m[x], k - 1);
    }
  }

  lemma FewerLinksAcyclic<T(!new)>(m: Links<T>, m': Links<T>)
    requires Acyclic(m) && forall y <- m' :: y in m && m[y] == m'[y]
    ensures Acyclic(m')
  {
    forall x, k: nat | k > 0
      ensures Up(m', x, k) != Some(x)
    {
      if Up(m', x, k).Some? {
        FewerLinks(m, m', x, k);
      }
    }
  }

  /** A chain either avoids `g`, and is then the same after relinking `g`, or reaches `g` in both. */
  lemma {:induction false} RelinkChain<T>(m: Links<T>, g: T, p: T, x: T, k: nat)
    ensures Up(m[g := p], x, k) == Up(m, x, k) || Reaches(m, x, g)
    decreases k
  {
    if x == g {
      assert Up(m, x, 0) == Some(g);
    } else if k > 0 && x in m {
      RelinkChain(m, g, p, m[x], k - 1);
      ReachesByStep(m, x, g);
    }
  }

  lemma ReachesByStep<T>(m: Links<T>, x: T, g: T)
    requires x in m
    ensures Reaches(m, m[x], g) ==> Reaches(m, x, g)
  {
    if Reaches(m, m[x], g) {
      var n: nat :| Up(m, m[x], n) == Some(g);
      assert Up(m, x, n + 1) == Some(g);
    }
  }

  lemma {:induction false} RelinkReaches<T>(m: Links<T>, g: T, p: T, x: T, n: nat)
    requires Up(m[g := p], x, n) == Some(g)
    ensures Reaches(m, x, g)
    decreases n
  {
    if x == g {
      assert Up(m, x, 0) == Some(g);
    } else {
      RelinkReaches(m, g, p, m[x], n - 1);
      ReachesByStep(m, x, g);
    }
  }

  /** Relinking `g` under `p` keeps the relation acyclic exactly when `p` does not reach `g`. */
  lemma RelinkAcyclicIff<T(!new)>(m: Links<T>, g: T, p: T)
    requires Acyclic(m)
    ensures Acyclic(m[g := p]) <==> !Reaches(m, p, g)
  {
    var m' := m[g := p];
    if Reaches(m, p, g) {
      RelinkClosesCycle(m, g, p);
    } else {
      forall x, k: nat | k > 0
        ensures Up(m', x, k) != Some(x)
      {
        if Up(m', x, k) == Some(x) {
          if Reaches(m, x, g) {
            RelinkNoReturn(m, g, p, x, k);
          } else {
            RelinkChain(m, g, p, x, k);
          }
        }
      }
    }
  }

  lemma RelinkClosesCycle<T(!new)>(m: Links<T>, g: T, p: T)
    requires Acyclic(m) && Reaches(m, p, g)
    ensures !Acyclic(m[g := p])
  {
    var m' := m[g := p];
    var n: nat :| Up(m, p, n) == Some(g);
    RelinkSameUntil(m, g, p, p, n);
    assert Up(m', g, n + 1) == Up(m', p, n);
  }

  /** The part of a chain before its first visit to `g` is untouched; an acyclic chain visits `g` once. */
  lemma {:induction false} RelinkSameUntil<T(!new)>(m: Links<T>, g: T, p: T, x: T, n: nat)
    requires Acyclic(m) && Up(m, x, n) == Some(g)
    ensures Up(m[g := p], x, n) == Some(g)
    decreases n
  {
    if n > 0 {
      assert x != g;
      RelinkSameUntil(m, g, p, m[x], n - 1);
    }
  }

  lemma RelinkNoReturn<T(!new)>(m: Links<T>, g: T, p: T, x: T, k: nat)
    requires Acyclic(m) && !Reaches(m, p, g) && Reaches(m, x, g) && k > 0
    ensures Up(m[g := p], x, k) != Some(x)
  {
    var m' := m[g := p];
    if Up(m', x, k) == Some(x) {
      var n: nat :| Up(m, x, n) == Some(g);
      RelinkSameUntil(m, g, p, x, n);
      // x reaches g and returns to x, so g returns to g in k steps.
      UpCompose(m', x, k, n);
      UpCompose(m', x, n, k);
      assert Up(m', g, k) == Some(g);
      assert Up(m', p, k - 1) == Some(g);
      RelinkReaches(m, g, p, p, k - 1);
    }
  }

  ghost predicate Ends<T>(m: Links<T>, x: T) {
    exists k: nat :: Up(m, x, k).None?
  }

  ghost predicate RepeatsAt<T>(m: Links<T>, x: T, j: nat, k: nat) {
    j < k && Up(m, x, j).Some? && Up(m, x, j) == Up(m, x, k)
  }

  lemma RepeatNeverEnds<T>(m: Links<T>, x: T, j: nat, l: nat, k: nat)
    requires RepeatsAt(m, x, j, l)
    ensures Up(m, x, k).Some?
  {
    RepeatIsPeriodic(m, x, j, l, k);
    var i: nat :| i < l && Up(m, x, i) == Up(m, x, k);
    UpDefinedBelow(m, x, i, l);
  }

  lemma EndlessRepeats<T>(m: Links<T>, x: T) returns (j: nat, k: nat)
    requires !Ends(m, x)
    ensures RepeatsAt(m, x, j, k)
  {
    var n := |m| + 1;
    var c := Chain(m, x, n);
    forall i | 0 <= i < n
      ensures c[i] in m.Keys
    {
      UpStep(m, x, i);
      assert Up(m, x, i + 1).Some?;
    }
    if Distinct(c) {
      DistinctBound(c, m.Keys);
    }
    j, k :| 0 <= j < k < n && c[j] == c[k];
    assert Up(m, x, j) == Up(m, x, k);
  }

  /** A chain either ends or repeats an element, and never both. */
  lemma EndsIffNoRepeat<T>(m: Links<T>, x: T)
    ensures Ends(m, x) <==> !exists j: nat, k: nat :: RepeatsAt(m, x, j, k)
  {
    if Ends(m, x) {
      var k: nat :| Up(m, x, k).None?;
      forall j: nat, l: nat
        ensures !RepeatsAt(m, x, j, l)
      {
        if RepeatsAt(m, x, j, l) {
          RepeatNeverEnds(m, x, j, l, k);
        }
      }
    } else {
      var j, k := EndlessRepeats(m, x);
    }
  }

  /** A chain that ends has a last element. */
  lemma {:induction false} EndOfChain<T>(m: Links<T>, x: T, n: nat) returns (k: nat)
    requires Up(m, x, n).None?
    ensures k < n && RootedAt(m, x, k)
    decreases n
  {
    if Up(m, x, n - 1).Some? {
      k := n - 1;
    } else {
      k := EndOfChain(m, x, n - 1);
    }
  }

  /** A chain that ends has ended when it has used more links than there are. */
  lemma EndsWithinSize<T>(m: Links<T>, x: T, n: nat, long: nat)
    requires Up(m, x, n).None? && long > |m|
    ensures Up(m, x, long).None?
  {
    var k := EndOfChain(m, x, n);
    RootedBound(m, x, k);
    if Up(m, x, long).Some? {
      UpDefinedBelow(m, x, k + 1, long);
    }
  }
}
