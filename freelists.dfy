/**
 * The intrusive free list seen as values. The first word of every block is a
 * link; `next[i]` is the link stored in block i: the index of the block that
 * follows it on the free list, or Null. A sequence of block indices is the
 * free list from `head` when it is exactly the chain of links that starts at
 * `head` and ends at Null.
 */
module FreeLists {

  /** The NULL link. */
  const Null: int := -1

  /** s is the chain that starts at head and follows next until Null. */
  ghost predicate IsChain(next: seq<int>, head: int, s: seq<nat>)
  {
    && (if s == [] then head == Null else head == s[0])
    && (forall k :: 0 <= k < |s| ==> s[k] < |next|)
    && forall k {:trigger next[s[k]]} :: 0 <= k < |s| ==>
         next[s[k]] == if k + 1 < |s| then s[k + 1] else Null
  }

  /** No block appears twice. */
  ghost predicate Distinct(s: seq<nat>)
  {
    forall a, b :: 0 <= a < b < |s| ==> s[a] != s[b]
  }

  /**
   * The links written by pool_init's loop: block i links to block i + 1, the
   * last block to Null. Read from block 0 they list every block once, in
   * address order.
   */
  function InitialLinks(n: nat): (next: seq<int>)
    ensures |next| == n
    ensures n > 0 ==> IsChain(next, 0, Blocks(n)) && Distinct(Blocks(n))
  {
    seq(n, i => if i + 1 < n then i + 1 else Null)
  }

  /** The blocks 0, 1, ..., n - 1 in order. */
  function Blocks(n: nat): (s: seq<nat>)
    ensures |s| == n && forall k :: 0 <= k < n ==> s[k] == k
  {
    seq(n, i requires 0 <= i => i)
  }

  lemma ChainTail(next: seq<int>, head: int, s: seq<nat>)
    requires IsChain(next, head, s) && s != []
    ensures IsChain(next, next[s[0]], s[1..])
  {
    assert next[s[0]] == if 1 < |s| then s[1] else Null;
    forall k | 0 <= k < |s| - 1
      ensures s[1..][k] < |next| && next[s[1..][k]] == (if k + 1 < |s| - 1 then s[1..][k + 1] else Null)
    {
      assert s[1..][k] == s[k + 1];
    }
  }

  /** The links determine the free list: two chains from the same head are equal. */
  lemma {:induction false} ChainUnique(next: seq<int>, head: int, s: seq<nat>, t: seq<nat>)
    requires IsChain(next, head, s) && IsChain(next, head, t)
    ensures s == t
    decreases |s|
  {
    if s != [] && t != [] {
      ChainTail(next, head, s);
      ChainTail(next, head, t);
      ChainUnique(next, next[s[0]], s[1..], t[1..]);
      assert s == [s[0]] + s[1..];
      assert t == [t[0]] + t[1..];
    }
  }

  function Elements(s: seq<nat>): set<nat>
  {
    set k | 0 <= k < |s| :: s[k]
  }

  lemma {:induction false} DistinctElements(s: seq<nat>)
    requires Distinct(s)
    ensures |Elements(s)| == |s|
    decreases |s|
  {
    if s != [] {
      DistinctElements(s[1..]);
      assert Elements(s) == {s[0]} + Elements(s[1..]);
      assert s[0] !in Elements(s[1..]);
    }
  }

  /** A list of distinct blocks, all below n, holds at most n blocks. */
  lemma DistinctBounded(s: seq<nat>, n: nat)
    requires Distinct(s) && forall k :: 0 <= k < |s| ==> s[k] < n
    ensures |s| <= n
  {
    DistinctElements(s);
    DistinctElements(Blocks(n));
    forall x | x in Elements(s) ensures x in Elements(Blocks(n)) {
      var k :| 0 <= k < |s| && s[k] == x;
      assert Blocks(n)[x] == x;
    }
    var small, all := Elements(s), Elements(Blocks(n));
    assert small <= all;
    assert all == small + (all - small);
    assert |all| == |small| + |all - small|;
  }
}
