/**
 * The descriptor-table allocator of the split virtqueue, on values.
 *
 * Every descriptor is either on the free list (threaded through `next`, headed
 * by free_head, counted by num_free) or in exactly one live chain (linked by
 * NEXT flags and `next`, owned by the token stored at the chain's head). The
 * ghost `Layout` names the free list and the chains; `Wf` ties it to the real
 * descriptor table, token array, free_head and num_free. The lemmas show that
 * enqueueing a chain and detaching a chain keep `Wf`, and what `Wf` implies.
 */
module SplitLayout {
  import opened VirtioTypes

  /**
   * freeList: the free descriptors in list order; chains[h]: the chain whose head
   * is h ([] when h is not a live head); owner[d]: the head of d's chain, or -1.
   */
  datatype Layout = Layout(freeList: seq<nat>, chains: seq<seq<nat>>, owner: seq<int>)

  ghost predicate Distinct(s: seq<nat>)
  {
    forall j, k :: 0 <= j < k < |s| ==> s[j] != s[k]
  }

  /** Where `steps` hops along `next` links from i lead, as the enqueue loop advances. */
  function Walk(descs: seq<Desc>, i: nat, steps: nat): (r: nat)
    ensures i < 0x1_0000 ==> r < 0x1_0000
    decreases steps
  {
    if steps == 0 || i >= |descs| then i else Walk(descs, descs[i].next, steps - 1)
  }

  /** The chain detach_buf walks from i: entries linked by NEXT flags, at most `fuel` of them. */
  function Follow(descs: seq<Desc>, i: nat, fuel: nat): (r: seq<nat>)
    ensures |r| <= fuel
    ensures 0 < fuel && i < |descs| ==> r != [] && r[0] == i
    ensures forall k :: 0 <= k < |r| ==> r[k] < |descs|
    decreases fuel
  {
    if fuel == 0 || i >= |descs| then []
    else if HasNext(descs[i].flags) then [i] + Follow(descs, descs[i].next, fuel - 1)
    else [i]
  }

  /** The table after detach_buf has returned the chain headed by `head`: its tail now links to `freeHead`. */
  function Reclaimed(descs: seq<Desc>, head: nat, freeHead: u16): seq<Desc>
    requires head < |descs|
  {
    var chain := Follow(descs, head, |descs|);
    var tail := chain[|chain| - 1];
    descs[tail := descs[tail].(next := freeHead)]
  }

  /** Each entry of `fl` is followed by the next entry through its `next` field. */
  ghost predicate Linked(descs: seq<Desc>, fl: seq<nat>)
  {
    (forall k :: 0 <= k < |fl| ==> fl[k] < |descs|)
    && (forall k :: 0 <= k < |fl| - 1 ==> descs[fl[k]].next == fl[k + 1])
  }

  ghost predicate FreeListOk(num: nat, descs: seq<Desc>, freeHead: u16, numFree: nat, L: Layout)
    requires |descs| == num && |L.owner| == num
  {
    var fl := L.freeList;
    |fl| == numFree
    && (forall k :: 0 <= k < |fl| ==> fl[k] < num && L.owner[fl[k]] == -1)
    && Distinct(fl)
    && (0 < numFree ==> freeHead == fl[0])
    && Linked(descs, fl)
  }

  ghost predicate ChainOk<T>(num: nat, descs: seq<Desc>, tokens: seq<Option<T>>, L: Layout, h: nat)
    requires |descs| == num && |tokens| == num && |L.chains| == num && |L.owner| == num && h < num
  {
    var c := L.chains[h];
    (tokens[h].Some? <==> c != [])
    && (c != [] ==> c[0] == h)
    && (forall k :: 0 <= k < |c| ==> c[k] < num && L.owner[c[k]] == h)
    && Distinct(c)
    && (forall k :: 0 <= k < |c| - 1 ==> HasNext(descs[c[k]].flags) && descs[c[k]].next == c[k + 1])
    && (c != [] ==> !HasNext(descs[c[|c| - 1]].flags))
  }

  ghost predicate OwnerOk(num: nat, L: Layout)
    requires |L.chains| == num && |L.owner| == num
  {
    forall d :: 0 <= d < num ==>
      -1 <= L.owner[d] < num
      && (L.owner[d] == -1 ==> d in L.freeList)
      && (0 <= L.owner[d] ==> d in L.chains[L.owner[d]])
  }

  /** The allocator invariant of a queue of `num` descriptors. */
  ghost predicate Wf<T>(num: nat, descs: seq<Desc>, tokens: seq<Option<T>>, freeHead: u16, numFree: nat, L: Layout)
  {
    0 < num <= 0x8000
    && |descs| == num && |tokens| == num && |L.chains| == num && |L.owner| == num
    && FreeListOk(num, descs, freeHead, numFree, L)
    && (forall h :: 0 <= h < num ==> ChainOk(num, descs, tokens, L, h))
    && OwnerOk(num, L)
  }

  /** The descriptors that belong to some live chain. */
  ghost function LiveDescs(chains: seq<seq<nat>>): set<nat>
  {
    set h, k | 0 <= h < |chains| && 0 <= k < |chains[h]| :: chains[h][k]
  }

  /** The layout after the first n free descriptors become the chain headed by the old free head. */
  ghost function AddLayout(L: Layout, n: nat): Layout
    requires 0 < n <= |L.freeList| && L.freeList[0] < |L.chains|
  {
    var head := L.freeList[0];
    var taken := L.freeList[..n];
    Layout(L.freeList[n..], L.chains[head := taken],
           seq(|L.owner|, d requires 0 <= d < |L.owner| => if d in taken then head else L.owner[d]))
  }

  /** The layout after the chain headed by h is pushed, in order, onto the front of the free list. */
  ghost function DetachLayout(L: Layout, h: nat): Layout
    requires h < |L.chains|
  {
    Layout(L.chains[h] + L.freeList, L.chains[h := []],
           seq(|L.owner|, d requires 0 <= d < |L.owner| => if L.owner[d] == h then -1 else L.owner[d]))
  }

  /** The last descriptor of a live chain. */
  ghost function Tail(L: Layout, h: nat): nat
    requires h < |L.chains| && L.chains[h] != []
  {
    L.chains[h][|L.chains[h]| - 1]
  }

  // ---------------------------------------------------------------------------
  // Counting helpers

  /** The descriptor indices 0, 1, ..., n - 1. */
  function Iota(n: nat): (r: seq<nat>)
    ensures |r| == n && forall k :: 0 <= k < n ==> r[k] == k
  {
    seq(n, i => i)
  }

  /** The set of entries of a sequence. */
  ghost function Elems(s: seq<nat>): set<nat>
  {
    set x | x in s
  }

  lemma {:induction false} DistinctCard(s: seq<nat>)
    requires Distinct(s)
    ensures |Elems(s)| == |s|
  {
    if s != [] {
      var t := s[1..];
      assert Distinct(t) by {
        forall j, k | 0 <= j < k < |t| ensures t[j] != t[k] {
          assert t[j] == s[j + 1] && t[k] == s[k + 1];
        }
      }
      DistinctCard(t);
      forall k | 0 <= k < |t| ensures t[k] != s[0] {
        assert t[k] == s[k + 1];
      }
      assert s == [s[0]] + t;
      assert Elems(s) == Elems(t) + {s[0]};
    }
  }

  /** A duplicate-free sequence of indices below num has at most num entries. */
  lemma DistinctBelow(s: seq<nat>, num: nat)
    requires Distinct(s)
    requires forall k :: 0 <= k < |s| ==> s[k] < num
    ensures |s| <= num
  {
    var all := Iota(num);
    DistinctCard(s);
    DistinctCard(all);
    var e := Elems(s);
    var r := Elems(all);
    forall x | x in e ensures x in r {
      var k :| 0 <= k < |s| && s[k] == x;
      assert all[x] == x;
    }
    assert r == (r - e) + e;
    assert (r - e) * e == {};
  }

  /** Queue setup: the whole table free, linked 0 -> 1 -> ... -> num - 1, no tokens. */
  lemma InitWf<T>(num: nat, descs: seq<Desc>, tokens: seq<Option<T>>)
    requires 0 < num <= 0x8000 && |descs| == num && |tokens| == num
    requires forall d :: 0 <= d < num - 1 ==> descs[d].next == d + 1
    requires forall d :: 0 <= d < num ==> tokens[d].None?
    ensures Wf(num, descs, tokens, 0, num, Layout(Iota(num), seq(num, _ => []), seq(num, _ => -1)))
  {
    var L := Layout(Iota(num), seq(num, _ => []), seq(num, _ => -1));
    assert OwnerOk(num, L) by {
      forall d | 0 <= d < num ensures d in L.freeList {
        assert L.freeList[d] == d;
      }
    }
  }

  // ---------------------------------------------------------------------------
  // Reachability: the ghost free list and chains are what the code's walks visit

  /** One more hop extends a walk by the `next` link of where it stood. */
  lemma {:induction false} WalkStep(descs: seq<Desc>, i: nat, k: nat)
    requires Walk(descs, i, k) < |descs|
    ensures Walk(descs, i, k + 1) == descs[Walk(descs, i, k)].next
    decreases k
  {
    if k > 0 && i < |descs| {
      WalkStep(descs, descs[i].next, k - 1);
    }
  }

  /** Walking k steps from the front of a linked list reaches its k-th entry, and n steps lead past the (n-1)-th. */
  lemma {:induction false} WalkAlongList(descs: seq<Desc>, fl: seq<nat>, n: nat)
    requires Linked(descs, fl) && 0 < n <= |fl|
    ensures Walk(descs, fl[0], n) == descs[fl[n - 1]].next
    ensures n < |fl| ==> Walk(descs, fl[0], n) == fl[n]
  {
    if n > 1 {
      assert descs[fl[0]].next == fl[1];
      assert Linked(descs, fl[1..]) by {
        forall k | 0 <= k < |fl[1..]| - 1 ensures descs[fl[1..][k]].next == fl[1..][k + 1] {
          assert fl[1..][k] == fl[k + 1];
        }
      }
      WalkAlongList(descs, fl[1..], n - 1);
    }
  }

  /** free_head followed k times along `next` is the k-th free descriptor. */
  lemma FreeListIsWalk<T>(num: nat, descs: seq<Desc>, tokens: seq<Option<T>>, freeHead: u16, numFree: nat, L: Layout, k: nat)
    requires Wf(num, descs, tokens, freeHead, numFree, L)
    requires k < numFree
    ensures Walk(descs, freeHead, k) == L.freeList[k]
  {
    if k > 0 {
      WalkAlongList(descs, L.freeList, k);
    }
  }

  /** Following NEXT flags from the k-th entry of a live chain visits exactly the rest of the chain. */
  lemma {:induction false} FollowSuffix<T>(num: nat, descs: seq<Desc>, tokens: seq<Option<T>>, L: Layout, h: nat, k: nat, fuel: nat)
    requires |descs| == num && |tokens| == num && |L.chains| == num && |L.owner| == num && h < num
    requires ChainOk(num, descs, tokens, L, h)
    requires k < |L.chains[h]| && |L.chains[h]| - k <= fuel
    ensures Follow(descs, L.chains[h][k], fuel) == L.chains[h][k..]
    decreases |L.chains[h]| - k
  {
    var c := L.chains[h];
    if k + 1 < |c| {
      FollowSuffix(num, descs, tokens, L, h, k + 1, fuel - 1);
      assert c[k..] == [c[k]] + c[k + 1..];
    } else {
      assert c[k..] == [c[k]];
    }
  }

  /** The chain detach_buf walks from a live head is exactly that head's chain. */
  lemma ChainIsFollow<T>(num: nat, descs: seq<Desc>, tokens: seq<Option<T>>, freeHead: u16, numFree: nat, L: Layout, h: nat)
    requires Wf(num, descs, tokens, freeHead, numFree, L)
    requires h < num && tokens[h].Some?
    ensures Follow(descs, h, num) == L.chains[h]
    ensures 1 <= |L.chains[h]| <= num
  {
    assert ChainOk(num, descs, tokens, L, h);
    DistinctBelow(L.chains[h], num);
    FollowSuffix(num, descs, tokens, L, h, 0, num);
  }

  // ---------------------------------------------------------------------------
  // What the invariant says

  /** A descriptor is free exactly when it is on no live chain. */
  lemma FreeIffNotLive<T>(num: nat, descs: seq<Desc>, tokens: seq<Option<T>>, freeHead: u16, numFree: nat, L: Layout, d: nat)
    requires Wf(num, descs, tokens, freeHead, numFree, L)
    requires d < num
    ensures d in L.freeList <==> d !in LiveDescs(L.chains)
  {
    if d in L.freeList {
      var j :| 0 <= j < |L.freeList| && L.freeList[j] == d;
      assert L.owner[d] == -1;
      forall h, k | 0 <= h < num && 0 <= k < |L.chains[h]| ensures L.chains[h][k] != d {
        assert ChainOk(num, descs, tokens, L, h);
      }
    } else {
      var h := L.owner[d];
      var k :| 0 <= k < |L.chains[h]| && L.chains[h][k] == d;
    }
  }

  /** Tokens sit only at chain heads: the head of a live chain holds one, no other entry does. */
  lemma TokenOnlyAtHead<T>(num: nat, descs: seq<Desc>, tokens: seq<Option<T>>, freeHead: u16, numFree: nat, L: Layout, h: nat, k: nat)
    requires Wf(num, descs, tokens, freeHead, numFree, L)
    requires h < num && k < |L.chains[h]|
    ensures L.chains[h][k] < num
    ensures tokens[L.chains[h][k]].Some? <==> k == 0
  {
    assert ChainOk(num, descs, tokens, L, h);
    var x := L.chains[h][k];
    assert ChainOk(num, descs, tokens, L, x);
    if tokens[x].Some? {
      assert L.owner[x] == x && L.owner[x] == h;
      assert L.chains[h][0] == x;
    }
  }

  /** A free descriptor holds no token and heads no chain. */
  lemma FreeHasNoToken<T>(num: nat, descs: seq<Desc>, tokens: seq<Option<T>>, freeHead: u16, numFree: nat, L: Layout, k: nat)
    requires Wf(num, descs, tokens, freeHead, numFree, L)
    requires k < numFree
    ensures L.freeList[k] < num && tokens[L.freeList[k]].None?
    ensures L.chains[L.freeList[k]] == []
  {
    assert ChainOk(num, descs, tokens, L, L.freeList[k]);
  }

  /** The free list holds exactly the descriptors that no chain owns. */
  lemma FreeSetIsUnowned<T>(num: nat, descs: seq<Desc>, tokens: seq<Option<T>>, freeHead: u16, numFree: nat, L: Layout)
    requires Wf(num, descs, tokens, freeHead, numFree, L)
    ensures Elems(L.freeList) == set x | 0 <= x < num && L.owner[x] == -1
  {
    var fl := L.freeList;
    forall x | x in Elems(fl) ensures 0 <= x < num && L.owner[x] == -1 {
      var k :| 0 <= k < |fl| && fl[k] == x;
    }
  }

  /** The chains together hold exactly the descriptors some chain owns. */
  lemma LiveSetIsOwned<T>(num: nat, descs: seq<Desc>, tokens: seq<Option<T>>, freeHead: u16, numFree: nat, L: Layout)
    requires Wf(num, descs, tokens, freeHead, numFree, L)
    ensures LiveDescs(L.chains) == set x | 0 <= x < num && 0 <= L.owner[x]
  {
    forall x | x in LiveDescs(L.chains) ensures 0 <= x < num && 0 <= L.owner[x] {
      var h, k :| 0 <= h < |L.chains| && 0 <= k < |L.chains[h]| && L.chains[h][k] == x;
      assert ChainOk(num, descs, tokens, L, h);
    }
    forall x | 0 <= x < num && 0 <= L.owner[x] ensures x in LiveDescs(L.chains) {
      var h := L.owner[x];
      var k :| 0 <= k < |L.chains[h]| && L.chains[h][k] == x;
    }
  }

  /** The descriptor indices 0 .. num - 1 number exactly num, and are exactly the indices below num. */
  lemma IndexSetCard(num: nat)
    ensures |Elems(Iota(num))| == num
    ensures forall x :: x in Elems(Iota(num)) <==> 0 <= x < num
  {
    var all := Iota(num);
    assert Distinct(all);
    DistinctCard(all);
    forall x | 0 <= x < num ensures x in Elems(all) {
      assert all[x] == x;
    }
  }

  /** num_free plus the number of descriptors on live chains is the table size. */
  lemma Conservation<T>(num: nat, descs: seq<Desc>, tokens: seq<Option<T>>, freeHead: u16, numFree: nat, L: Layout)
    requires Wf(num, descs, tokens, freeHead, numFree, L)
    ensures numFree + |LiveDescs(L.chains)| == num
  {
    var free := set x | 0 <= x < num && L.owner[x] == -1;
    var live := set x | 0 <= x < num && 0 <= L.owner[x];
    FreeSetIsUnowned(num, descs, tokens, freeHead, numFree, L);
    LiveSetIsOwned(num, descs, tokens, freeHead, numFree, L);
    DistinctCard(L.freeList);
    IndexSetCard(num);
    assert free + live == Elems(Iota(num));
    assert free * live == {};
  }

  // ---------------------------------------------------------------------------
  // Enqueue: the first n free descriptors become a chain

  /** Among the entries of a duplicate-free list, exactly the first n are in its n-prefix. */
  lemma TakenIff(fl: seq<nat>, n: nat, k: nat)
    requires Distinct(fl) && n <= |fl| && k < |fl|
    ensures fl[k] in fl[..n] <==> k < n
  {
    if k < n {
      assert fl[..n][k] == fl[k];
    } else {
      forall j | 0 <= j < n ensures fl[..n][j] != fl[k] {
        assert fl[..n][j] == fl[j];
      }
    }
  }

  lemma AddKeepsFreeList(num: nat, descs: seq<Desc>, freeHead: u16, numFree: nat, L: Layout,
                         n: nat, descs': seq<Desc>, freeHead': u16)
    requires |descs| == num && |descs'| == num && |L.owner| == num && |L.chains| == num
    requires FreeListOk(num, descs, freeHead, numFree, L)
    requires 0 < n <= numFree
    requires forall d :: 0 <= d < num && d !in L.freeList[..n] ==> descs'[d] == descs[d]
    requires n < numFree ==> freeHead' == L.freeList[n]
    ensures FreeListOk(num, descs', freeHead', numFree - n, AddLayout(L, n))
  {
    var fl := L.freeList;
    var L' := AddLayout(L, n);
    var fl' := L'.freeList;
    forall k | 0 <= k < |fl'| ensures fl'[k] == fl[n + k] && fl[n + k] !in fl[..n] && L'.owner[fl'[k]] == -1 {
      TakenIff(fl, n, n + k);
    }
    assert Distinct(fl') by {
      forall j, k | 0 <= j < k < |fl'| ensures fl'[j] != fl'[k] {
        assert fl'[j] == fl[n + j] && fl'[k] == fl[n + k];
      }
    }
    assert Linked(descs', fl') by {
      forall k | 0 <= k < |fl'| - 1 ensures descs'[fl'[k]].next == fl'[k + 1] {
        assert fl'[k + 1] == fl[n + k + 1];
      }
    }
  }

  lemma AddKeepsOwner(num: nat, L: Layout, n: nat)
    requires |L.chains| == num && |L.owner| == num && OwnerOk(num, L)
    requires 0 < n <= |L.freeList| && Distinct(L.freeList)
    requires forall k :: 0 <= k < |L.freeList| ==> L.freeList[k] < num && L.owner[L.freeList[k]] == -1
    requires L.chains[L.freeList[0]] == []
    ensures OwnerOk(num, AddLayout(L, n))
  {
    var fl := L.freeList;
    var head := fl[0];
    var taken := fl[..n];
    var L' := AddLayout(L, n);
    forall d | 0 <= d < num
      ensures -1 <= L'.owner[d] < num
      ensures L'.owner[d] == -1 ==> d in L'.freeList
      ensures 0 <= L'.owner[d] ==> d in L'.chains[L'.owner[d]]
    {
      if d in taken {
        assert L'.owner[d] == head;
      } else {
        assert L'.owner[d] == L.owner[d];
        if L.owner[d] == -1 {
          var k :| 0 <= k < |fl| && fl[k] == d;
          TakenIff(fl, n, k);
          assert L'.freeList[k - n] == d;
        } else {
          assert L.owner[d] != head;
        }
      }
    }
  }

  /** The new chain: the taken descriptors, linked by their unchanged `next`, NEXT on all but the last. */
  lemma AddNewChainOk<T>(num: nat, descs: seq<Desc>, tokens: seq<Option<T>>, freeHead: u16, numFree: nat, L: Layout,
                         n: nat, descs': seq<Desc>, token: T)
    requires Wf(num, descs, tokens, freeHead, numFree, L)
    requires 0 < n <= numFree
    requires |descs'| == num
    requires forall k :: 0 <= k < n ==> descs'[L.freeList[k]].next == descs[L.freeList[k]].next
    requires forall k :: 0 <= k < n ==> (HasNext(descs'[L.freeList[k]].flags) <==> k + 1 < n)
    ensures L.freeList[0] < num
    ensures ChainOk(num, descs', tokens[L.freeList[0] := Some(token)], AddLayout(L, n), L.freeList[0])
  {
    var fl := L.freeList;
    var head := fl[0];
    var L' := AddLayout(L, n);
    var c := L'.chains[head];
    assert c == fl[..n];
    forall k | 0 <= k < |c| ensures c[k] == fl[k] && c[k] < num && L'.owner[c[k]] == head {
      TakenIff(fl, n, k);
    }
    forall k | 0 <= k < |c| - 1 ensures HasNext(descs'[c[k]].flags) && descs'[c[k]].next == c[k + 1] {
      assert c[k + 1] == fl[k + 1];
    }
    assert c[|c| - 1] == fl[n - 1];
  }

  /** Every other chain is untouched: its descriptors were not free. */
  lemma AddOtherChainOk<T>(num: nat, descs: seq<Desc>, tokens: seq<Option<T>>, L: Layout,
                           n: nat, descs': seq<Desc>, token: T, h: nat)
    requires |descs| == num && |tokens| == num && |L.chains| == num && |L.owner| == num
    requires 0 < n <= |L.freeList|
    requires forall k :: 0 <= k < |L.freeList| ==> L.freeList[k] < num && L.owner[L.freeList[k]] == -1
    requires h < num && h != L.freeList[0] && ChainOk(num, descs, tokens, L, h)
    requires |descs'| == num
    requires forall d :: 0 <= d < num && d !in L.freeList[..n] ==> descs'[d] == descs[d]
    ensures ChainOk(num, descs', tokens[L.freeList[0] := Some(token)], AddLayout(L, n), h)
  {
    var fl := L.freeList;
    var L' := AddLayout(L, n);
    var c := L.chains[h];
    assert L'.chains[h] == c;
    forall k | 0 <= k < |c| ensures c[k] !in fl[..n] && descs'[c[k]] == descs[c[k]] && L'.owner[c[k]] == h {
      forall j | 0 <= j < n ensures fl[..n][j] != c[k] {
        assert fl[..n][j] == fl[j];
      }
    }
  }

  /**
   * Taking the first n free descriptors as a new chain (both enqueue paths):
   * their `next` links stay, NEXT is set on all but the last, the rest of the
   * table is untouched, and the new free head is the n-th free descriptor.
   */
  lemma AddPreservesWf<T>(num: nat, descs: seq<Desc>, tokens: seq<Option<T>>, freeHead: u16, numFree: nat, L: Layout,
                          n: nat, descs': seq<Desc>, token: T, freeHead': u16)
    requires Wf(num, descs, tokens, freeHead, numFree, L)
    requires 0 < n <= numFree
    requires |descs'| == num
    requires forall k :: 0 <= k < n ==> descs'[L.freeList[k]].next == descs[L.freeList[k]].next
    requires forall k :: 0 <= k < n ==> (HasNext(descs'[L.freeList[k]].flags) <==> k + 1 < n)
    requires forall d :: 0 <= d < num && d !in L.freeList[..n] ==> descs'[d] == descs[d]
    requires n < numFree ==> freeHead' == L.freeList[n]
    ensures L.freeList[0] < num
    ensures Wf(num, descs', tokens[L.freeList[0] := Some(token)], freeHead', numFree - n, AddLayout(L, n))
  {
    var head := L.freeList[0];
    var tokens' := tokens[head := Some(token)];
    var L' := AddLayout(L, n);
    FreeHasNoToken(num, descs, tokens, freeHead, numFree, L, 0);
    AddKeepsFreeList(num, descs, freeHead, numFree, L, n, descs', freeHead');
    AddKeepsOwner(num, L, n);
    forall h | 0 <= h < num ensures ChainOk(num, descs', tokens', L', h) {
      if h == head {
        AddNewChainOk(num, descs, tokens, freeHead, numFree, L, n, descs', token);
      } else {
        AddOtherChainOk(num, descs, tokens, L, n, descs', token, h);
      }
    }
  }

  // ---------------------------------------------------------------------------
  // What the enqueue loops write into the table

  /**
   * The table after the enqueue loops have filled the first k of the descriptors
   * fl: the j-th gets segment j's address and length and LoopFlags(j, outCount);
   * its `next` field is left alone.
   */
  function Fill(descs: seq<Desc>, fl: seq<nat>, sg: seq<Segment>, outCount: nat, k: nat): (r: seq<Desc>)
    requires k <= |fl| && k <= |sg|
    requires forall j :: 0 <= j < |fl| ==> fl[j] < |descs|
    ensures |r| == |descs|
    decreases k
  {
    if k == 0 then descs
    else
      var p := Fill(descs, fl, sg, outCount, k - 1);
      var d := fl[k - 1];
      p[d := p[d].(addr := sg[k - 1].physAddr, len := sg[k - 1].len, flags := LoopFlags(k - 1, outCount))]
  }

  /** Filling never changes a `next` link. */
  lemma {:induction false} FillKeepsNext(descs: seq<Desc>, fl: seq<nat>, sg: seq<Segment>, outCount: nat, k: nat, d: nat)
    requires k <= |fl| && k <= |sg|
    requires forall j :: 0 <= j < |fl| ==> fl[j] < |descs|
    requires d < |descs|
    ensures Fill(descs, fl, sg, outCount, k)[d].next == descs[d].next
    decreases k
  {
    if k > 0 {
      FillKeepsNext(descs, fl, sg, outCount, k - 1, d);
    }
  }

  /** A descriptor outside the filled prefix is untouched. */
  lemma {:induction false} FillUntouched(descs: seq<Desc>, fl: seq<nat>, sg: seq<Segment>, outCount: nat, k: nat, d: nat)
    requires k <= |fl| && k <= |sg|
    requires forall j :: 0 <= j < |fl| ==> fl[j] < |descs|
    requires d < |descs| && d !in fl[..k]
    ensures Fill(descs, fl, sg, outCount, k)[d] == descs[d]
    decreases k
  {
    if k > 0 {
      assert fl[..k] == fl[..k - 1] + [fl[k - 1]];
      FillUntouched(descs, fl, sg, outCount, k - 1, d);
    }
  }

  /** With no descriptor taken twice, the j-th filled descriptor holds segment j. */
  lemma {:induction false} FillWritten(descs: seq<Desc>, fl: seq<nat>, sg: seq<Segment>, outCount: nat, k: nat, j: nat)
    requires k <= |fl| && k <= |sg|
    requires forall i :: 0 <= i < |fl| ==> fl[i] < |descs|
    requires Distinct(fl) && j < k
    ensures Fill(descs, fl, sg, outCount, k)[fl[j]] == descs[fl[j]].(addr := sg[j].physAddr, len := sg[j].len, flags := LoopFlags(j, outCount))
    decreases k
  {
    if j < k - 1 {
      FillWritten(descs, fl, sg, outCount, k - 1, j);
    } else {
      FillKeepsNext(descs, fl, sg, outCount, k - 1, fl[j]);
    }
  }

  /** The table once vring_add_buf has filled n descriptors and cleared NEXT on the last. */
  function Enqueued(descs: seq<Desc>, fl: seq<nat>, sg: seq<Segment>, outCount: nat, n: nat): (r: seq<Desc>)
    requires 0 < n <= |fl| && n <= |sg|
    requires forall j :: 0 <= j < |fl| ==> fl[j] < |descs|
    ensures |r| == |descs|
  {
    var p := Fill(descs, fl, sg, outCount, n);
    var last := fl[n - 1];
    p[last := p[last].(flags := WithoutNext(p[last].flags))]
  }

  /**
   * The chain vring_add_buf writes: the k-th taken descriptor holds segment k,
   * flagged as ChainFlags says, with its free-list `next`; nothing else changes.
   */
  lemma EnqueuedAt(descs: seq<Desc>, fl: seq<nat>, sg: seq<Segment>, outCount: nat, n: nat)
    requires 0 < n <= |fl| && n <= |sg|
    requires forall j :: 0 <= j < |fl| ==> fl[j] < |descs|
    requires Distinct(fl)
    ensures forall k :: 0 <= k < n ==>
              Enqueued(descs, fl, sg, outCount, n)[fl[k]] == Desc(sg[k].physAddr, sg[k].len, ChainFlags(k, outCount, n), descs[fl[k]].next)
    ensures forall d :: 0 <= d < |descs| && d !in fl[..n] ==> Enqueued(descs, fl, sg, outCount, n)[d] == descs[d]
  {
    var r := Enqueued(descs, fl, sg, outCount, n);
    forall k | 0 <= k < n
      ensures r[fl[k]] == Desc(sg[k].physAddr, sg[k].len, ChainFlags(k, outCount, n), descs[fl[k]].next)
    {
      FillWritten(descs, fl, sg, outCount, n, k);
    }
    forall d | 0 <= d < |descs| && d !in fl[..n] ensures r[d] == descs[d] {
      FillUntouched(descs, fl, sg, outCount, n, d);
    }
  }

  /**
   * vring_add_buf as a whole keeps the allocator invariant: the table it writes
   * (Enqueued), the token at the old free head, the n-th free descriptor as the
   * new free head and n fewer free descriptors describe the layout in which the
   * first n free descriptors form the new chain.
   */
  lemma EnqueuePreservesWf<T>(num: nat, descs: seq<Desc>, tokens: seq<Option<T>>, freeHead: u16, numFree: nat, L: Layout,
                              sg: seq<Segment>, outCount: nat, n: nat, token: T, freeHead': u16)
    requires Wf(num, descs, tokens, freeHead, numFree, L)
    requires 0 < n <= numFree && n <= |sg|
    requires n < numFree ==> freeHead' == L.freeList[n]
    ensures L.freeList[0] == freeHead && freeHead < num
    ensures Wf(num, Enqueued(descs, L.freeList, sg, outCount, n), tokens[freeHead := Some(token)],
               freeHead', numFree - n, AddLayout(L, n))
  {
    EnqueuedAt(descs, L.freeList, sg, outCount, n);
    AddPreservesWf(num, descs, tokens, freeHead, numFree, L, n, Enqueued(descs, L.freeList, sg, outCount, n), token, freeHead');
  }

  /**
   * vring_add_buf_indirect keeps the allocator invariant: the first free
   * descriptor alone becomes the chain, rewritten to point at the indirect
   * table with INDIRECT and no NEXT, and its `next` becomes the free head.
   */
  lemma IndirectPreservesWf<T>(num: nat, descs: seq<Desc>, tokens: seq<Option<T>>, freeHead: u16, numFree: nat, L: Layout,
                               pa: u64, len: u32, token: T)
    requires Wf(num, descs, tokens, freeHead, numFree, L)
    requires 0 < numFree
    ensures L.freeList[0] == freeHead && freeHead < num
    ensures Wf(num, descs[freeHead := Desc(pa, len, DescIndirect, descs[freeHead].next)], tokens[freeHead := Some(token)],
               descs[freeHead].next, numFree - 1, AddLayout(L, 1))
  {
    var descs' := descs[freeHead := Desc(pa, len, DescIndirect, descs[freeHead].next)];
    assert !HasNext(DescIndirect);
    forall d | 0 <= d < num && d !in L.freeList[..1] ensures descs'[d] == descs[d] {
      assert L.freeList[..1] == [freeHead];
    }
    AddPreservesWf(num, descs, tokens, freeHead, numFree, L, 1, descs', token, descs[freeHead].next);
  }

  /** A chain whose head has no NEXT flag, such as an INDIRECT head, is that one descriptor. */
  lemma SingleDescriptorChain<T>(num: nat, descs: seq<Desc>, tokens: seq<Option<T>>, freeHead: u16, numFree: nat, L: Layout, h: nat)
    requires Wf(num, descs, tokens, freeHead, numFree, L)
    requires h < num && tokens[h].Some? && !HasNext(descs[h].flags)
    ensures L.chains[h] == [h]
  {
    ChainIsFollow(num, descs, tokens, freeHead, numFree, L, h);
  }

  // ---------------------------------------------------------------------------
  // Detach: a live chain goes back to the front of the free list

  lemma DetachKeepsFreeList<T>(num: nat, descs: seq<Desc>, tokens: seq<Option<T>>, freeHead: u16, numFree: nat, L: Layout, h: nat)
    requires |descs| == num && |tokens| == num && |L.chains| == num && |L.owner| == num && h < num < 0x1_0000
    requires FreeListOk(num, descs, freeHead, numFree, L)
    requires ChainOk(num, descs, tokens, L, h) && tokens[h].Some?
    ensures FreeListOk(num, descs[Tail(L, h) := descs[Tail(L, h)].(next := freeHead)], h,
                       numFree + |L.chains[h]|, DetachLayout(L, h))
  {
    var c := L.chains[h];
    var fl := L.freeList;
    var tail := Tail(L, h);
    var descs' := descs[tail := descs[tail].(next := freeHead)];
    var L' := DetachLayout(L, h);
    var fl' := L'.freeList;
    assert fl' == c + fl;
    forall k | 0 <= k < |fl'| ensures fl'[k] < num && L'.owner[fl'[k]] == -1 {
      if k < |c| { assert fl'[k] == c[k]; } else { assert fl'[k] == fl[k - |c|]; }
    }
    assert Distinct(fl') by {
      forall j, k | 0 <= j < k < |fl'| ensures fl'[j] != fl'[k] {
        if k < |c| {
          assert fl'[j] == c[j] && fl'[k] == c[k];
        } else if j >= |c| {
          assert fl'[j] == fl[j - |c|] && fl'[k] == fl[k - |c|];
        } else {
          assert fl'[j] == c[j] && fl'[k] == fl[k - |c|];
          assert L.owner[c[j]] == h && L.owner[fl[k - |c|]] == -1;
        }
      }
    }
    assert Linked(descs', fl') by {
      forall k | 0 <= k < |fl'| - 1 ensures descs'[fl'[k]].next == fl'[k + 1] {
        if k < |c| - 1 {
          assert fl'[k] == c[k] && fl'[k + 1] == c[k + 1];
          assert c[k] != tail;
        } else if k == |c| - 1 {
          assert fl'[k] == tail && fl'[k + 1] == fl[0];
        } else {
          assert fl'[k] == fl[k - |c|] && fl'[k + 1] == fl[k - |c| + 1];
          assert L.owner[fl[k - |c|]] == -1 && L.owner[tail] == h;
        }
      }
    }
  }

  lemma DetachKeepsOwner<T>(num: nat, descs: seq<Desc>, tokens: seq<Option<T>>, L: Layout, h: nat)
    requires |descs| == num && |tokens| == num && |L.chains| == num && |L.owner| == num && h < num
    requires OwnerOk(num, L)
    requires ChainOk(num, descs, tokens, L, h)
    ensures OwnerOk(num, DetachLayout(L, h))
  {
    var L' := DetachLayout(L, h);
    forall d | 0 <= d < num
      ensures -1 <= L'.owner[d] < num
      ensures L'.owner[d] == -1 ==> d in L'.freeList
      ensures 0 <= L'.owner[d] ==> d in L'.chains[L'.owner[d]]
    {
      if L.owner[d] == h {
        assert d in L.chains[h];
      } else if L.owner[d] == -1 {
        assert d in L.freeList;
      }
    }
  }

  lemma DetachOtherChainOk<T>(num: nat, descs: seq<Desc>, tokens: seq<Option<T>>, freeHead: u16, L: Layout, h: nat, g: nat)
    requires |descs| == num && |tokens| == num && |L.chains| == num && |L.owner| == num
    requires h < num && L.chains[h] != [] && Tail(L, h) < num && L.owner[Tail(L, h)] == h
    requires g < num && g != h && ChainOk(num, descs, tokens, L, g)
    ensures ChainOk(num, descs[Tail(L, h) := descs[Tail(L, h)].(next := freeHead)], tokens[h := None], DetachLayout(L, h), g)
  {
    var tail := Tail(L, h);
    var descs' := descs[tail := descs[tail].(next := freeHead)];
    var L' := DetachLayout(L, h);
    var cg := L.chains[g];
    forall k | 0 <= k < |cg| ensures descs'[cg[k]] == descs[cg[k]] && L'.owner[cg[k]] == g {
      assert L.owner[cg[k]] == g;
    }
  }

  /** Pushing a live chain onto the free list (detach_buf): its tail is linked to the old free head. */
  lemma DetachPreservesWf<T>(num: nat, descs: seq<Desc>, tokens: seq<Option<T>>, freeHead: u16, numFree: nat, L: Layout, h: nat)
    requires Wf(num, descs, tokens, freeHead, numFree, L)
    requires h < num && tokens[h].Some?
    ensures L.chains[h] != [] && Tail(L, h) < num
    ensures Wf(num, descs[Tail(L, h) := descs[Tail(L, h)].(next := freeHead)], tokens[h := None],
               h, numFree + |L.chains[h]|, DetachLayout(L, h))
  {
    assert ChainOk(num, descs, tokens, L, h);
    var tail := Tail(L, h);
    var descs' := descs[tail := descs[tail].(next := freeHead)];
    DetachKeepsFreeList(num, descs, tokens, freeHead, numFree, L, h);
    DetachKeepsOwner(num, descs, tokens, L, h);
    var tokens' := tokens[h := None];
    var L' := DetachLayout(L, h);
    forall g | 0 <= g < num ensures ChainOk(num, descs', tokens', L', g) {
      if g != h {
        DetachOtherChainOk(num, descs, tokens, freeHead, L, h, g);
      }
    }
  }
}
