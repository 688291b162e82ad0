/** The file allocation table of filesystem/fat32.c as a functional graph: chains are allocated,
    walked, extended and freed (Microsoft FAT32 File System Specification, "FAT Data Structure"). */
module Fat {
  import opened Machine

  const MASK := 0x1000_0000   // an entry has 28 significant bits
  const EOC := 0x0FFF_FFF8    // smallest end-of-chain mark
  const LAST := 0x0FFF_FFFF   // the mark the driver writes

  function Link(fat: seq<Word>, c: nat): nat
    requires c < |fat|
  {
    fat[c] % MASK
  }

  /** The link is what the low 28 bits of the entry say. */
  lemma LinkIs(fat: seq<Word>, c: nat)
    requires c < |fat|
    ensures Link(fat, c) < 0x1000_0000 && exists top: nat :: top < 16 && fat[c] == Shifted(top) + Link(fat, c)
  {
    assert fat[c] == Shifted(fat[c] / MASK) + Link(fat, c);
  }

  /** `x << 28`. */
  function Shifted(x: nat): nat {
    x * 0x1000_0000
  }

  /** The do-while loops go on to the linked cluster. */
  predicate Continues(link: nat) {
    link != 0 && link < EOC
  }

  predicate SizeOk(fat: seq<Word>) {
    2 <= |fat| < 0x0FFF_FFF7
  }

  // ---------------------------------------------------------------- chains

  /** `s` follows the links from its first cluster to an end-of-chain mark. */
  ghost predicate IsChain(fat: seq<Word>, s: seq<nat>) {
    && |s| > 0
    && (forall i :: 0 <= i < |s| ==> 2 <= s[i] < |fat|)
    && (forall i :: 0 < i < |s| ==> Link(fat, s[i - 1]) == s[i])
    && Link(fat, s[|s| - 1]) >= EOC
  }

  /** A chain that ends is acyclic. */
  lemma {:induction false} NoRepeat(fat: seq<Word>, s: seq<nat>, i: nat, j: nat)
    requires SizeOk(fat) && IsChain(fat, s) && i < j < |s|
    ensures s[i] != s[j]
    decreases |s| - j
  {
    assert Link(fat, s[i]) == s[i + 1];
    if j < |s| - 1 {
      assert Link(fat, s[j]) == s[j + 1];
      NoRepeat(fat, s, i + 1, j + 1);
    }
  }

  /** The first cluster determines the chain, and where two chains meet they agree to the end. */
  lemma {:induction false} ChainsAgree(fat: seq<Word>, s: seq<nat>, i: nat, t: seq<nat>, j: nat)
    requires SizeOk(fat) && IsChain(fat, s) && IsChain(fat, t) && i < |s| && j < |t| && s[i] == t[j]
    ensures s[i..] == t[j..]
    decreases |s| - i
  {
    hide Link, IsChain;
    LinkAt(fat, s, i);
    LinkAt(fat, t, j);
    if i < |s| - 1 {
      ChainsAgree(fat, s, i + 1, t, j + 1);
      assert s[i..] == [s[i]] + s[i + 1..] && t[j..] == [t[j]] + t[j + 1..];
    } else {
      assert s[i..] == [s[i]] && t[j..] == [t[j]];
    }
  }

  lemma LinkAt(fat: seq<Word>, s: seq<nat>, i: nat)
    requires SizeOk(fat) && IsChain(fat, s) && i < |s|
    ensures s[i] < |fat|
    ensures if i < |s| - 1 then Link(fat, s[i]) == s[i + 1] < EOC else Link(fat, s[i]) >= EOC
  {
    assert i < |s| - 1 ==> Link(fat, s[i + 1 - 1]) == s[i + 1];
  }

  ghost predicate Disjoint(s: seq<nat>, t: seq<nat>) {
    forall c :: c in s ==> c !in t
  }

  /** The files of the volume: acyclic, end-terminated, pairwise disjoint chains. */
  ghost predicate Forest(fat: seq<Word>, files: seq<seq<nat>>) {
    && SizeOk(fat)
    && (forall f :: 0 <= f < |files| ==> IsChain(fat, files[f]))
    && (forall f, g :: 0 <= f < g < |files| ==> Disjoint(files[f], files[g]))
  }

  lemma OthersDisjoint(fat: seq<Word>, files: seq<seq<nat>>, f: nat, g: nat)
    requires Forest(fat, files) && f < |files| && g < |files| && f != g
    ensures Disjoint(files[g], files[f])
  {
    assert f < g ==> Disjoint(files[f], files[g]);
  }

  /** A chain whose clusters keep their entries stays a chain. */
  lemma ChainKept(fat: seq<Word>, fat': seq<Word>, s: seq<nat>)
    requires IsChain(fat, s) && |fat'| == |fat|
    requires forall c :: c in s && c < |fat| ==> fat'[c] == fat[c]
    ensures IsChain(fat', s)
  {
    assert forall i :: 0 <= i < |s| ==> s[i] in s;
  }

  // ---------------------------------------------------------------- allocation

  /** The free clusters from `from` on, in ascending order. */
  function FreeFrom(fat: seq<Word>, from: nat): seq<nat>
    decreases |fat| - from
  {
    if from >= |fat| then []
    else if Link(fat, from) == 0 then [from] + FreeFrom(fat, from + 1)
    else FreeFrom(fat, from + 1)
  }

  lemma {:induction false} FreeFromIs(fat: seq<Word>, from: nat)
    ensures forall c :: c in FreeFrom(fat, from) <==> from <= c < |fat| && Link(fat, c) == 0
    ensures forall i, j :: 0 <= i < j < |FreeFrom(fat, from)| ==> FreeFrom(fat, from)[i] < FreeFrom(fat, from)[j]
    decreases |fat| - from
  {
    hide Link;
    if from < |fat| {
      FreeFromIs(fat, from + 1);
      var rest := FreeFrom(fat, from + 1);
      assert forall j :: 0 <= j < |rest| ==> rest[j] in rest;
    }
  }

  /** What the `i`-th allocated cluster is made to point to. */
  function Before(ls: seq<nat>, i: nat): nat
    requires i < |ls|
  {
    if i == 0 then LAST else ls[i - 1]
  }

  /** `fat'` is `fat` with the clusters `ls` linked into one chain, each to the one before it. */
  ghost predicate LinkedBack(fat: seq<Word>, fat': seq<Word>, ls: seq<nat>) {
    && |fat'| == |fat|
    && (forall i :: 0 <= i < |ls| ==> ls[i] < |fat| && fat'[ls[i]] == Before(ls, i))
    && (forall c :: 0 <= c < |fat| && c !in ls ==> fat'[c] == fat[c])
  }

  /** One more cluster, the next free one, joins the chain in front. */
  lemma LinkNext(f0: seq<Word>, f1: seq<Word>, f2: seq<Word>, ls: seq<nat>, c: nat)
    requires LinkedBack(f0, f1, ls) && c < |f0| && c !in ls
    requires |f2| == |f1| && f2 == f1[c := f2[c]] && f2[c] == Before(ls + [c], |ls|)
    ensures LinkedBack(f0, f2, ls + [c])
  {
    var ls' := ls + [c];
    forall i | 0 <= i < |ls'|
      ensures ls'[i] < |f0| && f2[ls'[i]] == Before(ls', i)
    {
      if i < |ls| {
        assert ls[i] in ls && ls'[i] == ls[i];
        assert f1[ls[i]] == Before(ls, i);
      }
    }
    forall d | 0 <= d < |f0| && d !in ls'
      ensures f2[d] == f0[d]
    {
      assert c in ls' && d !in ls;
    }
  }

  /** Scanning past `a` keeps or takes the head of the free list. */
  lemma ScanStep(f0: seq<Word>, f1: seq<Word>, all: seq<nat>, k: nat, a: nat)
    requires k < |all| && LinkedBack(f0, f1, all[..k]) && FreeFrom(f0, a) == all[k..]
    requires forall i :: 0 <= i < k ==> all[i] < a
    ensures a < |f1| == |f0| && a !in all[..k]
    ensures f1[a] % MASK != 0 ==> FreeFrom(f0, a + 1) == all[k..]
    ensures f1[a] % MASK == 0 ==> all[k] == a && FreeFrom(f0, a + 1) == all[k + 1..] && all[..k + 1] == all[..k] + [a]
  {
    assert a < |f0|;
    LinkedElsewhere(f0, f1, all[..k], a);
    assert all[k] == all[k..][0] && all[k..][1..] == all[k + 1..];
  }

  /** The free cluster the scan stopped at is linked in front of the chain built so far. */
  lemma TakeStep(f0: seq<Word>, f1: seq<Word>, f2: seq<Word>, all: seq<nat>, k: nat, a: nat, first: nat)
    requires all == FreeFrom(f0, 0) && |f0| > 0 && Link(f0, 0) != 0
    requires k < |all| && LinkedBack(f0, f1, all[..k]) && FreeFrom(f0, a) == all[k..]
    requires forall i :: 0 <= i < k ==> all[i] < a
    requires a < |f1| && f1[a] % MASK == 0 && first == if k == 0 then 0 else all[k - 1]
    requires |f2| == |f1| && f2 == f1[a := f2[a]] && f2[a] == if first == 0 then LAST else first
    ensures LinkedBack(f0, f2, all[..k + 1]) && FreeFrom(f0, a + 1) == all[k + 1..] && all[k] == a
  {
    hide LinkedBack, FreeFrom, Link;
    ScanStep(f0, f1, all, k, a);
    NotZero(f0, all, k);
    LinkNext(f0, f1, f2, all[..k], a);
  }

  /** `fat32fs_gm_free_clusters`: the lowest free clusters, chained in descending order. */
  method GmFreeClusters(fat: array<Word>, nbr: nat) returns (first: nat)
    requires SizeOk(fat[..]) && Link(fat[..], 0) != 0 && Link(fat[..], 1) != 0
    requires nbr <= |FreeFrom(fat[..], 0)|
    modifies fat
    ensures LinkedBack(old(fat[..]), fat[..], FreeFrom(old(fat[..]), 0)[..nbr])
    ensures first == if nbr == 0 then 0 else FreeFrom(old(fat[..]), 0)[nbr - 1]
  {
    hide LinkedBack, FreeFrom, Link;
    ghost var f0, all := fat[..], FreeFrom(fat[..], 0);
    FreeFromIs(f0, 0);
    var active := 0;
    first := 0;
    var left := nbr;
    LinkedNone(f0);
    assert all[..0] == [] && all[0..] == all;
    while left != 0
      invariant 0 <= left <= nbr
      invariant LinkedBack(f0, fat[..], all[..nbr - left])
      invariant FreeFrom(f0, active) == all[nbr - left..]
      invariant first == if left == nbr then 0 else all[nbr - left - 1]
      invariant forall i :: 0 <= i < nbr - left ==> all[i] < active
    {
      ghost var k, f1 := nbr - left, fat[..];
      ScanStep(f0, f1, all, k, active);
      while fat[active] % MASK != 0
        invariant active < fat.Length && FreeFrom(f0, active) == all[k..] && fat[..] == f1
        invariant forall i :: 0 <= i < k ==> all[i] < active
        decreases fat.Length - active
      {
        ScanStep(f0, f1, all, k, active);
        active := active + 1;
        ScanStep(f0, f1, all, k, active);
      }
      if first == 0 {
        fat[active] := LAST;
      } else {
        fat[active] := first;
      }
      assert fat[..] == f1[active := fat[active]];
      TakeStep(f0, f1, fat[..], all, k, active, first);
      first := active;
      active := active + 1;
      left := left - 1;
    }
  }

  /** The free clusters do not include 0, so 0 can stand for "none yet". */
  lemma NotZero(fat: seq<Word>, all: seq<nat>, k: nat)
    requires |fat| > 0 && Link(fat, 0) != 0 && all == FreeFrom(fat, 0) && k <= |all|
    ensures k > 0 ==> all[k - 1] != 0
  {
    FreeFromIs(fat, 0);
    assert k > 0 ==> all[k - 1] in all;
  }

  lemma LinkedNone(fat: seq<Word>)
    ensures LinkedBack(fat, fat, [])
  {
  }

  lemma LinkedElsewhere(f0: seq<Word>, f1: seq<Word>, ls: seq<nat>, c: nat)
    requires LinkedBack(f0, f1, ls) && c < |f0| && forall i :: 0 <= i < |ls| ==> ls[i] < c
    ensures |f1| == |f0| && c !in ls && f1[c] == f0[c]
  {
  }

  function Reverse(s: seq<nat>): (r: seq<nat>)
    ensures |r| == |s| && forall i :: 0 <= i < |s| ==> r[i] == s[|s| - 1 - i]
  {
    if s == [] then [] else Reverse(s[1..]) + [s[0]]
  }

  /** A cluster of a chain is not free. */
  lemma InUse(fat: seq<Word>, s: seq<nat>, i: nat)
    requires SizeOk(fat) && IsChain(fat, s) && i < |s|
    ensures Link(fat, s[i]) != 0 && (i < |s| - 1 ==> Link(fat, s[i]) == s[i + 1])
  {
    assert i < |s| - 1 ==> s[i + 1] >= 2;
  }

  lemma LinkedLink(f0: seq<Word>, f1: seq<Word>, ls: seq<nat>, i: nat)
    requires SizeOk(f0) && LinkedBack(f0, f1, ls) && i < |ls|
    ensures ls[i] < |f1| == |f0| && Link(f1, ls[i]) == Before(ls, i)
  {
    assert i > 0 ==> ls[i - 1] < |f0|;
    assert f1[ls[i]] == Before(ls, i) < MASK;
  }

  lemma ReversedChain(f0: seq<Word>, f1: seq<Word>, ls: seq<nat>)
    requires SizeOk(f0) && LinkedBack(f0, f1, ls) && |ls| > 0 && forall i :: 0 <= i < |ls| ==> 2 <= ls[i]
    ensures IsChain(f1, Reverse(ls))
  {
    hide Reverse, LinkedBack, Link;
    var n, r := |ls|, Reverse(ls);
    forall i | 0 <= i < n
      ensures 2 <= r[i] < |f1|
    {
      LinkedLink(f0, f1, ls, n - 1 - i);
    }
    forall i | 0 < i < n
      ensures Link(f1, r[i - 1]) == r[i]
    {
      LinkedLink(f0, f1, ls, n - i);
    }
    LinkedLink(f0, f1, ls, 0);
  }

  lemma FileKept(f0: seq<Word>, f1: seq<Word>, ls: seq<nat>, s: seq<nat>)
    requires SizeOk(f0) && LinkedBack(f0, f1, ls) && IsChain(f0, s)
    requires forall c :: c in ls ==> c < |f0| && Link(f0, c) == 0
    ensures IsChain(f1, s) && Disjoint(s, Reverse(ls))
  {
    forall c | c in s
      ensures c !in ls && c !in Reverse(ls)
    {
      var i :| 0 <= i < |s| && s[i] == c;
      InUse(f0, s, i);
      assert c !in ls;
    }
    ChainKept(f0, f1, s);
  }

  /** The allocated clusters form a chain in descending order, and no existing chain is disturbed. */
  lemma NewChain(f0: seq<Word>, f1: seq<Word>, files: seq<seq<nat>>, n: nat)
    requires Forest(f0, files) && Link(f0, 0) != 0 && Link(f0, 1) != 0
    requires 0 < n <= |FreeFrom(f0, 0)| && LinkedBack(f0, f1, FreeFrom(f0, 0)[..n])
    ensures Forest(f1, files + [Reverse(FreeFrom(f0, 0)[..n])])
  {
    hide IsChain, Disjoint, FreeFrom, LinkedBack, Reverse;
    var ls := FreeFrom(f0, 0)[..n];
    FreeFromIs(f0, 0);
    assert |f1| == |f0| by { LinkedLength(f0, f1, ls); }
    forall c | c in ls
      ensures 2 <= c < |f0| && Link(f0, c) == 0
    {
      assert c in FreeFrom(f0, 0);
    }
    ReversedChain(f0, f1, ls);
    forall f | 0 <= f < |files|
      ensures IsChain(f1, files[f]) && Disjoint(files[f], Reverse(ls))
    {
      FileKept(f0, f1, ls, files[f]);
    }
  }

  lemma LinkedLength(f0: seq<Word>, f1: seq<Word>, ls: seq<nat>)
    requires LinkedBack(f0, f1, ls)
    ensures |f1| == |f0|
  {
  }

  // ---------------------------------------------------------------- walking

  /** `s` is what a walk meets that comes to an end, be it at an end mark or at a 0 link. */
  ghost predicate IsWalk(fat: seq<Word>, s: seq<nat>) {
    && |s| > 0
    && (forall i :: 0 <= i < |s| ==> s[i] < |fat|)
    && (forall i :: 0 < i < |s| ==> Link(fat, s[i - 1]) == s[i] && Continues(s[i]))
    && !Continues(Link(fat, s[|s| - 1]))
  }

  lemma ChainIsWalk(fat: seq<Word>, s: seq<nat>)
    requires SizeOk(fat) && IsChain(fat, s)
    ensures IsWalk(fat, s)
  {
  }

  lemma WalkStep(fat: seq<Word>, s: seq<nat>, i: nat)
    requires IsWalk(fat, s) && i < |s|
    ensures if i + 1 < |s| then Link(fat, s[i]) == s[i + 1] && Continues(s[i + 1]) else !Continues(Link(fat, s[i]))
  {
    assert i + 1 < |s| ==> Link(fat, s[i + 1 - 1]) == s[i + 1];
  }

  /** `fat32fs_get_cluster_chain`: the clusters met from `fcluster` to the end of the walk, in order. */
  method GetClusterChain(fat: array<Word>, fcluster: nat, ghost s: seq<nat>) returns (list: seq<nat>)
    requires IsWalk(fat[..], s) && s[0] == fcluster
    ensures list == s
  {
    list := [];
    var cluster := fcluster;
    var cchain := 0;
    var going := true;
    while going
      invariant |list| <= |s| && list == s[..|list|]
      invariant going ==> |list| < |s| && cluster == s[|list|]
      invariant !going ==> |list| == |s|
      decreases |s| - |list|, going
    {
      WalkStep(fat[..], s, |list|);
      cchain := fat[cluster] % MASK;
      list := list + [cluster];
      cluster := cchain;
      going := cchain != 0 && !(cchain >= EOC);
    }
  }

  // ---------------------------------------------------------------- freeing

  /** The cluster `n` links after `a`, if the walk gets that far. */
  function Follow(fat: seq<Word>, a: nat, n: nat): (r: Option<nat>)
    requires a < |fat|
    ensures r.Some? ==> r.value < |fat|
  {
    if n == 0 then Some(a)
    else
      match Follow(fat, a, n - 1)
      case None => None
      case Some(c) => if Continues(Link(fat, c)) && Link(fat, c) < |fat| then Some(Link(fat, c)) else None
  }

  ghost predicate Reachable(fat: seq<Word>, a: nat, c: nat)
    requires a < |fat|
  {
    exists n: nat :: Follow(fat, a, n) == Some(c)
  }

  /** Every link the loops would follow stays inside the table. */
  ghost predicate LinksInRange(fat: seq<Word>) {
    forall c :: 0 <= c < |fat| && Continues(Link(fat, c)) ==> Link(fat, c) < |fat|
  }

  ghost predicate ReachedBy(fat: seq<Word>, a: nat, k: nat, c: nat)
    requires a < |fat|
  {
    exists n: nat :: n < k && Follow(fat, a, n) == Some(c)
  }

  /** `fat'` is `fat` with the first `k` clusters of the walk from `a` zeroed. */
  ghost predicate ZeroedTo(fat: seq<Word>, fat': seq<Word>, a: nat, k: nat)
    requires a < |fat|
  {
    |fat'| == |fat| && forall c :: 0 <= c < |fat| ==> fat'[c] == if ReachedBy(fat, a, k, c) then 0 else fat[c]
  }

  ghost function NonZero(fat: seq<Word>): set<nat> {
    set c: nat | c < |fat| && Link(fat, c) != 0
  }

  lemma ZeroNext(fat: seq<Word>, f1: seq<Word>, f2: seq<Word>, a: nat, k: nat, c: nat)
    requires a < |fat| && ZeroedTo(fat, f1, a, k) && Follow(fat, a, k) == Some(c) && f2 == f1[c := 0]
    ensures ZeroedTo(fat, f2, a, k + 1)
  {
    hide Follow;
    forall d | 0 <= d < |fat|
      ensures f2[d] == if ReachedBy(fat, a, k + 1, d) then 0 else fat[d]
    {
      assert f1[d] == if ReachedBy(fat, a, k, d) then 0 else fat[d];
      if d == c {
        assert ReachedBy(fat, a, k + 1, c);
      } else if ReachedBy(fat, a, k, d) {
        var n: nat :| n < k && Follow(fat, a, n) == Some(d);
        assert ReachedBy(fat, a, k + 1, d);
      }
    }
  }

  /** Once the walk ends, or enters a cluster met before, it meets nothing new. */
  lemma {:induction false} Closed(fat: seq<Word>, a: nat, k: nat, n: nat)
    requires a < |fat| && Follow(fat, a, k).Some?
    requires Follow(fat, a, k + 1) == None || ReachedBy(fat, a, k, Follow(fat, a, k).value)
    requires Follow(fat, a, n).Some?
    ensures ReachedBy(fat, a, k + 1, Follow(fat, a, n).value)
    decreases n
  {
    if n > k {
      if Follow(fat, a, k + 1) == None {
        Stops(fat, a, k + 1, n);
      } else {
        var m: nat :| m < k && Follow(fat, a, m) == Follow(fat, a, k);
        Periodic(fat, a, m, k, n - k);
        Closed(fat, a, k, m + (n - k));
      }
    }
  }

  lemma {:induction false} Stops(fat: seq<Word>, a: nat, k: nat, n: nat)
    requires a < |fat| && Follow(fat, a, k) == None && k <= n
    ensures Follow(fat, a, n) == None
    decreases n
  {
    if k < n {
      Stops(fat, a, k, n - 1);
    }
  }

  lemma {:induction false} Periodic(fat: seq<Word>, a: nat, m: nat, k: nat, d: nat)
    requires a < |fat| && Follow(fat, a, m) == Follow(fat, a, k)
    ensures Follow(fat, a, m + d) == Follow(fat, a, k + d)
    decreases d
  {
    if d > 0 {
      Periodic(fat, a, m, k, d - 1);
      assert m + d - 1 == m + (d - 1) && k + d - 1 == k + (d - 1);
    }
  }

  /** The first `k` clusters of the walk from `a` are all it ever meets. */
  ghost predicate AllMet(fat: seq<Word>, a: nat, k: nat)
    requires a < |fat|
  {
    forall n: nat :: Follow(fat, a, n).Some? ==> ReachedBy(fat, a, k, Follow(fat, a, n).value)
  }

  /** Zeroing the `k`-th cluster `c` of the walk either goes on, with one nonzero entry fewer, or ends it. */
  lemma FreeStep(fat: seq<Word>, f1: seq<Word>, f2: seq<Word>, a: nat, k: nat, c: nat)
    requires a < |fat| && LinksInRange(fat)
    requires ZeroedTo(fat, f1, a, k) && Follow(fat, a, k) == Some(c) && f2 == f1[c := 0]
    ensures ZeroedTo(fat, f2, a, k + 1)
    ensures Continues(Link(f1, c)) ==>
              && Follow(fat, a, k + 1) == Some(Link(f1, c))
              && c in NonZero(f1) && NonZero(f2) == NonZero(f1) - {c}
    ensures !Continues(Link(f1, c)) ==> AllMet(fat, a, k + 1)
  {
    assert f1[c] == if ReachedBy(fat, a, k, c) then 0 else fat[c];
    ZeroNext(fat, f1, f2, a, k, c);
    if !Continues(Link(f1, c)) {
      forall n: nat | Follow(fat, a, n).Some?
        ensures ReachedBy(fat, a, k + 1, Follow(fat, a, n).value)
      {
        Closed(fat, a, k, n);
      }
    }
  }

  lemma FreeEnd(fat: seq<Word>, f1: seq<Word>, a: nat, k: nat, c: nat)
    requires a < |fat| && ZeroedTo(fat, f1, a, k) && AllMet(fat, a, k) && c < |fat|
    ensures f1[c] == if Reachable(fat, a, c) then 0 else fat[c]
  {
    if Reachable(fat, a, c) {
      var n: nat :| Follow(fat, a, n) == Some(c);
    }
  }

  /** The walk from `a` comes to an end-of-chain mark. */
  ghost predicate MeetsEnd(fat: seq<Word>, a: nat)
    requires a < |fat|
  {
    exists n: nat :: Follow(fat, a, n).Some? && Link(fat, Follow(fat, a, n).value) >= EOC
  }

  /** Only the last cluster of a walk can carry an end mark, and none that the walk has met before. */
  lemma LastLink(fat: seq<Word>, f1: seq<Word>, a: nat, k: nat, c: nat)
    requires a < |fat| && ZeroedTo(fat, f1, a, k) && Follow(fat, a, k) == Some(c) && !Continues(Link(f1, c))
    ensures Link(f1, c) != 0 <==> MeetsEnd(fat, a)
    ensures Link(f1, c) != 0 ==> Link(f1, c) >= EOC
  {
    assert f1[c] == if ReachedBy(fat, a, k, c) then 0 else fat[c];
    hide ZeroedTo, Link, Follow, ReachedBy;
    if MeetsEnd(fat, a) {
      EndIsLast(fat, a, k, c);
    } else if Link(f1, c) >= EOC {
      assert fat[c] == f1[c];
      SameLink(fat, f1, c);
    }
  }

  lemma SameLink(fat: seq<Word>, fat': seq<Word>, c: nat)
    requires c < |fat| && c < |fat'| && fat[c] == fat'[c]
    ensures Link(fat, c) == Link(fat', c)
  {
  }

  lemma EndIsLast(fat: seq<Word>, a: nat, k: nat, c: nat)
    requires a < |fat| && MeetsEnd(fat, a) && Follow(fat, a, k) == Some(c)
    requires !Continues(Link(fat, c)) || ReachedBy(fat, a, k, c)
    ensures !ReachedBy(fat, a, k, c) && Link(fat, c) >= EOC
  {
    hide Link;
    var n: nat :| Follow(fat, a, n).Some? && Link(fat, Follow(fat, a, n).value) >= EOC;
    assert Follow(fat, a, n + 1) == None;
    if n < k {
      Stops(fat, a, n + 1, k);
    }
    if ReachedBy(fat, a, k, c) {
      var m: nat :| m < k && Follow(fat, a, m) == Some(c);
      NeverEnds(fat, a, m, k, n + 1);
    }
    if n > k {
      Stops(fat, a, k + 1, n);
    }
  }

  /** A walk that comes back to a cluster goes on for ever. */
  lemma {:induction false} NeverEnds(fat: seq<Word>, a: nat, m: nat, k: nat, n: nat)
    requires a < |fat| && m < k && Follow(fat, a, k).Some? && Follow(fat, a, m) == Follow(fat, a, k)
    ensures Follow(fat, a, n).Some?
    decreases n
  {
    if n > k {
      NeverEnds(fat, a, m, k, n - (k - m));
      Periodic(fat, a, m, k, n - k);
    } else if Follow(fat, a, n) == None {
      Stops(fat, a, n, k);
    }
  }

  /** `fat32fs_free_cluster_chain`: terminates on every table whose links are in range, cycles and shared
      tails included, and zeroes exactly the clusters reachable from `fcluster`. The store behind the loop
      goes to index `stray`: entry 0 when the walk does not come to an end mark, and otherwise the end mark
      itself, which is no index of the table. */
  method FreeClusterChain(fat: array<Word>, fcluster: nat) returns (stray: nat)
    requires fcluster < fat.Length && LinksInRange(fat[..])
    modifies fat
    ensures fat.Length == |old(fat[..])|
    ensures if MeetsEnd(old(fat[..]), fcluster) then EOC <= stray else stray == 0
    ensures forall c :: 0 <= c < fat.Length ==>
              fat[c] == if Reachable(old(fat[..]), fcluster, c) || c == stray then 0 else old(fat[c])
  {
    hide LinksInRange, AllMet, NonZero, ZeroedTo, ReachedBy, Reachable, Follow, MeetsEnd;
    ghost var f0 := fat[..];
    FollowNone(f0, fcluster);
    var cluster := fcluster;
    var going := true;
    ghost var k := 0;
    while going
      invariant going ==> Follow(f0, fcluster, k) == Some(cluster)
      invariant ZeroedTo(f0, fat[..], fcluster, k)
      invariant !going ==> AllMet(f0, fcluster, k) && if MeetsEnd(f0, fcluster) then EOC <= cluster else cluster == 0
      decreases going, NonZero(fat[..])
    {
      ghost var f1 := fat[..];
      var cchain := fat[cluster] % MASK;
      fat[cluster] := 0;
      assert fat[..] == f1[cluster := 0];
      FreeStep(f0, f1, fat[..], fcluster, k, cluster);
      if !Continues(cchain) {
        LastLink(f0, f1, fcluster, k, cluster);
      }
      going := cchain != 0 && !(cchain >= EOC);
      cluster := cchain;
      k := k + 1;
    }
    forall c | 0 <= c < fat.Length
      ensures fat[c] == if Reachable(f0, fcluster, c) then 0 else f0[c]
    {
      FreeEnd(f0, fat[..], fcluster, k, c);
    }
    stray := cluster;
    if stray < fat.Length {
      fat[stray] := 0;
    }
  }

  lemma FollowNone(fat: seq<Word>, a: nat)
    requires a < |fat|
    ensures Follow(fat, a, 0) == Some(a) && ZeroedTo(fat, fat, a, 0)
  {
  }

  /** A walk in a circle comes to no end mark. */
  lemma {:induction false} CircleGoesOn(fat: seq<Word>, n: nat)
    requires fat == [0x0FFF_FFF8, LAST, 3, 2]
    ensures Follow(fat, 2, n) == Some(if n % 2 == 0 then 2 else 3)
    decreases n
  {
    if n > 0 {
      CircleGoesOn(fat, n - 1);
    }
  }

  /** One such table: freeing from cluster 2 in the circle 2, 3, 2 clears the reserved entry 0 as well. */
  method FreeCircle() returns (entry0: Word)
    ensures entry0 == 0
  {
    var fat := new Word[4][0x0FFF_FFF8, LAST, 3, 2];
    ghost var f0 := fat[..];
    assert f0 == [0x0FFF_FFF8, LAST, 3, 2];
    assert !MeetsEnd(f0, 2) by {
      forall n: nat
        ensures Follow(f0, 2, n).Some? && Link(f0, Follow(f0, 2, n).value) < EOC
      {
        CircleGoesOn(f0, n);
      }
    }
    var stray := FreeClusterChain(fat, 2);
    entry0 := fat[0];
  }

  // ---------------------------------------------------------------- freeing and extending files

  /** On a chain the walk from its head meets its clusters and stops. */
  lemma {:induction false} FollowChain(fat: seq<Word>, s: seq<nat>, n: nat)
    requires SizeOk(fat) && IsChain(fat, s)
    ensures Follow(fat, s[0], n) == if n < |s| then Some(s[n]) else None
    decreases n
  {
    if n > 0 {
      FollowChain(fat, s, n - 1);
      if n <= |s| {
        InUse(fat, s, n - 1);
      }
    }
  }

  lemma ChainMeetsEnd(fat: seq<Word>, s: seq<nat>)
    requires SizeOk(fat) && IsChain(fat, s)
    ensures MeetsEnd(fat, s[0])
  {
    FollowChain(fat, s, |s| - 1);
  }

  lemma ReachesChain(fat: seq<Word>, s: seq<nat>, c: nat)
    requires SizeOk(fat) && IsChain(fat, s)
    ensures Reachable(fat, s[0], c) <==> c in s
  {
    if c in s {
      var i :| 0 <= i < |s| && s[i] == c;
      FollowChain(fat, s, i);
    }
    if Reachable(fat, s[0], c) {
      var n: nat :| Follow(fat, s[0], n) == Some(c);
      FollowChain(fat, s, n);
    }
  }

  /** What the driver relies on: the files are a forest, no link leads out of the table, and the two
      reserved entries are not free. */
  ghost predicate VolumeOk(fat: seq<Word>, files: seq<seq<nat>>) {
    Forest(fat, files) && LinksInRange(fat) && Link(fat, 0) != 0 && Link(fat, 1) != 0
  }

  /** `fat'` is `fat` with the clusters of `s` zeroed. */
  ghost predicate Zeroed(fat: seq<Word>, fat': seq<Word>, s: seq<nat>) {
    |fat'| == |fat| && forall c :: 0 <= c < |fat| ==> fat'[c] == if c in s then 0 else fat[c]
  }

  function Without(files: seq<seq<nat>>, f: nat): seq<seq<nat>>
    requires f < |files|
  {
    files[..f] + files[f + 1..]
  }

  lemma ZeroedVolume(fat: seq<Word>, fat': seq<Word>, files: seq<seq<nat>>, f: nat)
    requires VolumeOk(fat, files) && f < |files| && Zeroed(fat, fat', files[f])
    ensures VolumeOk(fat', Without(files, f))
  {
    var rest := Without(files, f);
    forall g | 0 <= g < |rest|
      ensures IsChain(fat', rest[g])
    {
      var g' := if g < f then g else g + 1;
      assert rest[g] == files[g'];
      OthersDisjoint(fat, files, f, g');
      ChainKept(fat, fat', files[g']);
    }
    forall c | 0 <= c < |fat'| && Continues(Link(fat', c))
      ensures Link(fat', c) < |fat'|
    {
      assert fat'[c] == fat[c] && Link(fat, c) < |fat|;
    }
    assert 0 !in files[f] && 1 !in files[f];
  }

  /** Deleting file `f`: exactly its clusters become free. */
  method DeleteFile(fat: array<Word>, ghost files: seq<seq<nat>>, ghost f: nat, fcluster: nat)
    requires VolumeOk(fat[..], files) && f < |files| && files[f][0] == fcluster
    modifies fat
    ensures Zeroed(old(fat[..]), fat[..], files[f])
    ensures VolumeOk(fat[..], Without(files, f))
  {
    hide Reachable, MeetsEnd, LinksInRange, Without;
    ghost var f0 := fat[..];
    var stray := FreeClusterChain(fat, fcluster);
    ChainMeetsEnd(f0, files[f]);
    forall c | 0 <= c < fat.Length
      ensures fat[c] == if c in files[f] then 0 else f0[c]
    {
      ReachesChain(f0, files[f], c);
    }
    ZeroedVolume(f0, fat[..], files, f);
  }

  /** Pointing the last cluster of `s` at the head of `t` appends `t`. */
  lemma Spliced(fat: seq<Word>, fat': seq<Word>, s: seq<nat>, t: seq<nat>)
    requires SizeOk(fat) && IsChain(fat, s) && IsChain(fat, t) && Disjoint(s, t)
    requires fat' == fat[s[|s| - 1] := t[0]]
    ensures IsChain(fat', s + t)
  {
    var st := s + t;
    forall i | 0 <= i < |st|
      ensures 2 <= st[i] < |fat'|
    {
    }
    forall i | 0 < i < |st|
      ensures Link(fat', st[i - 1]) == st[i]
    {
      if i < |s| {
        NoRepeat(fat, s, i - 1, |s| - 1);
      } else if i > |s| {
        assert t[i - 1 - |s|] in t && s[|s| - 1] in s;
      }
    }
    assert t[|t| - 1] in t && s[|s| - 1] in s;
  }

  /** The extension step of `fat32_write_file` and `fat32fs_create_dirent`: `n` fresh clusters are chained
      and hung behind the last cluster of file `f`. */
  method ExtendFile(fat: array<Word>, fcluster: nat, n: nat, ghost files: seq<seq<nat>>, ghost f: nat)
    requires VolumeOk(fat[..], files) && f < |files| && files[f][0] == fcluster && 0 < n <= |FreeFrom(fat[..], 0)|
    modifies fat
    ensures Extended(old(fat[..]), fat[..], FreeFrom(old(fat[..]), 0)[..n], files[f][|files[f]| - 1])
    ensures VolumeOk(fat[..], files[f := files[f] + Reverse(FreeFrom(old(fat[..]), 0)[..n])])
  {
    hide LinkedBack, FreeFrom, Reverse, LinksInRange, IsWalk, IsChain, Disjoint;
    ghost var f0 := fat[..];
    ghost var ls := FreeFrom(f0, 0)[..n];
    FileLast(f0, files, f);
    ChainIsWalk(f0, files[f]);
    var list := GetClusterChain(fat, fcluster, files[f]);
    var new_cluster := GmFreeClusters(fat, n);
    ghost var f1 := fat[..];
    PrefixFree(f0, n, new_cluster);
    LastOutside(f0, f1, files, f, n);
    var last := list[|list| - 1];
    fat[last] := new_cluster;
    assert fat[..][last := f0[last]] == f1;
    ExtendVolume(f0, fat[..], files, f, n);
  }

  lemma FileLast(fat: seq<Word>, files: seq<seq<nat>>, f: nat)
    requires Forest(fat, files) && f < |files|
    ensures |files[f]| > 0 && IsChain(fat, files[f]) && 2 <= files[f][|files[f]| - 1] < |fat|
  {
  }

  lemma LastOutside(f0: seq<Word>, f1: seq<Word>, files: seq<seq<nat>>, f: nat, n: nat)
    requires VolumeOk(f0, files) && f < |files| && n <= |FreeFrom(f0, 0)| && LinkedBack(f0, f1, FreeFrom(f0, 0)[..n])
    ensures |files[f]| > 0 && files[f][|files[f]| - 1] < |f0| == |f1|
    ensures f1[files[f][|files[f]| - 1]] == f0[files[f][|files[f]| - 1]]
  {
    var s, ls := files[f], FreeFrom(f0, 0)[..n];
    PrefixFree(f0, n, s[|s| - 1]);
    InUse(f0, s, |s| - 1);
  }

  lemma PrefixFree(fat: seq<Word>, n: nat, c: nat)
    requires n <= |FreeFrom(fat, 0)|
    ensures c in FreeFrom(fat, 0)[..n] ==> c < |fat| && Link(fat, c) == 0
  {
    FreeFromIs(fat, 0);
    assert c in FreeFrom(fat, 0)[..n] ==> c in FreeFrom(fat, 0);
  }

  /** `fat'` is `fat` with the clusters `ls` linked into a chain and the entry `last` pointing to it. */
  ghost predicate Extended(fat: seq<Word>, fat': seq<Word>, ls: seq<nat>, last: nat) {
    && last < |fat| == |fat'| && |ls| > 0
    && LinkedBack(fat, fat'[last := fat[last]], ls) && fat'[last] == ls[|ls| - 1]
  }

  lemma ExtendVolume(fat: seq<Word>, fat': seq<Word>, files: seq<seq<nat>>, f: nat, n: nat)
    requires VolumeOk(fat, files) && f < |files| && 0 < n <= |FreeFrom(fat, 0)| && |files[f]| > 0
    requires Extended(fat, fat', FreeFrom(fat, 0)[..n], files[f][|files[f]| - 1])
    ensures VolumeOk(fat', files[f := files[f] + Reverse(FreeFrom(fat, 0)[..n])])
  {
    hide LinkedBack, FreeFrom, Reverse, LinksInRange, IsChain, Disjoint, Link;
    var ls, last := FreeFrom(fat, 0)[..n], files[f][|files[f]| - 1];
    var f1 := fat'[last := fat[last]];
    LinkedVolume(fat, f1, files, n);
    var t := Reverse(ls);
    var all := files + [t];
    assert all[f] == files[f] && all[|files|] == t;
    assert fat' == f1[last := t[0]];
    SpliceForest(f1, fat', files, f, t);
    FileLast(f1, all, f);
    FileLast(f1, all, |files|);
    RelinkInRange(f1, fat', last, t);
  }

  lemma RelinkInRange(fat: seq<Word>, fat': seq<Word>, last: nat, t: seq<nat>)
    requires SizeOk(fat) && LinksInRange(fat) && 2 <= last < |fat| && IsChain(fat, t) && fat' == fat[last := t[0]]
    ensures LinksInRange(fat') && Link(fat', 0) == Link(fat, 0) && Link(fat', 1) == Link(fat, 1)
  {
    forall c | 0 <= c < |fat'| && Continues(Link(fat', c))
      ensures Link(fat', c) < |fat'|
    {
      assert c != last ==> Link(fat', c) == Link(fat, c);
    }
  }

  /** Allocation alone: a new file joins the volume. */
  lemma LinkedVolume(fat: seq<Word>, fat': seq<Word>, files: seq<seq<nat>>, n: nat)
    requires VolumeOk(fat, files) && 0 < n <= |FreeFrom(fat, 0)| && LinkedBack(fat, fat', FreeFrom(fat, 0)[..n])
    ensures VolumeOk(fat', files + [Reverse(FreeFrom(fat, 0)[..n])])
  {
    hide LinkedBack, FreeFrom, Reverse, LinksInRange, IsChain, Disjoint;
    var ls := FreeFrom(fat, 0)[..n];
    NewChain(fat, fat', files, n);
    StillInRange(fat, fat', ls);
    PrefixFree(fat, n, 0);
    PrefixFree(fat, n, 1);
    Untouched(fat, fat', ls, 0);
    Untouched(fat, fat', ls, 1);
  }

  /** The first cluster of a new file or directory, and the space of a file made in one piece. */
  method CreateFile(fat: array<Word>, n: nat, ghost files: seq<seq<nat>>) returns (fcluster: nat)
    requires VolumeOk(fat[..], files) && 0 < n <= |FreeFrom(fat[..], 0)|
    modifies fat
    ensures LinkedBack(old(fat[..]), fat[..], FreeFrom(old(fat[..]), 0)[..n])
    ensures fcluster == Reverse(FreeFrom(old(fat[..]), 0)[..n])[0]
    ensures VolumeOk(fat[..], files + [Reverse(FreeFrom(old(fat[..]), 0)[..n])])
  {
    hide LinkedBack, FreeFrom, Reverse, LinksInRange, IsChain, Disjoint;
    ghost var f0 := fat[..];
    fcluster := GmFreeClusters(fat, n);
    LinkedVolume(f0, fat[..], files, n);
  }

  lemma SpliceForest(fat: seq<Word>, fat': seq<Word>, files: seq<seq<nat>>, f: nat, t: seq<nat>)
    requires Forest(fat, files + [t]) && f < |files| && IsChain(fat, files[f]) && IsChain(fat, t)
    requires fat' == fat[files[f][|files[f]| - 1] := t[0]]
    ensures Forest(fat', files[f := files[f] + t])
  {
    var all := files + [t];
    var files' := files[f := files[f] + t];
    assert all[f] == files[f] && all[|files|] == t;
    Spliced(fat, fat', files[f], t);
    var last := files[f][|files[f]| - 1];
    assert last in files[f];
    forall g | 0 <= g < |files| && g != f
      ensures IsChain(fat', files[g]) && Disjoint(files[g], files[f] + t) && Disjoint(files[f] + t, files[g])
    {
      assert all[g] == files[g];
      assert Disjoint(all[g], all[|files|]);
      assert if g < f then Disjoint(all[g], all[f]) else Disjoint(all[f], all[g]);
      ChainKept(fat, fat', files[g]);
    }
    forall g, h | 0 <= g < h < |files'|
      ensures Disjoint(files'[g], files'[h])
    {
      assert all[g] == files[g] && all[h] == files[h];
    }
  }

  lemma StillInRange(f0: seq<Word>, f1: seq<Word>, ls: seq<nat>)
    requires SizeOk(f0) && LinksInRange(f0) && LinkedBack(f0, f1, ls)
    ensures LinksInRange(f1)
  {
    forall c | 0 <= c < |f1| && Continues(Link(f1, c))
      ensures Link(f1, c) < |f1|
    {
      if c in ls {
        var i :| 0 <= i < |ls| && ls[i] == c;
        LinkedLink(f0, f1, ls, i);
        assert i > 0 ==> ls[i - 1] < |f0|;
      } else {
        assert Link(f1, c) == Link(f0, c);
      }
    }
  }

  /** Allocating, walking and freeing agree: the walk lists the `n` lowest free clusters downwards,
      and freeing makes exactly those free again. */
  method AllocateWalkFree(fat: array<Word>, n: nat) returns (list: seq<nat>)
    requires SizeOk(fat[..]) && Link(fat[..], 0) != 0 && Link(fat[..], 1) != 0 && LinksInRange(fat[..])
    requires 0 < n <= |FreeFrom(fat[..], 0)|
    modifies fat
    ensures list == Reverse(FreeFrom(old(fat[..]), 0)[..n])
    ensures forall c :: 0 <= c < fat.Length ==> fat[c] == if c in list then 0 else old(fat[c])
    ensures forall c :: 0 <= c < fat.Length ==> Link(fat[..], c) == Link(old(fat[..]), c)
  {
    hide FreeFrom, LinkedBack, Reachable, LinksInRange, Reverse, MeetsEnd, IsWalk;
    ghost var f0, ls := fat[..], FreeFrom(fat[..], 0)[..n];
    var first := GmFreeClusters(fat, n);
    ghost var f1, t := fat[..], Reverse(ls);
    NewChain(f0, f1, [], n);
    assert ([] + [t])[0] == t && IsChain(f1, t);
    StillInRange(f0, f1, ls);
    ChainIsWalk(f1, t);
    list := GetClusterChain(fat, first, t);
    var stray := FreeClusterChain(fat, first);
    ChainMeetsEnd(f1, t);
    forall c | 0 <= c < fat.Length
      ensures fat[c] == if c in t then 0 else f0[c]
      ensures Link(fat[..], c) == Link(f0, c)
    {
      FreedEntry(f0, f1, n, c);
    }
  }

  lemma FreedEntry(f0: seq<Word>, f1: seq<Word>, n: nat, c: nat)
    requires SizeOk(f0) && 0 < n <= |FreeFrom(f0, 0)| && LinkedBack(f0, f1, FreeFrom(f0, 0)[..n]) && c < |f0|
    requires IsChain(f1, Reverse(FreeFrom(f0, 0)[..n]))
    ensures var t := Reverse(FreeFrom(f0, 0)[..n]);
            && (Reachable(f1, t[0], c) <==> c in t)
            && (c in t ==> Link(f0, c) == 0) && (c !in t ==> f1[c] == f0[c])
  {
    hide FreeFrom, Reverse, Reachable, IsChain, LinkedBack, Link;
    var all := FreeFrom(f0, 0);
    Untouched(f0, f1, all[..n], c);
    ReachesChain(f1, Reverse(all[..n]), c);
    InReverse(all[..n], c);
    FreeFromIs(f0, 0);
    assert c in all[..n] ==> c in all;
  }

  lemma InReverse(s: seq<nat>, c: nat)
    ensures c in Reverse(s) <==> c in s
  {
    hide Reverse;
    var r := Reverse(s);
    if c in s {
      var i :| 0 <= i < |s| && s[i] == c;
      assert r[|s| - 1 - i] == c;
    }
  }

  lemma Untouched(f0: seq<Word>, f1: seq<Word>, ls: seq<nat>, c: nat)
    requires LinkedBack(f0, f1, ls) && c < |f0|
    ensures |f1| == |f0| && (c !in ls ==> f1[c] == f0[c])
  {
  }
}
