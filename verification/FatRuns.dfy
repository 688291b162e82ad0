/** Whole runs of creating, extending and deleting files on the allocation table. */
module FatRuns {
  import opened Machine
  import opened Fat

  /** The table, and the cluster chains of the files on it. */
  datatype Volume = Volume(fat: seq<Word>, files: seq<seq<nat>>) {
    ghost predicate Ok() {
      VolumeOk(fat, files)
    }
  }

  /** Files are named by their first cluster. */
  datatype Op =
    | Create(n: nat)
    | Extend(first: nat, n: nat)
    | Delete(first: nat)

  /** The `n` clusters an allocation takes. */
  function Lowest(fat: seq<Word>, n: nat): seq<nat>
    requires n <= |FreeFrom(fat, 0)|
  {
    FreeFrom(fat, 0)[..n]
  }

  ghost predicate Created(s: Volume, s': Volume, n: nat) {
    && 0 < n <= |FreeFrom(s.fat, 0)| && LinkedBack(s.fat, s'.fat, Lowest(s.fat, n))
    && s'.files == s.files + [Reverse(Lowest(s.fat, n))]
  }

  ghost predicate ExtendedAt(s: Volume, s': Volume, f: nat, n: nat) {
    && f < |s.files| && |s.files[f]| > 0 && 0 < n <= |FreeFrom(s.fat, 0)|
    && Extended(s.fat, s'.fat, Lowest(s.fat, n), s.files[f][|s.files[f]| - 1])
    && s'.files == s.files[f := s.files[f] + Reverse(Lowest(s.fat, n))]
  }

  ghost predicate DeletedAt(s: Volume, s': Volume, f: nat) {
    f < |s.files| && Zeroed(s.fat, s'.fat, s.files[f]) && s'.files == Without(s.files, f)
  }

  ghost predicate Heads(s: Volume, f: nat, first: nat) {
    f < |s.files| && |s.files[f]| > 0 && s.files[f][0] == first
  }

  /** Every entry of the table and every chain after the call. */
  ghost predicate Step(s: Volume, op: Op, s': Volume) {
    match op
    case Create(n) => Created(s, s', n)
    case Extend(first, n) => exists f: nat :: Heads(s, f, first) && ExtendedAt(s, s', f, n)
    case Delete(first) => exists f: nat :: Heads(s, f, first) && DeletedAt(s, s', f)
  }

  /** Some file holds cluster `c`. */
  ghost predicate Held(files: seq<seq<nat>>, c: nat) {
    exists f :: 0 <= f < |files| && c in files[f]
  }

  ghost predicate IsFree(fat: seq<Word>, c: nat) {
    c < |fat| && Link(fat, c) == 0
  }

  /** Cluster `c` is free or in a file: the driver can use it, or get it back. */
  ghost predicate Usable(s: Volume, c: nat) {
    IsFree(s.fat, c) || Held(s.files, c)
  }

  /** What a call keeps. */
  ghost predicate Kept(s: Volume, s': Volume) {
    s'.Ok() && |s'.fat| == |s.fat| && forall c: nat :: Usable(s', c) <==> Usable(s, c)
  }

  /** No cluster is both free and in a file. */
  lemma FreeOrHeld(s: Volume, c: nat)
    requires s.Ok() && Held(s.files, c)
    ensures !IsFree(s.fat, c)
  {
    var f :| 0 <= f < |s.files| && c in s.files[f];
    var i :| 0 <= i < |s.files[f]| && s.files[f][i] == c;
    InUse(s.fat, s.files[f], i);
  }

  // ---------------------------------------------------------------- one call

  lemma LinkedFree(fat: seq<Word>, fat': seq<Word>, n: nat, c: nat)
    requires SizeOk(fat) && Link(fat, 0) != 0 && n <= |FreeFrom(fat, 0)| && LinkedBack(fat, fat', Lowest(fat, n))
    ensures IsFree(fat', c) <==> IsFree(fat, c) && c !in Lowest(fat, n)
    ensures c in Lowest(fat, n) ==> IsFree(fat, c)
  {
    hide LinkedBack, FreeFrom, Link;
    var ls := Lowest(fat, n);
    LinkedLength(fat, fat', ls);
    PrefixFree(fat, n, c);
    if c in ls {
      var i :| 0 <= i < |ls| && ls[i] == c;
      LinkedLink(fat, fat', ls, i);
      LinkedNonzero(fat, n, i);
    } else if c < |fat| {
      Untouched(fat, fat', ls, c);
      SameLink(fat, fat', c);
    }
  }

  /** A linked cluster points to a cluster other than 0, or to the end mark. */
  lemma LinkedNonzero(fat: seq<Word>, n: nat, i: nat)
    requires |fat| > 0 && Link(fat, 0) != 0 && n <= |FreeFrom(fat, 0)| && i < n
    ensures Before(Lowest(fat, n), i) != 0
  {
    PrefixFree(fat, n, 0);
    assert i > 0 ==> Lowest(fat, n)[i - 1] in Lowest(fat, n);
  }

  lemma HeldAppend(files: seq<seq<nat>>, t: seq<nat>, c: nat)
    ensures Held(files + [t], c) <==> Held(files, c) || c in t
  {
    var all := files + [t];
    if c in t {
      assert c in all[|files|];
    }
    if f :| 0 <= f < |files| && c in files[f] {
      assert c in all[f];
    }
  }

  lemma HeldUpdate(files: seq<seq<nat>>, f: nat, t: seq<nat>, c: nat)
    requires f < |files|
    ensures Held(files[f := files[f] + t], c) <==> Held(files, c) || c in t
  {
    var all := files[f := files[f] + t];
    if c in t {
      assert c in all[f];
    }
    if g :| 0 <= g < |files| && c in files[g] {
      assert c in all[g];
    }
  }

  lemma HeldWithout(fat: seq<Word>, files: seq<seq<nat>>, f: nat, c: nat)
    requires Forest(fat, files) && f < |files|
    ensures Held(Without(files, f), c) <==> Held(files, c) && c !in files[f]
  {
    var rest := Without(files, f);
    if g :| 0 <= g < |files| && c in files[g] {
      if g != f {
        OthersDisjoint(fat, files, f, g);
        assert c in rest[if g < f then g else g - 1];
      }
    }
    if g :| 0 <= g < |rest| && c in rest[g] {
      var g' := if g < f then g else g + 1;
      assert rest[g] == files[g'];
      OthersDisjoint(fat, files, f, g');
    }
  }

  lemma CreateKeeps(s: Volume, s': Volume, n: nat)
    requires s.Ok() && Created(s, s', n)
    ensures Kept(s, s')
  {
    hide LinkedBack, FreeFrom, Reverse, VolumeOk, Held, IsFree;
    LinkedVolume(s.fat, s'.fat, s.files, n);
    LinkedLength(s.fat, s'.fat, Lowest(s.fat, n));
    SizeKnown(s);
    forall c: nat
      ensures Usable(s', c) <==> Usable(s, c)
    {
      LinkedFree(s.fat, s'.fat, n, c);
      HeldAppend(s.files, Reverse(Lowest(s.fat, n)), c);
      InReverse(Lowest(s.fat, n), c);
    }
  }

  lemma SizeKnown(s: Volume)
    requires s.Ok()
    ensures SizeOk(s.fat) && Forest(s.fat, s.files) && Link(s.fat, 0) != 0
  {
  }

  lemma ExtendKeeps(s: Volume, s': Volume, f: nat, n: nat)
    requires s.Ok() && ExtendedAt(s, s', f, n)
    ensures Kept(s, s')
  {
    hide LinkedBack, FreeFrom, Reverse, VolumeOk, Held, IsFree;
    ExtendVolume(s.fat, s'.fat, s.files, f, n);
    SizeKnown(s);
    var ls, last := Lowest(s.fat, n), s.files[f][|s.files[f]| - 1];
    var f1 := s'.fat[last := s.fat[last]];
    forall c: nat
      ensures Usable(s', c) <==> Usable(s, c)
    {
      LinkedFree(s.fat, f1, n, c);
      RelinkFree(s, s', f, n, c);
      HeldUpdate(s.files, f, Reverse(ls), c);
      InReverse(ls, c);
    }
  }

  /** Turning the last link of a file frees nothing and takes nothing. */
  lemma RelinkFree(s: Volume, s': Volume, f: nat, n: nat, c: nat)
    requires s.Ok() && ExtendedAt(s, s', f, n)
    ensures var last := s.files[f][|s.files[f]| - 1];
            last < |s.fat| == |s'.fat| && (IsFree(s'.fat, c) <==> IsFree(s'.fat[last := s.fat[last]], c))
  {
    hide LinkedBack, FreeFrom;
    var ls, file := Lowest(s.fat, n), s.files[f];
    var last := file[|file| - 1];
    InUse(s.fat, file, |file| - 1);
    PrefixFree(s.fat, n, ls[n - 1]);
    PrefixFree(s.fat, n, 0);
    assert ls[n - 1] in ls;
    assert s'.fat[last] == ls[n - 1] != 0;
  }

  lemma DeleteKeeps(s: Volume, s': Volume, f: nat)
    requires s.Ok() && DeletedAt(s, s', f)
    ensures Kept(s, s')
  {
    hide VolumeOk, Held, Without;
    ZeroedVolume(s.fat, s'.fat, s.files, f);
    SizeKnown(s);
    forall c: nat
      ensures Usable(s', c) <==> Usable(s, c)
    {
      HeldWithout(s.fat, s.files, f, c);
      FileClusters(s, f, c);
    }
  }

  lemma FileClusters(s: Volume, f: nat, c: nat)
    requires s.Ok() && f < |s.files|
    ensures c in s.files[f] ==> c < |s.fat| && Held(s.files, c)
  {
  }

  lemma StepKeeps(s: Volume, op: Op, s': Volume)
    requires s.Ok() && Step(s, op, s')
    ensures Kept(s, s')
  {
    match op
    case Create(n) => CreateKeeps(s, s', n);
    case Extend(first, n) =>
      var f: nat :| Heads(s, f, first) && ExtendedAt(s, s', f, n);
      ExtendKeeps(s, s', f, n);
    case Delete(first) =>
      var f: nat :| Heads(s, f, first) && DeletedAt(s, s', f);
      DeleteKeeps(s, s', f);
  }

  // ---------------------------------------------------------------- runs

  /** The volumes before, between and after the calls. */
  ghost predicate IsRun(vs: seq<Volume>, ops: seq<Op>) {
    |vs| == |ops| + 1 && vs[0].Ok() && forall i :: 0 <= i < |ops| ==> Step(vs[i], ops[i], vs[i + 1])
  }

  /** Over every run the chains stay acyclic, end-terminated, disjoint and in range, and no cluster is lost
      or conjured up: what was free or in a file at the start is free or in a file at the end. */
  lemma {:induction false} RunsKeepVolume(vs: seq<Volume>, ops: seq<Op>, i: nat)
    requires IsRun(vs, ops) && i < |vs|
    ensures vs[i].Ok() && |vs[i].fat| == |vs[0].fat|
    ensures forall c: nat :: Usable(vs[i], c) <==> Usable(vs[0], c)
    decreases i
  {
    if i > 0 {
      RunsKeepVolume(vs, ops, i - 1);
      assert Step(vs[i - 1], ops[i - 1], vs[i - 1 + 1]);
      StepKeeps(vs[i - 1], ops[i - 1], vs[i]);
    }
  }

  /** The call does not name the file that starts at `first`. */
  predicate Leaves(op: Op, first: nat) {
    match op
    case Create(n) => true
    case Extend(g, n) => g != first
    case Delete(g) => g != first
  }

  lemma StepLeaves(s: Volume, op: Op, s': Volume, t: seq<nat>)
    requires Step(s, op, s') && t in s.files && |t| > 0 && Leaves(op, t[0])
    ensures t in s'.files
  {
    var g :| 0 <= g < |s.files| && s.files[g] == t;
    match op
    case Create(n) =>
      assert s'.files[g] == t;
    case Extend(first, n) =>
      assert s'.files[g] == t;
    case Delete(first) =>
      var f: nat :| Heads(s, f, first) && DeletedAt(s, s', f);
      assert s'.files[if g < f then g else g - 1] == t;
  }

  /** A file that no call names lists the same clusters at the end of the run. */
  lemma {:induction false} OtherFilesStay(vs: seq<Volume>, ops: seq<Op>, i: nat, t: seq<nat>)
    requires IsRun(vs, ops) && i < |vs| && t in vs[0].files && |t| > 0
    requires forall k :: 0 <= k < i ==> Leaves(ops[k], t[0])
    ensures t in vs[i].files && IsChain(vs[i].fat, t)
    decreases i
  {
    RunsKeepVolume(vs, ops, i);
    if i > 0 {
      OtherFilesStay(vs, ops, i - 1, t);
      assert Step(vs[i - 1], ops[i - 1], vs[i - 1 + 1]);
      StepLeaves(vs[i - 1], ops[i - 1], vs[i], t);
    }
  }

  /** The call can be made: the file exists and there are enough free clusters. */
  ghost predicate Legal(s: Volume, op: Op) {
    match op
    case Create(n) => 0 < n <= |FreeFrom(s.fat, 0)|
    case Extend(first, n) => (exists f: nat :: Heads(s, f, first)) && 0 < n <= |FreeFrom(s.fat, 0)|
    case Delete(first) => exists f: nat :: Heads(s, f, first)
  }

  /** One call on the table in memory takes such a step. */
  method Do(fat: array<Word>, op: Op, ghost s: Volume) returns (ghost s': Volume)
    requires s.Ok() && fat[..] == s.fat && Legal(s, op)
    modifies fat
    ensures s'.Ok() && fat[..] == s'.fat && Step(s, op, s')
  {
    hide VolumeOk, LinkedBack, FreeFrom, Reverse, Zeroed, Extended, Without;
    match op {
      case Create(n) =>
        var first := CreateFile(fat, n, s.files);
        s' := Volume(fat[..], s.files + [Reverse(Lowest(s.fat, n))]);
      case Extend(first, n) =>
        ghost var f: nat :| Heads(s, f, first);
        ExtendFile(fat, first, n, s.files, f);
        s' := Volume(fat[..], s.files[f := s.files[f] + Reverse(Lowest(s.fat, n))]);
        assert Heads(s, f, first) && ExtendedAt(s, s', f, n);
      case Delete(first) =>
        ghost var f: nat :| Heads(s, f, first);
        DeleteFile(fat, s.files, f, first);
        s' := Volume(fat[..], Without(s.files, f));
        assert Heads(s, f, first) && DeletedAt(s, s', f);
    }
  }

  /** Whatever the calls before it did, the next call can be made. */
  ghost predicate LegalRun(s: Volume, ops: seq<Op>) {
    forall vs: seq<Volume> :: 0 < |vs| <= |ops| && vs[0] == s && IsRun(vs, ops[..|vs| - 1]) ==>
      Legal(vs[|vs| - 1], ops[|vs| - 1])
  }

  /** Every legal sequence of calls on the table in memory is such a run. */
  method Execute(fat: array<Word>, ops: seq<Op>, ghost s: Volume) returns (ghost vs: seq<Volume>)
    requires s.Ok() && fat[..] == s.fat && LegalRun(s, ops)
    modifies fat
    ensures IsRun(vs, ops) && vs[0] == s && vs[|ops|].fat == fat[..]
  {
    hide VolumeOk, Step, Legal;
    vs := [s];
    for k := 0 to |ops|
      invariant |vs| == k + 1 && vs[0] == s && vs[k].Ok() && vs[k].fat == fat[..]
      invariant IsRun(vs, ops[..k])
    {
      ghost var s' := Do(fat, ops[k], vs[k]);
      RunNext(vs, ops, k, s');
      vs := vs + [s'];
    }
    assert ops[..|ops|] == ops;
  }

  lemma RunNext(vs: seq<Volume>, ops: seq<Op>, k: nat, s': Volume)
    requires k < |ops| && |vs| == k + 1 && IsRun(vs, ops[..k]) && Step(vs[k], ops[k], s')
    ensures IsRun(vs + [s'], ops[..k + 1])
  {
    hide Step;
    var vs', os := vs + [s'], ops[..k + 1];
    forall i | 0 <= i < |os|
      ensures Step(vs'[i], os[i], vs'[i + 1])
    {
      if i < k {
        assert os[i] == ops[..k][i] && vs'[i + 1] == vs[i + 1];
      }
    }
  }
}
