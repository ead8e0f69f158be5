// What a volume means: a map from (directory, name) to bytes or a directory,
// names up to case, and what ties it to the directories and the storage
// (vnu/kernel/fs/fat16.cpp).
module FatModel {
  import opened FatDisk
  import opened FatNames
  import opened FatSlots
  import opened FatStore
  import opened FatEntry

  type Key = (nat, Bytes)
  datatype Node = File(bytes: Bytes) | Folder(id: nat)
  type Files = map<Key, Node>
  type Dirs = map<nat, seq<Slot>>

  predicate IsDots(name: Bytes) {
    name == [DOT] || name == [DOT, DOT]
  }

  ghost predicate Visible(s: Slot) {
    s.Group? && !IsVolume(s.short) && !IsDots(NameOf(s))
  }

  ghost predicate Vis(dirs: Dirs, d: nat, i: int) {
    d in dirs && 0 <= i < |dirs[d]| && Visible(dirs[d][i])
  }

  // --- one entry ---

  ghost function First(s: Slot): nat {
    if s.Group? then ClusterOfRow(s.short) else 0
  }

  // Past the size of a file its chain is zero.
  ghost predicate ZeroSlack(b: Bytes, size: nat) {
    size <= |b| && b[size..] == Zeros(|b| - size)
  }

  ghost predicate EntryOk(data: Data, dirs: Dirs, s: Slot) {
    if s.Dead? then true
    else if IsDir(s.short) then First(s) in dirs && First(s) != 0
    else if First(s) == 0 then SizeOf(s.short) == 0
    else First(s) in data && First(s) !in dirs && ZeroSlack(data[First(s)], SizeOf(s.short))
  }

  ghost function NodeOf(data: Data, s: Slot): Node {
    if s.Dead? then File([])
    else if IsDir(s.short) then Folder(First(s))
    else if First(s) in data && First(s) != 0 && SizeOf(s.short) <= |data[First(s)]| then
      File(data[First(s)][..SizeOf(s.short)])
    else File([])
  }

  ghost function KeyOf(d: nat, s: Slot): Key {
    (d, if s.Group? then Fold(NameOf(s)) else [])
  }

  // --- the whole volume ---

  ghost predicate DirsOk(data: Data, dirs: Dirs) {
    && 0 in dirs
    && (forall d :: d in dirs ==> d in data && DirOk(data[d], dirs[d]))
    && (forall d: nat, i ::
          d in dirs && d != 0 && 0 <= i < |dirs[d]| && dirs[d][i].Group? ==> !IsVolume(dirs[d][i].short))
  }

  ghost predicate EntriesOk(data: Data, dirs: Dirs) {
    forall d: nat, i :: Vis(dirs, d, i) ==> EntryOk(data, dirs, dirs[d][i])
  }

  // No two entries share storage.
  ghost predicate Owned(dirs: Dirs) {
    forall d: nat, i, e: nat, j ::
      Vis(dirs, d, i) && Vis(dirs, e, j) && First(dirs[d][i]) != 0 && First(dirs[d][i]) == First(dirs[e][j]) ==>
      d == e && i == j
  }

  // No two names of a directory are the same up to case.
  ghost predicate Unique(dirs: Dirs) {
    forall d: nat, i, j :: Vis(dirs, d, i) && Vis(dirs, d, j) && KeyOf(d, dirs[d][i]) == KeyOf(d, dirs[d][j]) ==> i == j
  }

  ghost predicate Listed(data: Data, dirs: Dirs, files: Files) {
    forall d: nat, i :: Vis(dirs, d, i) ==>
      (KeyOf(d, dirs[d][i]) in files && files[KeyOf(d, dirs[d][i])] == NodeOf(data, dirs[d][i]))
  }

  ghost predicate Holding(dirs: Dirs, k: Key, i: int) {
    Vis(dirs, k.0, i) && KeyOf(k.0, dirs[k.0][i]) == k
  }

  ghost predicate Backed(dirs: Dirs, files: Files) {
    forall k :: k in files ==> exists i :: Holding(dirs, k, i)
  }

  ghost predicate Means(data: Data, dirs: Dirs, files: Files) {
    && DirsOk(data, dirs) && EntriesOk(data, dirs) && Owned(dirs) && Unique(dirs)
    && Listed(data, dirs, files) && Backed(dirs, files)
  }

  // --- one step ---

  // Slot (e, j) and what it stands for are as before.
  ghost predicate SameEntry(x0: Data, s0: Dirs, x1: Data, s1: Dirs, e: nat, j: int) {
    && Vis(s0, e, j) && Vis(s1, e, j) && s1[e][j] == s0[e][j]
    && EntryOk(x1, s1, s1[e][j]) && NodeOf(x1, s1[e][j]) == NodeOf(x0, s0[e][j])
  }

  ghost predicate Others(x0: Data, s0: Dirs, x1: Data, s1: Dirs, d: nat, i: int) {
    forall e: nat, j :: (Vis(s0, e, j) || Vis(s1, e, j)) && (e, j) != (d, i) ==> SameEntry(x0, s0, x1, s1, e, j)
  }

  // The new entry takes no storage and no name that others have.
  ghost predicate Unshared(s0: Dirs, s1: Dirs, d: nat, i: int)
    requires Vis(s1, d, i)
  {
    forall e: nat, j :: Vis(s0, e, j) && (e, j) != (d, i) ==>
      && (First(s1[d][i]) != 0 ==> First(s0[e][j]) != First(s1[d][i]))
      && KeyOf(e, s0[e][j]) != KeyOf(d, s1[d][i])
  }

  // What slot (d, i) did to the map.
  ghost predicate MapStep(s0: Dirs, x1: Data, s1: Dirs, f0: Files, f1: Files, d: nat, i: int) {
    if Vis(s1, d, i) then
      && Unshared(s0, s1, d, i)
      && (Vis(s0, d, i) ==> KeyOf(d, s0[d][i]) == KeyOf(d, s1[d][i]))
      && f1 == f0[KeyOf(d, s1[d][i]) := NodeOf(x1, s1[d][i])]
    else if Vis(s0, d, i) then f1 == f0 - {KeyOf(d, s0[d][i])}
    else f1 == f0
  }

  // The invariant after a step that touches one entry.
  lemma Step(x0: Data, s0: Dirs, f0: Files, x1: Data, s1: Dirs, f1: Files, d: nat, i: int)
    requires Means(x0, s0, f0) && DirsOk(x1, s1) && Others(x0, s0, x1, s1, d, i)
    requires Vis(s1, d, i) ==> EntryOk(x1, s1, s1[d][i])
    requires MapStep(s0, x1, s1, f0, f1, d, i)
    ensures Means(x1, s1, f1)
  {
    hide DirsOk, EntriesOk, Owned, Unique, Listed, Backed, Others, MapStep, EntryOk, Vis;
    StepEntries(x0, s0, x1, s1, d, i);
    StepOwned(x0, s0, x1, s1, f0, f1, d, i);
    StepUnique(x0, s0, x1, s1, f0, f1, d, i);
    StepListed(x0, s0, x1, s1, f0, f1, d, i);
    StepBacked(x0, s0, x1, s1, f0, f1, d, i);
  }

  lemma StepEntries(x0: Data, s0: Dirs, x1: Data, s1: Dirs, d: nat, i: int)
    requires Others(x0, s0, x1, s1, d, i) && (Vis(s1, d, i) ==> EntryOk(x1, s1, s1[d][i]))
    ensures EntriesOk(x1, s1)
  {
    hide EntryOk, NodeOf, KeyOf, First, Visible;
    forall e: nat, j | Vis(s1, e, j)
      ensures EntryOk(x1, s1, s1[e][j])
    {
      if (e, j) != (d, i) { assert SameEntry(x0, s0, x1, s1, e, j); }
    }
  }

  lemma StepOwned(x0: Data, s0: Dirs, x1: Data, s1: Dirs, f0: Files, f1: Files, d: nat, i: int)
    requires Owned(s0) && Others(x0, s0, x1, s1, d, i) && MapStep(s0, x1, s1, f0, f1, d, i)
    ensures Owned(s1)
  {
    hide EntryOk, NodeOf, KeyOf, First, Visible;
    forall a: nat, m, e: nat, j |
      Vis(s1, a, m) && Vis(s1, e, j) && First(s1[a][m]) != 0 && First(s1[a][m]) == First(s1[e][j])
      ensures a == e && m == j
    {
      if (a, m) != (d, i) { assert SameEntry(x0, s0, x1, s1, a, m); }
      if (e, j) != (d, i) { assert SameEntry(x0, s0, x1, s1, e, j); }
    }
  }

  lemma StepUnique(x0: Data, s0: Dirs, x1: Data, s1: Dirs, f0: Files, f1: Files, d: nat, i: int)
    requires Unique(s0) && Others(x0, s0, x1, s1, d, i) && MapStep(s0, x1, s1, f0, f1, d, i)
    ensures Unique(s1)
  {
    hide EntryOk, NodeOf, KeyOf, First, Visible;
    forall e: nat, m, j | Vis(s1, e, m) && Vis(s1, e, j) && KeyOf(e, s1[e][m]) == KeyOf(e, s1[e][j])
      ensures m == j
    {
      if (e, m) != (d, i) { assert SameEntry(x0, s0, x1, s1, e, m); }
      if (e, j) != (d, i) { assert SameEntry(x0, s0, x1, s1, e, j); }
    }
  }

  lemma KeyDir(d: nat, s: Slot)
    ensures KeyOf(d, s).0 == d
  {}

  lemma StepListed(x0: Data, s0: Dirs, x1: Data, s1: Dirs, f0: Files, f1: Files, d: nat, i: int)
    requires Listed(x0, s0, f0) && Unique(s0) && Others(x0, s0, x1, s1, d, i) && MapStep(s0, x1, s1, f0, f1, d, i)
    ensures Listed(x1, s1, f1)
  {
    hide EntryOk, NodeOf, KeyOf, First, Visible;
    forall e: nat, j | Vis(s1, e, j)
      ensures KeyOf(e, s1[e][j]) in f1 && f1[KeyOf(e, s1[e][j])] == NodeOf(x1, s1[e][j])
    {
      if (e, j) != (d, i) {
        assert SameEntry(x0, s0, x1, s1, e, j);
        if Vis(s0, d, i) && !Vis(s1, d, i) {
          KeyDir(e, s0[e][j]);
          KeyDir(d, s0[d][i]);
        }
      }
    }
  }

  lemma StepBacked(x0: Data, s0: Dirs, x1: Data, s1: Dirs, f0: Files, f1: Files, d: nat, i: int)
    requires Backed(s0, f0) && Others(x0, s0, x1, s1, d, i) && MapStep(s0, x1, s1, f0, f1, d, i)
    ensures Backed(s1, f1)
  {
    hide EntryOk, NodeOf, First, Visible, KeyOf;
    forall k | k in f1
      ensures exists j :: Holding(s1, k, j)
    {
      if Vis(s1, d, i) && k == KeyOf(d, s1[d][i]) {
        KeyDir(d, s1[d][i]);
        assert Holding(s1, k, i);
      } else {
        assert k in f0;
        var j :| Holding(s0, k, j);
        assert (k.0, j) != (d, i);
        assert SameEntry(x0, s0, x1, s1, k.0, j);
        assert Holding(s1, k, j);
      }
    }
  }

  // --- looking a name up ---

  // The names the operations take: 1 to 255 bytes, not ending in a dot.
  ghost predicate GoodName(name: Bytes) {
    0 < |name| <= 255 && NulFree(name) && name[|name| - 1] != DOT
  }

  lemma FoldLast(a: Bytes, b: Bytes)
    requires Fold(a) == Fold(b) && a != []
    ensures |a| == |b| && (a[|a| - 1] == DOT <==> b[|b| - 1] == DOT)
  {
    assert Fold(a)[|a| - 1] == Fold(b)[|a| - 1];
  }

  // find_entry agrees with the map.
  lemma NamedIs(data: Data, dirs: Dirs, files: Files, d: nat, name: Bytes, j: nat)
    requires Means(data, dirs, files) && d in dirs && GoodName(name) && NamedAt(dirs[d], j, name)
    ensures Holding(dirs, (d, Fold(name)), j) && (d, Fold(name)) in files
    ensures files[(d, Fold(name))] == NodeOf(data, dirs[d][j])
    ensures EntryOk(data, dirs, dirs[d][j])
  {
    hide EntryOk, NodeOf, Fold, NameOf, DirsOk, Owned, Unique;
    var s := dirs[d][j];
    FoldLast(name, NameOf(s));
    assert Vis(dirs, d, j);
    assert KeyOf(d, s) == (d, Fold(name));
  }

  lemma NotNamed(data: Data, dirs: Dirs, files: Files, d: nat, name: Bytes)
    requires Means(data, dirs, files) && d in dirs && forall k :: !NamedAt(dirs[d], k, name)
    ensures (d, Fold(name)) !in files
  {
    hide EntryOk, NodeOf, Fold, NameOf, DirsOk, Owned, Unique;
    var k := (d, Fold(name));
    assert forall i :: Holding(dirs, k, i) ==> NamedAt(dirs[d], i, name);
  }
}
