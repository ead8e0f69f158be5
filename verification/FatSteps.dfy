// The steps the operations of a volume are made of, on the model
// (vnu/kernel/fs/fat16.cpp).
module FatSteps {
  import opened FatDisk
  import opened FatNames
  import opened FatSlots
  import opened FatStore
  import opened FatRows
  import opened FatModel

  // Slots other than (d, i) are as before, as far as they are visible.
  ghost predicate SlotsKept(s0: Dirs, s1: Dirs, d: nat, i: int) {
    forall e: nat, j :: (e, j) != (d, i) ==>
      (Vis(s0, e, j) <==> Vis(s1, e, j)) && (Vis(s0, e, j) ==> s1[e][j] == s0[e][j])
  }

  // Storage other than that of directory d and of key c is as before.
  ghost predicate DataKept(x0: Data, x1: Data, d: nat, c: nat) {
    forall k :: k in x0 && k != d && k != c ==> k in x1 && x1[k] == x0[k]
  }

  // Directories come and go only under key c.
  ghost predicate DirsKept(s0: Dirs, s1: Dirs, c: nat) {
    (forall k :: k in s0 && k != c ==> k in s1) && (forall k :: k in s1 ==> k in s0 || k == c)
  }

  ghost predicate NotTaken(s0: Dirs, d: nat, i: int, c: nat) {
    forall e: nat, j :: Vis(s0, e, j) && (e, j) != (d, i) && First(s0[e][j]) != 0 ==> First(s0[e][j]) != c
  }

  lemma OthersKept(x0: Data, s0: Dirs, f0: Files, x1: Data, s1: Dirs, d: nat, i: int, c: nat)
    requires Means(x0, s0, f0) && d in s0 && SlotsKept(s0, s1, d, i) && DataKept(x0, x1, d, c)
    requires DirsKept(s0, s1, c) && NotTaken(s0, d, i, c)
    ensures Others(x0, s0, x1, s1, d, i)
  {
    hide Visible, KeyOf, DirsOk, Owned, Unique, Listed, Backed, ZeroSlack;
    forall e: nat, j | (Vis(s0, e, j) || Vis(s1, e, j)) && (e, j) != (d, i)
      ensures SameEntry(x0, s0, x1, s1, e, j)
    {
      assert Vis(s0, e, j) && Vis(s1, e, j) && s1[e][j] == s0[e][j];
      assert EntryOk(x0, s0, s0[e][j]);
    }
  }

  // Storage that belongs to the entry itself, or to nobody.
  lemma OwnOrNew(x0: Data, s0: Dirs, f0: Files, d: nat, i: int, c: nat)
    requires Means(x0, s0, f0) && (c !in x0 || c == 0 || (Vis(s0, d, i) && First(s0[d][i]) == c))
    ensures NotTaken(s0, d, i, c)
  {
    hide Visible, KeyOf, Unique, Listed, Backed, ZeroSlack, DirOk;
    forall e: nat, j | Vis(s0, e, j) && (e, j) != (d, i) && First(s0[e][j]) != 0
      ensures First(s0[e][j]) != c
    {
      assert EntryOk(x0, s0, s0[e][j]);
    }
  }

  // The directories after a step on directory d.
  lemma DirsAfter(x0: Data, s0: Dirs, x1: Data, s1: Dirs, d: nat, c: nat)
    requires DirsOk(x0, s0) && d in s0 && 0 in s1
    requires forall e :: e in s1 && e != d && e != c ==> e in s0 && s1[e] == s0[e] && e in x1 && x1[e] == x0[e]
    requires forall e :: e in s1 && (e == d || e == c) ==> e in x1 && DirOk(x1[e], s1[e]) && NoLabel(s1, e)
    ensures DirsOk(x1, s1)
  {
    hide DirOk;
  }

  ghost predicate NoLabel(s: Dirs, e: nat) {
    e in s && (e != 0 ==> forall i :: 0 <= i < |s[e]| && s[e][i].Group? ==> !IsVolume(s[e][i].short))
  }

  // --- the slot lists ---

  lemma ReplaceSlots(s0: Dirs, d: nat, i: nat, s: Slot)
    requires d in s0 && i < |s0[d]|
    ensures SlotsKept(s0, s0[d := s0[d][i := s]], d, i)
  {
    hide Visible;
  }

  lemma AppendSlots(s0: Dirs, d: nat, s: Slot)
    requires d in s0
    ensures SlotsKept(s0, s0[d := s0[d] + [s]], d, |s0[d]|)
  {
    hide Visible;
  }

  // --- storage with more zeros ---

  lemma SlackGrows(b: Bytes, n: nat, size: nat)
    requires ZeroSlack(b, size)
    ensures ZeroSlack(b + Zeros(n), size) && (b + Zeros(n))[..size] == b[..size]
  {
    var c := b + Zeros(n);
    assert c[size..] == b[size..] + Zeros(n);
  }

  lemma Parts(x: Data, s: Dirs, f: Files)
    requires Means(x, s, f)
    ensures DirsOk(x, s) && Owned(s) && Unique(s)
  {}

  lemma EntryAt(x: Data, s: Dirs, f: Files, d: nat, i: nat)
    requires Means(x, s, f) && Vis(s, d, i)
    ensures EntryOk(x, s, s[d][i]) && KeyOf(d, s[d][i]) in f && f[KeyOf(d, s[d][i])] == NodeOf(x, s[d][i])
  {}

  lemma GroupAt(s: Dirs, d: nat, i: int)
    requires Vis(s, d, i)
    ensures d in s && 0 <= i < |s[d]| && s[d][i].Group? && !IsVolume(s[d][i].short)
  {}

  lemma VisIs(s: Dirs, d: nat, i: int)
    requires d in s && 0 <= i < |s[d]|
    ensures Vis(s, d, i) == Visible(s[d][i])
  {}

  lemma VisGroup(s: Slot)
    requires Visible(s)
    ensures s.Group? && !IsVolume(s.short)
  {}

  lemma SameKeys(s0: Dirs, s1: Dirs, c: nat)
    requires s0.Keys == s1.Keys
    ensures DirsKept(s0, s1, c)
  {}

  lemma NothingMoved(s: Dirs, d: nat, i: int, c: nat)
    ensures SlotsKept(s, s, d, i) && DirsKept(s, s, c)
  {}

  // The chain of a file got longer.
  lemma PadFile(x0: Data, s0: Dirs, f0: Files, x1: Data, d: nat, i: nat)
    requires Means(x0, s0, f0) && Vis(s0, d, i) && !IsDir(s0[d][i].short) && First(s0[d][i]) != 0
    requires Padded(x0, x1, First(s0[d][i]))
    ensures Means(x1, s0, f0)
  {
    hide *;
    GroupAt(s0, d, i);
    var s := s0[d][i];
    var c := First(s);
    PadEntry(x0, s0, f0, x1, d, i);
    Parts(x0, s0, f0);
    EntryAt(x0, s0, f0, d, i);
    NothingMoved(s0, d, i, c);
    PadDirs(x0, s0, x1, c);
    PadKept(x0, x1, d, c);
    OwnOrNew(x0, s0, f0, d, i, c);
    OthersKept(x0, s0, f0, x1, s0, d, i, c);
    KeepName(x0, s0, f0, x1, s0, d, i);
    assert f0[KeyOf(d, s) := NodeOf(x1, s)] == f0;
  }

  lemma PadKept(x0: Data, x1: Data, d: nat, c: nat)
    requires Padded(x0, x1, c)
    ensures DataKept(x0, x1, d, c)
  {}

  // A step on an entry that keeps its name.
  lemma KeepName(x0: Data, s0: Dirs, f0: Files, x1: Data, s1: Dirs, d: nat, i: nat)
    requires Means(x0, s0, f0) && DirsOk(x1, s1) && Others(x0, s0, x1, s1, d, i)
    requires Vis(s0, d, i) && Vis(s1, d, i) && KeyOf(d, s1[d][i]) == KeyOf(d, s0[d][i]) && EntryOk(x1, s1, s1[d][i])
    requires First(s1[d][i]) == First(s0[d][i]) || NotTaken(s0, d, i, First(s1[d][i]))
    ensures Means(x1, s1, f0[KeyOf(d, s1[d][i]) := NodeOf(x1, s1[d][i])])
  {
    hide Visible, KeyOf, DirsOk, Owned, Unique, First, Others, EntryOk, NodeOf, Unshared, NotTaken, Means;
    Parts(x0, s0, f0);
    SelfApart(s0, s1, d, i);
    Step(x0, s0, f0, x1, s1, f0[KeyOf(d, s1[d][i]) := NodeOf(x1, s1[d][i])], d, i);
  }

  lemma PadEntry(x0: Data, s0: Dirs, f0: Files, x1: Data, d: nat, i: nat)
    requires Means(x0, s0, f0) && Vis(s0, d, i) && !IsDir(s0[d][i].short) && First(s0[d][i]) != 0
    requires Padded(x0, x1, First(s0[d][i]))
    ensures EntryOk(x1, s0, s0[d][i]) && NodeOf(x1, s0[d][i]) == NodeOf(x0, s0[d][i]) && First(s0[d][i]) !in s0
  {
    hide DirsOk, Owned, Unique, Listed, Backed, ZeroSlack;
    var s := s0[d][i];
    var c := First(s);
    assert EntryOk(x0, s0, s);
    SlackGrows(x0[c], |x1[c]| - |x0[c]|, SizeOf(s.short));
    SlackFits(x0[c], SizeOf(s.short));
    SlackFits(x1[c], SizeOf(s.short));
  }

  lemma SlackFits(b: Bytes, size: nat)
    requires ZeroSlack(b, size)
    ensures size <= |b|
  {}

  lemma PadDirs(x0: Data, s0: Dirs, x1: Data, c: nat)
    requires DirsOk(x0, s0) && c !in s0 && Padded(x0, x1, c)
    ensures DirsOk(x1, s0)
  {
    hide DirOk;
  }

  // An entry that keeps its name, and its storage or gets new one.
  lemma SelfApart(s0: Dirs, s1: Dirs, d: nat, i: nat)
    requires Vis(s0, d, i) && Vis(s1, d, i) && KeyOf(d, s1[d][i]) == KeyOf(d, s0[d][i]) && Unique(s0) && Owned(s0)
    requires First(s1[d][i]) == First(s0[d][i]) || NotTaken(s0, d, i, First(s1[d][i]))
    ensures Unshared(s0, s1, d, i)
  {
    hide Visible, First;
    forall e: nat, j | Vis(s0, e, j) && (e, j) != (d, i)
      ensures First(s1[d][i]) != 0 ==> First(s0[e][j]) != First(s1[d][i])
      ensures KeyOf(e, s0[e][j]) != KeyOf(d, s1[d][i])
    {
      if KeyOf(e, s0[e][j]) == KeyOf(d, s0[d][i]) {
        KeyDir(e, s0[e][j]);
        KeyDir(d, s0[d][i]);
      }
    }
  }

  // Directory storage changed, its slots did not.
  lemma PadDir(x0: Data, s0: Dirs, f0: Files, x1: Data, d: nat)
    requires Means(x0, s0, f0) && d in s0 && OnlyDir(x0, x1, d) && DirOk(x1[d], s0[d])
    ensures Means(x1, s0, f0)
  {
    hide Visible, KeyOf, DirOk, ZeroSlack, NodeOf, EntryOk;
    var i := |s0[d]|;
    assert !Vis(s0, d, i);
    OwnOrNew(x0, s0, f0, d, i, 0);
    OthersKept(x0, s0, f0, x1, s0, d, i, 0);
    Step(x0, s0, f0, x1, s0, f0, d, i);
  }

  // --- new names ---

  // A slot with a name nobody has, without storage or with new one.
  lemma AddSlot(x0: Data, s0: Dirs, f0: Files, x1: Data, s1: Dirs, d: nat, g: Slot, c: nat)
    requires Means(x0, s0, f0) && d in s0 && Visible(g) && KeyOf(d, g) !in f0 && First(g) == c
    requires c != 0 ==> c !in x0
    requires d in s1 && s1[d] == s0[d] + [g] && SlotsKept(s0, s1, d, |s0[d]|) && DirsKept(s0, s1, c)
    requires DataKept(x0, x1, d, c) && DirsOk(x1, s1) && EntryOk(x1, s1, g)
    ensures Means(x1, s1, f0[KeyOf(d, g) := NodeOf(x1, g)])
  {
    hide Visible, KeyOf, DirOk, ZeroSlack, NodeOf, EntryOk, DirsOk;
    var i := |s0[d]|;
    assert s1[d][i] == g && Vis(s1, d, i) && !Vis(s0, d, i);
    OwnOrNew(x0, s0, f0, d, i, c);
    OthersKept(x0, s0, f0, x1, s1, d, i, c);
    forall e: nat, j | Vis(s0, e, j) && (e, j) != (d, i)
      ensures KeyOf(e, s0[e][j]) != KeyOf(d, g)
    {
      assert KeyOf(e, s0[e][j]) in f0;
    }
    Step(x0, s0, f0, x1, s1, f0[KeyOf(d, g) := NodeOf(x1, g)], d, i);
  }

  // create
  lemma AddFile(x0: Data, s0: Dirs, f0: Files, x1: Data, d: nat, g: Slot)
    requires Means(x0, s0, f0) && d in s0 && Visible(g) && KeyOf(d, g) !in f0
    requires !IsDir(g.short) && First(g) == 0 && SizeOf(g.short) == 0
    requires OnlyDir(x0, x1, d) && DirOk(x1[d], s0[d] + [g])
    ensures Means(x1, s0[d := s0[d] + [g]], f0[KeyOf(d, g) := File([])])
  {
    hide *;
    var s1 := s0[d := s0[d] + [g]];
    VisGroup(g);
    AppendSlots(s0, d, g);
    EmptyEntry(x1, s1, g);
    Parts(x0, s0, f0);
    LabelSnoc(x0, s0, d, g);
    OnlyDirKeeps(x0, s0, x1, d);
    OneDir(x0, s0, x1, d, s0[d] + [g]);
    SameKeys(s0, s1, 0);
    AddSlot(x0, s0, f0, x1, s1, d, g, 0);
  }

  lemma EmptyEntry(x: Data, s: Dirs, g: Slot)
    requires g.Group? && !IsDir(g.short) && First(g) == 0 && SizeOf(g.short) == 0
    ensures EntryOk(x, s, g) && NodeOf(x, g) == File([])
  {}

  lemma LabelSnoc(x: Data, s: Dirs, d: nat, g: Slot)
    requires DirsOk(x, s) && d in s && g.Group? && !IsVolume(g.short)
    ensures NoLabel(s[d := s[d] + [g]], d)
  {
    hide DirOk;
  }

  lemma OnlyDirKeeps(x0: Data, s0: Dirs, x1: Data, d: nat)
    requires DirsOk(x0, s0) && OnlyDir(x0, x1, d)
    ensures d in x1 && DataKept(x0, x1, d, 0) && forall e :: e in s0 && e != d ==> e in x1 && e in x0 && x1[e] == x0[e]
  {
    hide DirOk;
  }

  // Only directory d, with a new list of slots.
  lemma OneDir(x0: Data, s0: Dirs, x1: Data, d: nat, slots: seq<Slot>)
    requires DirsOk(x0, s0) && d in s0 && d in x1 && DirOk(x1[d], slots) && NoLabel(s0[d := slots], d)
    requires forall e :: e in s0 && e != d ==> e in x1 && x1[e] == x0[e]
    ensures DirsOk(x1, s0[d := slots])
  {
    hide DirOk;
    DirsAfter(x0, s0, x1, s0[d := slots], d, d);
  }

  lemma LabelFree(x: Data, s: Dirs, d: nat)
    requires DirsOk(x, s) && d in s
    ensures NoLabel(s, d)
  {
    hide DirOk;
  }

  // --- changed and removed names ---

  // update_entry of a file whose storage may have changed from c0 to c.
  lemma ChangeFile(x0: Data, s0: Dirs, f0: Files, x1: Data, d: nat, i: nat, s: Slot, c0: nat, c: nat)
    requires Means(x0, s0, f0) && Vis(s0, d, i) && !IsDir(s0[d][i].short) && First(s0[d][i]) == c0
    requires Visible(s) && !IsDir(s.short) && KeyOf(d, s) == KeyOf(d, s0[d][i]) && First(s) == c
    requires (c == c0 && c != 0) || (c == 0 && c0 != 0) || (c0 == 0 && c !in x0)
    requires DataKept(x0, x1, d, if c0 == 0 then c else c0)
    requires d in x1 && DirOk(x1[d], s0[d][i := s]) && EntryOk(x1, s0, s)
    ensures Means(x1, s0[d := s0[d][i := s]], f0[KeyOf(d, s) := NodeOf(x1, s)])
  {
    hide *;
    GroupAt(s0, d, i);
    var s1 := s0[d := s0[d][i := s]];
    var k := if c0 == 0 then c else c0;
    VisIs(s1, d, i);
    VisGroup(s);
    ReplaceSlots(s0, d, i, s);
    FileKeys(x0, s0, f0, d, i);
    ChangeDirs(x0, s0, f0, x1, d, i, s, k);
    OwnOrNew(x0, s0, f0, d, i, k);
    assert s1.Keys == s0.Keys;
    SameDirs(x1, s0, s1, s);
    SameKeys(s0, s1, k);
    OthersKept(x0, s0, f0, x1, s1, d, i, k);
    OwnOrNew(x0, s0, f0, d, i, c);
    KeepName(x0, s0, f0, x1, s1, d, i);
  }

  lemma ChangeDirs(x0: Data, s0: Dirs, f0: Files, x1: Data, d: nat, i: nat, s: Slot, k: nat)
    requires Means(x0, s0, f0) && Vis(s0, d, i) && DataKept(x0, x1, d, k) && (k !in s0 || k !in x0)
    requires s.Group? && !IsVolume(s.short)
    requires d in x1 && DirOk(x1[d], s0[d][i := s])
    ensures DirsOk(x1, s0[d := s0[d][i := s]])
  {
    hide Visible, DirOk, Owned, Unique, EntriesOk, Listed, Backed;
    LabelFree(x0, s0, d);
    OneDir(x0, s0, x1, d, s0[d][i := s]);
  }

  lemma FileKeys(x0: Data, s0: Dirs, f0: Files, d: nat, i: nat)
    requires Means(x0, s0, f0) && Vis(s0, d, i) && !IsDir(s0[d][i].short)
    ensures First(s0[d][i]) != 0 ==> First(s0[d][i]) !in s0
  {
    assert EntryOk(x0, s0, s0[d][i]);
  }

  lemma SameDirs(x: Data, s0: Dirs, s1: Dirs, s: Slot)
    requires s0.Keys == s1.Keys && EntryOk(x, s0, s)
    ensures EntryOk(x, s1, s)
  {}

  // unlink and rmdir: the slot dies and its storage c is gone.
  lemma RemoveSlot(x0: Data, s0: Dirs, f0: Files, x1: Data, s1: Dirs, d: nat, i: nat, g: Slot)
    requires Means(x0, s0, f0) && Vis(s0, d, i) && g.Dead? && d in s1 && s1[d] == s0[d][i := g]
    requires SlotsKept(s0, s1, d, i) && DirsKept(s0, s1, First(s0[d][i])) && DataKept(x0, x1, d, First(s0[d][i]))
    requires DirsOk(x1, s1)
    ensures Means(x1, s1, f0 - {KeyOf(d, s0[d][i])})
  {
    hide KeyOf, DirOk, ZeroSlack, NodeOf, EntryOk, DirsOk;
    var c := First(s0[d][i]);
    assert !Vis(s1, d, i);
    OwnOrNew(x0, s0, f0, d, i, c);
    OthersKept(x0, s0, f0, x1, s1, d, i, c);
    Step(x0, s0, f0, x1, s1, f0 - {KeyOf(d, s0[d][i])}, d, i);
  }

  // A slot that dies leaves its directory in order.
  lemma LabelKill(x: Data, s: Dirs, d: nat, i: nat, g: Slot)
    requires DirsOk(x, s) && d in s && i < |s[d]| && g.Dead?
    ensures NoLabel(s[d := s[d][i := g]], d)
  {
    hide DirOk;
  }

  // unlink
  lemma RemoveFile(x0: Data, s0: Dirs, f0: Files, x1: Data, d: nat, i: nat, g: Slot)
    requires Means(x0, s0, f0) && Vis(s0, d, i) && !IsDir(s0[d][i].short) && g.Dead?
    requires First(s0[d][i]) == 0 ==> OnlyDir(x0, x1, d)
    requires First(s0[d][i]) != 0 ==> OnlyDir(x0 - {First(s0[d][i])}, x1, d)
    requires d in x1 && DirOk(x1[d], s0[d][i := g])
    ensures Means(x1, s0[d := s0[d][i := g]], f0 - {KeyOf(d, s0[d][i])})
  {
    hide *;
    GroupAt(s0, d, i);
    var c, s1 := First(s0[d][i]), s0[d := s0[d][i := g]];
    Parts(x0, s0, f0);
    FileKeys(x0, s0, f0, d, i);
    LabelKill(x0, s0, d, i, g);
    WithoutKeeps(x0, s0, x1, d, c);
    OneDir(x0, s0, x1, d, s0[d][i := g]);
    ReplaceSlots(s0, d, i, g);
    SameKeys(s0, s1, c);
    RemoveSlot(x0, s0, f0, x1, s1, d, i, g);
  }

  lemma WithoutKeeps(x0: Data, s0: Dirs, x1: Data, d: nat, c: nat)
    requires DirsOk(x0, s0) && (c == 0 ==> OnlyDir(x0, x1, d)) && (c != 0 ==> OnlyDir(x0 - {c}, x1, d) && c !in s0)
    ensures DataKept(x0, x1, d, c) && forall e :: e in s0 && e != d ==> e in x1 && e in x0 && x1[e] == x0[e]
  {
    hide DirOk;
  }

  // rmdir of a directory without visible entries
  lemma RemoveFolder(x0: Data, s0: Dirs, f0: Files, x1: Data, d: nat, i: nat, g: Slot, c: nat)
    requires Means(x0, s0, f0) && Vis(s0, d, i) && IsDir(s0[d][i].short) && g.Dead?
    requires First(s0[d][i]) == c && c != 0 && c != d && NoneVisible(s0, c)
    requires OnlyDir(x0 - {c}, x1, d) && DirOk(x1[d], s0[d][i := g])
    ensures Means(x1, (s0 - {c})[d := s0[d][i := g]], f0 - {KeyOf(d, s0[d][i])})
  {
    hide *;
    GroupAt(s0, d, i);
    var s1 := (s0 - {c})[d := s0[d][i := g]];
    Parts(x0, s0, f0);
    LabelKill(x0, s0, d, i, g);
    FolderDirs(x0, s0, x1, d, i, g, c);
    KilledSlots(s0, d, i, g, c);
    RemoveSlot(x0, s0, f0, x1, s1, d, i, g);
  }

  lemma FolderDirs(x0: Data, s0: Dirs, x1: Data, d: nat, i: nat, g: Slot, c: nat)
    requires DirsOk(x0, s0) && d in s0 && i < |s0[d]| && c != 0 && c != d && NoLabel(s0[d := s0[d][i := g]], d)
    requires OnlyDir(x0 - {c}, x1, d) && DirOk(x1[d], s0[d][i := g])
    ensures DirsOk(x1, (s0 - {c})[d := s0[d][i := g]]) && DataKept(x0, x1, d, c)
  {
    hide DirOk;
    var s1 := (s0 - {c})[d := s0[d][i := g]];
    DirsAfter(x0, s0, x1, s1, d, d);
  }

  lemma KilledSlots(s0: Dirs, d: nat, i: nat, g: Slot, c: nat)
    requires d in s0 && i < |s0[d]| && c != d && NoneVisible(s0, c)
    ensures var s1 := (s0 - {c})[d := s0[d][i := g]]; SlotsKept(s0, s1, d, i) && DirsKept(s0, s1, c)
  {
    hide Visible;
    var s1 := (s0 - {c})[d := s0[d][i := g]];
    forall e: nat, j | (e, j) != (d, i)
      ensures (Vis(s0, e, j) <==> Vis(s1, e, j)) && (Vis(s0, e, j) ==> s1[e][j] == s0[e][j])
    {
    }
  }

  // mkdir
  lemma AddFolder(x0: Data, s0: Dirs, f0: Files, x1: Data, d: nat, g: Slot, c: nat, dots: seq<Slot>)
    requires NewFolder(x0, s0, x1, d, g, c, dots) && KeyOf(d, g) !in f0 && Means(x0, s0, f0)
    ensures Means(x1, WithFolder(s0, d, g, c, dots), f0[KeyOf(d, g) := Folder(c)])
  {
    hide DirOk, Visible, Means, DataKept, First, IsDir, KeyOf, NodeOf, EntryOk, DirsOk, SlotsKept, DirsKept, OnlyDots,
         NoLabel, Owned, Unique, IsVolume;
    var s1 := s0[d := s0[d] + [g]][c := dots];
    VisGroup(g);
    Parts(x0, s0, f0);
    LabelSnoc(x0, s0, d, g);
    NewDirs(x0, s0, x1, d, g, c, dots);
    FolderEntry(x1, s1, g, c);
    AddSlot(x0, s0, f0, x1, s1, d, g, c);
  }

  ghost function WithFolder(s0: Dirs, d: nat, g: Slot, c: nat, dots: seq<Slot>): Dirs {
    if d in s0 then s0[d := s0[d] + [g]][c := dots] else s0
  }

  // A directory c of its own, with nothing but dots, behind the new slot g.
  ghost predicate NewFolder(x0: Data, s0: Dirs, x1: Data, d: nat, g: Slot, c: nat, dots: seq<Slot>) {
    && d in s0 && Visible(g) && IsDir(g.short) && First(g) == c
    && c != 0 && c !in x0 && c in x1 && DataKept(x0, x1, d, c)
    && d in x1 && DirOk(x1[d], s0[d] + [g]) && DirOk(x1[c], dots) && OnlyDots(dots)
  }

  ghost predicate OnlyDots(dots: seq<Slot>) {
    forall j :: 0 <= j < |dots| ==> dots[j].Group? && !Visible(dots[j]) && !IsVolume(dots[j].short)
  }

  ghost predicate NoneVisible(s: Dirs, c: nat) {
    forall j :: !Vis(s, c, j)
  }

  lemma FolderEntry(x: Data, s: Dirs, g: Slot, c: nat)
    requires g.Group? && IsDir(g.short) && First(g) == c && c in s && c != 0
    ensures EntryOk(x, s, g) && NodeOf(x, g) == Folder(c)
  {}

  lemma NewDirs(x0: Data, s0: Dirs, x1: Data, d: nat, g: Slot, c: nat, dots: seq<Slot>)
    requires DirsOk(x0, s0) && d in s0 && c != 0 && c !in x0 && c in x1 && DataKept(x0, x1, d, c)
    requires d in x1 && DirOk(x1[d], s0[d] + [g]) && DirOk(x1[c], dots) && NoLabel(s0[d := s0[d] + [g]], d)
    requires OnlyDots(dots)
    ensures c !in s0 && c != d
    ensures var s1 := s0[d := s0[d] + [g]][c := dots];
            DirsOk(x1, s1) && SlotsKept(s0, s1, d, |s0[d]|) && DirsKept(s0, s1, c)
  {
    hide DirOk, Visible;
    assert c !in s0;
    var s1 := s0[d := s0[d] + [g]][c := dots];
    DirsAfter(x0, s0, x1, s1, d, c);
    forall e: nat, j | (e, j) != (d, |s0[d]|)
      ensures (Vis(s0, e, j) <==> Vis(s1, e, j)) && (Vis(s0, e, j) ==> s1[e][j] == s0[e][j])
    {
    }
  }
}
