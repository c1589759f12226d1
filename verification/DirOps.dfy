/**
 * Directory operations on a volume.
 */
module DirOps {
  import opened Basics
  import opened LittleEndian
  import opened BlockCacheLayer
  import opened BitmapLayer
  import opened Layout
  import opened FileData
  import opened DiskInodeOps
  import opened Mfs
  import opened FsState
  import opened Vfs
  import opened Format
  import opened Directory

  /** A volume whose inodes form a directory tree. */
  ghost predicate VolumeInv(d: Disk, g: Geometry) {
    FsInv(d, g) && TreeInv(Files(d, g))
  }

  lemma VolumeFacts(d: Disk, g: Geometry, k: nat)
    requires VolumeInv(d, g) && k in Live(d, g)
    ensures Sized(d, g) && k in Files(d, g)
    ensures var ino := InodeOf(d, g, k);
            && ino.size <= MAX_SIZE && OnDisk(d, ino, DataBlocks(ino.size))
            && Files(d, g)[k] == Node(ino.kind, Content(d, ino))
    ensures DirOk(Files(d, g), k)
  {
    hide Owned, NoDup, TailZero, InodeOf, TreeInv, Content;
    var ino := InodeOf(d, g, k);
    assert FileOk(d, g, ino);
    BlockCountBound(ino.size);
    assert FileBlocks(d, ino) == Owned(d, ino, DataBlocks(ino.size));
    assert DirOk(Files(d, g), k) by { AllDirsOk(Files(d, g), k); }
  }

  lemma FilesKeys(d: Disk, g: Geometry)
    requires FsInv(d, g)
    ensures Sized(d, g) && Files(d, g).Keys == Live(d, g) && Owners(d, g).Keys == Live(d, g)
  {
  }

  lemma AllDirsOk(files: Tree, k: nat)
    requires TreeInv(files) && k in files
    ensures DirOk(files, k)
  {
  }

  /** One iteration of the directory loops: `read_at` of entry `i` fills the whole entry. */
  method ReadDirent(ino: DiskInode, i: nat, c: BlockCacheManager) returns (e: seq<Byte>)
    requires c.Valid() && |c.pins| < BLOCK_CACHE_SIZE
    requires ino.size <= MAX_SIZE && OnDisk(c.view, ino.Value(), DataBlocks(ino.size))
    requires i < ino.size as nat / DIRENT_SZ
    modifies c
    ensures c.Valid() && c.view == old(c.view) && c.pins == old(c.pins)
    ensures old(c.Synced()) ==> c.Synced()
    ensures DIRENT_SZ * (i + 1) <= |Content(c.view, ino.Value())| && e == Slot(Content(c.view, ino.Value()), i)
  {
    hide BlockCacheManager.Valid, BlockCacheManager.Synced, OnDisk, Content;
    var buf := new Byte[DIRENT_SZ];
    var n := ino.ReadAt(DIRENT_SZ * i, buf, c);
    assert n == DIRENT_SZ;  // the assertion of the original
    e := buf[..];
    assert buf[..n] == buf[..];
  }

  /** `find_inode_id`: the first entry with that name. */
  method FindInodeId(name: Name, ino: DiskInode, c: BlockCacheManager) returns (r: Option<nat>)
    requires c.Valid() && |c.pins| < BLOCK_CACHE_SIZE
    requires ino.size <= MAX_SIZE && OnDisk(c.view, ino.Value(), DataBlocks(ino.size))
    requires AllNamed(Content(c.view, ino.Value()))
    modifies c
    ensures c.Valid() && c.view == old(c.view) && c.pins == old(c.pins)
    ensures old(c.Synced()) ==> c.Synced()
    ensures r == Lookup(Entries(Content(c.view, ino.Value())), name)
  {
    hide BlockCacheManager.Valid, BlockCacheManager.Synced, OnDisk, Content, AllNamed, Lookup, DecodeDirent, Slot,
      Entries;
    ghost var d, value := c.view, ino.Value();
    ghost var es := Entries(Content(d, value));
    var count := ino.size as nat / DIRENT_SZ;
    var i := 0;
    assert es[0..] == es;
    while i < count
      invariant 0 <= i <= count == |es| && ino.Value() == value
      invariant c.Valid() && c.view == d && c.pins == old(c.pins)
      invariant old(c.Synced()) ==> c.Synced()
      invariant Lookup(es, name) == Lookup(es[i..], name)
    {
      var e := ReadDirent(ino, i, c);
      var dirent := DecodeDirent(e);
      LookupStep(es, i, name);
      if dirent.name == name {
        return Some(dirent.inode);
      }
      i := i + 1;
    }
    LookupEnd(es, i, name);
    r := None;
  }

  lemma LookupStep(es: seq<Dirent>, i: nat, name: Name)
    requires i < |es|
    ensures Lookup(es[i..], name) == if es[i].name == name then Some(es[i].inode) else Lookup(es[i + 1..], name)
  {
    assert es[i..][1..] == es[i + 1..];
  }

  lemma LookupEnd(es: seq<Dirent>, i: nat, name: Name)
    requires i == |es|
    ensures Lookup(es[i..], name) == None
  {
  }

  /** `ls`: the names of a directory in order; nothing for a file. */
  method Ls(h: Handle, c: BlockCacheManager, ghost g: Geometry, ghost k: nat) returns (names: seq<Name>)
    requires c.Valid() && |c.pins| <= BLOCK_CACHE_SIZE - 2
    requires VolumeInv(c.view, g) && k in Live(c.view, g) && IsHandle(g, h, k)
    modifies c
    ensures c.Valid() && c.view == old(c.view) && c.pins == old(c.pins)
    ensures old(c.Synced()) ==> c.Synced()
    ensures k in Files(c.view, g) && names == NamesOf(EntriesOf(Files(c.view, g), k))
  {
    hide BlockCacheManager.Valid, BlockCacheManager.Synced, VolumeInv, InodeOf, Files, OnDisk, Content, AllNamed,
      LoadInode, NamesOf;
    ghost var d := c.view;
    VolumeFacts(d, g, k);
    var ino := OpenInode(h, c, g, k);
    names := [];
    NamesNone();
    if ino.kind == Dir {
      names := ListNames(ino, c);
    }
    c.Release(h.blockId);
  }

  lemma NamesNone()
    ensures NamesOf([]) == []
  {
  }

  function NamesOf(es: seq<Dirent>): (ns: seq<Name>)
    ensures |ns| == |es| && forall i :: 0 <= i < |es| ==> ns[i] == es[i].name
  {
    seq(|es|, (i: nat) requires i < |es| => es[i].name)
  }

  method ListNames(ino: DiskInode, c: BlockCacheManager) returns (names: seq<Name>)
    requires c.Valid() && |c.pins| < BLOCK_CACHE_SIZE
    requires ino.size <= MAX_SIZE && OnDisk(c.view, ino.Value(), DataBlocks(ino.size))
    requires AllNamed(Content(c.view, ino.Value()))
    modifies c
    ensures c.Valid() && c.view == old(c.view) && c.pins == old(c.pins)
    ensures old(c.Synced()) ==> c.Synced()
    ensures names == NamesOf(Entries(Content(c.view, ino.Value())))
  {
    hide BlockCacheManager.Valid, BlockCacheManager.Synced, OnDisk, Content, AllNamed;
    ghost var d, value := c.view, ino.Value();
    ghost var es := Entries(Content(d, value));
    var count := ino.size as nat / DIRENT_SZ;
    names := [];
    var i := 0;
    while i < count
      invariant 0 <= i <= count == |es| && ino.Value() == value
      invariant c.Valid() && c.view == d && c.pins == old(c.pins)
      invariant old(c.Synced()) ==> c.Synced()
      invariant |names| == i && forall j :: 0 <= j < i ==> names[j] == es[j].name
    {
      var e := ReadDirent(ino, i, c);
      names := names + [DecodeDirent(e).name];
      i := i + 1;
    }
  }

  /** `find`: follows the components of the path through the tree, from node `k`. */
  method FindPath(m: BlockManager, h: Handle, path: seq<Byte>, c: BlockCacheManager, ghost g: Geometry, ghost k: nat)
    returns (r: Option<Handle>, ghost found: Option<nat>)
    requires c.Valid() && |c.pins| <= BLOCK_CACHE_SIZE - 2
    requires VolumeInv(c.view, g) && m == g.Manager() && k in Live(c.view, g) && IsHandle(g, h, k)
    modifies c
    ensures c.Valid() && c.view == old(c.view) && c.pins == old(c.pins)
    ensures old(c.Synced()) ==> c.Synced()
    ensures found == Resolve(Files(c.view, g), k, Components(path))
    ensures found.None? ==> r.None?
    ensures found.Some? ==> found.value in Live(c.view, g) && r.Some? && IsHandle(g, r.value, found.value)
  {
    hide BlockCacheManager.Valid, BlockCacheManager.Synced, VolumeInv, InodeOf, Files, Resolve, Live, DirOk,
      OnDisk, Content;
    VolumeFacts(c.view, g, k);
    var names := Components(path);
    var current := h;
    ghost var node := k;
    ghost var d := c.view;
    var i := 0;
    assert names[0..] == names;
    while i < |names|
      invariant 0 <= i <= |names|
      invariant c.Valid() && c.view == d && c.pins == old(c.pins)
      invariant old(c.Synced()) ==> c.Synced()
      invariant node in Live(d, g) && IsHandle(g, current, node)
      invariant Resolve(Files(d, g), k, names) == Resolve(Files(d, g), node, names[i..])
    {
      var next := FindStep(current, names[i], c, g, node);
      ResolveStep(d, g, node, names, i);
      if next.None? {
        return None, None;
      }
      var pos := m.DiskInodePos(next.value);
      current := Handle(pos.0, pos.1);
      node := next.value;
      i := i + 1;
    }
    assert names[i..] == [];
    ResolveEmpty(Files(d, g), node);
    r, found := Some(current), Some(node);
  }

  lemma ResolveStep(d: Disk, g: Geometry, k: nat, names: seq<Name>, i: nat)
    requires VolumeInv(d, g) && k in Live(d, g) && i < |names|
    ensures Resolve(Files(d, g), k, names[i..])
         == match StepFrom(Files(d, g), k, names[i])
            case None => None
            case Some(j) => Resolve(Files(d, g), j, names[i + 1..])
  {
    hide FsInv, InodeOf, TreeInv, Lookup, Entries;
    assert k in Files(d, g) by { VolumeFacts(d, g, k); }
    assert names[i..][1..] == names[i + 1..] && names[i..][0] == names[i];
  }

  function StepFrom(files: Tree, k: nat, name: Name): Option<nat> {
    if k !in files || files[k].kind.File? then None else Lookup(EntriesOf(files, k), name)
  }

  /** One component of a path: `None` at a file or when no entry has that name. */
  method FindStep(h: Handle, name: Name, c: BlockCacheManager, ghost g: Geometry, ghost k: nat) returns (r: Option<nat>)
    requires c.Valid() && |c.pins| <= BLOCK_CACHE_SIZE - 2
    requires VolumeInv(c.view, g) && k in Live(c.view, g) && IsHandle(g, h, k)
    modifies c
    ensures c.Valid() && c.view == old(c.view) && c.pins == old(c.pins)
    ensures old(c.Synced()) ==> c.Synced()
    ensures r == StepFrom(Files(c.view, g), k, name)
    ensures r.Some? ==> r.value in Live(c.view, g) && r.value < g.InodeCount()
  {
    hide BlockCacheManager.Valid, BlockCacheManager.Synced, VolumeInv, InodeOf, Files, OnDisk, Content, AllNamed,
      LoadInode, Lookup, Live, StepFrom, Entries, EntriesOf, DirOk;
    ghost var d := c.view;
    VolumeFacts(d, g, k);
    StepIs(d, g, k, name);
    var ino := OpenInode(h, c, g, k);
    r := None;
    if ino.kind == Dir {
      r := FindInodeId(name, ino, c);
    }
    c.Release(h.blockId);
  }

  lemma StepIs(d: Disk, g: Geometry, k: nat, name: Name)
    requires VolumeInv(d, g) && k in Live(d, g)
    ensures Sized(d, g) && InodeOf(d, g, k).size <= MAX_SIZE
    ensures StepFrom(Files(d, g), k, name)
         == if InodeOf(d, g, k).kind == Dir then Lookup(Entries(Content(d, InodeOf(d, g, k))), name) else None
    ensures InodeOf(d, g, k).kind == Dir ==> AllNamed(Content(d, InodeOf(d, g, k)))
    ensures var r := StepFrom(Files(d, g), k, name);
            r.Some? ==> r.value in Live(d, g) && r.value < g.InodeCount()
  {
    hide InodeOf, FsInv, TreeInv, Content, Lookup, Entries, AllNamed;
    VolumeFacts(d, g, k);
    if StepFrom(Files(d, g), k, name).Some? {
      StepIsLive(d, g, k, name);
    }
  }

  lemma StepIsLive(d: Disk, g: Geometry, k: nat, name: Name)
    requires VolumeInv(d, g) && k in Live(d, g) && k in Files(d, g)
    requires Lookup(EntriesOf(Files(d, g), k), name).Some?
    ensures Lookup(EntriesOf(Files(d, g), k), name).value in Live(d, g)
  {
    hide FsInv, TreeInv, InodeOf, Lookup, EntriesOf, Files, Live;
    FilesKeys(d, g);
    FoundIsNode(Files(d, g), k, name);
  }

  // ---- create_inode ----

  /** `create_inode`: refuses a name that exists; otherwise the tree gains exactly one
      empty node, under that name, at the end of the directory. */
  method CreateInode(m: BlockManager, h: Handle, name: Name, kind: InodeKind, c: BlockCacheManager,
                     ghost g: Geometry, ghost k: nat) returns (r: Option<Handle>, ghost id: nat)
    requires c.Valid() && |c.pins| <= BLOCK_CACHE_SIZE - 3
    requires VolumeInv(c.view, g) && m == g.Manager() && k in Live(c.view, g) && IsHandle(g, h, k)
    requires InodeOf(c.view, g, k).kind == Dir && k in Files(c.view, g)
    requires Lookup(EntriesOf(Files(c.view, g), k), name).None? ==>
               && GoodName(name) && |Live(c.view, g)| < g.InodeCount()
               && InodeOf(c.view, g, k).size + DIRENT_SZ <= MAX_SIZE
               && RoomFor(c.view, g, InodeOf(c.view, g, k).size, InodeOf(c.view, g, k).size + DIRENT_SZ)
    modifies c
    ensures c.Valid() && c.pins == old(c.pins)
    ensures VolumeInv(c.view, g) && SameSuper(old(c.view), c.view)
    ensures old(c.Synced()) ==> c.Synced()
    ensures r.None? <==> Lookup(EntriesOf(Files(old(c.view), g), k), name).Some?
    ensures r.None? ==> c.view == old(c.view)
    ensures r.Some? ==>
              && CanCreate(Files(old(c.view), g), k, name, id)
              && IsHandle(g, r.value, id) && c.Synced()
              && Files(c.view, g) == AfterCreate(Files(old(c.view), g), k, name, kind, id)
  {
    hide BlockCacheManager.Valid, VolumeInv, InodeOf, Files, OnDisk, Content, AllNamed, LoadInode, Lookup, Live,
      AfterCreate, CanCreate, RoomFor, DirOk;
    ghost var d0 := c.view;
    VolumeFacts(d0, g, k);
    id := 0;
    var exists_ := NameTaken(h, name, c, g, k);
    if exists_ {
      return None, id;
    }
    r, id := LinkNew(m, h, name, kind, c, g, k);
    c.SyncAll();
  }

  method NameTaken(h: Handle, name: Name, c: BlockCacheManager, ghost g: Geometry, ghost k: nat) returns (taken: bool)
    requires c.Valid() && |c.pins| <= BLOCK_CACHE_SIZE - 2
    requires VolumeInv(c.view, g) && k in Live(c.view, g) && IsHandle(g, h, k) && InodeOf(c.view, g, k).kind == Dir
    modifies c
    ensures c.Valid() && c.view == old(c.view) && c.pins == old(c.pins)
    ensures old(c.Synced()) ==> c.Synced()
    ensures k in Files(c.view, g) && taken == Lookup(EntriesOf(Files(c.view, g), k), name).Some?
  {
    hide BlockCacheManager.Valid, BlockCacheManager.Synced, VolumeInv, InodeOf, Files, OnDisk, Content, AllNamed,
      LoadInode, Lookup, Live;
    VolumeFacts(c.view, g, k);
    var ino := OpenInode(h, c, g, k);
    var found := FindInodeId(name, ino, c);
    taken := found.Some?;
    c.Release(h.blockId);
  }

  method LinkNew(m: BlockManager, h: Handle, name: Name, kind: InodeKind, c: BlockCacheManager,
                 ghost g: Geometry, ghost k: nat) returns (r: Option<Handle>, id: nat)
    requires c.Valid() && |c.pins| <= BLOCK_CACHE_SIZE - 3
    requires VolumeInv(c.view, g) && m == g.Manager() && k in Live(c.view, g) && IsHandle(g, h, k)
    requires k in Files(c.view, g) && InodeOf(c.view, g, k).kind == Dir && GoodName(name)
    requires Lookup(EntriesOf(Files(c.view, g), k), name).None?
    requires |Live(c.view, g)| < g.InodeCount()
    requires InodeOf(c.view, g, k).size + DIRENT_SZ <= MAX_SIZE
    requires RoomFor(c.view, g, InodeOf(c.view, g, k).size, InodeOf(c.view, g, k).size + DIRENT_SZ)
    modifies c
    ensures c.Valid() && c.pins == old(c.pins)
    ensures VolumeInv(c.view, g) && r.Some? && IsHandle(g, r.value, id)
    ensures CanCreate(Files(old(c.view), g), k, name, id)
    ensures Files(c.view, g) == AfterCreate(Files(old(c.view), g), k, name, kind, id)
    ensures SameSuper(old(c.view), c.view)
  {
    hide BlockCacheManager.Valid, BlockCacheManager.Synced, FsInv, TreeInv, InodeOf, Files, Content, AllNamed,
      LoadInode, Lookup, Live, DataUsed, Pending, CanCreate, RoomFor, DirOk, WriteBytes, UsedBlocks, Owners;
    ghost var d0 := c.view;
    VolumeFacts(d0, g, k);
    var newHandle;
    id, newHandle := NewInode(m, kind, c, g);
    ghost var d1 := c.view;
    MayCreate(d0, g, k, name, id);
    StillRoom(d0, g, d1, k, InodeOf(d0, g, k).size, InodeOf(d0, g, k).size + DIRENT_SZ);
    var ino := OpenInode(h, c, g, k);
    var count := ino.size as nat / DIRENT_SZ;
    assert DIRENT_SZ * count == ino.size by { WholeEntries(Files(d0, g), k); }
    var n := WriteInode(m, DIRENT_SZ * count, DirentBytes(name, id), ino, c, g, k);
    CloseInode(h, ino, c, g, k, d1);
    LinkedBytes(d0, g, d1, k, name, kind, id);
    TreeAfterCreate(Files(d0, g), k, name, kind, id);
    r := Some(newHandle);
  }

  lemma WholeEntries(files: Tree, k: nat)
    requires k in files && DirOk(files, k) && files[k].kind == Dir
    ensures DIRENT_SZ * (|files[k].bytes| / DIRENT_SZ) == |files[k].bytes|
  {
  }

  lemma MayCreate(d: Disk, g: Geometry, k: nat, name: Name, id: nat)
    requires VolumeInv(d, g) && k in Live(d, g) && k in Files(d, g) && InodeOf(d, g, k).kind == Dir && GoodName(name)
    requires Lookup(EntriesOf(Files(d, g), k), name).None?
    requires LowestClear(Live(d, g), id) && id < g.InodeCount()
    ensures CanCreate(Files(d, g), k, name, id)
  {
    hide FsInv, TreeInv, InodeOf, Lookup, EntriesOf, Files, Live;
    FilesKeys(d, g);
    KindOf(d, g, k);
    InodeIdFits(g, id);
  }

  lemma InodeIdFits(g: Geometry, id: nat)
    requires g.Wf() && id < g.InodeCount()
    ensures id < 0x1_0000_0000
  {
  }

  lemma StillRoom(d0: Disk, g: Geometry, d1: Disk, k: nat, size: nat, newSize: nat)
    requires Sized(d0, g) && Sized(d1, g) && DataUsed(d1, g) == DataUsed(d0, g) && RoomFor(d0, g, size, newSize)
    ensures RoomFor(d1, g, size, newSize)
  {
  }

  lemma LinkedBytes(d0: Disk, g: Geometry, d1: Disk, k: nat, name: Name, kind: InodeKind, id: nat)
    requires FsInv(d0, g) && Sized(d0, g) && k in Live(d0, g) && CanCreate(Files(d0, g), k, name, id)
    requires Sized(d1, g) && k in Live(d1, g) && InodeOf(d1, g, k) == InodeOf(d0, g, k)
    requires Files(d1, g) == Files(d0, g)[id := Node(kind, [])]
    ensures BytesOf(d1, InodeOf(d1, g, k)) == Files(d0, g)[k].bytes
    ensures InodeOf(d0, g, k).kind == Dir
    ensures var s := Files(d0, g)[k].bytes;
            && WriteBytes(s, |s|, DirentBytes(name, id)) == s + DirentBytes(name, id)
            && Files(d1, g)[k := Node(Dir, s + DirentBytes(name, id))] == AfterCreate(Files(d0, g), k, name, kind, id)
  {
    hide FsInv, TreeInv, InodeOf, Lookup, EntriesOf, Files, Live;
    KindOf(d0, g, k);
    BytesIn(d0, g, k);
    BytesIn(d1, g, k);
    AppendedBytes(Files(d0, g)[k].bytes, DirentBytes(name, id));
    assert id != k;
    assert Files(d1, g)[k] == Files(d0, g)[k];
  }

  lemma BytesIn(d: Disk, g: Geometry, k: nat)
    requires Sized(d, g) && k in Live(d, g)
    ensures k in Files(d, g) && Files(d, g)[k].bytes == BytesOf(d, InodeOf(d, g, k))
  {
  }

  lemma AppendedBytes(s: seq<Byte>, e: seq<Byte>)
    ensures WriteBytes(s, |s|, e) == s + e
  {
    if e == [] {
      assert s + [] == s;
    }
    assert Splice(s + Zeros(|e|), |s|, e) == s + e;
  }
}
