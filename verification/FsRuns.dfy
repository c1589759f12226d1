/**
 * Whole runs: the block-level volume refines a map from inode to node.
 *
 * Everything an operation needs, free space included, is a matter of the abstract
 * map alone, because the number of blocks in use is the sum over all files of
 * what `total_blocks` says for their sizes.
 */
module FsRuns {
  import opened Basics
  import opened LittleEndian
  import opened BlockCacheLayer
  import opened BitmapLayer
  import opened Layout
  import opened FileData
  import opened Mfs
  import opened FsState
  import opened Vfs
  import opened Format
  import opened Directory
  import opened DirOps

  // ---- Counting blocks ----

  /** Blocks held by the inodes below `n`. */
  ghost function UnionBelow(own: map<nat, set<nat>>, n: nat): set<nat> {
    if n == 0 then {} else UnionBelow(own, n - 1) + if n - 1 in own then own[n - 1] else {}
  }

  ghost function CountBelow(own: map<nat, set<nat>>, n: nat): nat {
    if n == 0 then 0 else CountBelow(own, n - 1) + if n - 1 in own then |own[n - 1]| else 0
  }

  lemma {:induction false} UnionIs(own: map<nat, set<nat>>, n: nat)
    ensures forall x :: x in UnionBelow(own, n) <==> exists k :: k in own && k < n && x in own[k]
  {
    if n > 0 {
      UnionIs(own, n - 1);
      forall x | exists k :: k in own && k < n && x in own[k] ensures x in UnionBelow(own, n) {
        var k :| k in own && k < n && x in own[k];
        assert k < n - 1 || k == n - 1;
      }
      forall x | x in UnionBelow(own, n) ensures exists k :: k in own && k < n && x in own[k] {
        if x in UnionBelow(own, n - 1) {
          var k :| k in own && k < n - 1 && x in own[k];
          assert k < n;
        }
      }
    }
  }

  lemma {:induction false} CountIsCard(own: map<nat, set<nat>>, used: set<nat>, n: nat)
    requires Ownership(own, used)
    ensures |UnionBelow(own, n)| == CountBelow(own, n)
  {
    hide Ownership;
    if n > 0 {
      CountIsCard(own, used, n - 1);
      if n - 1 in own {
        NextIsApart(own, used, n - 1);
      }
    }
  }

  lemma NextIsApart(own: map<nat, set<nat>>, used: set<nat>, n: nat)
    requires Ownership(own, used) && n in own
    ensures UnionBelow(own, n) !! own[n]
  {
    hide UnionBelow;
    var u := UnionBelow(own, n);
    UnionIs(own, n);
    forall x | x in u ensures x !in own[n] {
      var k :| k in own && k < n && x in own[k];
      assert own[k] !! own[n];
    }
  }

  /** Blocks a set of files needs. */
  function SpaceBelow(files: Tree, n: nat): nat {
    if n == 0 then 0 else SpaceBelow(files, n - 1) + if n - 1 in files then TotalBlocks(|files[n - 1].bytes|) else 0
  }

  lemma FileCard(d: Disk, g: Geometry, k: nat)
    requires FsInv(d, g) && k in Live(d, g)
    ensures k in Owners(d, g) && k in Files(d, g) && |Owners(d, g)[k]| == TotalBlocks(|Files(d, g)[k].bytes|)
  {
    hide InodeOf, Owned, TotalFor, Ownership, TailZero, NoDup;
    var ino := InodeOf(d, g, k);
    assert FileOk(d, g, ino);
    BlockCountBound(ino.size);
    var r := DistinctCard(FileBlocks(d, ino));
    assert FileSet(d, ino) == r;
  }

  lemma {:induction false} SpaceIsCount(d: Disk, g: Geometry, n: nat)
    requires FsInv(d, g)
    ensures CountBelow(Owners(d, g), n) == SpaceBelow(Files(d, g), n)
  {
    hide FsInv, TotalBlocks, Live, Owners, Files;
    FilesKeys(d, g);
    if n > 0 {
      SpaceIsCount(d, g, n - 1);
      if n - 1 in Live(d, g) {
        FileCard(d, g, n - 1);
      }
    }
  }

  /** Conservation: the data bitmap has exactly as many bits set as the files need. */
  lemma SpaceInUse(d: Disk, g: Geometry)
    requires FsInv(d, g)
    ensures |DataUsed(d, g)| == SpaceBelow(Files(d, g), g.InodeCount())
  {
    hide Owners, UsedBlocks, Files, DataUsed, SpaceBelow, CountBelow, UnionBelow, Ownership, FileOk, FreeIsZero;
    var own, n := Owners(d, g), g.InodeCount();
    SpaceIsCount(d, g, n);
    CountIsCard(own, UsedBlocks(d, g), n);
    assert forall k :: k in own ==> k < n by { OwnersInRange(d, g); }
    UnionIsUsed(own, UsedBlocks(d, g), n);
    ShiftCard(DataUsed(d, g), UsedBlocks(d, g), Start(g));
  }

  lemma OwnersInRange(d: Disk, g: Geometry)
    requires FsInv(d, g)
    ensures forall k :: k in Owners(d, g) ==> k < g.InodeCount()
  {
    hide FsInv;
    FilesKeys(d, g);
  }

  lemma UnionIsUsed(own: map<nat, set<nat>>, used: set<nat>, n: nat)
    requires Ownership(own, used) && forall k :: k in own ==> k < n
    ensures UnionBelow(own, n) == used
  {
    hide UnionBelow;
    var u := UnionBelow(own, n);
    UnionIs(own, n);
    forall x | x in used ensures x in u {
      var k :| k in own && x in own[k];
      assert k < n;
    }
    forall x | x in u ensures x in used {
      var k :| k in own && k < n && x in own[k];
      assert own[k] <= used;
    }
  }

  // ---- The abstract machine ----

  datatype Op =
    | Write(k: nat, offset: nat, buf: seq<Byte>)
    | Read(k: nat, offset: nat, len: nat)
    | Truncate(k: nat)
    | Make(k: nat, name: Name, kind: InodeKind)

  predicate SpaceFor(files: Tree, g: Geometry, k: nat, newSize: nat)
    requires g.Wf() && k in files
  {
    && newSize <= MAX_SIZE
    && SpaceBelow(files, g.InodeCount()) + Missing(|files[k].bytes|, newSize) <= g.DataAreaBlocks()
  }

  /** What each operation asks of its caller. */
  predicate Enabled(files: Tree, g: Geometry, op: Op) {
    && g.Wf() && op.k in files
    && match op
       case Write(k, offset, buf) =>
         && files[k].kind.File? && SpaceFor(files, g, k, offset + |buf|)
         && (|buf| > 0 || offset < |files[k].bytes| || offset % BLOCK_SZ != 0)
       case Read(k, offset, len) => true
       case Truncate(k) => files[k].kind.File?
       case Make(k, name, kind) =>
         && files[k].kind.Dir?
         && (Lookup(EntriesOf(files, k), name).None? ==>
               GoodName(name) && |files| < g.InodeCount() && SpaceFor(files, g, k, |files[k].bytes| + DIRENT_SZ))
  }

  function Step(files: Tree, op: Op): Tree
    requires op.k in files
  {
    match op
    case Write(k, offset, buf) => files[k := Node(File, WriteBytes(files[k].bytes, offset, buf))]
    case Read(k, offset, len) => files
    case Truncate(k) => files[k := Node(File, [])]
    case Make(k, name, kind) =>
      if Lookup(EntriesOf(files, k), name).Some? || |name| > NAME_LENGTH_LIMIT then files
      else AfterCreate(files, k, name, kind, |files|)
  }

  /** The bytes a read returns. */
  function Output(files: Tree, op: Op): seq<seq<Byte>>
    requires op.k in files
  {
    if !op.Read? then []
    else
      var bytes := files[op.k].bytes;
      var end := if op.offset + op.len < |bytes| then op.offset + op.len else |bytes|;
      [if op.offset >= end then [] else bytes[op.offset..end]]
  }

  predicate RunEnabled(files: Tree, g: Geometry, ops: seq<Op>)
    decreases |ops|
  {
    ops == [] || (Enabled(files, g, ops[0]) && RunEnabled(Step(files, ops[0]), g, ops[1..]))
  }

  function Run(files: Tree, g: Geometry, ops: seq<Op>): Tree
    requires RunEnabled(files, g, ops)
    decreases |ops|
  {
    if ops == [] then files else Run(Step(files, ops[0]), g, ops[1..])
  }

  function Outputs(files: Tree, g: Geometry, ops: seq<Op>): seq<seq<Byte>>
    requires RunEnabled(files, g, ops)
    decreases |ops|
  {
    if ops == [] then [] else Output(files, ops[0]) + Outputs(Step(files, ops[0]), g, ops[1..])
  }

  /** A read gives the bytes of the file from its offset on, as many as it asks for and
      as there are. */
  lemma ReadMeans(files: Tree, k: nat, offset: nat, len: nat)
    requires k in files
    ensures var bytes, out := files[k].bytes, Output(files, Read(k, offset, len));
            && |out| == 1 && |out[0]| == (if offset >= |bytes| then 0 else Min(len, |bytes| - offset))
            && forall i :: 0 <= i < |out[0]| ==> out[0][i] == bytes[offset + i]
  {
  }

  /** What was written is read back; no other file changes. */
  lemma ReadBack(files: Tree, k: nat, offset: nat, buf: seq<Byte>)
    requires k in files && buf != []
    ensures var after := Step(files, Write(k, offset, buf));
            && after.Keys == files.Keys && Output(after, Read(k, offset, |buf|)) == [buf]
            && (forall j :: j in files && j != k ==> after[j] == files[j])
  {
    var after := Step(files, Write(k, offset, buf));
    var bytes := after[k].bytes;
    assert bytes[offset..offset + |buf|] == buf;
  }

  /** Truncating a file leaves it without bytes and every other file alone. */
  lemma TruncateMeans(files: Tree, k: nat, offset: nat, len: nat)
    requires k in files
    ensures var after := Step(files, Truncate(k));
            && after.Keys == files.Keys && Output(after, Read(k, offset, len)) == [[]]
            && (forall j :: j in files && j != k ==> after[j] == files[j])
  {
  }

  /** Making a file: a new empty node of the kind asked for, one name more at the end of the
      directory, and nothing else. */
  lemma MakeMeans(files: Tree, g: Geometry, k: nat, name: Name, kind: InodeKind)
    requires TreeInv(files) && Enabled(files, g, Make(k, name, kind)) && Lookup(EntriesOf(files, k), name).None?
    requires forall j: nat :: j in files <==> j < |files|
    ensures var after := Step(files, Make(k, name, kind));
            && after.Keys == files.Keys + {|files|} && after[|files|] == Node(kind, [])
            && after[k].kind == files[k].kind
            && Entries(after[k].bytes) == Entries(files[k].bytes) + [Dirent(name, |files|)]
            && (forall j :: j in files && j != k ==> after[j] == files[j])
  {
    hide Entries, DirentBytes, Names;
    assert DirOk(files, k);
    EntriesAppend(files[k].bytes, name, |files|);
  }

  // ---- Refinement ----

  lemma RoomIsSpace(d: Disk, g: Geometry, k: nat, newSize: nat)
    requires FsInv(d, g) && k in Live(d, g) && k in Files(d, g) && SpaceFor(Files(d, g), g, k, newSize)
    ensures RoomFor(d, g, InodeOf(d, g, k).size, newSize)
    ensures InodeOf(d, g, k).size == |Files(d, g)[k].bytes| && InodeOf(d, g, k).kind == Files(d, g)[k].kind
  {
    hide InodeOf, FsInv, DataUsed, SpaceBelow, Missing;
    SpaceInUse(d, g);
    SizeBound(d, g, k);
  }

  lemma NextInode(files: Tree, id: nat)
    requires TreeInv(files) && LowestClear(files.Keys, id)
    ensures id == |files|
  {
    hide DirOk, Names;
    assert forall k :: k in files ==> k < id;
    assert files.Keys == Range(0, id);
  }

  method DoWrite(m: BlockManager, k: nat, offset: nat, buf: seq<Byte>, c: BlockCacheManager, ghost g: Geometry)
    requires c.Valid() && |c.pins| <= BLOCK_CACHE_SIZE - 3
    requires VolumeInv(c.view, g) && Sized(c.view, g) && m == g.Manager()
    requires Enabled(Files(c.view, g), g, Write(k, offset, buf))
    modifies c
    ensures c.Valid() && c.pins == old(c.pins)
    ensures VolumeInv(c.view, g) && Files(c.view, g) == Step(Files(old(c.view), g), Write(k, offset, buf))
    ensures SameSuper(old(c.view), c.view) && c.Synced()
  {
    hide BlockCacheManager.Valid, FsInv, TreeInv, InodeOf, Files, Live, RoomFor, WriteBytes, UsedBlocks, Owners,
      SpaceFor;
    ghost var d0 := c.view;
    FilesKeys(d0, g);
    RoomIsSpace(d0, g, k, offset + |buf|);
    SpaceBound(Files(d0, g), g, k, offset + |buf|);
    var pos := m.DiskInodePos(k);
    LiveInRange(d0, g, k);
    var n := WriteAt(m, Handle(pos.0, pos.1), offset, buf, c, g, k);
    TreeAfterWrite(Files(d0, g), k, WriteBytes(Files(d0, g)[k].bytes, offset, buf));
  }

  lemma SpaceBound(files: Tree, g: Geometry, k: nat, newSize: nat)
    requires g.Wf() && k in files && SpaceFor(files, g, k, newSize)
    ensures newSize <= MAX_SIZE
  {
  }

  lemma LiveInRange(d: Disk, g: Geometry, k: nat)
    requires Sized(d, g) && k in Live(d, g)
    ensures k < g.InodeCount()
  {
  }

  method DoTruncate(m: BlockManager, k: nat, c: BlockCacheManager, ghost g: Geometry)
    requires c.Valid() && |c.pins| <= BLOCK_CACHE_SIZE - 3
    requires VolumeInv(c.view, g) && Sized(c.view, g) && m == g.Manager()
    requires Enabled(Files(c.view, g), g, Truncate(k))
    modifies c
    ensures c.Valid() && c.pins == old(c.pins)
    ensures VolumeInv(c.view, g) && Files(c.view, g) == Step(Files(old(c.view), g), Truncate(k))
    ensures SameSuper(old(c.view), c.view) && c.Synced()
  {
    hide BlockCacheManager.Valid, FsInv, TreeInv, InodeOf, Files, Live, UsedBlocks, Owners;
    ghost var d0 := c.view;
    FilesKeys(d0, g);
    KindOf(d0, g, k);
    var pos := m.DiskInodePos(k);
    LiveInRange(d0, g, k);
    Clear(m, Handle(pos.0, pos.1), c, g, k);
    TreeAfterWrite(Files(d0, g), k, []);
  }

  method DoRead(m: BlockManager, k: nat, offset: nat, len: nat, c: BlockCacheManager, ghost g: Geometry)
    returns (r: seq<Byte>)
    requires c.Valid() && |c.pins| <= BLOCK_CACHE_SIZE - 3
    requires VolumeInv(c.view, g) && Sized(c.view, g) && m == g.Manager() && k in Files(c.view, g)
    modifies c
    ensures c.Valid() && c.pins == old(c.pins) && c.view == old(c.view)
    ensures old(c.Synced()) ==> c.Synced()
    ensures [r] == Output(Files(c.view, g), Read(k, offset, len))
  {
    hide BlockCacheManager.Valid, FsInv, TreeInv, InodeOf, Files, Live;
    FilesKeys(c.view, g);
    LiveInRange(c.view, g, k);
    var pos := m.DiskInodePos(k);
    var buf := new Byte[len];
    var n := ReadAt(Handle(pos.0, pos.1), offset, buf, c, g, k);
    r := buf[..n];
  }

  method DoMake(m: BlockManager, k: nat, name: Name, kind: InodeKind, c: BlockCacheManager, ghost g: Geometry)
    requires c.Valid() && |c.pins| <= BLOCK_CACHE_SIZE - 3
    requires VolumeInv(c.view, g) && Sized(c.view, g) && m == g.Manager()
    requires Enabled(Files(c.view, g), g, Make(k, name, kind))
    modifies c
    ensures c.Valid() && c.pins == old(c.pins)
    ensures VolumeInv(c.view, g) && Files(c.view, g) == Step(Files(old(c.view), g), Make(k, name, kind))
    ensures SameSuper(old(c.view), c.view) && (old(c.Synced()) ==> c.Synced())
  {
    hide BlockCacheManager.Valid, BlockCacheManager.Synced, VolumeInv, InodeOf, Files, Live, RoomFor, Enabled, Step,
      AfterCreate, EntriesOf, Lookup, SameSuper, CanCreate;
    ghost var d0 := c.view;
    MakeReady(d0, g, k, name, kind);
    var pos := m.DiskInodePos(k);
    var r, id := CreateInode(m, Handle(pos.0, pos.1), name, kind, c, g, k);
    if r.Some? {
      Made(Files(d0, g), k, name, kind, id);
    } else {
      Refused(Files(d0, g), k, name, kind);
    }
  }

  /** What the abstract machine asks for is what `create_inode` needs. */
  lemma MakeReady(d: Disk, g: Geometry, k: nat, name: Name, kind: InodeKind)
    requires VolumeInv(d, g) && Sized(d, g) && Enabled(Files(d, g), g, Make(k, name, kind))
    ensures k in Live(d, g) && k in Files(d, g) && k < g.InodeCount() && InodeOf(d, g, k).kind == Dir
    ensures Lookup(EntriesOf(Files(d, g), k), name).None? ==>
              && GoodName(name) && |Live(d, g)| < g.InodeCount()
              && InodeOf(d, g, k).size + DIRENT_SZ <= MAX_SIZE
              && RoomFor(d, g, InodeOf(d, g, k).size, InodeOf(d, g, k).size + DIRENT_SZ)
  {
    hide VolumeInv, InodeOf, Files, Live, RoomFor, SpaceFor, EntriesOf, Lookup, FsInv;
    Unpack(d, g);
    LiveInRange(d, g, k);
    KindOf(d, g, k);
    if Lookup(EntriesOf(Files(d, g), k), name).None? {
      RoomIsSpace(d, g, k, |Files(d, g)[k].bytes| + DIRENT_SZ);
      SpaceBound(Files(d, g), g, k, |Files(d, g)[k].bytes| + DIRENT_SZ);
    }
  }

  lemma Made(files: Tree, k: nat, name: Name, kind: InodeKind, id: nat)
    requires CanCreate(files, k, name, id)
    ensures k in files && |name| <= NAME_LENGTH_LIMIT
    ensures Step(files, Make(k, name, kind)) == AfterCreate(files, k, name, kind, id)
  {
    hide TreeInv, Lookup, EntriesOf, AfterCreate;
    NextInodeOf(files, k, name, id);
  }

  lemma Refused(files: Tree, k: nat, name: Name, kind: InodeKind)
    requires k in files && Lookup(EntriesOf(files, k), name).Some?
    ensures Step(files, Make(k, name, kind)) == files
  {
  }

  lemma Unpack(d: Disk, g: Geometry)
    requires VolumeInv(d, g)
    ensures FsInv(d, g) && Sized(d, g) && Files(d, g).Keys == Live(d, g)
    ensures |Live(d, g)| == |Files(d, g)|
  {
    hide FsInv;
    FilesKeys(d, g);
  }

  lemma NextInodeOf(files: Tree, k: nat, name: Name, id: nat)
    requires CanCreate(files, k, name, id)
    ensures id == |files|
  {
    hide TreeInv, Lookup, EntriesOf;
    NextInode(files, id);
  }

  method DoStep(m: BlockManager, op: Op, c: BlockCacheManager, ghost g: Geometry) returns (r: seq<seq<Byte>>)
    requires c.Valid() && |c.pins| <= BLOCK_CACHE_SIZE - 3
    requires VolumeInv(c.view, g) && Sized(c.view, g) && m == g.Manager() && Enabled(Files(c.view, g), g, op)
    modifies c
    ensures c.Valid() && c.pins == old(c.pins) && VolumeInv(c.view, g) && Sized(c.view, g)
    ensures Files(c.view, g) == Step(Files(old(c.view), g), op) && r == Output(Files(old(c.view), g), op)
    ensures SameSuper(old(c.view), c.view) && (old(c.Synced()) ==> c.Synced())
  {
    hide BlockCacheManager.Valid, BlockCacheManager.Synced, VolumeInv, Files, Enabled, Step, Output, FsInv;
    StepFacts(c.view, g, op);
    r := [];
    match op {
      case Write(k, offset, buf) =>
        DoWrite(m, k, offset, buf, c, g);
      case Read(k, offset, len) =>
        var bytes := DoRead(m, k, offset, len, c, g);
        r := [bytes];
      case Truncate(k) =>
        DoTruncate(m, k, c, g);
      case Make(k, name, kind) =>
        DoMake(m, k, name, kind, c, g);
    }
    Unpack(c.view, g);
  }

  lemma StepFacts(d: Disk, g: Geometry, op: Op)
    requires Sized(d, g) && Enabled(Files(d, g), g, op)
    ensures |d| > 0 && op.k in Files(d, g)
    ensures op.Read? ==> Step(Files(d, g), op) == Files(d, g)
    ensures !op.Read? ==> Output(Files(d, g), op) == []
  {
    hide Files;
  }

  /** Refinement over all runs: from any volume, any enabled sequence of operations
      leaves a volume whose meaning is what the abstract machine computes, and every
      read along the way returned what the abstract machine says. */
  method RunVolume(m: BlockManager, ops: seq<Op>, c: BlockCacheManager, ghost g: Geometry)
    returns (outputs: seq<seq<Byte>>)
    requires c.Valid() && |c.pins| <= BLOCK_CACHE_SIZE - 3
    requires VolumeInv(c.view, g) && Sized(c.view, g) && m == g.Manager()
    requires RunEnabled(Files(c.view, g), g, ops)
    modifies c
    ensures c.Valid() && c.pins == old(c.pins) && VolumeInv(c.view, g) && Sized(c.view, g)
    ensures Files(c.view, g) == Run(Files(old(c.view), g), g, ops)
    ensures outputs == Outputs(Files(old(c.view), g), g, ops)
    ensures SameSuper(old(c.view), c.view) && (old(c.Synced()) ==> c.Synced())
  {
    hide BlockCacheManager.Valid, VolumeInv, Files, Step, Output, Enabled;
    outputs := [];
    ghost var start := Files(c.view, g);
    var i := 0;
    assert ops[0..] == ops;
    while i < |ops|
      invariant 0 <= i <= |ops|
      invariant c.Valid() && c.pins == old(c.pins) && VolumeInv(c.view, g) && Sized(c.view, g)
      invariant RunEnabled(Files(c.view, g), g, ops[i..])
      invariant Run(Files(c.view, g), g, ops[i..]) == Run(start, g, ops)
      invariant outputs + Outputs(Files(c.view, g), g, ops[i..]) == Outputs(start, g, ops)
      invariant SameSuper(old(c.view), c.view) && (old(c.Synced()) ==> c.Synced())
    {
      assert ops[i..][0] == ops[i] && ops[i..][1..] == ops[i + 1..];
      var r := DoStep(m, ops[i], c, g);
      outputs := outputs + r;
      i := i + 1;
    }
    assert ops[i..] == [];
  }

  /** Shutting down and mounting again: a new, empty cache on the device, opened from the
      superblock alone, shows the same layout and the same files. */
  method Remount(c: BlockCacheManager, ghost g: Geometry) returns (c2: BlockCacheManager, r: OpenResult)
    requires c.Synced() && Sized(c.view, g) && VolumeInv(c.view, g)
    requires |c.view| > 0 && OpenSuper(c.view[0]) == Opened(g.Manager())
    ensures c2.Valid() && c2.pins == multiset{} && r == Opened(g.Manager())
    ensures Sized(c2.view, g) && VolumeInv(c2.view, g) && Files(c2.view, g) == Files(c.view, g)
  {
    hide BlockCacheManager.Valid, VolumeInv, Files, OpenSuper, SuperBlock;
    c2 := new BlockCacheManager(c.device);
    r := Open(c2);
  }

  /** A freshly formatted volume is the one-directory tree, ready for any run. */
  method FormatThenRun(total: nat, inodeBitmapBlocks: nat, ops: seq<Op>, c: BlockCacheManager)
    returns (outputs: seq<seq<Byte>>)
    requires c.Valid() && c.pins == multiset{}
    requires Geometry(total, inodeBitmapBlocks).Wf() && total <= |c.view|
    requires RunEnabled(map[0 := Node(Dir, [])], Geometry(total, inodeBitmapBlocks), ops)
    modifies c
    ensures c.Valid()
    ensures VolumeInv(c.view, Geometry(total, inodeBitmapBlocks)) && Sized(c.view, Geometry(total, inodeBitmapBlocks))
    ensures Files(c.view, Geometry(total, inodeBitmapBlocks))
         == Run(map[0 := Node(Dir, [])], Geometry(total, inodeBitmapBlocks), ops)
    ensures outputs == Outputs(map[0 := Node(Dir, [])], Geometry(total, inodeBitmapBlocks), ops)
    ensures c.Synced() && |c.view| > 0 && OpenSuper(c.view[0]) == Opened(Geometry(total, inodeBitmapBlocks).Manager())
  {
    hide BlockCacheManager.Valid, FsInv, TreeInv, Files, RunEnabled, Run, Outputs;
    ghost var g := Geometry(total, inodeBitmapBlocks);
    var m := Create(total, inodeBitmapBlocks, c);
    RootOnly();
    FilesKeys(c.view, g);
    outputs := RunVolume(m, ops, c, g);
  }
}
