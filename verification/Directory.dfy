/**
 * Directories: files of 32-byte entries, and the tree they describe.
 *
 * Everything here speaks about the abstract map from inode to node.  `TreeInv`
 * says that this map is one tree rooted in inode 0: names are distinct within a
 * directory, and every other inode is named by exactly one entry, in a directory
 * with a smaller number.
 */
module Directory {
  import opened Basics
  import opened LittleEndian
  import opened Layout
  import opened FsState

  const DIRENT_SZ := 32
  const NAME_LENGTH_LIMIT := 27
  const SLASH: Byte := 47

  type Name = seq<Byte>

  /** What `DirEntry::new` and `DirEntry::name` together accept. */
  predicate GoodName(name: Name) {
    |name| <= NAME_LENGTH_LIMIT && forall i :: 0 <= i < |name| ==> name[i] != 0
  }

  datatype Dirent = Dirent(name: Name, inode: nat)

  function DirentBytes(name: Name, inode: nat): (s: seq<Byte>)
    requires |name| <= NAME_LENGTH_LIMIT + 1
    ensures |s| == DIRENT_SZ
  {
    name + Zeros(NAME_LENGTH_LIMIT + 1 - |name|) + Encode(inode, 4)
  }

  /** The bytes of an entry: the name, zeros up to byte 28, the inode number with its lowest
      byte first. */
  lemma DirentLayout(name: Name, inode: nat, i: nat)
    requires |name| <= NAME_LENGTH_LIMIT + 1 && i < 32
    ensures DirentBytes(name, inode)[i]
         == if i < |name| then name[i] else if i < 28 then 0 else inode / Pow256(i - 28) % 256
  {
    hide Encode, Pow256;
    if i >= 28 {
      EncodeAt(inode, 4, i - 28);
    }
  }

  /** Index of the first NUL, or the length if there is none. */
  function FirstNul(s: seq<Byte>): (n: nat)
    ensures n <= |s| && (n < |s| ==> s[n] == 0)
    ensures forall i :: 0 <= i < n ==> s[i] != 0
  {
    if s == [] || s[0] == 0 then 0 else 1 + FirstNul(s[1..])
  }

  /** `name()` finds a NUL within the name field. */
  predicate Named(e: seq<Byte>) {
    |e| == DIRENT_SZ && FirstNul(e[..NAME_LENGTH_LIMIT + 1]) <= NAME_LENGTH_LIMIT
  }

  function DecodeDirent(e: seq<Byte>): Dirent
    requires |e| == DIRENT_SZ
  {
    Dirent(e[..FirstNul(e[..NAME_LENGTH_LIMIT + 1])], Decode(e[NAME_LENGTH_LIMIT + 1..]))
  }

  lemma DirentRoundTrip(name: Name, inode: nat)
    requires GoodName(name) && inode < 0x1_0000_0000
    ensures Named(DirentBytes(name, inode)) && DecodeDirent(DirentBytes(name, inode)) == Dirent(name, inode)
  {
    var e := DirentBytes(name, inode);
    var field := e[..NAME_LENGTH_LIMIT + 1];
    assert field == name + Zeros(NAME_LENGTH_LIMIT + 1 - |name|);
    assert field[|name|] == 0;
    var n := FirstNul(field);
    assert forall i :: 0 <= i < |name| ==> field[i] == name[i];
    assert n == |name|;
    assert e[..n] == name;
    assert e[NAME_LENGTH_LIMIT + 1..] == Encode(inode, 4);
    Pow256Values();
    DecodeEncode(inode, 4);
  }

  /** A name that fits the field survives exactly when it is good: at most 27 bytes, none
      of them NUL. */
  lemma DirentSurvives(name: Name, inode: nat)
    requires |name| <= NAME_LENGTH_LIMIT + 1 && inode < 0x1_0000_0000
    ensures (Named(DirentBytes(name, inode)) && DecodeDirent(DirentBytes(name, inode)) == Dirent(name, inode))
            <==> GoodName(name)
  {
    var e := DirentBytes(name, inode);
    if GoodName(name) {
      DirentRoundTrip(name, inode);
    } else {
      var field := e[..NAME_LENGTH_LIMIT + 1];
      assert forall i :: 0 <= i < |name| ==> field[i] == name[i];
      if Named(e) {
        assert FirstNul(field) < |name|;
        assert |e[..FirstNul(field)]| != |name|;
      }
    }
  }

  function Slot(bytes: seq<Byte>, i: nat): (e: seq<Byte>)
    requires DIRENT_SZ * (i + 1) <= |bytes|
    ensures |e| == DIRENT_SZ
  {
    bytes[DIRENT_SZ * i..DIRENT_SZ * (i + 1)]
  }

  /** The entries of a directory file, in order. */
  function Entries(bytes: seq<Byte>): (es: seq<Dirent>)
    ensures |es| == |bytes| / DIRENT_SZ
    ensures forall i :: 0 <= i < |es| ==> es[i] == DecodeDirent(Slot(bytes, i))
  {
    seq(|bytes| / DIRENT_SZ, (i: nat) requires i < |bytes| / DIRENT_SZ => DecodeDirent(Slot(bytes, i)))
  }

  ghost predicate AllNamed(bytes: seq<Byte>) {
    forall i :: 0 <= i < |bytes| / DIRENT_SZ ==> Named(Slot(bytes, i))
  }

  lemma EntriesAppend(bytes: seq<Byte>, name: Name, inode: nat)
    requires |bytes| % DIRENT_SZ == 0 && GoodName(name) && inode < 0x1_0000_0000
    ensures Entries(bytes + DirentBytes(name, inode)) == Entries(bytes) + [Dirent(name, inode)]
    ensures AllNamed(bytes) ==> AllNamed(bytes + DirentBytes(name, inode))
  {
    var e := DirentBytes(name, inode);
    var r := bytes + e;
    var n := |bytes| / DIRENT_SZ;
    DirentRoundTrip(name, inode);
    assert |r| / DIRENT_SZ == n + 1;
    assert Slot(r, n) == e;
    forall i | 0 <= i < n ensures Slot(r, i) == Slot(bytes, i) {}
    assert Entries(r) == Entries(bytes) + [Dirent(name, inode)];
  }

  /** First entry with that name. */
  function Lookup(es: seq<Dirent>, name: Name): (r: Option<nat>)
    ensures r.None? <==> forall i :: 0 <= i < |es| ==> es[i].name != name
    ensures r.Some? ==> exists i :: 0 <= i < |es| && es[i] == Dirent(name, r.value)
  {
    if es == [] then None
    else if es[0].name == name then
      assert es[0] == Dirent(name, es[0].inode);
      Some(es[0].inode)
    else
      var r := Lookup(es[1..], name);
      assert r.Some? ==> exists i :: 0 <= i < |es| && es[i] == Dirent(name, r.value) by {
        if r.Some? {
          var i :| 0 <= i < |es[1..]| && es[1..][i] == Dirent(name, r.value);
          assert es[i + 1] == Dirent(name, r.value);
        }
      }
      r
  }

  /** What is found is the first entry with that name. */
  lemma {:induction false} LookupFirst(es: seq<Dirent>, name: Name) returns (i: nat)
    requires Lookup(es, name).Some?
    ensures i < |es| && es[i] == Dirent(name, Lookup(es, name).value)
    ensures forall j :: 0 <= j < i ==> es[j].name != name
  {
    if es[0].name == name {
      i := 0;
    } else {
      var k := LookupFirst(es[1..], name);
      assert forall j :: 0 < j <= k + 1 ==> es[j] == es[1..][j - 1];
      i := k + 1;
    }
  }

  ghost predicate DistinctNames(es: seq<Dirent>) {
    forall i, j :: 0 <= i < j < |es| ==> es[i].name != es[j].name
  }

  lemma LookupAt(es: seq<Dirent>, i: nat)
    requires DistinctNames(es) && i < |es|
    ensures Lookup(es, es[i].name) == Some(es[i].inode)
  {
    var r := Lookup(es, es[i].name);
    assert r.Some?;
    var j :| 0 <= j < |es| && es[j] == Dirent(es[i].name, r.value);
    assert j == i;
  }

  lemma LookupPrefix(es: seq<Dirent>, e: Dirent, name: Name)
    requires DistinctNames(es + [e])
    ensures Lookup(es, name).Some? ==> Lookup(es + [e], name) == Lookup(es, name)
    ensures Lookup(es + [e], e.name) == Some(e.inode)
  {
    var all := es + [e];
    LookupAt(all, |es|);
    var r := Lookup(es, name);
    if r.Some? {
      var i :| 0 <= i < |es| && es[i] == Dirent(name, r.value);
      assert all[i] == es[i];
      LookupAt(all, i);
    }
  }

  // ---- The tree ----

  type Tree = map<nat, Node>

  /** The entries of a node; a file has none. */
  function EntriesOf(files: Tree, k: nat): seq<Dirent>
    requires k in files
  {
    if files[k].kind.Dir? then Entries(files[k].bytes) else []
  }

  ghost predicate Names(files: Tree, p: nat, i: nat, k: nat) {
    p in files && i < |EntriesOf(files, p)| && EntriesOf(files, p)[i].inode == k
  }

  ghost predicate DirOk(files: Tree, k: nat)
    requires k in files
  {
    files[k].kind.Dir? ==>
      && |files[k].bytes| % DIRENT_SZ == 0
      && AllNamed(files[k].bytes)
      && DistinctNames(EntriesOf(files, k))
  }

  ghost predicate TreeInv(files: Tree) {
    && 0 in files && files[0].kind.Dir?
    && (forall k, j :: k in files && 0 <= j < k ==> j in files)
    && (forall k :: k in files ==> DirOk(files, k))
    && (forall p, i, k :: Names(files, p, i, k) ==> p < k && k in files)
    && (forall p, i, q, j, k :: Names(files, p, i, k) && Names(files, q, j, k) ==> p == q && i == j)
    && (forall k :: k in files && k != 0 ==> exists p, i :: Names(files, p, i, k))
  }

  /** Following path components from node `k`; a file has nothing below it. */
  function Resolve(files: Tree, k: nat, path: seq<Name>): Option<nat>
    decreases |path|
  {
    if path == [] then Some(k)
    else if k !in files || files[k].kind.File? then None
    else
      match Lookup(EntriesOf(files, k), path[0])
      case None => None
      case Some(j) => Resolve(files, j, path[1..])
  }

  /** Writing a file leaves the tree alone. */
  lemma TreeAfterWrite(files: Tree, k: nat, bytes: seq<Byte>)
    requires TreeInv(files) && k in files && files[k].kind.File?
    ensures TreeInv(files[k := Node(File, bytes)])
  {
    hide Names, DirOk;
    var f := files[k := Node(File, bytes)];
    forall j | j in f ensures DirOk(f, j) { SameNode(files, k, bytes, j); }
    forall p, i, j: nat | 0 <= p && 0 <= i ensures Names(f, p, i, j) == Names(files, p, i, j) {
      NamesAfterWrite(files, k, bytes, p, i, j);
    }
    forall j | j in f && j != 0 ensures exists p, i :: Names(f, p, i, j) {
      var p, i :| Names(files, p, i, j);
      assert Names(f, p, i, j);
    }
  }

  lemma SameNode(files: Tree, k: nat, bytes: seq<Byte>, j: nat)
    requires TreeInv(files) && k in files && files[k].kind.File? && j in files
    ensures DirOk(files[k := Node(File, bytes)], j)
  {
    hide Names;
    assert DirOk(files, j);
  }

  lemma NamesAfterWrite(files: Tree, k: nat, bytes: seq<Byte>, p: nat, i: nat, j: nat)
    requires k in files && files[k].kind.File?
    ensures Names(files[k := Node(File, bytes)], p, i, j) == Names(files, p, i, j)
  {
  }

  /** The tree after node `id` has been created as `name` in directory `k`. */
  function AfterCreate(files: Tree, k: nat, name: Name, kind: InodeKind, id: nat): Tree
    requires k in files && |name| <= NAME_LENGTH_LIMIT
  {
    files[id := Node(kind, [])][k := Node(Dir, files[k].bytes + DirentBytes(name, id))]
  }

  ghost predicate CanCreate(files: Tree, k: nat, name: Name, id: nat) {
    && TreeInv(files) && k in files && files[k].kind.Dir? && GoodName(name)
    && Lookup(EntriesOf(files, k), name).None?
    && id !in files && id < 0x1_0000_0000 && forall j :: 0 <= j < id ==> j in files
  }

  /** Exactly one name and one empty node are new. */
  lemma EntriesAfterCreate(files: Tree, k: nat, name: Name, kind: InodeKind, id: nat)
    requires CanCreate(files, k, name, id)
    ensures var f := AfterCreate(files, k, name, kind, id);
            && EntriesOf(f, k) == EntriesOf(files, k) + [Dirent(name, id)]
            && EntriesOf(f, id) == []
            && (forall j :: j in files && j != k ==> EntriesOf(f, j) == EntriesOf(files, j))
            && (forall j :: j in f ==> DirOk(f, j))
  {
    hide Entries, AllNamed, Names, Lookup, DirentBytes, DistinctNames;
    var f := AfterCreate(files, k, name, kind, id);
    EmptyEntries();
    assert DirOk(files, k);
    EntriesAppend(files[k].bytes, name, id);
    assert f[k].kind.Dir? && f[k].bytes == files[k].bytes + DirentBytes(name, id);
    OneNameMore(EntriesOf(files, k), name, id);
    forall j | j in f ensures DirOk(f, j) {
      if j != id && j != k {
        assert DirOk(files, j);
      } else if j == id {
        assert DistinctNames([]) by { NoNames(); }
      }
    }
  }

  lemma NoNames()
    ensures DistinctNames([])
  {
  }

  lemma OneNameMore(es: seq<Dirent>, name: Name, inode: nat)
    requires DistinctNames(es) && Lookup(es, name).None?
    ensures DistinctNames(es + [Dirent(name, inode)])
  {
    hide Lookup;
  }

  lemma EmptyEntries()
    ensures Entries([]) == [] && AllNamed([])
  {
  }

  lemma TreeAfterCreate(files: Tree, k: nat, name: Name, kind: InodeKind, id: nat)
    requires CanCreate(files, k, name, id)
    ensures TreeInv(AfterCreate(files, k, name, kind, id))
  {
    hide EntriesOf, DirOk, Lookup, Names;
    var f := AfterCreate(files, k, name, kind, id);
    EntriesAfterCreate(files, k, name, kind, id);
    var n := |EntriesOf(files, k)|;
    assert k < id && 0 != id;
    forall p, i, j: nat | 0 <= p && 0 <= i
      ensures Names(f, p, i, j) <==> Names(files, p, i, j) || (p == k && i == n && j == id)
    {
      NamesAfterCreate(files, k, name, kind, id, p, i, j);
    }
    forall p, i | 0 <= p && 0 <= i ensures !Names(files, p, i, id) {}
    forall j | j in f && j != 0 ensures exists p, i :: Names(f, p, i, j) {
      if j == id {
        assert Names(f, k, n, id);
      } else {
        var p, i :| Names(files, p, i, j);
        assert Names(f, p, i, j);
      }
    }
  }

  lemma NamesAfterCreate(files: Tree, k: nat, name: Name, kind: InodeKind, id: nat, p: nat, i: nat, j: nat)
    requires CanCreate(files, k, name, id)
    ensures Names(AfterCreate(files, k, name, kind, id), p, i, j)
       <==> Names(files, p, i, j) || (p == k && i == |EntriesOf(files, k)| && j == id)
  {
    hide EntriesOf, DirOk, Lookup, TreeInv;
    EntriesAfterCreate(files, k, name, kind, id);
  }

  /** Every path that led somewhere still leads there, and the new name leads to the
      new node. */
  lemma {:induction false} ResolveAfterCreate(files: Tree, k: nat, name: Name, kind: InodeKind, id: nat,
                                              from: nat, path: seq<Name>)
    requires CanCreate(files, k, name, id)
    ensures Resolve(files, from, path).Some? && from in files ==>
              Resolve(AfterCreate(files, k, name, kind, id), from, path) == Resolve(files, from, path)
    ensures Resolve(AfterCreate(files, k, name, kind, id), k, [name]) == Some(id)
    decreases |path|
  {
    hide EntriesOf, DirOk, Lookup;
    var f := AfterCreate(files, k, name, kind, id);
    EntriesAfterCreate(files, k, name, kind, id);
    assert DirOk(f, k);
    NewNameFound(files, k, name, kind, id, name);
    SingleStep(f, k, name);
    if path != [] && Resolve(files, from, path).Some? && from in files {
      var j := Lookup(EntriesOf(files, from), path[0]).value;
      if from == k { NewNameFound(files, k, name, kind, id, path[0]); }
      assert Lookup(EntriesOf(f, from), path[0]) == Some(j);
      assert j in files by { FoundIsNode(files, from, path[0]); }
      ResolveAfterCreate(files, k, name, kind, id, j, path[1..]);
    }
  }

  lemma NewNameFound(files: Tree, k: nat, name: Name, kind: InodeKind, id: nat, other: Name)
    requires CanCreate(files, k, name, id)
    ensures var f := AfterCreate(files, k, name, kind, id);
            && Lookup(EntriesOf(f, k), name) == Some(id)
            && (Lookup(EntriesOf(files, k), other).Some?
                ==> Lookup(EntriesOf(f, k), other) == Lookup(EntriesOf(files, k), other))
  {
    hide EntriesOf, Lookup;
    var f := AfterCreate(files, k, name, kind, id);
    EntriesAfterCreate(files, k, name, kind, id);
    assert DirOk(f, k);
    LookupPrefix(EntriesOf(files, k), Dirent(name, id), other);
  }

  lemma FoundIsNode(files: Tree, k: nat, name: Name)
    requires TreeInv(files) && k in files && Lookup(EntriesOf(files, k), name).Some?
    ensures var j := Lookup(EntriesOf(files, k), name).value; j in files && k < j
  {
    hide EntriesOf, DirOk;
    var j := Lookup(EntriesOf(files, k), name).value;
    var i :| 0 <= i < |EntriesOf(files, k)| && EntriesOf(files, k)[i] == Dirent(name, j);
    assert Names(files, k, i, j);
  }

  // ---- One path per node ----

  lemma SingleStep(files: Tree, k: nat, name: Name)
    ensures Resolve(files, k, [name])
         == if k in files && files[k].kind.Dir? then Lookup(EntriesOf(files, k), name) else None
  {
    var rest: seq<Name> := [name][1..];
    assert rest == [];
  }

  lemma {:induction false} ResolveConcat(files: Tree, k: nat, a: seq<Name>, b: seq<Name>)
    ensures Resolve(files, k, a + b)
         == match Resolve(files, k, a) case None => None case Some(j) => Resolve(files, j, b)
    decreases |a|
  {
    if a == [] {
      assert a + b == b;
    } else {
      assert (a + b)[0] == a[0] && (a + b)[1..] == a[1..] + b;
      if k in files && files[k].kind.Dir? && Lookup(EntriesOf(files, k), a[0]).Some? {
        ResolveConcat(files, Lookup(EntriesOf(files, k), a[0]).value, a[1..], b);
      }
    }
  }

  /** Every node can be reached from the root. */
  lemma {:induction false} Reachable(files: Tree, k: nat) returns (path: seq<Name>)
    requires TreeInv(files) && k in files
    ensures Resolve(files, 0, path) == Some(k)
    decreases k
  {
    hide EntriesOf, DirOk, Lookup, Resolve;
    if k == 0 {
      path := [];
      ResolveEmpty(files, 0);
    } else {
      var p: nat, i: nat :| Names(files, p, i, k);
      OneDown(files, p, i, k);
      var above := Reachable(files, p);
      path := above + [EntriesOf(files, p)[i].name];
      ResolveConcat(files, 0, above, [EntriesOf(files, p)[i].name]);
    }
  }

  lemma ResolveEmpty(files: Tree, k: nat)
    ensures Resolve(files, k, []) == Some(k)
  {
  }

  lemma OneDown(files: Tree, p: nat, i: nat, k: nat)
    requires TreeInv(files) && Names(files, p, i, k)
    ensures p < k && p in files && i < |EntriesOf(files, p)|
    ensures Resolve(files, p, [EntriesOf(files, p)[i].name]) == Some(k)
  {
    hide Resolve, Lookup, Entries;
    assert DirOk(files, p);
    LookupAt(EntriesOf(files, p), i);
    SingleStep(files, p, EntriesOf(files, p)[i].name);
  }

  lemma {:induction false} ResolveDown(files: Tree, k: nat, path: seq<Name>)
    requires TreeInv(files) && k in files && Resolve(files, k, path).Some?
    ensures Resolve(files, k, path).value in files && Resolve(files, k, path).value >= k
    ensures path != [] ==> Resolve(files, k, path).value > k
    decreases |path|
  {
    if path != [] {
      FoundIsNode(files, k, path[0]);
      ResolveDown(files, Lookup(EntriesOf(files, k), path[0]).value, path[1..]);
    }
  }

  /** ... and by one path only. */
  lemma {:induction false} PathUnique(files: Tree, a: seq<Name>, b: seq<Name>)
    requires TreeInv(files)
    requires Resolve(files, 0, a).Some? && Resolve(files, 0, a) == Resolve(files, 0, b)
    ensures a == b
    decreases |a|
  {
    hide Resolve, Lookup, EntriesOf, DirOk, Names;
    ResolveDown(files, 0, a);
    ResolveDown(files, 0, b);
    ResolveEmpty(files, 0);
    if a != [] && b != [] {
      var x, m := LastStep(files, a);
      var y, n := LastStep(files, b);
      OneParent(files, x, m, y, n, Resolve(files, 0, a).value);
      PathUnique(files, a[..|a| - 1], b[..|b| - 1]);
      assert a == a[..|a| - 1] + [a[|a| - 1]] && b == b[..|b| - 1] + [b[|b| - 1]];
    }
  }

  lemma OneParent(files: Tree, p: nat, i: nat, q: nat, j: nat, k: nat)
    requires TreeInv(files) && Names(files, p, i, k) && Names(files, q, j, k)
    ensures p == q && i == j
  {
    hide Names, DirOk;
  }

  /** The last component of a path is the name of an entry of the directory before it. */
  lemma LastStep(files: Tree, a: seq<Name>) returns (p: nat, i: nat)
    requires TreeInv(files) && a != [] && Resolve(files, 0, a).Some?
    ensures Resolve(files, 0, a[..|a| - 1]) == Some(p)
    ensures Names(files, p, i, Resolve(files, 0, a).value) && EntriesOf(files, p)[i].name == a[|a| - 1]
  {
    hide Resolve, EntriesOf, DirOk;
    var last := a[|a| - 1];
    assert a == a[..|a| - 1] + [last];
    ResolveConcat(files, 0, a[..|a| - 1], [last]);
    p := Resolve(files, 0, a[..|a| - 1]).value;
    SingleStep(files, p, last);
    ResolveDown(files, 0, a[..|a| - 1]);
    var j := Lookup(EntriesOf(files, p), last).value;
    i :| 0 <= i < |EntriesOf(files, p)| && EntriesOf(files, p)[i] == Dirent(last, j);
  }

  /** A new volume. */
  lemma RootOnly()
    ensures TreeInv(map[0 := Node(Dir, [])])
  {
    hide Entries, AllNamed;
    EmptyEntries();
    var f: Tree := map[0 := Node(Dir, [])];
    assert EntriesOf(f, 0) == [];
  }

  // ---- Paths ----

  /** `path.split('/')` without the empty pieces. */
  function Components(path: seq<Byte>): (cs: seq<Name>)
    ensures forall c :: c in cs ==> c != [] && SLASH !in c
  {
    Split(path, [])
  }

  function Split(path: seq<Byte>, acc: Name): (cs: seq<Name>)
    requires SLASH !in acc
    ensures forall c :: c in cs ==> c != [] && SLASH !in c
    decreases |path|
  {
    if path == [] then (if acc == [] then [] else [acc])
    else if path[0] == SLASH then (if acc == [] then [] else [acc]) + Split(path[1..], [])
    else Split(path[1..], acc + [path[0]])
  }

  lemma {:induction false} SplitJoin(a: seq<Byte>, b: seq<Byte>, acc: Name)
    requires SLASH !in acc
    ensures Split(a + [SLASH] + b, acc) == Split(a, acc) + Split(b, [])
    decreases |a|
  {
    var s := a + [SLASH] + b;
    if a == [] {
      assert s[1..] == b;
    } else {
      assert s[0] == a[0] && s[1..] == a[1..] + [SLASH] + b;
      if a[0] == SLASH {
        SplitJoin(a[1..], b, []);
      } else {
        SplitJoin(a[1..], b, acc + [a[0]]);
      }
    }
  }

  /** Looking up "a/b" is looking up "b" from where "a" leads. */
  lemma ResolveJoin(files: Tree, k: nat, a: seq<Byte>, b: seq<Byte>)
    ensures Resolve(files, k, Components(a + [SLASH] + b))
         == match Resolve(files, k, Components(a)) case None => None case Some(j) => Resolve(files, j, Components(b))
  {
    SplitJoin(a, b, []);
    ResolveConcat(files, k, Components(a), Components(b));
  }
}
