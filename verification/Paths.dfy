/**
 * Which nodes a path can name.
 *
 * `find` splits its argument at slashes and drops the empty pieces, while a name is any
 * byte string without NUL.  A node can be found exactly when no name on the way to it is
 * empty or has a slash.
 */
module Paths {
  import opened Basics
  import opened LittleEndian
  import opened Layout
  import opened FsState
  import opened Directory

  /** Names that survive as one component of a path. */
  predicate Spellable(name: Name) {
    name != [] && SLASH !in name
  }

  function Join(names: seq<Name>): seq<Byte> {
    if names == [] then [] else names[0] + [SLASH] + Join(names[1..])
  }

  lemma {:induction false} SplitPlain(name: Name, acc: Name)
    requires SLASH !in name && SLASH !in acc
    ensures Split(name, acc) == if acc + name == [] then [] else [acc + name]
    decreases |name|
  {
    if name == [] {
      assert acc + name == acc;
    } else {
      assert acc + [name[0]] + name[1..] == acc + name;
      SplitPlain(name[1..], acc + [name[0]]);
    }
  }

  /** Splitting undoes joining. */
  lemma {:induction false} ComponentsJoin(names: seq<Name>)
    requires forall n :: n in names ==> Spellable(n)
    ensures Components(Join(names)) == names
  {
    if names != [] {
      assert names[0] in names;
      ComponentsJoin(names[1..]);
      SplitJoin(names[0], Join(names[1..]), []);
      SplitPlain(names[0], []);
      assert [] + names[0] == names[0];
      assert names == [names[0]] + names[1..];
    }
  }

  /** `find` of `path` from the root leads to node `k`. */
  ghost predicate Finds(files: Tree, path: seq<Byte>, k: nat) {
    Resolve(files, 0, Components(path)) == Some(k)
  }

  /** A node is found by some path exactly when every name on the one way to it is spellable. */
  lemma FoundIff(files: Tree, k: nat, names: seq<Name>)
    requires TreeInv(files) && Resolve(files, 0, names) == Some(k)
    ensures (exists path :: Finds(files, path, k)) <==> (forall n :: n in names ==> Spellable(n))
  {
    hide TreeInv, Resolve, Components, Join;
    if forall n :: n in names ==> Spellable(n) {
      ComponentsJoin(names);
      assert Finds(files, Join(names), k);
    }
    if exists path :: Finds(files, path, k) {
      var path :| Finds(files, path, k);
      PathUnique(files, Components(path), names);
    }
  }

  /** The tree with one file, called `name`. */
  function OneFile(name: Name): Tree
    requires GoodName(name)
  {
    AfterCreate(map[0 := Node(Dir, [])], 0, name, File, 1)
  }

  lemma OneFileTree(name: Name)
    requires GoodName(name)
    ensures TreeInv(OneFile(name)) && Resolve(OneFile(name), 0, [name]) == Some(1)
  {
    hide TreeInv, Resolve, AfterCreate;
    var f: Tree := map[0 := Node(Dir, [])];
    RootOnly();
    EmptyEntries();
    assert EntriesOf(f, 0) == [];
    TreeAfterCreate(f, 0, name, File, 1);
    ResolveAfterCreate(f, 0, name, File, 1, 0, []);
  }

  /** "a/b" and the empty name are stored, and no path finds the file. */
  lemma Lost(path: seq<Byte>)
    ensures GoodName([97, SLASH, 98]) && !Finds(OneFile([97, SLASH, 98]), path, 1)
    ensures GoodName([]) && !Finds(OneFile([]), path, 1)
  {
    hide TreeInv, Resolve, OneFile, Finds;
    var slashed: Name := [97, SLASH, 98];
    OneFileTree(slashed);
    FoundIff(OneFile(slashed), 1, [slashed]);
    assert !Spellable(slashed) && slashed in [slashed];
    var empty: Name := [];
    OneFileTree(empty);
    FoundIff(OneFile(empty), 1, [empty]);
    assert !Spellable(empty) && empty in [empty];
  }
}
