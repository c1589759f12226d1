/**
 * Sv39 page tables.
 *
 * A page table is a three-level radix tree laid out in raw frames.  `TableInv` is
 * the shape of that tree: every table frame hangs at one place only.  `Refines`
 * says that the tree means a given map from virtual page number to leaf.
 */
module Sv39 {
  import opened Basics
  import opened LittleEndian
  import opened PhysMemory

  const VPN_LIMIT := 0x800_0000      // 2^27 virtual pages
  const PPN_LIMIT := 0x1000_0000_0000  // 2^44 physical pages
  const PTE_LIMIT := 0x40_0000_0000_0000 // the ten bits above are reserved
  const FLAG_V := 1

  // ---- Entries ----

  /** `PageTableEntry::new`: the ppn sits above bit 10, the eight flags in the low byte. */
  function MakePte(ppn: nat, flags: nat): (e: nat)
    requires ppn < PPN_LIMIT && flags < 256
    ensures e < PTE_LIMIT
  {
    ppn * 1024 + flags
  }

  function PpnOf(e: nat): nat { e / 1024 % PPN_LIMIT }

  function FlagsOf(e: nat): nat { e % 256 }

  predicate IsValid(e: nat) { FlagsOf(e) % 2 == 1 }

  lemma PteRoundTrip(ppn: nat, flags: nat)
    requires ppn < PPN_LIMIT && flags < 256
    ensures MakePte(ppn, flags) / 0x400 == ppn && MakePte(ppn, flags) % 0x400 == flags
    ensures PpnOf(MakePte(ppn, flags)) == ppn && FlagsOf(MakePte(ppn, flags)) == flags
    ensures IsValid(MakePte(ppn, flags)) <==> flags % 2 == 1
  {
    Shifted10(ppn, flags);
    Shifted8(4 * ppn, flags);
  }

  lemma Shifted10(q: nat, r: nat)
    requires r < 1024
    ensures (q * 1024 + r) / 1024 == q && (q * 1024 + r) % 1024 == r
  {
  }

  lemma Shifted8(q: nat, r: nat)
    requires r < 256
    ensures (q * 256 + r) % 256 == r
  {
  }

  /** `flags | V`. */
  function WithV(flags: nat): (r: nat)
    requires flags < 256
    ensures r < 256 && r % 2 == 1 && r / 2 == flags / 2
  {
    if flags % 2 == 1 then flags else flags + 1
  }

  // ---- Indexes ----

  function Index(vpn: nat, level: nat): (i: nat)
    requires level < 3
    ensures i < 512
  {
    if level == 0 then vpn / 512 / 512 % 512 else if level == 1 then vpn / 512 % 512 else vpn % 512
  }

  /** `indexes`: peels nine bits at a time, lowest last. */
  method Indexes(vpn: nat) returns (idx: seq<nat>)
    ensures |idx| == 3 && forall l :: 0 <= l < 3 ==> idx[l] == Index(vpn, l)
    ensures forall w: nat :: vpn < VPN_LIMIT && w < VPN_LIMIT && SameIndexes(w, idx) ==> w == vpn
  {
    var v := vpn;
    idx := [0, 0, 0];
    var i := 3;
    while i > 0
      invariant 0 <= i <= 3 && |idx| == 3
      invariant v == (if i == 3 then vpn else if i == 2 then vpn / 512
                      else if i == 1 then vpn / 512 / 512 else vpn / 512 / 512 / 512)
      invariant forall l :: i <= l < 3 ==> idx[l] == Index(vpn, l)
    {
      i := i - 1;
      idx := idx[i := v % 512];
      v := v / 512;
    }
    forall w: nat | vpn < VPN_LIMIT && w < VPN_LIMIT && SameIndexes(w, idx) ensures w == vpn {
      IndexInjective(vpn, w);
    }
  }

  predicate SameIndexes(vpn: nat, idx: seq<nat>) {
    |idx| == 3 && forall l :: 0 <= l < 3 ==> Index(vpn, l) == idx[l]
  }

  lemma IndexInjective(v: nat, w: nat)
    requires v < VPN_LIMIT && w < VPN_LIMIT
    requires forall l :: 0 <= l < 3 ==> Index(v, l) == Index(w, l)
    ensures v == w
  {
    hide Index;
    Recomposed(v);
    Recomposed(w);
    assert Index(v, 0) == Index(w, 0) && Index(v, 1) == Index(w, 1) && Index(v, 2) == Index(w, 2);
  }

  /** The indexes are the digits of the page number. */
  lemma Recomposed(v: nat)
    requires v < VPN_LIMIT
    ensures v == (Index(v, 0) * 512 + Index(v, 1)) * 512 + Index(v, 2)
  {
    var u := v / 512;
    assert v == u * 512 + v % 512;
    assert u == u / 512 * 512 + u % 512;
    assert u / 512 < 512;
  }

  // ---- The tree in memory ----

  type Mem = seq<Page>

  function Pte(m: Mem, t: nat, i: nat): nat
    requires i < 512
  {
    if t < |m| then Word(m[t], 8 * i, 8) else 0
  }

  function SetPte(m: Mem, t: nat, i: nat, e: nat): (r: Mem)
    requires i < 512 && t < |m| && e < 0x1_0000_0000_0000_0000
    ensures |r| == |m| && Pte(r, t, i) == e
    ensures forall u: nat, j: nat :: j < 512 && (u != t || j != i) ==> Pte(r, u, j) == Pte(m, u, j)
    ensures forall u: nat :: u < |m| && u != t ==> r[u] == m[u]
  {
    Pow256Values();
    var p: Page := SetWord(m[t], 8 * i, 8, e);
    WordOfSetWord(m[t], 8 * i, 8, e);
    assert forall j: nat :: j < 512 && j != i ==> Word(p, 8 * j, 8) == Word(m[t], 8 * j, 8) by {
      forall j: nat | j < 512 && j != i ensures Word(p, 8 * j, 8) == Word(m[t], 8 * j, 8) {
        OtherWordOfSetWord(m[t], 8 * i, 8, e, 8 * j, 8);
      }
    }
    m[t := p]
  }

  lemma ZeroPte(m: Mem, t: nat, i: nat)
    requires i < 512 && t < |m| && m[t] == ZeroPage()
    ensures Pte(m, t, i) == 0
  {
    DecodeZeros(m[t][8 * i..8 * i + 8]);
  }

  /** The table that entry `i` of table `t` points to. */
  function Child(m: Mem, t: nat, i: nat): Option<nat>
    requires i < 512
  {
    if IsValid(Pte(m, t, i)) then Some(PpnOf(Pte(m, t, i))) else None
  }

  /** Second-level table for the top index `a`. */
  function Table1(m: Mem, root: nat, a: nat): Option<nat>
    requires a < 512
  {
    Child(m, root, a)
  }

  /** Leaf table for the upper 18 bits `b` of a page number. */
  function Table2(m: Mem, root: nat, b: nat): Option<nat>
    requires b < 0x4_0000
  {
    match Table1(m, root, b / 512)
    case None => None
    case Some(t) => Child(m, t, b % 512)
  }

  /** `find_pte` followed by a read: `None` when an intermediate table is missing, and
      possibly an invalid entry otherwise. */
  function Translate(m: Mem, root: nat, vpn: nat): Option<nat>
    requires vpn < VPN_LIMIT
  {
    match Table2(m, root, vpn / 512)
    case None => None
    case Some(t) => Some(Pte(m, t, vpn % 512))
  }

  datatype Leaf = Leaf(ppn: nat, flags: nat)

  /** What the kernel's own walk finds: a leaf for every valid last-level entry. */
  function Lookup(m: Mem, root: nat, vpn: nat): Option<Leaf>
    requires vpn < VPN_LIMIT
  {
    match Translate(m, root, vpn)
    case None => None
    case Some(e) => if IsValid(e) then Some(Leaf(PpnOf(e), FlagsOf(e))) else None
  }

  /** Every table hangs at one place: tables of the two lower levels are distinct frames
      of the page table, different from each other and from the root. */
  ghost predicate TableInv(m: Mem, root: nat, frames: set<nat>) {
    && root in frames
    && (forall f :: f in frames ==> f < |m|)
    && (forall a :: 0 <= a < 512 && Table1(m, root, a).Some? ==>
          Table1(m, root, a).value in frames && Table1(m, root, a).value != root)
    && (forall b :: 0 <= b < 0x4_0000 && Table2(m, root, b).Some? ==>
          Table2(m, root, b).value in frames && Table2(m, root, b).value != root)
    && (forall a, a2 :: 0 <= a < 512 && 0 <= a2 < 512 && Table1(m, root, a).Some? && a != a2
          ==> Table1(m, root, a) != Table1(m, root, a2))
    && (forall b, b2 :: 0 <= b < 0x4_0000 && 0 <= b2 < 0x4_0000 && Table2(m, root, b).Some? && b != b2
          ==> Table2(m, root, b) != Table2(m, root, b2))
    && (forall a, b :: 0 <= a < 512 && 0 <= b < 0x4_0000 && Table1(m, root, a).Some?
          ==> Table1(m, root, a) != Table2(m, root, b))
    && PlainTables(m, root, frames)
  }

  /** A valid entry that points to a table has no flag but V. */
  ghost predicate PlainAt(m: Mem, t: nat, i: nat)
    requires i < 512
  {
    Child(m, t, i).Some? ==> FlagsOf(Pte(m, t, i)) == FLAG_V
  }

  ghost predicate PlainBelow(m: Mem, root: nat, b: nat)
    requires b < 0x4_0000
  {
    Table1(m, root, b / 512).Some? ==> PlainAt(m, Table1(m, root, b / 512).value, b % 512)
  }

  /** The shape of the entries: reserved bits are clear, and entries of the two upper
      levels are plain. */
  ghost predicate PlainTables(m: Mem, root: nat, frames: set<nat>) {
    && (forall f: nat, i: nat {:trigger Pte(m, f, i)} :: f in frames && i < 512 ==> Pte(m, f, i) < PTE_LIMIT)
    && (forall a: nat {:trigger PlainAt(m, root, a)} :: a < 512 ==> PlainAt(m, root, a))
    && (forall b: nat {:trigger PlainBelow(m, root, b)} :: b < 0x4_0000 ==> PlainBelow(m, root, b))
  }

  /** The tree means the map `view`. */
  ghost predicate Refines(m: Mem, root: nat, frames: set<nat>, view: map<nat, Leaf>) {
    && TableInv(m, root, frames)
    && (forall v :: v in view ==> v < VPN_LIMIT)
    && (forall v :: 0 <= v < VPN_LIMIT ==> Lookup(m, root, v) == if v in view then Some(view[v]) else None)
  }

  // ---- What changes keep ----

  lemma PlainSame(m: Mem, m2: Mem, root: nat, frames: set<nat>)
    requires TableInv(m, root, frames) && |m2| == |m|
    requires forall f :: f in frames ==> m2[f] == m[f]
    ensures PlainTables(m2, root, frames)
  {
    hide IsValid, PpnOf, FlagsOf;
    forall f: nat, i: nat | f in frames && i < 512 ensures Pte(m2, f, i) < PTE_LIMIT {
      assert Pte(m2, f, i) == Pte(m, f, i);
    }
    forall a: nat | a < 512 ensures PlainAt(m2, root, a) { assert PlainAt(m, root, a); }
    forall b: nat | b < 0x4_0000 ensures PlainBelow(m2, root, b) {
      assert b / 512 < 512;
      assert PlainBelow(m, root, b);
    }
  }

  /** Setting an entry of table `t` keeps the shape when no upper-level entry is touched,
      or when what is written is plain. */
  lemma PlainWrite(m: Mem, root: nat, frames: set<nat>, t: nat, i: nat, e: nat)
    requires TableInv(m, root, frames) && t in frames && i < 512 && e < PTE_LIMIT
    requires forall a :: 0 <= a < 512 ==> Table1(SetPte(m, t, i, e), root, a) == Table1(m, root, a)
    requires (IsValid(e) ==> FlagsOf(e) == FLAG_V)
             || (t != root && forall a :: 0 <= a < 512 ==> Table1(m, root, a) != Some(t))
    ensures PlainTables(SetPte(m, t, i, e), root, frames)
  {
    hide IsValid, PpnOf, FlagsOf, SetPte;
    var m2 := SetPte(m, t, i, e);
    forall f: nat, j: nat | f in frames && j < 512 ensures Pte(m2, f, j) < PTE_LIMIT {
      assert Pte(m2, f, j) == Pte(m, f, j) || Pte(m2, f, j) == e;
    }
    forall a: nat | a < 512 ensures PlainAt(m2, root, a) { assert PlainAt(m, root, a); }
    forall b: nat | b < 0x4_0000 ensures PlainBelow(m2, root, b) {
      assert b / 512 < 512;
      assert PlainBelow(m, root, b);
    }
  }

  /** A zeroed frame taken into the table brings no entries. */
  lemma PlainFresh(m: Mem, root: nat, frames: set<nat>, p: nat)
    requires PlainTables(m, root, frames) && p < |m| && m[p] == ZeroPage()
    ensures PlainTables(m, root, frames + {p})
  {
    hide IsValid, PpnOf, FlagsOf;
    forall i: nat | i < 512 ensures Pte(m, p, i) == 0 { ZeroPte(m, p, i); }
  }

  /** A zeroed frame as second-level table: the new entry is plain and leads nowhere. */
  lemma PlainNewTable1(m: Mem, root: nat, frames: set<nat>, a0: nat, p: nat, e: nat)
    requires TableInv(m, root, frames) && a0 < 512 && p < |m| && m[p] == ZeroPage() && p !in frames
    requires e < PTE_LIMIT && IsValid(e) && FlagsOf(e) == FLAG_V && PpnOf(e) == p
    ensures PlainTables(SetPte(m, root, a0, e), root, frames + {p})
  {
    hide IsValid, PpnOf, FlagsOf, SetPte;
    var m2 := SetPte(m, root, a0, e);
    forall f: nat, j: nat | f in frames + {p} && j < 512 ensures Pte(m2, f, j) < PTE_LIMIT {
      if f == p { ZeroPte(m2, p, j); }
      else { assert Pte(m2, f, j) == Pte(m, f, j) || Pte(m2, f, j) == e; }
    }
    forall a: nat | a < 512 ensures PlainAt(m2, root, a) { assert PlainAt(m, root, a); }
    forall b: nat | b < 0x4_0000 ensures PlainBelow(m2, root, b) {
      assert b / 512 < 512;
      assert PlainBelow(m, root, b);
      if b / 512 == a0 { NoChild(m2, p, b % 512); }
    }
  }

  /** Two memories that agree on the table frames have the same tree. */
  lemma TablesSame(m: Mem, m2: Mem, root: nat, frames: set<nat>)
    requires TableInv(m, root, frames) && |m2| == |m|
    requires forall f :: f in frames ==> m2[f] == m[f]
    ensures forall a :: 0 <= a < 512 ==> Table1(m2, root, a) == Table1(m, root, a)
    ensures forall b :: 0 <= b < 0x4_0000 ==> Table2(m2, root, b) == Table2(m, root, b)
  {
    hide IsValid, PpnOf;
    forall a | 0 <= a < 512 ensures Table1(m2, root, a) == Table1(m, root, a) {}
    forall b | 0 <= b < 0x4_0000 ensures Table2(m2, root, b) == Table2(m, root, b) {
      assert b / 512 < 512;
    }
  }

  lemma FrameLemma(m: Mem, m2: Mem, root: nat, frames: set<nat>, view: map<nat, Leaf>)
    requires Refines(m, root, frames, view) && |m2| == |m|
    requires forall f :: f in frames ==> m2[f] == m[f]
    ensures Refines(m2, root, frames, view)
  {
    hide IsValid, PpnOf, FlagsOf, PlainTables;
    TablesSame(m, m2, root, frames);
    PlainSame(m, m2, root, frames);
    hide Table1, Table2;
    forall v | 0 <= v < VPN_LIMIT ensures Lookup(m2, root, v) == Lookup(m, root, v) {
      assert v / 512 < 0x4_0000;
    }
  }

  /** Writing a leaf entry changes the meaning at one page number only. */
  lemma WriteLeaf(m: Mem, root: nat, frames: set<nat>, view: map<nat, Leaf>, vpn: nat, t: nat, e: nat)
    requires Refines(m, root, frames, view) && vpn < VPN_LIMIT && e < PTE_LIMIT
    requires Table2(m, root, vpn / 512) == Some(t) && t < |m|
    ensures var m2 := SetPte(m, t, vpn % 512, e);
            Refines(m2, root, frames, if IsValid(e) then view[vpn := Leaf(PpnOf(e), FlagsOf(e))] else view - {vpn})
  {
    hide IsValid, PpnOf, FlagsOf, SetPte, Lookup, Table1, Table2;
    var m2 := SetPte(m, t, vpn % 512, e);
    WriteLeafTables(m, root, frames, vpn / 512, t, vpn % 512, e);
    hide TableInv;
    forall v | 0 <= v < VPN_LIMIT
      ensures Lookup(m2, root, v) == if v != vpn then Lookup(m, root, v)
                                     else if IsValid(e) then Some(Leaf(PpnOf(e), FlagsOf(e))) else None
    {
      LookupAfterWrite(m, root, frames, vpn, t, e, v);
    }
  }

  lemma LookupAfterWrite(m: Mem, root: nat, frames: set<nat>, vpn: nat, t: nat, e: nat, v: nat)
    requires TableInv(m, root, frames) && vpn < VPN_LIMIT && v < VPN_LIMIT && e < PTE_LIMIT
    requires Table2(m, root, vpn / 512) == Some(t) && t < |m|
    ensures Lookup(SetPte(m, t, vpn % 512, e), root, v)
         == if v != vpn then Lookup(m, root, v)
            else if IsValid(e) then Some(Leaf(PpnOf(e), FlagsOf(e))) else None
  {
    hide IsValid, PpnOf, FlagsOf, SetPte, Table1, Table2;
    WriteLeafTables(m, root, frames, vpn / 512, t, vpn % 512, e);
    assert v / 512 < 0x4_0000;
    if v != vpn && v / 512 == vpn / 512 {
      assert v % 512 != vpn % 512;
    }
  }

  lemma WriteLeafTables(m: Mem, root: nat, frames: set<nat>, b0: nat, t: nat, i: nat, e: nat)
    requires TableInv(m, root, frames) && b0 < 0x4_0000 && i < 512 && e < PTE_LIMIT
    requires Table2(m, root, b0) == Some(t) && t < |m|
    ensures var m2 := SetPte(m, t, i, e);
            && (forall a :: 0 <= a < 512 ==> Table1(m2, root, a) == Table1(m, root, a))
            && (forall b :: 0 <= b < 0x4_0000 ==> Table2(m2, root, b) == Table2(m, root, b))
            && TableInv(m2, root, frames)
  {
    hide IsValid, PpnOf, SetPte, PlainTables;
    var m2 := SetPte(m, t, i, e);
    forall a | 0 <= a < 512 ensures Table1(m2, root, a) == Table1(m, root, a) {}
    forall b | 0 <= b < 0x4_0000 ensures Table2(m2, root, b) == Table2(m, root, b) {
      assert b / 512 < 512;
      assert Table1(m, root, b / 512) != Some(t);
    }
    hide Table1, Table2;
    PlainWrite(m, root, frames, t, i, e);
  }

  /** The entry written is the one found later. */
  lemma WrittenEntry(m: Mem, root: nat, frames: set<nat>, view: map<nat, Leaf>, vpn: nat, t: nat, e: nat)
    requires Refines(m, root, frames, view) && vpn < VPN_LIMIT && e < PTE_LIMIT
    requires Table2(m, root, vpn / 512) == Some(t) && t < |m|
    ensures Translate(SetPte(m, t, vpn % 512, e), root, vpn) == Some(e)
  {
    hide IsValid, PpnOf, FlagsOf, SetPte, Table1, Table2;
    WriteLeafTables(m, root, frames, vpn / 512, t, vpn % 512, e);
    assert vpn / 512 < 0x4_0000;
  }

  /** A fresh zeroed frame becomes the second-level table of top index `a0`. */
  lemma NewTable1(m: Mem, root: nat, frames: set<nat>, view: map<nat, Leaf>, a0: nat, p: nat)
    requires Refines(m, root, frames, view) && a0 < 512 && Table1(m, root, a0).None?
    requires p !in frames && p < |m| && p < PPN_LIMIT && m[p] == ZeroPage()
    ensures root < |m|
    ensures var m2 := SetPte(m, root, a0, MakePte(p, FLAG_V));
            && Refines(m2, root, frames + {p}, view)
            && Table1(m2, root, a0) == Some(p)
            && (forall b :: 0 <= b < 0x4_0000 ==> Table2(m2, root, b) == Table2(m, root, b))
  {
    hide SetPte, MakePte, PlainTables, Table1, Table2, Lookup, IsValid, PpnOf, FlagsOf;
    NewTable1Tables(m, root, frames, a0, p);
    SameLeaves(m, SetPte(m, root, a0, MakePte(p, FLAG_V)), root, frames, root);
  }

  lemma NewTable1Tables(m: Mem, root: nat, frames: set<nat>, a0: nat, p: nat)
    requires TableInv(m, root, frames) && a0 < 512 && Table1(m, root, a0).None?
    requires p !in frames && p < |m| && p < PPN_LIMIT && m[p] == ZeroPage()
    ensures root < |m|
    ensures var m2 := SetPte(m, root, a0, MakePte(p, FLAG_V));
            && (forall a :: 0 <= a < 512 ==> Table1(m2, root, a) == if a == a0 then Some(p) else Table1(m, root, a))
            && (forall b :: 0 <= b < 0x4_0000 ==> Table2(m2, root, b) == Table2(m, root, b))
            && PlainTables(m2, root, frames + {p})
  {
    hide SetPte, MakePte, PlainTables;
    PteRoundTrip(p, FLAG_V);
    var m2 := SetPte(m, root, a0, MakePte(p, FLAG_V));
    PlainNewTable1(m, root, frames, a0, p, MakePte(p, FLAG_V));
    hide IsValid, PpnOf, FlagsOf;
    forall a | 0 <= a < 512 ensures Table1(m2, root, a) == if a == a0 then Some(p) else Table1(m, root, a) {}
    forall b | 0 <= b < 0x4_0000 ensures Table2(m2, root, b) == Table2(m, root, b) {
      assert b / 512 < 512;
      if b / 512 == a0 { NoChild(m2, p, b % 512); }
    }
  }

  lemma NoChild(m: Mem, p: nat, i: nat)
    requires i < 512 && p < |m| && m[p] == ZeroPage()
    ensures Child(m, p, i).None?
  {
    ZeroPte(m, p, i);
  }

  /** Writing into a table that is no leaf table leaves all leaves alone. */
  lemma SameLeaves(m: Mem, m2: Mem, root: nat, frames: set<nat>, t: nat)
    requires TableInv(m, root, frames) && |m2| == |m| && forall u: nat :: u < |m| && u != t ==> m2[u] == m[u]
    requires forall b :: 0 <= b < 0x4_0000 ==>
               Table2(m, root, b) != Some(t) && Table2(m2, root, b) == Table2(m, root, b)
    ensures forall v :: 0 <= v < VPN_LIMIT ==> Lookup(m2, root, v) == Lookup(m, root, v)
  {
    hide Table1, Table2, IsValid, PpnOf, FlagsOf;
    forall v | 0 <= v < VPN_LIMIT ensures Lookup(m2, root, v) == Lookup(m, root, v) {
      assert v / 512 < 0x4_0000;
    }
  }

  /** A fresh zeroed frame becomes the leaf table of upper bits `b0`. */
  lemma NewTable2(m: Mem, root: nat, frames: set<nat>, view: map<nat, Leaf>, b0: nat, t: nat, p: nat)
    requires Refines(m, root, frames, view) && b0 < 0x4_0000
    requires Table1(m, root, b0 / 512) == Some(t) && Table2(m, root, b0).None?
    requires p !in frames && p < |m| && p < PPN_LIMIT && m[p] == ZeroPage()
    ensures t < |m|
    ensures var m2 := SetPte(m, t, b0 % 512, MakePte(p, FLAG_V));
            && Refines(m2, root, frames + {p}, view)
            && Table2(m2, root, b0) == Some(p)
  {
    hide SetPte, MakePte, PlainTables, Table1, Table2, Lookup, IsValid, PpnOf, FlagsOf;
    assert b0 / 512 < 512;
    var m2 := SetPte(m, t, b0 % 512, MakePte(p, FLAG_V));
    NewTable2Tables(m, root, frames, b0, t, p);
    NewLeafTable(m, m2, root, frames, b0, t, p);
  }

  lemma NewTable2Tables(m: Mem, root: nat, frames: set<nat>, b0: nat, t: nat, p: nat)
    requires TableInv(m, root, frames) && b0 < 0x4_0000
    requires Table1(m, root, b0 / 512) == Some(t) && Table2(m, root, b0).None?
    requires p !in frames && p < |m| && p < PPN_LIMIT && m[p] == ZeroPage()
    ensures t < |m|
    ensures var m2 := SetPte(m, t, b0 % 512, MakePte(p, FLAG_V));
            && (forall a :: 0 <= a < 512 ==> Table1(m2, root, a) == Table1(m, root, a))
            && (forall b :: 0 <= b < 0x4_0000 ==>
                  Table2(m2, root, b) == if b == b0 then Some(p) else Table2(m, root, b))
            && PlainTables(m2, root, frames + {p})
  {
    hide SetPte, MakePte, PlainTables;
    PteRoundTrip(p, FLAG_V);
    assert b0 / 512 < 512;
    var m2 := SetPte(m, t, b0 % 512, MakePte(p, FLAG_V));
    hide IsValid, PpnOf, FlagsOf;
    forall a | 0 <= a < 512 ensures Table1(m2, root, a) == Table1(m, root, a) {}
    forall b | 0 <= b < 0x4_0000 ensures Table2(m2, root, b) == if b == b0 then Some(p) else Table2(m, root, b) {
      assert b / 512 < 512;
      if Table1(m, root, b / 512) == Some(t) {
        assert b / 512 == b0 / 512;
        if b % 512 == b0 % 512 { assert b == b0; }
      }
    }
    hide Table1, Table2;
    PlainWrite(m, root, frames, t, b0 % 512, MakePte(p, FLAG_V));
    PlainFresh(m2, root, frames, p);
  }

  lemma NewLeafTable(m: Mem, m2: Mem, root: nat, frames: set<nat>, b0: nat, t: nat, p: nat)
    requires TableInv(m, root, frames) && |m2| == |m| && forall u: nat :: u < |m| && u != t ==> m2[u] == m[u]
    requires b0 < 0x4_0000 && Table1(m, root, b0 / 512) == Some(t) && p < |m| && m[p] == ZeroPage() && p != t
    requires Table2(m, root, b0).None?
    requires forall b :: 0 <= b < 0x4_0000 ==> Table2(m2, root, b) == if b == b0 then Some(p) else Table2(m, root, b)
    ensures forall v :: 0 <= v < VPN_LIMIT ==> Lookup(m2, root, v) == Lookup(m, root, v)
  {
    assert b0 / 512 < 512;
    hide Table1, Table2, PpnOf, FlagsOf;
    forall v | 0 <= v < VPN_LIMIT ensures Lookup(m2, root, v) == Lookup(m, root, v) {
      assert v / 512 < 0x4_0000;
      if v / 512 == b0 {
        ZeroPte(m2, p, v % 512);
      }
    }
  }

  lemma PlainEmpty(m: Mem, root: nat)
    requires root < |m| && m[root] == ZeroPage()
    ensures PlainTables(m, root, {root})
  {
    hide PpnOf, FlagsOf;
    forall i: nat | i < 512 ensures Pte(m, root, i) == 0 && Child(m, root, i).None? {
      ZeroPte(m, root, i);
      NoChild(m, root, i);
    }
    forall b: nat | b < 0x4_0000 ensures PlainBelow(m, root, b) { assert b / 512 < 512; }
  }

  /** A zeroed root means the empty map. */
  lemma EmptyTable(m: Mem, root: nat)
    requires root < |m| && m[root] == ZeroPage()
    ensures Refines(m, root, {root}, map[])
  {
    hide PpnOf, FlagsOf;
    forall a | 0 <= a < 512 ensures Table1(m, root, a).None? { NoChild(m, root, a); }
    forall b | 0 <= b < 0x4_0000 ensures Table2(m, root, b).None? { assert b / 512 < 512; }
    PlainEmpty(m, root);
    hide Table1, Table2, PlainTables;
    forall v | 0 <= v < VPN_LIMIT ensures Lookup(m, root, v).None? { assert v / 512 < 0x4_0000; }
  }

  /** Tables that mapping `vpn` still has to create. */
  function TablesMissing(m: Mem, root: nat, vpn: nat): nat
    requires vpn < VPN_LIMIT
  {
    if Table1(m, root, vpn / 512 / 512).None? then 2 else if Table2(m, root, vpn / 512).None? then 1 else 0
  }

  function Token(root: nat): nat { 0x8000_0000_0000_0000 + root }

  function FromToken(satp: nat): nat { satp % PPN_LIMIT }

  /** The root page number survives the trip through `satp`: it is in the low 44 bits, the
      address space identifier above it is zero, the mode above that is 8, for Sv39. */
  lemma TokenRoundTrip(root: nat)
    requires root < PPN_LIMIT
    ensures FromToken(Token(root)) == root
    ensures Token(root) / 0x1000_0000_0000_0000 == 8 && Token(root) / 0x1000_0000_0000 % 0x1_0000 == 0
    ensures Token(root) % 0x1000_0000_0000 == root
  {
  }

  // ---- The walk of the hardware ----

  predicate HasR(flags: nat) { flags / 2 % 2 == 1 }

  predicate HasW(flags: nat) { flags / 4 % 2 == 1 }

  predicate HasX(flags: nat) { flags / 8 % 2 == 1 }

  /** U, A and D, which are reserved in an entry that points to a table. */
  predicate HasUAD(flags: nat) { flags / 16 % 2 == 1 || flags / 64 % 2 == 1 || flags / 128 % 2 == 1 }

  /** Number of pages a leaf of that level spans. */
  function Span(level: nat): nat
    requires level < 3
  {
    if level == 0 then 1 else if level == 1 then 512 else 0x4_0000
  }

  /** Entry `i` of the table in frame `t`: eight bytes, the lowest first. */
  function HardwareEntry(m: Mem, t: nat, i: nat): nat
    requires i < 512
  {
    if t >= |m| then 0
    else
      var s := m[t][8 * i..8 * i + 8];
      Number(s[0], s[1], s[2], s[3]) + 0x1_0000_0000 * Number(s[4], s[5], s[6], s[7])
  }

  /** Address translation as section 4.3.2 of the RISC-V Privileged Architecture describes
      it for Sv39, from table `t` at `level` down, up to the check of access rights: `None`
      is a page fault.  The page number is in bits 10 to 53 of an entry, the flags are in
      its lowest byte. */
  function HardwareWalk(m: Mem, t: nat, vpn: nat, level: nat): Option<Leaf>
    requires level < 3
    decreases level
  {
    var e := HardwareEntry(m, t, vpn / Span(level) % 512);
    var ppn, flags := e / 0x400 % 0x1000_0000_0000, e % 0x100;
    if e % 2 == 0 || (!HasR(flags) && HasW(flags)) || e / 0x40_0000_0000_0000 != 0 then None
    else if HasR(flags) || HasX(flags) then
      if ppn % Span(level) != 0 then None
      else Some(Leaf(ppn + vpn % Span(level), flags))
    else if level == 0 || HasUAD(flags) then None
    else HardwareWalk(m, ppn, vpn, level - 1)
  }

  /** The same from the register on: mode 8 in its four highest bits, the number of the root
      table in its 44 lowest. */
  function HardwareTranslate(m: Mem, satp: nat, vpn: nat): Option<Leaf> {
    if satp / 0x1000_0000_0000_0000 != 8 then None else HardwareWalk(m, satp % 0x1000_0000_0000, vpn, 2)
  }

  /** The kernel reads the entry the hardware reads. */
  lemma SameEntry(m: Mem, t: nat, vpn: nat, level: nat)
    requires level < 3
    ensures Span(level) > 0
    ensures HardwareEntry(m, t, vpn / Span(level) % 512) == Pte(m, t, Index(vpn, 2 - level))
  {
    var i := Index(vpn, 2 - level);
    assert vpn / Span(level) % 512 == i by {
      if level == 2 { DivideTwice(vpn, 512, 512); }
    }
    if t < |m| {
      DecodeEight(m[t][8 * i..8 * i + 8]);
    }
  }

  /** The flags of a last-level entry that the hardware takes for a leaf. */
  predicate Usable(flags: nat) {
    (HasR(flags) || HasX(flags)) && (HasW(flags) ==> HasR(flags))
  }

  /** A plain entry leads the hardware one level down. */
  lemma PlainDescends(m: Mem, t: nat, vpn: nat, level: nat)
    requires 0 < level < 3 && Pte(m, t, Index(vpn, 2 - level)) < PTE_LIMIT && PlainAt(m, t, Index(vpn, 2 - level))
    ensures HardwareWalk(m, t, vpn, level)
         == match Child(m, t, Index(vpn, 2 - level))
            case None => None
            case Some(u) => HardwareWalk(m, u, vpn, level - 1)
  {
    hide HardwareEntry, Pte, Index;
    SameEntry(m, t, vpn, level);
    SameDecoding(Pte(m, t, Index(vpn, 2 - level)));
  }

  lemma SameDecoding(e: nat)
    ensures PpnOf(e) == e / 0x400 % 0x1000_0000_0000 && FlagsOf(e) == e % 0x100
    ensures IsValid(e) <==> e % 2 == 1
    ensures e < PTE_LIMIT <==> e / 0x40_0000_0000_0000 == 0
  {
    assert e == e / 256 * 256 + e % 256;
  }

  /** At the last level the hardware takes a usable entry for a leaf. */
  lemma LastLevel(m: Mem, t: nat, vpn: nat)
    requires Pte(m, t, Index(vpn, 2)) < PTE_LIMIT
    ensures var e := Pte(m, t, Index(vpn, 2));
            HardwareWalk(m, t, vpn, 0)
            == if IsValid(e) && Usable(FlagsOf(e)) then Some(Leaf(PpnOf(e), FlagsOf(e))) else None
  {
    hide HardwareEntry, Pte, Index;
    SameEntry(m, t, vpn, 0);
    SameDecoding(Pte(m, t, Index(vpn, 2)));
  }

  /** The hardware sees the pages the kernel's walk finds, with the same leaf, exactly when
      the flags of the leaf are usable; every other page faults. */
  lemma HardwareSees(m: Mem, root: nat, frames: set<nat>, vpn: nat)
    requires TableInv(m, root, frames) && vpn < VPN_LIMIT && root < PPN_LIMIT
    ensures HardwareTranslate(m, Token(root), vpn)
         == match Lookup(m, root, vpn)
            case None => None
            case Some(leaf) => if Usable(leaf.flags) then Some(leaf) else None
  {
    hide PpnOf, FlagsOf, HardwareWalk, Token, Usable;
    TokenRoundTrip(root);
    Paths(vpn);
    var a, b := vpn / 512 / 512, vpn / 512;
    assert PlainAt(m, root, a);
    assert Pte(m, root, a) < PTE_LIMIT;
    PlainDescends(m, root, vpn, 2);
    if Table1(m, root, a).Some? {
      var t := Table1(m, root, a).value;
      assert PlainBelow(m, root, b);
      assert Pte(m, t, b % 512) < PTE_LIMIT;
      PlainDescends(m, t, vpn, 1);
      if Table2(m, root, b).Some? {
        assert Pte(m, Table2(m, root, b).value, vpn % 512) < PTE_LIMIT;
        LastLevel(m, Table2(m, root, b).value, vpn);
      }
    }
  }

  /** A mapped page with flags that are not usable, such as those of an area that has U
      alone, is found by the kernel's walk and faults in the hardware. */
  lemma MappedButFaults(m: Mem, root: nat, frames: set<nat>, view: map<nat, Leaf>, vpn: nat)
    requires Refines(m, root, frames, view) && root < PPN_LIMIT && vpn in view && !Usable(view[vpn].flags)
    ensures vpn < VPN_LIMIT && Lookup(m, root, vpn) == Some(view[vpn])
    ensures HardwareTranslate(m, Token(root), vpn) == None
    ensures !Usable(WithV(16))
  {
    hide Lookup, HardwareTranslate, Token;
    HardwareSees(m, root, frames, vpn);
  }

  class PageTable {
    var root: nat
    var frames: seq<nat>
    ghost var view: map<nat, Leaf>

    ghost predicate Valid(mem: PhysMem)
      reads this, mem
    {
      && mem.Valid() && |mem.pages| <= PPN_LIMIT
      && NoDup(frames) && ElemsOf(frames) <= mem.Live()
      && Refines(mem.pages, root, ElemsOf(frames), view)
    }

    constructor (mem: PhysMem)
      requires mem.Valid() && |mem.pages| <= PPN_LIMIT && mem.Free() > 0
      modifies mem
      ensures Valid(mem) && view == map[]
      ensures mem.first == old(mem.first) && mem.end == old(mem.end) && |mem.pages| == old(|mem.pages|)
      ensures ElemsOf(frames) !! old(mem.Live()) && mem.Live() == old(mem.Live()) + ElemsOf(frames)
      ensures mem.Free() == old(mem.Free()) - 1
      ensures forall p :: p in old(mem.Live()) && p < |mem.pages| ==> mem.pages[p] == old(mem.pages)[p]
    {
      var ok, ppn := mem.FrameAlloc();
      EmptyTable(mem.pages, ppn);
      root, frames, view := ppn, [ppn], map[];
      assert ElemsOf([ppn]) == {ppn};
    }

    /** `translate`: the entry found, valid or not, or `None` on a missing table. */
    method TranslateVpn(vpn: nat, mem: PhysMem) returns (r: Option<nat>)
      requires Valid(mem) && vpn < VPN_LIMIT
      ensures r == Translate(mem.pages, root, vpn)
      ensures r.Some? && IsValid(r.value) <==> vpn in view
      ensures vpn in view ==> r == Some(r.value) && Leaf(PpnOf(r.value), FlagsOf(r.value)) == view[vpn]
    {
      var at := FindPte(vpn, mem);
      r := if at.None? then None else Some(Pte(mem.pages, at.value, vpn % 512));
      assert Lookup(mem.pages, root, vpn) == if vpn in view then Some(view[vpn]) else None;
    }

    /** `find_pte`: the leaf table that holds the entry of `vpn`. */
    method FindPte(vpn: nat, mem: PhysMem) returns (t: Option<nat>)
      requires vpn < VPN_LIMIT
      ensures t == Table2(mem.pages, root, vpn / 512)
    {
      hide IsValid, PpnOf, Pte;
      var idx := Indexes(vpn);
      var ppn := root;
      var i := 0;
      Paths(vpn);
      while i < 2
        invariant 0 <= i <= 2
        invariant i == 0 ==> ppn == root
        invariant i == 1 ==> Table1(mem.pages, root, vpn / 512 / 512) == Some(ppn)
        invariant i == 2 ==> Table2(mem.pages, root, vpn / 512) == Some(ppn)
      {
        var pte := Pte(mem.pages, ppn, idx[i]);
        if !IsValid(pte) {
          return None;
        }
        ppn := PpnOf(pte);
        i := i + 1;
      }
      t := Some(ppn);
    }

    /** `find_pte_create`: as `find_pte`, creating the tables on the way that are missing.
        The meaning of the table does not change. */
    method FindPteCreate(vpn: nat, mem: PhysMem) returns (t: nat)
      requires Valid(mem) && vpn < VPN_LIMIT && mem.Free() >= TablesMissing(mem.pages, root, vpn)
      modifies this`frames, mem
      ensures Valid(mem) && Table2(mem.pages, root, vpn / 512) == Some(t)
      ensures Grown(old(frames), old(mem.Live()), old(mem.pages), mem)
      ensures mem.Free() == old(mem.Free()) - old(TablesMissing(mem.pages, root, vpn))
      ensures mem.first == old(mem.first) && mem.end == old(mem.end)
    {
      hide IsValid, PpnOf, Pte, Refines, PhysMem.Live, PhysMem.Free, Table1, Table2;
      var idx := Indexes(vpn);
      Paths(vpn);
      var ppn := root;
      var i := 0;
      GrownRefl(mem);
      while i < 2
        invariant 0 <= i <= 2 && Valid(mem) && mem.first == old(mem.first) && mem.end == old(mem.end)
        invariant Grown(old(frames), old(mem.Live()), old(mem.pages), mem)
        invariant i == 0 ==> ppn == root
        invariant i == 1 ==> Table1(mem.pages, root, vpn / 512 / 512) == Some(ppn)
        invariant i == 2 ==> Table2(mem.pages, root, vpn / 512) == Some(ppn)
        invariant mem.Free() - (if i < 2 then TablesMissing(mem.pages, root, vpn) else 0)
               == old(mem.Free()) - old(TablesMissing(mem.pages, root, vpn))
        invariant mem.Free() >= 0
      {
        ppn := Descend(i, ppn, idx[i], vpn, mem, old(frames), old(mem.Live()), old(mem.pages));
        i := i + 1;
      }
      t := ppn;
    }

    /** `map`: adds one leaf and changes no other page's translation; in the entry the page
        number starts at bit 10, above the flags with V. */
    method Map(vpn: nat, ppn: nat, flags: nat, mem: PhysMem)
      requires Valid(mem) && vpn < VPN_LIMIT && ppn < PPN_LIMIT && flags < 256
      requires vpn !in view && mem.Free() >= TablesMissing(mem.pages, root, vpn)
      modifies this`frames, this`view, mem
      ensures Valid(mem) && view == old(view)[vpn := Leaf(ppn, WithV(flags))]
      ensures var e := Translate(mem.pages, root, vpn);
              e.Some? && e.value / 0x400 == ppn && e.value % 0x400 == WithV(flags)
      ensures Grown(old(frames), old(mem.Live()), old(mem.pages), mem)
      ensures mem.Free() == old(mem.Free()) - old(TablesMissing(mem.pages, root, vpn))
      ensures mem.first == old(mem.first) && mem.end == old(mem.end)
    {
      hide IsValid, PpnOf, FlagsOf, Refines, Pte, SetPte, MakePte, TablesMissing, Table1, Table2, WithV;
      var t := FindPteCreate(vpn, mem);
      LeafTable(mem.pages, root, ElemsOf(frames), view, vpn, t);
      var pte := Pte(mem.pages, t, vpn % 512);
      assert !IsValid(pte);  // the assertion of the original
      PteRoundTrip(ppn, WithV(flags));
      WrittenEntry(mem.pages, root, ElemsOf(frames), view, vpn, t, MakePte(ppn, WithV(flags)));
      WriteLeaf(mem.pages, root, ElemsOf(frames), view, vpn, t, MakePte(ppn, WithV(flags)));
      mem.pages := SetPte(mem.pages, t, vpn % 512, MakePte(ppn, WithV(flags)));
      view := view[vpn := Leaf(ppn, WithV(flags))];
    }

    /** `unmap`: removes one leaf and changes no other page's translation. */
    method Unmap(vpn: nat, mem: PhysMem)
      requires Valid(mem) && vpn < VPN_LIMIT && vpn in view
      modifies this`view, mem`pages
      ensures Valid(mem) && view == old(view) - {vpn} && |mem.pages| == old(|mem.pages|)
      ensures forall p :: 0 <= p < |mem.pages| && p !in ElemsOf(frames) ==> mem.pages[p] == old(mem.pages)[p]
    {
      hide IsValid, PpnOf, FlagsOf, Refines, Pte, SetPte, Table1, Table2;
      var t := FindPte(vpn, mem);
      MappedTable(mem.pages, root, ElemsOf(frames), view, vpn);
      LeafTable(mem.pages, root, ElemsOf(frames), view, vpn, t.value);
      var pte := Pte(mem.pages, t.value, vpn % 512);
      assert IsValid(pte);  // the assertion of the original
      WriteLeaf(mem.pages, root, ElemsOf(frames), view, vpn, t.value, 0);
      EmptyPte();
      mem.pages := SetPte(mem.pages, t.value, vpn % 512, 0);
      view := view - {vpn};
    }

    /** What table creation does to memory: only fresh frames and table frames change. */
    ghost predicate Grown(frames0: seq<nat>, live0: set<nat>, pages0: seq<Page>, mem: PhysMem)
      reads this, mem
    {
      && |mem.pages| == |pages0|
      && ElemsOf(frames0) <= ElemsOf(frames)
      && (ElemsOf(frames) - ElemsOf(frames0)) !! live0
      && mem.Live() == live0 + (ElemsOf(frames) - ElemsOf(frames0))
      && forall p :: 0 <= p < |pages0| && p !in ElemsOf(frames) ==> mem.pages[p] == pages0[p]
    }

    lemma GrownRefl(mem: PhysMem)
      ensures Grown(frames, mem.Live(), mem.pages, mem)
    {
      assert mem.Live() == mem.Live() + (ElemsOf(frames) - ElemsOf(frames));
    }

    /** One level of `find_pte_create`. */
    method Descend(level: nat, ppn: nat, idx: nat, vpn: nat, mem: PhysMem,
                   ghost frames0: seq<nat>, ghost live0: set<nat>, ghost pages0: seq<Page>) returns (next: nat)
      requires Valid(mem) && vpn < VPN_LIMIT && level < 2 && idx == Index(vpn, level)
      requires ElemsOf(frames0) <= live0 && Grown(frames0, live0, pages0, mem)
      requires level == 0 ==> ppn == root
      requires level == 1 ==> Table1(mem.pages, root, vpn / 512 / 512) == Some(ppn)
      requires mem.Free() >= TablesMissing(mem.pages, root, vpn)
      modifies this`frames, mem
      ensures Valid(mem) && Grown(frames0, live0, pages0, mem)
      ensures mem.first == old(mem.first) && mem.end == old(mem.end)
      ensures level == 0 ==> Table1(mem.pages, root, vpn / 512 / 512) == Some(next)
      ensures level == 1 ==> Table2(mem.pages, root, vpn / 512) == Some(next)
      ensures level == 0 ==>
                mem.Free() - TablesMissing(mem.pages, root, vpn)
                == old(mem.Free() - TablesMissing(mem.pages, root, vpn))
      ensures level == 1 ==> mem.Free() == old(mem.Free() - TablesMissing(mem.pages, root, vpn))
    {
      hide IsValid, PpnOf, Refines, Pte, SetPte, MakePte;
      Paths(vpn);
      LevelEntry(mem.pages, root, level, ppn, vpn);
      TableInRange(mem.pages, root, ElemsOf(frames), view, level, ppn, vpn);
      var pte := Pte(mem.pages, ppn, idx);
      if IsValid(pte) {
        next := PpnOf(pte);
        return;
      }
      ghost var pages1 := mem.pages;
      var ok, p := mem.FrameAlloc();
      FrameLemma(pages1, mem.pages, root, ElemsOf(frames), view);
      TablesKept(pages1, mem.pages, root, ElemsOf(frames), view, vpn);
      NewTable(mem.pages, root, ElemsOf(frames), view, level, ppn, vpn, p);
      mem.pages := SetPte(mem.pages, ppn, idx, MakePte(p, FLAG_V));
      assert ElemsOf(frames + [p]) == ElemsOf(frames) + {p};
      frames := frames + [p];
      next := p;
    }
  }

  lemma Paths(vpn: nat)
    requires vpn < VPN_LIMIT
    ensures vpn / 512 < 0x4_0000 && vpn / 512 / 512 < 512
    ensures Index(vpn, 0) == vpn / 512 / 512 && Index(vpn, 1) == vpn / 512 % 512 && Index(vpn, 2) == vpn % 512
  {
  }

  /** The entry a descent looks at decides whether the next table exists. */
  lemma LevelEntry(m: Mem, root: nat, level: nat, ppn: nat, vpn: nat)
    requires vpn < VPN_LIMIT && level < 2
    requires level == 0 ==> ppn == root
    requires level == 1 ==> Table1(m, root, vpn / 512 / 512) == Some(ppn)
    ensures level == 0 ==> Table1(m, root, vpn / 512 / 512) == Child(m, ppn, Index(vpn, 0))
    ensures level == 1 ==> Table2(m, root, vpn / 512) == Child(m, ppn, Index(vpn, 1))
  {
    Paths(vpn);
  }

  lemma TableInRange(m: Mem, root: nat, frames: set<nat>, view: map<nat, Leaf>, level: nat, ppn: nat, vpn: nat)
    requires Refines(m, root, frames, view) && vpn < VPN_LIMIT && level < 2
    requires level == 0 ==> ppn == root
    requires level == 1 ==> Table1(m, root, vpn / 512 / 512) == Some(ppn)
    ensures ppn in frames && ppn < |m|
  {
    hide Lookup, Table1, Table2;
    Paths(vpn);
  }

  lemma TablesKept(m: Mem, m2: Mem, root: nat, frames: set<nat>, view: map<nat, Leaf>, vpn: nat)
    requires Refines(m, root, frames, view) && |m2| == |m| && vpn < VPN_LIMIT
    requires forall f :: f in frames ==> m2[f] == m[f]
    ensures Table1(m2, root, vpn / 512 / 512) == Table1(m, root, vpn / 512 / 512)
    ensures Table2(m2, root, vpn / 512) == Table2(m, root, vpn / 512)
    ensures TablesMissing(m2, root, vpn) == TablesMissing(m, root, vpn)
  {
    hide Lookup, Table1, Table2;
    Paths(vpn);
    TablesSame(m, m2, root, frames);
  }

  lemma NewTable(m: Mem, root: nat, frames: set<nat>, view: map<nat, Leaf>, level: nat, ppn: nat, vpn: nat, p: nat)
    requires Refines(m, root, frames, view) && vpn < VPN_LIMIT && level < 2 && ppn < |m|
    requires level == 0 ==> ppn == root && Table1(m, root, vpn / 512 / 512).None?
    requires level == 1 ==> Table1(m, root, vpn / 512 / 512) == Some(ppn) && Table2(m, root, vpn / 512).None?
    requires p !in frames && p < |m| && p < PPN_LIMIT && m[p] == ZeroPage()
    ensures var m2 := SetPte(m, ppn, Index(vpn, level), MakePte(p, FLAG_V));
            && Refines(m2, root, frames + {p}, view)
            && (level == 0 ==> Table1(m2, root, vpn / 512 / 512) == Some(p) && TablesMissing(m2, root, vpn) == 1)
            && (level == 1 ==> Table2(m2, root, vpn / 512) == Some(p))
  {
    hide Refines, SetPte, MakePte, Child, Lookup;
    Paths(vpn);
    if level == 0 {
      NewTable1(m, root, frames, view, vpn / 512 / 512, p);
    } else {
      NewTable2(m, root, frames, view, vpn / 512, ppn, p);
    }
  }

  lemma EmptyPte()
    ensures !IsValid(0)
  {
  }

  lemma LeafTable(m: Mem, root: nat, frames: set<nat>, view: map<nat, Leaf>, vpn: nat, t: nat)
    requires Refines(m, root, frames, view) && vpn < VPN_LIMIT && Table2(m, root, vpn / 512) == Some(t)
    ensures t in frames && t < |m| && (IsValid(Pte(m, t, vpn % 512)) <==> vpn in view)
  {
    hide Table1, Table2, IsValid, PpnOf, FlagsOf;
    Paths(vpn);
    assert Lookup(m, root, vpn) == if vpn in view then Some(view[vpn]) else None;
  }

  lemma MappedTable(m: Mem, root: nat, frames: set<nat>, view: map<nat, Leaf>, vpn: nat)
    requires Refines(m, root, frames, view) && vpn in view
    ensures vpn < VPN_LIMIT && Table2(m, root, vpn / 512).Some?
  {
    hide Table1, Table2, IsValid, PpnOf, FlagsOf;
    assert Lookup(m, root, vpn) == Some(view[vpn]);
  }

  // ---- Whole runs ----

  datatype TableOp = MapPage(vpn: nat, ppn: nat, flags: nat) | UnmapPage(vpn: nat)

  predicate OpEnabled(view: map<nat, Leaf>, op: TableOp) {
    && op.vpn < VPN_LIMIT
    && match op
       case MapPage(vpn, ppn, flags) => vpn !in view && ppn < PPN_LIMIT && flags < 256
       case UnmapPage(vpn) => vpn in view
  }

  function Apply(view: map<nat, Leaf>, op: TableOp): map<nat, Leaf>
    requires OpEnabled(view, op)
  {
    match op
    case MapPage(vpn, ppn, flags) => view[vpn := Leaf(ppn, WithV(flags))]
    case UnmapPage(vpn) => view - {vpn}
  }

  predicate OpsEnabled(view: map<nat, Leaf>, ops: seq<TableOp>)
    decreases |ops|
  {
    ops == [] || (OpEnabled(view, ops[0]) && OpsEnabled(Apply(view, ops[0]), ops[1..]))
  }

  function ApplyAll(view: map<nat, Leaf>, ops: seq<TableOp>): map<nat, Leaf>
    requires OpsEnabled(view, ops)
    decreases |ops|
  {
    if ops == [] then view else ApplyAll(Apply(view, ops[0]), ops[1..])
  }

  /** After any run of map and unmap, the kernel's walk finds exactly the abstract map, and
      the hardware sees exactly its usable leaves. */
  method RunTable(pt: PageTable, ops: seq<TableOp>, mem: PhysMem)
    requires pt.Valid(mem) && OpsEnabled(pt.view, ops) && mem.Free() >= 2 * |ops|
    modifies pt, mem
    ensures pt.Valid(mem) && pt.view == ApplyAll(old(pt.view), ops)
    ensures forall v :: 0 <= v < VPN_LIMIT ==>
              Lookup(mem.pages, pt.root, v) == (if v in pt.view then Some(pt.view[v]) else None)
    ensures forall v :: 0 <= v < VPN_LIMIT ==>
              HardwareTranslate(mem.pages, Token(pt.root), v)
              == (if v in pt.view && Usable(pt.view[v].flags) then Some(pt.view[v]) else None)
    ensures forall p :: 0 <= p < |mem.pages| && p in old(mem.Live()) && p !in old(ElemsOf(pt.frames))
              ==> p < old(|mem.pages|) && mem.pages[p] == old(mem.pages)[p]
  {
    hide Refines, PhysMem.Live, PhysMem.Free, PhysMem.Valid, OpEnabled, Apply, TablesMissing, Lookup, ElemsOf,
      HardwareTranslate, Token, Usable;
    var i := 0;
    ghost var view0 := pt.view;
    pt.GrownRefl(mem);
    assert ops[0..] == ops;
    while i < |ops|
      invariant 0 <= i <= |ops| && pt.Valid(mem) && mem.Free() >= 2 * (|ops| - i)
      invariant OpsEnabled(pt.view, ops[i..]) && ApplyAll(pt.view, ops[i..]) == ApplyAll(view0, ops)
      invariant pt.Grown(old(pt.frames), old(mem.Live()), old(mem.pages), mem)
    {
      assert ops[i..][0] == ops[i] && ops[i..][1..] == ops[i + 1..];
      RunOne(pt, ops[i], mem, old(pt.frames), old(mem.Live()), old(mem.pages));
      i := i + 1;
    }
    assert ops[i..] == [];
    MeansView(mem.pages, pt.root, ElemsOf(pt.frames), pt.view);
  }

  lemma MeansView(m: Mem, root: nat, frames: set<nat>, view: map<nat, Leaf>)
    requires Refines(m, root, frames, view) && |m| <= PPN_LIMIT
    ensures forall v :: 0 <= v < VPN_LIMIT ==> Lookup(m, root, v) == if v in view then Some(view[v]) else None
    ensures forall v :: 0 <= v < VPN_LIMIT ==>
              HardwareTranslate(m, Token(root), v)
              == if v in view && Usable(view[v].flags) then Some(view[v]) else None
  {
    hide Lookup, HardwareTranslate, Token, Usable;
    forall v | 0 <= v < VPN_LIMIT
      ensures HardwareTranslate(m, Token(root), v)
           == if v in view && Usable(view[v].flags) then Some(view[v]) else None
    {
      HardwareSees(m, root, frames, v);
    }
  }

  method RunOne(pt: PageTable, op: TableOp, mem: PhysMem,
                ghost frames0: seq<nat>, ghost live0: set<nat>, ghost pages0: seq<Page>)
    requires pt.Valid(mem) && OpEnabled(pt.view, op) && mem.Free() >= 2
    requires ElemsOf(frames0) <= live0 && pt.Grown(frames0, live0, pages0, mem)
    modifies pt, mem
    ensures pt.Valid(mem) && pt.view == Apply(old(pt.view), op) && mem.Free() >= old(mem.Free()) - 2
    ensures pt.Grown(frames0, live0, pages0, mem)
  {
    hide Refines, WithV, Table1, Table2;
    match op {
      case MapPage(vpn, ppn, flags) =>
        pt.Map(vpn, ppn, flags, mem);
      case UnmapPage(vpn) =>
        pt.Unmap(vpn, mem);
    }
  }
}
