/** The three-level page table (os/src/mm/page_table.rs) as a plain map from page numbers
    to entries. */
module PageTables {
  import opened Bytes
  import opened Numbers
  import opened Sv39
  import opened Frames
  import opened Options

  datatype Place = Root | Mid(i: nat) | Leaf(i: nat, j: nat)

  /** The frames of a table: the root, second-level tables by index, third-level tables by
      pair of indexes, and back from each frame to its place. */
  datatype Tree = Tree(root: nat, mids: map<nat, nat>, leaves: map<(nat, nat), nat>, place: map<nat, Place>)

  ghost function Tables(t: Tree): set<nat> {
    t.place.Keys
  }

  ghost predicate InMemory(mem: seq<Frame>, t: Tree) {
    && t.root < |mem|
    && (forall i | i in t.mids :: i < ENTRIES && t.mids[i] < |mem|)
    && (forall p | p in t.leaves :: p.0 in t.mids && p.1 < ENTRIES && t.leaves[p] < |mem|)
  }

  /** Every frame has one place: distinct places of the tree are distinct frames. */
  ghost predicate DistinctTables(t: Tree) {
    && t.root in t.place && t.place[t.root] == Root
    && (forall i | i in t.mids :: t.mids[i] in t.place && t.place[t.mids[i]] == Mid(i))
    && (forall p | p in t.leaves :: t.leaves[p] in t.place && t.place[t.leaves[p]] == Leaf(p.0, p.1))
    && (forall f | f in t.place ::
          match t.place[f]
          case Root => f == t.root
          case Mid(i) => i in t.mids && t.mids[i] == f
          case Leaf(i, j) => (i, j) in t.leaves && t.leaves[(i, j)] == f)
  }

  /** The valid entries of a table lead to exactly the given tables. */
  ghost predicate RootLinks(mem: seq<Frame>, t: Tree)
    requires InMemory(mem, t)
  {
    forall i: nat | i < ENTRIES ::
      && (i in t.mids <==> IsValid(Entry(mem, t.root, i)))
      && (i in t.mids ==> PtePpn(Entry(mem, t.root, i)) == t.mids[i])
  }

  ghost predicate MidLinks(mem: seq<Frame>, t: Tree)
    requires InMemory(mem, t)
  {
    forall i: nat, j: nat | i in t.mids && j < ENTRIES ::
      && ((i, j) in t.leaves <==> IsValid(Entry(mem, t.mids[i], j)))
      && ((i, j) in t.leaves ==> PtePpn(Entry(mem, t.mids[i], j)) == t.leaves[(i, j)])
  }

  /** Entries of third-level tables are valid or empty. */
  ghost predicate LeavesClean(mem: seq<Frame>, t: Tree)
    requires InMemory(mem, t)
  {
    forall p, k: nat | p in t.leaves && k < ENTRIES ::
      Entry(mem, t.leaves[p], k) == 0 || IsValid(Entry(mem, t.leaves[p], k))
  }

  ghost predicate TreeOk(mem: seq<Frame>, t: Tree) {
    InMemory(mem, t) && DistinctTables(t) && RootLinks(mem, t) && MidLinks(mem, t) && LeavesClean(mem, t)
  }

  /** Entry the table holds for a page; 0 when there is none. */
  ghost function Lookup(mem: seq<Frame>, t: Tree, vpn: nat): nat
    requires InMemory(mem, t)
  {
    var p := (Index(vpn, 0), Index(vpn, 1));
    if p in t.leaves then Entry(mem, t.leaves[p], Index(vpn, 2)) else 0
  }

  /** `find_pte`: walk from the root; (frame, index) of the last-level entry. */
  function FindPte(mem: seq<Frame>, root: nat, vpn: nat): (r: Option<(nat, nat)>)
    requires root < |mem|
    ensures r.Some? ==> r.value.0 < |mem| && r.value.1 == Index(vpn, 2)
  {
    var e0 := Entry(mem, root, Index(vpn, 0));
    var t1 := PtePpn(e0);
    if !IsValid(e0) || t1 >= |mem| then None
    else
      var e1 := Entry(mem, t1, Index(vpn, 1));
      var t2 := PtePpn(e1);
      if !IsValid(e1) || t2 >= |mem| then None else Some((t2, Index(vpn, 2)))
  }

  /** `translate`: the entry found, valid or not. */
  function Translate(mem: seq<Frame>, root: nat, vpn: nat): Option<nat>
    requires root < |mem|
  {
    match FindPte(mem, root, vpn)
    case None => None
    case Some((t, i)) => Some(Entry(mem, t, i))
  }

  /** The walk, on the bytes: three tables of 512 little-endian 64-bit entries, taken with nine bits of
      the page number each, top bits first; a table that is not valid or not in memory ends it. */
  lemma WalkMeans(mem: seq<Frame>, root: nat, vpn: nat)
    requires root < |mem| && vpn < 0x800_0000
    ensures var i0, i1, i2 := 8 * (vpn / 262144), 8 * (vpn / 512 % 512), 8 * (vpn % 512);
      && i0 + 8 <= 4096
      && var e0 := FromLE(mem[root][i0..i0 + 8]);
      var t1 := e0 / 1024 % 0x1000_0000_0000;
      if e0 % 2 == 0 || t1 >= |mem| then Translate(mem, root, vpn) == None
      else
        var e1 := FromLE(mem[t1][i1..i1 + 8]);
        var t2 := e1 / 1024 % 0x1000_0000_0000;
        if e1 % 2 == 0 || t2 >= |mem| then Translate(mem, root, vpn) == None
        else Translate(mem, root, vpn) == Some(FromLE(mem[t2][i2..i2 + 8]))
  {
    hide FromLE;
    assert Index(vpn, 0) == vpn / 262144;
  }

  /** The walk finds exactly what the tree holds. */
  lemma WalkIsLookup(mem: seq<Frame>, t: Tree, vpn: nat)
    requires TreeOk(mem, t)
    ensures var p := (Index(vpn, 0), Index(vpn, 1));
            && FindPte(mem, t.root, vpn) == (if p in t.leaves then Some((t.leaves[p], Index(vpn, 2))) else None)
            && Translate(mem, t.root, vpn) == (if p in t.leaves then Some(Lookup(mem, t, vpn)) else None)
  {
    hide Entry, Index, IsValid, PtePpn, LeavesClean, DistinctTables;
    var i, j := Index(vpn, 0), Index(vpn, 1);
    if i in t.mids {
      assert (i, j) in t.leaves <==> IsValid(Entry(mem, t.mids[i], j));
    }
  }

  // ---------------------------------------------------------------------------
  // Updates of the tree
  // ---------------------------------------------------------------------------

  /** Exactly one entry differs. */
  ghost predicate EntryChange(mem: seq<Frame>, mem': seq<Frame>, ppn: nat, i: nat, bits: nat) {
    && |mem'| == |mem|
    && forall q: nat, k: nat | q < |mem| && k < ENTRIES ::
         Entry(mem', q, k) == if q == ppn && k == i then bits else Entry(mem, q, k)
  }

  lemma PutIsChange(mem: seq<Frame>, ppn: nat, i: nat, bits: nat)
    requires ppn < |mem| && i < ENTRIES && bits < U64_LIMIT
    ensures EntryChange(mem, PutEntry(mem, ppn, i, bits), ppn, i, bits)
  {
    forall q: nat, k: nat | q < |mem| && k < ENTRIES
      ensures Entry(PutEntry(mem, ppn, i, bits), q, k) == if q == ppn && k == i then bits else Entry(mem, q, k)
    {
      PutEntryAt(mem, ppn, i, bits, q, k);
    }
  }

  /** A tree depends only on its own frames. */
  lemma TreeFrame(mem: seq<Frame>, mem': seq<Frame>, t: Tree)
    requires TreeOk(mem, t) && |mem'| == |mem|
    requires forall p | p in Tables(t) :: p < |mem| && mem'[p] == mem[p]
    ensures TreeOk(mem', t)
    ensures forall v: nat | v < VPN_LIMIT :: Lookup(mem', t, v) == Lookup(mem, t, v)
  {
    hide U64At, Index, IsValid, PtePpn;
    forall p, k: nat | p in Tables(t) && k < ENTRIES ensures Entry(mem', p, k) == Entry(mem, p, k) {
    }
    hide Entry;
  }

  ghost predicate Blank(mem: seq<Frame>, p: nat) {
    p < |mem| && forall k: nat | k < ENTRIES :: Entry(mem, p, k) == 0
  }

  lemma ZeroIsBlank(mem: seq<Frame>, p: nat)
    requires p < |mem| && mem[p] == Zeros(PAGE_SIZE)
    ensures Blank(mem, p)
  {
    forall k: nat | k < ENTRIES ensures Entry(mem, p, k) == 0 { ZeroTable(mem, p, k); }
  }

  lemma ZeroInvalid()
    ensures !IsValid(0)
  {
  }

  lemma MidPlaces(t: Tree, i: nat, p: nat)
    requires DistinctTables(t) && i !in t.mids && p !in Tables(t)
    ensures DistinctTables(t.(mids := t.mids[i := p], place := t.place[p := Mid(i)]))
  {
  }

  lemma LeafPlaces(t: Tree, i: nat, j: nat, p: nat)
    requires DistinctTables(t) && (i, j) !in t.leaves && p !in Tables(t)
    ensures DistinctTables(t.(leaves := t.leaves[(i, j) := p], place := t.place[p := Leaf(i, j)]))
  {
  }

  /** Linking a zeroed frame as a second-level table changes no mapping. */
  lemma AddMid(mem: seq<Frame>, mem': seq<Frame>, t: Tree, i: nat, p: nat, bits: nat)
    requires TreeOk(mem, t) && i < ENTRIES && i !in t.mids
    requires p !in Tables(t) && Blank(mem, p)
    requires EntryChange(mem, mem', t.root, i, bits) && IsValid(bits) && PtePpn(bits) == p
    ensures TreeOk(mem', t.(mids := t.mids[i := p], place := t.place[p := Mid(i)]))
    ensures forall v: nat | v < VPN_LIMIT ::
              Lookup(mem', t.(mids := t.mids[i := p], place := t.place[p := Mid(i)]), v) == Lookup(mem, t, v)
  {
    hide Entry, Index, IsValid, PtePpn;
    ZeroInvalid();
    MidPlaces(t, i, p);
  }

  /** Linking a zeroed frame as a third-level table changes no mapping. */
  lemma AddLeaf(mem: seq<Frame>, mem': seq<Frame>, t: Tree, i: nat, j: nat, p: nat, bits: nat)
    requires TreeOk(mem, t) && i in t.mids && j < ENTRIES && (i, j) !in t.leaves
    requires p !in Tables(t) && Blank(mem, p)
    requires EntryChange(mem, mem', t.mids[i], j, bits) && IsValid(bits) && PtePpn(bits) == p
    ensures TreeOk(mem', t.(leaves := t.leaves[(i, j) := p], place := t.place[p := Leaf(i, j)]))
    ensures forall v: nat | v < VPN_LIMIT ::
              Lookup(mem', t.(leaves := t.leaves[(i, j) := p], place := t.place[p := Leaf(i, j)]), v) ==
                Lookup(mem, t, v)
  {
    hide Entry, Index, IsValid, PtePpn;
    ZeroInvalid();
    LeafPlaces(t, i, j, p);
  }

  /** Storing a last-level entry changes the mapping of exactly one page. */
  lemma SetLeaf(mem: seq<Frame>, mem': seq<Frame>, t: Tree, vpn: nat, bits: nat)
    requires TreeOk(mem, t) && vpn < VPN_LIMIT && (Index(vpn, 0), Index(vpn, 1)) in t.leaves
    requires bits == 0 || IsValid(bits)
    requires EntryChange(mem, mem', t.leaves[(Index(vpn, 0), Index(vpn, 1))], Index(vpn, 2), bits)
    ensures TreeOk(mem', t)
    ensures forall v: nat | v < VPN_LIMIT :: Lookup(mem', t, v) == if v == vpn then bits else Lookup(mem, t, v)
  {
    hide Entry, Index, IsValid, PtePpn;
    forall v: nat | v < VPN_LIMIT ensures Lookup(mem', t, v) == if v == vpn then bits else Lookup(mem, t, v) {
      if Index(v, 0) == Index(vpn, 0) && Index(v, 1) == Index(vpn, 1) && Index(v, 2) == Index(vpn, 2) {
        IndexInjective(v, vpn);
      }
    }
  }

  // ---------------------------------------------------------------------------
  // The page table object
  // ---------------------------------------------------------------------------

  /** `mapping` is the set of valid mappings the tree holds. */
  ghost predicate Represents(mem: seq<Frame>, t: Tree, mapping: map<nat, nat>)
    requires InMemory(mem, t)
  {
    && (forall v | v in mapping :: v < VPN_LIMIT)
    && (forall v: nat | v < VPN_LIMIT ::
          if v in mapping then IsValid(mapping[v]) && Lookup(mem, t, v) == mapping[v] else Lookup(mem, t, v) == 0)
  }

  /** Same lookups: same mapping. */
  lemma RepresentsSame(mem: seq<Frame>, t: Tree, mem': seq<Frame>, t': Tree, mapping: map<nat, nat>)
    requires InMemory(mem, t) && InMemory(mem', t') && Represents(mem, t, mapping)
    requires forall v: nat | v < VPN_LIMIT :: Lookup(mem', t', v) == Lookup(mem, t, v)
    ensures Represents(mem', t', mapping)
  {
    hide Lookup, InMemory, IsValid;
  }

  lemma TreeFacts(mem: seq<Frame>, t: Tree)
    requires TreeOk(mem, t)
    ensures InMemory(mem, t) && t.root in Tables(t) && t.root < |mem|
    ensures forall i | i in t.mids :: t.mids[i] in Tables(t) && t.mids[i] < |mem|
    ensures forall p | p in t.leaves :: t.leaves[p] in Tables(t) && t.leaves[p] < |mem|
    ensures forall p | p in Tables(t) :: p < |mem|
  {
    hide RootLinks, MidLinks, LeavesClean;
  }

  ghost function Elements(s: seq<nat>): set<nat> {
    set x | x in s
  }

  /** One blank table maps nothing. */
  lemma EmptyTree(mem: seq<Frame>, r: nat)
    requires r < |mem| && Blank(mem, r)
    ensures var t := Tree(r, map[], map[], map[r := Root]);
      TreeOk(mem, t) && Represents(mem, t, map[]) && Tables(t) == {r}
  {
    hide Entry, IsValid, PtePpn, Index;
    ZeroInvalid();
  }

  lemma NoElements()
    ensures Elements([]) == {}
  {
  }

  lemma NextElement(s: seq<nat>, i: nat)
    requires i < |s| && forall j, k | 0 <= j < k < |s| :: s[j] != s[k]
    ensures s[i] in Elements(s) && s[i] !in Elements(s[..i])
    ensures Elements(s[..i + 1]) == Elements(s[..i]) + {s[i]}
  {
    assert s[..i + 1] == s[..i] + [s[i]];
  }

  datatype MapOp = MapPage(vpn: nat, ppn: nat, flags: nat) | UnmapPage(vpn: nat)

  /** The source panics on mapping a mapped page or unmapping an unmapped one. */
  ghost predicate CanApply(mapping: map<nat, nat>, op: MapOp) {
    match op
    case MapPage(vpn, ppn, flags) => vpn < VPN_LIMIT && vpn !in mapping && ppn < PPN_LIMIT && flags < 256
    case UnmapPage(vpn) => vpn in mapping
  }

  ghost function ApplyOp(mapping: map<nat, nat>, op: MapOp): map<nat, nat> {
    match op
    case MapPage(vpn, ppn, flags) => mapping[vpn := PteNew(ppn, WithV(flags))]
    case UnmapPage(vpn) => mapping - {vpn}
  }

  ghost function ApplyAll(mapping: map<nat, nat>, ops: seq<MapOp>): map<nat, nat> {
    if ops == [] then mapping else ApplyOp(ApplyAll(mapping, ops[..|ops| - 1]), ops[|ops| - 1])
  }

  ghost predicate Legal(mapping: map<nat, nat>, ops: seq<MapOp>)
    decreases |ops|
  {
    ops != [] ==> CanApply(mapping, ops[0]) && Legal(ApplyOp(mapping, ops[0]), ops[1..])
  }

  class PageTable {
    var root: nat
    /** Trackers of the frames the table owns. */
    var frames: seq<nat>
    ghost var tree: Tree
    /** The partial map from page numbers to entries. */
    ghost var mapping: map<nat, nat>

    ghost predicate Valid(m: Machine)
      reads this, m
    {
      && m.Valid()
      && TreeOk(m.mem, tree) && root == tree.root
      && (forall i, j | 0 <= i < j < |frames| :: frames[i] != frames[j])
      && Elements(frames) == Tables(tree)
      && (forall p | p in Tables(tree) :: m.Live(p))
      && Represents(m.mem, tree, mapping)
    }

    /** The table may have taken fresh frames; no frame outside the table changed. */
    twostate predicate Grows(m: Machine)
      reads this, m
    {
      && |m.mem| == |old(m.mem)| && m.start == old(m.start) && m.end == old(m.end)
      && old(Tables(tree)) <= Tables(tree)
      && (forall p | p in Tables(tree) && p !in old(Tables(tree)) :: !old(m.Live(p)))
      && (forall p :: m.Live(p) <==> old(m.Live(p)) || p in Tables(tree))
      && (forall p | 0 <= p < |m.mem| && p !in Tables(tree) :: m.mem[p] == old(m.mem)[p])
    }

    /** Tables that mapping a page has to create. */
    ghost function Missing(vpn: nat): nat
      reads this
    {
      (if Index(vpn, 0) in tree.mids then 0 else 1) + (if (Index(vpn, 0), Index(vpn, 1)) in tree.leaves then 0 else 1)
    }

    /** A table with no mapping. */
    constructor (m: Machine)
      requires m.Valid() && m.Free() > 0
      modifies m
      ensures Valid(m) && mapping == map[] && frames == [root]
      ensures m.Free() == old(m.Free()) - 1 && m.start == old(m.start) && m.end == old(m.end)
      ensures forall p :: m.Live(p) <==> old(m.Live(p)) || p == root
      ensures forall p | p == root :: !old(m.Live(p))
      ensures Tables(tree) == {root}
      ensures root < |old(m.mem)| && m.mem == old(m.mem)[root := Zeros(PAGE_SIZE)]
    {
      hide TreeOk, Represents, Tables, Blank;
      var r := m.Alloc();
      root, frames := r.value, [r.value];
      tree, mapping := Tree(r.value, map[], map[], map[r.value := Root]), map[];
      new;
      ZeroIsBlank(m.mem, root);
      EmptyTree(m.mem, root);
    }

    /** Take a fresh zeroed frame for a new table. */
    method TakeFrame(m: Machine) returns (p: nat)
      requires Valid(m) && m.Free() > 0
      modifies m
      ensures m.Valid() && m.start == old(m.start) && m.end == old(m.end) && m.Free() == old(m.Free()) - 1
      ensures TreeOk(m.mem, tree) && Represents(m.mem, tree, mapping)
      ensures p !in Tables(tree) && Blank(m.mem, p) && p < |m.mem| <= PPN_LIMIT
      ensures |m.mem| == |old(m.mem)| && m.mem == old(m.mem)[p := Zeros(PAGE_SIZE)] && !old(m.Live(p))
      ensures forall q :: m.Live(q) <==> old(m.Live(q)) || q == p
    {
      hide Index, IsValid, PtePpn, Entry, Lookup, TreeOk, InMemory, Represents, Blank;
      TreeFacts(m.mem, tree);
      var r := m.Alloc();
      p := r.value;
      ZeroIsBlank(m.mem, p);
      TreeFrame(old(m.mem), m.mem, tree);
      TreeFacts(m.mem, tree);
      RepresentsSame(old(m.mem), tree, m.mem, tree, mapping);
    }

    /** The entry that links the table in frame `p` into its parent. */
    static lemma LinkEntry(p: nat)
      requires p < PPN_LIMIT
      ensures IsValid(PteNew(p, 1)) && PtePpn(PteNew(p, 1)) == p && PteNew(p, 1) < U64_LIMIT
    {
      hide PteNew, PtePpn;
      PteRoundTrip(p, 1);
      assert IsValid(1);
    }

    static lemma AppendFrame(frames: seq<nat>, p: nat, t: Tree, t': Tree)
      requires Elements(frames) == Tables(t) && p !in Tables(t) && Tables(t') == Tables(t) + {p}
      requires forall i, j | 0 <= i < j < |frames| :: frames[i] != frames[j]
      ensures Elements(frames + [p]) == Tables(t')
      ensures forall i, j | 0 <= i < j < |frames + [p]| :: (frames + [p])[i] != (frames + [p])[j]
    {
      assert forall x :: x in frames + [p] <==> x in frames || x == p;
      assert forall i | 0 <= i < |frames| :: frames[i] in Elements(frames);
    }

    /** Create the second-level table of a page. */
    method CreateMid(m: Machine, i: nat)
      requires Valid(m) && i < ENTRIES && i !in tree.mids && m.Free() > 0
      modifies this, m
      ensures Valid(m) && Grows(m) && mapping == old(mapping) && root == old(root)
      ensures i in tree.mids && tree.leaves == old(tree).leaves && m.Free() == old(m.Free()) - 1
    {
      hide Index, IsValid, PtePpn, PteNew, Entry, Lookup, Elements;
      hide TreeOk, InMemory, Represents, Blank, EntryChange, PutEntry, Machine.Valid, Zeros;
      var p := TakeFrame(m);
      TreeFacts(m.mem, tree);
      LinkEntry(p);
      PutIsChange(m.mem, root, i, PteNew(p, 1));
      ghost var mem := m.mem;
      m.StoreEntry(root, i, PteNew(p, 1));
      AddMid(mem, m.mem, tree, i, p, PteNew(p, 1));
      ghost var t := tree.(mids := tree.mids[i := p], place := tree.place[p := Mid(i)]);
      AppendFrame(frames, p, tree, t);
      TreeFacts(m.mem, t);
      RepresentsSame(mem, tree, m.mem, t, mapping);
      frames := frames + [p];
      tree := t;
    }

    /** Create the third-level table of a page below the second-level table `mid`. */
    method CreateLeaf(m: Machine, mid: nat, i: nat, j: nat)
      requires Valid(m) && i in tree.mids && mid == tree.mids[i] && j < ENTRIES && (i, j) !in tree.leaves
               && m.Free() > 0
      modifies this, m
      ensures Valid(m) && Grows(m) && mapping == old(mapping) && root == old(root)
      ensures (i, j) in tree.leaves && tree.mids == old(tree).mids && m.Free() == old(m.Free()) - 1
    {
      hide Index, IsValid, PtePpn, PteNew, Entry, Lookup, Elements;
      hide TreeOk, InMemory, Represents, Blank, EntryChange, PutEntry, Machine.Valid, Zeros;
      var p := TakeFrame(m);
      TreeFacts(m.mem, tree);
      LinkEntry(p);
      PutIsChange(m.mem, mid, j, PteNew(p, 1));
      ghost var mem := m.mem;
      m.StoreEntry(mid, j, PteNew(p, 1));
      AddLeaf(mem, m.mem, tree, i, j, p, PteNew(p, 1));
      ghost var t := tree.(leaves := tree.leaves[(i, j) := p], place := tree.place[p := Leaf(i, j)]);
      AppendFrame(frames, p, tree, t);
      TreeFacts(m.mem, t);
      RepresentsSame(mem, tree, m.mem, t, mapping);
      frames := frames + [p];
      tree := t;
    }

    /** Walk to the last-level entry of a page, creating tables on the way. */
    method FindPteCreate(m: Machine, vpn: nat) returns (leaf: nat, idx: nat)
      requires Valid(m) && vpn < VPN_LIMIT && m.Free() >= Missing(vpn)
      modifies this, m
      ensures Valid(m) && Grows(m) && mapping == old(mapping) && root == old(root)
      ensures (Index(vpn, 0), Index(vpn, 1)) in tree.leaves
      ensures leaf == tree.leaves[(Index(vpn, 0), Index(vpn, 1))] && idx == Index(vpn, 2)
      ensures m.Free() == old(m.Free()) - old(Missing(vpn))
    {
      hide Index, IsValid, PtePpn, Entry, Lookup, Elements, TreeOk, InMemory, Represents, Machine.Valid;
      var idxs := Indexes(vpn);
      Walk(m.mem, tree, idxs[0], idxs[1]);
      if !IsValid(Entry(m.mem, root, idxs[0])) {
        CreateMid(m, idxs[0]);
        Walk(m.mem, tree, idxs[0], idxs[1]);
      }
      var mid := PtePpn(Entry(m.mem, root, idxs[0]));
      if !IsValid(Entry(m.mem, mid, idxs[1])) {
        CreateLeaf(m, mid, idxs[0], idxs[1]);
        Walk(m.mem, tree, idxs[0], idxs[1]);
      }
      leaf, idx := PtePpn(Entry(m.mem, mid, idxs[1])), idxs[2];
    }

    /** What the two upper levels of a walk meet. */
    static lemma Walk(mem: seq<Frame>, t: Tree, i: nat, j: nat)
      requires TreeOk(mem, t) && i < ENTRIES && j < ENTRIES
      ensures t.root < |mem| && (i in t.mids <==> IsValid(Entry(mem, t.root, i)))
      ensures i in t.mids ==>
                && PtePpn(Entry(mem, t.root, i)) == t.mids[i] < |mem|
                && ((i, j) in t.leaves <==> IsValid(Entry(mem, t.mids[i], j)))
      ensures (i, j) in t.leaves ==> i in t.mids && PtePpn(Entry(mem, t.mids[i], j)) == t.leaves[(i, j)]
    {
      hide Entry, IsValid, PtePpn;
    }

    /** The table survives whatever happens outside its frames. */
    twostate lemma StillValid(m: Machine)
      requires old(Valid(m)) && m.Valid() && |m.mem| == |old(m.mem)|
      requires root == old(root) && frames == old(frames) && tree == old(tree) && mapping == old(mapping)
      requires forall p | p in Tables(tree) :: m.Live(p) && p < |m.mem| && m.mem[p] == old(m.mem)[p]
      ensures Valid(m)
    {
      hide Index, IsValid, PtePpn, Entry, Lookup, Elements, TreeOk, InMemory, Represents, Machine.Valid;
      TreeFrame(old(m.mem), m.mem, tree);
      TreeFacts(old(m.mem), tree);
      TreeFacts(m.mem, tree);
      RepresentsSame(old(m.mem), tree, m.mem, tree, mapping);
    }

    /** Number of tables that mapping a page has to create. */
    method NeedTables(m: Machine, vpn: nat) returns (n: nat)
      requires Valid(m)
      ensures n == Missing(vpn) <= 2
    {
      hide Index, IsValid, PtePpn, Entry, Lookup, Elements, TreeOk, InMemory, Represents, Machine.Valid;
      var idxs := Indexes(vpn);
      Walk(m.mem, tree, idxs[0], idxs[1]);
      if !IsValid(Entry(m.mem, root, idxs[0])) { return 2; }
      n := if IsValid(Entry(m.mem, PtePpn(Entry(m.mem, root, idxs[0])), idxs[1])) then 0 else 1;
    }

    /** Map a page that is not mapped. Exactly that page changes, whatever tables had to be
        created. */
    method Map(m: Machine, vpn: nat, ppn: nat, flags: nat)
      requires Valid(m) && vpn < VPN_LIMIT && vpn !in mapping && m.Free() >= Missing(vpn)
      requires ppn < PPN_LIMIT && flags < 256
      modifies this, m
      ensures Valid(m) && Grows(m) && root == old(root)
      ensures mapping == old(mapping)[vpn := PteNew(ppn, WithV(flags))]
      ensures m.Free() == old(m.Free()) - old(Missing(vpn))
    {
      hide Index, IsValid, PtePpn, PteNew, Entry, Lookup, Elements, WithV;
      hide TreeOk, InMemory, Represents, EntryChange, PutEntry, Machine.Valid;
      var leaf, idx := FindPteCreate(m, vpn);
      TreeFacts(m.mem, tree);
      WithVFlags(flags);
      PteRoundTrip(ppn, WithV(flags));
      var bits := PteNew(ppn, WithV(flags));
      SetMapping(m.mem, tree, mapping, vpn, bits);
      m.StoreEntry(leaf, idx, bits);
      mapping := mapping[vpn := bits];
    }

    /** Unmap a mapped page. Tables stay. */
    method Unmap(m: Machine, vpn: nat)
      requires Valid(m) && vpn in mapping
      modifies this`mapping, m`mem
      ensures Valid(m) && Grows(m) && mapping == old(mapping) - {vpn}
    {
      hide Index, IsValid, PtePpn, PteNew, Entry, Lookup, Elements;
      hide TreeOk, InMemory, Represents, EntryChange, PutEntry, Machine.Valid;
      TreeFacts(m.mem, tree);
      MappedLeaf(m.mem, tree, mapping, vpn);
      WalkIsLookup(m.mem, tree, vpn);
      var pte := FindPte(m.mem, root, vpn);
      ClearMapping(m.mem, tree, mapping, vpn);
      m.StoreEntry(pte.value.0, pte.value.1, 0);
      mapping := mapping - {vpn};
    }

    /** Any run of legal map and unmap calls leaves the partial map they describe. It stops early
        only when tables cannot be created. */
    method Execute(m: Machine, ops: seq<MapOp>) returns (n: nat)
      requires Valid(m) && Legal(mapping, ops)
      modifies this, m
      ensures Valid(m) && Grows(m) && root == old(root)
      ensures n <= |ops| && mapping == ApplyAll(old(mapping), ops[..n])
      ensures n < |ops| ==> m.Free() < 2
      ensures old(m.Free()) >= 2 * |ops| ==> n == |ops|
    {
      hide Index, PteNew, WithV, Elements, TreeOk, Represents, Machine.Valid, Machine.Live, Machine.Free, Tables;
      hide ApplyOp, Valid, Missing;
      OwnTables(m);
      n := 0;
      while n < |ops|
        invariant n <= |ops| && Valid(m) && Grows(m) && root == old(root)
        invariant mapping == ApplyAll(old(mapping), ops[..n]) && Legal(mapping, ops[n..])
        invariant m.Free() >= old(m.Free()) - 2 * n
      {
        assert ops[n..][0] == ops[n] && ops[n..][1..] == ops[n + 1..] && ops[..n + 1][..n] == ops[..n];
        var done := Do(m, ops[n]);
        if !done { return; }
        n := n + 1;
      }
    }

    method Do(m: Machine, op: MapOp) returns (ok: bool)
      requires Valid(m) && CanApply(mapping, op)
      modifies this, m
      ensures Valid(m) && Grows(m) && root == old(root) && (ok || m.Free() < 2)
      ensures mapping == if ok then ApplyOp(old(mapping), op) else old(mapping)
      ensures m.Free() >= old(m.Free()) - 2 && (!ok ==> m.Free() == old(m.Free()))
    {
      hide Valid, Machine.Valid, Machine.Live, Tables, PteNew, WithV;
      OwnTables(m);
      match op {
        case MapPage(vpn, ppn, flags) =>
          var need := NeedTables(m, vpn);
          if m.Free() < need { return false; }
          Map(m, vpn, ppn, flags);
        case UnmapPage(vpn) => Unmap(m, vpn);
      }
      ok := true;
    }

    lemma OwnTables(m: Machine)
      requires Valid(m)
      ensures forall p | p in Tables(tree) :: m.Live(p)
    {
    }

    /** A valid entry is returned exactly for mapped pages. */
    method TranslateVpn(m: Machine, vpn: nat) returns (r: Option<nat>)
      requires Valid(m) && vpn < VPN_LIMIT
      ensures r == Translate(m.mem, root, vpn)
      ensures r.Some? && IsValid(r.value) <==> vpn in mapping
      ensures vpn in mapping ==> r.value == mapping[vpn]
      ensures r.Some? && vpn !in mapping ==> r.value == 0
    {
      TranslateMapping(m.mem, tree, mapping, vpn);
      r := Translate(m.mem, root, vpn);
    }

    /** Dropping the trackers returns all frames of the table. */
    method Drop(m: Machine)
      requires Valid(m)
      modifies m`recycled, m`live
      ensures m.Valid() && m.live == old(m.live) - Tables(tree)
    {
      hide Elements, Tables, TreeOk, Represents, Machine.Valid;
      assert Elements(frames) <= m.live && m.Valid();
      assert Elements(frames[..0]) == {} by { NoElements(); }
      for i := 0 to |frames|
        invariant m.Valid() && m.live == old(m.live) - Elements(frames[..i])
      {
        NextElement(frames, i);
        m.Dealloc(frames[i]);
      }
      assert frames[..|frames|] == frames;
    }
  }

  lemma SetMapping(mem: seq<Frame>, t: Tree, mapping: map<nat, nat>, vpn: nat, bits: nat)
    requires TreeOk(mem, t) && Represents(mem, t, mapping) && vpn < VPN_LIMIT
    requires (Index(vpn, 0), Index(vpn, 1)) in t.leaves && IsValid(bits) && bits < U64_LIMIT
    ensures var mem' := PutEntry(mem, t.leaves[(Index(vpn, 0), Index(vpn, 1))], Index(vpn, 2), bits);
            TreeOk(mem', t) && Represents(mem', t, mapping[vpn := bits])
  {
    hide Index, IsValid, PtePpn, Entry, Lookup, PutEntry, EntryChange, DistinctTables;
    var leaf, k := t.leaves[(Index(vpn, 0), Index(vpn, 1))], Index(vpn, 2);
    PutIsChange(mem, leaf, k, bits);
    SetLeaf(mem, PutEntry(mem, leaf, k, bits), t, vpn, bits);
  }

  lemma ClearMapping(mem: seq<Frame>, t: Tree, mapping: map<nat, nat>, vpn: nat)
    requires TreeOk(mem, t) && Represents(mem, t, mapping) && vpn < VPN_LIMIT
    requires (Index(vpn, 0), Index(vpn, 1)) in t.leaves
    ensures var mem' := PutEntry(mem, t.leaves[(Index(vpn, 0), Index(vpn, 1))], Index(vpn, 2), 0);
            TreeOk(mem', t) && Represents(mem', t, mapping - {vpn})
  {
    hide Index, IsValid, PtePpn, Entry, Lookup, PutEntry, EntryChange, DistinctTables;
    var leaf, k := t.leaves[(Index(vpn, 0), Index(vpn, 1))], Index(vpn, 2);
    PutIsChange(mem, leaf, k, 0);
    SetLeaf(mem, PutEntry(mem, leaf, k, 0), t, vpn, 0);
  }

  /** A mapped page has its tables. */
  lemma MappedLeaf(mem: seq<Frame>, t: Tree, mapping: map<nat, nat>, vpn: nat)
    requires TreeOk(mem, t) && Represents(mem, t, mapping) && vpn in mapping
    ensures vpn < VPN_LIMIT && (Index(vpn, 0), Index(vpn, 1)) in t.leaves
  {
    ZeroInvalid();
    hide IsValid, Entry, Index;
  }

  /** What the walk returns, in terms of the mapping. */
  lemma TranslateMapping(mem: seq<Frame>, t: Tree, mapping: map<nat, nat>, vpn: nat)
    requires TreeOk(mem, t) && Represents(mem, t, mapping) && vpn < VPN_LIMIT
    ensures var r := Translate(mem, t.root, vpn);
            && (vpn in mapping <==> r.Some? && IsValid(r.value))
            && (vpn in mapping ==> r == Some(mapping[vpn]))
            && (vpn !in mapping ==> r == None || r == Some(0))
  {
    hide Index, Entry, IsValid, PtePpn, Translate;
    WalkIsLookup(mem, t, vpn);
    ZeroInvalid();
  }
}
