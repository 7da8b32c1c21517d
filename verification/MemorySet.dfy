/** Address spaces and the copy made by fork (os/src/mm/memory_set.rs). Running out of frames
    panics in the source; here such a call returns false. */
module MemorySets {
  import Bits
  import opened Bytes
  import opened Numbers
  import opened Sv39
  import opened Frames
  import opened Options
  import opened PageTables
  import opened UserAccess

  datatype MapArea = MapArea(start: nat, end: nat, perm: nat, dataFrames: map<nat, nat>)

  predicate InArea(a: MapArea, v: nat) {
    a.start <= v < a.end
  }

  /** Page of the trampoline: the last one. It is mapped readable and executable, not for the user. */
  const TRAMPOLINE_VPN: nat := VPN_LIMIT - 1
  const TRAMPOLINE_FLAGS: nat := 2 + 8

  /** Some area covers page `v`. */
  ghost predicate Covered(areas: seq<MapArea>, v: nat) {
    exists i :: 0 <= i < |areas| && InArea(areas[i], v)
  }

  ghost predicate AreaOk(a: MapArea) {
    && a.start <= a.end <= TRAMPOLINE_VPN && a.perm < 256
    && (forall v: nat :: v in a.dataFrames <==> InArea(a, v))
  }

  /** An area's pages are backed by the frames it recorded, with its permissions. */
  ghost predicate AreaMapped(a: MapArea, data: map<nat, nat>, mapping: map<nat, nat>) {
    forall v: nat | InArea(a, v) && v in a.dataFrames ::
      v in data && data[v] == a.dataFrames[v] && v in mapping && mapping[v] == PteNew(data[v], WithV(a.perm))
  }

  /** `owner` inverts `data`: every framed page has a frame of its own. */
  ghost predicate Inverse(data: map<nat, nat>, owner: map<nat, nat>) {
    && (forall v | v in data :: data[v] in owner && owner[data[v]] == v)
    && (forall p | p in owner :: owner[p] in data && data[owner[p]] == p)
  }

  /** Framed pages, frames, tables and mappings agree; pages mapped otherwise are not for the
      user. */
  ghost predicate Pages(data: map<nat, nat>, owner: map<nat, nat>, tables: set<nat>, mapping: map<nat, nat>) {
    && Inverse(data, owner)
    && owner.Keys !! tables
    && (forall v | v in data :: v in mapping && PtePpn(mapping[v]) == data[v])
    && (forall v | v in mapping :: v in data || (v == TRAMPOLINE_VPN && !IsUser(mapping[v])))
  }

  lemma PagesApart(data: map<nat, nat>, owner: map<nat, nat>, tables: set<nat>, mapping: map<nat, nat>)
    requires Pages(data, owner, tables, mapping)
    ensures owner.Keys !! tables
  {
  }

  lemma AddPage(data: map<nat, nat>, owner: map<nat, nat>, tables: set<nat>, tables': set<nat>,
                mapping: map<nat, nat>, v: nat, p: nat, bits: nat)
    requires Pages(data, owner, tables, mapping) && v !in mapping && p !in owner
    requires owner.Keys !! tables' && p !in tables' && PtePpn(bits) == p
    ensures Pages(data[v := p], owner[p := v], tables', mapping[v := bits])
  {
    hide PtePpn, IsUser;
  }

  ghost predicate FrameKept(mem: seq<Frame>, mem': seq<Frame>, p: nat) {
    p < |mem| && p < |mem'| && mem'[p] == mem[p]
  }

  ghost predicate SameBytes(mem: seq<Frame>, p: nat, q: nat) {
    p < |mem| && q < |mem| && mem[p] == mem[q]
  }

  /** Frames of the pages outside [start, end) are as they were. */
  ghost predicate KeptOutside(mem: seq<Frame>, mem': seq<Frame>, data: map<nat, nat>, start: nat, end: nat) {
    forall v | v in data && !(start <= v < end) :: FrameKept(mem, mem', data[v])
  }

  /** Pages [start, end) hold the same bytes through both maps. */
  ghost predicate Copied(mem: seq<Frame>, data: map<nat, nat>, source: map<nat, nat>, start: nat, end: nat) {
    forall v | start <= v < end && v in data && v in source :: SameBytes(mem, data[v], source[v])
  }

  /** The frame of every page reads as zeros. */
  ghost predicate ZeroPages(mem: seq<Frame>, frames: map<nat, nat>) {
    forall v | v in frames :: frames[v] < |mem| && mem[frames[v]] == Zeros(PAGE_SIZE)
  }

  ghost predicate Within(frames: map<nat, nat>, data: map<nat, nat>) {
    forall v | v in frames :: v in data && data[v] == frames[v]
  }

  lemma WithinSum(frames: map<nat, nat>, data: map<nat, nat>)
    ensures Within(frames, data + frames)
  {
  }

  lemma NoPages(mem: seq<Frame>)
    ensures ZeroPages(mem, map[])
  {
  }

  /** No page is in two areas. */
  ghost predicate Apart(areas: seq<MapArea>) {
    forall i, j, v: nat | 0 <= i < j < |areas| && InArea(areas[i], v) :: !InArea(areas[j], v)
  }

  class MemorySet {
    const pageTable: PageTable
    var areas: seq<MapArea>
    /** All framed pages, over all areas, and their frames. */
    ghost var data: map<nat, nat>
    ghost var owner: map<nat, nat>

    /** Frames this space owns: its tables and its data frames. */
    ghost function Owned(): set<nat>
      reads this`owner, pageTable
    {
      Tables(pageTable.tree) + owner.Keys
    }

    /** Pages and frames agree, while areas may still be under construction. */
    ghost predicate Core(m: Machine)
      reads this`data, this`owner, pageTable, m
    {
      && pageTable.Valid(m)
      && Pages(data, owner, Tables(pageTable.tree), pageTable.mapping)
      && (forall p | p in owner :: m.Live(p))
    }

    ghost predicate Valid(m: Machine)
      reads this, pageTable, m
    {
      && Core(m)
      && (forall i | 0 <= i < |areas| :: AreaOk(areas[i]) && AreaMapped(areas[i], data, pageTable.mapping))
      && Apart(areas)
      && (forall v | v in data :: Covered(areas, v))
    }

    /** The space may have taken fresh frames; besides them, at most its tables changed. */
    twostate predicate Extends(m: Machine)
      reads this`owner, pageTable, m
    {
      && |m.mem| == |old(m.mem)| && m.start == old(m.start) && m.end == old(m.end)
      && old(owner).Keys <= owner.Keys && old(Tables(pageTable.tree)) <= Tables(pageTable.tree)
      && (forall p | p in Owned() && p !in old(Owned()) :: !old(m.Live(p)))
      && (forall p :: m.Live(p) <==> old(m.Live(p)) || p in Owned())
      && (forall p | 0 <= p < |m.mem| && p !in Tables(pageTable.tree) && (p in old(owner) || p !in owner) ::
            m.mem[p] == old(m.mem)[p])
    }

    /** Framed pages and their frames are backed by memory outside the page table. */
    lemma UserPagesAreData(m: Machine, v: nat, write: bool)
      requires Core(m) && v < VPN_LIMIT && PageOk(m.mem, pageTable.root, v, write)
      ensures v in data && data[v] < |m.mem| && data[v] !in Tables(pageTable.tree)
      ensures PtePpn(Translate(m.mem, pageTable.root, v).value) == data[v]
    {
      hide Translate, IsUser, IsWritable, IsReadable, TreeOk, Represents, PtePpn;
      PageOkIsMapped(m.mem, pageTable.tree, pageTable.mapping, v, write);
      TranslateMapping(m.mem, pageTable.tree, pageTable.mapping, v);
    }

    constructor (m: Machine)
      requires m.Valid() && m.Free() > 0
      modifies m
      ensures Core(m) && areas == [] && data == map[] && pageTable.mapping == map[] && Valid(m)
      ensures fresh(pageTable)
      ensures |m.mem| == |old(m.mem)| && m.start == old(m.start) && m.end == old(m.end) && m.Free() == old(m.Free()) - 1
      ensures forall p | p in Owned() :: !old(m.Live(p))
      ensures forall p :: m.Live(p) <==> old(m.Live(p)) || p in Owned()
      ensures forall p | 0 <= p < |m.mem| && p !in Owned() :: m.mem[p] == old(m.mem)[p]
    {
      hide TreeOk, Represents, Elements, Machine.Valid, Tables;
      pageTable := new PageTable(m);
      areas, data, owner := [], map[], map[];
    }

    /** Map one page of a framed area to a fresh zeroed frame. */
    method MapOne(m: Machine, v: nat, perm: nat) returns (ok: bool, p: nat)
      requires Core(m) && v < TRAMPOLINE_VPN && v !in pageTable.mapping && perm < 256
      modifies this`data, this`owner, pageTable, m
      ensures old(m.Free()) >= 3 ==> ok
      ensures ok ==> Core(m) && Extends(m) && m.Free() >= old(m.Free()) - 3
      ensures ok ==> data == old(data)[v := p] && p < |m.mem| && m.mem[p] == Zeros(PAGE_SIZE)
      ensures ok ==> pageTable.mapping == old(pageTable.mapping)[v := PteNew(p, WithV(perm))]
    {
      hide Core, TreeOk, Represents, IsUser, Elements, Tables, PteNew, PtePpn, WithV, Index, Pages;
      hide PageTable.Valid, Machine.Valid, Machine.Free, Machine.Live, Zeros;
      p := 0;
      if m.Free() <= 0 { return false, 0; }
      OwnsLive(m);
      p := NewFrame(m);
      ok := Attach(m, v, p, perm);
      if ok { CoreFrames(m); }
    }

    /** Frames of framed pages are data frames in memory, outside the tables. */
    lemma CoreFrames(m: Machine)
      requires Core(m)
      ensures forall v | v in data :: data[v] in owner && data[v] !in Tables(pageTable.tree) && data[v] < |m.mem|
    {
      hide TreeOk, Represents, Elements, PtePpn, IsUser;
    }

    /** Map page `v` to a frame taken for it. */
    method Attach(m: Machine, v: nat, p: nat, perm: nat) returns (ok: bool)
      requires Core(m) && v < TRAMPOLINE_VPN && v !in pageTable.mapping && perm < 256
      requires p < PPN_LIMIT && m.Live(p) && p !in Tables(pageTable.tree) && p !in owner
      modifies this`data, this`owner, pageTable, m
      ensures m.Free() >= old(m.Free()) - 2 || !ok
      ensures old(m.Free()) >= 2 ==> ok
      ensures ok ==> Core(m) && pageTable.Grows(m)
      ensures ok ==> data == old(data)[v := p] && owner == old(owner)[p := v]
      ensures ok ==> pageTable.mapping == old(pageTable.mapping)[v := PteNew(p, WithV(perm))]
    {
      hide TreeOk, Represents, IsUser, Elements, Tables, PteNew, PtePpn, WithV, Index, Pages;
      hide PageTable.Valid, PageTable.Missing, Machine.Valid, Machine.Free, Machine.Live;
      var n := pageTable.NeedTables(m, v);
      if m.Free() < n { return false; }
      pageTable.Map(m, v, p, perm);
      WithVFlags(perm);
      PteRoundTrip(p, WithV(perm));
      PagesApart(data, owner, old(Tables(pageTable.tree)), old(pageTable.mapping));
      AddPage(data, owner, old(Tables(pageTable.tree)), Tables(pageTable.tree), old(pageTable.mapping), v, p,
              PteNew(p, WithV(perm)));
      data := data[v := p];
      owner := owner[p := v];
      ok := true;
    }

    /** Take a zeroed frame for data. */
    method NewFrame(m: Machine) returns (p: nat)
      requires Core(m) && m.Free() > 0
      modifies m
      ensures Core(m) && m.Free() == old(m.Free()) - 1 && m.start == old(m.start) && m.end == old(m.end)
      ensures p < |m.mem| == |old(m.mem)| <= PPN_LIMIT && !old(m.Live(p)) && m.mem == old(m.mem)[p := Zeros(PAGE_SIZE)]
      ensures forall q :: m.Live(q) <==> old(m.Live(q)) || q == p
      ensures p !in Tables(pageTable.tree) && p !in owner
    {
      hide TreeOk, Represents, Elements, Pages, Zeros;
      var r := m.Alloc();
      p := r.value;
      TreeFacts(old(m.mem), pageTable.tree);
      pageTable.StillValid(m);
    }

    /** Map one more page of an area whose pages so far read as zeros. */
    method MapNext(m: Machine, v: nat, perm: nat, ghost frames: map<nat, nat>) returns (ok: bool, p: nat)
      requires Core(m) && v < TRAMPOLINE_VPN && v !in pageTable.mapping && perm < 256
      requires ZeroPages(m.mem, frames) && Within(frames, data)
      modifies this`data, this`owner, pageTable, m
      ensures old(m.Free()) >= 3 ==> ok
      ensures ok ==> Core(m) && Extends(m) && m.Free() >= old(m.Free()) - 3
      ensures ok ==> data == old(data)[v := p] && ZeroPages(m.mem, frames[v := p])
      ensures ok ==> pageTable.mapping == old(pageTable.mapping)[v := PteNew(p, WithV(perm))]
    {
      hide Core, PteNew, WithV, Tables, Machine.Live, Machine.Free, Zeros;
      CoreFrames(m);
      MappedData(m);
      ok, p := MapOne(m, v, perm);
      if !ok { return; }
      CoreFrames(m);
      forall u | u in frames && u != v ensures frames[u] < |m.mem| && m.mem[frames[u]] == Zeros(PAGE_SIZE) {
        assert u in data && data[u] == frames[u];
        assert frames[u] in old(owner) && frames[u] !in Tables(pageTable.tree);
      }
    }

    lemma MappedData(m: Machine)
      requires Core(m)
      ensures forall v | v in data :: v in pageTable.mapping
    {
      hide PtePpn, IsUser, PageTable.Valid;
    }

    /** The pages in `frames` were added, and nothing else about the mappings changed. */
    twostate predicate Added(frames: map<nat, nat>, perm: nat)
      reads this`data, pageTable
    {
      && data == old(data) + frames
      && pageTable.mapping == old(pageTable.mapping) + Entries(frames, perm)
    }

    /** Map every page of an area. */
    method MapPages(m: Machine, start: nat, end: nat, perm: nat) returns (ok: bool, frames: map<nat, nat>)
      requires Core(m) && start <= end <= TRAMPOLINE_VPN && perm < 256
      requires forall v: nat | start <= v < end :: v !in pageTable.mapping
      modifies this`data, this`owner, pageTable, m
      ensures old(m.Free()) >= 3 * (end - start) ==> ok
      ensures ok ==> Core(m) && Extends(m) && Added(frames, perm) && m.Free() >= old(m.Free()) - 3 * (end - start)
      ensures ok ==> (forall v: nat :: v in frames <==> start <= v < end) && ZeroPages(m.mem, frames)
    {
      hide Core, PteNew, WithV, Tables, Machine.Live, Machine.Free, Entries, ZeroPages, Within;
      assert ZeroPages(m.mem, map[]) by { NoPages(m.mem); }
      NoEntries(perm);
      frames := map[];
      ok := true;
      var v := start;
      OwnsLive(m);
      while v < end
        invariant start <= v <= end
        invariant Core(m) && Extends(m) && Added(frames, perm)
        invariant m.Free() >= old(m.Free()) - 3 * (v - start)
        invariant (forall u: nat :: u in frames <==> start <= u < v) && ZeroPages(m.mem, frames)
      {
        var p;
        EntriesKeys(frames, perm);
        WithinSum(frames, old(data));
        ok, p := MapNext(m, v, perm, frames);
        if !ok { return; }
        AddEntry(frames, perm, v, p, old(data), old(pageTable.mapping));
        frames := frames[v := p];
        v := v + 1;
      }
    }

    lemma OwnsLive(m: Machine)
      requires Core(m)
      ensures forall p | p in Owned() :: m.Live(p)
    {
      hide TreeOk, Represents, Pages;
    }

    /** Add a framed area of fresh zeroed pages. The source assumes it overlaps nothing mapped. */
    method Push(m: Machine, start: nat, end: nat, perm: nat) returns (ok: bool)
      requires Valid(m) && start <= end <= TRAMPOLINE_VPN && perm < 256
      requires forall v: nat | start <= v < end :: v !in pageTable.mapping
      modifies this`areas, this`data, this`owner, pageTable, m
      ensures old(m.Free()) >= 3 * (end - start) ==> ok
      ensures ok ==> Valid(m) && Extends(m) && m.Free() >= old(m.Free()) - 3 * (end - start)
      ensures ok ==> |areas| == |old(areas)| + 1 && areas[..|old(areas)|] == old(areas)
      ensures ok ==>
                var a := areas[|old(areas)|];
                && a.start == start && a.end == end && a.perm == perm
                && (forall v: nat :: v in a.dataFrames <==> start <= v < end) && Added(a.dataFrames, perm)
                && ZeroPages(m.mem, a.dataFrames)
    {
      hide PteNew, WithV, PageTable.Valid, Extends, Core, Machine.Free, Machine.Live, AreaMapped, AreaOk, InArea;
      hide Covered;
      AreasMapped(areas, data, pageTable.mapping);
      var frames;
      ok, frames := MapPages(m, start, end, perm);
      if !ok { return; }
      var a := MapArea(start, end, perm, frames);
      AddArea(areas, a, old(data), old(pageTable.mapping));
      areas := areas + [a];
    }

    /** Map the trampoline page, which belongs to no area. */
    method MapTrampoline(m: Machine, ppn: nat) returns (ok: bool)
      requires Valid(m) && TRAMPOLINE_VPN !in pageTable.mapping && ppn < PPN_LIMIT
      modifies pageTable, m
      ensures old(m.Free()) >= 2 ==> ok
      ensures ok ==> Valid(m) && Extends(m) && m.Free() >= old(m.Free()) - 2
      ensures ok ==> pageTable.mapping == old(pageTable.mapping)[TRAMPOLINE_VPN := PteNew(ppn, WithV(TRAMPOLINE_FLAGS))]
    {
      hide TreeOk, Represents, Elements, Tables, PteNew, PtePpn, WithV, Index, PageTable.Valid, Machine.Valid;
      hide Machine.Free;
      hide Pages, AreaMapped;
      OwnsLive(m);
      PagesApart(data, owner, Tables(pageTable.tree), pageTable.mapping);
      var n := pageTable.NeedTables(m, TRAMPOLINE_VPN);
      if m.Free() < n { return false; }
      pageTable.Map(m, TRAMPOLINE_VPN, ppn, TRAMPOLINE_FLAGS);
      WithVFlags(TRAMPOLINE_FLAGS);
      PteRoundTrip(ppn, WithV(TRAMPOLINE_FLAGS));
      assert !IsUser(TRAMPOLINE_FLAGS);
      var bits := PteNew(ppn, WithV(TRAMPOLINE_FLAGS));
      AddOther(data, owner, old(Tables(pageTable.tree)), Tables(pageTable.tree), old(pageTable.mapping), bits);
      forall i | 0 <= i < |areas| ensures AreaMapped(areas[i], data, pageTable.mapping) {
        OtherAreaMapped(areas[i], data, old(pageTable.mapping), bits);
      }
      ok := true;
    }

    // -------------------------------------------------------------------------
    // Removal
    // -------------------------------------------------------------------------

    /** Frames went back to the allocator; at most the tables were written. */
    twostate predicate Shrinks(m: Machine)
      reads this`owner, pageTable, m
    {
      && |m.mem| == |old(m.mem)| && m.start == old(m.start) && m.end == old(m.end)
      && owner.Keys <= old(owner).Keys && Tables(pageTable.tree) == old(Tables(pageTable.tree))
      && (forall p :: m.Live(p) <==> old(m.Live(p)) && (p in old(owner) ==> p in owner))
      && (forall p | 0 <= p < |m.mem| && p !in Tables(pageTable.tree) :: m.mem[p] == old(m.mem)[p])
    }

    /** Give a data frame back; the table does not depend on it. */
    method ReturnFrame(m: Machine, p: nat)
      requires Core(m) && p in owner && p !in Tables(pageTable.tree)
      modifies m`recycled, m`live
      ensures pageTable.Valid(m) && m.Free() == old(m.Free()) + 1
      ensures forall q :: m.Live(q) <==> old(m.Live(q)) && q != p
    {
      hide TreeOk, Represents, Elements, Pages, Index;
      TreeFacts(m.mem, pageTable.tree);
      m.Dealloc(p);
      pageTable.StillValid(m);
    }

    /** Give a page's frame back and clear its entry. */
    method UnmapOne(m: Machine, v: nat)
      requires Core(m) && v in data
      modifies this`data, this`owner, pageTable`mapping, m`mem, m`recycled, m`live
      ensures Core(m) && Shrinks(m) && m.Free() == old(m.Free()) + 1
      ensures data == old(data) - {v} && pageTable.mapping == old(pageTable.mapping) - {v}
    {
      hide PageTable.Valid, Tables, PtePpn, Index, Pages, Machine.Valid, Machine.Live, Machine.Free;
      ghost var p := data[v];
      MappedBelow(m, v);
      PageOwner(data, owner, Tables(pageTable.tree), pageTable.mapping, v);
      RemovePage(data, owner, Tables(pageTable.tree), pageTable.mapping, v);
      var r := FrameOf(m, v);
      ReturnFrame(m, r);
      pageTable.Unmap(m, v);
      data, owner := data - {v}, owner - {p};
    }

    /** Unmap every page of an area. */
    method UnmapPages(m: Machine, start: nat, end: nat)
      requires Core(m) && start <= end && forall v: nat | start <= v < end :: v in data
      modifies this`data, this`owner, pageTable`mapping, m`mem, m`recycled, m`live
      ensures Core(m) && Shrinks(m) && m.Free() == old(m.Free()) + end - start
      ensures data == Without(old(data), start, end) && pageTable.mapping == Without(old(pageTable.mapping), start, end)
    {
      hide Core, Tables, Machine.Live, Machine.Free;
      NothingOut(data, start);
      NothingOut(pageTable.mapping, start);
      for v := start to end
        invariant Core(m) && Shrinks(m) && m.Free() == old(m.Free()) + v - start
        invariant data == Without(old(data), start, v) && pageTable.mapping == Without(old(pageTable.mapping), start, v)
      {
        OneMoreOut(old(data), start, v);
        OneMoreOut(old(pageTable.mapping), start, v);
        UnmapOne(m, v);
      }
    }

    /** Remove the first area that starts at `start`, if there is one: its pages and frames go,
        everything else stays. */
    method RemoveArea(m: Machine, start: nat) returns (ghost removed: Option<nat>)
      requires Valid(m)
      modifies this`areas, this`data, this`owner, pageTable`mapping, m`mem, m`recycled, m`live
      ensures Valid(m) && Shrinks(m)
      ensures removed.None? ==> (forall i | 0 <= i < |old(areas)| :: old(areas)[i].start != start)
                                && areas == old(areas) && data == old(data)
                                && pageTable.mapping == old(pageTable.mapping)
      ensures removed.Some? ==>
                var i := removed.value;
                && i < |old(areas)| && old(areas)[i].start == start
                && (forall j | 0 <= j < i :: old(areas)[j].start != start)
                && areas == old(areas)[..i] + old(areas)[i + 1..]
                && data == Without(old(data), start, old(areas)[i].end)
                && pageTable.mapping == Without(old(pageTable.mapping), start, old(areas)[i].end)
                && m.Free() == old(m.Free()) + AreaSize(old(areas)[i])
    {
      hide Core, Tables, Machine.Live, Machine.Free, AreaMapped, AreaOk;
      var found := FindArea(start);
      removed := found;
      if found.None? { return; }
      var i := found.value;
      var a := areas[i];
      AreaShape(a, data, pageTable.mapping);
      UnmapPages(m, a.start, a.end);
      RemoveCovered(areas, i, old(data));
      forall j | 0 <= j < |areas| && j != i ensures AreaMapped(areas[j], data, pageTable.mapping) {
        assert forall v: nat | InArea(areas[j], v) :: !InArea(a, v);
        KeptAreaMapped(areas[j], a, old(data), old(pageTable.mapping));
      }
      RemoveAreas(areas, i, data, pageTable.mapping);
      areas := areas[..i] + areas[i + 1..];
    }

    /** Adding an area and removing the one that starts where it does. Unless an older (then empty)
        area starts there too, areas, pages, frames and mappings are what they were; tables created
        on the way stay. */
    method PushAndRemove(m: Machine, start: nat, end: nat, perm: nat) returns (ok: bool)
      requires Valid(m) && start <= end <= TRAMPOLINE_VPN && perm < 256
      requires forall v: nat | start <= v < end :: v !in pageTable.mapping
      modifies this`areas, this`data, this`owner, pageTable, m
      ensures old(m.Free()) >= 3 * (end - start) ==> ok
      ensures ok ==> Valid(m)
      ensures ok && (forall i | 0 <= i < |old(areas)| :: old(areas)[i].start != start) ==>
                areas == old(areas) && data == old(data) && pageTable.mapping == old(pageTable.mapping)
    {
      hide Valid, Machine.Free, Machine.Live, Tables, Entries, PteNew, WithV;
      DataMapped(m);
      ok := Push(m, start, end, perm);
      if !ok { return; }
      ghost var pushed := areas;
      ghost var a := areas[|old(areas)|];
      RemoveUndoesPush(old(data), a.dataFrames, start, end);
      EntriesKeys(a.dataFrames, perm);
      RemoveUndoesPush(old(pageTable.mapping), Entries(a.dataFrames, perm), start, end);
      assert forall i | 0 <= i < |old(areas)| :: pushed[i] == pushed[..|old(areas)|][i];
      ghost var removed := RemoveArea(m, start);
      if forall i | 0 <= i < |old(areas)| :: old(areas)[i].start != start {
        assert pushed[|old(areas)|].start == start;
        assert removed == Some(|old(areas)|);
        assert pushed[..|old(areas)|] + pushed[|old(areas)| + 1..] == old(areas);
      }
    }

    /** The first area that starts at `start`. */
    method FindArea(start: nat) returns (r: Option<nat>)
      ensures r.None? ==> forall i | 0 <= i < |areas| :: areas[i].start != start
      ensures r.Some? ==>
                r.value < |areas| && areas[r.value].start == start
                && forall j | 0 <= j < r.value :: areas[j].start != start
    {
      for i := 0 to |areas|
        invariant forall j | 0 <= j < i :: areas[j].start != start
      {
        if areas[i].start == start { return Some(i); }
      }
      r := None;
    }

    /** Return the data frames of one area. */
    method DropArea(m: Machine, a: MapArea, ghost live: set<nat>, ghost done: set<nat>) returns (ghost all: set<nat>)
      requires m.Valid() && Inverse(data, owner) && owner.Keys <= live && m.live == live - Gone(data, done)
      requires AreaOk(a) && forall v: nat | InArea(a, v) :: v in data && data[v] == a.dataFrames[v] && v !in done
      modifies m`recycled, m`live
      ensures m.Valid() && m.live == live - Gone(data, all)
      ensures forall v :: v in all <==> v in done || InArea(a, v)
    {
      hide Gone, Inverse, Machine.Valid;
      all := done;
      for v := a.start to a.end
        invariant m.Valid() && m.live == live - Gone(data, all)
        invariant forall u :: u in all <==> u in done || a.start <= u < v
      {
        assert InArea(a, v);
        GoneStep(data, owner, all, v);
        m.Dealloc(a.dataFrames[v]);
        all := all + {v};
      }
    }

    /** Exit of a process: all data frames go back, the tables stay. */
    method RecycleDataPages(m: Machine)
      requires Valid(m)
      modifies this`areas, m`recycled, m`live
      ensures areas == [] && pageTable.Valid(m) && m.live == old(m.live) - owner.Keys
    {
      hide Gone, AreaOk, InArea, Covered, Valid, PageTable.Valid, Machine.Valid, Inverse, Tables, Apart;
      ghost var done: set<nat> := {};
      DropFacts(m);
      NoneGone(data);
      var parts := areas;
      for i := 0 to |parts|
        invariant areas == parts && m.Valid() && m.live == old(m.live) - Gone(data, done)
        invariant forall v :: v in done <==> Covered(parts[..i], v)
      {
        CoverOne(parts, i);
        done := DropArea(m, parts[i], old(m.live), done);
      }
      assert parts[..|parts|] == parts;
      AllGone(data, owner, done);
      areas := [];
      TablesStay(m);
    }

    /** What dropping relies on. */
    lemma DropFacts(m: Machine)
      requires Valid(m)
      ensures m.Valid() && Inverse(data, owner) && owner.Keys <= m.live
      ensures forall i | 0 <= i < |areas| :: AreaOk(areas[i])
      ensures forall i, v: nat | 0 <= i < |areas| && InArea(areas[i], v) ::
                v in areas[i].dataFrames && v in data && data[v] == areas[i].dataFrames[v]
      ensures Apart(areas) && forall v | v in data :: Covered(areas, v)
      ensures forall v :: !Covered(areas[..0], v)
    {
      hide TreeOk, Represents, Elements, PtePpn, IsUser;
      forall i, v: nat | 0 <= i < |areas| && InArea(areas[i], v)
        ensures v in areas[i].dataFrames && v in data && data[v] == areas[i].dataFrames[v]
      {
        InAreaMapped(areas[i], data, pageTable.mapping, v);
      }
    }

    /** The page table does not depend on data frames being in use. */
    twostate lemma TablesStay(m: Machine)
      requires old(Valid(m)) && m.Valid() && m.mem == old(m.mem) && unchanged(pageTable)
      requires m.live == old(m.live) - old(owner.Keys)
      ensures pageTable.Valid(m)
    {
      hide TreeOk, Represents, Elements, PtePpn, IsUser;
      TreeFacts(m.mem, pageTable.tree);
      pageTable.StillValid(m);
    }

    /** Drop the whole space: exactly its frames go back. */
    method Drop(m: Machine)
      requires Valid(m)
      modifies this`areas, m`recycled, m`live
      ensures m.Valid() && m.live == old(m.live) - Owned()
    {
      hide Valid, PageTable.Valid;
      RecycleDataPages(m);
      pageTable.Drop(m);
    }

    // -------------------------------------------------------------------------
    // Fork
    // -------------------------------------------------------------------------

    /** A space survives whatever happens outside its own frames. */
    twostate lemma StillValid(m: Machine)
      requires old(Valid(m)) && m.Valid() && |m.mem| == |old(m.mem)|
      requires unchanged(this) && unchanged(pageTable)
      requires forall p | p in Owned() :: m.Live(p)
      requires forall p | p in Tables(pageTable.tree) && p < |m.mem| :: m.mem[p] == old(m.mem)[p]
      ensures Valid(m)
    {
      hide TreeOk, Represents, Elements, Pages, AreaMapped, Machine.Valid, Machine.Live;
      TreeFacts(old(m.mem), pageTable.tree);
      pageTable.StillValid(m);
    }

    /** Copy the pages of one area from another space, frame by frame. */
    method CopyPages(m: Machine, parent: MemorySet, start: nat, end: nat)
      requires Valid(m) && parent.Valid(m) && start <= end <= TRAMPOLINE_VPN
      requires Owned() !! parent.Owned()
      requires forall v: nat | start <= v < end :: v in data && v in parent.data
      modifies m`mem
      ensures Valid(m) && parent.Valid(m) && |m.mem| == |old(m.mem)|
      ensures forall p | 0 <= p < |m.mem| && p !in owner :: m.mem[p] == old(m.mem)[p]
      ensures KeptOutside(old(m.mem), m.mem, data, start, end)
      ensures Copied(m.mem, data, parent.data, start, end)
    {
      hide Valid, Owned, Machine.Valid, Machine.Live, Tables;
      FramesIn(m);
      parent.FramesIn(m);
      for v := start to end
        invariant Valid(m) && parent.Valid(m) && |m.mem| == |old(m.mem)|
        invariant forall p | 0 <= p < |m.mem| && p !in owner :: m.mem[p] == old(m.mem)[p]
        invariant KeptOutside(old(m.mem), m.mem, data, start, v)
        invariant Copied(m.mem, data, parent.data, start, v)
      {
        CopyPage(m, parent, v);
      }
    }

    /** Frames behind pages are in memory, live, distinct, and the recorded owners. */
    lemma FramesIn(m: Machine)
      requires Valid(m)
      ensures m.Valid()
      ensures forall v | v in data ::
                data[v] in owner && data[v] in Owned() && data[v] < |m.mem| && data[v] !in Tables(pageTable.tree)
      ensures forall u, v | u in data && v in data && u != v :: data[u] != data[v]
      ensures forall p | p in owner :: p in Owned() && owner[p] in data && data[owner[p]] == p
      ensures forall p | p in Owned() :: m.Live(p) && p < |m.mem|
      ensures Tables(pageTable.tree) <= Owned()
    {
      hide TreeOk, Represents, Elements, AreaMapped, PtePpn, IsUser;
      OwnsLive(m);
    }

    /** `translate(v).unwrap().ppn()` for a framed page. */
    method FrameOf(m: Machine, v: nat) returns (p: nat)
      requires Core(m) && v in data
      ensures p == data[v]
    {
      hide TreeOk, Represents, Elements, Pages, PtePpn, IsUser, IsValid, Translate;
      MappedBelow(m, v);
      var r := pageTable.TranslateVpn(m, v);
      p := PtePpn(r.value);
    }

    method CopyPage(m: Machine, parent: MemorySet, v: nat)
      requires Valid(m) && parent.Valid(m) && v in data && v in parent.data && Owned() !! parent.Owned()
      modifies m`mem
      ensures Valid(m) && parent.Valid(m) && data[v] < |old(m.mem)| && parent.data[v] < |old(m.mem)|
      ensures m.mem == old(m.mem)[data[v] := old(m.mem)[parent.data[v]]]
    {
      hide Valid, Core, Owned, Machine.Valid, Tables;
      parent.FramesIn(m);
      FramesIn(m);
      ValidIsCore(m, this);
      ValidIsCore(m, parent);
      var src := parent.FrameOf(m, v);
      var dst := FrameOf(m, v);
      m.Store(dst, m.mem[src]);
      StillValid(m);
      parent.StillValid(m);
    }

    lemma MappedBelow(m: Machine, v: nat)
      requires Core(m) && v in data
      ensures v < VPN_LIMIT && v in pageTable.mapping && PtePpn(pageTable.mapping[v]) == data[v]
              && data[v] !in Tables(pageTable.tree)
    {
      hide TreeOk, IsValid, PtePpn, IsUser, Lookup;
    }

    /** Everything this space has is a fresh copy of `parent`'s first `n` areas. */
    ghost predicate CopyOf(m: Machine, parent: MemorySet, n: nat)
      reads this, pageTable, parent, m
    {
      && |areas| == n <= |parent.areas|
      && (forall i | 0 <= i < n :: SameExtent(areas[i], parent.areas[i]))
      && (forall v | v in data :: v in parent.data && SameBytes(m.mem, data[v], parent.data[v]))
    }

    /** Pages of the next area to copy are not mapped yet. */
    lemma NextUnmapped(m: Machine, parent: MemorySet, n: nat)
      requires Valid(m) && parent.Valid(m) && CopyOf(m, parent, n) && n < |parent.areas|
      ensures forall v: nat | InArea(parent.areas[n], v) :: v !in pageTable.mapping
      ensures forall v: nat | InArea(parent.areas[n], v) :: v in parent.data
      ensures parent.areas[n].start <= parent.areas[n].end <= TRAMPOLINE_VPN && parent.areas[n].perm < 256
    {
      hide PageTable.Valid, PtePpn, IsUser, SameBytes, AreaMapped, Inverse;
      forall v: nat | InArea(parent.areas[n], v) ensures v !in pageTable.mapping && v in parent.data {
        InAreaMapped(parent.areas[n], parent.data, parent.pageTable.mapping, v);
        assert forall j | 0 <= j < n :: !InArea(parent.areas[j], v);
        assert !Covered(areas, v);
      }
    }

    /** A full copy has the parent's pages. */
    lemma SameKeys(m: Machine, parent: MemorySet)
      requires Valid(m) && parent.Valid(m) && CopyOf(m, parent, |parent.areas|)
      ensures data.Keys == parent.data.Keys
    {
      hide Core, SameBytes, AreaMapped;
      forall v | v in parent.data ensures v in data {
        var i :| 0 <= i < |parent.areas| && InArea(parent.areas[i], v);
        InAreaMapped(areas[i], data, pageTable.mapping, v);
      }
    }

    /** Add the parent's next area, still empty, to a partial copy. */
    method PushNext(m: Machine, parent: MemorySet, n: nat) returns (ok: bool)
      requires Valid(m) && parent.Valid(m) && CopyOf(m, parent, n) && n < |parent.areas|
      requires parent != this && parent.pageTable != pageTable && Owned() !! parent.Owned()
      modifies this`areas, this`data, this`owner, pageTable, m
      ensures old(m.Free()) >= 3 * AreaSize(parent.areas[n]) ==> ok
      ensures ok ==> Valid(m) && parent.Valid(m) && Extends(m) && Owned() !! parent.Owned()
      ensures ok ==> m.Free() >= old(m.Free()) - 3 * AreaSize(parent.areas[n])
      ensures ok ==> |areas| == n + 1 && areas[..n] == old(areas) && SameExtent(areas[n], parent.areas[n])
      ensures ok ==> data == old(data) + areas[n].dataFrames
      ensures ok ==> forall v: nat :: v in areas[n].dataFrames <==> InArea(parent.areas[n], v)
      ensures ok ==>
                forall v | v in old(data) :: v !in areas[n].dataFrames && FrameKept(old(m.mem), m.mem, old(data)[v])
      ensures ok ==> forall p | p in parent.Owned() :: FrameKept(old(m.mem), m.mem, p)
    {
      hide Valid, Machine.Valid, Machine.Live, Tables, Entries, Machine.Free;
      FramesIn(m);
      parent.FramesIn(m);
      NextUnmapped(m, parent, n);
      DataMapped(m);
      ok := Push(m, parent.areas[n].start, parent.areas[n].end, parent.areas[n].perm);
      if !ok { return; }
      FramesIn(m);
      parent.StillValid(m);
    }

    lemma DataMapped(m: Machine)
      requires Valid(m)
      ensures forall v | v in data :: v in pageTable.mapping
    {
      hide PtePpn, IsUser, AreaMapped, PageTable.Valid;
    }

    /** Copy one more area. */
    method CopyArea(m: Machine, parent: MemorySet, n: nat) returns (ok: bool)
      requires Valid(m) && parent.Valid(m) && CopyOf(m, parent, n) && n < |parent.areas|
      requires parent != this && parent.pageTable != pageTable && Owned() !! parent.Owned()
      modifies this`areas, this`data, this`owner, pageTable, m
      ensures old(m.Free()) >= 3 * AreaSize(parent.areas[n]) ==> ok
      ensures ok ==> Valid(m) && parent.Valid(m) && CopyOf(m, parent, n + 1) && Owned() !! parent.Owned() && Extends(m)
      ensures ok ==> m.Free() >= old(m.Free()) - 3 * AreaSize(parent.areas[n])
    {
      hide Valid, Machine.Valid, Machine.Live, Tables, Entries;
      FramesIn(m);
      ok := PushNext(m, parent, n);
      if !ok { return; }
      ghost var pushed := m.mem;
      FramesIn(m);
      parent.FramesIn(m);
      var a := parent.areas[n];
      NextShape(m, parent, n);
      CopyPages(m, parent, a.start, a.end);
      assert forall i | 0 <= i < n :: areas[i] == areas[..n][i];
      CopyGrows(old(m.mem), pushed, m.mem, old(data), data, parent.data, areas[n].dataFrames, a.start, a.end);
    }

    lemma NextShape(m: Machine, parent: MemorySet, n: nat)
      requires parent.Valid(m) && n < |parent.areas|
      ensures parent.areas[n].start <= parent.areas[n].end <= TRAMPOLINE_VPN
      ensures forall v: nat | parent.areas[n].start <= v < parent.areas[n].end ::
                InArea(parent.areas[n], v) && v in parent.data
    {
      hide Core, AreaMapped;
      forall v: nat | InArea(parent.areas[n], v) ensures v in parent.data {
        InAreaMapped(parent.areas[n], parent.data, parent.pageTable.mapping, v);
      }
    }

    /** An empty space with the trampoline mapped. */
    static method NewUserSpace(m: Machine, trampoline: nat) returns (ok: bool, s: MemorySet?)
      requires m.Valid() && trampoline < PPN_LIMIT
      modifies m
      ensures old(m.Free()) >= 3 ==> ok
      ensures ok ==> s != null && fresh(s) && fresh(s.pageTable) && s.Valid(m) && s.areas == [] && s.data == map[]
      ensures ok ==> Untouched(m, s) && m.Free() >= old(m.Free()) - 3
    {
      hide Machine.Valid, Machine.Free, Machine.Live, MemorySet.Valid, MemorySet.Core, Tables, PteNew, WithV;
      m.LiveBound();
      ok, s := false, null;
      if m.Free() <= 0 { return; }
      var space := new MemorySet(m);
      ok := space.MapTrampoline(m, trampoline);
      s := space;
    }

    /** Copy an address space. The copy has the same areas, permissions and bytes, on frames
        none of which was in use before, and nothing in use before has changed. */
    static method FromExistedUser(m: Machine, parent: MemorySet, trampoline: nat) returns (ok: bool, child: MemorySet?)
      requires parent.Valid(m) && trampoline < PPN_LIMIT
      modifies m
      ensures old(m.Free()) >= 3 + 3 * PageCount(parent.areas) ==> ok
      ensures ok ==> child != null && fresh(child) && fresh(child.pageTable) && child.Valid(m) && parent.Valid(m)
      ensures ok ==> child.CopyOf(m, parent, |parent.areas|) && child.data.Keys == parent.data.Keys
      ensures ok ==> child.Owned() !! parent.Owned() && Untouched(m, child)
    {
      hide MemorySet.Valid, Machine.Valid, Machine.Free, Machine.Live, SameBytes, Tables;
      parent.FramesIn(m);
      ok, child := NewUserSpace(m, trampoline);
      if !ok { return; }
      child.FramesIn(m);
      parent.StillValid(m);
      assert parent.areas[..0] == [];
      hide MemorySet.Owned;
      var i := 0;
      while i < |parent.areas|
        invariant i <= |parent.areas|
        invariant fresh(child) && fresh(child.pageTable) && child.Valid(m) && parent.Valid(m)
        invariant child.CopyOf(m, parent, i)
        invariant child.Owned() !! parent.Owned() && Untouched(m, child)
        invariant m.Free() >= old(m.Free()) - 3 - 3 * PageCount(parent.areas[..i])
      {
        assert parent.areas[..i + 1][..i] == parent.areas[..i];
        PageCountPrefix(parent.areas, i + 1);
        child.FramesIn(m);
        ok := child.CopyArea(m, parent, i);
        if !ok { return; }
        child.FramesIn(m);
        i := i + 1;
      }
      child.SameKeys(m, parent);
    }
  }

  /** Frames of the pages dropped so far. */
  ghost function Gone(data: map<nat, nat>, done: set<nat>): set<nat> {
    set v | v in done && v in data :: data[v]
  }

  lemma NoneGone(data: map<nat, nat>)
    ensures Gone(data, {}) == {}
  {
  }

  lemma GoneStep(data: map<nat, nat>, owner: map<nat, nat>, done: set<nat>, v: nat)
    requires Inverse(data, owner) && v in data && v !in done
    ensures data[v] in owner && data[v] !in Gone(data, done) && Gone(data, done + {v}) == Gone(data, done) + {data[v]}
  {
  }

  lemma AllGone(data: map<nat, nat>, owner: map<nat, nat>, done: set<nat>)
    requires Inverse(data, owner) && forall v | v in data :: v in done
    ensures Gone(data, done) == owner.Keys
  {
    forall p | p in owner ensures p in Gone(data, done) { assert owner[p] in data && data[owner[p]] == p; }
  }

  lemma CoverOne(areas: seq<MapArea>, i: nat)
    requires i < |areas| && Apart(areas)
    ensures forall v: nat | InArea(areas[i], v) :: !Covered(areas[..i], v)
    ensures forall v: nat :: Covered(areas[..i + 1], v) <==> Covered(areas[..i], v) || InArea(areas[i], v)
  {
    hide InArea;
    var before, upTo := areas[..i], areas[..i + 1];
    forall v: nat ensures Covered(upTo, v) <==> Covered(before, v) || InArea(areas[i], v) {
      if Covered(before, v) {
        var j :| 0 <= j < |before| && InArea(before[j], v);
        assert InArea(upTo[j], v);
      }
      if InArea(areas[i], v) { assert InArea(upTo[i], v); }
      if Covered(upTo, v) {
        var j :| 0 <= j < |upTo| && InArea(upTo[j], v);
        if j < i { assert InArea(before[j], v); }
      }
    }
  }

  /** A map without the pages [start, end). */
  ghost function Without(d: map<nat, nat>, start: nat, end: nat): map<nat, nat> {
    map v | v in d && !(start <= v < end) :: d[v]
  }

  lemma NothingOut(d: map<nat, nat>, start: nat)
    ensures Without(d, start, start) == d
  {
  }

  lemma OneMoreOut(d: map<nat, nat>, start: nat, v: nat)
    requires start <= v
    ensures Without(d, start, v) - {v} == Without(d, start, v + 1)
  {
  }

  /** Removing an area takes back exactly what adding it put in. */
  lemma RemoveUndoesPush(d: map<nat, nat>, frames: map<nat, nat>, start: nat, end: nat)
    requires forall v: nat :: v in frames <==> start <= v < end
    requires forall v: nat | start <= v < end :: v !in d
    ensures Without(d + frames, start, end) == d
  {
  }

  lemma PageOwner(data: map<nat, nat>, owner: map<nat, nat>, tables: set<nat>, mapping: map<nat, nat>, v: nat)
    requires Pages(data, owner, tables, mapping) && v in data
    ensures data[v] in owner && data[v] !in tables
  {
  }

  lemma RemovePage(data: map<nat, nat>, owner: map<nat, nat>, tables: set<nat>, mapping: map<nat, nat>, v: nat)
    requires Pages(data, owner, tables, mapping) && v in data
    ensures Pages(data - {v}, owner - {data[v]}, tables, mapping - {v})
  {
    hide PtePpn, IsUser;
  }

  lemma AreaShape(a: MapArea, data: map<nat, nat>, mapping: map<nat, nat>)
    requires AreaOk(a) && AreaMapped(a, data, mapping)
    ensures a.start <= a.end && forall v: nat | a.start <= v < a.end :: v in data
  {
    forall v: nat | a.start <= v < a.end ensures v in data { InAreaMapped(a, data, mapping, v); }
  }

  lemma KeptAreaMapped(b: MapArea, a: MapArea, data: map<nat, nat>, mapping: map<nat, nat>)
    requires AreaMapped(b, data, mapping) && forall v: nat | InArea(b, v) :: !InArea(a, v)
    ensures AreaMapped(b, Without(data, a.start, a.end), Without(mapping, a.start, a.end))
  {
    hide PteNew, WithV;
  }

  /** The other areas stay as good and as disjoint as they were. */
  lemma RemoveAreas(areas: seq<MapArea>, i: nat, data: map<nat, nat>, mapping: map<nat, nat>)
    requires i < |areas|
    requires forall j | 0 <= j < |areas| && j != i :: AreaOk(areas[j]) && AreaMapped(areas[j], data, mapping)
    requires forall j, k, v: nat | 0 <= j < k < |areas| && InArea(areas[j], v) :: !InArea(areas[k], v)
    ensures var rest := areas[..i] + areas[i + 1..];
      && (forall j | 0 <= j < |rest| :: AreaOk(rest[j]) && AreaMapped(rest[j], data, mapping))
      && (forall j, k, v: nat | 0 <= j < k < |rest| && InArea(rest[j], v) :: !InArea(rest[k], v))
  {
    hide AreaOk, AreaMapped, InArea;
    var rest := areas[..i] + areas[i + 1..];
    assert forall j | 0 <= j < |rest| :: rest[j] == areas[if j < i then j else j + 1];
  }

  lemma RemoveCovered(areas: seq<MapArea>, i: nat, data: map<nat, nat>)
    requires i < |areas| && forall v | v in data :: Covered(areas, v)
    ensures forall v | v in Without(data, areas[i].start, areas[i].end) :: Covered(areas[..i] + areas[i + 1..], v)
  {
    var rest := areas[..i] + areas[i + 1..];
    forall v | v in Without(data, areas[i].start, areas[i].end) ensures Covered(rest, v) {
      var j :| 0 <= j < |areas| && InArea(areas[j], v);
      assert InArea(rest[if j < i then j else j - 1], v);
    }
  }

  /** A checked user range is backed by data frames of its space, outside the page table. */
  lemma UserRangeIsData(m: Machine, s: MemorySet, ptr: nat, len: nat, write: bool)
    requires s.Valid(m) && RangeOk(m.mem, s.pageTable.root, ptr, len, write)
    ensures AddrsIn(m.mem, PhysRange(m.mem, s.pageTable.root, ptr, len))
    ensures DataRange(m.mem, s.pageTable.tree, PhysRange(m.mem, s.pageTable.root, ptr, len))
    ensures forall i | 0 <= i < len :: PhysRange(m.mem, s.pageTable.root, ptr, len)[i].0 in s.owner
  {
    hide MemorySet.Valid, Machine.Valid, Tables, Translate, PageOk, RangeOk, PhysRange;
    ValidIsTree(m, s);
    var root := s.pageTable.root;
    var addrs := PhysRange(m.mem, root, ptr, len);
    s.FramesIn(m);
    forall i | 0 <= i < len
      ensures addrs[i].0 < |m.mem| && addrs[i].1 < PAGE_SIZE && addrs[i].0 !in Tables(s.pageTable.tree)
              && addrs[i].0 in s.owner
    {
      UserByteIsData(m, s, ptr, len, write, i);
    }
  }

  /** Every space is backed by memory, which is what loading a string relies on. */
  lemma SpaceIsBacked(m: Machine, s: MemorySet)
    requires s.Valid(m)
    ensures s.pageTable.root < |m.mem| && Backed(m.mem, s.pageTable.root)
  {
    hide MemorySet.Valid, MemorySet.Core, Translate;
    ValidIsTree(m, s);
    ValidIsCore(m, s);
    forall v: nat, w | v < VPN_LIMIT && PageOk(m.mem, s.pageTable.root, v, w)
      ensures PtePpn(Translate(m.mem, s.pageTable.root, v).value) < |m.mem|
    {
      s.UserPagesAreData(m, v, w);
    }
  }

  lemma UserByteIsData(m: Machine, s: MemorySet, ptr: nat, len: nat, write: bool, i: nat)
    requires s.Valid(m) && RangeOk(m.mem, s.pageTable.root, ptr, len, write) && i < len
    ensures var (p, o) := PhysRange(m.mem, s.pageTable.root, ptr, len)[i];
            var v := (ptr + i) / PAGE_SIZE;
            o < PAGE_SIZE && v in s.data && p == s.data[v]
  {
    hide MemorySet.Valid, MemorySet.Core, Machine.Valid, Tables, Translate, PageOk;
    ValidIsTree(m, s);
    var root := s.pageTable.root;
    var v := (ptr + i) / PAGE_SIZE;
    assert PageOk(m.mem, root, v, write);
    assert v < VPN_LIMIT;
    assert s.Core(m) by { ValidIsCore(m, s); }
    s.UserPagesAreData(m, v, write);
    assert PhysRange(m.mem, root, ptr, len)[i] == PhysOf(m.mem, root, ptr + i);
    PageOkSome(m.mem, root, v, write);
  }

  lemma PageOkSome(mem: seq<Frame>, root: nat, v: nat, write: bool)
    requires root < |mem| && PageOk(mem, root, v, write)
    ensures Translate(mem, root, v).Some?
  {
  }

  lemma ValidIsCore(m: Machine, s: MemorySet)
    requires s.Valid(m)
    ensures s.Core(m)
  {
  }

  // ---------------------------------------------------------------------------
  // User memory of a space
  // ---------------------------------------------------------------------------

  /** No two bytes of an accepted range share a place, however many pages it spans. */
  lemma RangeDistinct(m: Machine, s: MemorySet, ptr: nat, len: nat, write: bool)
    requires s.Valid(m) && RangeOk(m.mem, s.pageTable.root, ptr, len, write)
    ensures NoDuplicates(PhysRange(m.mem, s.pageTable.root, ptr, len))
  {
    hide MemorySet.Valid, PhysRange, RangeOk, Tables, Machine.Valid;
    s.FramesIn(m);
    RootIn(m, s);
    var addrs := PhysRange(m.mem, s.pageTable.root, ptr, len);
    forall i, j | 0 <= i < j < |addrs| ensures addrs[i] != addrs[j] {
      UserByteIsData(m, s, ptr, len, write, i);
      UserByteIsData(m, s, ptr, len, write, j);
      PhysOffset(m.mem, s.pageTable.root, ptr, len, write, i);
      PhysOffset(m.mem, s.pageTable.root, ptr, len, write, j);
      if (ptr + i) / PAGE_SIZE == (ptr + j) / PAGE_SIZE {
        SamePageOffsets(ptr + i, ptr + j);
      }
    }
  }

  lemma SamePageOffsets(a: nat, b: nat)
    requires a < b && a / PAGE_SIZE == b / PAGE_SIZE
    ensures a % PAGE_SIZE != b % PAGE_SIZE
  {
    PageBounds(a);
    PageBounds(b);
  }

  // ---------------------------------------------------------------------------
  // What a space lets its process access
  // ---------------------------------------------------------------------------

  /** Some area covers page `v`, for the user (bit 4), with the right needed (W is bit 2, R bit 1). */
  ghost predicate Granted(areas: seq<MapArea>, v: nat, write: bool) {
    exists i :: 0 <= i < |areas| && InArea(areas[i], v)
                && Bits.Bit(areas[i].perm, 4) && Bits.Bit(areas[i].perm, if write then 2 else 1)
  }

  /** The page of an area may be accessed exactly as its permission bits say. */
  lemma PageAccess(m: Machine, s: MemorySet, i: nat, v: nat)
    requires s.Valid(m) && i < |s.areas| && InArea(s.areas[i], v)
    ensures s.pageTable.root < |m.mem|
    ensures var perm := s.areas[i].perm;
      && (PageOk(m.mem, s.pageTable.root, v, true) <==> Bits.Bit(perm, 4) && Bits.Bit(perm, 2))
      && (PageOk(m.mem, s.pageTable.root, v, false) <==> Bits.Bit(perm, 4) && Bits.Bit(perm, 1))
  {
    hide TreeOk, Represents, Translate, PteNew, WithV, IsUser, IsWritable, IsReadable, PtePpn, PageOk, Bits.Bit;
    ValidIsTree(m, s);
    s.FramesIn(m);
    AreaEntry(m, s, i, v);
    EntryBits(s.data[v], s.areas[i].perm);
    PageOkIsMapped(m.mem, s.pageTable.tree, s.pageTable.mapping, v, true);
    PageOkIsMapped(m.mem, s.pageTable.tree, s.pageTable.mapping, v, false);
  }

  lemma AreaEntry(m: Machine, s: MemorySet, i: nat, v: nat)
    requires s.Valid(m) && i < |s.areas| && InArea(s.areas[i], v)
    ensures v < VPN_LIMIT && v in s.data && s.data[v] < PPN_LIMIT && s.areas[i].perm < 256
    ensures v in s.pageTable.mapping && s.pageTable.mapping[v] == PteNew(s.data[v], WithV(s.areas[i].perm))
    ensures Represents(m.mem, s.pageTable.tree, s.pageTable.mapping)
  {
    hide TreeOk, Represents, PteNew, WithV, IsUser, PtePpn;
    assert AreaOk(s.areas[i]) && AreaMapped(s.areas[i], s.data, s.pageTable.mapping);
    PpnBound(s.pageTable.mapping[v]);
  }

  lemma PpnBound(bits: nat)
    ensures PtePpn(bits) < PPN_LIMIT
  {
  }

  /** A page in no area may not be accessed at all. */
  lemma NoAccess(m: Machine, s: MemorySet, v: nat, write: bool)
    requires s.Valid(m) && v < VPN_LIMIT && !Covered(s.areas, v)
    ensures s.pageTable.root < |m.mem| && !PageOk(m.mem, s.pageTable.root, v, write)
  {
    hide TreeOk, Represents, Translate, PtePpn, PageOk;
    ValidIsTree(m, s);
    if PageOk(m.mem, s.pageTable.root, v, write) { s.UserPagesAreData(m, v, write); }
  }

  lemma PageGranted(m: Machine, s: MemorySet, v: nat, write: bool)
    requires s.Valid(m) && v < VPN_LIMIT
    ensures s.pageTable.root < |m.mem| && (PageOk(m.mem, s.pageTable.root, v, write) <==> Granted(s.areas, v, write))
  {
    hide MemorySet.Valid, PageOk, InArea;
    RootIn(m, s);
    if i :| 0 <= i < |s.areas| && InArea(s.areas[i], v) {
      PageAccess(m, s, i, v);
      OneArea(m, s, i, v);
    } else {
      NoAccess(m, s, v, write);
    }
  }

  lemma OneArea(m: Machine, s: MemorySet, i: nat, v: nat)
    requires s.Valid(m) && i < |s.areas| && InArea(s.areas[i], v)
    ensures forall j | 0 <= j < |s.areas| && InArea(s.areas[j], v) :: j == i
  {
    hide MemorySet.Core, InArea, AreaOk, AreaMapped, Covered;
  }

  /** `check_user_range` on any space, in terms of its areas and their permission bits alone: a range
      is accepted exactly if it is empty, or lies below 2^38 and every page of it is in an area for
      the user (bit 4) with the right needed (bit 2 to write, bit 1 to read). */
  method CheckRange(m: Machine, s: MemorySet, ptr: nat, len: nat, write: bool) returns (ok: bool)
    requires s.Valid(m) && ptr < U64_LIMIT && len < U64_LIMIT
    ensures ok <==>
            len == 0 ||
            (ptr + len <= 0x40_0000_0000 && forall a | ptr <= a < ptr + len :: Granted(s.areas, a / 4096, write))
  {
    hide MemorySet.Valid, Granted, RangeOk, Translate;
    RootIn(m, s);
    RangeGranted(m, s, ptr, len, write);
    ok := CheckUserRange(m.mem, s.pageTable.root, ptr, len, write);
  }

  lemma RangeGranted(m: Machine, s: MemorySet, ptr: nat, len: nat, write: bool)
    requires s.Valid(m)
    ensures s.pageTable.root < |m.mem|
    ensures RangeOk(m.mem, s.pageTable.root, ptr, len, write) <==>
            len == 0 ||
            (ptr + len <= USER_VA_LIMIT && forall a | ptr <= a < ptr + len :: Granted(s.areas, a / PAGE_SIZE, write))
  {
    hide MemorySet.Valid, Granted, PageOk, Translate;
    RootIn(m, s);
    if ptr + len <= USER_VA_LIMIT {
      forall a: nat | ptr <= a < ptr + len
        ensures PageOk(m.mem, s.pageTable.root, a / PAGE_SIZE, write) <==> Granted(s.areas, a / PAGE_SIZE, write)
      {
        PageGranted(m, s, a / PAGE_SIZE, write);
      }
    }
  }

  /** For a page of one area, granted means what the bits of that area say. */
  lemma GrantedBits(m: Machine, s: MemorySet, i: nat, v: nat)
    requires s.Valid(m) && i < |s.areas| && s.areas[i].start <= v < s.areas[i].end
    ensures Granted(s.areas, v, true) <==> Bits.Bit(s.areas[i].perm, 4) && Bits.Bit(s.areas[i].perm, 2)
    ensures Granted(s.areas, v, false) <==> Bits.Bit(s.areas[i].perm, 4) && Bits.Bit(s.areas[i].perm, 1)
  {
    hide MemorySet.Valid, Bits.Bit;
    assert InArea(s.areas[i], v);
    OneArea(m, s, i, v);
  }

  /** For a page in no area it is never granted. */
  lemma NotGranted(areas: seq<MapArea>, v: nat, write: bool)
    requires forall i | 0 <= i < |areas| :: !(areas[i].start <= v < areas[i].end)
    ensures !Granted(areas, v, write)
  {
  }

  /** Every range inside one area is accepted exactly as the permission bits of the area say. */
  lemma AreaAccess(m: Machine, s: MemorySet, i: nat, ptr: nat, len: nat)
    requires s.Valid(m) && i < |s.areas| && 0 < len
    requires s.areas[i].start * 4096 <= ptr && ptr + len <= s.areas[i].end * 4096 && ptr + len <= 0x40_0000_0000
    ensures s.pageTable.root < |m.mem|
    ensures var perm := s.areas[i].perm;
      && (RangeOk(m.mem, s.pageTable.root, ptr, len, true) <==> Bits.Bit(perm, 4) && Bits.Bit(perm, 2))
      && (RangeOk(m.mem, s.pageTable.root, ptr, len, false) <==> Bits.Bit(perm, 4) && Bits.Bit(perm, 1))
  {
    hide MemorySet.Valid, Granted, RangeOk, Translate, Bits.Bit;
    RangeGranted(m, s, ptr, len, true);
    RangeGranted(m, s, ptr, len, false);
    forall a: nat | ptr <= a < ptr + len
      ensures Granted(s.areas, a / PAGE_SIZE, true) <==> Bits.Bit(s.areas[i].perm, 4) && Bits.Bit(s.areas[i].perm, 2)
      ensures Granted(s.areas, a / PAGE_SIZE, false) <==> Bits.Bit(s.areas[i].perm, 4) && Bits.Bit(s.areas[i].perm, 1)
    {
      GrantedBits(m, s, i, a / PAGE_SIZE);
    }
    GrantedBits(m, s, i, ptr / PAGE_SIZE);
  }

  /** A full copy lets its process access exactly what the original lets its own. */
  lemma CopyAccess(m: Machine, child: MemorySet, parent: MemorySet, ptr: nat, len: nat, write: bool)
    requires child.Valid(m) && parent.Valid(m) && child.CopyOf(m, parent, |parent.areas|)
    ensures child.pageTable.root < |m.mem| && parent.pageTable.root < |m.mem|
    ensures RangeOk(m.mem, child.pageTable.root, ptr, len, write) ==
              RangeOk(m.mem, parent.pageTable.root, ptr, len, write)
  {
    hide MemorySet.Valid, Granted, RangeOk, Translate;
    RangeGranted(m, child, ptr, len, write);
    RangeGranted(m, parent, ptr, len, write);
    forall v: nat ensures Granted(child.areas, v, write) == Granted(parent.areas, v, write) {
      SameGrants(child.areas, parent.areas, v, write);
    }
  }

  lemma SameGrants(areas: seq<MapArea>, other: seq<MapArea>, v: nat, write: bool)
    requires |areas| == |other| && forall i | 0 <= i < |areas| :: SameExtent(areas[i], other[i])
    ensures Granted(areas, v, write) == Granted(other, v, write)
  {
    hide Bits.Bit;
    if i :| 0 <= i < |areas| && InArea(areas[i], v) && Bits.Bit(areas[i].perm, 4)
            && Bits.Bit(areas[i].perm, if write then 2 else 1) {
      assert SameExtent(areas[i], other[i]) && InArea(other[i], v);
    }
    if i :| 0 <= i < |other| && InArea(other[i], v) && Bits.Bit(other[i].perm, 4)
            && Bits.Bit(other[i].perm, if write then 2 else 1) {
      assert SameExtent(areas[i], other[i]) && InArea(areas[i], v);
    }
  }

  /** Copy a value out through a space. The whole value is stored or nothing is, only data frames
      of the space are written, and the space and its translations are as before. */
  method CopyOut(m: Machine, s: MemorySet, ptr: nat, value: seq<byte>) returns (r: CopyResult<()>)
    requires s.Valid(m) && ptr < U64_LIMIT && |value| < U64_LIMIT
    modifies m`mem
    ensures s.Valid(m) && |m.mem| == |old(m.mem)| && m.Valid()
    ensures r.InvalidArgument? <==> value == []
    ensures r.InvalidAddress? <==> value != [] && !RangeOk(old(m.mem), s.pageTable.root, ptr, |value|, true)
    ensures m.mem == AfterWrite(old(m.mem), s.pageTable.root, ptr, value) && (!r.Ok? ==> m.mem == old(m.mem))
    ensures forall p | 0 <= p < |m.mem| && p !in s.owner :: m.mem[p] == old(m.mem)[p]
    ensures forall v: nat :: Translate(m.mem, s.pageTable.root, v) == Translate(old(m.mem), s.pageTable.root, v)
  {
    hide MemorySet.Valid, PhysRange, RangeOk, Tables, Machine.Valid, Translate;
    s.FramesIn(m);
    ValidIsTree(m, s);
    ghost var root := s.pageTable.root;
    ghost var ok := RangeOk(m.mem, root, ptr, |value|, true);
    if ok { UserRangeIsData(m, s, ptr, |value|, true); }
    r := CopyToUser(m, s.pageTable.root, ptr, value);
    forall p | 0 <= p < |m.mem| && p !in s.owner ensures m.mem[p] == old(m.mem)[p] {
      if r.Ok? { WriteAllFrame(old(m.mem), PhysRange(old(m.mem), root, ptr, |value|), value, p); }
    }
    s.StillValid(m);
    SameTranslation(old(m.mem), m.mem, s.pageTable.tree);
  }

  /** A string and its terminator, copied out through a space, are read back as that string. */
  method StringOutAndIn(m: Machine, s: MemorySet, ptr: nat, str: seq<byte>, maxLen: nat) returns (r: Option<seq<byte>>)
    requires s.Valid(m) && 0 < ptr && |str| < maxLen && ptr + maxLen <= 0x40_0000_0000
    requires forall i | 0 <= i < |str| :: str[i] != 0
    requires RangeOk(m.mem, s.pageTable.root, ptr, |str| + 1, true)
             && RangeOk(m.mem, s.pageTable.root, ptr, |str| + 1, false)
    modifies m`mem
    ensures s.Valid(m) && r == Some(str)
  {
    hide MemorySet.Valid, PhysRange, RangeOk, Translate, NoDuplicates, WriteAll, ReadAll, IsUserString, Backed;
    ghost var mem, root := m.mem, s.pageTable.root;
    RootIn(m, s);
    UserRangeIsData(m, s, ptr, |str| + 1, true);
    RangeDistinct(m, s, ptr, |str| + 1, true);
    var _ := CopyOut(m, s, ptr, str + [0]);
    SpaceIsBacked(m, s);
    SameRange(mem, m.mem, root, ptr, |str| + 1);
    ReadBack(mem, PhysRange(mem, root, ptr, |str| + 1), str + [0]);
    BytesAreString(m.mem, root, ptr, maxLen, str);
    r := TryTranslatedStr(m.mem, s.pageTable.root, ptr, maxLen);
    if r.Some? { OneString(m.mem, root, ptr, maxLen, r.value, str); }
  }

  /** Memory after one copy through a table: a refused copy changes nothing. */
  ghost function AfterWrite(mem: seq<Frame>, root: nat, ptr: nat, value: seq<byte>): (mem': seq<Frame>)
    requires root < |mem|
    ensures |mem'| == |mem|
  {
    var addrs := PhysRange(mem, root, ptr, |value|);
    if value != [] && RangeOk(mem, root, ptr, |value|, true) && AddrsIn(mem, addrs) then WriteAll(mem, addrs, value)
    else mem
  }

  /** Copy a value in through a space. */
  method CopyIn(m: Machine, s: MemorySet, ptr: nat, size: nat) returns (r: CopyResult<seq<byte>>)
    requires s.Valid(m) && ptr < U64_LIMIT && size < U64_LIMIT
    ensures r.InvalidArgument? <==> size == 0
    ensures r.InvalidAddress? <==> size != 0 && !RangeOk(m.mem, s.pageTable.root, ptr, size, false)
    ensures r.Ok? ==> AddrsIn(m.mem, PhysRange(m.mem, s.pageTable.root, ptr, size))
                      && r.value == ReadAll(m.mem, PhysRange(m.mem, s.pageTable.root, ptr, size))
  {
    hide MemorySet.Valid, PhysRange, RangeOk, Tables, Machine.Valid;
    RootIn(m, s);
    ghost var ok := RangeOk(m.mem, s.pageTable.root, ptr, size, false);
    if ok { UserRangeIsData(m, s, ptr, size, false); }
    r := CopyFromUser(m.mem, s.pageTable.root, ptr, size);
  }

  /** What is copied out of the kernel through a space is copied back in, over any number of
      pages, whenever the range may be written and read. */
  method CopyOutAndIn(m: Machine, s: MemorySet, ptr: nat, value: seq<byte>) returns (r: CopyResult<seq<byte>>)
    requires s.Valid(m) && ptr < U64_LIMIT && |value| < U64_LIMIT && value != []
    requires RangeOk(m.mem, s.pageTable.root, ptr, |value|, true)
             && RangeOk(m.mem, s.pageTable.root, ptr, |value|, false)
    modifies m`mem
    ensures s.Valid(m) && r == Ok(value)
  {
    hide MemorySet.Valid, PhysRange, RangeOk, Tables, Machine.Valid, Translate, NoDuplicates, WriteAll, ReadAll;
    ghost var root := s.pageTable.root;
    ValidIsTree(m, s);
    ghost var addrs := PhysRange(m.mem, root, ptr, |value|);
    UserRangeIsData(m, s, ptr, |value|, true);
    RangeDistinct(m, s, ptr, |value|, true);
    CopyRoundTrip(m.mem, s.pageTable.tree, ptr, value, addrs);
    var _ := CopyOut(m, s, ptr, value);
    r := CopyIn(m, s, ptr, |value|);
  }

  // ---------------------------------------------------------------------------
  // Isolation
  // ---------------------------------------------------------------------------

  /** A copy to user memory by the first or the second of two processes. */
  datatype UserWrite = UserWrite(first: bool, ptr: nat, value: seq<byte>)

  /** Memory after only the writes of one process. */
  ghost function Alone(mem: seq<Frame>, root: nat, writes: seq<UserWrite>, first: bool): (mem': seq<Frame>)
    requires root < |mem|
    ensures |mem'| == |mem|
  {
    if writes == [] then mem
    else
      var before := Alone(mem, root, writes[..|writes| - 1], first);
      var w := writes[|writes| - 1];
      if w.first == first then AfterWrite(before, root, w.ptr, w.value) else before
  }

  /** A process sees its own writes only. */
  ghost predicate SeesOnly(mem: seq<Frame>, alone: seq<Frame>, owned: set<nat>) {
    |mem| == |alone| && forall p | p in owned :: FrameKept(alone, mem, p)
  }

  /** The same write, made in both memories by the process that sees them alike, leaves them
      alike. */
  lemma OwnWrite(m: Machine, s: MemorySet, alone: seq<Frame>, ptr: nat, value: seq<byte>)
    requires s.Valid(m) && SeesOnly(m.mem, alone, s.Owned())
    ensures SeesOnly(AfterWrite(m.mem, s.pageTable.root, ptr, value), AfterWrite(alone, s.pageTable.root, ptr, value),
                     s.Owned())
  {
    hide MemorySet.Valid, MemorySet.Owned, PhysRange, RangeOk, Tables, Machine.Valid, Translate, WriteAll;
    var root := s.pageTable.root;
    ValidIsTree(m, s);
    s.FramesIn(m);
    SameTranslation(m.mem, alone, s.pageTable.tree);
    SameRange(m.mem, alone, root, ptr, |value|);
    var addrs := PhysRange(m.mem, root, ptr, |value|);
    if AddrsIn(m.mem, addrs) {
      forall p | p in s.Owned() ensures WriteAll(m.mem, addrs, value)[p] == WriteAll(alone, addrs, value)[p] {
        WriteAllAgree(m.mem, alone, addrs, value, p);
      }
    }
  }

  /** Any interleaving of writes by two processes that share no frame: both spaces stay valid,
      and each sees exactly what it would have seen with the other's writes left out. */
  method Interleave(m: Machine, a: MemorySet, b: MemorySet, writes: seq<UserWrite>)
    requires a.Valid(m) && b.Valid(m) && a.Owned() !! b.Owned()
    requires forall i | 0 <= i < |writes| :: writes[i].ptr < U64_LIMIT && |writes[i].value| < U64_LIMIT
    modifies m`mem
    ensures a.Valid(m) && b.Valid(m) && |m.mem| == |old(m.mem)|
    ensures SeesOnly(m.mem, Alone(old(m.mem), a.pageTable.root, writes, true), a.Owned())
    ensures SeesOnly(m.mem, Alone(old(m.mem), b.pageTable.root, writes, false), b.Owned())
    ensures forall p | 0 <= p < |m.mem| && p !in a.owner && p !in b.owner :: m.mem[p] == old(m.mem)[p]
  {
    hide MemorySet.Valid, MemorySet.Owned, AfterWrite, Machine.Valid, Machine.Live, Tables;
    a.FramesIn(m);
    b.FramesIn(m);
    RootIn(m, a);
    RootIn(m, b);
    for i := 0 to |writes|
      invariant a.Valid(m) && b.Valid(m) && |m.mem| == |old(m.mem)|
      invariant SeesOnly(m.mem, Alone(old(m.mem), a.pageTable.root, writes[..i], true), a.Owned())
      invariant SeesOnly(m.mem, Alone(old(m.mem), b.pageTable.root, writes[..i], false), b.Owned())
      invariant forall p | 0 <= p < |m.mem| && p !in a.owner && p !in b.owner :: m.mem[p] == old(m.mem)[p]
    {
      assert writes[..i + 1][..i] == writes[..i];
      var w := writes[i];
      ghost var aAlone := Alone(old(m.mem), a.pageTable.root, writes[..i], true);
      ghost var bAlone := Alone(old(m.mem), b.pageTable.root, writes[..i], false);
      if w.first {
        WriteBeside(m, a, b, w.ptr, w.value, aAlone, bAlone);
      } else {
        WriteBeside(m, b, a, w.ptr, w.value, bAlone, aAlone);
      }
    }
    assert writes[..|writes|] == writes;
  }

  /** One write by `a`, with `b` looking on. */
  method WriteBeside(m: Machine, a: MemorySet, b: MemorySet, ptr: nat, value: seq<byte>, ghost aAlone: seq<Frame>,
                     ghost bAlone: seq<Frame>)
    requires a.Valid(m) && b.Valid(m) && a.Owned() !! b.Owned()
    requires ptr < U64_LIMIT && |value| < U64_LIMIT
    requires SeesOnly(m.mem, aAlone, a.Owned()) && SeesOnly(m.mem, bAlone, b.Owned())
    modifies m`mem
    ensures a.Valid(m) && b.Valid(m) && |m.mem| == |old(m.mem)|
    ensures SeesOnly(m.mem, AfterWrite(aAlone, a.pageTable.root, ptr, value), a.Owned())
            && SeesOnly(m.mem, bAlone, b.Owned())
    ensures forall p | 0 <= p < |m.mem| && p !in a.owner :: m.mem[p] == old(m.mem)[p]
  {
    hide MemorySet.Valid, MemorySet.Owned, AfterWrite, Machine.Valid, Machine.Live, Tables, Translate, RangeOk;
    a.FramesIn(m);
    b.FramesIn(m);
    OwnWrite(m, a, aAlone, ptr, value);
    var _ := CopyOut(m, a, ptr, value);
    b.StillValid(m);
  }

  /** A fork and then any writes by parent and child. At the fork the child's pages hold the
      parent's bytes and the parent's frames are untouched; from there on each sees only its own
      writes. */
  method ForkAndWrite(m: Machine, parent: MemorySet, trampoline: nat, writes: seq<UserWrite>)
    returns (ok: bool, child: MemorySet?, ghost forked: seq<Frame>)
    requires parent.Valid(m) && trampoline < PPN_LIMIT
    requires forall i | 0 <= i < |writes| :: writes[i].ptr < U64_LIMIT && |writes[i].value| < U64_LIMIT
    modifies m
    ensures old(m.Free()) >= 3 + 3 * PageCount(parent.areas) ==> ok
    ensures ok ==> child != null && fresh(child) && child.Valid(m) && parent.Valid(m) && child.Owned() !! parent.Owned()
    ensures ok ==>
              child.data.Keys == parent.data.Keys
              && forall v | v in child.data :: SameBytes(forked, child.data[v], parent.data[v])
    ensures ok ==> forall p | p in parent.Owned() :: FrameKept(old(m.mem), forked, p)
    ensures ok ==> parent.pageTable.root < |forked| && child.pageTable.root < |forked|
    ensures ok ==> SeesOnly(m.mem, Alone(forked, parent.pageTable.root, writes, true), parent.Owned())
    ensures ok ==> SeesOnly(m.mem, Alone(forked, child.pageTable.root, writes, false), child.Owned())
  {
    hide MemorySet.Valid, Alone, SeesOnly, Machine.Valid, Machine.Live, Machine.Free, Tables;
    parent.FramesIn(m);
    forked := m.mem;
    ok, child := MemorySet.FromExistedUser(m, parent, trampoline);
    if !ok { return; }
    forked := m.mem;
    ValidIsTree(m, parent);
    ValidIsTree(m, child);
    Interleave(m, parent, child, writes);
  }

  /** A fork whose child is dropped again: the frames in use are exactly those of before. */
  method ForkAndDrop(m: Machine, parent: MemorySet, trampoline: nat) returns (ok: bool)
    requires parent.Valid(m) && trampoline < PPN_LIMIT
    modifies m
    ensures old(m.Free()) >= 3 + 3 * PageCount(parent.areas) ==> ok
    ensures ok ==> parent.Valid(m) && m.live == old(m.live) && m.Free() == old(m.Free())
    ensures ok ==> forall p: nat | old(m.Live(p)) :: FrameKept(old(m.mem), m.mem, p)
  {
    hide MemorySet.Valid, Tables, Machine.Valid, MemorySet.Owned;
    parent.FramesIn(m);
    assert old(|m.live| + m.Free() == m.end - m.start) by { m.Conserved(); }
    var child;
    ok, child := MemorySet.FromExistedUser(m, parent, trampoline);
    if !ok { return; }
    child.FramesIn(m);
    assert m.live == old(m.live) + child.Owned();
    child.Drop(m);
    assert m.live == old(m.live);
    m.Conserved();
    parent.StillValid(m);
  }

  lemma RootIn(m: Machine, s: MemorySet)
    requires s.Valid(m)
    ensures s.pageTable.root < |m.mem|
  {
  }

  lemma ValidIsTree(m: Machine, s: MemorySet)
    requires s.Valid(m)
    ensures TreeOk(m.mem, s.pageTable.tree) && s.pageTable.root == s.pageTable.tree.root && s.pageTable.root < |m.mem|
  {
  }

  /** Number of pages of a list of areas. */
  function PageCount(areas: seq<MapArea>): nat {
    if areas == [] then 0 else PageCount(areas[..|areas| - 1]) + AreaSize(areas[|areas| - 1])
  }

  lemma {:induction false} PageCountPrefix(areas: seq<MapArea>, n: nat)
    requires n <= |areas|
    ensures PageCount(areas[..n]) <= PageCount(areas)
  {
    if n < |areas| {
      PageCountPrefix(areas[..|areas| - 1], n);
      assert areas[..|areas| - 1][..n] == areas[..n];
    } else {
      assert areas[..n] == areas;
    }
  }

  function AreaSize(a: MapArea): nat {
    if a.start <= a.end then a.end - a.start else 0
  }

  ghost predicate SameExtent(a: MapArea, b: MapArea) {
    a.start == b.start && a.end == b.end && a.perm == b.perm
  }

  /** All frames of `s` were free before, and every frame in use before is as it was. */
  twostate predicate Untouched(m: Machine, new s: MemorySet)
    reads m, s, s.pageTable
  {
    && |m.mem| == |old(m.mem)| && m.start == old(m.start) && m.end == old(m.end)
    && (forall p | p in s.Owned() :: !old(m.Live(p)))
    && (forall p: nat | old(m.Live(p)) :: m.Live(p) && p < |m.mem| && m.mem[p] == old(m.mem)[p])
    && (forall p: nat | m.Live(p) :: old(m.Live(p)) || p in s.Owned())
  }

  /** Entries of an area's pages. */
  ghost function Entries(frames: map<nat, nat>, perm: nat): map<nat, nat> {
    map v | v in frames :: PteNew(frames[v], WithV(perm))
  }

  lemma AddEntry(frames: map<nat, nat>, perm: nat, v: nat, p: nat, data: map<nat, nat>, mapping: map<nat, nat>)
    ensures (data + frames)[v := p] == data + frames[v := p]
    ensures (mapping + Entries(frames, perm))[v := PteNew(p, WithV(perm))] == mapping + Entries(frames[v := p], perm)
  {
    assert Entries(frames[v := p], perm) == Entries(frames, perm)[v := PteNew(p, WithV(perm))];
  }

  lemma NoEntries(perm: nat)
    ensures Entries(map[], perm) == map[]
  {
  }

  lemma EntriesKeys(frames: map<nat, nat>, perm: nat)
    ensures Entries(frames, perm).Keys == frames.Keys
  {
  }

  lemma InAreaMapped(a: MapArea, data: map<nat, nat>, mapping: map<nat, nat>, v: nat)
    requires AreaOk(a) && AreaMapped(a, data, mapping) && InArea(a, v)
    ensures v in data && v in mapping && v in a.dataFrames && data[v] == a.dataFrames[v]
  {
  }

  /** Adding copied pages to a partial copy. */
  lemma CopyGrows(mem0: seq<Frame>, mem1: seq<Frame>, mem2: seq<Frame>, data0: map<nat, nat>, data1: map<nat, nat>,
                  source: map<nat, nat>, frames: map<nat, nat>, start: nat, end: nat)
    requires data1 == data0 + frames && forall v: nat :: v in frames <==> start <= v < end
    requires forall v | v in data0 :: v in source && SameBytes(mem0, data0[v], source[v]) && v !in frames
    requires forall v | v in data0 :: FrameKept(mem0, mem1, data0[v])
    requires forall v | v in source :: FrameKept(mem0, mem1, source[v]) && FrameKept(mem1, mem2, source[v])
    requires forall v: nat | start <= v < end :: v in source
    requires KeptOutside(mem1, mem2, data1, start, end) && Copied(mem2, data1, source, start, end)
    ensures forall v | v in data1 :: v in source && SameBytes(mem2, data1[v], source[v])
  {
  }

  lemma NewAreaMapped(a: MapArea, data: map<nat, nat>, mapping: map<nat, nat>)
    ensures AreaMapped(a, data + a.dataFrames, mapping + Entries(a.dataFrames, a.perm))
  {
  }

  lemma OldAreaMapped(a: MapArea, data: map<nat, nat>, mapping: map<nat, nat>, more: map<nat, nat>,
                      entries: map<nat, nat>)
    requires AreaMapped(a, data, mapping) && more.Keys == entries.Keys
    requires forall v: nat | InArea(a, v) :: v !in more
    ensures AreaMapped(a, data + more, mapping + entries)
  {
  }

  /** Every page of an area is framed and mapped. */
  lemma AreasMapped(areas: seq<MapArea>, data: map<nat, nat>, mapping: map<nat, nat>)
    requires forall i | 0 <= i < |areas| :: AreaOk(areas[i]) && AreaMapped(areas[i], data, mapping)
    ensures forall i, v: nat | 0 <= i < |areas| && InArea(areas[i], v) :: v in mapping && v in data
  {
    forall i, v: nat | 0 <= i < |areas| && InArea(areas[i], v) ensures v in mapping && v in data {
      InAreaMapped(areas[i], data, mapping, v);
    }
  }

  /** A new area on unmapped pages fits beside the others. */
  lemma AddArea(areas: seq<MapArea>, a: MapArea, data: map<nat, nat>, mapping: map<nat, nat>)
    requires forall i | 0 <= i < |areas| :: AreaOk(areas[i]) && AreaMapped(areas[i], data, mapping)
    requires forall i, j, v: nat | 0 <= i < j < |areas| && InArea(areas[i], v) :: !InArea(areas[j], v)
    requires forall i, v: nat | 0 <= i < |areas| && InArea(areas[i], v) :: v in mapping && v in data
    requires forall v | v in data :: Covered(areas, v)
    requires a.start <= a.end <= TRAMPOLINE_VPN && a.perm < 256
    requires forall v: nat :: v in a.dataFrames <==> a.start <= v < a.end
    requires forall v: nat | a.start <= v < a.end :: v !in mapping
    ensures var all, data', mapping' := areas + [a], data + a.dataFrames, mapping + Entries(a.dataFrames, a.perm);
      && (forall i | 0 <= i < |all| :: AreaOk(all[i]) && AreaMapped(all[i], data', mapping'))
      && (forall i, j, v: nat | 0 <= i < j < |all| && InArea(all[i], v) :: !InArea(all[j], v))
      && (forall v | v in data' :: Covered(all, v))
  {
    hide AreaMapped, PteNew, WithV, Entries, Covered;
    var all, data', mapping' := areas + [a], data + a.dataFrames, mapping + Entries(a.dataFrames, a.perm);
    EntriesKeys(a.dataFrames, a.perm);
    NewAreaMapped(a, data, mapping);
    forall i | 0 <= i < |areas| ensures AreaMapped(all[i], data', mapping') {
      assert all[i] == areas[i];
      forall v: nat | InArea(areas[i], v) ensures v !in a.dataFrames { assert v in mapping; }
      OldAreaMapped(areas[i], data, mapping, a.dataFrames, Entries(a.dataFrames, a.perm));
    }
    NewCovered(areas, a, data, data');
  }

  lemma NewCovered(areas: seq<MapArea>, a: MapArea, data: map<nat, nat>, data': map<nat, nat>)
    requires forall v | v in data :: Covered(areas, v)
    requires data' == data + a.dataFrames && forall v | v in a.dataFrames :: InArea(a, v)
    ensures forall v | v in data' :: Covered(areas + [a], v)
  {
    var all := areas + [a];
    forall v | v in data' ensures Covered(all, v) {
      if v in a.dataFrames {
        assert InArea(all[|areas|], v);
      } else {
        var i :| 0 <= i < |areas| && InArea(areas[i], v);
        assert InArea(all[i], v);
      }
    }
  }

  lemma AddOther(data: map<nat, nat>, owner: map<nat, nat>, tables: set<nat>, tables': set<nat>,
                 mapping: map<nat, nat>, bits: nat)
    requires Pages(data, owner, tables, mapping) && TRAMPOLINE_VPN !in mapping && !IsUser(bits) && owner.Keys !! tables'
    ensures Pages(data, owner, tables', mapping[TRAMPOLINE_VPN := bits])
  {
    hide PtePpn, IsUser;
  }

  lemma OtherAreaMapped(a: MapArea, data: map<nat, nat>, mapping: map<nat, nat>, bits: nat)
    requires AreaOk(a) && AreaMapped(a, data, mapping)
    ensures AreaMapped(a, data, mapping[TRAMPOLINE_VPN := bits])
  {
  }
}
