/** Checked access to user memory (os/src/mm/page_table.rs, os/src/mm/user_access.rs). An
    address space is named by the frame of its root table. */
module UserAccess {
  import opened Bytes
  import opened Numbers
  import opened Sv39
  import opened Frames
  import opened Options
  import opened PageTables

  /** A user page with the right the access needs. */
  predicate PageOk(mem: seq<Frame>, root: nat, vpn: nat, write: bool)
    requires root < |mem|
  {
    var r := Translate(mem, root, vpn);
    r.Some? && IsUser(r.value) && (if write then IsWritable(r.value) else IsReadable(r.value))
  }

  /** Below the user limit, every page present with the right needed. */
  ghost predicate RangeOk(mem: seq<Frame>, root: nat, ptr: nat, len: nat, write: bool)
    requires root < |mem|
  {
    len == 0 ||
    (ptr + len <= USER_VA_LIMIT && forall a | ptr <= a < ptr + len :: PageOk(mem, root, a / PAGE_SIZE, write))
  }

  /** Over every table built by map and unmap, an accepted page is a valid mapping, although
      the check does not look at the V bit: entries that are not valid are empty. */
  lemma PageOkIsMapped(mem: seq<Frame>, t: Tree, mapping: map<nat, nat>, vpn: nat, write: bool)
    requires TreeOk(mem, t) && Represents(mem, t, mapping) && vpn < VPN_LIMIT
    ensures PageOk(mem, t.root, vpn, write) <==>
            && vpn in mapping && IsUser(mapping[vpn])
            && (if write then IsWritable(mapping[vpn]) else IsReadable(mapping[vpn]))
  {
    TranslateMapping(mem, t, mapping, vpn);
    assert !IsUser(0);
    hide Translate, IsUser, IsWritable, IsReadable, TreeOk, Represents;
  }

  /** Page offset zero and page number of an address. */
  lemma PageBounds(a: nat)
    ensures a / PAGE_SIZE * PAGE_SIZE <= a < a / PAGE_SIZE * PAGE_SIZE + PAGE_SIZE
    ensures a % PAGE_SIZE == a - a / PAGE_SIZE * PAGE_SIZE
  {
  }

  lemma SamePage(a: nat, b: nat)
    requires a <= b < a / PAGE_SIZE * PAGE_SIZE + PAGE_SIZE
    ensures b / PAGE_SIZE == a / PAGE_SIZE && b % PAGE_SIZE == a % PAGE_SIZE + (b - a)
  {
  }

  /** `check_user_range` accepts exactly the ranges that may be accessed. */
  method CheckUserRange(mem: seq<Frame>, root: nat, ptr: nat, len: nat, write: bool) returns (ok: bool)
    requires root < |mem| && ptr < U64_LIMIT && len < U64_LIMIT
    ensures ok <==> RangeOk(mem, root, ptr, len, write)
  {
    hide PageOk;
    if len == 0 { return true; }
    if ptr + len >= U64_LIMIT { return false; }
    var end := ptr + len;
    if ptr >= USER_VA_LIMIT || end > USER_VA_LIMIT { return false; }
    var cur := ptr;
    while cur < end
      invariant ptr <= cur <= end
      invariant forall a | ptr <= a < cur :: PageOk(mem, root, a / PAGE_SIZE, write)
    {
      PageBounds(cur);
      ok := CheckPage(mem, root, VaOf(cur) / PAGE_SIZE, write);
      if !ok { return; }
      var pageEnd := cur / PAGE_SIZE * PAGE_SIZE + PAGE_SIZE;
      var next := if pageEnd < end then pageEnd else end;
      forall a | cur <= a < next ensures PageOk(mem, root, a / PAGE_SIZE, write) { SamePage(cur, a); }
      cur := next;
    }
    ok := true;
  }

  method CheckPage(mem: seq<Frame>, root: nat, vpn: nat, write: bool) returns (ok: bool)
    requires root < |mem|
    ensures ok <==> PageOk(mem, root, vpn, write)
  {
    var pte := Translate(mem, root, vpn);
    if pte.None? { return false; }
    if !IsUser(pte.value) { return false; }
    if write {
      if !IsWritable(pte.value) { return false; }
    } else if !IsReadable(pte.value) {
      return false;
    }
    ok := true;
  }

  // ---------------------------------------------------------------------------
  // Page segments
  // ---------------------------------------------------------------------------

  /** Where the byte at a user address lives: (frame, offset). */
  function PhysOf(mem: seq<Frame>, root: nat, a: nat): (nat, nat)
    requires root < |mem|
  {
    match Translate(mem, root, a / PAGE_SIZE)
    case Some(bits) => (PtePpn(bits), a % PAGE_SIZE)
    case None => (0, 0)
  }

  function PhysRange(mem: seq<Frame>, root: nat, ptr: nat, len: nat): (s: seq<(nat, nat)>)
    requires root < |mem|
    ensures |s| == len
  {
    seq(len, i requires 0 <= i < len => PhysOf(mem, root, ptr + i))
  }

  datatype Segment = Segment(ppn: nat, lo: nat, hi: nat)

  function SegmentBytes(s: Segment): (r: seq<(nat, nat)>)
    requires s.lo <= s.hi
    ensures |r| == s.hi - s.lo
  {
    seq(s.hi - s.lo, i requires 0 <= i => (s.ppn, s.lo + i))
  }

  predicate SegmentsOk(v: seq<Segment>) {
    forall i | 0 <= i < |v| :: v[i].lo < v[i].hi <= PAGE_SIZE
  }

  /** The bytes of all segments, in order. */
  function Flatten(v: seq<Segment>): seq<(nat, nat)>
    requires SegmentsOk(v)
  {
    if v == [] then [] else Flatten(v[..|v| - 1]) + SegmentBytes(v[|v| - 1])
  }

  /** Split a checked range at page boundaries. The segments are non-empty and stand for
      exactly the bytes of the range, in order. */
  method TryTranslatedByteBuffer(mem: seq<Frame>, root: nat, ptr: nat, len: nat, write: bool)
    returns (r: Option<seq<Segment>>)
    requires root < |mem| && ptr < U64_LIMIT && len < U64_LIMIT
    ensures r.Some? <==> RangeOk(mem, root, ptr, len, write)
    ensures r.Some? ==> SegmentsOk(r.value) && Flatten(r.value) == PhysRange(mem, root, ptr, len)
  {
    hide PageOk, Translate, PhysOf;
    var ok := CheckUserRange(mem, root, ptr, len, write);
    if !ok { return None; }
    var start, end := ptr, ptr + len;
    var v: seq<Segment> := [];
    ghost var done := 0;
    while start < end
      invariant SegmentsOk(v) && done <= len
      invariant start < end ==> start == ptr + done
      invariant start >= end ==> done == len
      invariant Flatten(v) == PhysRange(mem, root, ptr, done)
      decreases len - done
    {
      assert PageOk(mem, root, start / PAGE_SIZE, write);
      var seg, endVa := CutPage(mem, root, start, end, write);
      AppendSegment(mem, root, ptr, done, v, seg);
      v := v + [seg];
      done := done + (endVa - start);
      start := UsizeOf(endVa);
    }
    r := Some(v);
  }

  /** The part of [start, end) that lies in the page of `start`, and where it ends. */
  method CutPage(mem: seq<Frame>, root: nat, start: nat, end: nat, write: bool) returns (seg: Segment, endVa: nat)
    requires root < |mem| && start < end <= USER_VA_LIMIT && PageOk(mem, root, start / PAGE_SIZE, write)
    ensures start < endVa <= end && seg.lo == start % PAGE_SIZE < seg.hi <= PAGE_SIZE
    ensures seg.hi - seg.lo == endVa - start
    ensures forall a | 0 <= a && a / PAGE_SIZE == start / PAGE_SIZE :: PhysOf(mem, root, a) == (seg.ppn, a % PAGE_SIZE)
  {
    hide PageOk, Translate, PhysOf;
    var startVa := VaOf(start);
    var vpn := startVa / PAGE_SIZE;
    var ppn := PpnOf(mem, root, vpn, write);
    vpn := vpn + 1;
    endVa := if vpn * PAGE_SIZE < VaOf(end) then vpn * PAGE_SIZE else VaOf(end);
    PageBounds(start);
    SegmentOfPage(start, endVa);
    if endVa % PAGE_SIZE == 0 {
      seg := Segment(ppn, startVa % PAGE_SIZE, PAGE_SIZE);
    } else {
      seg := Segment(ppn, startVa % PAGE_SIZE, endVa % PAGE_SIZE);
    }
  }

  lemma SegmentOfPage(start: nat, endVa: nat)
    requires start < endVa <= start / PAGE_SIZE * PAGE_SIZE + PAGE_SIZE
    ensures endVa % PAGE_SIZE == 0 ==> PAGE_SIZE - start % PAGE_SIZE == endVa - start
    ensures endVa % PAGE_SIZE != 0 ==> endVa % PAGE_SIZE - start % PAGE_SIZE == endVa - start
  {
  }

  method PpnOf(mem: seq<Frame>, root: nat, vpn: nat, write: bool) returns (ppn: nat)
    requires root < |mem| && PageOk(mem, root, vpn, write)
    ensures forall a | 0 <= a && a / PAGE_SIZE == vpn :: PhysOf(mem, root, a) == (ppn, a % PAGE_SIZE)
  {
    ppn := PtePpn(Translate(mem, root, vpn).value);
  }

  lemma AppendSegment(mem: seq<Frame>, root: nat, ptr: nat, done: nat, v: seq<Segment>, s: Segment)
    requires root < |mem| && SegmentsOk(v) && s.lo < s.hi <= PAGE_SIZE && s.lo == (ptr + done) % PAGE_SIZE
    requires Flatten(v) == PhysRange(mem, root, ptr, done)
    requires forall a | 0 <= a && a / PAGE_SIZE == (ptr + done) / PAGE_SIZE ::
               PhysOf(mem, root, a) == (s.ppn, a % PAGE_SIZE)
    ensures SegmentsOk(v + [s])
    ensures Flatten(v + [s]) == PhysRange(mem, root, ptr, done + (s.hi - s.lo))
  {
    hide PhysOf;
    var n := s.hi - s.lo;
    assert (v + [s])[..|v|] == v;
    PageBounds(ptr + done);
    forall i | 0 <= i < n ensures SegmentBytes(s)[i] == PhysOf(mem, root, ptr + done + i) {
      SamePage(ptr + done, ptr + done + i);
    }
    assert PhysRange(mem, root, ptr, done) + SegmentBytes(s) == PhysRange(mem, root, ptr, done + n);
  }

  // ---------------------------------------------------------------------------
  // Copies
  // ---------------------------------------------------------------------------

  datatype CopyResult<T> = Ok(value: T) | InvalidArgument | InvalidAddress

  ghost predicate AddrsIn(mem: seq<Frame>, addrs: seq<(nat, nat)>) {
    forall i | 0 <= i < |addrs| :: addrs[i].0 < |mem| && addrs[i].1 < PAGE_SIZE
  }

  function ReadAll(mem: seq<Frame>, addrs: seq<(nat, nat)>): (r: seq<byte>)
    requires AddrsIn(mem, addrs)
    ensures |r| == |addrs|
  {
    seq(|addrs|, i requires 0 <= i < |addrs| => mem[addrs[i].0][addrs[i].1])
  }

  /** Store bytes one after the other. */
  function WriteAll(mem: seq<Frame>, addrs: seq<(nat, nat)>, bytes: seq<byte>): (mem': seq<Frame>)
    requires AddrsIn(mem, addrs) && |bytes| == |addrs|
    ensures |mem'| == |mem|
  {
    if addrs == [] then mem
    else
      var n := |addrs| - 1;
      var before := WriteAll(mem, addrs[..n], bytes[..n]);
      var (p, o) := addrs[n];
      before[p := before[p][o := bytes[n]]]
  }

  ghost predicate NoDuplicates(addrs: seq<(nat, nat)>) {
    forall i, j | 0 <= i < j < |addrs| :: addrs[i] != addrs[j]
  }

  /** Bytes stored at distinct places are all read back, and nothing else changes. */
  lemma {:induction false} WriteAllByte(mem: seq<Frame>, addrs: seq<(nat, nat)>, bytes: seq<byte>, p: nat, o: nat)
    requires AddrsIn(mem, addrs) && |bytes| == |addrs| && p < |mem| && o < PAGE_SIZE
    ensures (p, o) !in addrs ==> WriteAll(mem, addrs, bytes)[p][o] == mem[p][o]
    ensures forall i | 0 <= i < |addrs| && NoDuplicates(addrs) && addrs[i] == (p, o) ::
              WriteAll(mem, addrs, bytes)[p][o] == bytes[i]
  {
    if addrs != [] {
      var n := |addrs| - 1;
      WriteAllByte(mem, addrs[..n], bytes[..n], p, o);
      if NoDuplicates(addrs) {
        assert NoDuplicates(addrs[..n]);
        assert forall i | 0 <= i < n :: addrs[..n][i] == addrs[i] && bytes[..n][i] == bytes[i];
      }
      assert forall x | x in addrs[..n] :: x in addrs;
    }
  }

  lemma ReadBack(mem: seq<Frame>, addrs: seq<(nat, nat)>, bytes: seq<byte>)
    requires AddrsIn(mem, addrs) && |bytes| == |addrs| && NoDuplicates(addrs)
    ensures ReadAll(WriteAll(mem, addrs, bytes), addrs) == bytes
  {
    forall i | 0 <= i < |addrs| ensures WriteAll(mem, addrs, bytes)[addrs[i].0][addrs[i].1] == bytes[i] {
      WriteAllByte(mem, addrs, bytes, addrs[i].0, addrs[i].1);
    }
  }

  /** A frame none of whose bytes is stored to keeps its contents. */
  lemma {:induction false} WriteAllFrame(mem: seq<Frame>, addrs: seq<(nat, nat)>, bytes: seq<byte>, p: nat)
    requires AddrsIn(mem, addrs) && |bytes| == |addrs| && p < |mem|
    requires forall i | 0 <= i < |addrs| :: addrs[i].0 != p
    ensures WriteAll(mem, addrs, bytes)[p] == mem[p]
  {
    if addrs != [] {
      var n := |addrs| - 1;
      WriteAllFrame(mem, addrs[..n], bytes[..n], p);
    }
  }

  /** Storing a segment is storing its bytes. */
  lemma {:induction false} WriteSegment(mem: seq<Frame>, addrs: seq<(nat, nat)>, bytes: seq<byte>, s: Segment,
                                        chunk: seq<byte>)
    requires AddrsIn(mem, addrs) && |bytes| == |addrs|
    requires s.lo <= s.hi <= PAGE_SIZE && s.ppn < |mem| && |chunk| == s.hi - s.lo
    ensures AddrsIn(mem, addrs + SegmentBytes(s))
    ensures var before := WriteAll(mem, addrs, bytes);
            WriteAll(mem, addrs + SegmentBytes(s), bytes + chunk) == before[s.ppn := Splice(before[s.ppn], s.lo, chunk)]
    decreases s.hi
  {
    var before := WriteAll(mem, addrs, bytes);
    if s.lo == s.hi {
      assert addrs + SegmentBytes(s) == addrs && bytes + chunk == bytes;
      assert Splice(before[s.ppn], s.lo, chunk) == before[s.ppn];
    } else {
      var k := |chunk| - 1;
      var s' := s.(hi := s.hi - 1);
      WriteSegment(mem, addrs, bytes, s', chunk[..k]);
      var all, vals := addrs + SegmentBytes(s), bytes + chunk;
      assert all[..|all| - 1] == addrs + SegmentBytes(s') && vals[..|all| - 1] == bytes + chunk[..k];
      assert all[|all| - 1] == (s.ppn, s.hi - 1) && vals[|all| - 1] == chunk[k];
      assert Splice(before[s.ppn], s.lo, chunk[..k])[s.hi - 1 := chunk[k]] == Splice(before[s.ppn], s.lo, chunk);
    }
  }

  lemma {:induction false} SegmentsIn(mem: seq<Frame>, v: seq<Segment>, i: nat)
    requires SegmentsOk(v) && AddrsIn(mem, Flatten(v)) && i < |v|
    ensures v[i].ppn < |mem|
  {
    var n := |v| - 1;
    var front := Flatten(v[..n]);
    assert Flatten(v) == front + SegmentBytes(v[n]);
    if i == n {
      assert Flatten(v)[|front|] == SegmentBytes(v[n])[0] == (v[n].ppn, v[n].lo);
    } else {
      assert AddrsIn(mem, front) by {
        assert forall k | 0 <= k < |front| :: front[k] == Flatten(v)[k];
      }
      SegmentsIn(mem, v[..n], i);
    }
  }

  /** Copy a value out to user memory, page segment by page segment. */
  method CopyToUser(m: Machine, root: nat, dst: nat, value: seq<byte>) returns (r: CopyResult<()>)
    requires m.Valid() && root < |m.mem| && dst < U64_LIMIT && |value| < U64_LIMIT
    requires AddrsIn(m.mem, PhysRange(m.mem, root, dst, |value|)) || !RangeOk(m.mem, root, dst, |value|, true)
    modifies m`mem
    ensures m.Valid()
    ensures r.InvalidArgument? <==> value == []
    ensures r.InvalidAddress? <==> value != [] && !RangeOk(old(m.mem), root, dst, |value|, true)
    ensures r.Ok? ==> AddrsIn(old(m.mem), PhysRange(old(m.mem), root, dst, |value|))
    ensures r.Ok? ==> m.mem == WriteAll(old(m.mem), PhysRange(old(m.mem), root, dst, |value|), value)
    ensures !r.Ok? ==> m.mem == old(m.mem)
  {
    hide RangeOk, PhysRange;
    if |value| == 0 { return InvalidArgument; }
    var buffers := TryTranslatedByteBuffer(m.mem, root, dst, |value|, true);
    if buffers.None? { return InvalidAddress; }
    StoreSegments(m, buffers.value, value);
    r := Ok(());
  }

  /** The copy loop: each segment takes the next bytes of the value. */
  method StoreSegments(m: Machine, v: seq<Segment>, value: seq<byte>)
    requires m.Valid() && SegmentsOk(v) && AddrsIn(m.mem, Flatten(v)) && |Flatten(v)| == |value|
    modifies m`mem
    ensures m.Valid() && m.mem == WriteAll(old(m.mem), Flatten(v), value)
  {
    hide Flatten, WriteAll, Splice, SegmentBytes, Machine.Valid;
    var offset := 0;
    var i := 0;
    assert v[..0] == [] && value[..0] == [];
    NoSegments(m.mem);
    while i < |v|
      invariant i <= |v| && m.Valid() && |m.mem| == |old(m.mem)|
      invariant offset == |Flatten(v[..i])| <= |value| && AddrsIn(old(m.mem), Flatten(v[..i]))
      invariant m.mem == WriteAll(old(m.mem), Flatten(v[..i]), value[..offset])
    {
      var s := v[i];
      var next := offset + (s.hi - s.lo);
      SegmentsIn(old(m.mem), v, i);
      FlattenNext(v, i);
      WriteSegment(old(m.mem), Flatten(v[..i]), value[..offset], s, value[offset..next]);
      assert value[..offset] + value[offset..next] == value[..next];
      m.Store(s.ppn, Splice(m.mem[s.ppn], s.lo, value[offset..next]));
      offset, i := next, i + 1;
    }
    assert v[..i] == v && value[..offset] == value;
  }

  lemma NoSegments(mem: seq<Frame>)
    ensures Flatten([]) == [] && WriteAll(mem, [], []) == mem && ReadAll(mem, []) == []
  {
  }

  lemma {:induction false} FlattenPrefix(v: seq<Segment>, i: nat)
    requires SegmentsOk(v) && i <= |v|
    ensures Flatten(v[..i]) <= Flatten(v)
  {
    if i < |v| {
      var n := |v| - 1;
      FlattenPrefix(v[..n], i);
      assert v[..n][..i] == v[..i];
    } else {
      assert v[..i] == v;
    }
  }

  lemma FlattenNext(v: seq<Segment>, i: nat)
    requires SegmentsOk(v) && i < |v|
    ensures Flatten(v[..i + 1]) == Flatten(v[..i]) + SegmentBytes(v[i])
    ensures Flatten(v[..i + 1]) <= Flatten(v)
  {
    assert v[..i + 1][..i] == v[..i];
    FlattenPrefix(v, i + 1);
  }

  /** Copy a value in from user memory. */
  method CopyFromUser(mem: seq<Frame>, root: nat, src: nat, size: nat) returns (r: CopyResult<seq<byte>>)
    requires root < |mem| && src < U64_LIMIT && size < U64_LIMIT
    requires AddrsIn(mem, PhysRange(mem, root, src, size)) || !RangeOk(mem, root, src, size, false)
    ensures r.InvalidArgument? <==> size == 0
    ensures r.InvalidAddress? <==> size != 0 && !RangeOk(mem, root, src, size, false)
    ensures r.Ok? ==>
              AddrsIn(mem, PhysRange(mem, root, src, size)) && r.value == ReadAll(mem, PhysRange(mem, root, src, size))
  {
    hide RangeOk, PhysRange;
    if size == 0 { return InvalidArgument; }
    var buffers := TryTranslatedByteBuffer(mem, root, src, size, false);
    if buffers.None? { return InvalidAddress; }
    var value := LoadSegments(mem, buffers.value);
    r := Ok(value);
  }

  method LoadSegments(mem: seq<Frame>, v: seq<Segment>) returns (value: seq<byte>)
    requires SegmentsOk(v) && AddrsIn(mem, Flatten(v))
    ensures value == ReadAll(mem, Flatten(v))
  {
    hide Flatten, ReadAll, SegmentBytes;
    value := [];
    var i := 0;
    assert v[..0] == [];
    NoSegments(mem);
    while i < |v|
      invariant i <= |v| && AddrsIn(mem, Flatten(v[..i])) && value == ReadAll(mem, Flatten(v[..i]))
    {
      var s := v[i];
      SegmentsIn(mem, v, i);
      FlattenNext(v, i);
      ReadSegment(mem, Flatten(v[..i]), s);
      value := value + mem[s.ppn][s.lo..s.hi];
      i := i + 1;
    }
    assert v[..i] == v;
  }

  /** Loading a segment is loading its bytes. */
  lemma ReadSegment(mem: seq<Frame>, addrs: seq<(nat, nat)>, s: Segment)
    requires AddrsIn(mem, addrs) && s.lo <= s.hi <= PAGE_SIZE && s.ppn < |mem|
    ensures AddrsIn(mem, addrs + SegmentBytes(s))
    ensures ReadAll(mem, addrs + SegmentBytes(s)) == ReadAll(mem, addrs) + mem[s.ppn][s.lo..s.hi]
  {
  }

  // ---------------------------------------------------------------------------
  // Round trip
  // ---------------------------------------------------------------------------

  lemma PhysOffset(mem: seq<Frame>, root: nat, ptr: nat, len: nat, write: bool, i: nat)
    requires root < |mem| && RangeOk(mem, root, ptr, len, write) && i < len
    ensures PhysRange(mem, root, ptr, len)[i].1 == (ptr + i) % PAGE_SIZE
  {
    hide Translate;
    assert PageOk(mem, root, (ptr + i) / PAGE_SIZE, write);
    assert PhysRange(mem, root, ptr, len)[i] == PhysOf(mem, root, ptr + i);
  }

  /** Bytes less than a page apart never share a place, even when two pages of the range are
      backed by one frame. */
  lemma ShortRangeDistinct(mem: seq<Frame>, root: nat, ptr: nat, len: nat)
    requires root < |mem| && len <= PAGE_SIZE && RangeOk(mem, root, ptr, len, true)
    ensures NoDuplicates(PhysRange(mem, root, ptr, len))
  {
    hide PhysRange, RangeOk;
    var addrs := PhysRange(mem, root, ptr, len);
    forall i, j | 0 <= i < j < len ensures addrs[i] != addrs[j] {
      PhysOffset(mem, root, ptr, len, true, i);
      PhysOffset(mem, root, ptr, len, true, j);
      OffsetsDiffer(ptr + i, ptr + j);
    }
  }

  lemma OffsetsDiffer(a: nat, b: nat)
    requires a < b < a + PAGE_SIZE
    ensures a % PAGE_SIZE != b % PAGE_SIZE
  {
  }

  /** Pages that back a range are in memory and are not part of the page table. */
  ghost predicate DataRange(mem: seq<Frame>, t: Tree, addrs: seq<(nat, nat)>) {
    forall i | 0 <= i < |addrs| :: addrs[i].0 < |mem| && addrs[i].0 !in Tables(t)
  }

  /** What was copied out is copied back in, across pages too; translation is undisturbed and
      no other byte of memory changes. */
  lemma CopyRoundTrip(mem: seq<Frame>, t: Tree, ptr: nat, value: seq<byte>, addrs: seq<(nat, nat)>)
    requires TreeOk(mem, t) && RangeOk(mem, t.root, ptr, |value|, true) && RangeOk(mem, t.root, ptr, |value|, false)
    requires addrs == PhysRange(mem, t.root, ptr, |value|)
    requires DataRange(mem, t, addrs) && NoDuplicates(addrs)
    ensures AddrsIn(mem, addrs)
    ensures var mem' := WriteAll(mem, addrs, value);
            && TreeOk(mem', t)
            && RangeOk(mem', t.root, ptr, |value|, false)
            && PhysRange(mem', t.root, ptr, |value|) == addrs
            && ReadAll(mem', addrs) == value
            && forall p, o | 0 <= p < |mem| && 0 <= o < PAGE_SIZE && (p, o) !in addrs :: mem'[p][o] == mem[p][o]
  {
    hide TreeOk, Tables, Translate, PhysRange, RangeOk;
    TreeFacts(mem, t);
    forall i | 0 <= i < |addrs| ensures addrs[i].1 < PAGE_SIZE {
      PhysOffset(mem, t.root, ptr, |value|, true, i);
    }
    var mem' := WriteAll(mem, addrs, value);
    forall p | p in Tables(t) ensures p < |mem| && mem'[p] == mem[p] {
      WriteAllFrame(mem, addrs, value, p);
    }
    SameTranslation(mem, mem', t);
    SameRange(mem, mem', t.root, ptr, |value|);
    ReadBack(mem, addrs, value);
    forall p, o | 0 <= p < |mem| && 0 <= o < PAGE_SIZE && (p, o) !in addrs ensures mem'[p][o] == mem[p][o] {
      WriteAllByte(mem, addrs, value, p, o);
    }
  }

  lemma SameRange(mem: seq<Frame>, mem': seq<Frame>, root: nat, ptr: nat, len: nat)
    requires root < |mem| == |mem'|
    requires forall v: nat :: Translate(mem', root, v) == Translate(mem, root, v)
    ensures PhysRange(mem', root, ptr, len) == PhysRange(mem, root, ptr, len)
    ensures forall w :: RangeOk(mem', root, ptr, len, w) == RangeOk(mem, root, ptr, len, w)
  {
    hide Translate;
    assert forall v: nat, w :: PageOk(mem', root, v, w) == PageOk(mem, root, v, w);
    var r, r' := PhysRange(mem, root, ptr, len), PhysRange(mem', root, ptr, len);
    forall i | 0 <= i < len ensures r'[i] == r[i] {
      assert PhysOf(mem', root, ptr + i) == PhysOf(mem, root, ptr + i);
    }
  }

  /** Memory that agrees on the table frames translates every page alike. */
  lemma SameTranslation(mem: seq<Frame>, mem': seq<Frame>, t: Tree)
    requires TreeOk(mem, t) && |mem'| == |mem|
    requires forall p | p in Tables(t) :: p < |mem| && mem'[p] == mem[p]
    ensures TreeOk(mem', t)
    ensures forall v: nat :: Translate(mem', t.root, v) == Translate(mem, t.root, v)
  {
    TreeFrame(mem, mem', t);
    TreeFacts(mem, t);
    forall v: nat ensures Translate(mem', t.root, v) == Translate(mem, t.root, v) {
      WalkIsLookup(mem, t, v);
      WalkIsLookup(mem', t, v);
    }
  }

  /** Frames on which two memories agree still agree after the same stores. */
  lemma {:induction false} WriteAllAgree(mem: seq<Frame>, mem': seq<Frame>, addrs: seq<(nat, nat)>, bytes: seq<byte>,
                                         p: nat)
    requires AddrsIn(mem, addrs) && |mem'| == |mem| && |bytes| == |addrs| && p < |mem| && mem[p] == mem'[p]
    ensures AddrsIn(mem', addrs) && WriteAll(mem, addrs, bytes)[p] == WriteAll(mem', addrs, bytes)[p]
  {
    if addrs != [] {
      var n := |addrs| - 1;
      WriteAllAgree(mem, mem', addrs[..n], bytes[..n], p);
    }
  }

  // ---------------------------------------------------------------------------
  // Byte iterator and strings
  // ---------------------------------------------------------------------------

  /** Iterator over the bytes of a segmented buffer. */
  /** Byte `idx` of segment `k`, counted over the whole buffer. */
  lemma ByteOfSegment(v: seq<Segment>, k: nat, idx: nat)
    requires SegmentsOk(v) && k < |v| && v[k].lo + idx < v[k].hi
    ensures SegmentsOk(v[..k]) && SegmentsOk(v[..k + 1])
    ensures var before := |Flatten(v[..k])|;
      && before + idx < |Flatten(v)| && Flatten(v)[before + idx] == (v[k].ppn, v[k].lo + idx)
      && |Flatten(v[..k + 1])| == before + v[k].hi - v[k].lo
    ensures k + 1 < |v| ==> v[k + 1].lo < v[k + 1].hi
  {
    hide Flatten;
    FlattenNext(v, k);
    assert Flatten(v[..k + 1])[|Flatten(v[..k])| + idx] == SegmentBytes(v[k])[idx];
  }

  class UserBufferIterator {
    var buffers: seq<Segment>
    var currentBuffer: nat
    var currentIdx: nat

    ghost predicate Valid()
      reads this
    {
      && SegmentsOk(buffers) && currentBuffer <= |buffers|
      && (if currentBuffer < |buffers| then buffers[currentBuffer].lo + currentIdx < buffers[currentBuffer].hi
          else currentIdx == 0)
    }

    /** Bytes handed out so far. */
    ghost function Position(): nat
      requires Valid()
      reads this
    {
      |Flatten(buffers[..currentBuffer])| + currentIdx
    }

    constructor (v: seq<Segment>)
      requires SegmentsOk(v)
      ensures Valid() && buffers == v && Position() == 0
    {
      buffers, currentBuffer, currentIdx := v, 0, 0;
    }

    /** The bytes come in order and end with the buffer. */
    method Next() returns (r: Option<(nat, nat)>)
      requires Valid()
      modifies this`currentBuffer, this`currentIdx
      ensures Valid()
      ensures r.None? <==> old(Position()) == |Flatten(buffers)|
      ensures r.None? ==> Position() == old(Position())
      ensures r.Some? ==> old(Position()) < |Flatten(buffers)| && r.value == Flatten(buffers)[old(Position())]
      ensures r.Some? ==> Position() == old(Position()) + 1
    {
      hide Flatten, SegmentsOk;
      if currentBuffer >= |buffers| {
        assert buffers[..currentBuffer] == buffers;
        return None;
      }
      ByteOfSegment(buffers, currentBuffer, currentIdx);
      var seg := buffers[currentBuffer];
      r := Some((seg.ppn, seg.lo + currentIdx));
      if currentIdx + 1 == seg.hi - seg.lo {
        currentIdx := 0;
        currentBuffer := currentBuffer + 1;
      } else {
        currentIdx := currentIdx + 1;
      }
    }
  }

  function UserByte(mem: seq<Frame>, root: nat, a: nat): byte
    requires root < |mem|
  {
    var (p, o) := PhysOf(mem, root, a);
    if p < |mem| && o < PAGE_SIZE then mem[p][o] else 0
  }

  /** `s` is a NUL-terminated string at `ptr`, shorter than `maxLen`, all of whose bytes up to
      the terminator may be read. */
  ghost predicate IsUserString(mem: seq<Frame>, root: nat, ptr: nat, maxLen: nat, s: seq<byte>)
    requires root < |mem|
  {
    && |s| < maxLen
    && RangeOk(mem, root, ptr, |s| + 1, false)
    && (forall i | 0 <= i < |s| :: s[i] != 0 && UserByte(mem, root, ptr + i) == s[i])
    && UserByte(mem, root, ptr + |s|) == 0
  }

  /** User pages are backed by memory. */
  ghost predicate Backed(mem: seq<Frame>, root: nat)
    requires root < |mem|
  {
    forall v: nat, w | v < VPN_LIMIT && PageOk(mem, root, v, w) :: PtePpn(Translate(mem, root, v).value) < |mem|
  }

  /** First NUL in a slice, or its length. */
  method FindNul(s: seq<byte>) returns (z: nat)
    ensures z <= |s| && (z < |s| ==> s[z] == 0) && forall i | 0 <= i < z :: s[i] != 0
  {
    z := 0;
    while z < |s| && s[z] != 0
      invariant z <= |s| && forall i | 0 <= i < z :: s[i] != 0
    {
      z := z + 1;
    }
  }

  /** Load a string, touching no page past its terminator. A string is returned exactly when
      one is there, and it is that string. */
  method TryTranslatedStr(mem: seq<Frame>, root: nat, ptr: nat, maxLen: nat) returns (r: Option<seq<byte>>)
    requires root < |mem| && ptr < U64_LIMIT && maxLen < U64_LIMIT && Backed(mem, root)
    ensures r.Some? ==> ptr != 0 && ptr + maxLen <= USER_VA_LIMIT && IsUserString(mem, root, ptr, maxLen, r.value)
    ensures r.None? ==> ptr == 0 || ptr + maxLen > USER_VA_LIMIT || forall s :: !IsUserString(mem, root, ptr, maxLen, s)
  {
    hide Translate, PageOk, Backed;
    if ptr == 0 || maxLen == 0 { return None; }
    if ptr + maxLen >= U64_LIMIT { return None; }
    var limit := ptr + maxLen;
    if limit > USER_VA_LIMIT { return None; }
    var cur := ptr;
    var str: seq<byte> := [];
    while cur < limit
      invariant ptr <= cur <= limit && |str| == cur - ptr
      invariant forall a | ptr <= a < cur :: PageOk(mem, root, a / PAGE_SIZE, false)
      invariant forall i | 0 <= i < |str| :: str[i] != 0 && UserByte(mem, root, ptr + i) == str[i]
    {
      var ok := CheckPage(mem, root, VaOf(cur) / PAGE_SIZE, false);
      if !ok {
        forall s ensures !IsUserString(mem, root, ptr, maxLen, s) {
          NoStringPast(mem, root, ptr, maxLen, s, str);
          StringReadable(mem, root, ptr, maxLen, s, |str|);
        }
        return None;
      }
      var chunk := PageChunk(mem, root, cur, limit);
      var z := FindNul(chunk);
      ghost var page := cur / PAGE_SIZE * PAGE_SIZE + PAGE_SIZE;
      forall a | cur <= a < cur + |chunk| ensures PageOk(mem, root, a / PAGE_SIZE, false) { SamePage(cur, a); }
      str := str + chunk[..z];
      if z < |chunk| {
        assert UserByte(mem, root, ptr + |str|) == 0;
        return Some(str);
      }
      cur := cur + |chunk|;
    }
    forall s ensures !IsUserString(mem, root, ptr, maxLen, s) {
      NoStringPast(mem, root, ptr, maxLen, s, str);
    }
    r := None;
  }

  lemma StringReadable(mem: seq<Frame>, root: nat, ptr: nat, maxLen: nat, s: seq<byte>, k: nat)
    requires root < |mem|
    ensures IsUserString(mem, root, ptr, maxLen, s) && k <= |s| ==> PageOk(mem, root, (ptr + k) / PAGE_SIZE, false)
  {
    hide PageOk, UserByte;
  }

  /** There is at most one string at an address. */
  lemma OneString(mem: seq<Frame>, root: nat, ptr: nat, maxLen: nat, s: seq<byte>, t: seq<byte>)
    requires root < |mem| && IsUserString(mem, root, ptr, maxLen, s) && IsUserString(mem, root, ptr, maxLen, t)
    ensures s == t
  {
    hide UserByte, RangeOk;
    NoStringPast(mem, root, ptr, maxLen, s, t);
    NoStringPast(mem, root, ptr, maxLen, t, s);
    assert forall i | 0 <= i < |s| :: s[i] == UserByte(mem, root, ptr + i) == t[i];
  }

  /** Bytes that read as a string and its terminator are a string. */
  lemma BytesAreString(mem: seq<Frame>, root: nat, ptr: nat, maxLen: nat, s: seq<byte>)
    requires root < |mem| && |s| < maxLen && RangeOk(mem, root, ptr, |s| + 1, false)
    requires AddrsIn(mem, PhysRange(mem, root, ptr, |s| + 1))
    requires ReadAll(mem, PhysRange(mem, root, ptr, |s| + 1)) == s + [0]
    requires forall i | 0 <= i < |s| :: s[i] != 0
    ensures IsUserString(mem, root, ptr, maxLen, s)
  {
    hide RangeOk, Translate;
    var addrs := PhysRange(mem, root, ptr, |s| + 1);
    forall i: nat | i <= |s| ensures UserByte(mem, root, ptr + i) == (s + [0])[i] {
      assert addrs[i] == PhysOf(mem, root, ptr + i);
      assert ReadAll(mem, addrs)[i] == mem[addrs[i].0][addrs[i].1];
    }
    assert (s + [0])[|s|] == 0 && forall i | 0 <= i < |s| :: (s + [0])[i] == s[i];
    assert UserByte(mem, root, ptr + |s|) == 0;
    forall i | 0 <= i < |s| ensures UserByte(mem, root, ptr + i) == s[i] { }
  }

  /** A string cannot end inside bytes already seen to be non-zero. */
  lemma NoStringPast(mem: seq<Frame>, root: nat, ptr: nat, maxLen: nat, s: seq<byte>, seen: seq<byte>)
    requires root < |mem|
    requires forall i | 0 <= i < |seen| :: seen[i] != 0 && UserByte(mem, root, ptr + i) == seen[i]
    ensures IsUserString(mem, root, ptr, maxLen, s) ==> |s| >= |seen|
  {
    hide UserByte;
    if |s| < |seen| { assert UserByte(mem, root, ptr + |s|) == seen[|s|]; }
  }

  /** The bytes from `cur` to the end of its page or to `limit`. */
  method PageChunk(mem: seq<Frame>, root: nat, cur: nat, limit: nat) returns (chunk: seq<byte>)
    requires root < |mem| && cur < limit <= USER_VA_LIMIT && Backed(mem, root)
    requires PageOk(mem, root, cur / PAGE_SIZE, false)
    ensures 0 < |chunk| && cur + |chunk| <= limit
    ensures cur + |chunk| == limit || cur + |chunk| == cur / PAGE_SIZE * PAGE_SIZE + PAGE_SIZE
    ensures cur + |chunk| <= cur / PAGE_SIZE * PAGE_SIZE + PAGE_SIZE
    ensures forall i | 0 <= i < |chunk| :: chunk[i] == UserByte(mem, root, cur + i)
  {
    hide PageOk;
    PageBounds(cur);
    var ppn := PpnOf(mem, root, cur / PAGE_SIZE, false);
    var offset := cur % PAGE_SIZE;
    var n := if PAGE_SIZE - offset < limit - cur then PAGE_SIZE - offset else limit - cur;
    assert PhysOf(mem, root, cur) == (ppn, offset);
    assert ppn < |mem| by { BackedPage(mem, root, cur, false); }
    hide PhysOf, UserByte;
    chunk := mem[ppn][offset..offset + n];
    forall i | 0 <= i < n ensures chunk[i] == UserByte(mem, root, cur + i) { ByteOfPage(mem, root, cur, i); }
  }

  /** Bytes of one page stand in one frame. */
  lemma ByteOfPage(mem: seq<Frame>, root: nat, a: nat, i: nat)
    requires root < |mem| && PageOk(mem, root, a / PAGE_SIZE, false) && PhysOf(mem, root, a).0 < |mem|
    requires a % PAGE_SIZE + i < PAGE_SIZE
    ensures UserByte(mem, root, a + i) == mem[PhysOf(mem, root, a).0][a % PAGE_SIZE + i]
  {
    hide Translate, PtePpn;
    PageBounds(a);
    SamePage(a, a + i);
  }

  lemma BackedPage(mem: seq<Frame>, root: nat, a: nat, write: bool)
    requires root < |mem| && Backed(mem, root) && a < USER_VA_LIMIT && PageOk(mem, root, a / PAGE_SIZE, write)
    ensures PhysOf(mem, root, a).0 < |mem|
  {
    hide Translate;
  }
}
