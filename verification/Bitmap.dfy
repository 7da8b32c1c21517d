/** Block and inode bitmaps on disk (easy-fs/src/bitmap.rs): 4096 bits to a block, kept as
    64 little-endian 64-bit words. */
module Bitmaps {
  import opened Numbers
  import opened Options
  import opened Bytes
  import opened Bits
  import opened BlockCache

  const BLOCK_BITS: nat := BLOCK_SZ * 8

  datatype Bitmap = Bitmap(start: nat, blocks: nat)

  function Maximum(m: Bitmap): nat {
    m.blocks * BLOCK_BITS
  }

  /** (block, word in the block, bit in the word) */
  function Decomposition(bit: nat): (nat, nat, nat) {
    (bit / BLOCK_BITS, bit % BLOCK_BITS / 64, bit % BLOCK_BITS % 64)
  }

  function Compose(block: nat, word: nat, inner: nat): nat {
    block * BLOCK_BITS + word * 64 + inner
  }

  lemma ComposeDecompose(block: nat, word: nat, inner: nat, bit: nat)
    requires word < 64 && inner < 64
    ensures Decomposition(Compose(block, word, inner)) == (block, word, inner)
    ensures var (b, w, i) := Decomposition(bit); w < 64 && i < 64 && Compose(b, w, i) == bit
  {
    assert Compose(block, word, inner) / BLOCK_BITS == block;
    assert Compose(block, word, inner) % BLOCK_BITS == word * 64 + inner;
  }

  predicate InDisk(m: Bitmap, view: seq<Block>) {
    m.start + m.blocks <= |view|
  }

  function Word(view: seq<Block>, m: Bitmap, block: nat, word: nat): (w: nat)
    requires InDisk(m, view) && block < m.blocks && word < 64
    ensures w <= U64_MAX
  {
    U64At(view[m.start + block], 8 * word)
  }

  /** Is bit `bit` of the bitmap set? */
  predicate BitSet(view: seq<Block>, m: Bitmap, bit: nat)
    requires InDisk(m, view)
  {
    bit < Maximum(m) &&
    var (b, w, i) := Decomposition(bit);
    Bit(Word(view, m, b, w), i)
  }

  /** Where a bit stands: 4096 to a block, in little-endian words of 64. */
  lemma BitPlace(view: seq<Block>, m: Bitmap, bit: nat)
    requires InDisk(m, view) && bit < 4096 * m.blocks
    ensures m.start + bit / 4096 < |view| && bit / 64 % 64 * 8 + 8 <= 512
    ensures BitSet(view, m, bit) <==>
            Bit(FromLE(view[m.start + bit / 4096][bit / 64 % 64 * 8..bit / 64 % 64 * 8 + 8]), bit % 64)
  {
    hide Bit, FromLE;
    WordOfBit(bit);
  }

  lemma WordOfBit(bit: nat)
    ensures Decomposition(bit) == (bit / 4096, bit / 64 % 64, bit % 64)
  {
    var q, r := bit / 4096, bit % 4096;
    assert bit / 64 == 64 * q + r / 64;
    assert bit == 64 * (64 * q + r / 64) + r % 64;
  }

  /** Only blocks of the bitmap differ. */
  ghost predicate OutsideSame(m: Bitmap, view: seq<Block>, view': seq<Block>) {
    && |view'| == |view|
    && forall b | 0 <= b < |view| && !(m.start <= b < m.start + m.blocks) :: view'[b] == view[b]
  }

  /** `view'` is `view` with exactly bit `bit` changed to `on`. */
  ghost predicate BitChanged(m: Bitmap, view: seq<Block>, view': seq<Block>, bit: nat, on: bool) {
    && InDisk(m, view) && OutsideSame(m, view, view')
    && forall j: nat | j < Maximum(m) :: BitSet(view', m, j) == if j == bit then on else BitSet(view, m, j)
  }

  /** The lowest clear bit. */
  ghost predicate LowestClear(view: seq<Block>, m: Bitmap, bit: nat)
    requires InDisk(m, view)
  {
    bit < Maximum(m) && !BitSet(view, m, bit) && forall j: nat | j < bit :: BitSet(view, m, j)
  }

  /** Replacing one word replaces the 64 bits it holds. */
  lemma WordChange(m: Bitmap, view: seq<Block>, block: nat, word: nat, w: nat, j: nat)
    requires InDisk(m, view) && block < m.blocks && word < 64 && w <= U64_MAX && j < Maximum(m)
    ensures var view' := view[m.start + block := PutU64(view[m.start + block], 8 * word, w)];
            var (b, k, i) := Decomposition(j);
            BitSet(view', m, j) == if b == block && k == word then Bit(w, i) else BitSet(view, m, j)
  {
    ComposeDecompose(0, 0, 0, j);
    var (b, k, i) := Decomposition(j);
    PutU64At(view[m.start + block], 8 * word, w, 8 * k);
  }

  /** Setting or clearing a bit of one word changes exactly that bit of the bitmap. */
  lemma SetBitChanges(m: Bitmap, view: seq<Block>, block: nat, word: nat, inner: nat, on: bool)
    requires InDisk(m, view) && block < m.blocks && word < 64 && inner < 64
    ensures var w := Word(view, m, block, word);
            var w' := if on then SetBit(w, inner) else ClearBit(w, inner);
            && w' <= U64_MAX
            && BitChanged(m, view, view[m.start + block := PutU64(view[m.start + block], 8 * word, w')],
                          Compose(block, word, inner), on)
  {
    var w := Word(view, m, block, word);
    var w' := if on then SetBit(w, inner) else ClearBit(w, inner);
    WordWidth();
    SetBitBound(w, inner, 64);
    var view' := view[m.start + block := PutU64(view[m.start + block], 8 * word, w')];
    forall j: nat | j < Maximum(m)
      ensures BitSet(view', m, j) == if j == Compose(block, word, inner) then on else BitSet(view, m, j)
    {
      WordChange(m, view, block, word, w', j);
      ComposeDecompose(block, word, inner, j);
      SetClearBit(w, inner, Decomposition(j).2);
    }
  }

  /** A word of all ones has all its bits set. */
  lemma FullWord(m: Bitmap, view: seq<Block>, j: nat)
    requires InDisk(m, view) && j < Maximum(m)
    requires Word(view, m, Decomposition(j).0, Decomposition(j).1) == U64_MAX
    ensures BitSet(view, m, j)
  {
    WordWidth();
    AllOnes(64, Decomposition(j).2);
  }

  /** First word of a block that is not all ones, or 64. */
  method FirstFreeWord(b: Block) returns (word: nat)
    ensures word <= 64
    ensures word < 64 ==> U64At(b, 8 * word) != U64_MAX
    ensures forall k: nat | k < word :: U64At(b, 8 * k) == U64_MAX
  {
    word := 0;
    while word < 64 && U64At(b, 8 * word) == U64_MAX
      invariant word <= 64
      invariant forall k: nat | k < word :: U64At(b, 8 * k) == U64_MAX
    {
      word := word + 1;
    }
  }

  /** Bits below a position are set when all earlier words are full and the lower bits of
      its own word are set. */
  lemma BelowAreSet(m: Bitmap, view: seq<Block>, block: nat, word: nat, inner: nat, j: nat)
    requires InDisk(m, view) && block < m.blocks && word < 64 && inner < 64
    requires forall b: nat, k: nat | b < block && k < 64 :: Word(view, m, b, k) == U64_MAX
    requires forall k: nat | k < word :: Word(view, m, block, k) == U64_MAX
    requires forall i: nat | i < inner :: Bit(Word(view, m, block, word), i)
    requires j < Compose(block, word, inner)
    ensures BitSet(view, m, j)
  {
    ComposeDecompose(block, word, inner, j);
    var (b, k, i) := Decomposition(j);
    if b < block || k < word { FullWord(m, view, j); }
  }

  /** Set and return the lowest clear bit; none is left exactly when all are set. */
  method Alloc(m: Bitmap, c: BlockCacheManager) returns (r: Option<nat>)
    requires c.Valid() && |c.held| < BLOCK_CACHE_SIZE && InDisk(m, c.view)
    requires forall b | m.start <= b < m.start + m.blocks :: b !in c.held
    modifies c
    ensures c.Valid() && c.held == old(c.held)
    ensures r.None? <==> forall j: nat | j < Maximum(m) :: BitSet(old(c.view), m, j)
    ensures r.None? ==> c.view == old(c.view)
    ensures r.Some? ==> LowestClear(old(c.view), m, r.value) && BitChanged(m, old(c.view), c.view, r.value, true)
  {
    hide BlockCacheManager.Valid;
    hide BitSet, Word;
    var block := 0;
    while block < m.blocks
      invariant block <= m.blocks
      invariant c.Valid() && c.held == old(c.held) && c.view == old(c.view)
      invariant forall b: nat, k: nat | b < block && k < 64 :: Word(c.view, m, b, k) == U64_MAX
    {
      var b := c.Fetch(m.start + block);
      var word := FirstFreeWord(b);
      WordsOf(m, c.view, block);
      if word < 64 {
        var w := U64At(b, 8 * word);
        WordWidth();
        TrailingOnesBound(w, 64);
        var inner := TrailingOnes(w);
        SetBitChanges(m, c.view, block, word, inner, true);
        forall j: nat | j < Compose(block, word, inner) ensures BitSet(c.view, m, j) {
          BelowAreSet(m, c.view, block, word, inner, j);
        }
        ClearAt(m, c.view, block, word, inner);
        c.Store(m.start + block, PutU64(b, 8 * word, SetBit(w, inner)));
        return Some(block * BLOCK_BITS + word * 64 + inner);
      }
      block := block + 1;
    }
    forall j: nat | j < Maximum(m) ensures BitSet(c.view, m, j) {
      ComposeDecompose(0, 0, 0, j);
      FullWord(m, c.view, j);
    }
    r := None;
  }

  lemma WordsOf(m: Bitmap, view: seq<Block>, block: nat)
    requires InDisk(m, view) && block < m.blocks
    ensures forall k: nat | k < 64 :: Word(view, m, block, k) == U64At(view[m.start + block], 8 * k)
  {
  }

  lemma ClearAt(m: Bitmap, view: seq<Block>, block: nat, word: nat, inner: nat)
    requires InDisk(m, view) && block < m.blocks && word < 64 && inner < 64
    ensures Compose(block, word, inner) < Maximum(m)
    ensures BitSet(view, m, Compose(block, word, inner)) == Bit(Word(view, m, block, word), inner)
  {
    ComposeDecompose(block, word, inner, 0);
    assert (block + 1) * BLOCK_BITS <= m.blocks * BLOCK_BITS;
  }

  /** Clear a set bit; the source asserts that it is set. */
  method Dealloc(m: Bitmap, c: BlockCacheManager, bit: nat)
    requires c.Valid() && |c.held| < BLOCK_CACHE_SIZE && InDisk(m, c.view)
    requires forall b | m.start <= b < m.start + m.blocks :: b !in c.held
    requires BitSet(c.view, m, bit)
    modifies c
    ensures c.Valid() && c.held == old(c.held)
    ensures BitChanged(m, old(c.view), c.view, bit, false)
  {
    hide BlockCacheManager.Valid;
    ComposeDecompose(0, 0, 0, bit);
    var (block, word, inner) := Decomposition(bit);
    SetBitChanges(m, c.view, block, word, inner, false);
    var b := c.Fetch(m.start + block);
    var w := U64At(b, 8 * word);
    assert Bit(w, inner);
    c.Store(m.start + block, PutU64(b, 8 * word, ClearBit(w, inner)));
  }

  /** A region of zero blocks is an empty bitmap. */
  lemma ZeroBitmap(m: Bitmap, view: seq<Block>, bit: nat)
    requires InDisk(m, view) && bit < Maximum(m)
    requires forall b | m.start <= b < m.start + m.blocks :: view[b] == Zeros(BLOCK_SZ)
    ensures !BitSet(view, m, bit)
  {
    ComposeDecompose(0, 0, 0, bit);
    var (b, w, i) := Decomposition(bit);
    assert view[m.start + b][8 * w..8 * w + 8] == Zeros(8);
    LEZeros(8);
    ZeroBits(i);
  }

  /** A bitmap depends on nothing but its own blocks. */
  lemma BitmapFrame(m: Bitmap, view: seq<Block>, view': seq<Block>, bit: nat)
    requires InDisk(m, view) && |view'| == |view|
    requires forall b | m.start <= b < m.start + m.blocks :: view[b] == view'[b]
    ensures BitSet(view', m, bit) == BitSet(view, m, bit)
  {
    hide Bit;
    if bit < Maximum(m) {
      ComposeDecompose(0, 0, 0, bit);
      var (b, w, i) := Decomposition(bit);
      BlockInRange(m, bit);
      assert view[m.start + b] == view'[m.start + b];
    }
  }

  lemma BlockInRange(m: Bitmap, bit: nat)
    requires bit < Maximum(m)
    ensures Decomposition(bit).0 < m.blocks
  {
  }
}
