/** The blocks of a deque, its iterators and the element loops that run along them.

    The map is a sequence of blocks of size slots each.  Seen as one sequence, slot offset of block
    number block has the index block * size + offset. */
module DequeBlocks {
  import opened Arithmetic
  import opened Slots
  import opened Rings

  // Iterators.

  datatype Iter = Iter(block: int, offset: int)

  /** Integer division and remainder as the language of the program defines them: truncating. */
  function TruncDiv(a: int, b: int): int
    requires b > 0
  {
    if a >= 0 then a / b else -((-a) / b)
  }

  function TruncMod(a: int, b: int): int
    requires b > 0
  {
    a - TruncDiv(a, b) * b
  }

  function Index(it: Iter, size: nat): int {
    it.block * size + it.offset
  }

  /** The iterator at an index. */
  function IterAt(k: nat, size: nat): Iter
    requires size > 0
  {
    Iter(k / size, k % size)
  }

  /** operator++ and operator--: both read the start of the block they arrive in, so it must be one of
      the count blocks of the map. */
  function Succ(it: Iter, size: nat, count: nat): (r: Iter)
    requires 0 <= it.block < count && 0 <= it.offset < size
    requires it.offset + 1 == size ==> it.block + 1 < count
  {
    if it.offset + 1 == size then Iter(it.block + 1, 0) else Iter(it.block, it.offset + 1)
  }

  function Pred(it: Iter, size: nat, count: nat): (r: Iter)
    requires 0 <= it.block < count && 0 <= it.offset < size
    requires it.offset == 0 ==> it.block > 0
  {
    if it.offset == 0 then Iter(it.block - 1, size - 1) else Iter(it.block, it.offset - 1)
  }

  /** operator+= */
  function Advance(it: Iter, n: int, size: nat): Iter
    requires size > 0
  {
    if n == 0 then it
    else
      var offset := n + it.offset;
      if 0 <= offset < size then Iter(it.block, it.offset + n)
      else
        var steps := if offset > 0 then TruncDiv(offset, size) else TruncDiv(offset + 1, size) - 1;
        var rest := TruncMod(offset, size);
        Iter(it.block + steps, if rest < 0 then rest + size else rest)
  }

  /** operator- */
  function Distance(lhs: Iter, rhs: Iter, size: nat): int {
    if lhs == rhs then 0
    else size * (lhs.block - rhs.block - 1) + lhs.offset + (size - rhs.offset)
  }

  /** The quotient rounded down and its remainder, from the truncating ones, as operator+= takes them. */
  lemma FloorFromTrunc(a: int, b: int)
    requires b > 0
    ensures (if a > 0 then TruncDiv(a, b) else TruncDiv(a + 1, b) - 1) == a / b || a == 0
    ensures (if TruncMod(a, b) < 0 then TruncMod(a, b) + b else TruncMod(a, b)) == a % b
  {
    if a < 0 {
      var c := -a - 1;
      assert c == (c / b) * b + c % b;
      assert a == (-(c / b) - 1) * b + (b - 1 - c % b);
      DivUnique(a, b, -(c / b) - 1, b - 1 - c % b);
      assert -(a + 1) == c;
      var m := (-a) / b;
      assert -a == m * b + (-a) % b;
      assert TruncMod(a, b) == -((-a) % b);
      if (-a) % b == 0 {
        DivUnique(a, b, -m, 0);
      } else {
        DivUnique(a, b, -m - 1, b - (-a) % b);
      }
    }
  }

  lemma Distribute(x: int, y: int, z: int)
    ensures (x + y) * z == x * z + y * z
  {
  }

  lemma AdvanceIs(it: Iter, n: int, size: nat)
    requires 0 <= it.offset < size
    ensures var offset := n + it.offset;
      Advance(it, n, size)
      == if 0 <= offset < size then Iter(it.block, offset) else Iter(it.block + offset / size, offset % size)
  {
    var offset := n + it.offset;
    if n != 0 && !(0 <= offset < size) {
      FloorFromTrunc(offset, size);
    }
  }

  lemma IndexIs(it: Iter, size: nat)
    ensures Index(it, size) == it.block * size + it.offset
  {
  }

  /** operator+= moves the index by exactly n, forwards and backwards, and stays inside a block. */
  lemma AdvanceMoves(it: Iter, n: int, size: nat)
    requires 0 <= it.offset < size
    ensures Index(Advance(it, n, size), size) == Index(it, size) + n
    ensures 0 <= Advance(it, n, size).offset < size
  {
    hide *;
    var offset := n + it.offset;
    AdvanceIs(it, n, size);
    IndexIs(it, size);
    IndexIs(Advance(it, n, size), size);
    if !(0 <= offset < size) {
      var q, r := offset / size, offset % size;
      assert offset == q * size + r && 0 <= r < size;
      Distribute(it.block, q, size);
    }
  }

  /** operator- is the difference of the indices. */
  lemma DistanceIsDifference(lhs: Iter, rhs: Iter, size: nat)
    ensures Distance(lhs, rhs, size) == Index(lhs, size) - Index(rhs, size)
  {
    assert size * (lhs.block - rhs.block - 1) == lhs.block * size - rhs.block * size - size;
  }

  lemma IterAtIndex(it: Iter, size: nat)
    requires 0 <= it.offset < size && it.block >= 0
    ensures Index(it, size) >= 0 && IterAt(Index(it, size), size) == it
  {
    assert it.block * size >= 0;
    DivUnique(Index(it, size), size, it.block, it.offset);
  }

  lemma IterAtMeans(k: nat, size: nat)
    requires size > 0
    ensures var it := IterAt(k, size); Index(it, size) == k && 0 <= it.offset < size && it.block >= 0
  {
  }

  // Blocks.

  /** What block b holds when the whole is flat. */
  ghost function Block<X>(flat: seq<X>, b: nat, size: nat): seq<X> {
    if b * size + size <= |flat| then flat[b * size..b * size + size] else []
  }

  /** flat is what the blocks hold, one block after the other; no block occurs twice. */
  ghost predicate Flattened<T>(blocks: seq<array<Slot<T>>>, flat: seq<Slot<T>>, size: nat)
    reads blocks
  {
    && |flat| == |blocks| * size
    && (forall b, c :: 0 <= b < c < |blocks| ==> blocks[b] != blocks[c])
    && (forall b :: 0 <= b < |blocks| ==> blocks[b].Length == size && blocks[b][..] == Block(flat, b, size))
  }

  lemma BlockBounds(b: nat, count: nat, size: nat)
    ensures b < count ==> b * size + size <= count * size
  {
    if b < count { MulMono(b + 1, count, size); }
  }

  lemma SlicesUpdated<X>(s: seq<X>, k: nat, x: X, i: nat, j: nat, size: nat, offset: nat)
    requires i + size <= |s| && j + size <= |s| && k == i + offset && offset < size
    requires i == j || k < j || j + size <= k
    ensures s[k] == s[i..i + size][offset]
    ensures s[k := x][j..j + size] == if i == j then s[j..j + size][offset := x] else s[j..j + size]
  {
  }

  /** An update of the whole is an update of one block. */
  lemma BlockUpdate<X>(flat: seq<X>, count: nat, size: nat, it: Iter, k: nat, x: X, b: nat)
    requires |flat| == count * size && AtIndex(it, k, size) && k < |flat| && b < count
    ensures it.block < count && |Block(flat, it.block, size)| == size
    ensures flat[k] == Block(flat, it.block, size)[it.offset]
    ensures Block(flat[k := x], b, size)
         == if b == it.block then Block(flat, b, size)[it.offset := x] else Block(flat, b, size)
  {
    hide *;
    var i, j := BlockStarts(flat, flat[k := x], it, k, size, count, b);
    SlicesUpdated(flat, k, x, i, j, size, it.offset);
  }

  /** Where the block of an iterator and another block start in the whole. */
  lemma BlockStarts<X>(f: seq<X>, g: seq<X>, it: Iter, k: nat, size: nat, count: nat, b: nat) returns (i: nat, j: nat)
    requires |f| == |g| == count * size && AtIndex(it, k, size) && k < |f| && b < count
    ensures 0 <= it.block < count && 0 <= it.offset < size && k == i + it.offset
    ensures i + size <= |f| && j + size <= |f|
    ensures if b == it.block then i == j else k < j || j + size <= k
    ensures Block(f, it.block, size) == f[i..i + size]
    ensures Block(f, b, size) == f[j..j + size] && Block(g, b, size) == g[j..j + size]
  {
    BlockApart(it, k, size, count, b);
    i, j := it.block * size, b * size;
    hide *;
    BlockIs(f, it.block, size, i);
    BlockIs(f, b, size, j);
    BlockIs(g, b, size, j);
  }

  /** The index an iterator stands at is in its block and in no other. */
  lemma BlockApart(it: Iter, k: nat, size: nat, count: nat, b: nat)
    requires AtIndex(it, k, size) && k < count * size && b < count
    ensures 0 <= it.block < count && 0 <= it.offset < size && k == it.block * size + it.offset
    ensures it.block * size + size <= count * size && b * size + size <= count * size
    ensures b != it.block ==> k < b * size || b * size + size <= k
  {
    if it.block >= count { MulMono(count, it.block, size); }
    BlockBounds(it.block, count, size);
    BlockBounds(b, count, size);
    BlockBounds(b, it.block, size);
    BlockBounds(it.block, b, size);
  }

  lemma BlockIs<X>(flat: seq<X>, b: nat, size: nat, i: nat)
    requires i == b * size && i + size <= |flat|
    ensures Block(flat, b, size) == flat[i..i + size]
  {
  }

  /** The iterator stands at that index. */
  ghost predicate AtIndex(it: Iter, k: nat, size: nat) {
    0 <= it.offset < size && it.block >= 0 && Index(it, size) == k
  }

  lemma InMap(it: Iter, k: nat, size: nat, count: nat)
    requires AtIndex(it, k, size) && k < count * size
    ensures it.block < count
    ensures k + 1 < count * size ==> (it.offset + 1 == size ==> it.block + 1 < count)
                                     && AtIndex(Succ(it, size, count), k + 1, size)
    ensures k > 0 ==> (it.offset == 0 ==> it.block > 0) && AtIndex(Pred(it, size, count), k - 1, size)
  {
    if it.block >= count { MulMono(count, it.block, size); }
    assert (it.block + 1) * size == it.block * size + size;
    if it.offset + 1 == size && it.block + 1 >= count { MulMono(count, it.block + 1, size); }
    if it.offset == 0 && k > 0 {
      assert it.block > 0;
      assert (it.block - 1) * size == it.block * size - size;
    }
  }

  lemma SameIter(it: Iter, k: nat, other: Iter, j: nat, size: nat)
    requires AtIndex(it, k, size) && AtIndex(other, j, size)
    ensures it == other <==> k == j
  {
    IterAtIndex(it, size);
    IterAtIndex(other, size);
  }

  /** The slot an iterator stands at. */
  lemma SlotAt<T>(blocks: seq<array<Slot<T>>>, flat: seq<Slot<T>>, size: nat, it: Iter, k: nat)
    requires Flattened(blocks, flat, size) && AtIndex(it, k, size) && k < |flat|
    ensures it.block < |blocks| && blocks[it.block].Length == size && blocks[it.block][it.offset] == flat[k]
  {
    if it.block >= |blocks| { MulMono(|blocks|, it.block, size); }
    BlockUpdate(flat, |blocks|, size, it, k, flat[k], it.block);
    assert blocks[it.block][..][it.offset] == flat[k];
  }

  /** One slot has changed. */
  lemma SlotChanged<T>(blocks: seq<array<Slot<T>>>, flat: seq<Slot<T>>, size: nat, it: Iter, k: nat, x: Slot<T>)
    requires |flat| == |blocks| * size && AtIndex(it, k, size) && k < |flat| && it.block < |blocks|
    requires forall b, c :: 0 <= b < c < |blocks| ==> blocks[b] != blocks[c]
    requires forall b :: 0 <= b < |blocks| ==> blocks[b].Length == size
    requires forall b :: 0 <= b < |blocks| && b != it.block ==> blocks[b][..] == Block(flat, b, size)
    requires |Block(flat, it.block, size)| == size
    requires blocks[it.block][..] == Block(flat, it.block, size)[it.offset := x]
    ensures Flattened(blocks, flat[k := x], size)
  {
    hide Block, AtIndex;
    forall b: nat | b < |blocks| ensures blocks[b][..] == Block(flat[k := x], b, size) {
      BlockUpdate(flat, |blocks|, size, it, k, x, b);
    }
  }

  method ConstructIn<T>(blocks: seq<array<Slot<T>>>, it: Iter, v: T, size: nat, ghost flat: seq<Slot<T>>, ghost k: nat)
    requires Flattened(blocks, flat, size) && AtIndex(it, k, size) && k < |flat| && flat[k].Raw?
    modifies blocks
    ensures Flattened(blocks, flat[k := Live(v)], size)
  {
    SlotAt(blocks, flat, size, it, k);
    BlockUpdate(flat, |blocks|, size, it, k, flat[k], it.block);
    hide Block;
    Construct(blocks[it.block], it.offset, v);
    SlotChanged(blocks, flat, size, it, k, Live(v));
  }

  method AssignIn<T>(blocks: seq<array<Slot<T>>>, it: Iter, v: T, size: nat, ghost flat: seq<Slot<T>>, ghost k: nat)
    requires Flattened(blocks, flat, size) && AtIndex(it, k, size) && k < |flat| && !flat[k].Raw?
    modifies blocks
    ensures Flattened(blocks, flat[k := Live(v)], size)
  {
    SlotAt(blocks, flat, size, it, k);
    BlockUpdate(flat, |blocks|, size, it, k, flat[k], it.block);
    hide Block;
    Assign(blocks[it.block], it.offset, v);
    SlotChanged(blocks, flat, size, it, k, Live(v));
  }

  method DestroyIn<T>(blocks: seq<array<Slot<T>>>, it: Iter, size: nat, ghost flat: seq<Slot<T>>, ghost k: nat)
    requires Flattened(blocks, flat, size) && AtIndex(it, k, size) && k < |flat| && !flat[k].Raw?
    modifies blocks
    ensures Flattened(blocks, flat[k := Raw], size)
  {
    SlotAt(blocks, flat, size, it, k);
    BlockUpdate(flat, |blocks|, size, it, k, flat[k], it.block);
    hide Block;
    Destroy(blocks[it.block], it.offset);
    SlotChanged(blocks, flat, size, it, k, Slot<T>.Raw);
  }

  /** Move the value out of a slot. */
  method TakeFrom<T>(blocks: seq<array<Slot<T>>>, it: Iter, size: nat, ghost flat: seq<Slot<T>>, ghost k: nat)
    returns (v: T)
    requires Flattened(blocks, flat, size) && AtIndex(it, k, size) && k < |flat| && flat[k].Live?
    modifies blocks
    ensures Flattened(blocks, flat[k := Moved], size) && v == flat[k].value
  {
    SlotAt(blocks, flat, size, it, k);
    BlockUpdate(flat, |blocks|, size, it, k, flat[k], it.block);
    hide Block;
    v := Take(blocks[it.block], it.offset);
    SlotChanged(blocks, flat, size, it, k, Slot<T>.Moved);
  }

  /** swap(*a, *b): a temporary takes the one value while the other moves. */
  method SwapIn<T>(blocks: seq<array<Slot<T>>>, a: Iter, b: Iter, size: nat, ghost flat: seq<Slot<T>>,
                   ghost k: nat, ghost d: nat)
    requires Flattened(blocks, flat, size) && k < |flat| && d < |flat| && k != d
    requires AtIndex(a, k, size) && AtIndex(b, d, size) && flat[k].Live? && flat[d].Live?
    modifies blocks
    ensures Flattened(blocks, flat[k := flat[d]][d := flat[k]], size)
  {
    var temp := TakeFrom(blocks, a, size, flat, k);
    ghost var f := flat[k := Moved];
    MoveAssignIn(blocks, a, b, size, f, k, d);
    f := f[d := Moved][k := flat[d]];
    AssignIn(blocks, b, temp, size, f, d);
    assert f[d := Live(temp)] == flat[k := flat[d]][d := flat[k]];
  }

  /** Assign the object at index d by moving the value at index k. */
  method MoveAssignIn<T>(blocks: seq<array<Slot<T>>>, to: Iter, from: Iter, size: nat, ghost flat: seq<Slot<T>>,
                         ghost d: nat, ghost k: nat)
    requires Flattened(blocks, flat, size) && k < |flat| && d < |flat| && k != d
    requires AtIndex(to, d, size) && AtIndex(from, k, size) && flat[k].Live? && !flat[d].Raw?
    modifies blocks
    ensures Flattened(blocks, flat[k := Moved][d := flat[k]], size)
  {
    var v := TakeFrom(blocks, from, size, flat, k);
    AssignIn(blocks, to, v, size, flat[k := Moved], d);
  }

  // Loops along the iterators.  The last iterator stands at a slot of the map, too.

  /** alloc_range_destroy: from first on up to last. */
  method DestroyBlocks<T>(blocks: seq<array<Slot<T>>>, first: Iter, last: Iter, size: nat, ghost flat: seq<Slot<T>>,
                          ghost lo: nat, ghost hi: nat)
    requires Flattened(blocks, flat, size) && lo <= hi < |flat|
    requires AtIndex(first, lo, size) && AtIndex(last, hi, size)
    requires forall k :: lo <= k < hi ==> !flat[k].Raw?
    modifies blocks
    ensures Flattened(blocks, Patched(flat, lo, Raws(hi - lo)), size)
  {
    hide Flattened, Patched, AtIndex;
    FlatSize(blocks, flat, size);
    var it := first;
    ghost var k := lo;
    PatchNothing(flat, lo);
    assert Raws<T>(0) == [];
    SameIter(it, k, last, hi, size);
    while it != last
      invariant lo <= k <= hi && AtIndex(it, k, size) && (it == last <==> k == hi)
      invariant Flattened(blocks, Patched(flat, lo, Raws(k - lo)), size)
      decreases hi - k
    {
      InMap(it, k, size, |blocks|);
      PatchMore(flat, lo, Raws(k - lo), Slot<T>.Raw);
      DestroyIn(blocks, it, size, Patched(flat, lo, Raws(k - lo)), k);
      assert Raws(k - lo) + [Slot<T>.Raw] == Raws(k + 1 - lo);
      IterIn(it, k, size);
      it := Succ(it, size, |blocks|);
      k := k + 1;
      SameIter(it, k, last, hi, size);
    }
  }

  lemma FlatSize<T>(blocks: seq<array<Slot<T>>>, flat: seq<Slot<T>>, size: nat)
    requires Flattened(blocks, flat, size)
    ensures |flat| == |blocks| * size
  {
  }

  lemma IterIn(it: Iter, k: nat, size: nat)
    requires AtIndex(it, k, size)
    ensures 0 <= it.offset < size && it.block >= 0
  {
  }

  /** alloc_range_construct */
  method ConstructBlocks<T>(blocks: seq<array<Slot<T>>>, first: Iter, vs: seq<T>, size: nat, ghost flat: seq<Slot<T>>,
                            ghost lo: nat)
    returns (it: Iter)
    requires Flattened(blocks, flat, size) && lo + |vs| < |flat| && AtIndex(first, lo, size)
    requires forall k :: lo <= k < lo + |vs| ==> flat[k].Raw?
    modifies blocks
    ensures Flattened(blocks, Patched(flat, lo, Holding(vs)), size) && AtIndex(it, lo + |vs|, size)
  {
    hide Flattened, Patched, AtIndex;
    FlatSize(blocks, flat, size);
    it := first;
    var i := 0;
    PatchNothing(flat, lo);
    assert Holding<T>([]) == [] && vs[..0] == [];
    while i != |vs|
      invariant i <= |vs| && AtIndex(it, lo + i, size)
      invariant Flattened(blocks, Patched(flat, lo, Holding(vs[..i])), size)
    {
      InMap(it, lo + i, size, |blocks|);
      PatchMore(flat, lo, Holding(vs[..i]), Live(vs[i]));
      ConstructIn(blocks, it, vs[i], size, Patched(flat, lo, Holding(vs[..i])), lo + i);
      assert Holding(vs[..i]) + [Live(vs[i])] == Holding(vs[..i + 1]);
      IterIn(it, lo + i, size);
      it := Succ(it, size, |blocks|);
      i := i + 1;
    }
    assert vs[..i] == vs;
  }

  /** range_assign */
  method AssignBlocks<T>(blocks: seq<array<Slot<T>>>, first: Iter, vs: seq<T>, size: nat, ghost flat: seq<Slot<T>>,
                         ghost lo: nat)
    requires Flattened(blocks, flat, size) && lo + |vs| < |flat| && AtIndex(first, lo, size)
    requires forall k :: lo <= k < lo + |vs| ==> !flat[k].Raw?
    modifies blocks
    ensures Flattened(blocks, Patched(flat, lo, Holding(vs)), size)
  {
    hide Flattened, Patched, AtIndex;
    FlatSize(blocks, flat, size);
    var it, i := first, 0;
    PatchNothing(flat, lo);
    assert Holding<T>([]) == [] && vs[..0] == [];
    while i != |vs|
      invariant i <= |vs| && AtIndex(it, lo + i, size)
      invariant Flattened(blocks, Patched(flat, lo, Holding(vs[..i])), size)
    {
      InMap(it, lo + i, size, |blocks|);
      PatchMore(flat, lo, Holding(vs[..i]), Live(vs[i]));
      AssignIn(blocks, it, vs[i], size, Patched(flat, lo, Holding(vs[..i])), lo + i);
      assert Holding(vs[..i]) + [Live(vs[i])] == Holding(vs[..i + 1]);
      IterIn(it, lo + i, size);
      it := Succ(it, size, |blocks|);
      i := i + 1;
    }
    assert vs[..i] == vs;
  }

  /** move */
  method MoveForwardBlocks<T>(blocks: seq<array<Slot<T>>>, first: Iter, last: Iter, dFirst: Iter, size: nat,
                              ghost flat: seq<Slot<T>>, ghost lo: nat, ghost hi: nat, ghost d: nat)
    returns (it: Iter)
    requires Flattened(blocks, flat, size) && d < lo <= hi < |flat|
    requires AtIndex(first, lo, size) && AtIndex(last, hi, size) && AtIndex(dFirst, d, size)
    requires forall k :: d <= k < hi ==> flat[k].Live?
    modifies blocks
    ensures Flattened(blocks, MovedDown(flat, lo, d, hi - lo), size) && AtIndex(it, d + (hi - lo), size)
  {
    hide Flattened, MovedDown, AtIndex;
    FlatSize(blocks, flat, size);
    var src := first;
    ghost var i := 0;
    it := dFirst;
    MovedDownStart(flat, lo, d);
    SameIter(src, lo, last, hi, size);
    while src != last
      invariant lo + i <= hi && AtIndex(src, lo + i, size) && AtIndex(it, d + i, size) && (src == last <==> lo + i == hi)
      invariant Flattened(blocks, MovedDown(flat, lo, d, i), size)
      decreases hi - i
    {
      InMap(src, lo + i, size, |blocks|);
      InMap(it, d + i, size, |blocks|);
      IterIn(src, lo + i, size);
      IterIn(it, d + i, size);
      MovedDownStep(flat, lo, d, i);
      MoveAssignIn(blocks, it, src, size, MovedDown(flat, lo, d, i), d + i, lo + i);
      src := Succ(src, size, |blocks|);
      it := Succ(it, size, |blocks|);
      i := i + 1;
      SameIter(src, lo + i, last, hi, size);
    }
  }

  /** move_backward */
  method MoveBackwardBlocks<T>(blocks: seq<array<Slot<T>>>, first: Iter, last: Iter, dLast: Iter, size: nat,
                               ghost flat: seq<Slot<T>>, ghost lo: nat, ghost hi: nat, ghost d: nat)
    requires Flattened(blocks, flat, size) && lo <= hi < d < |flat|
    requires AtIndex(first, lo, size) && AtIndex(last, hi, size) && AtIndex(dLast, d, size)
    requires forall k :: lo <= k < d ==> flat[k].Live?
    modifies blocks
    ensures Flattened(blocks, MovedUp(flat, hi, d, hi - lo), size)
  {
    hide Flattened, MovedUp, AtIndex;
    FlatSize(blocks, flat, size);
    var src, it := last, dLast;
    ghost var i := 0;
    MovedUpStart(flat, hi, d);
    SameIter(src, hi, first, lo, size);
    while src != first
      invariant lo + i <= hi && AtIndex(src, hi - i, size) && AtIndex(it, d - i, size) && (src == first <==> lo + i == hi)
      invariant Flattened(blocks, MovedUp(flat, hi, d, i), size)
      decreases hi - i
    {
      InMap(src, hi - i, size, |blocks|);
      InMap(it, d - i, size, |blocks|);
      IterIn(src, hi - i, size);
      IterIn(it, d - i, size);
      MovedUpStep(flat, hi, d, i);
      src := Pred(src, size, |blocks|);
      it := Pred(it, size, |blocks|);
      MoveAssignIn(blocks, it, src, size, MovedUp(flat, hi, d, i), d - i - 1, hi - i - 1);
      i := i + 1;
      SameIter(src, hi - i, first, lo, size);
    }
  }

  /** rotate */
  method RotateBlocks<T>(blocks: seq<array<Slot<T>>>, first: Iter, middle: Iter, last: Iter, size: nat,
                         ghost flat: seq<Slot<T>>, ghost lo: nat, ghost mid: nat, ghost hi: nat)
    requires Flattened(blocks, flat, size) && lo <= mid <= hi < |flat|
    requires AtIndex(first, lo, size) && AtIndex(middle, mid, size) && AtIndex(last, hi, size)
    requires forall k :: lo <= k < hi ==> flat[k].Live?
    modifies blocks
    ensures Flattened(blocks, Patched(flat, lo, flat[mid..hi] + flat[lo..mid]), size)
    decreases hi - lo
  {
    hide Flattened, Patched, AtIndex, RotatingIn;
    FlatSize(blocks, flat, size);
    SameIter(first, lo, middle, mid, size);
    SameIter(middle, mid, last, hi, size);
    RotatedTrivially(flat, lo, mid, hi);
    if first == middle || middle == last {
      return;
    }
    var write, nextRead, read := first, first, middle;
    ghost var u, w, n, r := flat, lo, lo, mid;
    RotatingInStart(flat, lo, mid, hi);
    while read != last
      invariant lo <= w <= n <= r <= hi && mid <= r && r - w == mid - lo && (read == last <==> r == hi)
      invariant AtIndex(write, w, size) && AtIndex(nextRead, n, size) && AtIndex(read, r, size)
      invariant |u| == |flat| && Flattened(blocks, u, size) && RotatingIn(u, flat, lo, w, n, r, hi, mid)
      decreases hi - r
    {
      SameIter(write, w, nextRead, n, size);
      InMap(read, r, size, |blocks|);
      InMap(write, w, size, |blocks|);
      IterIn(read, r, size);
      IterIn(write, w, size);
      RotatingInStep(u, flat, lo, w, n, r, hi, mid);
      if write == nextRead {
        nextRead := read;
        n := r;
      }
      SwapIn(blocks, write, read, size, u, w, r);
      u := u[w := u[r]][r := u[w]];
      write := Succ(write, size, |blocks|);
      read := Succ(read, size, |blocks|);
      w, r := w + 1, r + 1;
      SameIter(read, r, last, hi, size);
    }
    RotatingInEnd(u, flat, lo, w, n, hi, mid);
    RotateBlocks(blocks, write, nextRead, last, size, u, w, n, hi);
  }

  // Blocks that come and go at the ends of the map.

  lemma BlockOfConcat<X>(f: seq<X>, g: seq<X>, b: nat, size: nat, count: nat)
    requires |f| == count * size
    ensures b < count ==> Block(f + g, b, size) == Block(f, b, size)
    ensures b >= count ==> Block(f + g, b, size) == Block(g, b - count, size)
  {
    if b < count {
      BlockBounds(b, count, size);
    } else {
      assert (b - count) * size == b * size - count * size;
      MulMono(count, b, size);
    }
  }

  lemma BlockWhole<X>(f: seq<X>)
    ensures Block(f, 0, |f|) == f
  {
  }

  ghost predicate DistinctMaps<T>(a: seq<array<Slot<T>>>, b: seq<array<Slot<T>>>) {
    forall i, j :: 0 <= i < |a| && 0 <= j < |b| ==> a[i] != b[j]
  }

  /** The blocks of two maps, one map after the other. */
  lemma FlattenedJoin<T>(a: seq<array<Slot<T>>>, f: seq<Slot<T>>, b: seq<array<Slot<T>>>, g: seq<Slot<T>>, size: nat)
    requires Flattened(a, f, size) && Flattened(b, g, size) && DistinctMaps(a, b)
    ensures Flattened(a + b, f + g, size)
  {
    hide Block;
    var c := a + b;
    forall k: nat | k < |c| ensures c[k][..] == Block(f + g, k, size) {
      BlockOfConcat(f, g, k, size, |a|);
    }
  }

  lemma FlattenedSplit<T>(a: seq<array<Slot<T>>>, f: seq<Slot<T>>, b: seq<array<Slot<T>>>, g: seq<Slot<T>>, size: nat)
    requires Flattened(a + b, f + g, size) && |f| == |a| * size
    ensures Flattened(a, f, size) && Flattened(b, g, size) && DistinctMaps(a, b)
  {
    hide Block;
    var c := a + b;
    forall k: nat | k < |a| ensures a[k][..] == Block(f, k, size) && a[k].Length == size {
      assert c[k] == a[k];
      BlockOfConcat(f, g, k, size, |a|);
    }
    forall k: nat | k < |b| ensures b[k][..] == Block(g, k, size) && b[k].Length == size {
      assert c[|a| + k] == b[k];
      BlockOfConcat(f, g, |a| + k, size, |a|);
    }
    forall i: nat, j: nat | i < j < |a| ensures a[i] != a[j] { assert c[i] != c[j]; }
    forall i: nat, j: nat | i < j < |b| ensures b[i] != b[j] { assert c[|a| + i] != c[|a| + j]; }
    forall i: nat, j: nat | i < |a| && j < |b| ensures a[i] != b[j] { assert c[i] != c[|a| + j]; }
  }

  lemma FlattenedOne<T>(block: array<Slot<T>>, size: nat)
    requires block.Length == size
    ensures Flattened([block], block[..], size)
  {
    BlockWhole(block[..]);
  }
}
