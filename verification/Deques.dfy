/** A queue in a sequence of equal blocks, which move from one end to the other when they are empty. */
module Deques {
  import opened Arithmetic
  import opened Sequences
  import opened Slots
  import opened Rings
  import opened DequeBlocks

  // Values with raw memory on both sides.

  ghost function Padded<T>(c: seq<T>, front: nat, total: nat): (v: seq<Slot<T>>)
    requires front + |c| <= total
    ensures |v| == total
    ensures forall k :: front <= k < front + |c| ==> v[k] == Live(c[k - front])
    ensures forall k :: 0 <= k < front || front + |c| <= k < total ==> v[k] == Raw
  {
    Raws(front) + Holding(c) + Raws(total - front - |c|)
  }

  lemma PaddedAppend<T>(c: seq<T>, vs: seq<T>, f: nat, n: nat)
    requires f + |c| + |vs| <= n
    ensures Patched(Padded(c, f, n), f + |c|, Holding(vs)) == Padded(c + vs, f, n)
  {
  }

  lemma PaddedPrepend<T>(c: seq<T>, vs: seq<T>, f: nat, n: nat)
    requires |vs| <= f && f + |c| <= n
    ensures Patched(Padded(c, f, n), f - |vs|, Holding(vs)) == Padded(vs + c, f - |vs|, n)
  {
  }

  lemma PaddedDrop<T>(c: seq<T>, k: nat, f: nat, n: nat)
    requires k <= |c| && f + |c| <= n
    ensures Patched(Padded(c, f, n), f + k, Raws(|c| - k)) == Padded(c[..k], f, n)
  {
  }

  lemma PaddedSkip<T>(c: seq<T>, k: nat, f: nat, n: nat)
    requires k <= |c| && f + |c| <= n
    ensures Patched(Padded(c, f, n), f, Raws(k)) == Padded(c[k..], f + k, n)
  {
  }

  lemma PaddedPieces<T>(a: seq<T>, x: seq<T>, y: seq<T>, b: seq<T>, f: nat, n: nat)
    requires f + |a + x + y + b| <= n
    ensures Padded(a + x + y + b, f, n)
         == (Raws(f) + Holding(a)) + Holding(x) + Holding(y) + (Holding(b) + Raws(n - f - |a + x + y + b|))
  {
    HoldingJoined(a, x);
    HoldingJoined(a + x, y);
    HoldingJoined(a + x + y, b);
    hide Holding, Raws;
  }

  lemma ExchangePieces<X>(p: seq<X>, x: seq<X>, y: seq<X>, q: seq<X>)
    ensures var v, i, j, k := p + x + y + q, |p|, |p| + |x|, |p| + |x| + |y|;
      Patched(v, i, v[j..k] + v[i..j]) == p + y + x + q
  {
  }

  lemma PieceLengths<T>(f: nat, a: seq<T>, x: seq<T>, y: seq<T>)
    ensures |Raws<T>(f) + Holding(a)| == f + |a| && |Holding(x)| == |x| && |Holding(y)| == |y|
  {
  }

  lemma PaddedExchange<T>(a: seq<T>, x: seq<T>, y: seq<T>, b: seq<T>, f: nat, n: nat)
    requires f + |a| + |x| + |y| + |b| <= n
    ensures var v, i, j, k := Padded(a + x + y + b, f, n), f + |a|, f + |a| + |x|, f + |a| + |x| + |y|;
      Patched(v, i, v[j..k] + v[i..j]) == Padded(a + y + x + b, f, n)
  {
    hide *;
    var m := |a + x + y + b|;
    assert m == |a + y + x + b| == |a| + |x| + |y| + |b|;
    var p, q := Raws<T>(f) + Holding(a), Holding(b) + Raws(n - f - m);
    PieceLengths(f, a, x, y);
    PaddedPieces(a, x, y, b, f, n);
    PaddedPieces(a, y, x, b, f, n);
    ExchangePieces(p, Holding(x), Holding(y), q);
  }

  lemma PaddedRotate<T>(c: seq<T>, lo: nat, mid: nat, hi: nat, f: nat, n: nat)
    requires lo <= mid <= hi <= |c| && f + |c| <= n
    ensures var v := Padded(c, f, n);
      Patched(v, f + lo, v[f + mid..f + hi] + v[f + lo..f + mid])
      == Padded(c[..lo] + c[mid..hi] + c[lo..mid] + c[hi..], f, n)
  {
    hide *;
    var a, x, y, b := c[..lo], c[lo..mid], c[mid..hi], c[hi..];
    FourPieces(c, lo, mid, hi);
    PaddedExchange(a, x, y, b, f, n);
  }

  lemma PaddedThree<T>(a: seq<T>, x: seq<T>, b: seq<T>, f: nat, n: nat)
    requires f + |a| + |x| + |b| <= n
    ensures |Holding(a)| == |a| && |Holding(x)| == |x| && |Holding(b)| == |b| && |Raws<T>(f)| == f
    ensures Padded(a + x + b, f, n)
         == Raws(f) + Holding(a) + Holding(x) + (Holding(b) + Raws(n - f - |a| - |x| - |b|))
  {
    HoldingJoined(a, x);
    HoldingJoined(a + x, b);
    RawsJoined<T>(f, 0);
    hide Holding, Raws;
  }

  lemma PaddedTwo<T>(a: seq<T>, b: seq<T>, f: nat, g: nat, e: nat, h: nat)
    ensures Padded(a + b, f + g, f + g + |a| + |b| + e + h)
         == Raws(f) + Raws(g) + Holding(a) + (Holding(b) + (Raws(e) + Raws(h)))
  {
    HoldingJoined(a, b);
    RawsJoined<T>(f, g);
    RawsJoined<T>(e, h);
    hide Holding, Raws;
  }

  lemma PaddedClosedUp<T>(a: seq<T>, x: seq<T>, b: seq<T>, f: nat, n: nat)
    requires f + |a| + |x| + |b| <= n && x != []
    ensures var hi := f + |a|;
      Patched(MovedUp(Padded(a + x + b, f, n), hi, hi + |x|, |a|), f, Raws(|x|)) == Padded(a + b, f + |x|, n)
  {
    hide *;
    var rest := n - f - |a| - |x| - |b|;
    PaddedThree(a, x, b, f, n);
    PaddedTwo(a, b, f, |x|, rest, 0);
    RawsJoined<T>(|x|, 0);
    RawsJoined<T>(rest, 0);
    ClosedUp(Raws(f), Holding(a), Holding(x), Holding(b) + Raws(rest), Raws(|x|));
  }

  lemma PaddedCloseUp<T>(c: seq<T>, i: nat, j: nat, f: nat, n: nat)
    requires i < j <= |c| && f + |c| <= n
    ensures var u := MovedUp(Padded(c, f, n), f + i, f + j, i);
      && (forall k :: f <= k < f + (j - i) ==> !u[k].Raw?)
      && Patched(u, f, Raws(j - i)) == Padded(c[..i] + c[j..], f + (j - i), n)
  {
    hide *;
    ThreePieces(c, i, j);
    PaddedClosedUp(c[..i], c[i..j], c[j..], f, n);
    LeftBehind(Padded(c, f, n), f, f + i, f + j);
  }

  lemma PaddedClosedDown<T>(a: seq<T>, x: seq<T>, b: seq<T>, f: nat, n: nat)
    requires f + |a| + |x| + |b| <= n && x != []
    ensures var d := f + |a|;
      Patched(MovedDown(Padded(a + x + b, f, n), d + |x|, d, |b|), d + |b|, Raws(|x|)) == Padded(a + b, f, n)
  {
    hide *;
    var rest := n - f - |a| - |x| - |b|;
    var r, m := Raws(f) + Holding(a), Raws<T>(|x|);
    PaddedThree(a, x, b, f, n);
    PaddedTwo(a, b, f, 0, |x|, rest);
    RawsJoined<T>(f, 0);
    RawsJoined<T>(|x|, rest);
    ClosedDown(r, Holding(x), Holding(b), Raws(rest), m);
    RegroupedEnds(r, Holding(x), Holding(b), m, Raws(rest));
  }

  lemma RegroupedEnds<X>(r: seq<X>, x: seq<X>, b: seq<X>, m: seq<X>, e: seq<X>)
    ensures r + x + b + e == r + x + (b + e) && r + b + m + e == r + (b + (m + e))
  {
  }

  lemma PaddedCloseDown<T>(c: seq<T>, i: nat, j: nat, f: nat, n: nat)
    requires i < j <= |c| && f + |c| <= n
    ensures var u := MovedDown(Padded(c, f, n), f + j, f + i, |c| - j);
      && (forall k :: f + |c| - (j - i) <= k < f + |c| ==> !u[k].Raw?)
      && Patched(u, f + |c| - (j - i), Raws(j - i)) == Padded(c[..i] + c[j..], f, n)
  {
    hide *;
    ThreePieces(c, i, j);
    PaddedClosedDown(c[..i], c[i..j], c[j..], f, n);
    LeftAbove(Padded(c, f, n), f + i, f + j, f + |c|);
  }

  lemma PaddedOverwrite<T>(c: seq<T>, vs: seq<T>, f: nat, n: nat)
    requires |vs| == |c| && f + |c| <= n
    ensures Patched(Padded(c, f, n), f, Holding(vs)) == Padded(vs, f, n)
  {
  }

  lemma SplicedFront<T>(c: seq<T>, vs: seq<T>, i: nat)
    requires i <= |c|
    ensures var s, m := vs + c, |vs|; s[..0] + s[m..m + i] + s[0..m] + s[m + i..] == c[..i] + vs + c[i..]
  {
  }

  lemma SplicedBack<T>(c: seq<T>, vs: seq<T>, i: nat)
    requires i <= |c|
    ensures var s, n, m := c + vs, |c|, |vs|; s[..i] + s[n..n + m] + s[i..n] + s[n + m..] == c[..i] + vs + c[i..]
  {
  }

  /** What a block that goes, comes or changes ends does to the whole. */
  lemma PaddedBlocks<T>(c: seq<T>, f: nat, n: nat, b: nat)
    requires f + |c| <= n
    ensures Raws(b) + Padded(c, f, n) == Padded(c, f + b, n + b)
    ensures Padded(c, f, n) + Raws(b) == Padded(c, f, n + b)
    ensures b <= f ==> Padded(c, f, n)[..b] == Raws(b) && Padded(c, f, n)[b..] == Padded(c, f - b, n - b)
    ensures f + |c| + b <= n ==> Padded(c, f, n)[n - b..] == Raws(b) && Padded(c, f, n)[..n - b] == Padded(c, f, n - b)
  {
  }

  ghost function Elements<T>(s: seq<array<Slot<T>>>): set<array<Slot<T>>> {
    set b | b in s
  }

  lemma PaddedHead<T>(c: seq<T>, f: nat, n: nat, b: nat)
    requires b <= f && f + |c| <= n
    ensures Padded(c, f, n)[..b] == Raws(b) && Padded(c, f, n)[b..] == Padded(c, f - b, n - b)
  {
  }

  lemma PaddedTail<T>(c: seq<T>, f: nat, n: nat, b: nat)
    requires f + |c| + b <= n
    ensures Padded(c, f, n)[n - b..] == Raws(b) && Padded(c, f, n)[..n - b] == Padded(c, f, n - b)
  {
  }

  lemma ElementsSuffix<T>(s: seq<array<Slot<T>>>, m: nat)
    requires m <= |s|
    ensures Elements(s[m..]) <= Elements(s)
  {
  }

  lemma ElementsPrefix<T>(s: seq<array<Slot<T>>>, m: nat)
    requires m <= |s|
    ensures Elements(s[..m]) <= Elements(s)
  {
  }

  lemma ElementsConcat<T>(a: seq<array<Slot<T>>>, b: seq<array<Slot<T>>>)
    ensures Elements(a + b) == Elements(a) + Elements(b)
  {
  }

  /** The first spare in front, for count values, that a deque without blocks gets: the offset behind
      it and the slots there are. */
  function FirstFront(blockSize: nat, count: nat): (nat, nat)
    requires blockSize > 0
  {
    var n := count / blockSize + 1;
    if n == 1 then (Max(blockSize / 2, count + 1), blockSize) else (n * blockSize, n * blockSize)
  }

  /** Only if a block has room for one more value and the end is there a slot at the offset: for the
      one value that is put in front, a block needs three slots. */
  lemma SmallestBlock(blockSize: nat, count: nat)
    requires blockSize > 0
    ensures var (offset, total) := FirstFront(blockSize, count);
      count < offset <= total && (offset < total <==> count + 1 < blockSize)
    ensures var (offset, total) := FirstFront(blockSize, 1); offset < total <==> blockSize >= 3
  {
    FrontFits(blockSize, count);
    FrontFits(blockSize, 1);
    hide *;
  }

  lemma FrontFits(blockSize: nat, count: nat)
    requires blockSize > 0
    ensures var (offset, total) := FirstFront(blockSize, count);
      count < offset <= total && (offset < total <==> count + 1 < blockSize)
  {
    var q := count / blockSize;
    assert count == q * blockSize + count % blockSize;
    assert (q + 1) * blockSize == q * blockSize + blockSize;
    assert q == 0 <==> count < blockSize;
    DivUnique(blockSize, 2, blockSize / 2, blockSize % 2);
  }

  /** An end that lacks missing slots gains whole blocks, no more than it needs: the slots moved over from the other
      end and the blocks that are new. Blocks are made only when less than a block is left at the other end. */
  ghost predicate Supplied(blockSize: nat, missing: int, moved: int, made: nat, left: int)
    requires blockSize > 0
  {
    && moved >= 0 && moved % blockSize == 0
    && (if missing <= 0 then moved == 0 && made == 0
        else missing <= moved + made * blockSize < missing + blockSize)
    && (made > 0 ==> left < blockSize)
  }

  /** For one slot that is missing one block moves or one is made. */
  lemma OneSupplied(b: nat, missing: int, moved: int, made: nat, left: int)
    requires b > 0 && 1 <= missing <= 2 && Supplied(b, missing, moved, made, left)
    ensures missing == 1 ==> (moved == b && made == 0) || (moved == 0 && made == 1 && left < b)
    ensures moved == 0 && missing == 2 ==> made * b <= b + 1
  {
    MulMono(2, made, b);
    MulMono(made, 0, b);
    if moved > 0 && moved < b {
      DivUnique(moved, b, 0, moved);
    }
  }

  /** Whichever end lacks a slot, new blocks come to less than two blocks of slots without values. */
  lemma RoomBound(b: nat, blocks: nat, missing: int, moved: int, made: nat, left: int, size: nat)
    requires b > 0 && Supplied(b, missing, moved, made, left)
    requires if blocks == 0 then missing == 2 && moved <= 0 else missing == 1 && blocks * b == left + moved + size + 1
    ensures (blocks + made) * b <= Max(blocks * b, size + 2 * b)
  {
    OneSupplied(b, missing, moved, made, left);
    assert (blocks + made) * b == blocks * b + made * b;
  }

  lemma MoreBlocks(b: nat, n: nat, m: nat)
    ensures (n + m) * b == n * b + m * b
  {
  }

  lemma ApartSize<X>(s: set<X>, a: set<X>, b: set<X>)
    requires a !! b
    ensures |a + b| == |a| + |b| && s + a + b == s + (a + b)
  {
  }

  class Deque<T> {
    var blocks: seq<array<Slot<T>>>
    var beginOffset: nat
    var size: nat
    const blockSize: nat
    /** What the blocks hold, seen as one sequence. */
    ghost var flat: seq<Slot<T>>

    /** The values lie in raw memory, with a slot to spare behind them. */
    ghost predicate Valid()
      reads this, blocks
    {
      && blockSize > 0 && Flattened(blocks, flat, blockSize)
      && (if blocks == [] then beginOffset == size == 0 else beginOffset + size < |flat|)
      && AllRaw(flat[..beginOffset]) && AllLive(flat[beginOffset..beginOffset + size])
      && AllRaw(flat[beginOffset + size..])
    }

    ghost function Contents(): seq<T>
      requires Valid()
      reads this, blocks
    {
      Values(flat[beginOffset..beginOffset + size])
    }

    lemma FlatIs()
      requires Valid()
      ensures |Contents()| == size && beginOffset + size <= |flat| == |blocks| * blockSize && blockSize > 0
      ensures flat == Padded(Contents(), beginOffset, |flat|)
      ensures Flattened(blocks, flat, blockSize)
      ensures if blocks == [] then beginOffset == size == 0 && |flat| == 0 else beginOffset + size < |flat|
    {
    }

    lemma FromFlat(c: seq<T>)
      requires blockSize > 0 && Flattened(blocks, flat, blockSize) && size == |c|
      requires if blocks == [] then beginOffset == size == 0 else beginOffset + size < |flat|
      requires flat == Padded(c, beginOffset, |flat|)
      ensures Valid() && Contents() == c
    {
    }

    constructor (blockSize: nat)
      requires blockSize > 0
      ensures Valid() && Contents() == [] && blocks == [] && this.blockSize == blockSize
    {
      this.blockSize := blockSize;
      blocks, beginOffset, size, flat := [], 0, 0, [];
    }

    function Capacity(): int
      reads this
    {
      if blocks == [] then 0 else |blocks| * blockSize - 1
    }

    function FrontSpare(): nat
      reads this
    {
      beginOffset
    }

    function BackSpare(): int
      reads this
    {
      Capacity() - FrontSpare() - size
    }

    /** The blocks hold c after beginOffset raw slots. */
    ghost predicate Laid(c: seq<T>)
      reads this, blocks
    {
      && blockSize > 0 && Flattened(blocks, flat, blockSize) && size == |c|
      && beginOffset + size <= |flat| && flat == Padded(c, beginOffset, |flat|)
    }

    ghost function BlockSet(): set<array<Slot<T>>>
      reads this
    {
      Elements(blocks)
    }

    // Blocks that come, go and change ends.

    /** The first block and the others, and the last one and the others. */
    lemma SplitEnds(c: seq<T>)
      requires Laid(c) && blocks != []
      ensures |flat| == |blocks| * blockSize >= blockSize
      ensures Flattened([blocks[0]], flat[..blockSize], blockSize)
      ensures Flattened(blocks[1..], flat[blockSize..], blockSize) && DistinctMaps([blocks[0]], blocks[1..])
      ensures var m := |blocks| - 1; var k := |flat| - blockSize;
        && Flattened(blocks[..m], flat[..k], blockSize) && Flattened([blocks[m]], flat[k..], blockSize)
        && DistinctMaps(blocks[..m], [blocks[m]])
    {
      LaidIs(c);
      hide *;
      var m, k := |blocks| - 1, |flat| - blockSize;
      FlatSize(blocks, flat, blockSize);
      MulMono(1, |blocks|, blockSize);
      OneBlockMore(m);
      CutBlocks(1, blockSize);
      CutBlocks(m, k);
      assert blocks[..1] == [blocks[0]] && blocks[m..] == [blocks[m]];
    }

    lemma CutBlocks(m: nat, k: nat)
      requires Flattened(blocks, flat, blockSize) && m <= |blocks| && k <= |flat| && k == m * blockSize
      ensures Flattened(blocks[..m], flat[..k], blockSize) && Flattened(blocks[m..], flat[k..], blockSize)
      ensures DistinctMaps(blocks[..m], blocks[m..])
    {
      hide *;
      assert blocks[..m] + blocks[m..] == blocks && flat[..k] + flat[k..] == flat;
      FlattenedSplit(blocks[..m], flat[..k], blocks[m..], flat[k..], blockSize);
    }

    lemma DistinctBoth(a: seq<array<Slot<T>>>, b: seq<array<Slot<T>>>)
      requires DistinctMaps(a, b)
      ensures DistinctMaps(b, a)
    {
    }

    method MoveLastToFront(ghost c: seq<T>)
      requires Laid(c) && blocks != [] && beginOffset + size + blockSize <= |flat|
      modifies `blocks, `flat, `beginOffset
      ensures Laid(c) && |blocks| == old(|blocks|) && BlockSet() == old(BlockSet())
      ensures beginOffset == old(beginOffset) + blockSize
    {
      hide Padded, Flattened, DistinctMaps, Block, Elements;
      SplitEnds(c);
      var m := |blocks| - 1;
      var block := blocks[m];
      ghost var k := |flat| - blockSize;
      DistinctBoth(blocks[..m], [block]);
      FlattenedJoin([block], flat[k..], blocks[..m], flat[..k], blockSize);
      PaddedBlocks(c, beginOffset, |flat|, blockSize);
      PaddedBlocks(c, beginOffset, k, blockSize);
      ElementsConcat([block], blocks[..m]);
      ElementsConcat(blocks[..m], [block]);
      assert blocks[..m] + [block] == blocks;
      flat := flat[k..] + flat[..k];
      blocks := blocks[..m];
      blocks := [block] + blocks;
      beginOffset := beginOffset + blockSize;
    }

    method MoveFirstToBack(ghost c: seq<T>)
      requires Laid(c) && blocks != [] && blockSize <= beginOffset
      modifies `blocks, `flat, `beginOffset
      ensures Laid(c) && |blocks| == old(|blocks|) && BlockSet() == old(BlockSet())
      ensures beginOffset == old(beginOffset) - blockSize
    {
      hide Padded, Flattened, DistinctMaps, Block, Elements;
      SplitEnds(c);
      var block := blocks[0];
      ghost var rest, n := flat[blockSize..], |flat|;
      DistinctBoth([block], blocks[1..]);
      FlattenedJoin(blocks[1..], rest, [block], flat[..blockSize], blockSize);
      PaddedBlocks(c, beginOffset, n, blockSize);
      PaddedBlocks(c, beginOffset - blockSize, n - blockSize, blockSize);
      ElementsConcat([block], blocks[1..]);
      ElementsConcat(blocks[1..], [block]);
      assert [block] + blocks[1..] == blocks;
      flat := rest + flat[..blockSize];
      blocks := blocks[1..];
      beginOffset := beginOffset - blockSize;
      blocks := blocks + [block];
    }

    static method AllocateBlock(size: nat) returns (block: array<Slot<T>>)
      ensures fresh(block) && block.Length == size && block[..] == Raws(size)
    {
      block := new Slot<T>[size](_ => Raw);
    }

    method PushFrontBlock(ghost c: seq<T>) returns (ghost added: set<array<Slot<T>>>)
      requires Laid(c)
      modifies `blocks, `flat, `beginOffset
      ensures Laid(c) && |blocks| == old(|blocks|) + 1 && |flat| == old(|flat|) + blockSize
      ensures beginOffset == old(beginOffset) + blockSize
      ensures fresh(added) && |added| == 1 && BlockSet() == old(BlockSet()) + added
    {
      hide Padded, Flattened, DistinctMaps, Block;
      var block := AllocateBlock(blockSize);
      FlattenedOne(block, blockSize);
      NewBlock(block);
      FlattenedJoin([block], block[..], blocks, flat, blockSize);
      PaddedBlocks(c, beginOffset, |flat|, blockSize);
      ElementsConcat([block], blocks);
      added := {block};
      blocks := [block] + blocks;
      flat := block[..] + flat;
      beginOffset := beginOffset + blockSize;
    }

    method PushBackBlock(ghost c: seq<T>) returns (ghost added: set<array<Slot<T>>>)
      requires Laid(c)
      modifies `blocks, `flat
      ensures Laid(c) && |blocks| == old(|blocks|) + 1 && |flat| == old(|flat|) + blockSize
      ensures fresh(added) && |added| == 1 && BlockSet() == old(BlockSet()) + added
    {
      hide Padded, Flattened, DistinctMaps, Block;
      var block := AllocateBlock(blockSize);
      FlattenedOne(block, blockSize);
      NewBlock(block);
      FlattenedJoin(blocks, flat, [block], block[..], blockSize);
      PaddedBlocks(c, beginOffset, |flat|, blockSize);
      ElementsConcat(blocks, [block]);
      added := {block};
      blocks := blocks + [block];
      flat := flat + block[..];
    }

    lemma NewBlock(block: array<Slot<T>>)
      requires block !in blocks
      ensures DistinctMaps([block], blocks) && DistinctMaps(blocks, [block])
    {
    }

    /** The blocks needed for d more slots. */
    function Needed(d: nat): (n: nat)
      requires d > 0 && blockSize > 0
      ensures n > 0 && d <= n * blockSize < d + blockSize
    {
      (d - 1) / blockSize + 1
    }

    lemma LaidSize(c: seq<T>)
      requires Laid(c)
      ensures |flat| == |blocks| * blockSize && size == |c| && beginOffset + size <= |flat| && blockSize > 0
      ensures blocks != [] ==> |flat| >= blockSize
      ensures |blocks| > 1 ==> |flat| >= 2 * blockSize
    {
      MulMono(1, |blocks|, blockSize);
      MulMono(2, |blocks|, blockSize);
    }

    function Span(n: nat): int {
      n * blockSize
    }

    lemma SpanCovers(missing: nat)
      requires blockSize > 0 && missing > 0
      ensures missing <= Span(Needed(missing)) < missing + blockSize
    {
    }

    lemma SpanIs(n: nat)
      ensures Span(n) == n * blockSize
    {
    }

    lemma NoSpan()
      ensures Span(0) == 0
    {
    }

    lemma SpanMore(n: nat)
      ensures Span(n + 1) == Span(n) + blockSize
    {
    }

    /** A whole number of blocks is m more than another. */
    lemma WholeBlocks(n: nat, m: nat)
      requires m <= n && blockSize > 0
      ensures n * blockSize - m * blockSize == (n - m) * blockSize && (n - m) * blockSize % blockSize == 0
    {
      DivUnique((n - m) * blockSize, blockSize, n - m, 0);
    }

    /** The map and the offset agree with the end of the last block being kept free. */
    ghost predicate EndFree()
      reads this
    {
      if blocks == [] then beginOffset == size == 0 else beginOffset + size < |flat|
    }

    lemma OneBlockMore(n: nat)
      ensures (n + 1) * blockSize == n * blockSize + blockSize
    {
    }

    /** Move up to n blocks without values from the back to the front. */
    method ReuseBackBlocks(n: nat, ghost c: seq<T>) returns (fs: nat)
      requires Laid(c) && EndFree()
      modifies `blocks, `flat, `beginOffset
      ensures Laid(c) && EndFree() && fs <= n && BlockSet() == old(BlockSet()) && |blocks| == old(|blocks|)
      ensures beginOffset + Span(fs) == old(beginOffset) + Span(n) && |flat| == old(|flat|)
      ensures blocks == [] ==> fs == n
      ensures fs > 0 && blocks != [] ==> |flat| - beginOffset - size - 1 < blockSize
    {
      hide Padded, Flattened, DistinctMaps, Block, Laid, Elements;
      LaidSize(c);
      fs := n;
      var bs := BackSpare();
      while bs >= blockSize && fs > 0
        invariant Laid(c) && EndFree() && 0 <= fs <= n && bs == BackSpare() && blockSize > 0
        invariant |flat| == |blocks| * blockSize == old(|flat|)
        invariant |blocks| == old(|blocks|) && BlockSet() == old(BlockSet())
        invariant beginOffset + Span(fs) == old(beginOffset) + Span(n) && (blocks == [] ==> fs == n)
        decreases fs
      {
        SpanMore(fs - 1);
        MoveLastToFront(c);
        LaidSize(c);
        bs := bs - blockSize;
        fs := fs - 1;
      }
    }

    /** Allocate fs blocks in front. */
    method AddFrontBlocks(n: nat, ghost c: seq<T>) returns (ghost added: set<array<Slot<T>>>)
      requires Laid(c)
      modifies `blocks, `flat, `beginOffset
      ensures Laid(c) && |blocks| == old(|blocks|) + n
      ensures fresh(added) && |added| == n && BlockSet() == old(BlockSet()) + added
      ensures beginOffset == old(beginOffset) + Span(n) && |flat| == old(|flat|) + Span(n)
    {
      hide *;
      LaidSize(c);
      added := {};
      NoSpan();
      var fs := n;
      while fs > 0
        invariant Laid(c) && 0 <= fs <= n && |blocks| == old(|blocks|) + (n - fs)
        invariant |flat| + Span(fs) == old(|flat|) + Span(n)
        invariant beginOffset + Span(fs) == old(beginOffset) + Span(n)
        invariant fresh(added) && |added| == n - fs && BlockSet() == old(BlockSet()) + added
        decreases fs
      {
        SpanMore(fs - 1);
        ghost var more := PushFrontBlock(c);
        ApartSize(old(BlockSet()), added, more);
        added := added + more;
        fs := fs - 1;
      }
    }

    /** As many blocks more in front as are needed, as many as possible of them from the back. */
    method SupplyFront(missing: nat, ghost c: seq<T>) returns (ghost added: set<array<Slot<T>>>)
      requires Laid(c) && EndFree() && missing > 0
      modifies `blocks, `flat, `beginOffset
      ensures Laid(c) && blocks != []
      ensures |blocks| == old(|blocks|) + |added| && fresh(added) && BlockSet() == old(BlockSet()) + added
      ensures beginOffset == old(beginOffset) + Span(Needed(missing))
      ensures old(blocks) == [] ==> |flat| == beginOffset
      ensures |flat| == |old(flat)| + Span(|added|) && |added| <= Needed(missing)
      ensures old(blocks) != [] ==> EndFree() && (|added| > 0 ==> |flat| - beginOffset - size - 1 < blockSize)
    {
      LaidSize(c);
      hide *;
      NoSpan();
      var n := Needed(missing);
      var fs := ReuseBackBlocks(n, c);
      added := AddFrontBlocks(fs, c);
      LaidSize(c);
    }

    /** Front spare for count slots.  A single block without values is not all spare in front. */
    method MakeFrontSpare(count: nat, ghost c: seq<T>) returns (ghost added: set<array<Slot<T>>>)
      requires Laid(c) && EndFree() && count > beginOffset
      modifies `blocks, `flat, `beginOffset
      ensures Laid(c) && blocks != []
      ensures |blocks| == old(|blocks|) + |added| && fresh(added) && BlockSet() == old(BlockSet()) + added
      ensures var n := Needed(count - old(beginOffset));
        && |flat| == |old(flat)| + Span(|added|) && |added| <= n
        && beginOffset == if old(blocks) == [] && n == 1 then Max(blockSize / 2, count) else old(beginOffset) + Span(n)
      ensures if old(blocks) == [] then |flat| == Span(Needed(count))
              else EndFree() && (|added| > 0 ==> |flat| - beginOffset - size - 1 < blockSize)
    {
      LaidSize(c);
      hide *;
      added := SupplyFront(count - beginOffset, c);
      LaidSize(c);
      FewBlocks(c);
      if |blocks| == 1 && beginOffset == blockSize && size == 0 {
        ResetOffset(Max(blockSize / 2, count), c);
      }
    }

    lemma FewBlocks(c: seq<T>)
      requires Laid(c) && blocks != []
      ensures |blocks| == 1 <==> |flat| == blockSize
      ensures Span(1) == blockSize && Span(0) == 0 && forall n: nat :: n > 1 ==> Span(n) > blockSize
    {
      MulMono(2, |blocks|, blockSize);
      forall n: nat | n > 1 ensures Span(n) > blockSize { MulMono(2, n, blockSize); }
    }

    /** Spare slots in front: blocks without values come over from the back, then new ones are made.
        A deque without blocks gets its first spare; if that fills the blocks, begin() is no slot. */
    method GetEnoughFrontSpare(count0: nat) returns (ghost added: set<array<Slot<T>>>)
      requires Valid()
      modifies `blocks, `flat, `beginOffset
      ensures Laid(old(Contents())) && blocks != []
      ensures FrontSpare() >= count0 && fresh(added) && BlockSet() == old(BlockSet()) + added
      ensures old(blocks) == [] ==> (beginOffset, |flat|) == FirstFront(blockSize, count0)
      ensures Valid() <==> old(blocks) != [] || count0 + 1 < blockSize
      ensures Valid() ==> Contents() == old(Contents())
      ensures !Valid() ==> beginOffset == |flat|
      ensures |blocks| == old(|blocks|) + |added| && |flat| == |blocks| * blockSize
      ensures old(blocks) != [] ==>
        var moved := beginOffset - old(beginOffset) - |added| * blockSize;
        Supplied(blockSize, count0 - old(beginOffset), moved, |added|, |flat| - beginOffset - size - 1)
      ensures old(blocks) == [] ==>
        && count0 + 1 <= |flat| < count0 + 1 + blockSize
        && beginOffset == if |flat| > blockSize then |flat| else Max(blockSize / 2, count0 + 1)
    {
      hide Padded, Flattened, DistinctMaps, Block, Valid, Contents, Elements, Laid, FirstFront, Supplied;
      FlatIs();
      ghost var c := Contents();
      IsLaid(c);
      SmallestBlock(blockSize, count0);
      var count := count0 + if blocks == [] then 1 else 0;
      var fs := FrontSpare();
      added := {};
      if count > fs {
        added := MakeFrontSpare(count, c);
        if old(blocks) == [] {
          FirstFrontIs(count0);
          SpanIs(Needed(count));
        } else {
          SpanIs(|added|);
          SupplyIs(count - fs, Needed(count - fs), |added|, beginOffset - old(beginOffset) - |added| * blockSize,
                   |flat| - beginOffset - size - 1);
        }
      } else {
        NothingSupplied(count - fs, |flat| - beginOffset - size - 1);
      }
      LaidSize(c);
      LaidValid(c);
    }

    lemma FirstFrontIs(count: nat)
      requires blockSize > 0
      ensures var n := Needed(count + 1);
        FirstFront(blockSize, count)
        == if n == 1 then (Max(blockSize / 2, count + 1), blockSize) else (n * blockSize, n * blockSize)
    {
    }

    lemma IsLaid(c: seq<T>)
      requires Valid() && c == Contents()
      ensures Laid(c) && EndFree()
    {
      FlatIs();
    }

    lemma LaidValid(c: seq<T>)
      requires Laid(c)
      ensures Valid() <==> EndFree()
      ensures Valid() ==> Contents() == c
    {
      if EndFree() {
        FromFlat(c);
      }
    }

    /** Without values, any offset will do. */
    method ResetOffset(offset: nat, ghost c: seq<T>)
      requires Laid(c) && size == 0 && offset <= |flat|
      modifies `beginOffset
      ensures Laid(c) && beginOffset == offset
    {
      beginOffset := offset;
      assert flat == Padded(c, offset, |flat|);
    }

    /** Move up to n blocks without values from the front to the back. */
    method ReuseFrontBlocks(n: nat, ghost c: seq<T>) returns (bs: nat)
      requires Laid(c) && EndFree()
      modifies `blocks, `flat, `beginOffset
      ensures Laid(c) && EndFree() && bs <= n && BlockSet() == old(BlockSet()) && |blocks| == old(|blocks|)
      ensures beginOffset + Span(n) == old(beginOffset) + Span(bs) && |flat| == old(|flat|)
      ensures bs > 0 ==> beginOffset < blockSize
    {
      hide Padded, Flattened, DistinctMaps, Block, Laid, Elements;
      LaidSize(c);
      bs := n;
      var fs := FrontSpare();
      while fs >= blockSize && bs > 0
        invariant Laid(c) && EndFree() && 0 <= bs <= n && fs == beginOffset && blockSize > 0
        invariant |flat| == |blocks| * blockSize == old(|flat|)
        invariant |blocks| == old(|blocks|) && BlockSet() == old(BlockSet())
        invariant beginOffset + Span(n) == old(beginOffset) + Span(bs)
        decreases bs
      {
        SpanMore(bs - 1);
        MoveFirstToBack(c);
        LaidSize(c);
        fs := fs - blockSize;
        bs := bs - 1;
      }
    }

    /** Allocate n blocks at the back. */
    method AddBackBlocks(n: nat, ghost c: seq<T>) returns (ghost added: set<array<Slot<T>>>)
      requires Laid(c)
      modifies `blocks, `flat
      ensures Laid(c) && |blocks| == old(|blocks|) + n
      ensures fresh(added) && |added| == n && BlockSet() == old(BlockSet()) + added
      ensures |flat| == old(|flat|) + Span(n)
    {
      hide *;
      LaidSize(c);
      added := {};
      NoSpan();
      var bs := n;
      while bs > 0
        invariant Laid(c) && 0 <= bs <= n && |blocks| == old(|blocks|) + (n - bs)
        invariant |flat| + Span(bs) == old(|flat|) + Span(n)
        invariant fresh(added) && |added| == n - bs && BlockSet() == old(BlockSet()) + added
        decreases bs
      {
        SpanMore(bs - 1);
        ghost var more := PushBackBlock(c);
        ApartSize(old(BlockSet()), added, more);
        added := added + more;
        bs := bs - 1;
      }
    }

    /** The arithmetic of a supply: of n blocks, needed for missing slots, fs are new. */
    lemma SupplyIs(missing: nat, n: nat, fs: nat, moved: int, left: int)
      requires blockSize > 0 && missing > 0 && n == Needed(missing) && fs <= n
      requires moved + Span(fs) == Span(n) && (fs > 0 ==> left < blockSize)
      ensures Supplied(blockSize, missing, moved, fs, left) && Span(fs) == fs * blockSize <= Span(n)
      ensures missing <= Span(n) < missing + blockSize
    {
      WholeBlocks(n, fs);
      MulMono(fs, n, blockSize);
    }

    lemma NothingSupplied(missing: int, left: int)
      requires blockSize > 0 && missing <= 0
      ensures Supplied(blockSize, missing, 0, 0, left)
    {
    }

    lemma HasBlocks(c: seq<T>)
      requires Laid(c) && beginOffset + size < |flat|
      ensures blocks != [] && EndFree()
    {
    }

    /** As many blocks more at the back as are needed, as many as possible of them from the front. */
    method SupplyBack(missing: nat, ghost c: seq<T>) returns (ghost added: set<array<Slot<T>>>)
      requires Laid(c) && EndFree() && missing > 0
      modifies `blocks, `flat, `beginOffset
      ensures Laid(c) && EndFree() && blocks != []
      ensures |blocks| == old(|blocks|) + |added| && fresh(added) && BlockSet() == old(BlockSet()) + added
      ensures |flat| - beginOffset == |old(flat)| - old(beginOffset) + Span(Needed(missing))
      ensures old(beginOffset) - beginOffset + Span(|added|) == Span(Needed(missing))
      ensures |added| <= Needed(missing) && (|added| > 0 ==> beginOffset < blockSize)
    {
      LaidSize(c);
      hide *;
      var n := Needed(missing);
      var needed := ReuseFrontBlocks(n, c);
      added := AddBackBlocks(needed, c);
      SpanCovers(missing);
      HasBlocks(c);
    }

    /** Spare slots at the back: blocks without values come over from the front, then new ones are made. */
    method GetEnoughBackSpare(count0: nat) returns (ghost added: set<array<Slot<T>>>)
      requires Valid()
      modifies `blocks, `flat, `beginOffset
      ensures Valid() && Contents() == old(Contents()) && (count0 > 0 ==> blocks != [])
      ensures BackSpare() >= count0 && fresh(added) && BlockSet() == old(BlockSet()) + added
      ensures |blocks| == old(|blocks|) + |added|
      ensures var spare := if old(blocks) == [] then -1 else |old(flat)| - old(beginOffset) - size - 1;
        Supplied(blockSize, count0 - spare, old(beginOffset) - beginOffset, |added|, beginOffset)
    {
      hide Padded, Flattened, DistinctMaps, Block, Valid, Contents, Elements, Laid, Supplied, Span, Needed;
      FlatIs();
      ghost var c := Contents();
      IsLaid(c);
      var count := count0 + if blocks == [] then 1 else 0;
      var bs := BackSpare();
      added := {};
      if count > bs {
        added := SupplyBack(count - bs, c);
        SpanCovers(count - bs);
        SupplyIs(count - bs, Needed(count - bs), |added|, old(beginOffset) - beginOffset, beginOffset);
      } else {
        NothingSupplied(count - bs, beginOffset);
      }
      LaidSize(c);
      LaidValid(c);
    }

    // Iterators.  Without blocks both are null, which the iterator at index zero stands for.

    function Begin(): Iter
      requires blockSize > 0
      reads this
    {
      Iter(beginOffset / blockSize, beginOffset % blockSize)
    }

    function End(): Iter
      requires blockSize > 0
      reads this
    {
      Iter((size + beginOffset) / blockSize, (size + beginOffset) % blockSize)
    }

    lemma Iterators()
      requires blockSize > 0
      ensures AtIndex(Begin(), beginOffset, blockSize) && AtIndex(End(), beginOffset + size, blockSize)
    {
      IterAtMeans(beginOffset, blockSize);
      IterAtMeans(size + beginOffset, blockSize);
    }

    /** The iterator n steps further. */
    lemma Stepped(it: Iter, k: nat, n: int)
      requires AtIndex(it, k, blockSize) && k + n >= 0
      ensures AtIndex(Advance(it, n, blockSize), k + n, blockSize)
    {
      AdvanceMoves(it, n, blockSize);
      var r := Advance(it, n, blockSize);
      if r.block < 0 { MulMono(r.block, -1, blockSize); }
    }

    lemma InBlockSet()
      ensures forall b <- blocks :: b in BlockSet()
    {
    }

    // At the ends.

    method AppendAll(vs: seq<T>)
      requires Valid() && blocks != [] && |vs| <= BackSpare()
      modifies `flat, `size, BlockSet()
      ensures Valid() && Contents() == old(Contents()) + vs
    {
      hide Padded, Flattened, Valid, Contents, AtIndex, Patched, Holding, Elements;
      FlatIs();
      InBlockSet();
      ghost var c := Contents();
      Iterators();
      PaddedAppend(c, vs, beginOffset, |flat|);
      var it := ConstructBlocks(blocks, End(), vs, blockSize, flat, beginOffset + size);
      flat := Patched(flat, beginOffset + size, Holding(vs));
      size := size + |vs|;
      FromFlat(c + vs);
    }

    method EmplaceBack(v: T)
      requires Valid()
      modifies this, BlockSet()
      ensures Valid() && Contents() == old(Contents()) + [v] && fresh(BlockSet() - old(BlockSet()))
      ensures |flat| <= Max(|old(flat)|, size + 2 * blockSize - 1)
    {
      hide Valid, Contents, Elements, Supplied;
      ghost var added := {};
      FlatIs();
      if BackSpare() == 0 {
        added := GetEnoughBackSpare(1);
        RoomBound(blockSize, old(|blocks|), if old(blocks) == [] then 2 else 1, old(beginOffset) - beginOffset, |added|,
                  beginOffset, old(size));
      }
      FlatIs();
      InBlockSet();
      AppendAll([v]);
      FlatIs();
    }

    method PrependAll(vs: seq<T>)
      requires Valid() && blocks != [] && |vs| <= FrontSpare()
      modifies `flat, `size, `beginOffset, BlockSet()
      ensures Valid() && Contents() == vs + old(Contents()) && beginOffset == old(beginOffset) - |vs|
    {
      hide Padded, Flattened, Valid, Contents, AtIndex, Patched, Holding, Elements;
      FlatIs();
      InBlockSet();
      ghost var c := Contents();
      Iterators();
      Stepped(Begin(), beginOffset, -|vs|);
      PaddedPrepend(c, vs, beginOffset, |flat|);
      var it := ConstructBlocks(blocks, Advance(Begin(), -|vs|, blockSize), vs, blockSize, flat, beginOffset - |vs|);
      flat := Patched(flat, beginOffset - |vs|, Holding(vs));
      size := size + |vs|;
      beginOffset := beginOffset - |vs|;
      FromFlat(vs + c);
    }

    method EmplaceFront(v: T)
      requires Valid() && (blocks == [] ==> blockSize >= 3)
      modifies this, BlockSet()
      ensures Valid() && Contents() == [v] + old(Contents()) && fresh(BlockSet() - old(BlockSet()))
      ensures |flat| <= Max(|old(flat)|, size + 2 * blockSize - 1)
    {
      hide Valid, Contents, Elements, Supplied;
      ghost var added := {};
      FlatIs();
      if FrontSpare() == 0 {
        added := GetEnoughFrontSpare(1);
        if old(blocks) != [] {
          MoreBlocks(blockSize, old(|blocks|), |added|);
          RoomBound(blockSize, old(|blocks|), 1, beginOffset - |added| * blockSize, |added|,
                    |flat| - beginOffset - size - 1, old(size));
        }
      }
      FlatIs();
      assert |flat| <= Max(|old(flat)|, old(size) + 2 * blockSize);
      ghost var slots := |flat|;
      InBlockSet();
      PrependAll([v]);
      FlatIs();
      assert |flat| == slots;
    }

    /** Destroy the values from the k-th on. */
    method DropFrom(k: nat)
      requires Valid() && k <= size
      modifies `flat, `size, BlockSet()
      ensures Valid() && Contents() == old(Contents())[..k]
    {
      hide Padded, Flattened, Valid, Contents, AtIndex, Patched, Holding, Elements;
      FlatIs();
      InBlockSet();
      ghost var c, b := Contents(), beginOffset;
      if blocks != [] {
        Iterators();
        Stepped(Begin(), b, k);
        PaddedDrop(c, k, b, |flat|);
        DestroyBlocks(blocks, Advance(Begin(), k, blockSize), End(), blockSize, flat, b + k, b + size);
        flat := Patched(flat, b + k, Raws(size - k));
        size := k;
      }
      FromFlat(c[..k]);
    }

    method PopBack()
      requires Valid() && size > 0
      modifies `flat, `size, BlockSet()
      ensures Valid() && Contents() == old(Contents())[..old(size) - 1]
    {
      hide Padded, Flattened, Valid, Contents, AtIndex, Patched, Holding, Elements;
      FlatIs();
      InBlockSet();
      ghost var c, k := Contents(), beginOffset + size;
      Iterators();
      InMap(End(), k, blockSize, |blocks|);
      IterIn(End(), k, blockSize);
      PaddedDrop(c, size - 1, beginOffset, |flat|);
      DestroyBlocks(blocks, Pred(End(), blockSize, |blocks|), End(), blockSize, flat, k - 1, k);
      flat := Patched(flat, k - 1, Raws(1));
      size := size - 1;
      FromFlat(c[..|c| - 1]);
    }

    method PopFront()
      requires Valid() && size > 0
      modifies `flat, `size, `beginOffset, BlockSet()
      ensures Valid() && Contents() == old(Contents())[1..]
    {
      hide Padded, Flattened, Valid, Contents, AtIndex, Patched, Holding, Elements;
      FlatIs();
      InBlockSet();
      ghost var c, k := Contents(), beginOffset;
      Iterators();
      InMap(Begin(), k, blockSize, |blocks|);
      IterIn(Begin(), k, blockSize);
      PaddedSkip(c, 1, k, |flat|);
      DestroyBlocks(blocks, Begin(), Succ(Begin(), blockSize, |blocks|), blockSize, flat, k, k + 1);
      flat := Patched(flat, k, Raws(1));
      size := size - 1;
      beginOffset := beginOffset + 1;
      FromFlat(c[1..]);
    }

    method Clear()
      requires Valid()
      modifies `flat, `size, BlockSet()
      ensures Valid() && Contents() == []
    {
      hide Valid, Contents;
      FlatIs();
      DropFrom(0);
    }

    // In the middle.

    /** rotate on the values themselves. */
    method RotateValues(first: Iter, middle: Iter, last: Iter, ghost lo: nat, ghost mid: nat, ghost hi: nat)
      requires Valid() && blocks != [] && lo <= mid <= hi <= size
      requires AtIndex(first, beginOffset + lo, blockSize) && AtIndex(middle, beginOffset + mid, blockSize)
      requires AtIndex(last, beginOffset + hi, blockSize)
      modifies `flat, BlockSet()
      ensures Valid()
      ensures var c := old(Contents()); Contents() == c[..lo] + c[mid..hi] + c[lo..mid] + c[hi..]
    {
      hide Padded, Flattened, Valid, Contents, AtIndex, Patched, Holding, Elements;
      FlatIs();
      InBlockSet();
      ghost var c, b := Contents(), beginOffset;
      PaddedRotate(c, lo, mid, hi, b, |flat|);
      RotateBlocks(blocks, first, middle, last, blockSize, flat, b + lo, b + mid, b + hi);
      flat := Patched(flat, b + lo, flat[b + mid..b + hi] + flat[b + lo..b + mid]);
      FromFlat(c[..lo] + c[mid..hi] + c[lo..mid] + c[hi..]);
    }

    /** Construct vs in front and exchange it with the first i values. */
    method InsertMovingLeft(i: nat, vs: seq<T>)
      requires Valid() && i <= size && blocks != [] && |vs| <= FrontSpare()
      modifies `flat, `size, `beginOffset, BlockSet()
      ensures Valid() && Contents() == old(Contents())[..i] + vs + old(Contents())[i..]
    {
      hide Valid, Contents, AtIndex, Elements;
      FlatIs();
      ghost var c, m := Contents(), |vs|;
      var oldBegin := Begin();
      Iterators();
      Stepped(oldBegin, beginOffset, i);
      PrependAll(vs);
      FlatIs();
      Iterators();
      SplicedFront(c, vs, i);
      RotateValues(Begin(), oldBegin, Advance(oldBegin, i, blockSize), 0, m, m + i);
    }

    /** Construct vs at the back and exchange it with the values from the i-th on. */
    method InsertMovingRight(i: nat, vs: seq<T>)
      requires Valid() && i <= size && blocks != [] && |vs| <= BackSpare()
      modifies `flat, `size, BlockSet()
      ensures Valid() && Contents() == old(Contents())[..i] + vs + old(Contents())[i..]
    {
      hide Valid, Contents, AtIndex, Elements;
      FlatIs();
      ghost var c, n, m := Contents(), size, |vs|;
      Iterators();
      Stepped(Begin(), beginOffset, i);
      var newPos, oldEnd := Advance(Begin(), i, blockSize), End();
      AppendAll(vs);
      FlatIs();
      Iterators();
      SplicedBack(c, vs, i);
      RotateValues(newPos, oldEnd, End(), i, n, n + m);
    }

    /** insert: vs goes in front of the iterator at the i-th value, and the shorter side moves. */
    method Insert(pos: Iter, vs: seq<T>, ghost i: nat) returns (at: Iter)
      requires Valid() && i <= size && AtIndex(pos, beginOffset + i, blockSize)
      modifies this, BlockSet()
      ensures Valid() && fresh(BlockSet() - old(BlockSet()))
      ensures Contents() == old(Contents())[..i] + vs + old(Contents())[i..]
      ensures AtIndex(at, beginOffset + i, blockSize)
    {
      hide Valid, Contents, AtIndex, Elements;
      FlatIs();
      if |vs| == 0 {
        assert Contents() == Contents()[..i] + vs + Contents()[i..];
        return pos;
      }
      var posIndex := PositionOf(pos, i);
      var toEnd := Distance(End(), pos, blockSize);
      ghost var added := {};
      if posIndex < toEnd {
        added := GetEnoughFrontSpare(|vs|);
        FlatIs();
        InBlockSet();
        InsertMovingLeft(posIndex, vs);
      } else {
        added := GetEnoughBackSpare(|vs|);
        FlatIs();
        InBlockSet();
        InsertMovingRight(posIndex, vs);
      }
      Iterators();
      Stepped(Begin(), beginOffset, posIndex);
      at := Advance(Begin(), posIndex, blockSize);
    }

    /** The distances of an iterator from both ends. */
    method PositionOf(pos: Iter, ghost i: nat) returns (posIndex: nat)
      requires Valid() && i <= size && AtIndex(pos, beginOffset + i, blockSize)
      ensures posIndex == i && Distance(End(), pos, blockSize) == size - i
    {
      Iterators();
      DistanceIsDifference(pos, Begin(), blockSize);
      DistanceIsDifference(End(), pos, blockSize);
      posIndex := Distance(pos, Begin(), blockSize);
    }

    /** emplace */
    method Emplace(pos: Iter, v: T, ghost i: nat) returns (at: Iter)
      requires Valid() && i <= size && AtIndex(pos, beginOffset + i, blockSize)
      modifies this, BlockSet()
      ensures Valid() && fresh(BlockSet() - old(BlockSet()))
      ensures Contents() == old(Contents())[..i] + [v] + old(Contents())[i..]
      ensures AtIndex(at, beginOffset + i, blockSize)
    {
      hide Valid, Contents, AtIndex, Elements;
      FlatIs();
      Iterators();
      SameIter(pos, beginOffset + i, End(), beginOffset + size, blockSize);
      SameIter(pos, beginOffset + i, Begin(), beginOffset, blockSize);
      if pos == End() {
        EmplaceBack(v);
        FlatIs();
        Iterators();
        InMap(End(), beginOffset + size, blockSize, |blocks|);
        IterIn(End(), beginOffset + size, blockSize);
        at := Pred(End(), blockSize, |blocks|);
      } else if pos == Begin() {
        EmplaceFront(v);
        Iterators();
        at := Begin();
      } else {
        at := Insert(pos, [v], i);
      }
    }

    /** erase: the values from first up to last go, and the shorter side moves. */
    method Erase(first: Iter, last: Iter, ghost i: nat, ghost j: nat) returns (at: Iter)
      requires Valid() && i <= size && j <= size
      requires AtIndex(first, beginOffset + i, blockSize) && AtIndex(last, beginOffset + j, blockSize)
      modifies `flat, `size, `beginOffset, BlockSet()
      ensures Valid()
      ensures j <= i ==> at == last && Contents() == old(Contents())
      ensures i < j ==> Contents() == old(Contents())[..i] + old(Contents())[j..]
      ensures i < j ==> AtIndex(at, beginOffset + i, blockSize)
    {
      hide Valid, Contents, AtIndex, Elements;
      FlatIs();
      ErasedDistances(first, last, i, j);
      var count := Distance(last, first, blockSize);
      if count <= 0 {
        return last;
      }
      var beginFirstDistance := Distance(first, Begin(), blockSize);
      if beginFirstDistance < Distance(End(), last, blockSize) {
        EraseMovingRight(first, last, count, i, j);
      } else {
        EraseMovingLeft(first, last, count, i, j);
      }
      Iterators();
      Stepped(Begin(), beginOffset, beginFirstDistance);
      at := Advance(Begin(), beginFirstDistance, blockSize);
    }

    lemma ErasedDistances(first: Iter, last: Iter, i: nat, j: nat)
      requires blockSize > 0
      requires AtIndex(first, beginOffset + i, blockSize) && AtIndex(last, beginOffset + j, blockSize)
      ensures Distance(last, first, blockSize) == j - i && Distance(first, Begin(), blockSize) == i
      ensures Distance(End(), last, blockSize) == size - j
    {
      Iterators();
      DistanceIsDifference(last, first, blockSize);
      DistanceIsDifference(first, Begin(), blockSize);
      DistanceIsDifference(End(), last, blockSize);
    }

    method EraseMovingRight(first: Iter, last: Iter, count: nat, ghost i: nat, ghost j: nat)
      requires Valid() && i < j <= size && count == j - i
      requires AtIndex(first, beginOffset + i, blockSize) && AtIndex(last, beginOffset + j, blockSize)
      modifies `flat, `size, `beginOffset, BlockSet()
      ensures Valid() && Contents() == old(Contents())[..i] + old(Contents())[j..]
    {
      hide Padded, Flattened, Valid, Contents, AtIndex, Patched, Holding, Elements, MovedUp;
      FlatIs();
      InBlockSet();
      ghost var c, b := Contents(), beginOffset;
      Iterators();
      PaddedCloseUp(c, i, j, b, |flat|);
      MoveBackwardBlocks(blocks, Begin(), first, last, blockSize, flat, b, b + i, b + j);
      flat := MovedUp(flat, b + i, b + j, i);
      var oldBegin := Begin();
      beginOffset := beginOffset + count;
      IteratorAt();
      DestroyBlocks(blocks, oldBegin, Begin(), blockSize, flat, b, b + (j - i));
      flat := Patched(flat, b, Raws(j - i));
      size := size - count;
      FromFlat(c[..i] + c[j..]);
    }

    lemma IteratorAt()
      requires blockSize > 0
      ensures AtIndex(Begin(), beginOffset, blockSize)
    {
      IterAtMeans(beginOffset, blockSize);
    }

    method EraseMovingLeft(first: Iter, last: Iter, count: nat, ghost i: nat, ghost j: nat)
      requires Valid() && i < j <= size && count == j - i
      requires AtIndex(first, beginOffset + i, blockSize) && AtIndex(last, beginOffset + j, blockSize)
      modifies `flat, `size, BlockSet()
      ensures Valid() && Contents() == old(Contents())[..i] + old(Contents())[j..]
    {
      hide Padded, Flattened, Valid, Contents, AtIndex, Patched, Holding, Elements, MovedDown;
      FlatIs();
      InBlockSet();
      ghost var c, b, n := Contents(), beginOffset, size;
      Iterators();
      PaddedCloseDown(c, i, j, b, |flat|);
      var newEnd := MoveForwardBlocks(blocks, last, End(), first, blockSize, flat, b + j, b + n, b + i);
      flat := MovedDown(flat, b + j, b + i, n - j);
      DestroyBlocks(blocks, newEnd, End(), blockSize, flat, b + n - (j - i), b + n);
      flat := Patched(flat, b + n - (j - i), Raws(j - i));
      size := size - count;
      FromFlat(c[..i] + c[j..]);
    }

    /** operator[] */
    method At(k: nat) returns (v: T)
      requires Valid() && k < size
      ensures v == Contents()[k]
    {
      FlatIs();
      Iterators();
      Stepped(Begin(), beginOffset, k);
      var it := Advance(Begin(), k, blockSize);
      SlotAt(blocks, flat, blockSize, it, beginOffset + k);
      v := blocks[it.block][it.offset].value;
    }

    method Resize(count: nat, v: T)
      requires Valid()
      modifies this, BlockSet()
      ensures Valid() && fresh(BlockSet() - old(BlockSet()))
      ensures Contents() == if count <= old(size) then old(Contents())[..count]
                            else old(Contents()) + seq(count - old(size), _ => v)
    {
      hide Valid, Contents, Elements;
      FlatIs();
      if size >= count {
        DropFrom(count);
      } else {
        var more := count - size;
        ghost var added := GetEnoughBackSpare(more);
        InBlockSet();
        AppendAll(seq(more, _ => v));
      }
    }

    /** Drop what is too much, or make room for what is to come. */
    method Fit(count: nat) returns (ghost added: set<array<Slot<T>>>)
      requires Valid()
      modifies this, BlockSet()
      ensures Valid() && fresh(added) && BlockSet() == old(BlockSet()) + added
      ensures size <= count <= size + BackSpare() && (count > 0 ==> blocks != [])
    {
      hide Valid, Contents, Elements;
      FlatIs();
      added := {};
      if BackSpare() + size < count {
        added := GetEnoughBackSpare(count - size);
        FlatIs();
      } else if size > count {
        DropFrom(count);
        FlatIs();
      }
    }

    /** assign: overwrite what is there and construct the rest. */
    method AssignAll(vs: seq<T>)
      requires Valid()
      modifies this, BlockSet()
      ensures Valid() && fresh(BlockSet() - old(BlockSet())) && Contents() == vs
    {
      hide Valid, Contents, Elements;
      ghost var added := Fit(|vs|);
      InBlockSet();
      var mid := size;
      Overwrite(vs[..mid]);
      if mid < |vs| {
        AppendAll(vs[mid..]);
      }
      assert vs == vs[..mid] + vs[mid..];
    }

    method Overwrite(vs: seq<T>)
      requires Valid() && |vs| == size
      modifies `flat, BlockSet()
      ensures Valid() && Contents() == vs
    {
      hide Padded, Flattened, Valid, Contents, AtIndex, Patched, Elements;
      FlatIs();
      InBlockSet();
      ghost var c := Contents();
      if blocks != [] {
        Iterators();
        PaddedOverwrite(c, vs, beginOffset, |flat|);
        AssignBlocks(blocks, Begin(), vs, blockSize, flat, beginOffset);
        flat := Patched(flat, beginOffset, Holding(vs));
      }
      FromFlat(vs);
    }

    // Giving blocks back.

    static method Deallocate(a: array<Slot<T>>)
      requires AllRaw(a[..])
    {
    }

    /** What the map is without its first block, when that holds no value. */
    lemma WithoutFirst(c: seq<T>)
      requires Laid(c) && blockSize <= beginOffset
      ensures blocks != [] && |flat| >= blockSize && beginOffset - blockSize + |c| <= |flat| - blockSize
      ensures Flattened(blocks[1..], flat[blockSize..], blockSize)
      ensures flat[blockSize..] == Padded(c, beginOffset - blockSize, |flat| - blockSize)
      ensures blocks[0][..] == Raws(blockSize) && Elements(blocks[1..]) <= Elements(blocks)
    {
      hide *;
      LaidSize(c);
      LaidIs(c);
      SplitEnds(c);
      PaddedHead(c, beginOffset, |flat|, blockSize);
      OneFlattened(blocks[0], flat[..blockSize]);
      ElementsSuffix(blocks, 1);
    }

    method PopFrontBlock(ghost c: seq<T>)
      requires Laid(c) && blockSize <= beginOffset
      modifies `blocks, `flat, `beginOffset
      ensures Laid(c) && beginOffset == old(beginOffset) - blockSize && |flat| == old(|flat|) - blockSize
      ensures |blocks| == old(|blocks|) - 1 && BlockSet() <= old(BlockSet())
    {
      hide Laid, Padded, Flattened, Elements, Raws, AllRaw;
      LaidSize(c);
      WithoutFirst(c);
      RawsRaw<T>(blockSize);
      Deallocate(blocks[0]);
      blocks := blocks[1..];
      flat := flat[blockSize..];
      beginOffset := beginOffset - blockSize;
      ToLaid(c);
    }

    /** What the map is without its last block, when that holds no value. */
    lemma WithoutLast(c: seq<T>)
      requires Laid(c) && beginOffset + size + blockSize <= |flat|
      ensures blocks != [] && |flat| >= blockSize
      ensures var m, k := |blocks| - 1, |flat| - blockSize;
        && Flattened(blocks[..m], flat[..k], blockSize) && flat[..k] == Padded(c, beginOffset, k)
        && blocks[m][..] == Raws(blockSize) && Elements(blocks[..m]) <= Elements(blocks)
    {
      hide *;
      LaidSize(c);
      LaidIs(c);
      SplitEnds(c);
      ghost var m, k := |blocks| - 1, |flat| - blockSize;
      PaddedTail(c, beginOffset, |flat|, blockSize);
      OneFlattened(blocks[m], flat[k..]);
      ElementsPrefix(blocks, m);
    }

    lemma LaidIs(c: seq<T>)
      requires Laid(c)
      ensures size == |c| && beginOffset + size <= |flat| && flat == Padded(c, beginOffset, |flat|)
      ensures (blocks == [] ==> |flat| == 0) && blockSize > 0 && Flattened(blocks, flat, blockSize)
    {
    }

    lemma ToLaid(c: seq<T>)
      requires blockSize > 0 && Flattened(blocks, flat, blockSize) && size == |c|
      requires beginOffset + size <= |flat| && flat == Padded(c, beginOffset, |flat|)
      ensures Laid(c)
    {
    }

    method PopBackBlock(ghost c: seq<T>)
      requires Laid(c) && beginOffset + size + blockSize <= |flat|
      modifies `blocks, `flat
      ensures Laid(c) && |flat| == old(|flat|) - blockSize
      ensures |blocks| == old(|blocks|) - 1 && BlockSet() <= old(BlockSet())
    {
      hide Laid, Padded, Flattened, Elements, Raws, AllRaw;
      LaidSize(c);
      WithoutLast(c);
      var m := |blocks| - 1;
      ghost var k := |flat| - blockSize;
      RawsRaw<T>(blockSize);
      Deallocate(blocks[m]);
      blocks := blocks[..m];
      flat := flat[..k];
      ToLaid(c);
    }

    static lemma RawsRaw<X>(n: nat)
      ensures |Raws<X>(n)| == n && AllRaw(Raws<X>(n))
    {
    }

    lemma OneFlattened(block: array<Slot<T>>, f: seq<Slot<T>>)
      requires Flattened([block], f, blockSize)
      ensures block[..] == f
    {
      assert [block][0] == block;
      BlockWhole(f);
    }

    method ShrinkToFit()
      requires Valid()
      modifies `blocks, `flat, `beginOffset
      ensures Valid() && Contents() == old(Contents()) && BlockSet() <= old(BlockSet())
      ensures FrontSpare() < blockSize && BackSpare() < blockSize
    {
      hide Padded, Flattened, Valid, Contents, Elements, Laid;
      FlatIs();
      ghost var c := Contents();
      IsLaid(c);
      while beginOffset >= blockSize
        invariant Laid(c) && EndFree() && BlockSet() <= old(BlockSet())
        invariant blockSize > 0 && |flat| == |blocks| * blockSize
      {
        PopFrontBlock(c);
        LaidSize(c);
      }
      var bs := BackSpare();
      while bs >= blockSize
        invariant Laid(c) && EndFree() && BlockSet() <= old(BlockSet()) && beginOffset < blockSize
        invariant blockSize > 0 && |flat| == |blocks| * blockSize && bs == BackSpare()
        decreases bs
      {
        PopBackBlock(c);
        LaidSize(c);
        bs := bs - blockSize;
      }
      LaidValid(c);
    }
  }
}
