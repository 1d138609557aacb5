/** The kernel pool as a sequence of blocks: first fit with splitting, and freeing with joining. Sizes are 32-bit words. */
module PoolSpec {

  const W := 0x1_0000_0000
  const HEADER := 28   // size of a block header
  const MEM := 24      // offset of the memory handed out; it reaches 4 bytes into the header
  const MINIMUM := 512
  const PAD := 56

  /** A block: its header is at addr, and `size` bytes follow the header. */
  datatype Header = Header(addr: nat, size: nat, tag: nat, used: bool)

  /** Block i ends where the next one begins, or at the end of the pool. */
  predicate Meets(bs: seq<Header>, i: nat, end: nat)
    requires i < |bs|
  {
    bs[i].addr + HEADER + bs[i].size == if i + 1 < |bs| then bs[i + 1].addr else end
  }

  /** Blocks and their headers tile the pool, in address order. */
  ghost predicate Tiled(bs: seq<Header>, start: nat, end: nat) {
    && bs != [] && bs[0].addr == start && end <= W
    && forall i {:trigger Meets(bs, i, end)} :: 0 <= i < |bs| ==> Meets(bs, i, end)
  }

  predicate NotBothFree(bs: seq<Header>, i: nat)
    requires i + 1 < |bs|
  {
    bs[i].used || bs[i + 1].used
  }

  /** No two neighbouring blocks are both free, and free blocks have no tag. */
  ghost predicate Joined(bs: seq<Header>) {
    && (forall i {:trigger NotBothFree(bs, i)} :: 0 <= i < |bs| - 1 ==> NotBothFree(bs, i))
    && (forall i :: 0 <= i < |bs| && !bs[i].used ==> bs[i].tag == 0)
  }

  ghost predicate PoolOk(bs: seq<Header>, start: nat, end: nat) {
    Tiled(bs, start, end) && Joined(bs)
  }

  lemma {:induction false} InOrder(bs: seq<Header>, start: nat, end: nat, i: nat, j: nat)
    requires Tiled(bs, start, end) && i < j < |bs|
    ensures bs[i].addr + HEADER + bs[i].size <= bs[j].addr
    decreases j
  {
    assert Meets(bs, j - 1, end);
    if i < j - 1 {
      InOrder(bs, start, end, i, j - 1);
    }
  }

  lemma {:induction false} InPool(bs: seq<Header>, start: nat, end: nat, i: nat)
    requires Tiled(bs, start, end) && i < |bs|
    ensures start <= bs[i].addr && bs[i].addr + HEADER + bs[i].size <= end
    decreases |bs| - i
  {
    assert Meets(bs, i, end);
    if i + 1 < |bs| {
      InPool(bs, start, end, i + 1);
    }
    if i > 0 {
      InOrder(bs, start, end, 0, i);
    }
  }

  /** The bytes of a block that its owner may use. */
  predicate InBlock(b: Header, x: nat) {
    b.addr + MEM <= x < b.addr + HEADER + b.size
  }

  /** Live allocations are disjoint, lie in the pool, and keep clear of the fields of the other headers. */
  lemma LiveApart(bs: seq<Header>, start: nat, end: nat, i: nat, j: nat, x: nat)
    requires Tiled(bs, start, end) && i < |bs| && j < |bs| && i != j && InBlock(bs[i], x)
    ensures start <= x < end && !InBlock(bs[j], x) && !(bs[j].addr <= x < bs[j].addr + MEM)
  {
    InPool(bs, start, end, i);
    if i < j {
      InOrder(bs, start, end, i, j);
    } else {
      InOrder(bs, start, end, j, i);
    }
  }

  // Allocation.

  /** The bytes taken for a request: padded, and rounded up to a multiple of 4. */
  function Need(request: nat): (n: nat)
    ensures n < W
  {
    var x := ((request + PAD) % W + 3) % W;
    x - x % 4
  }

  /** The request and the padding fit, exactly if the sum does not wrap; then it is the least multiple of 4 for them. */
  lemma NeedIsEnough(request: nat)
    requires request < W
    ensures Need(request) >= request + PAD <==> request + PAD + 3 < W
    ensures Need(request) % 4 == 0
    ensures if request + PAD + 3 < W then Need(request) < request + PAD + 4 else Need(request) <= PAD
  {
  }

  /** The first free block larger than n, from index i on. */
  function FirstFit(bs: seq<Header>, n: nat, i: nat): (r: nat)
    requires i <= |bs|
    ensures i <= r <= |bs|
    ensures r < |bs| ==> !bs[r].used && bs[r].size > n
    ensures forall j :: i <= j < r ==> bs[j].used || bs[j].size <= n
    decreases |bs| - i
  {
    if i == |bs| || (!bs[i].used && bs[i].size > n) then i else FirstFit(bs, n, i + 1)
  }

  /** Is block b split for n bytes? The subtraction wraps when the block is smaller than the minimum. */
  predicate Splits(b: Header, n: nat) {
    n < (b.size - MINIMUM) % W
  }

  /** The blocks after block i is allocated with n bytes. */
  function Carve(bs: seq<Header>, i: nat, n: nat, tag: nat): seq<Header>
    requires i < |bs|
  {
    var b := bs[i];
    if Splits(b, n) then
      bs[..i] + [b.(size := n, tag := tag, used := true),
                 Header(b.addr + HEADER + n, (b.size - HEADER - n) % W, 0, false)] + bs[i + 1..]
    else
      bs[i := b.(tag := tag, used := true)]
  }

  /** Carving as it is done: the second block is put behind the first, then the header of the first is changed. */
  lemma CarveIs(bs: seq<Header>, i: nat, n: nat, tag: nat)
    requires i < |bs|
    ensures
      var b := bs[i];
      Carve(bs, i, n, tag) ==
      if Splits(b, n) then
        (bs[..i + 1] + [Header(b.addr + HEADER + n, (b.size - HEADER - n) % W, 0, false)] + bs[i + 1..])
          [i := b.(size := n, tag := tag, used := true)]
      else bs[i := b.(tag := tag, used := true)]
  {
  }

  /** Allocation keeps the pool in order exactly if the block chosen has the minimum size, or room for a second
      header. */
  lemma CarveKeeps(bs: seq<Header>, start: nat, end: nat, i: nat, n: nat, tag: nat)
    requires PoolOk(bs, start, end) && i < |bs| && !bs[i].used && n < bs[i].size
    ensures PoolOk(Carve(bs, i, n, tag), start, end) <==> bs[i].size >= MINIMUM || bs[i].size >= n + HEADER
  {
    var r := Carve(bs, i, n, tag);
    InPool(bs, start, end, i);
    if bs[i].size >= MINIMUM || bs[i].size >= n + HEADER {
      CarveTiles(bs, start, end, i, n, tag);
      CarveJoins(bs, i, n, tag);
    } else {
      assert Splits(bs[i], n) && r[i + 1].size >= W - HEADER;
      assert !Meets(r, i + 1, end) by {
        assert Meets(bs, i, end);
        assert i + 1 < |bs| ==> r[i + 2] == bs[i + 1];
      }
    }
  }

  /** The block allocated is large enough, and the other live blocks stay as they are. */
  lemma CarveGives(bs: seq<Header>, i: nat, n: nat, tag: nat)
    requires i < |bs| && !bs[i].used && n < bs[i].size
    ensures
      var r := Carve(bs, i, n, tag);
      && i < |r| && r[i].used && r[i].tag == tag && r[i].addr == bs[i].addr && n <= r[i].size <= bs[i].size
      && forall b: Header :: b.used ==> (b in r <==> b in bs || b == r[i])
  {
    var r := Carve(bs, i, n, tag);
    forall b: Header | b.used && b in bs ensures b in r {
      var k :| 0 <= k < |bs| && bs[k] == b;
      assert r[if k < i || !Splits(bs[i], n) then k else k + 1] == b;
    }
    forall b: Header | b.used && b in r && b != r[i] ensures b in bs {
      var k :| 0 <= k < |r| && r[k] == b;
      assert bs[if k < i || !Splits(bs[i], n) then k else k - 1] == b;
    }
  }

  /** Between bs and r block i was given out for n bytes. If what is left over is larger than the minimum it is a free
      block behind that one; otherwise the whole block is given out. Nothing else changes. */
  ghost predicate GivenOut(bs: seq<Header>, i: nat, n: nat, tag: nat, r: seq<Header>)
    requires i < |bs|
  {
    && i < |r| && r[..i] == bs[..i] && r[i].used && r[i].tag == tag && r[i].addr == bs[i].addr
    && n <= r[i].size <= n + MINIMUM
    && if n + MINIMUM < bs[i].size then
         && |r| == |bs| + 1 && r[i].size == n && r[i + 2..] == bs[i + 1..]
         && !r[i + 1].used && r[i + 1].tag == 0
         && r[i + 1].addr == bs[i].addr + HEADER + n && r[i + 1].size == bs[i].size - HEADER - n
       else
         |r| == |bs| && r[i].size == bs[i].size && r[i + 1..] == bs[i + 1..]
  }

  /** That is what happens to every block of at least the minimum size. A smaller one is split always. */
  lemma CarveSplits(bs: seq<Header>, i: nat, n: nat, tag: nat)
    requires i < |bs| && n < bs[i].size < W
    ensures MINIMUM <= bs[i].size ==> GivenOut(bs, i, n, tag, Carve(bs, i, n, tag))
    ensures bs[i].size < MINIMUM ==>
      var r := Carve(bs, i, n, tag);
      && |r| == |bs| + 1 && r[i] == Header(bs[i].addr, n, tag, true)
      && r[i + 1] == Header(bs[i].addr + HEADER + n, (bs[i].size - HEADER - n) % W, 0, false)
      && r[..i] == bs[..i] && r[i + 2..] == bs[i + 1..]
  {
    hide Carve;
    CarveIs(bs, i, n, tag);
    var r := Carve(bs, i, n, tag);
    assert Splits(bs[i], n) <==> bs[i].size < MINIMUM || n + MINIMUM < bs[i].size;
    if Splits(bs[i], n) {
      assert r[i + 2..] == bs[i + 1..];
    } else {
      assert r[i + 1..] == bs[i + 1..];
    }
  }

  lemma CarveTiles(bs: seq<Header>, start: nat, end: nat, i: nat, n: nat, tag: nat)
    requires Tiled(bs, start, end) && i < |bs| && n < bs[i].size && (bs[i].size >= MINIMUM || bs[i].size >= n + HEADER)
    ensures Tiled(Carve(bs, i, n, tag), start, end)
  {
    var r := Carve(bs, i, n, tag);
    InPool(bs, start, end, i);
    if Splits(bs[i], n) {
      assert r[i + 1].size == bs[i].size - HEADER - n;
    }
    forall k | 0 <= k < |r| ensures Meets(r, k, end) {
      var j := if k <= i || !Splits(bs[i], n) then k else k - 1;
      assert Meets(bs, j, end);
      if Splits(bs[i], n) {
        assert k > i + 1 ==> r[k] == bs[k - 1];
        assert k + 1 < |r| && k > i ==> r[k + 1] == bs[k];
      }
    }
  }

  lemma CarveJoins(bs: seq<Header>, i: nat, n: nat, tag: nat)
    requires Joined(bs) && i < |bs| && !bs[i].used
    ensures Joined(Carve(bs, i, n, tag))
  {
    var r := Carve(bs, i, n, tag);
    forall k | 0 <= k < |r| - 1 ensures NotBothFree(r, k) {
      var j := if k <= i || !Splits(bs[i], n) then k else k - 1;
      if j + 1 < |bs| {
        assert NotBothFree(bs, j);
      }
      if Splits(bs[i], n) {
        assert k > i + 1 ==> r[k] == bs[k - 1];
        assert k > i ==> r[k + 1] == bs[k];
      }
    }
  }

  // Freeing.

  /** Block i takes in the next one. */
  function JoinNext(bs: seq<Header>, i: nat): seq<Header>
    requires i + 1 < |bs|
  {
    bs[..i] + [bs[i].(size := bs[i].size + bs[i + 1].size + HEADER)] + bs[i + 2..]
  }

  function MarkFree(bs: seq<Header>, i: nat): (r: seq<Header>)
    requires i < |bs|
    ensures |r| == |bs|
  {
    bs[i := bs[i].(tag := 0, used := false)]
  }

  function JoinRight(bs: seq<Header>, i: nat): (r: seq<Header>)
    requires i < |bs|
    ensures i < |r|
  {
    if i + 1 < |bs| && !bs[i + 1].used then JoinNext(bs, i) else bs
  }

  function JoinLeft(bs: seq<Header>, i: nat): seq<Header>
    requires i < |bs|
  {
    if i > 0 && !bs[i - 1].used then JoinNext(bs, i - 1) else bs
  }

  /** The blocks after block i is freed. */
  function Release(bs: seq<Header>, i: nat): seq<Header>
    requires i < |bs|
  {
    JoinLeft(JoinRight(MarkFree(bs, i), i), i)
  }

  lemma JoinTiles(bs: seq<Header>, start: nat, end: nat, i: nat)
    requires Tiled(bs, start, end) && i + 1 < |bs|
    ensures Tiled(JoinNext(bs, i), start, end)
  {
    var r := JoinNext(bs, i);
    assert Meets(bs, i, end);
    forall k | 0 <= k < |r| ensures Meets(r, k, end) {
      assert Meets(bs, if k < i then k else k + 1, end);
      assert k > i ==> r[k] == bs[k + 1];
      assert k + 1 < |r| && k >= i ==> r[k + 1] == bs[k + 2];
    }
  }

  /** Free neighbours only around block i, and then only on the sides named. */
  ghost predicate JoinedBut(bs: seq<Header>, i: nat, left: bool, right: bool) {
    && (forall k {:trigger NotBothFree(bs, k)} :: 0 <= k < |bs| - 1 && (left ==> k + 1 != i) && (right ==> k != i) ==>
          NotBothFree(bs, k))
    && (forall k :: 0 <= k < |bs| && !bs[k].used ==> bs[k].tag == 0)
  }

  lemma RightJoins(bs: seq<Header>, i: nat)
    requires i < |bs| && !bs[i].used && JoinedBut(bs, i, true, true)
    ensures JoinedBut(JoinRight(bs, i), i, true, false) && !JoinRight(bs, i)[i].used
  {
    var r := JoinRight(bs, i);
    if i + 1 < |bs| && !bs[i + 1].used {
      forall k | 0 <= k < |r| - 1 && k + 1 != i ensures NotBothFree(r, k) {
        assert k > i ==> r[k] == bs[k + 1];
        assert k >= i ==> r[k + 1] == bs[k + 2];
        assert NotBothFree(bs, if k < i then k else k + 1);
      }
    } else {
      forall k | 0 <= k < |r| - 1 && k + 1 != i ensures NotBothFree(r, k) {
        assert k != i ==> NotBothFree(bs, k);
      }
    }
  }

  lemma LeftJoins(bs: seq<Header>, i: nat)
    requires i < |bs| && !bs[i].used && JoinedBut(bs, i, true, false)
    ensures Joined(JoinLeft(bs, i))
  {
    var r := JoinLeft(bs, i);
    if i > 0 && !bs[i - 1].used {
      forall k | 0 <= k < |r| - 1 ensures NotBothFree(r, k) {
        assert k > i - 1 ==> r[k] == bs[k + 1];
        assert k >= i - 1 ==> r[k + 1] == bs[k + 2];
        assert NotBothFree(bs, if k < i - 1 then k else k + 1);
      }
    } else {
      forall k | 0 <= k < |r| - 1 ensures NotBothFree(r, k) {
        assert k + 1 != i ==> NotBothFree(bs, k);
      }
    }
  }

  /** Freeing keeps the pool in order. */
  lemma ReleaseKeeps(bs: seq<Header>, start: nat, end: nat, i: nat)
    requires PoolOk(bs, start, end) && i < |bs|
    ensures PoolOk(Release(bs, i), start, end)
  {
    var a := MarkFree(bs, i);
    forall k | 0 <= k < |a| ensures Meets(a, k, end) {
      assert Meets(bs, k, end);
    }
    forall k | 0 <= k < |a| - 1 && k + 1 != i && k != i ensures NotBothFree(a, k) {
      assert NotBothFree(bs, k);
    }
    assert JoinedBut(a, i, true, true);
    RightJoins(a, i);
    var b := JoinRight(a, i);
    LeftJoins(b, i);
    if i + 1 < |a| {
      JoinTiles(a, start, end, i);
    }
    if i > 0 {
      JoinTiles(b, start, end, i - 1);
    }
  }

  lemma JoinLive(bs: seq<Header>, i: nat)
    requires i + 1 < |bs| && !bs[i].used && !bs[i + 1].used
    ensures forall b: Header :: b.used ==> (b in JoinNext(bs, i) <==> b in bs)
  {
    var r := JoinNext(bs, i);
    forall b: Header | b.used && b in bs ensures b in r {
      var k :| 0 <= k < |bs| && bs[k] == b;
      assert r[if k < i then k else k - 1] == b;
    }
    forall b: Header | b.used && b in r ensures b in bs {
      var k :| 0 <= k < |r| && r[k] == b;
      assert bs[if k < i then k else k + 1] == b;
    }
  }

  /** Freeing takes exactly the block freed from the live ones. */
  lemma ReleaseFrees(bs: seq<Header>, start: nat, end: nat, i: nat)
    requires PoolOk(bs, start, end) && i < |bs| && bs[i].used
    ensures forall b: Header :: b.used ==> (b in Release(bs, i) <==> b in bs && b != bs[i])
  {
    var a := MarkFree(bs, i);
    forall b: Header | b.used ensures b in a <==> b in bs && b != bs[i] {
      forall k | 0 <= k < |bs| && k != i ensures bs[k] != bs[i] && a[k] == bs[k] {
        InOrder(bs, start, end, if k < i then k else i, if k < i then i else k);
      }
    }
    if i + 1 < |a| && !a[i + 1].used {
      JoinLive(a, i);
    }
    var c := JoinRight(a, i);
    if i > 0 && !c[i - 1].used {
      JoinLive(c, i - 1);
    }
  }

  /** Freeing a block right after allocating it restores the pool. */
  lemma ReleaseUndoesCarve(bs: seq<Header>, start: nat, end: nat, i: nat, n: nat, tag: nat)
    requires PoolOk(bs, start, end) && i < |bs| && !bs[i].used && n < bs[i].size
    requires bs[i].size >= MINIMUM || bs[i].size >= n + HEADER
    ensures Release(Carve(bs, i, n, tag), i) == bs
  {
    var r := Carve(bs, i, n, tag);
    InPool(bs, start, end, i);
    if i > 0 {
      assert NotBothFree(bs, i - 1);
    }
    if i + 1 < |bs| {
      assert NotBothFree(bs, i);
    }
    if Splits(bs[i], n) {
      var a := MarkFree(r, i);
      assert JoinNext(a, i) == bs;
    }
  }

  // The check before freeing.

  /** What the check lets pass: its conditional binds weaker than the alternatives in front of it. */
  predicate Passes(b: Header, tag: nat) {
    !((!b.used || tag != 0) && b.tag != tag)
  }

  /** What the check is for: the block is allocated, and has the tag if one is given. */
  predicate MayFree(b: Header, tag: nat) {
    b.used && (tag != 0 ==> b.tag == tag)
  }

  /** The check does what it is for, except on a free block with just this tag. */
  lemma ChecksAgree(bs: seq<Header>, start: nat, end: nat, i: nat, tag: nat)
    requires i < |bs|
    ensures (Passes(bs[i], tag) <==> MayFree(bs[i], tag)) <==> bs[i].used || bs[i].tag != tag
    ensures PoolOk(bs, start, end) ==> ((Passes(bs[i], tag) <==> MayFree(bs[i], tag)) <==> bs[i].used || tag != 0)
  {
    assert PoolOk(bs, start, end) && !bs[i].used ==> bs[i].tag == 0;
  }

  /** A free block passes with tag 0, here the only block of a new pool. */
  lemma FreePasses(size: nat)
    requires size + HEADER <= W
    ensures
      var bs := [Header(0, size, 0, false)];
      PoolOk(bs, 0, size + HEADER) && Passes(bs[0], 0) && !MayFree(bs[0], 0)
  {
    assert Meets([Header(0, size, 0, false)], 0, size + HEADER);
  }

  /** In a pool in order, freeing a free block changes nothing. */
  lemma FreeAgain(bs: seq<Header>, start: nat, end: nat, i: nat)
    requires PoolOk(bs, start, end) && i < |bs| && !bs[i].used
    ensures Release(bs, i) == bs
  {
    if i + 1 < |bs| {
      assert NotBothFree(bs, i);
    }
    if i > 0 {
      assert NotBothFree(bs, i - 1);
    }
    assert MarkFree(bs, i) == bs;
  }

  // Runs.

  datatype Call = Alloc(request: nat, tag: nat) | Free(i: nat, tag: nat)

  function Effect(bs: seq<Header>, c: Call): seq<Header> {
    match c
    case Alloc(request, tag) =>
      var i := FirstFit(bs, Need(request), 0);
      if i < |bs| then Carve(bs, i, Need(request), tag) else bs
    case Free(i, tag) =>
      if i < |bs| && Passes(bs[i], tag) then Release(bs, i) else bs
  }

  /** Does the test before a split not wrap, or the split fit all the same? */
  predicate Safe(bs: seq<Header>, c: Call) {
    match c
    case Alloc(request, _) =>
      var i := FirstFit(bs, Need(request), 0);
      i < |bs| ==> bs[i].size >= MINIMUM || bs[i].size >= Need(request) + HEADER
    case Free(_, _) => true
  }

  function After(bs: seq<Header>, cs: seq<Call>): seq<Header>
    decreases |cs|
  {
    if cs == [] then bs else After(Effect(bs, cs[0]), cs[1..])
  }

  predicate AllSafe(bs: seq<Header>, cs: seq<Call>)
    decreases |cs|
  {
    cs == [] || (Safe(bs, cs[0]) && AllSafe(Effect(bs, cs[0]), cs[1..]))
  }

  /** Is the pool in order before and after each call? */
  ghost predicate AllOk(bs: seq<Header>, start: nat, end: nat, cs: seq<Call>)
    decreases |cs|
  {
    PoolOk(bs, start, end) && (cs == [] || AllOk(Effect(bs, cs[0]), start, end, cs[1..]))
  }

  lemma EffectKeeps(bs: seq<Header>, start: nat, end: nat, c: Call)
    requires PoolOk(bs, start, end)
    ensures PoolOk(Effect(bs, c), start, end) <==> Safe(bs, c)
  {
    match c
    case Alloc(request, tag) =>
      var i := FirstFit(bs, Need(request), 0);
      if i < |bs| {
        CarveKeeps(bs, start, end, i, Need(request), tag);
      }
    case Free(i, tag) =>
      if i < |bs| {
        ReleaseKeeps(bs, start, end, i);
      }
  }

  /** Over any sequence of calls the pool stays in order if and only if no call meets the wrapped test. */
  lemma {:induction false} RunKeeps(bs: seq<Header>, start: nat, end: nat, cs: seq<Call>)
    requires PoolOk(bs, start, end)
    ensures AllOk(bs, start, end, cs) <==> AllSafe(bs, cs)
    decreases |cs|
  {
    if cs != [] {
      EffectKeeps(bs, start, end, cs[0]);
      if Safe(bs, cs[0]) {
        RunKeeps(Effect(bs, cs[0]), start, end, cs[1..]);
      }
    }
  }

  /** Does a call of the sequence free block b? */
  predicate Frees(bs: seq<Header>, cs: seq<Call>, b: Header)
    decreases |cs|
  {
    && cs != []
    && ((cs[0].Free? && cs[0].i < |bs| && bs[cs[0].i] == b && Passes(b, cs[0].tag))
        || Frees(Effect(bs, cs[0]), cs[1..], b))
  }

  /** A live block stays in its place, with its size and tag, until it is freed. */
  lemma {:induction false} LiveStays(bs: seq<Header>, start: nat, end: nat, cs: seq<Call>, b: Header)
    requires PoolOk(bs, start, end) && AllSafe(bs, cs) && b.used && b in bs && !Frees(bs, cs, b)
    ensures b in After(bs, cs)
    decreases |cs|
  {
    if cs != [] {
      EffectKeeps(bs, start, end, cs[0]);
      match cs[0] {
        case Alloc(request, tag) =>
          var i := FirstFit(bs, Need(request), 0);
          if i < |bs| {
            CarveGives(bs, i, Need(request), tag);
          }
        case Free(i, tag) =>
          if i < |bs| && bs[i].used {
            ReleaseFrees(bs, start, end, i);
          } else if i < |bs| {
            FreeAgain(bs, start, end, i);
          }
      }
      LiveStays(Effect(bs, cs[0]), start, end, cs[1..], b);
    }
  }

  /** A request close to 4 GB wraps, and is served with a block of 24 bytes. */
  lemma WrappedIsServed(size: nat, tag: nat)
    requires 4096 <= size < W - HEADER
    ensures
      var b0 := [Header(0, size, 0, false)];
      var request := 0xFFFF_FFE0;
      FirstFit(b0, Need(request), 0) == 0 && Carve(b0, 0, Need(request), tag)[0] == Header(0, 24, tag, true)
  {
    assert Need(0xFFFF_FFE0) == 24;
  }

  // The wrapped split test is reached.

  lemma FirstCarve(size: nat, tag: nat)
    requires 4096 <= size < W - HEADER
    ensures
      var b0 := [Header(0, size, 0, false)];
      && PoolOk(b0, 0, size + HEADER) && FirstFit(b0, 64, 0) == 0
      && Carve(b0, 0, 64, tag) == [Header(0, 64, tag, true), Header(92, size - 92, 0, false)]
      && PoolOk(Carve(b0, 0, 64, tag), 0, size + HEADER)
  {
    var b0 := [Header(0, size, 0, false)];
    assert Meets(b0, 0, size + HEADER);
    CarveKeeps(b0, 0, size + HEADER, 0, 64, tag);
    hide PoolOk, Meets;
  }

  lemma SecondCarve(size: nat, tag: nat)
    requires 4096 <= size < W - HEADER
    requires PoolOk([Header(0, 64, tag, true), Header(92, size - 92, 0, false)], 0, size + HEADER)
    ensures
      var b1 := [Header(0, 64, tag, true), Header(92, size - 92, 0, false)];
      && FirstFit(b1, 64, 0) == 1
      && Carve(b1, 1, 64, tag) == [Header(0, 64, tag, true), Header(92, 64, tag, true), Header(184, size - 184, 0, false)]
      && PoolOk(Carve(b1, 1, 64, tag), 0, size + HEADER)
  {
    var b1 := [Header(0, 64, tag, true), Header(92, size - 92, 0, false)];
    assert FirstFit(b1, 64, 0) == FirstFit(b1, 64, 1) == 1;
    CarveKeeps(b1, 0, size + HEADER, 1, 64, tag);
    hide PoolOk;
  }

  /** Two requests of 8 bytes, freeing the first and a request of 4 bytes break a pool of any usual size: the first free
      block, of 64 bytes, is split for 60. */
  lemma BrokenIsReached(size: nat, tag: nat)
    requires 4096 <= size < W - HEADER
    ensures
      var b0 := [Header(0, size, 0, false)];
      var b1 := Carve(b0, FirstFit(b0, Need(8), 0), Need(8), tag);
      var i := FirstFit(b1, Need(8), 0);
      && i < |b1|
      && var b2 := Carve(b1, i, Need(8), tag);
      && var b3 := Release(b2, 0);
      && PoolOk(b0, 0, size + HEADER) && PoolOk(b3, 0, size + HEADER)
      && FirstFit(b3, Need(4), 0) == 0
      && !PoolOk(Carve(b3, 0, Need(4), tag), 0, size + HEADER)
  {
    assert Need(8) == 64 && Need(4) == 60;
    FirstCarve(size, tag);
    SecondCarve(size, tag);
    hide PoolOk, Carve;
    var end := size + HEADER;
    var b2 := [Header(0, 64, tag, true), Header(92, 64, tag, true), Header(184, size - 184, 0, false)];
    ReleaseKeeps(b2, 0, end, 0);
    var b3 := Release(b2, 0);
    assert b3[0] == Header(0, 64, 0, false);
    CarveKeeps(b3, 0, end, 0, 60, tag);
  }
}
