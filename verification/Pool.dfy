/** The kernel pool of pool.c: block headers on a circular list, changed in place. */
module Pool {
  import opened KernelList
  import opened PoolSpec

  class KernelPool {
    const blocks: List<Header>

    ghost predicate Valid()
      reads this, blocks, blocks.nodes
    {
      blocks.Valid() && blocks.nodes != []
    }

    /** The blocks in the order of the list. */
    ghost function Blocks(): seq<Header>
      reads this, blocks, blocks.nodes
    {
      blocks.Elements()
    }

    /** MmInitializePool: one free block. */
    constructor (start: nat, size: nat)
      requires HEADER <= size && start + size <= W
      ensures Valid() && fresh(blocks) && fresh(blocks.nodes) && Blocks() == [Header(start, size - HEADER, 0, false)]
      ensures PoolOk(Blocks(), start, start + size)
    {
      var list := new List<Header>();
      var block := new Node<Header>(Header(start, size - HEADER, 0, false));
      list.InsertHead(block);
      blocks := list;
      assert Meets([Header(start, size - HEADER, 0, false)], 0, start + size);
    }

    /** The loop of MmAllocatePoolWithTag: the first free block larger than n. */
    method FindBlock(n: nat) returns (block: Node?<Header>, ghost i: nat)
      requires Valid()
      ensures i == FirstFit(Blocks(), n, 0)
      ensures block == if FirstFit(Blocks(), n, 0) < |blocks.nodes| then blocks.nodes[FirstFit(Blocks(), n, 0)]
        else null
    {
      i := 0;
      block := blocks.first;
      while block != null
        invariant i <= |blocks.nodes| && block == if i < |blocks.nodes| then blocks.nodes[i] else null
        invariant FirstFit(Blocks(), n, 0) == FirstFit(Blocks(), n, i)
        decreases |blocks.nodes| - i
      {
        if !block.elem.used && block.elem.size > n {
          break;
        }
        block := blocks.Next(block, i);
        i := i + 1;
      }
    }

    /** Changes the header of block i. */
    method SetHeader(block: Node<Header>, h: Header, ghost i: nat)
      requires Valid() && i < |blocks.nodes| && block == blocks.nodes[i]
      modifies block`elem
      ensures Valid() && Blocks() == old(Blocks())[i := h]
    {
      OnlyAt(blocks.nodes, i);
      block.elem := h;
      assert Blocks() == old(Blocks())[i := h];
    }

    /** A new block behind block i. */
    method AddBlock(block: Node<Header>, h: Header, ghost i: nat)
      requires Valid() && i < |blocks.nodes| && block == blocks.nodes[i]
      modifies blocks, blocks.nodes
      ensures Valid() && Blocks() == old(Blocks())[..i + 1] + [h] + old(Blocks())[i + 1..]
      ensures |blocks.nodes| > i + 1 && blocks.nodes[..i + 1] == old(blocks.nodes)[..i + 1]
      ensures fresh(set n | n in blocks.nodes && n !in old(blocks.nodes))
    {
      ghost var was := Blocks();
      var rest := new Node<Header>(h);
      blocks.InsertAfter(block, rest, i);
      assert Blocks() == was[..i + 1] + [h] + was[i + 1..];
    }

    /** Gives block i out, and splits it if its size allows. */
    method CarveBlock(block: Node<Header>, n: nat, tag: nat, ghost i: nat)
      requires Valid() && i < |blocks.nodes| && block == blocks.nodes[i]
      modifies blocks, blocks.nodes
      ensures Valid() && fresh(set n | n in blocks.nodes && n !in old(blocks.nodes))
      ensures block in blocks.nodes && Blocks() == Carve(old(Blocks()), i, n, tag)
    {
      hide Carve, List.Valid, KernelPool.Valid;
      var h := block.elem;
      CarveIs(Blocks(), i, n, tag);
      assert h == Blocks()[i] && block == blocks.nodes[..i + 1][i];
      if n < (h.size - MINIMUM) % W {
        AddBlock(block, Header(h.addr + HEADER + n, (h.size - HEADER - n) % W, 0, false), i);
        assert block == blocks.nodes[..i + 1][i];
        SetHeader(block, h.(size := n, tag := tag, used := true), i);
      } else {
        SetHeader(block, h.(tag := tag, used := true), i);
      }
    }

    /** MmAllocatePoolWithTag: null when no free block is large enough. */
    method Allocate(request: nat, tag: nat) returns (block: Node?<Header>)
      requires Valid() && request < W
      modifies blocks, blocks.nodes
      ensures Valid() && fresh(set n | n in blocks.nodes && n !in old(blocks.nodes))
      ensures
        var i := FirstFit(old(Blocks()), Need(request), 0);
        if i == |old(Blocks())| then block == null && Blocks() == old(Blocks())
        else
          && block == old(blocks.nodes[i]) && block in blocks.nodes
          && Blocks() == Carve(old(Blocks()), i, Need(request), tag)
          && (MINIMUM <= old(Blocks())[i].size < W ==> GivenOut(old(Blocks()), i, Need(request), tag, Blocks()))
    {
      hide FirstFit, Need, Carve, GivenOut, List.Valid, KernelPool.Valid;
      var n := Need(request);
      ghost var i;
      block, i := FindBlock(n);
      if block != null {
        if MINIMUM <= Blocks()[i].size < W {
          CarveSplits(Blocks(), i, n, tag);
        }
        CarveBlock(block, n, tag, i);
      }
    }

    /** Takes the next block into block i. */
    method Join(block: Node<Header>, next: Node<Header>, ghost i: nat)
      requires Valid() && i + 1 < |blocks.nodes| && block == blocks.nodes[i] && next == blocks.nodes[i + 1]
      modifies blocks, blocks.nodes
      ensures Valid() && Blocks() == JoinNext(old(Blocks()), i)
      ensures blocks.nodes == old(blocks.nodes[..i + 1]) + old(blocks.nodes[i + 2..])
    {
      ghost var was := Blocks();
      SetHeader(block, block.elem.(size := block.elem.size + next.elem.size + HEADER), i);
      ghost var mid := Blocks();
      blocks.Remove(next, i + 1);
      assert Blocks() == mid[..i + 1] + mid[i + 2..];
      assert mid[..i + 1] == was[..i] + [mid[i]];
    }

    /** Joins a free block with free neighbours. */
    method JoinBoth(block: Node<Header>, ghost i: nat)
      requires Valid() && i < |blocks.nodes| && block == blocks.nodes[i]
      modifies blocks, blocks.nodes
      ensures Valid() && Blocks() == JoinLeft(JoinRight(old(Blocks()), i), i)
    {
      hide List.Valid, JoinNext;
      var next := blocks.Next(block, i);
      if next != null && !next.elem.used {
        Join(block, next, i);
      }
      assert block == blocks.nodes[i];
      var prev := blocks.Prev(block, i);
      if prev != null && !prev.elem.used {
        Join(prev, block, i - 1);
      }
    }

    /** MmFreePoolWithTag, with its check as it is written. */
    method Free(block: Node<Header>, tag: nat, ghost i: nat) returns (ok: bool)
      requires Valid() && i < |blocks.nodes| && block == blocks.nodes[i]
      modifies blocks, blocks.nodes
      ensures Valid()
      ensures ok <==> Passes(old(block.elem), tag)
      ensures old(block.elem.used) ==> (ok <==> MayFree(old(block.elem), tag))
      ensures Blocks() == if ok then Release(old(Blocks()), i) else old(Blocks())
    {
      if (!block.elem.used || tag != 0) && block.elem.tag != tag {
        return false;
      }
      SetHeader(block, block.elem.(tag := 0, used := false), i);
      JoinBoth(block, i);
      ok := true;
    }
  }
}
