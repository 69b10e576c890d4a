/**
 * The memory manager of os.py: a list of blocks covering [0, total),
 * changed in place by `allocate` and `deallocate`.
 */
module Memory {
  import opened Wrappers
  import opened Processes
  import opened Partitions

  class MemoryManager {
    /** The block list, `self.memory` in os.py. */
    var memory: seq<Block>
    /** The size of the address space the list covers. */
    ghost const total: int

    /**
     * Between operations the blocks tile [0, total) in address order, a
     * block is free exactly when it has no owner, and no two neighbouring
     * blocks are free.
     */
    ghost predicate Valid()
      reads this
    {
      && total > 0
      && Covers(memory, 0, total)
      && OwnerConsistent(memory)
      && Coalesced(memory)
    }

    /** The manager starts with one free block spanning the whole space. */
    constructor (totalMemory: int)
      requires totalMemory > 0
      ensures Valid() && total == totalMemory
      ensures memory == [FreeBlock(0, totalMemory)]
    {
      total := totalMemory;
      memory := [FreeBlock(0, totalMemory)];
    }

    /**
     * Allocates `p.memoryRequired` units for `p.pid` with the named
     * strategy. It succeeds exactly when the strategy selects a block, and
     * then that block is split; otherwise nothing changes.
     */
    method Allocate(p: Process, strategy: Strategy) returns (ok: bool)
      requires Valid() && p.memoryRequired > 0
      modifies this
      ensures Valid() && Sum(memory) == total
      ensures ok <==> Select(old(memory), p.memoryRequired, strategy).Some?
      ensures ok ==> memory == Split(old(memory), Select(old(memory), p.memoryRequired, strategy).value, p.memoryRequired, p.pid)
      ensures !ok ==> memory == old(memory)
      ensures ok ==> multiset(Owners(memory)) == multiset(Owners(old(memory))) + multiset{p.pid}
      ensures OwnersUnique(old(memory)) && p.pid !in Owners(old(memory)) ==> OwnersUnique(memory)
    {
      if strategy == FirstFit {
        ok := AllocateFirstFit(p);
      } else if strategy == BestFit {
        ok := AllocateBestFit(p);
      } else {
        ok := false;
      }
      CoversSum(memory, 0, total);
    }

    /** First-fit: scans the blocks in address order and takes the first that fits. */
    method AllocateFirstFit(p: Process) returns (ok: bool)
      requires Valid() && p.memoryRequired > 0
      modifies this
      ensures Valid()
      ensures ok <==> FirstFitIndex(old(memory), p.memoryRequired).Some?
      ensures ok ==> memory == Split(old(memory), FirstFitIndex(old(memory), p.memoryRequired).value, p.memoryRequired, p.pid)
      ensures !ok ==> memory == old(memory)
      ensures ok ==> multiset(Owners(memory)) == multiset(Owners(old(memory))) + multiset{p.pid}
      ensures OwnersUnique(old(memory)) && p.pid !in Owners(old(memory)) ==> OwnersUnique(memory)
    {
      var i := 0;
      while i < |memory|
        invariant 0 <= i <= |memory|
        invariant memory == old(memory)
        invariant forall j :: 0 <= j < i ==> !Fits(memory[j], p.memoryRequired)
      {
        if memory[i].free && memory[i].size >= p.memoryRequired {
          AllocateBlock(i, p);
          return true;
        }
        i := i + 1;
      }
      return false;
    }

    /**
     * Best-fit: takes the smallest block that fits, the first of equals;
     * fails when no block fits.
     */
    method AllocateBestFit(p: Process) returns (ok: bool)
      requires Valid() && p.memoryRequired > 0
      modifies this
      ensures Valid()
      ensures ok <==> BestFitIndex(old(memory), p.memoryRequired).Some?
      ensures ok ==> memory == Split(old(memory), BestFitIndex(old(memory), p.memoryRequired).value, p.memoryRequired, p.pid)
      ensures !ok ==> memory == old(memory)
      ensures ok ==> multiset(Owners(memory)) == multiset(Owners(old(memory))) + multiset{p.pid}
      ensures OwnersUnique(old(memory)) && p.pid !in Owners(old(memory)) ==> OwnersUnique(memory)
    {
      var best := BestFitIndex(memory, p.memoryRequired);
      if best.None? {
        return false;
      }
      AllocateBlock(best.value, p);
      return true;
    }

    /**
     * Gives block `i` to `p`: a free remainder of the surplus is inserted
     * right after it, and the block shrinks to the request and becomes
     * owned by `p.pid`.
     */
    method AllocateBlock(i: nat, p: Process)
      requires Valid() && p.memoryRequired > 0
      requires i < |memory| && Fits(memory[i], p.memoryRequired)
      modifies this
      ensures Valid()
      ensures memory == Split(old(memory), i, p.memoryRequired, p.pid)
      ensures multiset(Owners(memory)) == multiset(Owners(old(memory))) + multiset{p.pid}
      ensures OwnersUnique(old(memory)) && p.pid !in Owners(old(memory)) ==> OwnersUnique(memory)
    {
      ghost var before := memory;
      var block := memory[i];
      if block.size > p.memoryRequired {
        var newBlock := FreeBlock(block.start + p.memoryRequired, block.size - p.memoryRequired);
        memory := memory[..i + 1] + [newBlock] + memory[i + 1..];
      }
      memory := memory[i := block.(size := p.memoryRequired, free := false, owner := Some(p.pid))];
      assert memory == Split(before, i, p.memoryRequired, p.pid);
      SplitLayout(before, i, p.memoryRequired, p.pid, 0, total);
      SplitCoalesced(before, i, p.memoryRequired, p.pid);
      SplitOwners(before, i, p.memoryRequired, p.pid);
    }

    /**
     * Frees every block owned by `pid`, then merges neighbouring free
     * blocks. Afterwards `pid` owns nothing and every other owner keeps
     * its block.
     */
    method Deallocate(pid: int)
      requires Valid()
      modifies this
      ensures Valid() && Sum(memory) == total
      ensures memory == Coalesce(Release(old(memory), pid))
      ensures Owners(memory) == Remove(Owners(old(memory)), pid)
      ensures OwnersUnique(old(memory)) ==> OwnersUnique(memory)
    {
      var i := 0;
      while i < |memory|
        invariant 0 <= i <= |memory| == |old(memory)|
        invariant forall k :: 0 <= k < i ==> memory[k] == ReleaseBlock(old(memory)[k], pid)
        invariant forall k :: i <= k < |memory| ==> memory[k] == old(memory)[k]
      {
        if !memory[i].free && memory[i].owner == Some(pid) {
          memory := memory[i := memory[i].(free := true, owner := None)];
        }
        i := i + 1;
      }
      assert memory == Release(old(memory), pid);
      Merge();
      Deallocation(old(memory), pid, 0, total);
      CoversSum(memory, 0, total);
    }

    /**
     * Merges each pair of neighbouring free blocks, staying at the same
     * index after a merge so that longer runs collapse into one block.
     */
    method Merge()
      modifies this
      ensures memory == Coalesce(old(memory))
    {
      var i := 0;
      while i < |memory| - 1
        invariant 0 <= i <= |memory|
        invariant memory[..i] + Coalesce(memory[i..]) == Coalesce(old(memory))
        decreases |memory| - i
      {
        if memory[i].free && memory[i + 1].free {
          ghost var before := memory;
          MergeAt(memory, i);
          memory := memory[i := Absorb(memory[i], memory[i + 1])];
          memory := memory[..i + 1] + memory[i + 2..];
          assert memory == before[..i] + [Absorb(before[i], before[i + 1])] + before[i + 2..];
        } else {
          KeepAt(memory, i);
          i := i + 1;
        }
      }
      assert memory[i..] == Coalesce(memory[i..]);
      assert memory[..i] + memory[i..] == memory;
    }
  }
}
