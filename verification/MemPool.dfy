/** The free-list allocator of the XML library and the growing array that holds its blocks. */
module MemPool {
  import opened Sequences

  /** A dynamic array that doubles when it is full. The initial storage is part of the object in the
      original; here it is an array like every later one. */
  class DynArray<T(0)> {
    var mem: array<T>
    var capacity: nat
    var size: nat

    ghost predicate Valid()
      reads this
    {
      capacity == mem.Length && size <= capacity
    }

    ghost function Contents(): seq<T>
      requires Valid()
      reads this, mem
    {
      mem[..size]
    }

    constructor (initialSize: nat)
      ensures Valid() && fresh(mem) && Contents() == [] && capacity == initialSize
    {
      mem := new T[initialSize];
      capacity, size := initialSize, 0;
    }

    method Clear()
      requires Valid()
      modifies this`size
      ensures Valid() && Contents() == []
    {
      size := 0;
    }

    /** Makes room for cap elements; what is stored stays where it is. */
    method EnsureCapacity(cap: nat)
      requires Valid()
      modifies this`mem, this`capacity
      ensures Valid() && cap <= capacity && Contents() == old(Contents())
      ensures capacity == if cap > old(capacity) then 2 * cap else old(capacity)
      ensures mem == old(mem) || fresh(mem)
    {
      if cap > capacity {
        var newMem := new T[2 * cap];
        for i := 0 to size
          modifies newMem
          invariant newMem[..i] == mem[..i]
        {
          newMem[i] := mem[i];
        }
        mem, capacity := newMem, 2 * cap;
      }
    }

    method Push(t: T)
      requires Valid()
      modifies this, mem
      ensures Valid() && Contents() == old(Contents()) + [t]
      ensures mem == old(mem) || fresh(mem)
    {
      EnsureCapacity(size + 1);
      mem[size] := t;
      size := size + 1;
    }

    method Pop() returns (t: T)
      requires Valid() && size > 0
      modifies this`size
      ensures Valid() && old(Contents()) == Contents() + [t]
    {
      size := size - 1;
      t := mem[size];
    }

    /** Removes the element at index i; the last one takes its place. */
    method SwapRemove(i: nat)
      requires Valid() && i < size
      modifies this`size, mem
      ensures Valid() && Contents() == old(Contents())[i := old(Contents())[old(size) - 1]][..old(size) - 1]
      ensures LosesOne(old(Contents()), Contents(), i)
    {
      hide LosesOne;
      ghost var was, all := mem[..size], mem[..];
      SwapRemoved(was, i);
      mem[i] := mem[size - 1];
      assert mem[..] == all[i := all[size - 1]];
      size := size - 1;
      UpdateInPrefix(all, i, size);
    }
  }

  /** Overwriting an element in front of the last one that counts. */
  lemma UpdateInPrefix<T>(all: seq<T>, i: nat, last: nat)
    requires i <= last < |all|
    ensures all[i := all[last]][..last] == all[..last + 1][i := all[..last + 1][last]][..last]
  {
  }

  /** now holds what was holds, one occurrence of the element at index i apart. */
  ghost predicate LosesOne<T>(was: seq<T>, now: seq<T>, i: nat)
  {
    i < |was| && multiset(now) == multiset(was) - multiset{was[i]}
  }

  /** Overwriting an element with the last one and dropping that removes one occurrence. */
  lemma SwapRemoved<T>(was: seq<T>, i: nat)
    requires i < |was|
    ensures LosesOne(was, was[i := was[|was| - 1]][..|was| - 1], i)
  {
    var x, y := was[i], was[|was| - 1];
    var now := was[i := y];
    DropLast(now);
    Cancel(multiset(was), x, y);
  }

  lemma DropLast<T>(s: seq<T>)
    requires s != []
    ensures multiset(s[..|s| - 1]) == multiset(s) - multiset{s[|s| - 1]}
  {
    assert s == s[..|s| - 1] + [s[|s| - 1]];
  }

  lemma Cancel<T>(m: multiset<T>, x: T, y: T)
    ensures m - multiset{x} + multiset{y} - multiset{y} == m - multiset{x}
  {
  }

  /** A piece of memory: part of the free list while it is free, owned by the client while it is live. */
  class Item {
    var next: Item?

    constructor ()
    {
    }
  }

  class Block {
    const items: seq<Item>

    constructor (n: nat)
      ensures |items| == n && Distinct(items) && forall i :: 0 <= i < n ==> fresh(items[i])
    {
      var made: seq<Item> := [];
      while |made| < n
        invariant |made| <= n && Distinct(made)
        invariant forall i :: 0 <= i < |made| ==> fresh(made[i])
      {
        var item := new Item();
        made := made + [item];
      }
      items := made;
    }
  }

  ghost predicate AreBlocks(blocks: seq<Block?>, itemsPerBlock: nat)
  {
    null !in blocks && forall i :: 0 <= i < |blocks| ==> |blocks[i].items| == itemsPerBlock
  }

  /** All items of the blocks, block after block. */
  ghost function AllItems(blocks: seq<Block?>): seq<Item>
    requires null !in blocks
  {
    if blocks == [] then [] else AllItems(blocks[..|blocks| - 1]) + blocks[|blocks| - 1].items
  }

  lemma ExtendBlocks(blocks: seq<Block?>, block: Block, n: nat)
    requires AreBlocks(blocks, n) && |block.items| == n
    ensures AreBlocks(blocks + [block], n) && (blocks + [block])[..|blocks|] == blocks
    ensures AllItems(blocks + [block]) == AllItems(blocks) + block.items
  {
    assert (blocks + [block])[..|blocks|] == blocks;
  }

  lemma {:induction false} AllItemsSize(blocks: seq<Block?>, n: nat)
    requires AreBlocks(blocks, n)
    ensures |AllItems(blocks)| == |blocks| * n
  {
    if blocks != [] {
      var k := |blocks| - 1;
      AllItemsSize(blocks[..k], n);
      assert (k + 1) * n == k * n + n;
    }
  }

  /** The items of the list are linked in this order, from root to a null pointer. */
  ghost predicate Linked(root: Item?, items: seq<Item>)
    reads items
  {
    if items == [] then root == null else root == items[0] && Linked(items[0].next, items[1..])
  }

  /** Links each item to the one behind it. */
  method Link(items: seq<Item>)
    requires items != [] && Distinct(items)
    modifies items
    ensures Linked(items[0], items)
  {
    for i := 0 to |items| - 1
      invariant forall j :: 0 <= j < i ==> items[j].next == items[j + 1]
    {
      items[i].next := items[i + 1];
    }
    items[|items| - 1].next := null;
    NeighboursLinked(items, 0);
    assert items[0..] == items;
  }

  lemma {:induction false} NeighboursLinked(items: seq<Item>, k: nat)
    requires k < |items| && items[|items| - 1].next == null
    requires forall i :: 0 <= i < |items| - 1 ==> items[i].next == items[i + 1]
    ensures Linked(items[k], items[k..])
    decreases |items| - k
  {
    var rest := items[k..];
    if k + 1 < |items| {
      NeighboursLinked(items, k + 1);
      assert rest[1..] == items[k + 1..];
    } else {
      assert rest == [items[k]];
    }
  }

  /** Every item is in the free list or live, none is both, and none occurs twice. */
  ghost predicate Partition(items: seq<Item>, free: seq<Item>, live: set<Item>)
  {
    && Distinct(items) && Distinct(free)
    && (forall x :: x in items ==> x in free || x in live)
    && (forall x :: x in free ==> x in items && x !in live)
    && (forall x :: x in live ==> x in items)
    && |items| == |free| + |live|
  }

  /** An item in front of a list, linked to its root. */
  lemma PushLinked(root: Item?, items: seq<Item>, item: Item)
    requires Linked(root, items) && item.next == root
    ensures Linked(item, [item] + items)
  {
    assert ([item] + items)[1..] == items;
  }

  lemma TakeFree(items: seq<Item>, free: seq<Item>, live: set<Item>)
    requires free != [] && Partition(items, free, live)
    ensures free[0] !in live && |live| < |items| && Partition(items, free[1..], live + {free[0]})
  {
    assert free == [free[0]] + free[1..];
    assert free[0] in free;
    assert forall x :: x in free[1..] ==> x in free;
  }

  lemma GiveBack(items: seq<Item>, free: seq<Item>, live: set<Item>, x: Item)
    requires x in live && Partition(items, free, live)
    ensures Partition(items, [x] + free, live - {x}) && |live - {x}| == |live| - 1 && x !in free
  {
  }

  /** A new block is taken when nothing is free. */
  lemma AddBlock(items: seq<Item>, live: set<Item>, made: seq<Item>)
    requires Partition(items, [], live) && Distinct(made)
    requires forall x :: x in made ==> x !in live
    ensures Partition(items + made, made, live) && |items| == |live|
  {
    assert forall x :: x in items ==> x in live;
    forall i, j | 0 <= i < j < |items + made|
      ensures (items + made)[i] != (items + made)[j]
    {
      if i < |items| <= j {
        assert made[j - |items|] in made && items[i] in items;
      }
    }
  }

  lemma {:induction false} TimesGrows(a: nat, b: nat, n: nat)
    requires a <= b
    ensures a * n <= b * n
    decreases b
  {
    if a < b {
      TimesGrows(a, b - 1, n);
      assert b * n == (b - 1) * n + n;
    }
  }

  /** The blocks hold as many items as were ever live at once, and c blocks would not if c were any smaller. */
  lemma FewestBlocks(pool: MemPoolT, c: nat)
    requires pool.Valid()
    ensures var blocks := pool.blockPtrs.Contents();
            pool.maxAllocs <= |blocks| * pool.itemsPerBlock && (c < |blocks| ==> c * pool.itemsPerBlock < pool.maxAllocs)
  {
    var blocks, n := pool.blockPtrs.Contents(), pool.itemsPerBlock;
    AllItemsSize(blocks, n);
    if c < |blocks| {
      AllItemsSize(blocks[..|blocks| - 1], n);
      TimesGrows(c, |blocks| - 1, n);
    }
  }

  class MemPoolT {
    const itemsPerBlock: nat
    const blockPtrs: DynArray<Block?>
    var root: Item?
    var currentAllocs: int
    var nAllocs: int
    var maxAllocs: int
    var nUntracked: int
    /** The free list in order, and the items that are with the client. */
    ghost var free: seq<Item>
    ghost var live: set<Item>

    ghost predicate Valid()
      reads this, blockPtrs, blockPtrs.mem, free
    {
      && Consistent()
      && var blocks := blockPtrs.Contents();
         blocks != [] ==> |AllItems(blocks[..|blocks| - 1])| < maxAllocs
    }

    /** Everything but that all blocks are needed. */
    ghost predicate Consistent()
      reads this, blockPtrs, blockPtrs.mem, free
    {
      && itemsPerBlock >= 1 && blockPtrs.Valid()
      && var blocks := blockPtrs.Contents();
         && AreBlocks(blocks, itemsPerBlock)
         && Linked(root, free)
         && Partition(AllItems(blocks), free, live)
         && currentAllocs == |live| <= maxAllocs <= |AllItems(blocks)|
    }

    /** itemSize is the size the pool is instantiated with; a block takes four kilobytes. */
    constructor (itemSize: nat)
      requires 1 <= itemSize <= 4096
      ensures Valid() && fresh(blockPtrs) && fresh(blockPtrs.mem)
      ensures itemsPerBlock == 4096 / itemSize && live == {} && free == [] && blockPtrs.Contents() == []
      ensures currentAllocs == nAllocs == maxAllocs == nUntracked == 0
    {
      itemsPerBlock := 4096 / itemSize;
      blockPtrs := new DynArray(10);
      root, currentAllocs, nAllocs, maxAllocs, nUntracked := null, 0, 0, 0, 0;
      free, live := [], {};
    }

    /** The first half of Alloc: a new block, its items linked one behind the other. */
    method AddFreeBlock()
      requires Valid() && root == null
      modifies this`root, this`free, blockPtrs, blockPtrs.mem
      ensures Consistent() && (blockPtrs.mem == old(blockPtrs.mem) || fresh(blockPtrs.mem))
      ensures exists block: Block :: fresh(block) && blockPtrs.Contents() == old(blockPtrs.Contents()) + [block] && free == block.items
      ensures root != null && old(free) == []
      ensures |AllItems(old(blockPtrs.Contents()))| == |live|
    {
      hide Partition, AllItems;
      var block := new Block(itemsPerBlock);
      ghost var blocks := blockPtrs.Contents();
      blockPtrs.Push(block);
      Link(block.items);
      root := block.items[0];
      AddBlock(AllItems(blocks), live, block.items);
      ExtendBlocks(blocks, block, itemsPerBlock);
      free := block.items;
    }

    /** Hands out the head of the free list, after adding a block if there is none. */
    method Alloc() returns (result: Item)
      requires Valid()
      modifies this, blockPtrs, blockPtrs.mem
      ensures Valid() && (blockPtrs.mem == old(blockPtrs.mem) || fresh(blockPtrs.mem))
      ensures result !in old(live) && live == old(live) + {result}
      ensures old(free) != [] ==> old(free) == [result] + free && blockPtrs.Contents() == old(blockPtrs.Contents())
      ensures old(free) == [] ==> exists block: Block :: fresh(block) && blockPtrs.Contents() == old(blockPtrs.Contents()) + [block]
                                                         && [result] + free == block.items
      ensures currentAllocs == old(currentAllocs) + 1 && nAllocs == old(nAllocs) + 1 && nUntracked == old(nUntracked) + 1
      ensures maxAllocs == if currentAllocs > old(maxAllocs) then currentAllocs else old(maxAllocs)
    {
      hide Partition;
      if root == null {
        AddFreeBlock();
      }
      result := TakeRoot();
    }

    /** The second half of Alloc: the head of the free list goes to the client. */
    method TakeRoot() returns (result: Item)
      requires Consistent() && root != null
      modifies this`root, this`free, this`live, this`currentAllocs, this`nAllocs, this`maxAllocs, this`nUntracked
      ensures Consistent()
      ensures old(free) == [result] + free && result !in old(live) && live == old(live) + {result}
      ensures currentAllocs == old(currentAllocs) + 1 && nAllocs == old(nAllocs) + 1 && nUntracked == old(nUntracked) + 1
      ensures maxAllocs == if currentAllocs > old(maxAllocs) then currentAllocs else old(maxAllocs)
    {
      hide Partition, AllItems;
      result := root;
      TakeFree(AllItems(blockPtrs.Contents()), free, live);
      root := root.next;
      free, live := free[1..], live + {result};
      currentAllocs := currentAllocs + 1;
      if currentAllocs > maxAllocs {
        maxAllocs := currentAllocs;
      }
      nAllocs := nAllocs + 1;
      nUntracked := nUntracked + 1;
    }

    /** Puts an item at the head of the free list; a null pointer is ignored. */
    method Free(mem: Item?)
      requires Valid() && (mem == null || mem in live)
      modifies this, mem
      ensures Valid() && blockPtrs.Contents() == old(blockPtrs.Contents())
      ensures mem != null ==> free == [mem] + old(free) && live == old(live) - {mem} && currentAllocs == old(currentAllocs) - 1
      ensures mem == null ==> free == old(free) && live == old(live) && currentAllocs == old(currentAllocs) && root == old(root)
      ensures nAllocs == old(nAllocs) && maxAllocs == old(maxAllocs) && nUntracked == old(nUntracked)
    {
      if mem == null {
        return;
      }
      PushFree(mem);
    }

    /** Free for an item: it becomes the head of the free list. */
    method PushFree(item: Item)
      requires Valid() && item in live
      modifies this`root, this`currentAllocs, this`free, this`live, item
      ensures Valid() && free == [item] + old(free) && live == old(live) - {item} && currentAllocs == old(currentAllocs) - 1
    {
      hide Partition, AllItems, Linked;
      currentAllocs := currentAllocs - 1;
      GiveBack(AllItems(blockPtrs.Contents()), free, live, item);
      item.next := root;
      PushLinked(root, free, item);
      root := item;
      free, live := [item] + free, live - {item};
    }

    /** Gives all blocks back. */
    method Clear()
      requires Valid()
      modifies this, blockPtrs
      ensures Valid() && blockPtrs.Contents() == [] && free == [] && live == {} && root == null
      ensures currentAllocs == nAllocs == maxAllocs == nUntracked == 0
    {
      while blockPtrs.size > 0
        invariant blockPtrs.Valid()
        decreases blockPtrs.size
      {
        var _ := blockPtrs.Pop();
      }
      root, currentAllocs, nAllocs, maxAllocs, nUntracked := null, 0, 0, 0, 0;
      free, live := [], {};
    }

    method SetTracked()
      requires Valid()
      modifies this`nUntracked
      ensures Valid() && nUntracked == old(nUntracked) - 1
    {
      nUntracked := nUntracked - 1;
    }

    /** A client writes into an item it owns. The link shares its memory with the client's data, so it may become anything. */
    method Overwrite(item: Item, data: Item?)
      requires Valid() && item in live
      modifies item
      ensures Valid() && item.next == data
    {
      item.next := data;
    }
  }
}
