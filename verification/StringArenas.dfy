/** The string arena of stb_ds.h: stbds_stralloc carves copies of strings out of a list of growing blocks. */
module StringArenas {

  const BLOCKSIZE_MIN: nat := 512
  const BLOCKSIZE_MAX: nat := 0x10_0000

  class Block {
    var next: Block?
    const storage: array<char>

    constructor (size: nat)
      ensures next == null && storage.Length == size && fresh(storage)
    {
      next := null;
      storage := new char[size](_ => '\0');
    }
  }

  /** A string handed out: where its copy starts, and its characters with the terminator. */
  datatype Handed = Handed(block: Block, start: nat, text: seq<char>)

  function Terminated(str: seq<char>): seq<char> { str + ['\0'] }

  function Shifted(n: nat, k: nat): nat
    decreases k
  {
    if k == 0 then n else Shifted(2 * n, k - 1)
  }

  /** The size of the next block: 512, 512, 1024, 1024, 2048, ... */
  function BlockSize(block: nat): nat { Shifted(BLOCKSIZE_MIN, block / 2) }

  /** Sizes start at 512 and double with every second block. */
  lemma BlockSizes(block: nat)
    ensures BlockSize(0) == BlockSize(1) == 512
    ensures BlockSize(block + 2) == 2 * BlockSize(block)
  {
    ShiftedTwice(BLOCKSIZE_MIN, block / 2);
  }

  /** Two copies do not share a character. */
  ghost predicate Apart(a: Handed, b: Handed) {
    a.block != b.block || a.start + |a.text| <= b.start || b.start + |b.text| <= a.start
  }

  /** Each block leads to the next one, the last to none. */
  ghost predicate Linked(blocks: seq<Block>)
    reads blocks
  {
    forall i {:trigger blocks[i]} :: 0 <= i < |blocks| ==> blocks[i].next == if i + 1 < |blocks| then blocks[i + 1]
        else null
  }

  /** No block comes twice, and no two share their characters. */
  ghost predicate Separate(blocks: seq<Block>) {
    && (forall i, j :: 0 <= i < j < |blocks| ==> blocks[i] != blocks[j])
    && forall b, c :: b in blocks && c in blocks && b != c ==> b.storage != c.storage
  }

  /** h is intact in its block. */
  ghost predicate Intact(blocks: seq<Block>, h: Handed)
    reads set b | b in blocks :: b.storage
  {
    && h.block in blocks && h.start + |h.text| <= h.block.storage.Length
    && h.block.storage[h.start .. h.start + |h.text|] == h.text
  }

  /**
   What has been handed out is intact and apart; in the first block only the
   characters before `remaining` are free.
   */
  ghost predicate Kept(blocks: seq<Block>, handed: seq<Handed>, storage: Block?, remaining: nat)
    reads set b | b in blocks :: b.storage
  {
    && (forall k {:trigger handed[k]} :: 0 <= k < |handed| ==>
          Intact(blocks, handed[k]) && (handed[k].block == storage ==> remaining <= handed[k].start))
    && forall j, k :: 0 <= j < k < |handed| ==> Apart(handed[j], handed[k])
  }

  class Arena {
    var storage: Block?
    var remaining: nat
    var block: nat
    ghost var blocks: seq<Block>
    ghost var handed: seq<Handed>

    ghost predicate Valid()
      reads this, blocks, set b | b in blocks :: b.storage
    {
      && Linked(blocks) && Separate(blocks)
      && storage == (if blocks == [] then null else blocks[0])
      && remaining <= (if storage == null then 0 else storage.storage.Length)
      && block <= 22
      && Kept(blocks, handed, storage, remaining)
    }

    constructor ()
      ensures Valid() && blocks == [] && handed == []
    {
      storage, remaining, block, blocks, handed := null, 0, 0, [], [];
    }

    /** A long string's block goes behind the first one, whose free characters are not wasted. */
    method InsertSecond(own: Block)
      requires Valid() && storage != null && own !in blocks && forall b :: b in blocks ==> b.storage != own.storage
      modifies storage`next, own`next, this`blocks
      ensures Valid() && blocks == [old(blocks)[0], own] + old(blocks)[1..]
    {
      hide Kept;
      own.next := storage.next;
      storage.next := own;
      ghost var blocks0 := blocks;
      blocks := [blocks[0], own] + blocks[1..];
      KeptMore(blocks0, blocks, handed, storage, remaining, storage, remaining);
    }

    /** A new first block. */
    method Prepend(sb: Block, size: nat)
      requires Valid() && sb !in blocks && sb.storage.Length == size && forall b :: b in blocks ==>
               b.storage != sb.storage
      modifies sb`next, this`storage, this`remaining, this`blocks
      ensures Valid() && blocks == [sb] + old(blocks) && storage == sb && remaining == size
    {
      hide Kept, Separate, Linked;
      KeptMore(blocks, [sb] + blocks, handed, storage, remaining, sb, size);
      SeparateMore(blocks, sb);
      sb.next := storage;
      LinkedMore(blocks, sb);
      storage := sb;
      remaining := size;
      blocks := [sb] + blocks;
    }

    /**
     Makes room for len characters: a new first block, or, for a long string, a
     block of its own, which is returned.
     */
    method MakeRoom(len: nat) returns (own: Block?)
      requires Valid() && len > remaining
      modifies this`storage, this`remaining, this`block, this`blocks, blocks
      ensures Valid()
      ensures forall b :: b in old(blocks) ==> b in blocks
      ensures forall b :: b in blocks && b !in old(blocks) ==> fresh(b) && fresh(b.storage)
      ensures own != null <==> len > BlockSize(old(block))
      ensures block == old(block) + (if BlockSize(old(block)) < 0x10_0000 then 1 else 0)
      ensures own == null ==> storage != null && len <= remaining == BlockSize(old(block)) && fresh(storage)
                              && storage.storage.Length == remaining
      ensures own == null ==> blocks == [storage] + old(blocks)
      ensures own != null && old(blocks) != [] ==>
                && blocks == [old(blocks)[0], own] + old(blocks)[1..]
                && storage == old(storage) && remaining == old(remaining)
      ensures own != null && old(blocks) == [] ==> blocks == [own]
      ensures own != null ==> own in blocks && own !in old(blocks) && own.storage.Length == len
      ensures own != null && own == storage ==> remaining == 0
    {
      hide Kept, Separate, Linked, BlockSize;
      var blocksize := BlockSize(block);
      if blocksize < BLOCKSIZE_MAX {
        Grows(block);
        block := block + 1;
      }
      if len > blocksize {
        own := new Block(len);
        if storage != null {
          InsertSecond(own);
        } else {
          Prepend(own, len);
          remaining := 0;
          KeptLess(blocks, handed, own, len);
        }
      } else {
        own := null;
        var sb := new Block(blocksize);
        Prepend(sb, blocksize);
      }
    }

    lemma HandedInBlocks()
      requires Valid()
      ensures forall k :: 0 <= k < |handed| ==> handed[k].block in blocks
    {
      forall k | 0 <= k < |handed| ensures handed[k].block in blocks { assert Intact(blocks, handed[k]); }
    }

    /** The characters just before `remaining` are in no copy. */
    lemma FrontFree(text: seq<char>)
      requires Valid() && storage != null && |text| <= remaining
      ensures forall k :: 0 <= k < |handed| ==> Apart(handed[k], Handed(storage, remaining - |text|, text))
    {
      hide Intact, Linked, Separate;
    }

    /** A copy of the string, in characters no other copy uses; all earlier copies stay as they are. */
    method Alloc(str: seq<char>) returns (b: Block, start: nat)
      requires Valid()
      modifies this, blocks, set c | c in blocks :: c.storage
      ensures Valid() && handed == old(handed) + [Handed(b, start, Terminated(str))]
      ensures start + |str| < b.storage.Length
      ensures b.storage[start .. start + |str|] == str && b.storage[start + |str|] == '\0'
      ensures |str| < old(remaining) ==> b == old(storage) && start == remaining == old(remaining) - |str| - 1
      ensures forall k :: 0 <= k < |old(handed)| ==>
                var h := old(handed)[k];
                && (h.block != b || h.start + |h.text| <= start || start + |str| < h.start)
                && h.start + |h.text| <= h.block.storage.Length
                && h.block.storage[h.start .. h.start + |h.text|] == h.text
      ensures forall c :: c in blocks && c !in old(blocks) ==> fresh(c) && fresh(c.storage)
    {
      hide Separate, Linked, BlockSize, Intact, Kept;
      var text := Terminated(str);
      var len := |text|;
      HandedInBlocks();
      if len > remaining {
        var own := MakeRoom(len);
        if own != null {
          Copy(own, 0, text);
          LastHanded(old(handed), own, 0, str);
          return own, 0;
        }
      }
      b, start := TakeFront(text);
      LastHanded(old(handed), b, start, str);
    }

    /** What it means that the last string handed out is intact, and that the earlier ones are. */
    lemma LastHanded(before: seq<Handed>, b: Block, start: nat, str: seq<char>)
      requires Valid() && handed == before + [Handed(b, start, Terminated(str))]
      ensures start + |str| < b.storage.Length
      ensures b.storage[start .. start + |str|] == str && b.storage[start + |str|] == '\0'
      ensures forall k {:trigger before[k]} :: 0 <= k < |before| ==>
                var h := before[k];
                && (h.block != b || h.start + |h.text| <= start || start + |str| < h.start)
                && h.start + |h.text| <= h.block.storage.Length
                && h.block.storage[h.start .. h.start + |h.text|] == h.text
    {
      hide Linked, Separate;
      var text, n := Terminated(str), |before|;
      assert handed[n] == Handed(b, start, text) && Intact(blocks, handed[n]);
      var copy := b.storage[start .. start + |text|];
      assert copy[..|str|] == b.storage[start .. start + |str|] && copy[|str|] == '\0';
      forall k {:trigger before[k]} | 0 <= k < n
        ensures
          var h := before[k];
          && (h.block != b || h.start + |h.text| <= start || start + |str| < h.start)
          && h.start + |h.text| <= h.block.storage.Length
          && h.block.storage[h.start .. h.start + |h.text|] == h.text
      {
        assert handed[k] == before[k] && Apart(handed[k], handed[n]) && Intact(blocks, handed[k]);
      }
    }

    /** The text goes into the last free characters of the first block. */
    method TakeFront(text: seq<char>) returns (b: Block, start: nat)
      requires Valid() && storage != null && |text| <= remaining
      modifies this`remaining, this`handed, storage.storage
      ensures Valid() && handed == old(handed) + [Handed(b, start, text)]
      ensures b == storage && start == remaining == old(remaining) - |text|
    {
      hide Separate, Linked, Kept;
      var len := |text|;
      FrontFree(text);
      KeptMore(blocks, blocks, handed, storage, remaining, storage, remaining - len);
      b, start := storage, remaining - len;
      remaining := start;
      Copy(b, start, text);
    }

    /** memmove into characters that no copy uses yet. */
    method Copy(b: Block, start: nat, text: seq<char>)
      requires Valid() && b in blocks && start + |text| <= b.storage.Length
      requires b == storage ==> remaining <= start
      requires forall k :: 0 <= k < |handed| ==> Apart(handed[k], Handed(b, start, text))
      modifies this`handed, b.storage
      ensures Valid() && handed == old(handed) + [Handed(b, start, text)]
    {
      hide Linked, Kept;
      KeptParts(blocks, handed, storage, remaining);
      forall i | 0 <= i < |text| {
        b.storage[start + i] := text[i];
      }
      forall k | 0 <= k < |handed| ensures Intact(blocks, handed[k]) {
        var h := handed[k];
        assert old(Intact(blocks, h)) && Apart(h, Handed(b, start, text));
        assert h.block == b || h.block.storage != b.storage;
        assert h.block.storage[h.start .. h.start + |h.text|] == old(h.block.storage[h.start .. h.start + |h.text|]);
      }
      assert b.storage[start .. start + |text|] == text;
      KeptAppend(blocks, handed, Handed(b, start, text), storage, remaining);
      handed := handed + [Handed(b, start, text)];
    }

    /** Frees the blocks one after the other. */
    method FreeAll() returns (ghost freed: seq<Block>)
      requires Valid()
      ensures freed == blocks
    {
      hide Kept, Separate;
      freed := [];
      var x := storage;
      while x != null
        invariant |freed| <= |blocks| && freed == blocks[..|freed|]
        invariant x == if |freed| < |blocks| then blocks[|freed|] else null
        decreases |blocks| - |freed|
      {
        var y := x.next;
        assert blocks[..|freed| + 1] == blocks[..|freed|] + [x];
        freed := freed + [x];
        x := y;
      }
    }

    /** Frees all blocks, each once, and starts over. */
    method Reset() returns (ghost freed: seq<Block>)
      requires Valid()
      modifies this
      ensures Valid() && blocks == [] && handed == [] && freed == old(blocks) && block == 0
      ensures storage == null && remaining == 0
    {
      freed := FreeAll();
      storage, remaining, block, blocks, handed := null, 0, 0, [], [];
      EmptyKept();
    }
  }

  lemma EmptyKept()
    ensures Kept([], [], null, 0) && Separate([])
  {}

  /** A new block, first or not, disturbs nothing handed out. */
  lemma KeptMore(blocks: seq<Block>, blocks': seq<Block>, handed: seq<Handed>, storage: Block?, remaining: nat,
                 storage': Block?, remaining': nat)
    requires Kept(blocks, handed, storage, remaining) && forall b :: b in blocks ==> b in blocks'
    requires (storage' == storage && remaining' <= remaining) || storage' !in blocks
    ensures Kept(blocks', handed, storage', remaining')
  {
    forall k | 0 <= k < |handed|
      ensures Intact(blocks', handed[k]) && (handed[k].block == storage' ==> remaining' <= handed[k].start)
    {
      assert Intact(blocks, handed[k]);
    }
  }

  lemma KeptParts(blocks: seq<Block>, handed: seq<Handed>, storage: Block?, remaining: nat)
    requires Kept(blocks, handed, storage, remaining)
    ensures forall k :: 0 <= k < |handed| ==> Intact(blocks, handed[k])
    ensures forall k :: 0 <= k < |handed| && handed[k].block == storage ==> remaining <= handed[k].start
    ensures forall j, k :: 0 <= j < k < |handed| ==> Apart(handed[j], handed[k])
  {
    hide Intact, Apart;
    forall k | 0 <= k < |handed| ensures Intact(blocks, handed[k]) { assert handed[k] == handed[k]; }
  }

  lemma KeptAppend(blocks: seq<Block>, handed: seq<Handed>, h: Handed, storage: Block?, remaining: nat)
    requires forall k :: 0 <= k < |handed| ==> Intact(blocks, handed[k])
    requires forall k :: 0 <= k < |handed| && handed[k].block == storage ==> remaining <= handed[k].start
    requires forall j, k :: 0 <= j < k < |handed| ==> Apart(handed[j], handed[k])
    requires Intact(blocks, h) && (h.block == storage ==> remaining <= h.start)
    requires forall k :: 0 <= k < |handed| ==> Apart(handed[k], h)
    ensures Kept(blocks, handed + [h], storage, remaining)
  {}

  lemma LinkedMore(blocks: seq<Block>, sb: Block)
    requires Linked(blocks) && sb.next == if blocks == [] then null else blocks[0]
    ensures Linked([sb] + blocks)
  {
    var all := [sb] + blocks;
    forall i {:trigger all[i]} | 0 <= i < |all| ensures all[i].next == if i + 1 < |all| then all[i + 1] else null {
      if i > 0 { assert all[i] == blocks[i - 1]; }
    }
  }

  lemma SeparateMore(blocks: seq<Block>, sb: Block)
    requires Separate(blocks) && sb !in blocks && forall b :: b in blocks ==> b.storage != sb.storage
    ensures Separate([sb] + blocks)
  {}

  lemma KeptLess(blocks: seq<Block>, handed: seq<Handed>, storage: Block?, remaining: nat)
    requires Kept(blocks, handed, storage, remaining)
    ensures Kept(blocks, handed, storage, 0)
  {}

  lemma {:induction false} ShiftedTwice(n: nat, k: nat)
    ensures Shifted(2 * n, k) == 2 * Shifted(n, k)
    decreases k
  {
    if k > 0 { ShiftedTwice(2 * n, k - 1); }
  }

  lemma {:induction false} ShiftedGrows(k: nat, m: nat)
    requires m <= k
    ensures Shifted(BLOCKSIZE_MIN, m) <= Shifted(BLOCKSIZE_MIN, k)
  {
    if m < k {
      ShiftedGrows(k - 1, m);
      ShiftedTwice(BLOCKSIZE_MIN, k - 1);
    }
  }

  /** The counter of blocks stops at 22: by then blocks have their greatest size. */
  lemma Grows(block: nat)
    requires BlockSize(block) < BLOCKSIZE_MAX
    ensures block < 22
  {
    if block >= 22 {
      ShiftedGrows(block / 2, 11);
      assert Shifted(512, 11) == 512 * 2048;
    }
  }
}
