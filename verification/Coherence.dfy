/**
  The cache array as a value, and what it means for the cache and the memory behind it to stand
  for one flat memory.
 */
module Coherence {
  import opened Bits
  import opened FlatMemory
  import opened DataMemory

  const NUM_OF_WAYS: nat := 4
  const NUM_OF_SETS: nat := 1024
  const TAG_LIMIT: nat := 0x4_0000

  datatype Line = Line(valid: bool, dirty: bool, tag: u32, data: seq<u8>)

  /** The three bits of the replacement tree; false points left, true points right. */
  datatype Plru = Plru(root: bool, left: bool, right: bool)

  datatype CacheSet = CacheSet(lines: seq<Line>, plru: Plru)

  function SetIndex(address: u32): nat {
    address / BLOCK % NUM_OF_SETS
  }

  function TagOf(address: u32): u32 {
    address / (BLOCK * NUM_OF_SETS)
  }

  /** The block number of the line with a given tag in a given set. */
  function Frame(tag: u32, set_: nat): nat {
    tag * NUM_OF_SETS + set_
  }

  lemma FrameOfAddress(address: u32)
    ensures SetIndex(address) < NUM_OF_SETS && TagOf(address) < TAG_LIMIT
    ensures Frame(TagOf(address), SetIndex(address)) == address / BLOCK
  {
  }

  lemma DistinctFrames(tag: u32, s: nat, tag': u32, s': nat)
    requires s < NUM_OF_SETS && s' < NUM_OF_SETS && (tag != tag' || s != s')
    ensures Frame(tag, s) != Frame(tag', s')
  {
  }

  /** The byte address of a line, as the write-back puts it together. */
  function LineAddress(tag: u32, set_: nat): u32 {
    Frame(tag, set_) * BLOCK % TWO_32
  }

  lemma LineAddressIsFrame(tag: u32, s: nat)
    requires tag < TAG_LIMIT && s < NUM_OF_SETS
    ensures LineAddress(tag, s) / BLOCK == Frame(tag, s) && LineAddress(tag, s) % BLOCK == 0
  {
  }

  ghost predicate Shaped(sets: seq<CacheSet>) {
    && |sets| == NUM_OF_SETS
    && forall s :: 0 <= s < NUM_OF_SETS ==> ShapedSet(sets[s])
  }

  ghost predicate ShapedSet(cacheSet: CacheSet) {
    && |cacheSet.lines| == NUM_OF_WAYS
    && forall w :: 0 <= w < NUM_OF_WAYS ==> |cacheSet.lines[w].data| == BLOCK
  }

  /** Way w of set s holds a line with this tag. */
  ghost predicate Holds(sets: seq<CacheSet>, s: nat, w: nat, tag: u32)
    requires Shaped(sets) && s < NUM_OF_SETS && w < NUM_OF_WAYS
  {
    sets[s].lines[w].valid && sets[s].lines[w].tag == tag
  }

  ghost predicate Cached(sets: seq<CacheSet>, s: nat, tag: u32)
    requires Shaped(sets) && s < NUM_OF_SETS
  {
    exists w :: 0 <= w < NUM_OF_WAYS && Holds(sets, s, w, tag)
  }

  /** A valid line holds the flat content of its frame. */
  ghost predicate LineCorrect(line: Line, s: nat, flat: seq<u8>) {
    && (line.valid ==> line.tag < TAG_LIMIT && line.data == Block(flat, Frame(line.tag, s)))
    && (line.dirty ==> line.valid)
  }

  /** No tag is present twice in a set. */
  ghost predicate Unique(cacheSet: CacheSet)
    requires ShapedSet(cacheSet)
  {
    forall v, w :: 0 <= v < w < NUM_OF_WAYS && cacheSet.lines[v].valid && cacheSet.lines[w].valid ==>
      cacheSet.lines[v].tag != cacheSet.lines[w].tag
  }

  /** Memory is up to date for the frame of (tag, s) unless a dirty line holds it. */
  ghost predicate Backed(sets: seq<CacheSet>, mem: seq<u8>, flat: seq<u8>, s: nat, tag: u32)
    requires Shaped(sets) && s < NUM_OF_SETS
  {
    (exists w :: 0 <= w < NUM_OF_WAYS && Holds(sets, s, w, tag) && sets[s].lines[w].dirty)
    || Block(mem, Frame(tag, s)) == Block(flat, Frame(tag, s))
  }

  /** Cache and memory together stand for the flat memory. */
  ghost predicate Coherent(sets: seq<CacheSet>, mem: seq<u8>, flat: seq<u8>) {
    && Shaped(sets) && |mem| == |flat| == MEM_SIZE
    && (forall s, w :: 0 <= s < NUM_OF_SETS && 0 <= w < NUM_OF_WAYS ==> LineCorrect(sets[s].lines[w], s, flat))
    && (forall s :: 0 <= s < NUM_OF_SETS ==> Unique(sets[s]))
    && (forall s, tag: u32 :: 0 <= s < NUM_OF_SETS ==> Backed(sets, mem, flat, s, tag))
  }

  /** Sets with one line replaced. */
  function WithLine(sets: seq<CacheSet>, s: nat, w: nat, line: Line): seq<CacheSet>
    requires s < |sets| && w < |sets[s].lines|
  {
    sets[s := sets[s].(lines := sets[s].lines[w := line])]
  }

  function WithPlru(sets: seq<CacheSet>, s: nat, plru: Plru): seq<CacheSet>
    requires s < |sets|
  {
    sets[s := sets[s].(plru := plru)]
  }

  /** The replacement bits carry no data. */
  lemma PlruIsIrrelevant(sets: seq<CacheSet>, mem: seq<u8>, flat: seq<u8>, s: nat, plru: Plru)
    requires Coherent(sets, mem, flat) && s < NUM_OF_SETS
    ensures Coherent(WithPlru(sets, s, plru), mem, flat)
  {
    var sets' := WithPlru(sets, s, plru);
    forall s', tag: u32 | 0 <= s' < NUM_OF_SETS ensures Backed(sets', mem, flat, s', tag) {
      assert Backed(sets, mem, flat, s', tag);
      if w :| 0 <= w < NUM_OF_WAYS && Holds(sets, s', w, tag) && sets[s'].lines[w].dirty {
        assert Holds(sets', s', w, tag) && sets'[s'].lines[w].dirty;
      }
    }
  }

  /** The bytes of a line after a store of n bytes at offset; bytes beyond the array are dropped. */
  function StoredLine(data: seq<u8>, address: u32, n: nat, word: u32): (r: seq<u8>)
    requires |data| == BLOCK && n <= 4
    ensures |r| == BLOCK
    ensures forall i :: 0 <= i < BLOCK ==> r[i] == StoredByte(data, address, n, word, i)
  {
    seq<u8>(BLOCK, i requires 0 <= i < BLOCK => StoredByte(data, address, n, word, i))
  }

  function StoredByte(data: seq<u8>, address: u32, n: nat, word: u32, i: nat): u8
    requires |data| == BLOCK && n <= 4 && i < BLOCK
  {
    var off := address % BLOCK;
    if off <= i < off + n && address - off + i < MEM_SIZE then ByteOf(word, i - off) else data[i]
  }

  /** A store changes the line it falls into, and that line as the flat memory changes. */
  lemma StoreInBlock(flat: seq<u8>, address: u32, n: nat, word: u32, b: nat)
    requires |flat| == MEM_SIZE && n <= 4 && address % BLOCK + n <= BLOCK
    ensures Block(StoreBytes(flat, address, n, word), b) ==
            if b == address / BLOCK then StoredLine(Block(flat, b), address, n, word) else Block(flat, b)
  {
    var flat' := StoreBytes(flat, address, n, word);
    forall i | 0 <= i < BLOCK
      ensures Block(flat', b)[i] ==
              if b == address / BLOCK then StoredLine(Block(flat, b), address, n, word)[i] else Block(flat, b)[i]
    {
      var k := b * BLOCK + i;
      if k < MEM_SIZE {
        assert flat'[k] == Stored(flat, address, n, word, k);
      }
    }
  }

  /** A store that hits keeps cache and memory standing for the flat memory after the store. */
  lemma StoreHit(sets: seq<CacheSet>, mem: seq<u8>, flat: seq<u8>, w: nat, address: u32, n: nat, word: u32)
    requires Coherent(sets, mem, flat) && w < NUM_OF_WAYS && n <= 4 && address % BLOCK + n <= BLOCK
    requires SetIndex(address) < NUM_OF_SETS && Holds(sets, SetIndex(address), w, TagOf(address))
    ensures var line := sets[SetIndex(address)].lines[w];
            Coherent(WithLine(sets, SetIndex(address), w,
                              line.(dirty := true, data := StoredLine(line.data, address, n, word))),
                     mem, StoreBytes(flat, address, n, word))
  {
    var s, tag := SetIndex(address), TagOf(address);
    var line := sets[s].lines[w];
    var sets' := WithLine(sets, s, w, line.(dirty := true, data := StoredLine(line.data, address, n, word)));
    var flat' := StoreBytes(flat, address, n, word);
    FrameOfAddress(address);
    forall s', w' | 0 <= s' < NUM_OF_SETS && 0 <= w' < NUM_OF_WAYS
      ensures LineCorrect(sets'[s'].lines[w'], s', flat')
    {
      assert LineCorrect(sets[s'].lines[w'], s', flat);
      var other := sets'[s'].lines[w'];
      StoreInBlock(flat, address, n, word, Frame(other.tag, s'));
      if other.valid && (s' != s || w' != w) {
        assert s' == s ==> other.tag != tag;
        DistinctFrames(other.tag, s', tag, s);
      }
    }
    forall s', t: u32 | 0 <= s' < NUM_OF_SETS ensures Backed(sets', mem, flat', s', t) {
      assert Backed(sets, mem, flat, s', t);
      StoreInBlock(flat, address, n, word, Frame(t, s'));
      if s' == s && t == tag {
        assert Holds(sets', s, w, tag) && sets'[s].lines[w].dirty;
      } else if v :| 0 <= v < NUM_OF_WAYS && Holds(sets, s', v, t) && sets[s'].lines[v].dirty {
        assert Holds(sets', s', v, t) && sets'[s'].lines[v].dirty;
      } else {
        DistinctFrames(t, s', tag, s);
      }
    }
    forall s' | 0 <= s' < NUM_OF_SETS ensures Unique(sets'[s']) {
      assert Unique(sets[s']);
    }
  }

  /** The line that is about to be replaced may be dropped: memory has its content. */
  ghost predicate Droppable(line: Line, s: nat, mem: seq<u8>) {
    line.valid ==> Block(mem, Frame(line.tag, s)) == line.data
  }

  /** A clean line may always be dropped. */
  lemma CleanIsDroppable(sets: seq<CacheSet>, mem: seq<u8>, flat: seq<u8>, s: nat, w: nat)
    requires Coherent(sets, mem, flat) && s < NUM_OF_SETS && w < NUM_OF_WAYS
    requires !sets[s].lines[w].dirty
    ensures Droppable(sets[s].lines[w], s, mem)
  {
    var line := sets[s].lines[w];
    assert LineCorrect(line, s, flat) && Unique(sets[s]) && Backed(sets, mem, flat, s, line.tag);
  }

  /** Filling a way with an uncached line keeps the meaning. */
  lemma Fill(sets: seq<CacheSet>, mem: seq<u8>, flat: seq<u8>, w: nat, address: u32)
    requires Coherent(sets, mem, flat) && w < NUM_OF_WAYS && SetIndex(address) < NUM_OF_SETS
    requires !Cached(sets, SetIndex(address), TagOf(address))
    requires Droppable(sets[SetIndex(address)].lines[w], SetIndex(address), mem)
    ensures Coherent(WithLine(sets, SetIndex(address), w,
                              Line(true, false, TagOf(address), Block(mem, address / BLOCK))),
                     mem, flat)
  {
    var s, tag := SetIndex(address), TagOf(address);
    var victim := sets[s].lines[w];
    var sets' := WithLine(sets, s, w, Line(true, false, tag, Block(mem, address / BLOCK)));
    FrameOfAddress(address);
    assert Backed(sets, mem, flat, s, tag);
    forall s', w' | 0 <= s' < NUM_OF_SETS && 0 <= w' < NUM_OF_WAYS
      ensures LineCorrect(sets'[s'].lines[w'], s', flat)
    {
      assert LineCorrect(sets[s'].lines[w'], s', flat);
    }
    forall s', t: u32 | 0 <= s' < NUM_OF_SETS ensures Backed(sets', mem, flat, s', t) {
      assert Backed(sets, mem, flat, s', t) && LineCorrect(victim, s, flat);
      if v :| 0 <= v < NUM_OF_WAYS && Holds(sets, s', v, t) && sets[s'].lines[v].dirty && !(s' == s && v == w) {
        assert Holds(sets', s', v, t) && sets'[s'].lines[v].dirty;
      }
    }
    forall s' | 0 <= s' < NUM_OF_SETS ensures Unique(sets'[s']) {
      assert Unique(sets[s']);
      if s' == s {
        forall v | 0 <= v < NUM_OF_WAYS && v != w && sets[s].lines[v].valid ensures sets[s].lines[v].tag != tag {
          assert !Holds(sets, s, v, tag);
        }
      }
    }
  }

  /** Writing a dirty line back to its own frame keeps the meaning and makes the line droppable. */
  lemma WriteBack(sets: seq<CacheSet>, mem: seq<u8>, mem': seq<u8>, flat: seq<u8>, s: nat, w: nat)
    requires Coherent(sets, mem, flat) && s < NUM_OF_SETS && w < NUM_OF_WAYS && sets[s].lines[w].dirty
    requires BlockWritten(mem, Frame(sets[s].lines[w].tag, s), sets[s].lines[w].data, mem')
    ensures Coherent(sets, mem', flat)
    ensures Droppable(sets[s].lines[w], s, mem')
    ensures forall b: nat :: b != Frame(sets[s].lines[w].tag, s) ==> Block(mem', b) == Block(mem, b)
  {
    var line := sets[s].lines[w];
    var frame := Frame(line.tag, s);
    assert LineCorrect(line, s, flat);
    forall b: nat ensures Block(mem', b) == if b == frame then Block(flat, b) else Block(mem, b) {
      WrittenBlocks(mem, frame, line.data, mem', b);
      if b == frame && b * BLOCK >= MEM_SIZE {
        assert Block(mem, b) == Block(flat, b);
      }
    }
    forall s', t: u32 | 0 <= s' < NUM_OF_SETS ensures Backed(sets, mem', flat, s', t) {
      assert Backed(sets, mem, flat, s', t);
    }
  }
}
