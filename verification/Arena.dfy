/**
  The value arena of conformance/c/value.c: a list of chunks, the newest first,
  out of which blocks are cut from the front and which a reset empties at once.
  Between two resets no two blocks overlap, and every byte a chunk has given is
  in exactly one block.
 */
module Arena {
  import opened Common

  const CHUNK := 4096
  const ALIGN := 8

  /** A size rounded up to the alignment, as `size_t` arithmetic has it. */
  function Need(size: nat): (need: nat)
    requires size < TWO64
    ensures Aligned(need)
  {
    var sum := (size + (ALIGN - 1)) % TWO64;
    sum - sum % ALIGN
  }

  /** The rounding holds what was asked for, and wastes less than the alignment, short of the last seven sizes. */
  lemma NeedHoldsIff(size: nat)
    requires size < TWO64
    ensures size <= Need(size) < size + 8 <==> size <= TWO64 - 8
  {
  }

  class Chunk {
    var len: nat
    const cap: nat

    constructor (len: nat, cap: nat)
      ensures this.len == len && this.cap == cap
    {
      this.len, this.cap := len, cap;
    }
  }

  /** A block handed out: where it starts in its chunk, and the bytes that are its own. */
  datatype Block = Block(chunk: Chunk, at: nat, size: nat)

  ghost predicate Apart(a: Block, b: Block) {
    a.chunk == b.chunk ==> a.at + a.size <= b.at || b.at + b.size <= a.at
  }

  predicate Aligned(n: nat) { n % 8 == 0 }

  lemma AlignedSum(a: nat, b: nat)
    requires Aligned(a) && Aligned(b)
    ensures Aligned(a + b) && Aligned(0) && Aligned(CHUNK)
  {
  }

  /** A block past the end of every other in its chunk is apart from all of them. */
  lemma DisjointMore(blocks: seq<Block>, b: Block)
    requires Disjoint(blocks)
    requires forall k :: 0 <= k < |blocks| && blocks[k].chunk == b.chunk ==> blocks[k].at + blocks[k].size <= b.at
    ensures Disjoint(blocks + [b]) && Sizes(blocks + [b]) == Sizes(blocks) + b.size
  {
    hide Sizes;
    SizesMore(blocks, b);
  }

  lemma SizesMore(blocks: seq<Block>, b: Block)
    ensures Sizes(blocks + [b]) == Sizes(blocks) + b.size
  {
    assert (blocks + [b])[..|blocks|] == blocks;
  }

  ghost predicate Disjoint(blocks: seq<Block>) {
    forall i, j :: 0 <= i < j < |blocks| ==> Apart(blocks[i], blocks[j])
  }

  ghost predicate Sane(c: Chunk)
    reads c
  { c.len <= c.cap && Aligned(c.len) }

  /** Inside what its chunk has given out, at an aligned offset. */
  ghost predicate Placed(chunks: seq<Chunk>, b: Block)
    reads chunks
  {
    b.chunk in chunks && Aligned(b.at) && Aligned(b.size) && b.at + b.size <= b.chunk.len <= b.chunk.cap
  }

  ghost function Sizes(blocks: seq<Block>): nat {
    if blocks == [] then 0 else Sizes(blocks[..|blocks| - 1]) + blocks[|blocks| - 1].size
  }

  /** How much each chunk has given out. */
  ghost function Given(chunks: seq<Chunk>): (g: seq<nat>)
    reads chunks
    ensures |g| == |chunks| && forall i :: 0 <= i < |g| ==> g[i] == chunks[i].len
  { seq(|chunks|, i requires 0 <= i < |chunks| reads chunks => chunks[i].len) }

  ghost function Total(given: seq<nat>): nat {
    if given == [] then 0 else given[0] + Total(given[1..])
  }

  ghost function Capacity(chunks: seq<Chunk>): nat {
    if chunks == [] then 0 else chunks[0].cap + Capacity(chunks[1..])
  }

  ghost predicate Each(chunks: seq<Chunk>) { forall i, j :: 0 <= i < j < |chunks| ==> chunks[i] != chunks[j] }

  lemma TotalCons(g: nat, given: seq<nat>)
    ensures Total([g] + given) == g + Total(given)
  {
    assert ([g] + given)[1..] == given;
  }

  lemma GivenCons(c: Chunk, chunks: seq<Chunk>)
    ensures Given([c] + chunks) == [c.len] + Given(chunks)
  {
  }

  /** One chunk growing by `n` grows the total by `n`. */
  lemma {:induction false} TotalGrows(given: seq<nat>, i: nat, n: nat)
    requires i < |given|
    ensures Total(given[i := given[i] + n]) == Total(given) + n
  {
    if i > 0 {
      TotalGrows(given[1..], i - 1, n);
      assert given[i := given[i] + n][1..] == given[1..][i - 1 := given[i] + n];
    } else {
      assert given[i := given[i] + n][1..] == given[1..];
    }
  }

  lemma {:induction false} TotalNone(given: seq<nat>)
    requires forall i :: 0 <= i < |given| ==> given[i] == 0
    ensures Total(given) == 0
  {
    if given != [] {
      TotalNone(given[1..]);
    }
  }

  lemma NoSizes()
    ensures Sizes([]) == 0
  {
  }

  class Arena {
    var chunks: seq<Chunk>
    /** The blocks handed out since the last reset. */
    ghost var live: seq<Block>

    ghost predicate Valid()
      reads this, chunks
    {
      Each(chunks) &&
      (forall i :: 0 <= i < |chunks| ==> Sane(chunks[i])) &&
      (forall k :: 0 <= k < |live| ==> Placed(chunks, live[k])) &&
      Disjoint(live) &&
      Sizes(live) == Total(Given(chunks))
    }

    constructor ()
      ensures Valid() && chunks == [] && live == []
    {
      chunks, live := [], [];
    }

    /** `cv_alloc`: the first chunk with room, or a new one in front if memory is granted for it. */
    method Alloc(size: nat, granted: bool) returns (r: Option<Block>)
      requires Valid() && size < TWO64
      modifies this, chunks
      ensures Valid()
      ensures r.Some? <==>
        granted || exists i :: 0 <= i < old(|chunks|) && old(chunks[i].cap - chunks[i].len) >= Need(size)
      ensures r.None? ==> chunks == old(chunks) && live == old(live)
      ensures r.Some? ==> live == old(live) + [r.value] && r.value.size == Need(size)
      ensures r.Some? ==> (
        var c := r.value.chunk;
        if c in old(chunks) then
          chunks == old(chunks) && r.value.at == old(c.len) &&
          exists i :: 0 <= i < |chunks| && c == chunks[i] &&
            forall j :: 0 <= j < i ==> old(chunks[j].cap - chunks[j].len) < Need(size)
        else
          fresh(c) && chunks == [c] + old(chunks) && r.value.at == 0 &&
          c.cap == (if Need(size) > 4096 then Need(size) else 4096) &&
          forall j :: 0 <= j < old(|chunks|) ==> old(chunks[j].cap - chunks[j].len) < Need(size))
      ensures Capacity(chunks) >= old(Capacity(chunks))
    {
      hide Aligned, Disjoint, Total, Sizes, Need, Apart, Given, Placed;
      var need := Need(size);
      for i := 0 to |chunks|
        invariant forall j :: 0 <= j < i ==> chunks[j].cap - chunks[j].len < need
        invariant Valid() && chunks == old(chunks) && live == old(live)
        invariant forall c :: c in chunks ==> c.len == old(c.len)
      {
        var c := chunks[i];
        if c.cap - c.len >= need {
          var b := Cut(i, need);
          return Some(b);
        }
      }
      if !granted {
        return None;
      }
      var b := Extend(need);
      return Some(b);
    }

    /** A block at the front of a new chunk, which is the first from now on. */
    method Extend(need: nat) returns (b: Block)
      requires Valid() && Aligned(need)
      modifies this
      ensures Valid() && live == old(live) + [b]
      ensures fresh(b.chunk) && chunks == [b.chunk] + old(chunks) && b.at == 0 && b.size == need
      ensures b.chunk.cap == (if need > 4096 then need else 4096)
    {
      hide Aligned, Disjoint, Total, Sizes, Apart, Given;
      var cap := if need > CHUNK then need else CHUNK;
      var c := new Chunk(need, cap);
      ghost var before := chunks;
      AlignedSum(need, need);
      b := Block(c, 0, need);
      DisjointMore(live, b);
      GivenCons(c, before);
      TotalCons(need, Given(before));
      chunks := [c] + chunks;
      live := live + [b];
      assert forall i :: 0 < i < |chunks| ==> chunks[i] == before[i - 1];
      assert c in chunks && forall d :: d in before ==> d in chunks;
      assert Placed(chunks, b);
    }

    method Grow(i: nat, need: nat)
      requires i < |chunks| && Each(chunks)
      modifies chunks[i]
      ensures chunks[i].len == old(chunks[i].len) + need
      ensures Given(chunks) == old(Given(chunks))[i := old(chunks[i].len) + need]
    {
      chunks[i].len := chunks[i].len + need;
    }

    /** A block off the front of what is left of a chunk. */
    method Cut(i: nat, need: nat) returns (b: Block)
      requires Valid() && i < |chunks| && Aligned(need) && chunks[i].cap - chunks[i].len >= need
      modifies this`live, chunks[i]
      ensures Valid() && live == old(live) + [b] && b == Block(chunks[i], old(chunks[i].len), need)
    {
      hide Aligned, Disjoint, Total, Sizes, Apart, Given;
      var c := chunks[i];
      b := Block(c, c.len, need);
      AlignedSum(c.len, need);
      DisjointMore(live, b);
      TotalGrows(Given(chunks), i, need);
      Grow(i, need);
      assert forall d :: d in chunks ==> old(d.len) <= d.len;
      assert forall k :: 0 <= k < |live| ==> Placed(chunks, live[k]);
      assert forall j :: 0 <= j < |chunks| ==> Sane(chunks[j]);
      live := live + [b];
    }

    /** `cv_arena_reset`: every chunk kept, and every byte of it free again. */
    method Reset()
      requires Valid()
      modifies this, chunks
      ensures Valid() && live == [] && chunks == old(chunks)
      ensures forall i :: 0 <= i < |chunks| ==> chunks[i].len == 0
    {
      hide Sizes, Total, Apart;
      live := [];
      for i := 0 to |chunks|
        invariant chunks == old(chunks) && live == []
        invariant Each(chunks)
        invariant forall j :: 0 <= j < i ==> chunks[j].len == 0
      {
        chunks[i].len := 0;
      }
      NoSizes();
      TotalNone(Given(chunks));
    }
  }
}
