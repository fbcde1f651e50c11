/** The conductor's reorder buffer: blocks go in in any order and come out by height. */
module BlockCaches {
  import opened Outcomes
  import opened Words

  /** Heights are validated to fit a signed 64-bit integer. */
  const MAX_HEIGHT: nat := 0x7fff_ffff_ffff_ffff

  type Height = x: nat | x <= MAX_HEIGHT

  datatype Block<+T> = Block(height: Height, payload: T)

  datatype Error =
    | Occupied(height: Usize)
    | Old(blockHeight: Usize, currentHeight: Usize)
    | ZeroHeightsNotSupported

  // ----- one step at a time

  /** The value of a cache: its blocks by height, and the height to pop next. */
  datatype Cache<+T> = Cache(inner: map<Height, Block<T>>, next: nat)

  ghost predicate WellFormed<T>(c: Cache<T>) {
    && 1 <= c.next <= MAX_HEIGHT + 1
    && forall h :: h in c.inner ==> c.next <= h && c.inner[h].height == h
  }

  function InsertResult<T>(c: Cache<T>, b: Block<T>): Result<(), Error>
    requires c.next < WORD
  {
    if b.height < c.next then Err(Old(b.height, c.next))
    else if b.height in c.inner then Err(Occupied(b.height))
    else Ok(())
  }

  datatype Op<+T> = Insert(block: Block<T>) | Pop | DropObsolete(latest: Height)

  function Popped<T>(c: Cache<T>, op: Op<T>): seq<Block<T>> {
    if op.Pop? && c.next in c.inner then [c.inner[c.next]] else []
  }

  function After<T>(c: Cache<T>, op: Op<T>): Cache<T> {
    match op
    case Insert(b) =>
      if c.next <= b.height && b.height !in c.inner then c.(inner := c.inner[b.height := b]) else c
    case Pop =>
      if c.next in c.inner then Cache(c.inner - {c.next}, c.next + 1) else c
    case DropObsolete(latest) =>
      Cache(map h | h in c.inner && latest <= h :: c.inner[h], if c.next < latest then latest else c.next)
  }

  class BlockCache<T> {
    var inner: map<Height, Block<T>>
    var nextHeight: Usize

    function Value(): Cache<T>
      reads this
    {
      Cache(inner, nextHeight)
    }

    ghost predicate Valid()
      reads this
    {
      WellFormed(Value())
    }

    constructor (nextHeight: Height)
      requires nextHeight != 0
      ensures Valid() && Value() == Cache(map[], nextHeight)
    {
      inner := map[];
      this.nextHeight := nextHeight;
    }

    static method WithNextHeight(nextHeight: Height) returns (r: Result<BlockCache<T>, Error>)
      ensures r.Err? <==> nextHeight == 0
      ensures r.Err? ==> r.error == ZeroHeightsNotSupported
      ensures r.Ok? ==> fresh(r.value) && r.value.Valid() && r.value.Value() == Cache(map[], nextHeight)
    {
      if nextHeight == 0 { return Err(ZeroHeightsNotSupported); }
      var cache := new BlockCache(nextHeight);
      return Ok(cache);
    }

    /** Adding one to the height cannot overflow a word: the popped block had a valid height. */
    method Pop() returns (r: Option<Block<T>>)
      requires Valid()
      modifies this
      ensures Valid() && Value() == After(old(Value()), Op<T>.Pop)
      ensures r.Some? ==> nextHeight == old(nextHeight) + 1 && inner == old(inner) - {old(nextHeight)}
      ensures r.None? ==> nextHeight == old(nextHeight) && inner == old(inner)
      ensures r == if old(nextHeight) in old(inner) then Some(old(inner[nextHeight])) else None
    {
      if nextHeight !in inner { return None; }
      var block := inner[nextHeight];
      inner := inner - {nextHeight};
      nextHeight := nextHeight + 1;
      return Some(block);
    }

    method DropObsolete(latestHeight: Height)
      requires Valid()
      modifies this
      ensures Valid() && Value() == After(old(Value()), Op.DropObsolete(latestHeight))
      ensures nextHeight >= latestHeight && nextHeight >= old(nextHeight)
      ensures nextHeight == latestHeight || nextHeight == old(nextHeight)
      ensures forall h :: h in inner <==> h in old(inner) && latestHeight <= h
      ensures forall h :: h in inner ==> inner[h] == old(inner)[h]
    {
      nextHeight := if nextHeight < latestHeight then latestHeight else nextHeight;
      // The smallest key is below the latest height, or there is none.
      if inner == map[] || exists h :: h in inner && h < latestHeight {
        inner := map h | h in inner && latestHeight <= h :: inner[h];
      } else {
        assert inner == map h | h in inner && latestHeight <= h :: inner[h];
      }
    }

    method Insert(block: Block<T>) returns (r: Result<(), Error>)
      requires Valid()
      modifies this
      ensures Valid() && Value() == After(old(Value()), Op.Insert(block))
      ensures r == InsertResult(old(Value()), block)
      ensures nextHeight == old(nextHeight)
      ensures block.height < nextHeight ==> r == Err(Old(block.height, nextHeight)) && inner == old(inner)
      ensures nextHeight <= block.height && block.height in old(inner) ==>
                r == Err(Occupied(block.height)) && inner == old(inner)
      ensures nextHeight <= block.height && block.height !in old(inner) ==>
                r == Ok(()) && inner == old(inner)[block.height := block]
    {
      if block.height < nextHeight {
        return Err(Old(block.height, nextHeight));
      }
      if block.height in inner {
        return Err(Occupied(block.height));
      }
      inner := inner[block.height := block];
      return Ok(());
    }
  }

  /** What comes out when popping until nothing does. */
  function Drain<T>(c: Cache<T>): seq<Block<T>>
    decreases |c.inner|
  {
    if c.next in c.inner then
      assert |c.inner - {c.next}| == |c.inner| - 1;
      [c.inner[c.next]] + Drain(After(c, Op<T>.Pop))
    else []
  }

  // ----- runs

  datatype Ran<+T> = Ran(cache: Cache<T>, popped: seq<Block<T>>)

  function Run<T>(start: nat, ops: seq<Op<T>>): Ran<T> {
    if ops == [] then Ran(Cache(map[], start), [])
    else
      var r, op := Run(start, ops[..|ops| - 1]), ops[|ops| - 1];
      Ran(After(r.cache, op), r.popped + Popped(r.cache, op))
  }

  /** For each height, the first block that was offered at it. */
  function FirstOffered<T>(ops: seq<Op<T>>): (first: map<Height, Block<T>>)
    ensures forall h :: h in first ==> first[h].height == h
  {
    if ops == [] then map[]
    else NowFirst(FirstOffered(ops[..|ops| - 1]), ops[|ops| - 1])
  }

  ghost predicate WasPopped<T>(popped: seq<Block<T>>, h: nat) {
    exists k :: 0 <= k < |popped| && popped[k].height == h
  }

  ghost predicate WasSkipped<T>(ops: seq<Op<T>>, h: nat) {
    exists t :: 0 <= t < |ops| && ops[t].DropObsolete? && h < ops[t].latest
  }

  /** What is cached: the first block offered at each height not yet passed. */
  ghost predicate CachesFirst<T>(c: Cache<T>, first: map<Height, Block<T>>) {
    && WellFormed(c)
    && (forall h :: h in c.inner <==> h in first && c.next <= h)
    && (forall h :: h in c.inner ==> c.inner[h] == first[h])
  }

  /** What was popped: the first block offered at its height, in strictly increasing order. */
  ghost predicate PopsFirst<T>(start: nat, next: nat, popped: seq<Block<T>>, first: map<Height, Block<T>>) {
    && start <= next
    && (forall k :: 0 <= k < |popped| ==>
          start <= popped[k].height < next && popped[k].height in first && popped[k] == first[popped[k].height])
    && (forall j, k :: 0 <= j < k < |popped| ==> popped[j].height < popped[k].height)
  }

  /** Gaps in what was popped lie only where obsolete heights were dropped. */
  ghost predicate SkipsOnlyDropped<T>(start: nat, next: nat, popped: seq<Block<T>>, ops: seq<Op<T>>) {
    forall h: nat :: start <= h < next ==> WasPopped(popped, h) || WasSkipped(ops, h)
  }

  /** What every run keeps, for all interleavings of the three operations. */
  ghost predicate RunInvariant<T>(start: nat, ops: seq<Op<T>>, r: Ran<T>) {
    && CachesFirst(r.cache, FirstOffered(ops))
    && PopsFirst(start, r.cache.next, r.popped, FirstOffered(ops))
    && SkipsOnlyDropped(start, r.cache.next, r.popped, ops)
  }

  lemma {:induction false} RunKeepsInvariant<T>(start: nat, ops: seq<Op<T>>)
    requires 1 <= start <= MAX_HEIGHT
    ensures RunInvariant(start, ops, Run(start, ops))
  {
    if ops != [] {
      var before, op := ops[..|ops| - 1], ops[|ops| - 1];
      RunKeepsInvariant(start, before);
      var r := Run(start, before);
      StepKeepsFirst(start, r.cache, r.popped, FirstOffered(before), op);
      StepSkipsOnlyDropped(start, before, r, op);
      assert ops == before + [op];
    }
  }

  function NowFirst<T>(first: map<Height, Block<T>>, op: Op<T>): map<Height, Block<T>> {
    if op.Insert? && op.block.height !in first then first[op.block.height := op.block] else first
  }

  lemma StepKeepsFirst<T>(start: nat, c: Cache<T>, popped: seq<Block<T>>, first: map<Height, Block<T>>, op: Op<T>)
    requires CachesFirst(c, first) && PopsFirst(start, c.next, popped, first)
    ensures CachesFirst(After(c, op), NowFirst(first, op))
    ensures PopsFirst(start, After(c, op).next, popped + Popped(c, op), NowFirst(first, op))
  {
  }

  lemma StepSkipsOnlyDropped<T>(start: nat, ops: seq<Op<T>>, r: Ran<T>, op: Op<T>)
    requires SkipsOnlyDropped(start, r.cache.next, r.popped, ops)
    requires forall h :: h in r.cache.inner ==> r.cache.inner[h].height == h
    ensures SkipsOnlyDropped(start, After(r.cache, op).next, r.popped + Popped(r.cache, op), ops + [op])
  {
    var ops', c', popped' := ops + [op], After(r.cache, op), r.popped + Popped(r.cache, op);
    forall h: nat | start <= h < c'.next
      ensures WasPopped(popped', h) || WasSkipped(ops', h)
    {
      if h < r.cache.next {
        if WasPopped(r.popped, h) {
          var k :| 0 <= k < |r.popped| && r.popped[k].height == h;
          assert popped'[k].height == h;
        } else {
          var t :| 0 <= t < |ops| && ops[t].DropObsolete? && h < ops[t].latest;
          assert ops'[t].DropObsolete?;
        }
      } else if op.Pop? {
        assert popped'[|r.popped|].height == h;
      } else {
        assert ops'[|ops|] == op;
      }
    }
  }

  /** A drop takes effect for the rest of the run: no height below it is popped afterwards. */
  lemma {:induction false} DropsTakeEffect<T>(start: nat, ops: seq<Op<T>>, t: nat)
    requires 1 <= start <= MAX_HEIGHT && t < |ops| && ops[t].DropObsolete?
    ensures ops[t].latest <= Run(start, ops).cache.next
    ensures var before, popped := Run(start, ops[..t + 1]).popped, Run(start, ops).popped;
            && before <= popped
            && forall k :: |before| <= k < |popped| ==> ops[t].latest <= popped[k].height
    decreases |ops|
  {
    var shorter := ops[..|ops| - 1];
    if t == |ops| - 1 {
      assert ops[..t + 1] == ops;
    } else {
      assert shorter[..t + 1] == ops[..t + 1];
      DropsTakeEffect(start, shorter, t);
      RunKeepsInvariant(start, shorter);
    }
  }

  /** A drop removes what is cached below it and nothing else. */
  lemma DropRemovesExactly<T>(start: nat, ops: seq<Op<T>>, latest: Height)
    requires 1 <= start <= MAX_HEIGHT
    ensures var c, c' := Run(start, ops).cache, Run(start, ops + [Op.DropObsolete(latest)]).cache;
            && c'.next >= latest && c'.next >= c.next && (c'.next == latest || c'.next == c.next)
            && (forall h :: h in c'.inner <==> h in c.inner && latest <= h)
            && (forall h :: h in c'.inner ==> c'.inner[h] == c.inner[h])
  {
    var ops' := ops + [Op.DropObsolete(latest)];
    assert ops'[..|ops|] == ops;
  }

  // ----- without dropping: an in-order queue

  predicate NoDrops<T>(ops: seq<Op<T>>) {
    forall t :: 0 <= t < |ops| ==> !ops[t].DropObsolete?
  }

  /** The longest gap-free run of blocks from height `h`. */
  function GapFree<T>(blocks: map<Height, Block<T>>, h: nat): seq<Block<T>>
    decreases MAX_HEIGHT + 1 - h
  {
    if h in blocks then [blocks[h]] + GapFree(blocks, h + 1) else []
  }

  lemma {:induction false} NoGapsWithoutDrops<T>(start: nat, ops: seq<Op<T>>)
    requires 1 <= start <= MAX_HEIGHT && NoDrops(ops)
    ensures var r := Run(start, ops);
            && r.cache.next == start + |r.popped|
            && forall k :: 0 <= k < |r.popped| ==> r.popped[k].height == start + k
  {
    if ops != [] {
      var before := ops[..|ops| - 1];
      NoGapsWithoutDrops(start, before);
      RunKeepsInvariant(start, before);
    }
  }

  /** Draining yields the gap-free run of what is cached. */
  lemma {:induction false} DrainIsGapFree<T>(c: Cache<T>, blocks: map<Height, Block<T>>)
    requires forall h :: h in c.inner <==> h in blocks && c.next <= h
    requires forall h :: h in c.inner ==> c.inner[h] == blocks[h]
    ensures Drain(c) == GapFree(blocks, c.next)
    decreases |c.inner|
  {
    if c.next in c.inner {
      assert |c.inner - {c.next}| == |c.inner| - 1;
      DrainIsGapFree(After(c, Op<T>.Pop), blocks);
    }
  }

  lemma {:induction false} GapFreePrefix<T>(blocks: map<Height, Block<T>>, h: nat, popped: seq<Block<T>>)
    requires forall k :: 0 <= k < |popped| ==>
               var g := popped[k].height; g == h + k && g in blocks && popped[k] == blocks[g]
    ensures GapFree(blocks, h) == popped + GapFree(blocks, h + |popped|)
    decreases |popped|
  {
    if popped != [] {
      assert popped[0].height == h;
      GapFreePrefix(blocks, h + 1, popped[1..]);
      assert popped == [popped[0]] + popped[1..];
    }
  }

  /** All that comes out of a run without drops, once drained. */
  function Yield<T>(start: nat, ops: seq<Op<T>>): seq<Block<T>> {
    var r := Run(start, ops);
    r.popped + Drain(r.cache)
  }

  /** Confluence: however insertions and pops interleave, what comes out is the longest
      gap-free run of the first blocks offered. */
  lemma YieldIsGapFree<T>(start: nat, ops: seq<Op<T>>)
    requires 1 <= start <= MAX_HEIGHT && NoDrops(ops)
    ensures Yield(start, ops) == GapFree(FirstOffered(ops), start)
  {
    var r, first := Run(start, ops), FirstOffered(ops);
    RunKeepsInvariant(start, ops);
    NoGapsWithoutDrops(start, ops);
    GapFreePrefix(first, start, r.popped);
    DrainIsGapFree(r.cache, first);
  }

  /** The blocks that a run offers. */
  function Offered<T(==)>(ops: seq<Op<T>>): set<Block<T>> {
    set t | 0 <= t < |ops| && ops[t].Insert? :: ops[t].block
  }

  ghost predicate OnePerHeight<T>(blocks: set<Block<T>>) {
    forall a, b :: a in blocks && b in blocks && a.height == b.height ==> a == b
  }

  lemma {:induction false} FirstOfferedIsOffered<T>(ops: seq<Op<T>>)
    ensures forall h :: h in FirstOffered(ops) ==> FirstOffered(ops)[h] in Offered(ops)
    ensures forall b :: b in Offered(ops) ==> b.height in FirstOffered(ops)
  {
    if ops != [] {
      var before, op := ops[..|ops| - 1], ops[|ops| - 1];
      FirstOfferedIsOffered(before);
      assert forall t :: 0 <= t < |before| ==> before[t] == ops[t];
      forall b | b in Offered(before)
        ensures b in Offered(ops)
      {
        var t :| 0 <= t < |before| && before[t].Insert? && before[t].block == b;
        assert ops[t].block == b;
      }
      forall b | b in Offered(ops)
        ensures b in Offered(before) || (op.Insert? && b == op.block)
      {
        var t :| 0 <= t < |ops| && ops[t].Insert? && ops[t].block == b;
        if t < |before| { assert before[t].block == b; }
      }
      if op.Insert? { assert ops[|before|].block in Offered(ops); }
    }
  }

  /** Two runs that offer the same blocks, one per height, in any order and interleaved in any
      way with pops, yield the same blocks. */
  lemma OrderDoesNotMatter<T>(start: nat, ops: seq<Op<T>>, ops': seq<Op<T>>)
    requires 1 <= start <= MAX_HEIGHT && NoDrops(ops) && NoDrops(ops')
    requires Offered(ops) == Offered(ops') && OnePerHeight(Offered(ops))
    ensures Yield(start, ops) == Yield(start, ops')
  {
    var first, first' := FirstOffered(ops), FirstOffered(ops');
    FirstOfferedIsOffered(ops);
    FirstOfferedIsOffered(ops');
    assert forall h :: h in first ==> first[h] in Offered(ops') && first[h].height == h;
    assert forall h :: h in first' ==> first'[h] in Offered(ops) && first'[h].height == h;
    assert first == first';
    YieldIsGapFree(start, ops);
    YieldIsGapFree(start, ops');
  }

  /** An insertion is rejected exactly when its height was passed or offered before; without
      drops, exactly when its height is below the start or was offered before. */
  lemma InsertRejectedExactly<T>(start: nat, ops: seq<Op<T>>, b: Block<T>)
    requires 1 <= start <= MAX_HEIGHT
    ensures Run(start, ops).cache.next < WORD
    ensures var accepted := InsertResult(Run(start, ops).cache, b).Ok?;
            && (accepted <==> Run(start, ops).cache.next <= b.height && b.height !in FirstOffered(ops))
            && (NoDrops(ops) ==> (accepted <==> start <= b.height && b.height !in FirstOffered(ops)))
    ensures var c, first := Run(start, ops).cache, FirstOffered(ops);
            && (InsertResult(c, b) == Err(Old(b.height, c.next)) <==> b.height < c.next)
            && (InsertResult(c, b) == Err(Occupied(b.height)) <==> c.next <= b.height && b.height in first)
  {
    var r := Run(start, ops);
    RunKeepsInvariant(start, ops);
    if NoDrops(ops) && start <= b.height < r.cache.next {
      assert !WasSkipped(ops, b.height);
      var k :| 0 <= k < |r.popped| && r.popped[k].height == b.height;
    }
  }
}
