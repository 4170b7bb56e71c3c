/**
 * The block list and the functional updates App.jsx applies to it
 * (src/App.jsx): rotate, split, merge, move and spawn.
 */
module Blocks {
  import opened Optional
  import opened Geometry

  /** Abstract block identity; fresh ones come from a counter (see Game). */
  type Id = nat

  /** The largest value a merge may produce. */
  const MaxValue: int := 100

  /** One block: `x` is its horizontal centre and `y` its bottom edge, in pixels. */
  datatype Block = Block(id: Id, value: int, x: real, y: real, width: nat)

  /** The sum of all block values. */
  function Total(bs: seq<Block>): int {
    if bs == [] then 0 else bs[0].value + Total(bs[1..])
  }

  /** No two blocks share an id. */
  predicate UniqueIds(bs: seq<Block>) {
    forall j, k :: 0 <= j < k < |bs| ==> bs[j].id != bs[k].id
  }

  /** A block's width is one of the shapes its value may take, and its value is in the game range. */
  predicate WellShaped(b: Block) {
    1 <= b.value <= MaxValue && b.width in ValidWidths(b.value)
  }

  /** The board invariant: distinct ids, all below the next unused id, every block well-shaped. */
  predicate BoardOk(bs: seq<Block>, next: Id) {
    && UniqueIds(bs)
    && forall k :: 0 <= k < |bs| ==> bs[k].id < next && WellShaped(bs[k])
  }

  /** `blocks.find(b => b.id === id)`: the first block with that id. */
  function Find(bs: seq<Block>, id: Id): (r: Option<Block>)
    ensures r.None? <==> forall k :: 0 <= k < |bs| ==> bs[k].id != id
    ensures r.Some? ==> r.value in bs && r.value.id == id
  {
    if bs == [] then None
    else if bs[0].id == id then Some(bs[0])
    else Find(bs[1..], id)
  }

  /** The block `Find` returns is the first of the list with the id: no earlier block has it. */
  lemma {:induction false} FindFirst(bs: seq<Block>, id: Id)
    ensures Find(bs, id).Some? ==>
      exists k :: 0 <= k < |bs| && bs[k] == Find(bs, id).value && forall j :: 0 <= j < k ==> bs[j].id != id
  {
    if bs != [] && bs[0].id != id && Find(bs, id).Some? {
      FindFirst(bs[1..], id);
      var k :| 0 <= k < |bs[1..]| && bs[1..][k] == Find(bs, id).value && forall j :: 0 <= j < k ==> bs[1..][j].id != id;
      assert bs[k + 1] == Find(bs, id).value && forall j :: 0 <= j < k + 1 ==> bs[j].id != id;
    } else if bs != [] && bs[0].id == id {
      assert bs[0] == Find(bs, id).value;
    }
  }

  /** `blocks.filter(b => !ids.has(b.id))`: drop the blocks with the given ids, keeping the order. */
  function RemoveIds(bs: seq<Block>, ids: set<Id>): (r: seq<Block>)
    ensures |r| <= |bs|
    ensures forall k :: 0 <= k < |r| ==> r[k] in bs && r[k].id !in ids
  {
    if bs == [] then []
    else if bs[0].id in ids then RemoveIds(bs[1..], ids)
    else [bs[0]] + RemoveIds(bs[1..], ids)
  }

  /**
   * The filter distributes over concatenation and keeps or drops a single
   * block by its id alone, so the survivors keep their order and their
   * multiplicity.
   */
  lemma {:induction false} RemoveIdsAppend(a: seq<Block>, b: seq<Block>, ids: set<Id>)
    ensures RemoveIds(a + b, ids) == RemoveIds(a, ids) + RemoveIds(b, ids)
    ensures forall x :: RemoveIds([x], ids) == if x.id in ids then [] else [x]
  {
    RemoveIdsConcat(a, b, ids);
    forall x
      ensures RemoveIds([x], ids) == if x.id in ids then [] else [x]
    {
      assert [x][1..] == [];
    }
  }

  /** The concatenation half of `RemoveIdsAppend`, by induction on the first list. */
  lemma {:induction false} RemoveIdsConcat(a: seq<Block>, b: seq<Block>, ids: set<Id>)
    ensures RemoveIds(a + b, ids) == RemoveIds(a, ids) + RemoveIds(b, ids)
  {
    if a == [] {
      assert a + b == b;
    } else {
      var ab := a + b;
      assert ab[0] == a[0] && ab[1..] == a[1..] + b;
      RemoveIdsConcat(a[1..], b, ids);
      var head := if a[0].id in ids then [] else [a[0]];
      assert RemoveIds(ab, ids) == head + RemoveIds(a[1..] + b, ids);
      assert RemoveIds(a, ids) == head + RemoveIds(a[1..], ids);
    }
  }

  /** The filter keeps exactly the blocks whose id is not removed. */
  lemma {:induction false} RemoveIdsMembers(bs: seq<Block>, ids: set<Id>, b: Block)
    ensures b in RemoveIds(bs, ids) <==> b in bs && b.id !in ids
  {
    if bs != [] {
      RemoveIdsMembers(bs[1..], ids, b);
      assert bs == [bs[0]] + bs[1..];
    }
  }

  /** `validWidths.indexOf(w)`: the first position of `w`, or -1. */
  function IndexOf(s: seq<int>, w: int): (r: int)
    ensures -1 <= r < |s|
    ensures r == -1 <==> w !in s
    ensures r >= 0 ==> s[r] == w && forall j :: 0 <= j < r ==> s[j] != w
  {
    if s == [] then -1
    else if s[0] == w then 0
    else
      var t := IndexOf(s[1..], w);
      if t == -1 then -1 else t + 1
  }

  // ---------------------------------------------------------------- rotate

  /**
   * The position after `i` in a cyclic list of length `m`; `i == -1` (a width
   * not in the list) gives position 0.
   */
  function CyclicNext(i: int, m: int): (r: int)
    requires m > 0 && -1 <= i < m
    ensures 0 <= r < m
  {
    if i + 1 < m then i + 1 else 0
  }

  /** `CyclicNext` is the source's `(currentIndex + 1) % validWidths.length`. */
  lemma CyclicNextIsMod(i: int, m: int)
    requires m > 0 && -1 <= i < m
    ensures CyclicNext(i, m) == (i + 1) % m
  {
    if i + 1 < m {
      DivModUnique(i + 1, m, 0, i + 1);
    } else {
      DivModUnique(i + 1, m, 1, 0);
    }
  }

  /** The rotate callback on the chosen block: the next shape in the list, cyclically. */
  function RotateBlock(b: Block): (r: Block)
    ensures r.id == b.id && r.value == b.value && r.x == b.x && r.y == b.y
  {
    var ws := ValidWidths(b.value);
    if |ws| <= 1 then b
    else b.(width := ws[CyclicNext(IndexOf(ws, b.width), |ws|)])
  }

  /** `rotateBlock(id)`: rotate every block with the id, leave the others. */
  function Rotate(bs: seq<Block>, id: Id): (r: seq<Block>)
    ensures |r| == |bs|
  {
    seq(|bs|, k requires 0 <= k < |bs| => if bs[k].id == id then RotateBlock(bs[k]) else bs[k])
  }

  /**
   * Rotation moves to the next width of the list, wrapping from the last to
   * the first; a width not in the list (`indexOf` is -1) moves to the first;
   * a value with a single shape does not rotate.
   */
  lemma RotateStep(b: Block)
    ensures var ws := ValidWidths(b.value);
      && (|ws| <= 1 ==> RotateBlock(b) == b)
      && (|ws| > 1 && b.width !in ws ==> RotateBlock(b).width == ws[0])
      && (forall k :: 0 <= k < |ws| - 1 && b.width == ws[k] ==> RotateBlock(b).width == ws[k + 1])
      && (|ws| > 1 && b.width == ws[|ws| - 1] ==> RotateBlock(b).width == ws[0])
  {
    ValidWidthsAscending(b.value);
  }

  /** Position `k` of a rotated list. */
  lemma RotateAt(bs: seq<Block>, id: Id, k: nat)
    requires k < |bs|
    ensures Rotate(bs, id)[k] == if bs[k].id == id then RotateBlock(bs[k]) else bs[k]
  {
  }

  /** Rotating `n` times. */
  function RotateN(b: Block, n: nat): (r: Block)
    ensures r.id == b.id && r.value == b.value && r.x == b.x && r.y == b.y
  {
    if n == 0 then b else RotateBlock(RotateN(b, n - 1))
  }

  /** The position reached from `k` after `n` cyclic steps in a list of length `m`. */
  function Advance(k: int, n: nat, m: int): (r: int)
    requires 0 <= k < m
    ensures 0 <= r < m
  {
    if n == 0 then k else CyclicNext(Advance(k, n - 1, m), m)
  }

  /** Up to a full turn, `n` steps from `k` land on `k + n`, wrapped once. */
  lemma {:induction false} AdvanceWraps(k: int, n: nat, m: int)
    requires 0 <= k < m && n <= m
    ensures Advance(k, n, m) == if k + n < m then k + n else k + n - m
  {
    if n > 0 {
      AdvanceWraps(k, n - 1, m);
    }
  }

  /** After `n` rotations a block at list position `k` is at position `Advance(k, n)`. */
  lemma {:induction false} RotateNWidth(b: Block, n: nat, k: nat)
    requires var ws := ValidWidths(b.value); |ws| > 1 && k < |ws| && b.width == ws[k]
    ensures var ws := ValidWidths(b.value);
      RotateN(b, n) == b.(width := ws[Advance(k, n, |ws|)])
  {
    if n > 0 {
      var ws := ValidWidths(b.value);
      RotateNWidth(b, n - 1, k);
      RotateFrom(RotateN(b, n - 1), Advance(k, n - 1, |ws|));
    }
  }

  /** A block at list position `k` rotates to position `k + 1`, cyclically. */
  lemma RotateFrom(b: Block, k: nat)
    requires var ws := ValidWidths(b.value); |ws| > 1 && k < |ws| && b.width == ws[k]
    ensures var ws := ValidWidths(b.value);
      RotateBlock(b) == b.(width := ws[CyclicNext(k, |ws|)])
  {
    var ws := ValidWidths(b.value);
    ValidWidthsAscending(b.value);
    assert IndexOf(ws, ws[k]) == k;
  }

  /**
   * Rotating a well-shaped block as many times as its value has shapes
   * brings it back to where it started.
   */
  lemma RotateFullCycle(b: Block)
    requires b.width in ValidWidths(b.value)
    ensures RotateN(b, |ValidWidths(b.value)|) == b
  {
    var ws := ValidWidths(b.value);
    if |ws| > 1 {
      var k := IndexOf(ws, b.width);
      RotateNWidth(b, |ws|, k);
      AdvanceWraps(k, |ws|, |ws|);
    } else {
      RotateNFixed(b, |ws|);
    }
  }

  /** A block whose value has a single shape is a fixed point of rotation. */
  lemma {:induction false} RotateNFixed(b: Block, n: nat)
    requires |ValidWidths(b.value)| <= 1
    ensures RotateN(b, n) == b
  {
    if n > 0 {
      RotateNFixed(b, n - 1);
    }
  }

  /** Rotating the list `n` times. */
  function RotateTimes(bs: seq<Block>, id: Id, n: nat): seq<Block> {
    if n == 0 then bs else Rotate(RotateTimes(bs, id, n - 1), id)
  }

  /** Rotating the list `n` times rotates exactly the blocks with the id `n` times. */
  lemma {:induction false} RotateTimesAt(bs: seq<Block>, id: Id, n: nat)
    ensures |RotateTimes(bs, id, n)| == |bs|
    ensures forall k :: 0 <= k < |bs| ==>
      RotateTimes(bs, id, n)[k] == if bs[k].id == id then RotateN(bs[k], n) else bs[k]
  {
    if n > 0 {
      RotateTimesAt(bs, id, n - 1);
      var prev := RotateTimes(bs, id, n - 1);
      forall k | 0 <= k < |bs|
        ensures RotateTimes(bs, id, n)[k] == if bs[k].id == id then RotateN(bs[k], n) else bs[k]
      {
        RotateAt(prev, id, k);
      }
    }
  }

  /**
   * On a board, rotating a block as many times as its value has shapes
   * restores the whole list.
   */
  lemma RotateListCycle(bs: seq<Block>, next: Id, id: Id, b: Block)
    requires BoardOk(bs, next) && Find(bs, id) == Some(b)
    ensures RotateTimes(bs, id, |ValidWidths(b.value)|) == bs
  {
    var n := |ValidWidths(b.value)|;
    RotateTimesAt(bs, id, n);
    forall k | 0 <= k < |bs| && bs[k].id == id
      ensures RotateN(bs[k], n) == bs[k]
    {
      var j :| 0 <= j < |bs| && bs[j] == b;
      assert k == j;
      RotateFullCycle(b);
    }
  }

  // ---------------------------------------------------------------- sums and filters

  /** The total of a concatenation. */
  lemma {:induction false} TotalAppend(a: seq<Block>, b: seq<Block>)
    ensures Total(a + b) == Total(a) + Total(b)
  {
    if a != [] {
      assert (a + b)[0] == a[0];
      assert (a + b)[1..] == a[1..] + b;
      TotalAppend(a[1..], b);
    } else {
      assert a + b == b;
    }
  }

  /** Appending a block adds its value to the total. */
  lemma TotalSnoc(a: seq<Block>, x: Block)
    ensures Total(a + [x]) == Total(a) + x.value
  {
    TotalAppend(a, [x]);
    assert Total([x]) == x.value + Total([]);
  }

  /** Lists with the same values position by position have the same total. */
  lemma {:induction false} TotalSameValues(a: seq<Block>, b: seq<Block>)
    requires |a| == |b| && forall k :: 0 <= k < |a| ==> a[k].value == b[k].value
    ensures Total(a) == Total(b)
  {
    if a != [] {
      TotalSameValues(a[1..], b[1..]);
    }
  }

  /** Removing ids that no block has changes nothing. */
  lemma {:induction false} RemoveAbsent(bs: seq<Block>, ids: set<Id>)
    requires forall k :: 0 <= k < |bs| ==> bs[k].id !in ids
    ensures RemoveIds(bs, ids) == bs
  {
    if bs != [] {
      RemoveAbsent(bs[1..], ids);
    }
  }

  /** Filtering keeps ids distinct. */
  lemma {:induction false} RemoveKeepsUnique(bs: seq<Block>, ids: set<Id>)
    requires UniqueIds(bs)
    ensures UniqueIds(RemoveIds(bs, ids))
  {
    if bs != [] {
      RemoveKeepsUnique(bs[1..], ids);
      var rest := RemoveIds(bs[1..], ids);
      forall k | 0 <= k < |rest|
        ensures rest[k].id != bs[0].id
      {
        assert rest[k] in bs[1..];
      }
    }
  }

  /** Removing one present id from a list with distinct ids drops one block and its value. */
  lemma {:induction false} RemoveOne(bs: seq<Block>, id: Id, b: Block)
    requires UniqueIds(bs) && Find(bs, id) == Some(b)
    ensures |RemoveIds(bs, {id})| == |bs| - 1
    ensures Total(RemoveIds(bs, {id})) == Total(bs) - b.value
  {
    if bs[0].id == id {
      RemoveAbsent(bs[1..], {id});
    } else {
      RemoveOne(bs[1..], id, b);
    }
  }

  /** Removing two sets of ids is removing their union. */
  lemma {:induction false} RemoveTwice(bs: seq<Block>, a: set<Id>, c: set<Id>)
    ensures RemoveIds(RemoveIds(bs, a), c) == RemoveIds(bs, a + c)
  {
    if bs != [] {
      RemoveTwice(bs[1..], a, c);
    }
  }

  /** Removing other ids does not change which block an id finds. */
  lemma {:induction false} FindAfterRemove(bs: seq<Block>, ids: set<Id>, id: Id)
    requires id !in ids
    ensures Find(RemoveIds(bs, ids), id) == Find(bs, id)
  {
    if bs != [] {
      FindAfterRemove(bs[1..], ids, id);
    }
  }

  // ---------------------------------------------------------------- split

  /** The guard of `splitBlock`: the block exists and its value is above 1. */
  predicate CanSplit(bs: seq<Block>, id: Id) {
    Find(bs, id).Some? && Find(bs, id).value.value > 1
  }

  /**
   * `splitBlock(id)`: the block loses one unit and takes the first shape of
   * its new value; a unit block appears 50 pixels to its right. Both go to
   * the end of the list.
   */
  function Split(bs: seq<Block>, id: Id, newId: Id): seq<Block> {
    if !CanSplit(bs, id) then bs
    else
      var b := Find(bs, id).value;
      RemoveIds(bs, {id}) + [Reduced(b), SplitOff(b, newId)]
  }

  /** The block that stays behind after a split: one unit less, in the first shape of its new value. */
  function Reduced(b: Block): (r: Block)
    ensures r.id == b.id && r.value == b.value - 1 && r.x == b.x && r.y == b.y
    ensures r.width in ValidWidths(b.value - 1)
  {
    b.(value := b.value - 1, width := ValidWidths(b.value - 1)[0])
  }

  /** The unit block a split gives off, 50 pixels to the right of the original. */
  function SplitOff(b: Block, newId: Id): Block {
    Block(newId, 1, b.x + 50.0, b.y, 1)
  }

  /** An accepted split is the filtered list followed by the two halves. */
  lemma SplitAccepted(bs: seq<Block>, id: Id, newId: Id, b: Block)
    requires Find(bs, id) == Some(b) && b.value > 1
    ensures Split(bs, id, newId) == (RemoveIds(bs, {id}) + [Reduced(b)]) + [SplitOff(b, newId)]
  {
    var rest := RemoveIds(bs, {id});
    assert rest + [Reduced(b), SplitOff(b, newId)] == (rest + [Reduced(b)]) + [SplitOff(b, newId)];
  }

  /**
   * An accepted split keeps the total and adds one block: the others keep
   * their order, then the reduced block (same id and position), then the new
   * unit block.
   */
  lemma SplitSpec(bs: seq<Block>, id: Id, newId: Id)
    requires UniqueIds(bs) && CanSplit(bs, id)
    ensures var r := Split(bs, id, newId); var b := Find(bs, id).value;
      && |r| == |bs| + 1
      && Total(r) == Total(bs)
      && r[..|r| - 2] == RemoveIds(bs, {id})
      && r[|r| - 2] == Block(id, b.value - 1, b.x, b.y, ValidWidths(b.value - 1)[0])
      && r[|r| - 1] == Block(newId, 1, b.x + 50.0, b.y, 1)
  {
    var b := Find(bs, id).value;
    var rest := RemoveIds(bs, {id});
    var reduced, unit := Reduced(b), SplitOff(b, newId);
    var r := Split(bs, id, newId);
    SplitAccepted(bs, id, newId, b);
    RemoveOne(bs, id, b);
    TotalSnoc(rest, reduced);
    TotalSnoc(rest + [reduced], unit);
    assert r[..|r| - 2] == rest;
  }

  /** Splitting a block that is missing or has value 1 or less changes nothing. */
  lemma SplitNoOp(bs: seq<Block>, id: Id, newId: Id)
    requires Find(bs, id).None? || Find(bs, id).value.value <= 1
    ensures Split(bs, id, newId) == bs
  {
  }

  /** A split with a next id keeps the board invariant. */
  lemma SplitKeepsBoard(bs: seq<Block>, next: Id, id: Id)
    requires BoardOk(bs, next)
    ensures BoardOk(Split(bs, id, next), next + 1)
  {
    if CanSplit(bs, id) {
      var b := Find(bs, id).value;
      var rest := RemoveIds(bs, {id});
      var reduced, unit := Reduced(b), SplitOff(b, next);
      SplitAccepted(bs, id, next, b);
      assert BoardOk(rest + [reduced], next) by {
        RemoveKeepsBoard(bs, {id}, next);
        InBoard(bs, next, b);
        BoardSnoc(rest, reduced, next, next);
      }
      assert WellShaped(unit) by {
        assert ValidWidths(1) == [1];
      }
      BoardSnocFresh(rest + [reduced], unit, next);
    }
  }

  /** Filtering keeps the board invariant and drops every removed id. */
  lemma RemoveKeepsBoard(bs: seq<Block>, ids: set<Id>, next: Id)
    requires BoardOk(bs, next)
    ensures var r := RemoveIds(bs, ids);
      BoardOk(r, next) && forall k :: 0 <= k < |r| ==> r[k].id !in ids
  {
    var r := RemoveIds(bs, ids);
    RemoveKeepsUnique(bs, ids);
    forall k | 0 <= k < |r|
      ensures r[k].id !in ids && r[k].id < next && WellShaped(r[k])
    {
      assert r[k] in bs;
    }
  }

  /** Appending a well-shaped block that takes the next unused id keeps the board invariant, one id further. */
  lemma BoardSnocFresh(a: seq<Block>, x: Block, next: Id)
    requires BoardOk(a, next) && x.id == next && WellShaped(x)
    ensures BoardOk(a + [x], next + 1)
  {
    BoardSnoc(a, x, next, next + 1);
  }

  /** Appending a well-shaped block with a new id below the bound keeps the board invariant. */
  lemma BoardSnoc(a: seq<Block>, x: Block, next: Id, next': Id)
    requires BoardOk(a, next) && next <= next' && x.id < next' && WellShaped(x)
    requires forall k :: 0 <= k < |a| ==> a[k].id != x.id
    ensures BoardOk(a + [x], next')
  {
  }

  // ---------------------------------------------------------------- merge

  /** What a drop onto another block does to the list. */
  datatype MergeOutcome = Rejected | Merged(blocks: seq<Block>, value: int)

  /**
   * The merge branch of `handlePointerUp`: both blocks must exist and their
   * sum must not exceed 100; both are removed and the merged block is
   * appended at the target's position with the first shape of the sum.
   */
  function Merge(bs: seq<Block>, source: Id, target: Id, newId: Id): (r: MergeOutcome)
    ensures r.Merged? ==> r.value <= MaxValue
  {
    var s, t := Find(bs, source), Find(bs, target);
    if s.None? || t.None? || s.value.value + t.value.value > MaxValue then Rejected
    else
      var v := s.value.value + t.value.value;
      Merged(RemoveIds(bs, {source, target}) + [MergedBlock(newId, v, t.value)], v)
  }

  /** The block a merge appends: the sum, at the target's position, in the first shape of the sum. */
  function MergedBlock(newId: Id, v: int, t: Block): (r: Block)
    ensures r.id == newId && r.value == v && r.x == t.x && r.y == t.y
    ensures r.width in ValidWidths(v)
  {
    Block(newId, v, t.x, t.y, ValidWidths(v)[0])
  }

  /**
   * A merge of two present blocks whose sum is at most 100 is accepted: the
   * other blocks keep their order and the merged block comes last.
   */
  lemma MergeAccepted(bs: seq<Block>, source: Id, target: Id, newId: Id, s: Block, t: Block)
    requires Find(bs, source) == Some(s) && Find(bs, target) == Some(t)
    requires s.value + t.value <= MaxValue
    ensures Merge(bs, source, target, newId)
      == Merged(RemoveIds(bs, {source, target}) + [MergedBlock(newId, s.value + t.value, t)], s.value + t.value)
  {
    assert Find(bs, source).value == s && Find(bs, target).value == t;
  }

  /**
   * An accepted merge of two distinct blocks keeps the total, has one block
   * fewer, keeps every other block in order, and ends with the merged block
   * at the target's position.
   */
  lemma MergeSpec(bs: seq<Block>, source: Id, target: Id, newId: Id, s: Block, t: Block)
    requires UniqueIds(bs) && source != target
    requires Find(bs, source) == Some(s) && Find(bs, target) == Some(t)
    requires s.value + t.value <= MaxValue
    ensures var r := Merge(bs, source, target, newId);
      && r.Merged? && r.value == s.value + t.value
      && |r.blocks| == |bs| - 1
      && Total(r.blocks) == Total(bs)
      && r.blocks[..|bs| - 2] == RemoveIds(bs, {source, target})
      && r.blocks[|bs| - 2] == Block(newId, s.value + t.value, t.x, t.y, ValidWidths(s.value + t.value)[0])
  {
    var rest := RemoveIds(bs, {source, target});
    var merged := MergedBlock(newId, s.value + t.value, t);
    MergeAccepted(bs, source, target, newId, s, t);
    RemoveBoth(bs, source, target);
    TotalSnoc(rest, merged);
    assert (rest + [merged])[..|rest|] == rest;
  }

  /** Removing two distinct present ids drops two blocks and their values. */
  lemma RemoveBoth(bs: seq<Block>, source: Id, target: Id)
    requires UniqueIds(bs) && source != target
    requires Find(bs, source).Some? && Find(bs, target).Some?
    ensures var rest := RemoveIds(bs, {source, target});
      && |rest| == |bs| - 2
      && Total(rest) == Total(bs) - Find(bs, source).value.value - Find(bs, target).value.value
  {
    var once := RemoveIds(bs, {source});
    RemoveOne(bs, source, Find(bs, source).value);
    RemoveKeepsUnique(bs, {source});
    FindAfterRemove(bs, {source}, target);
    RemoveOne(once, target, Find(bs, target).value);
    RemoveTwice(bs, {source}, {target});
    assert {source} + {target} == {source, target};
  }

  /** A sum above 100, or a missing block, rejects the merge: the list is left as it is. */
  lemma MergeRejected(bs: seq<Block>, source: Id, target: Id, newId: Id)
    requires Find(bs, source).None? || Find(bs, target).None?
      || Find(bs, source).value.value + Find(bs, target).value.value > MaxValue
    ensures Merge(bs, source, target, newId) == Rejected
  {
  }

  /**
   * Whichever of the two blocks is dragged, the merge is accepted or rejected
   * alike, yields the same value and keeps the same other blocks.
   */
  lemma MergeSymmetric(bs: seq<Block>, a: Id, c: Id, newId: Id)
    ensures Merge(bs, a, c, newId).Merged? == Merge(bs, c, a, newId).Merged?
    ensures Merge(bs, a, c, newId).Merged? ==>
      && Merge(bs, a, c, newId).value == Merge(bs, c, a, newId).value
      && Merge(bs, a, c, newId).blocks[..|Merge(bs, a, c, newId).blocks| - 1]
         == Merge(bs, c, a, newId).blocks[..|Merge(bs, c, a, newId).blocks| - 1]
  {
    assert {a, c} == {c, a};
    if Merge(bs, a, c, newId).Merged? {
      var rest := RemoveIds(bs, {a, c});
      assert Merge(bs, a, c, newId).blocks[..|rest|] == rest;
      assert Merge(bs, c, a, newId).blocks[..|rest|] == rest;
    }
  }

  /** An accepted merge with a next id keeps the board invariant. */
  lemma MergeKeepsBoard(bs: seq<Block>, next: Id, source: Id, target: Id, s: Block, t: Block)
    requires BoardOk(bs, next)
    requires Find(bs, source) == Some(s) && Find(bs, target) == Some(t)
    requires s.value + t.value <= MaxValue
    ensures Merge(bs, source, target, next).Merged?
    ensures BoardOk(Merge(bs, source, target, next).blocks, next + 1)
  {
    MergeAccepted(bs, source, target, next, s, t);
    MergedListOk(bs, next, source, target, s, t);
  }

  /** The filtered list followed by the merged block, with the next id, satisfies the board invariant. */
  lemma MergedListOk(bs: seq<Block>, next: Id, source: Id, target: Id, s: Block, t: Block)
    requires BoardOk(bs, next)
    requires s in bs && t in bs && s.value + t.value <= MaxValue
    ensures BoardOk(RemoveIds(bs, {source, target}) + [MergedBlock(next, s.value + t.value, t)], next + 1)
  {
    var rest := RemoveIds(bs, {source, target});
    RemoveKeepsBoard(bs, {source, target}, next);
    InBoard(bs, next, s);
    InBoard(bs, next, t);
    MergedWellShaped(next, s.value + t.value, t);
    BoardSnocFresh(rest, MergedBlock(next, s.value + t.value, t), next);
  }

  /** A merged block with a sum in the game range is well-shaped. */
  lemma MergedWellShaped(newId: Id, v: int, t: Block)
    requires 1 <= v <= MaxValue
    ensures WellShaped(MergedBlock(newId, v, t))
  {
  }

  /** Every block of a board has a value in the game range and an id below the next one. */
  lemma InBoard(bs: seq<Block>, next: Id, b: Block)
    requires BoardOk(bs, next) && b in bs
    ensures 1 <= b.value <= MaxValue && b.id < next
  {
    var k :| 0 <= k < |bs| && bs[k] == b;
    assert WellShaped(bs[k]);
  }

  // ---------------------------------------------------------------- move

  /** The plain-move branch of `handlePointerUp`: the dragged block takes the drop position. */
  function Move(bs: seq<Block>, id: Id, x: real, y: real): (r: seq<Block>)
    ensures |r| == |bs|
  {
    seq(|bs|, k requires 0 <= k < |bs| => if bs[k].id == id then bs[k].(x := x, y := y) else bs[k])
  }

  /** A move changes only the position of the blocks with the id; the total and the board invariant hold. */
  lemma MoveSpec(bs: seq<Block>, next: Id, id: Id, x: real, y: real)
    ensures var r := Move(bs, id, x, y);
      && Total(r) == Total(bs)
      && (forall k :: 0 <= k < |bs| ==> r[k].id == bs[k].id && r[k].value == bs[k].value && r[k].width == bs[k].width)
      && (forall k :: 0 <= k < |bs| && bs[k].id != id ==> r[k] == bs[k])
      && (forall k :: 0 <= k < |bs| && bs[k].id == id ==> r[k].x == x && r[k].y == y)
      && (BoardOk(bs, next) ==> BoardOk(r, next))
  {
    TotalSameValues(bs, Move(bs, id, x, y));
  }

  /** A rotation keeps the total, the ids and the board invariant. */
  lemma RotateKeepsBoard(bs: seq<Block>, next: Id, id: Id)
    ensures var r := Rotate(bs, id);
      && Total(r) == Total(bs)
      && (forall k :: 0 <= k < |bs| && bs[k].id != id ==> r[k] == bs[k])
      && (BoardOk(bs, next) ==> BoardOk(r, next))
  {
    var r := Rotate(bs, id);
    TotalSameValues(bs, r);
    if BoardOk(bs, next) {
      forall k | 0 <= k < |bs|
        ensures WellShaped(r[k])
      {
        if bs[k].id == id {
          RotateStep(bs[k]);
        }
      }
    }
  }
}
