/** What `difflib.SequenceMatcher(None, a, b)` hands to the comparator: its matching blocks, the
    ratio computed from them, and the opcodes derived from them.

    The blocks are an input. The model asks of them only what `get_matching_blocks` guarantees:
    positive sizes, equal text in both strings, and strictly increasing positions in both strings.
    How difflib picks the blocks (longest match first, the autojunk heuristic) is not modelled.
    So no property that depends on that choice is claimed, such as `ratio(a, a) == 1` or symmetry. */
module Matching {

  /** A matching block (i, j, size): a[i..i+size] == b[j..j+size]. */
  datatype Block = Block(i: nat, j: nat, size: nat)

  /** `blocks` is a chain of matching blocks of `a` and `b` that starts at or after (loA, loB). */
  predicate IsChainFrom(a: string, b: string, blocks: seq<Block>, loA: nat, loB: nat)
    decreases |blocks|
  {
    blocks == [] ||
    (var k := blocks[0];
     && loA <= k.i && loB <= k.j && 0 < k.size
     && k.i + k.size <= |a| && k.j + k.size <= |b|
     && a[k.i..k.i + k.size] == b[k.j..k.j + k.size]
     && IsChainFrom(a, b, blocks[1..], k.i + k.size, k.j + k.size))
  }

  /** The positions of a chain: blocks of positive size, within lengths lenA and lenB, each starting
      at or after the end of the one before (and the first at or after (loA, loB)). */
  predicate InOrderFrom(blocks: seq<Block>, loA: nat, loB: nat, lenA: nat, lenB: nat)
    decreases |blocks|
  {
    blocks == [] ||
    (var k := blocks[0];
     && loA <= k.i && loB <= k.j && 0 < k.size
     && k.i + k.size <= lenA && k.j + k.size <= lenB
     && InOrderFrom(blocks[1..], k.i + k.size, k.j + k.size, lenA, lenB))
  }

  lemma {:induction false} ChainInOrder(a: string, b: string, blocks: seq<Block>, loA: nat, loB: nat)
    requires IsChainFrom(a, b, blocks, loA, loB)
    ensures InOrderFrom(blocks, loA, loB, |a|, |b|)
  {
    if blocks != [] {
      var k := blocks[0];
      ChainInOrder(a, b, blocks[1..], k.i + k.size, k.j + k.size);
    }
  }

  /** The matching blocks of `a` and `b` (without difflib's closing sentinel). */
  predicate IsMatching(a: string, b: string, blocks: seq<Block>)
  {
    IsChainFrom(a, b, blocks, 0, 0)
  }

  /** M, the number of matched characters: `sum(triple[-1] for triple in get_matching_blocks())`. */
  function Matched(blocks: seq<Block>): nat
  {
    if blocks == [] then 0 else blocks[0].size + Matched(blocks[1..])
  }

  /** The blocks fit into what is left of both strings. */
  lemma {:induction false} MatchedBounded(a: string, b: string, blocks: seq<Block>, loA: nat, loB: nat)
    requires IsChainFrom(a, b, blocks, loA, loB) && loA <= |a| && loB <= |b|
    ensures Matched(blocks) <= |a| - loA && Matched(blocks) <= |b| - loB
  {
    if blocks != [] {
      var k := blocks[0];
      MatchedBounded(a, b, blocks[1..], k.i + k.size, k.j + k.size);
    }
  }

  /** `SequenceMatcher(None, a, b).ratio()`: 2*M/T with T = |a| + |b|, and 1.0 when T == 0. */
  function Similarity(a: string, b: string, blocks: seq<Block>): (r: real)
    requires IsMatching(a, b, blocks)
    ensures 0.0 <= r <= 1.0
    ensures |a| + |b| == 0 ==> r == 1.0
  {
    MatchedBounded(a, b, blocks, 0, 0);
    if |a| + |b| == 0 then 1.0
    else
      var twiceMatched, total := 2.0 * (Matched(blocks) as real), (|a| + |b|) as real;
      FractionInUnitRange(twiceMatched, total);
      twiceMatched / total
  }

  lemma FractionInUnitRange(x: real, total: real)
    requires 0.0 <= x <= total && 0.0 < total
    ensures 0.0 <= x / total <= 1.0
  {
    assert x / total * total == x;
  }

  /** Blocks that match all that is left of both strings make those rests identical. */
  lemma {:induction false} FullChainIdentical(a: string, b: string, blocks: seq<Block>, loA: nat, loB: nat)
    requires IsChainFrom(a, b, blocks, loA, loB) && loA <= |a| && loB <= |b|
    requires Matched(blocks) == |a| - loA == |b| - loB
    ensures a[loA..] == b[loB..]
  {
    if blocks != [] {
      var k := blocks[0];
      var endA, endB := k.i + k.size, k.j + k.size;
      MatchedBounded(a, b, blocks[1..], endA, endB);
      assert k.i == loA && k.j == loB;
      FullChainIdentical(a, b, blocks[1..], endA, endB);
      assert a[loA..] == a[loA..endA] + a[endA..];
      assert b[loB..] == b[loB..endB] + b[endB..];
    }
  }

  /** A ratio of 1.0 means the two texts are identical. */
  lemma SimilarityOneMeansEqual(a: string, b: string, blocks: seq<Block>)
    requires IsMatching(a, b, blocks)
    requires Similarity(a, b, blocks) == 1.0
    ensures a == b
  {
    MatchedBounded(a, b, blocks, 0, 0);
    if |a| + |b| > 0 {
      var t := (|a| + |b|) as real;
      assert 2.0 * (Matched(blocks) as real) == t;
    }
    FullChainIdentical(a, b, blocks, 0, 0);
  }

  /** An empty text against a non-empty one has ratio 0.0, in either order. */
  lemma SimilarityWithEmpty(a: string, b: string, blocks: seq<Block>)
    requires IsMatching(a, b, blocks)
    requires (a == [] && b != []) || (a != [] && b == [])
    ensures Similarity(a, b, blocks) == 0.0
  {
    MatchedBounded(a, b, blocks, 0, 0);
  }

  /** The four opcode tags of `get_opcodes`. */
  datatype Tag = Equal | Delete | Insert | Replace

  /** (tag, i1, i2, j1, j2): a[i1..i2] relates to b[j1..j2] as the tag says. */
  datatype Opcode = Opcode(tag: Tag, i1: nat, i2: nat, j1: nat, j2: nat)

  /** The opcode `get_opcodes` emits for the stretch between (i, j) and the next block at
      (ai, bj): replace, delete, insert, or nothing when the stretch is empty. */
  function GapOpcode(i: nat, ai: nat, j: nat, bj: nat): seq<Opcode>
  {
    if i < ai && j < bj then [Opcode(Replace, i, ai, j, bj)]
    else if i < ai then [Opcode(Delete, i, ai, j, bj)]
    else if j < bj then [Opcode(Insert, i, ai, j, bj)]
    else []
  }

  /** `get_opcodes` over the blocks from (i, j) on, closed by the sentinel block (lenA, lenB, 0),
      which adds a gap opcode but no equal one. */
  function OpcodesFrom(blocks: seq<Block>, i: nat, j: nat, lenA: nat, lenB: nat): seq<Opcode>
  {
    if blocks == [] then GapOpcode(i, lenA, j, lenB)
    else
      var k := blocks[0];
      GapOpcode(i, k.i, j, k.j)
      + ([Opcode(Equal, k.i, k.i + k.size, k.j, k.j + k.size)]
         + OpcodesFrom(blocks[1..], k.i + k.size, k.j + k.size, lenA, lenB))
  }

  /** `SequenceMatcher(None, a, b).get_opcodes()`. */
  function Opcodes(a: string, b: string, blocks: seq<Block>): seq<Opcode>
  {
    OpcodesFrom(blocks, 0, 0, |a|, |b|)
  }

  /** The opcodes cover a[i..lenA] and b[j..lenB] one after the other, without gaps or overlap,
      each shaped as its tag says. */
  predicate TilesFrom(ops: seq<Opcode>, i: nat, j: nat, lenA: nat, lenB: nat)
    decreases |ops|
  {
    if ops == [] then i == lenA && j == lenB
    else
      var op := ops[0];
      && op.i1 == i && op.j1 == j
      && (match op.tag
          case Equal => i < op.i2 && op.i2 - op.i1 == op.j2 - op.j1
          case Delete => i < op.i2 && op.j2 == j
          case Insert => op.i2 == i && j < op.j2
          case Replace => i < op.i2 && j < op.j2)
      && TilesFrom(ops[1..], op.i2, op.j2, lenA, lenB)
  }

  /** An edit script of `a` into `b`: the opcodes tile both strings and every equal opcode pairs
      equal text. */
  predicate IsEditScript(a: string, b: string, ops: seq<Opcode>)
  {
    && TilesFrom(ops, 0, 0, |a|, |b|)
    && forall k :: 0 <= k < |ops| && ops[k].tag == Equal ==>
         ops[k].i1 <= ops[k].i2 <= |a| && ops[k].j1 <= ops[k].j2 <= |b| &&
         a[ops[k].i1..ops[k].i2] == b[ops[k].j1..ops[k].j2]
  }

  lemma GapThenTiles(i: nat, ai: nat, j: nat, bj: nat, rest: seq<Opcode>, lenA: nat, lenB: nat)
    requires i <= ai && j <= bj && TilesFrom(rest, ai, bj, lenA, lenB)
    ensures TilesFrom(GapOpcode(i, ai, j, bj) + rest, i, j, lenA, lenB)
  {
    var gap := GapOpcode(i, ai, j, bj);
    if gap == [] {
      assert gap + rest == rest;
    } else {
      assert (gap + rest)[1..] == rest;
    }
  }

  /** Over blocks in order, `get_opcodes` tiles both strings from (i, j) on. */
  lemma {:induction false} OpcodesTile(blocks: seq<Block>, i: nat, j: nat, lenA: nat, lenB: nat)
    requires InOrderFrom(blocks, i, j, lenA, lenB) && i <= lenA && j <= lenB
    ensures TilesFrom(OpcodesFrom(blocks, i, j, lenA, lenB), i, j, lenA, lenB)
    decreases 2 * |blocks|
  {
    if blocks == [] {
      GapTiles(i, j, lenA, lenB);
    } else {
      BlockTiles(blocks[0], blocks[1..], i, j, lenA, lenB);
      OpcodesFromCons(blocks, i, j, lenA, lenB);
    }
  }

  /** The gap before block `k`, its equal opcode, then the opcodes of the blocks after it, tile
      from (i, j) on. */
  lemma {:induction false} BlockTiles(k: Block, tail: seq<Block>, i: nat, j: nat, lenA: nat, lenB: nat)
    requires i <= k.i && j <= k.j && 0 < k.size && k.i + k.size <= lenA && k.j + k.size <= lenB
    requires InOrderFrom(tail, k.i + k.size, k.j + k.size, lenA, lenB)
    ensures TilesFrom(GapOpcode(i, k.i, j, k.j)
      + ([Opcode(Equal, k.i, k.i + k.size, k.j, k.j + k.size)] + OpcodesFrom(tail, k.i + k.size, k.j + k.size, lenA, lenB)),
      i, j, lenA, lenB)
    decreases 2 * |tail| + 1
  {
    var rest := OpcodesFrom(tail, k.i + k.size, k.j + k.size, lenA, lenB);
    OpcodesTile(tail, k.i + k.size, k.j + k.size, lenA, lenB);
    EqualThenTiles(k, rest, lenA, lenB);
    GapThenTiles(i, k.i, j, k.j, [Opcode(Equal, k.i, k.i + k.size, k.j, k.j + k.size)] + rest, lenA, lenB);
  }

  lemma GapTiles(i: nat, j: nat, lenA: nat, lenB: nat)
    requires i <= lenA && j <= lenB
    ensures TilesFrom(GapOpcode(i, lenA, j, lenB), i, j, lenA, lenB)
  {
    GapThenTiles(i, lenA, j, lenB, [], lenA, lenB);
    assert GapOpcode(i, lenA, j, lenB) + [] == GapOpcode(i, lenA, j, lenB);
  }

  lemma EqualThenTiles(k: Block, rest: seq<Opcode>, lenA: nat, lenB: nat)
    requires 0 < k.size && TilesFrom(rest, k.i + k.size, k.j + k.size, lenA, lenB)
    ensures TilesFrom([Opcode(Equal, k.i, k.i + k.size, k.j, k.j + k.size)] + rest, k.i, k.j, lenA, lenB)
  {
    var ops := [Opcode(Equal, k.i, k.i + k.size, k.j, k.j + k.size)] + rest;
    assert ops[1..] == rest;
  }

  /** One step of `get_opcodes`: the gap before the first block, its equal opcode, the rest. */
  lemma OpcodesFromCons(blocks: seq<Block>, i: nat, j: nat, lenA: nat, lenB: nat)
    requires blocks != []
    ensures OpcodesFrom(blocks, i, j, lenA, lenB) ==
      GapOpcode(i, blocks[0].i, j, blocks[0].j)
      + ([Opcode(Equal, blocks[0].i, blocks[0].i + blocks[0].size, blocks[0].j, blocks[0].j + blocks[0].size)]
         + OpcodesFrom(blocks[1..], blocks[0].i + blocks[0].size, blocks[0].j + blocks[0].size, lenA, lenB))
  {
  }

  /** Over a chain of matching blocks, every equal opcode of `get_opcodes` pairs equal text. */
  lemma {:induction false} OpcodesPairEqualText(a: string, b: string, blocks: seq<Block>, i: nat, j: nat, op: Opcode)
    requires IsChainFrom(a, b, blocks, i, j)
    requires op in OpcodesFrom(blocks, i, j, |a|, |b|) && op.tag == Equal
    ensures op.i1 <= op.i2 <= |a| && op.j1 <= op.j2 <= |b| && a[op.i1..op.i2] == b[op.j1..op.j2]
  {
    if blocks != [] {
      var k := blocks[0];
      var eq := Opcode(Equal, k.i, k.i + k.size, k.j, k.j + k.size);
      var rest := OpcodesFrom(blocks[1..], k.i + k.size, k.j + k.size, |a|, |b|);
      var gap := GapOpcode(i, k.i, j, k.j);
      assert OpcodesFrom(blocks, i, j, |a|, |b|) == gap + ([eq] + rest);
      if op in rest {
        OpcodesPairEqualText(a, b, blocks[1..], k.i + k.size, k.j + k.size, op);
      }
    }
  }

  /** The opcodes of a matching form an edit script of `a` into `b`. */
  lemma OpcodesAreEditScript(a: string, b: string, blocks: seq<Block>)
    requires IsMatching(a, b, blocks)
    ensures IsEditScript(a, b, Opcodes(a, b, blocks))
  {
    var ops := Opcodes(a, b, blocks);
    ChainInOrder(a, b, blocks, 0, 0);
    OpcodesTile(blocks, 0, 0, |a|, |b|);
    forall k | 0 <= k < |ops| && ops[k].tag == Equal
      ensures ops[k].i1 <= ops[k].i2 <= |a| && ops[k].j1 <= ops[k].j2 <= |b|
      ensures a[ops[k].i1..ops[k].i2] == b[ops[k].j1..ops[k].j2]
    {
      OpcodesPairEqualText(a, b, blocks, 0, 0, ops[k]);
    }
  }
}
