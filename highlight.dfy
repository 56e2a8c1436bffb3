/** `DocumentComparator.highlight_changes`: the two texts rewritten with the differences marked,
    walking the opcodes of the matcher. */
module Highlight {
  import opened Text
  import opened Matching

  /** The four markers. */
  datatype Marker = Removed | Added | Altered | New
  {
    function Word(): string
    {
      match this
      case Removed => "REMOVIDO"
      case Added => "ADICIONADO"
      case Altered => "ALTERADO"
      case New => "NOVO"
    }
  }

  /** One piece appended to an output: text copied as it is, or text wrapped in a marker. */
  datatype Piece = Kept(text: string) | Marked(marker: Marker, text: string)

  /** The string appended for a piece; a marked one reads `**[WORD: text]**`. */
  function Render(p: Piece): string
  {
    match p
    case Kept(t) => t
    case Marked(m, t) => "**[" + m.Word() + ": " + t + "]**"
  }

  function RenderEach(ps: seq<Piece>): (rs: seq<string>)
    ensures |rs| == |ps|
    ensures forall i :: 0 <= i < |ps| ==> rs[i] == Render(ps[i])
  {
    seq(|ps|, i requires 0 <= i < |ps| => Render(ps[i]))
  }

  lemma RenderEachAppend(xs: seq<Piece>, ys: seq<Piece>)
    ensures RenderEach(xs + ys) == RenderEach(xs) + RenderEach(ys)
  {
  }

  /** The pieces with their markers stripped. */
  function Plain(ps: seq<Piece>): string
  {
    if ps == [] then "" else ps[0].text + Plain(ps[1..])
  }

  /** Every opcode's ranges lie within the two texts. */
  predicate InBounds(ops: seq<Opcode>, lenA: nat, lenB: nat)
  {
    forall k :: 0 <= k < |ops| ==> ops[k].i1 <= ops[k].i2 <= lenA && ops[k].j1 <= ops[k].j2 <= lenB
  }

  /** What one opcode appends to the first output. */
  function OldPieces(a: string, op: Opcode): seq<Piece>
    requires op.i1 <= op.i2 <= |a|
  {
    match op.tag
    case Equal => [Kept(a[op.i1..op.i2])]
    case Delete => [Marked(Removed, a[op.i1..op.i2])]
    case Insert => []
    case Replace => [Marked(Altered, a[op.i1..op.i2])]
  }

  /** What one opcode appends to the second output. */
  function NewPieces(b: string, op: Opcode): seq<Piece>
    requires op.j1 <= op.j2 <= |b|
  {
    match op.tag
    case Equal => [Kept(b[op.j1..op.j2])]
    case Delete => []
    case Insert => [Marked(Added, b[op.j1..op.j2])]
    case Replace => [Marked(New, b[op.j1..op.j2])]
  }

  /** The pieces of the first output, opcode by opcode. */
  function OldSide(a: string, b: string, ops: seq<Opcode>): seq<Piece>
    requires InBounds(ops, |a|, |b|)
  {
    if ops == [] then [] else OldPieces(a, ops[0]) + OldSide(a, b, ops[1..])
  }

  /** The pieces of the second output, opcode by opcode. */
  function NewSide(a: string, b: string, ops: seq<Opcode>): seq<Piece>
    requires InBounds(ops, |a|, |b|)
  {
    if ops == [] then [] else NewPieces(b, ops[0]) + NewSide(a, b, ops[1..])
  }

  lemma SidesAppend(a: string, b: string, ops: seq<Opcode>, op: Opcode)
    requires InBounds(ops, |a|, |b|) && op.i1 <= op.i2 <= |a| && op.j1 <= op.j2 <= |b|
    ensures InBounds(ops + [op], |a|, |b|)
    ensures OldSide(a, b, ops + [op]) == OldSide(a, b, ops) + OldPieces(a, op)
    ensures NewSide(a, b, ops + [op]) == NewSide(a, b, ops) + NewPieces(b, op)
  {
    OldSideAppend(a, b, ops, op);
    NewSideAppend(a, b, ops, op);
  }

  lemma {:induction false} OldSideAppend(a: string, b: string, ops: seq<Opcode>, op: Opcode)
    requires InBounds(ops, |a|, |b|) && op.i1 <= op.i2 <= |a| && op.j1 <= op.j2 <= |b|
    ensures InBounds(ops + [op], |a|, |b|)
    ensures OldSide(a, b, ops + [op]) == OldSide(a, b, ops) + OldPieces(a, op)
  {
    if ops == [] {
      assert [op][1..] == [];
    } else {
      assert (ops + [op])[1..] == ops[1..] + [op];
      assert (ops + [op])[0] == ops[0];
      OldSideAppend(a, b, ops[1..], op);
    }
  }

  lemma {:induction false} NewSideAppend(a: string, b: string, ops: seq<Opcode>, op: Opcode)
    requires InBounds(ops, |a|, |b|) && op.i1 <= op.i2 <= |a| && op.j1 <= op.j2 <= |b|
    ensures InBounds(ops + [op], |a|, |b|)
    ensures NewSide(a, b, ops + [op]) == NewSide(a, b, ops) + NewPieces(b, op)
  {
    if ops == [] {
      assert [op][1..] == [];
    } else {
      assert (ops + [op])[1..] == ops[1..] + [op];
      assert (ops + [op])[0] == ops[0];
      NewSideAppend(a, b, ops[1..], op);
    }
  }

  /** `highlight_changes(text1, text2)`: the opcodes of the matching `blocks`, rendered. */
  method HighlightChanges(text1: string, text2: string, blocks: seq<Block>) returns (marked1: string, marked2: string)
    requires IsMatching(text1, text2, blocks)
    ensures InBounds(Opcodes(text1, text2, blocks), |text1|, |text2|)
    ensures marked1 == Concat(RenderEach(OldSide(text1, text2, Opcodes(text1, text2, blocks))))
    ensures marked2 == Concat(RenderEach(NewSide(text1, text2, Opcodes(text1, text2, blocks))))
  {
    var ops := Opcodes(text1, text2, blocks);
    OpcodesAreEditScript(text1, text2, blocks);
    TilesInBounds(ops, 0, 0, |text1|, |text2|);
    marked1, marked2 := HighlightOpcodes(text1, text2, ops);
  }

  /** The loop of `highlight_changes`: per opcode, append the pieces of each side; the outputs are
      the joined renderings. */
  method HighlightOpcodes(text1: string, text2: string, ops: seq<Opcode>) returns (marked1: string, marked2: string)
    requires InBounds(ops, |text1|, |text2|)
    ensures marked1 == Concat(RenderEach(OldSide(text1, text2, ops)))
    ensures marked2 == Concat(RenderEach(NewSide(text1, text2, ops)))
  {
    var highlighted1: seq<string> := [];
    var highlighted2: seq<string> := [];
    for k := 0 to |ops|
      invariant InBounds(ops[..k], |text1|, |text2|)
      invariant highlighted1 == RenderEach(OldSide(text1, text2, ops[..k]))
      invariant highlighted2 == RenderEach(NewSide(text1, text2, ops[..k]))
    {
      var op := ops[k];
      var pieces1, pieces2 := HighlightOpcode(text1, text2, op);
      highlighted1 := highlighted1 + pieces1;
      highlighted2 := highlighted2 + pieces2;
      SidesAppend(text1, text2, ops[..k], op);
      RenderEachAppend(OldSide(text1, text2, ops[..k]), OldPieces(text1, op));
      RenderEachAppend(NewSide(text1, text2, ops[..k]), NewPieces(text2, op));
      assert ops[..k + 1] == ops[..k] + [op];
    }
    assert ops[..|ops|] == ops;
    marked1 := Concat(highlighted1);
    marked2 := Concat(highlighted2);
  }

  /** The body of the loop of `highlight_changes`: what one opcode appends to each list. Each case
      is written as the source writes it; the ensures tie it to `OldPieces`/`NewPieces`, the pieces
      the specification of the whole loop is stated in. */
  method HighlightOpcode(text1: string, text2: string, op: Opcode) returns (pieces1: seq<string>, pieces2: seq<string>)
    requires op.i1 <= op.i2 <= |text1| && op.j1 <= op.j2 <= |text2|
    ensures pieces1 == RenderEach(OldPieces(text1, op))
    ensures pieces2 == RenderEach(NewPieces(text2, op))
  {
    match op.tag {
      case Equal =>
        pieces1, pieces2 := [text1[op.i1..op.i2]], [text2[op.j1..op.j2]];
      case Delete =>
        pieces1, pieces2 := [Render(Marked(Removed, text1[op.i1..op.i2]))], [];
      case Insert =>
        pieces1, pieces2 := [], [Render(Marked(Added, text2[op.j1..op.j2]))];
      case Replace =>
        pieces1, pieces2 := [Render(Marked(Altered, text1[op.i1..op.i2]))], [Render(Marked(New, text2[op.j1..op.j2]))];
    }
  }

  /** Opcodes that tile both texts stay within them. */
  lemma {:induction false} TilesInBounds(ops: seq<Opcode>, i: nat, j: nat, lenA: nat, lenB: nat)
    requires TilesFrom(ops, i, j, lenA, lenB)
    ensures i <= lenA && j <= lenB && InBounds(ops, lenA, lenB)
  {
    if ops != [] {
      TilesInBounds(ops[1..], ops[0].i2, ops[0].j2, lenA, lenB);
      forall k | 0 <= k < |ops|
        ensures ops[k].i1 <= ops[k].i2 <= lenA && ops[k].j1 <= ops[k].j2 <= lenB
      {
        if k > 0 {
          assert ops[k] == ops[1..][k - 1];
        }
      }
    }
  }

  /** Stripped of their markers, the two outputs give back the two texts (from (i, j) on), when
      the opcodes tile both. */
  lemma SidesRestoreTexts(a: string, b: string, ops: seq<Opcode>, i: nat, j: nat)
    requires TilesFrom(ops, i, j, |a|, |b|)
    ensures InBounds(ops, |a|, |b|)
    ensures Plain(OldSide(a, b, ops)) == a[i..]
    ensures Plain(NewSide(a, b, ops)) == b[j..]
  {
    OldSideRestores(a, b, ops, i, j);
    NewSideRestores(a, b, ops, i, j);
  }

  lemma PlainAppend(xs: seq<Piece>, ys: seq<Piece>)
    ensures Plain(xs + ys) == Plain(xs) + Plain(ys)
  {
    if xs != [] {
      assert (xs + ys)[0] == xs[0] && (xs + ys)[1..] == xs[1..] + ys;
      PlainAppend(xs[1..], ys);
    } else {
      assert xs + ys == ys;
    }
  }

  lemma {:induction false} OldSideRestores(a: string, b: string, ops: seq<Opcode>, i: nat, j: nat)
    requires TilesFrom(ops, i, j, |a|, |b|)
    ensures InBounds(ops, |a|, |b|)
    ensures Plain(OldSide(a, b, ops)) == a[i..]
  {
    TilesInBounds(ops, i, j, |a|, |b|);
    if ops != [] {
      OldSideRestores(a, b, ops[1..], ops[0].i2, ops[0].j2);
      OldSideStep(a, b, ops[0], OldSide(a, b, ops[1..]));
    }
  }

  lemma OldSideStep(a: string, b: string, op: Opcode, rest: seq<Piece>)
    requires op.i1 <= op.i2 <= |a| && op.j1 <= op.j2 <= |b| && (op.tag == Insert ==> op.i1 == op.i2)
    requires Plain(rest) == a[op.i2..]
    ensures Plain(OldPieces(a, op) + rest) == a[op.i1..]
  {
    PlainAppend(OldPieces(a, op), rest);
    PlainOfPieces(a, b, op);
    assert a[op.i1..] == a[op.i1..op.i2] + a[op.i2..];
  }

  lemma {:induction false} NewSideRestores(a: string, b: string, ops: seq<Opcode>, i: nat, j: nat)
    requires TilesFrom(ops, i, j, |a|, |b|)
    ensures InBounds(ops, |a|, |b|)
    ensures Plain(NewSide(a, b, ops)) == b[j..]
  {
    TilesInBounds(ops, i, j, |a|, |b|);
    if ops != [] {
      NewSideRestores(a, b, ops[1..], ops[0].i2, ops[0].j2);
      NewSideStep(a, b, ops[0], NewSide(a, b, ops[1..]));
    }
  }

  lemma NewSideStep(a: string, b: string, op: Opcode, rest: seq<Piece>)
    requires op.i1 <= op.i2 <= |a| && op.j1 <= op.j2 <= |b| && (op.tag == Delete ==> op.j1 == op.j2)
    requires Plain(rest) == b[op.j2..]
    ensures Plain(NewPieces(b, op) + rest) == b[op.j1..]
  {
    PlainAppend(NewPieces(b, op), rest);
    PlainOfPieces(a, b, op);
    assert b[op.j1..] == b[op.j1..op.j2] + b[op.j2..];
  }

  /** Stripped of its marker, what one opcode appends to each side is the range it covers there. */
  lemma PlainOfPieces(a: string, b: string, op: Opcode)
    requires op.i1 <= op.i2 <= |a| && op.j1 <= op.j2 <= |b|
    ensures (op.tag != Insert || op.i1 == op.i2) ==> Plain(OldPieces(a, op)) == a[op.i1..op.i2]
    ensures (op.tag != Delete || op.j1 == op.j2) ==> Plain(NewPieces(b, op)) == b[op.j1..op.j2]
  {
    var old1, new1 := OldPieces(a, op), NewPieces(b, op);
    if old1 != [] {
      assert old1[1..] == [];
    }
    if new1 != [] {
      assert new1[1..] == [];
    }
  }

  /** Deleted and replaced text is marked only in the first output, inserted and new text only in
      the second. */
  lemma {:induction false} MarkersStayOnTheirSide(a: string, b: string, ops: seq<Opcode>)
    requires InBounds(ops, |a|, |b|)
    ensures forall p :: p in OldSide(a, b, ops) && p.Marked? ==> p.marker == Removed || p.marker == Altered
    ensures forall p :: p in NewSide(a, b, ops) && p.Marked? ==> p.marker == Added || p.marker == New
  {
    if ops != [] {
      MarkersStayOnTheirSide(a, b, ops[1..]);
    }
  }

  /** For the opcodes of a matching, the first output without its markers is `text1` and the
      second is `text2`. */
  lemma HighlightRestoresTexts(text1: string, text2: string, blocks: seq<Block>)
    requires IsMatching(text1, text2, blocks)
    ensures InBounds(Opcodes(text1, text2, blocks), |text1|, |text2|)
    ensures Plain(OldSide(text1, text2, Opcodes(text1, text2, blocks))) == text1
    ensures Plain(NewSide(text1, text2, Opcodes(text1, text2, blocks))) == text2
  {
    OpcodesAreEditScript(text1, text2, blocks);
    SidesRestoreTexts(text1, text2, Opcodes(text1, text2, blocks), 0, 0);
  }
}
