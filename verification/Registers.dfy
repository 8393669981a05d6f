/** The register file: register items laid out over bit arenas, one arena per register type. */
module Registers {
  import opened BitVectors

  datatype RegItem = RegItem(name: string, kind: nat, offset: nat, size: nat)

  /** Bit number `bit` of the arena of register type `kind`. */
  datatype Cell = Cell(kind: nat, bit: nat)

  type Arena = map<Cell, bool>

  /** What a register profile fixes: all arena bits, the items by name, the item in the role of
      the program counter and the IL variables that are bound to registers. */
  datatype Profile = Profile(cells: set<Cell>, items: map<string, RegItem>, pc: Option<RegItem>, bound: set<string>)

  predicate Inside(c: Cell, ri: RegItem) {
    c.kind == ri.kind && ri.offset <= c.bit < ri.offset + ri.size
  }

  predicate InRange(p: Profile, ri: RegItem) {
    0 < ri.size && forall i :: ri.offset <= i < ri.offset + ri.size ==> Cell(ri.kind, i) in p.cells
  }

  ghost predicate WellFormed(p: Profile) {
    && (forall n :: n in p.items ==> InRange(p, p.items[n]))
    && (p.pc.Some? ==> InRange(p, p.pc.value))
    && (forall v :: v in p.bound ==> v in p.items)
  }

  ghost predicate Disjoint(ri: RegItem, rj: RegItem) {
    forall c :: !(Inside(c, ri) && Inside(c, rj))
  }

  predicate BitAt(a: Arena, c: Cell) {
    c in a && a[c]
  }

  function ZeroArena(p: Profile): (a: Arena)
    ensures a.Keys == p.cells
    ensures forall c :: c in a ==> !a[c]
  {
    map c | c in p.cells :: false
  }

  function ReadReg(a: Arena, ri: RegItem): (v: Bits)
    ensures |v| == ri.size
    ensures forall i :: 0 <= i < ri.size ==> v[i] == BitAt(a, Cell(ri.kind, ri.offset + i))
  {
    seq(ri.size, i requires 0 <= i => BitAt(a, Cell(ri.kind, ri.offset + i)))
  }

  /** Only the bits of ri change. A value of another size is truncated or zero-extended. */
  function WriteReg(a: Arena, ri: RegItem, v: Bits): (a': Arena)
    ensures a'.Keys == a.Keys
    ensures forall c :: c in a ==> a'[c] == if Inside(c, ri) then Resize(v, ri.size)[c.bit - ri.offset] else a[c]
  {
    map c | c in a :: if Inside(c, ri) then Resize(v, ri.size)[c.bit - ri.offset] else a[c]
  }

  lemma WriteResized(a: Arena, ri: RegItem, v: Bits)
    ensures WriteReg(a, ri, Resize(v, ri.size)) == WriteReg(a, ri, v)
  {
    ResizeSame(Resize(v, ri.size));
  }

  /** The bit that a write puts into a cell of its register. */
  lemma WrittenBit(a: Arena, ri: RegItem, v: Bits, c: Cell)
    requires c in a && Inside(c, ri)
    ensures WriteReg(a, ri, v)[c] <==> c.bit - ri.offset < |v| && v[c.bit - ri.offset]
  {
  }

  /** A register's value is known once each of its cells is. */
  lemma ReadFromCells(p: Profile, a: Arena, ri: RegItem, v: Bits)
    requires InRange(p, ri) && a.Keys == p.cells && |v| == ri.size
    requires forall c :: c in a && Inside(c, ri) ==> a[c] == v[c.bit - ri.offset]
    ensures ReadReg(a, ri) == v
  {
    forall i | 0 <= i < ri.size ensures ReadReg(a, ri)[i] == v[i] {
      var c := Cell(ri.kind, ri.offset + i);
      assert c in a && Inside(c, ri);
    }
  }

  lemma ReadAfterWrite(p: Profile, a: Arena, ri: RegItem, v: Bits)
    requires InRange(p, ri) && a.Keys == p.cells
    ensures ReadReg(WriteReg(a, ri, v), ri) == Resize(v, ri.size)
  {
    ReadFromCells(p, WriteReg(a, ri, v), ri, Resize(v, ri.size));
  }

  lemma ReadAfterDisjointWrite(a: Arena, ri: RegItem, rj: RegItem, v: Bits)
    requires Disjoint(ri, rj)
    ensures ReadReg(WriteReg(a, rj, v), ri) == ReadReg(a, ri)
  {
    var a' := WriteReg(a, rj, v);
    forall i | 0 <= i < ri.size ensures ReadReg(a', ri)[i] == ReadReg(a, ri)[i] {
      assert Inside(Cell(ri.kind, ri.offset + i), ri);
    }
  }

  /** Writing back what a register holds changes nothing. */
  lemma RewriteIsNoop(a: Arena, ri: RegItem)
    ensures WriteReg(a, ri, ReadReg(a, ri)) == a
  {
    var v := ReadReg(a, ri);
    forall c | c in a ensures WriteReg(a, ri, v)[c] == a[c] {
      if Inside(c, ri) {
        var i := c.bit - ri.offset;
        assert Resize(v, ri.size)[i] == v[i] == BitAt(a, Cell(ri.kind, ri.offset + i));
        assert Cell(ri.kind, ri.offset + i) == c;
      }
    }
  }

  // ----- Sequences of writes

  datatype RegWrite = RegWrite(ri: RegItem, v: Bits)

  function ApplyWrites(a: Arena, ws: seq<RegWrite>): (a': Arena)
    ensures a'.Keys == a.Keys
  {
    if ws == [] then a
    else WriteReg(ApplyWrites(a, ws[..|ws| - 1]), ws[|ws| - 1].ri, ws[|ws| - 1].v)
  }

  lemma {:induction false} ApplyWritesConcat(a: Arena, xs: seq<RegWrite>, ys: seq<RegWrite>)
    ensures ApplyWrites(a, xs + ys) == ApplyWrites(ApplyWrites(a, xs), ys)
  {
    if ys == [] {
      assert xs + ys == xs;
    } else {
      assert (xs + ys)[..|xs + ys| - 1] == xs + ys[..|ys| - 1];
      ApplyWritesConcat(a, xs, ys[..|ys| - 1]);
    }
  }

  lemma SingleWrite(a: Arena, w: RegWrite)
    ensures ApplyWrites(a, [w]) == WriteReg(a, w.ri, w.v)
  {
    assert [w][..0] == [];
  }

  lemma ApplyOneMore(a: Arena, ws: seq<RegWrite>, w: RegWrite)
    ensures ApplyWrites(a, ws + [w]) == WriteReg(ApplyWrites(a, ws), w.ri, w.v)
  {
    assert (ws + [w])[..|ws + [w]| - 1] == ws;
  }

  /** The bit that write w puts into cell c. */
  predicate Puts(w: RegWrite, c: Cell)
    requires Inside(c, w.ri)
  {
    Resize(w.v, w.ri.size)[c.bit - w.ri.offset]
  }

  /** Two writes put the same bits into the cells that they share. */
  ghost predicate Agree(w: RegWrite, w': RegWrite) {
    forall c :: Inside(c, w.ri) && Inside(c, w'.ri) ==> Puts(w, c) == Puts(w', c)
  }

  ghost predicate AllAgree(ws: seq<RegWrite>) {
    forall i, j :: 0 <= i < j < |ws| ==> Agree(ws[i], ws[j])
  }

  lemma AllAgreePrefix(ws: seq<RegWrite>)
    requires AllAgree(ws) && ws != []
    ensures AllAgree(ws[..|ws| - 1])
  {
    var init := ws[..|ws| - 1];
    forall i, j | 0 <= i < j < |init| ensures Agree(init[i], init[j]) {
      assert Agree(ws[i], ws[j]);
    }
  }

  lemma {:induction false} AgreeingWritesStay(a: Arena, ws: seq<RegWrite>, k: nat, c: Cell)
    requires AllAgree(ws) && k < |ws| && Inside(c, ws[k].ri) && c in a
    ensures ApplyWrites(a, ws)[c] == Puts(ws[k], c)
  {
    var n := |ws| - 1;
    if k < n {
      AllAgreePrefix(ws);
      AgreeingWritesStay(a, ws[..n], k, c);
      assert Agree(ws[k], ws[n]);
    }
  }

  /** After writes that agree with each other, each of them can be read back. */
  lemma AgreeingWritesReadBack(p: Profile, a: Arena, ws: seq<RegWrite>, k: nat)
    requires AllAgree(ws) && k < |ws| && InRange(p, ws[k].ri) && a.Keys == p.cells
    ensures ReadReg(ApplyWrites(a, ws), ws[k].ri) == Resize(ws[k].v, ws[k].ri.size)
  {
    var a' := ApplyWrites(a, ws);
    forall c | c in a' && Inside(c, ws[k].ri) ensures a'[c] == Puts(ws[k], c) {
      AgreeingWritesStay(a, ws, k, c);
    }
    ReadFromCells(p, a', ws[k].ri, Resize(ws[k].v, ws[k].ri.size));
  }
}
