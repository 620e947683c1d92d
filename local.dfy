/** The local passes: constant folding of integer add/sub/mul and iterative
    dead-code elimination.  Both follow "redirect uses, defer erase": a scan
    collects the instructions to remove, and they are erased only after it. */
module LocalOptimizations {
  import opened IR

  /** Instructions that must never be removed: they touch memory or control
      flow.  A load is not among them. */
  predicate IsSideEffect(ins: Instr) {
    ins.op == Store || ins.op == Call || ins.op == Alloca || IsTerminator(ins.op)
  }

  // ---------------------------------------------------------------------------
  // Constant folding

  predicate IsArith(op: Opcode) {
    op == Add || op == Sub || op == Mul
  }

  /** The exact integer result of the operation, before any wrap-around. */
  function Arith(op: Opcode, a: int, b: int): int
    requires IsArith(op)
  {
    match op
    case Add => a + b
    case Sub => a - b
    case Mul => a * b
  }

  /** An add/sub/mul whose operands 0 and 1 are both integer constants. */
  predicate Foldable(ins: Instr) {
    IsArith(ins.op) && |ins.operands| >= 2 && ins.operands[0].ConstInt? && ins.operands[1].ConstInt?
  }

  /** The folded constant: the operation's two's-complement result at the bit
      width of the operands, i.e. wrapping add, sub and mul. */
  function FoldedValue(ins: Instr): (c: Operand)
    requires Foldable(ins)
    ensures c.ConstInt? && c.width == ins.operands[0].width
    ensures c.width > 0 ==> -Pow2(c.width - 1) <= c.value < Pow2(c.width - 1)
    ensures c.value % Pow2(c.width) ==
            Arith(ins.op, ins.operands[0].value, ins.operands[1].value) % Pow2(c.width)
  {
    var a := ins.operands[0];
    var b := ins.operands[1];
    ConstInt(Wrap(Arith(ins.op, a.value, b.value), a.width), a.width)
  }

  /** The folding scan over `ids` in order.  Each foldable instruction has its
      uses redirected to the folded constant at once, so an instruction later
      in the scan may see a constant operand that was not there at the start.
      Returns the rewritten arena and the folded instructions, in scan order. */
  ghost function FoldScan(instrs: seq<Instr>, ids: seq<InstrId>): (r: (seq<Instr>, seq<InstrId>))
    ensures |r.0| == |instrs|
    ensures AllValid(instrs) ==> AllValid(r.0)
    decreases |ids|
  {
    if ids == [] then (instrs, [])
    else if ids[0] < |instrs| && Foldable(instrs[ids[0]]) then
      var rest := FoldScan(ReplaceAllUses(instrs, ids[0], FoldedValue(instrs[ids[0]])), ids[1..]);
      (rest.0, [ids[0]] + rest.1)
    else
      FoldScan(instrs, ids[1..])
  }

  /** Folding rewrites operands only: every opcode stays, and only visited
      add/sub/mul instructions are reported as folded. */
  lemma {:induction false} FoldScanShape(instrs: seq<Instr>, ids: seq<InstrId>)
    ensures forall k :: 0 <= k < |instrs| ==> FoldScan(instrs, ids).0[k].op == instrs[k].op
    ensures forall x :: x in FoldScan(instrs, ids).1 ==> x in ids && x < |instrs| && IsArith(instrs[x].op)
    decreases |ids|
  {
    if ids != [] {
      var x := ids[0];
      if x < |instrs| && Foldable(instrs[x]) {
        FoldScanShape(ReplaceAllUses(instrs, x, FoldedValue(instrs[x])), ids[1..]);
      } else {
        FoldScanShape(instrs, ids[1..]);
      }
    }
  }

  /** One step of the scan, as the pass's loop takes it. */
  lemma {:induction false} FoldScanStep(instrs: seq<Instr>, done: seq<InstrId>, ids: seq<InstrId>, all: (seq<Instr>, seq<InstrId>))
    requires ids != [] && FoldScan(instrs, ids).0 == all.0 && done + FoldScan(instrs, ids).1 == all.1
    ensures var x := ids[0];
            if x < |instrs| && Foldable(instrs[x]) then
              var next := ReplaceAllUses(instrs, x, FoldedValue(instrs[x]));
              FoldScan(next, ids[1..]).0 == all.0 && (done + [x]) + FoldScan(next, ids[1..]).1 == all.1
            else
              FoldScan(instrs, ids[1..]).0 == all.0 && done + FoldScan(instrs, ids[1..]).1 == all.1
  {
    var x := ids[0];
    if x < |instrs| && Foldable(instrs[x]) {
      var next := ReplaceAllUses(instrs, x, FoldedValue(instrs[x]));
      assert FoldScan(instrs, ids).1 == [x] + FoldScan(next, ids[1..]).1;
      assert done + ([x] + FoldScan(next, ids[1..]).1) == (done + [x]) + FoldScan(next, ids[1..]).1;
    }
  }

  /** Folding reports no change exactly when no instruction of the scan is
      foldable, and then it leaves the arena as it was. */
  lemma {:induction false} FoldScanNoChange(instrs: seq<Instr>, ids: seq<InstrId>)
    ensures FoldScan(instrs, ids).1 == [] <==>
            forall x :: x in ids && x < |instrs| ==> !Foldable(instrs[x])
    ensures FoldScan(instrs, ids).1 == [] ==> FoldScan(instrs, ids).0 == instrs
    decreases |ids|
  {
    if ids != [] {
      FoldScanNoChange(instrs, ids[1..]);
      assert forall x :: x in ids <==> x == ids[0] || x in ids[1..];
    }
  }

  /** Folding never makes an instruction use something it did not use, and
      after it nothing uses a folded instruction: every folded instruction
      can be erased without leaving a dangling operand. */
  lemma {:induction false} FoldScanUses(instrs: seq<Instr>, ids: seq<InstrId>, k: nat, y: InstrId)
    requires k < |instrs|
    ensures Uses(FoldScan(instrs, ids).0[k], y) ==> Uses(instrs[k], y)
    ensures y in FoldScan(instrs, ids).1 ==> !Uses(FoldScan(instrs, ids).0[k], y)
    decreases |ids|
  {
    if ids != [] {
      var x := ids[0];
      if x < |instrs| && Foldable(instrs[x]) {
        var next := ReplaceAllUses(instrs, x, FoldedValue(instrs[x]));
        FoldScanUses(next, ids[1..], k, y);
        ReplaceAllUsesRemoves(instrs, x, FoldedValue(instrs[x]), k, y);
        FoldScanUses(next, ids[1..], k, x);
      } else {
        FoldScanUses(instrs, ids[1..], k, y);
      }
    }
  }

  /** A fold cascades within one scan: `%1 = add 2, 3; %2 = add %1, 4; ret %2`
      folds both additions, and the return now yields the constant 9. */
  lemma {:induction false} FoldCascade()
    ensures var instrs := [
              Instr(Add, [ConstInt(2, 8), ConstInt(3, 8)], 8, []),
              Instr(Add, [Ref(0), ConstInt(4, 8)], 8, []),
              Instr(Ret, [Ref(1)], 0, [])];
            var r := FoldScan(instrs, [0, 1, 2]);
            r.1 == [0, 1] && r.0[2].operands == [ConstInt(9, 8)]
  {
    var i0 := Instr(Add, [ConstInt(2, 8), ConstInt(3, 8)], 8, []);
    var i1 := Instr(Add, [Ref(0), ConstInt(4, 8)], 8, []);
    var i2 := Instr(Ret, [Ref(1)], 0, []);
    var instrs := [i0, i1, i2];
    var c5 := FoldedValue(i0);
    assert c5 == ConstInt(5, 8);
    var s1 := ReplaceAllUses(instrs, 0, c5);
    assert s1[1].operands == [c5, ConstInt(4, 8)];
    assert s1[2].operands == [Ref(1)];
    CascadeSecondFold(s1);
    assert [0, 1, 2][1..] == [1, 2];
    assert Foldable(instrs[0]);
    assert FoldScan(instrs, [0, 1, 2]) == (FoldScan(s1, [1, 2]).0, [0] + FoldScan(s1, [1, 2]).1);
  }

  /** The second step of the cascade: once the first sum is a constant, the
      second folds too, and the return then uses its value. */
  lemma {:induction false} CascadeSecondFold(s1: seq<Instr>)
    requires |s1| == 3
    requires s1[1] == Instr(Add, [ConstInt(5, 8), ConstInt(4, 8)], 8, [])
    requires s1[2] == Instr(Ret, [Ref(1)], 0, [])
    ensures FoldScan(s1, [1, 2]).1 == [1] && FoldScan(s1, [1, 2]).0[2].operands == [ConstInt(9, 8)]
  {
    var c9 := FoldedValue(s1[1]);
    assert c9 == ConstInt(9, 8);
    var s2 := ReplaceAllUses(s1, 1, c9);
    assert s2[2].operands == [c9];
    assert !Foldable(s2[2]);
    assert [1, 2][1..] == [2] && [2][1..] == [];
    assert FoldScan(s2, [2]) == (s2, []);
    assert Foldable(s1[1]);
    assert FoldScan(s1, [1, 2]) == (FoldScan(s2, [2]).0, [1] + FoldScan(s2, [2]).1);
  }

  /** The folding scan of one block, in program order, as the first part
      of a scan that goes on with `rest`. */
  method FoldBlock(f: Function, ids: seq<InstrId>, ghost rest: seq<InstrId>) returns (folded: seq<InstrId>)
    requires AllValid(f.instrs) && forall k :: 0 <= k < |ids| ==> ids[k] < |f.instrs|
    modifies f
    ensures f.blocks == old(f.blocks)
    ensures |f.instrs| == |old(f.instrs)| && AllValid(f.instrs)
    ensures FoldScan(f.instrs, rest).0 == FoldScan(old(f.instrs), ids + rest).0
    ensures folded + FoldScan(f.instrs, rest).1 == FoldScan(old(f.instrs), ids + rest).1
  {
    folded := [];
    ghost var all := FoldScan(f.instrs, ids + rest);
    assert ids[0..] == ids;
    for k := 0 to |ids|
      invariant f.blocks == old(f.blocks)
      invariant |f.instrs| == |old(f.instrs)| && AllValid(f.instrs)
      invariant FoldScan(f.instrs, ids[k..] + rest).0 == all.0
      invariant folded + FoldScan(f.instrs, ids[k..] + rest).1 == all.1
    {
      var x := ids[k];
      FoldScanStep(f.instrs, folded, ids[k..] + rest, all);
      assert (ids[k..] + rest)[0] == x && (ids[k..] + rest)[1..] == ids[k + 1..] + rest;
      var ins := f.instrs[x];
      if !(ins.op == Add || ins.op == Sub || ins.op == Mul) {
        continue;
      }
      var a := ins.operands[0];
      var b := ins.operands[1];
      if !a.ConstInt? || !b.ConstInt? {
        continue;
      }
      var c := FoldedValue(ins);
      f.instrs := ReplaceAllUses(f.instrs, x, c);
      folded := folded + [x];
    }
    assert ids[|ids|..] + rest == rest;
  }

  /** The scan phase of folding: every block in order, every instruction in
      program order, with uses redirected as soon as a fold is found.
      Returns the folded instructions, still in their blocks. */
  method FoldFunction(f: Function) returns (toDelete: seq<InstrId>)
    requires WellFormed(f.Snapshot())
    modifies f
    ensures f.blocks == old(f.blocks)
    ensures f.instrs == FoldScan(old(f.instrs), Flatten(old(f.blocks))).0
    ensures toDelete == FoldScan(old(f.instrs), Flatten(old(f.blocks))).1
  {
    toDelete := [];
    var blocks := f.blocks;
    ghost var all := FoldScan(f.instrs, Flatten(blocks));
    for bi := 0 to |blocks|
      invariant f.blocks == blocks
      invariant |f.instrs| == |old(f.instrs)| && AllValid(f.instrs)
      invariant FoldScan(f.instrs, Flatten(blocks[bi..])).0 == all.0
      invariant toDelete + FoldScan(f.instrs, Flatten(blocks[bi..])).1 == all.1
    {
      FlattenFrom(blocks, bi);
      ghost var after := Flatten(blocks[bi + 1..]);
      var folded := FoldBlock(f, blocks[bi], after);
      assert toDelete + (folded + FoldScan(f.instrs, after).1)
          == (toDelete + folded) + FoldScan(f.instrs, after).1;
      toDelete := toDelete + folded;
    }
    assert blocks[|blocks|..] == [];
  }

  /** The constant-folding pass: the scan, then the erasure of every folded
      instruction.  Reports whether anything was folded. */
  method ConstantFolding(f: Function) returns (changed: bool)
    requires WellFormed(f.Snapshot())
    modifies f
    ensures f.instrs == FoldScan(old(f.instrs), Flatten(old(f.blocks))).0
    ensures f.blocks == Erase(old(f.blocks), FoldScan(old(f.instrs), Flatten(old(f.blocks))).1)
    ensures changed <==> FoldScan(old(f.instrs), Flatten(old(f.blocks))).1 != []
    ensures WellFormed(f.Snapshot()) && |f.blocks| == old(|f.blocks|)
    ensures LiveCount(f.blocks) <= old(LiveCount(f.blocks))
    ensures changed ==> LiveCount(f.blocks) < old(LiveCount(f.blocks))
    ensures !changed ==> f.instrs == old(f.instrs) && f.blocks == old(f.blocks)
  {
    var blocks := f.blocks;
    var toDelete := FoldFunction(f);
    FoldScanNoChange(old(f.instrs), Flatten(blocks));
    FoldScanShape(old(f.instrs), Flatten(blocks));
    EraseAll(f, toDelete);
    EraseCount(blocks, toDelete);
    EraseInRange(blocks, toDelete, |f.instrs|);
    changed := toDelete != [];
    if changed {
      assert toDelete[0] in toDelete;
      assert toDelete[0] in Flatten(blocks);
    }
  }

  /** The body after the constant-folding pass: the scan's arena, with the
      folded instructions erased. */
  ghost function Folded(body: Body): Body {
    var r := FoldScan(body.instrs, Flatten(body.blocks));
    Body(r.0, Erase(body.blocks, r.1))
  }

  /** Folding keeps a body well formed and its block count, erases an
      instruction exactly when it folds one, and otherwise is the identity. */
  lemma {:induction false} FoldedFacts(body: Body)
    requires WellFormed(body)
    ensures WellFormed(Folded(body)) && |Folded(body).blocks| == |body.blocks|
    ensures LiveCount(Folded(body).blocks) <= LiveCount(body.blocks)
    ensures FoldScan(body.instrs, Flatten(body.blocks)).1 != [] ==>
              LiveCount(Folded(body).blocks) < LiveCount(body.blocks)
    ensures FoldScan(body.instrs, Flatten(body.blocks)).1 == [] ==> Folded(body) == body
  {
    var r := FoldScan(body.instrs, Flatten(body.blocks));
    FoldScanNoChange(body.instrs, Flatten(body.blocks));
    FoldScanShape(body.instrs, Flatten(body.blocks));
    EraseCount(body.blocks, r.1);
    EraseInRange(body.blocks, r.1, |body.instrs|);
    if r.1 == [] {
      EraseNone(body.blocks);
    } else {
      assert r.1[0] in r.1;
    }
  }

  // ---------------------------------------------------------------------------
  // Dead-code elimination

  /** Removable: nothing uses it and it has no side effect. */
  predicate IsDead(body: Body, x: InstrId) {
    x < |body.instrs| && !HasUses(body, x) && !IsSideEffect(body.instrs[x])
  }

  ghost function DeadIn(body: Body, ids: seq<InstrId>): seq<InstrId>
    decreases |ids|
  {
    if ids == [] then []
    else (if IsDead(body, ids[0]) then [ids[0]] else []) + DeadIn(body, ids[1..])
  }

  /** The scan collects exactly the dead instructions it visits. */
  lemma {:induction false} DeadInMembers(body: Body, ids: seq<InstrId>)
    ensures forall x :: x in DeadIn(body, ids) <==> x in ids && IsDead(body, x)
    decreases |ids|
  {
    if ids != [] {
      DeadInMembers(body, ids[1..]);
      assert forall x :: x in ids <==> x == ids[0] || x in ids[1..];
    }
  }

  /** One step of the scan: the first visited id is collected when it is dead. */
  lemma {:induction false} DeadInStep(body: Body, done: seq<InstrId>, ids: seq<InstrId>, all: seq<InstrId>)
    requires ids != [] && done + DeadIn(body, ids) == all
    ensures (if IsDead(body, ids[0]) then done + [ids[0]] else done) + DeadIn(body, ids[1..]) == all
  {
    var d := if IsDead(body, ids[0]) then [ids[0]] else [];
    assert DeadIn(body, ids) == d + DeadIn(body, ids[1..]);
    assert done + (d + DeadIn(body, ids[1..])) == (done + d) + DeadIn(body, ids[1..]);
  }

  /** What one scan of the whole function collects. */
  ghost function DeadScan(body: Body): seq<InstrId> {
    DeadIn(body, Flatten(body.blocks))
  }

  /** Scan, erase what the scan found, and repeat until a scan finds nothing. */
  ghost function DceFix(body: Body): (r: Body)
    ensures r.instrs == body.instrs && |r.blocks| == |body.blocks|
    ensures forall x :: x in Flatten(r.blocks) ==> x in Flatten(body.blocks)
    ensures LiveCount(r.blocks) <= LiveCount(body.blocks)
    ensures InRange(body.blocks, |body.instrs|) ==> InRange(r.blocks, |r.instrs|)
    decreases LiveCount(body.blocks)
  {
    var dead := DeadScan(body);
    if dead == [] then body
    else
      DeadInMembers(body, Flatten(body.blocks));
      assert dead[0] in dead;
      EraseCount(body.blocks, dead);
      if InRange(body.blocks, |body.instrs|) then
        EraseInRange(body.blocks, dead, |body.instrs|);
        DceFix(Body(body.instrs, Erase(body.blocks, dead)))
      else
        DceFix(Body(body.instrs, Erase(body.blocks, dead)))
  }

  /** At the end of DCE every remaining instruction is used or side-effecting,
      so a second scan finds nothing. */
  lemma {:induction false} DceFixNoDead(body: Body)
    ensures DeadScan(DceFix(body)) == []
    ensures forall x :: x in Flatten(DceFix(body).blocks) && x < |body.instrs| ==>
              HasUses(DceFix(body), x) || IsSideEffect(body.instrs[x])
    decreases LiveCount(body.blocks)
  {
    var dead := DeadScan(body);
    DeadInMembers(body, Flatten(body.blocks));
    if dead != [] {
      assert dead[0] in dead;
      EraseCount(body.blocks, dead);
      DceFixNoDead(Body(body.instrs, Erase(body.blocks, dead)));
    } else {
      forall x | x in Flatten(body.blocks) && x < |body.instrs|
        ensures HasUses(body, x) || IsSideEffect(body.instrs[x])
      {
        assert x !in dead;
      }
    }
  }

  /** DCE keeps a body well formed, erases an instruction exactly when the
      first scan finds one, and otherwise is the identity. */
  lemma {:induction false} DceFixFacts(body: Body)
    requires WellFormed(body)
    ensures WellFormed(DceFix(body))
    ensures DeadScan(body) != [] ==> LiveCount(DceFix(body).blocks) < LiveCount(body.blocks)
    ensures DeadScan(body) == [] ==> DceFix(body) == body
  {
    var dead := DeadScan(body);
    if dead != [] {
      DeadInMembers(body, Flatten(body.blocks));
      assert dead[0] in dead;
      EraseCount(body.blocks, dead);
      assert DceFix(body) == DceFix(Body(body.instrs, Erase(body.blocks, dead)));
    }
  }

  /** Running DCE on its own result changes nothing. */
  lemma {:induction false} DceFixIdempotent(body: Body)
    ensures DceFix(DceFix(body)) == DceFix(body)
  {
    DceFixNoDead(body);
  }

  /** Stores, calls, allocas and terminators are never removed. */
  lemma {:induction false} DceFixKeepsSideEffects(body: Body, x: InstrId)
    requires x in Flatten(body.blocks) && x < |body.instrs| && IsSideEffect(body.instrs[x])
    ensures x in Flatten(DceFix(body).blocks)
    decreases LiveCount(body.blocks)
  {
    var dead := DeadScan(body);
    DeadInMembers(body, Flatten(body.blocks));
    if dead != [] {
      assert dead[0] in dead;
      EraseCount(body.blocks, dead);
      DceFixKeepsSideEffects(Body(body.instrs, Erase(body.blocks, dead)), x);
    }
  }

  /** A load whose result nobody uses is removed, while the alloca it reads
      stays although nothing uses it any more. */
  lemma {:induction false} DceRemovesUnusedLoad()
    ensures var body := Body([Instr(Alloca, [], 64, []), Instr(Load, [Ref(0)], 8, []), Instr(Ret, [], 0, [])],
                             [[0, 1, 2]]);
            DceFix(body).blocks == [[0, 2]]
  {
    var instrs := [Instr(Alloca, [], 64, []), Instr(Load, [Ref(0)], 8, []), Instr(Ret, [], 0, [])];
    var body := Body(instrs, [[0, 1, 2]]);
    FirstScanFindsLoad(instrs);
    var next := Body(instrs, Erase(body.blocks, [1]));
    assert next.blocks == [[0, 2]] by {
      assert Without([0, 1, 2], [1]) == [0, 2] by {
        assert [0, 1, 2][1..] == [1, 2] && [1, 2][1..] == [2] && [2][1..] == [];
      }
    }
    SecondScanFindsNothing(instrs);
    assert DceFix(next) == next;
    assert DceFix(body) == DceFix(Body(instrs, Erase(body.blocks, DeadScan(body))));
  }

  lemma {:induction false} FirstScanFindsLoad(instrs: seq<Instr>)
    requires instrs == [Instr(Alloca, [], 64, []), Instr(Load, [Ref(0)], 8, []), Instr(Ret, [], 0, [])]
    ensures DeadScan(Body(instrs, [[0, 1, 2]])) == [1]
  {
    var body := Body(instrs, [[0, 1, 2]]);
    assert Flatten(body.blocks) == [0, 1, 2] by {
      assert body.blocks[1..] == [];
    }
    assert HasUses(body, 0) by {
      assert 1 in Flatten(body.blocks) && Uses(instrs[1], 0);
    }
    assert !HasUses(body, 1) by {
      forall y | y in Flatten(body.blocks) && y < |instrs| ensures !Uses(instrs[y], 1) {
      }
    }
    assert [0, 1, 2][1..] == [1, 2] && [1, 2][1..] == [2] && [2][1..] == [];
  }

  lemma {:induction false} SecondScanFindsNothing(instrs: seq<Instr>)
    requires instrs == [Instr(Alloca, [], 64, []), Instr(Load, [Ref(0)], 8, []), Instr(Ret, [], 0, [])]
    ensures DeadScan(Body(instrs, [[0, 2]])) == []
  {
    var next := Body(instrs, [[0, 2]]);
    assert Flatten(next.blocks) == [0, 2] by {
      assert next.blocks[1..] == [];
    }
    assert !IsDead(next, 0) && !IsDead(next, 2);
    assert [0, 2][1..] == [2];
  }

  /** One scan of the whole function, in block and program order, for
      instructions that nothing uses and that have no side effect. */
  method CollectDead(body: Body) returns (toDelete: seq<InstrId>)
    requires WellFormed(body)
    ensures toDelete == DeadScan(body)
    ensures forall x :: x in toDelete <==> x in Flatten(body.blocks) && IsDead(body, x)
  {
    toDelete := [];
    var blocks := body.blocks;
    for bi := 0 to |blocks|
      invariant toDelete + DeadIn(body, Flatten(blocks[bi..])) == DeadScan(body)
    {
      FlattenFrom(blocks, bi);
      ghost var after := Flatten(blocks[bi + 1..]);
      for k := 0 to |blocks[bi]|
        invariant toDelete + DeadIn(body, blocks[bi][k..] + after) == DeadScan(body)
      {
        var x := blocks[bi][k];
        ghost var rest := blocks[bi][k..] + after;
        assert rest[0] == x && rest[1..] == blocks[bi][k + 1..] + after;
        DeadInStep(body, toDelete, rest, DeadScan(body));
        if HasUses(body, x) {
          continue;
        }
        if IsSideEffect(body.instrs[x]) {
          continue;
        }
        toDelete := toDelete + [x];
      }
      assert blocks[bi][|blocks[bi]|..] + after == after;
    }
    assert blocks[|blocks|..] == [];
    DeadInMembers(body, Flatten(blocks));
  }

  /** The dead-code-elimination pass: repeats a scan of the whole function for
      unused instructions without side effects and erases them, until a scan
      finds nothing.  Reports whether anything was erased. */
  method DeadCodeElimination(f: Function) returns (changed: bool)
    requires WellFormed(f.Snapshot())
    modifies f
    ensures f.Snapshot() == DceFix(old(f.Snapshot()))
    ensures changed <==> DeadScan(old(f.Snapshot())) != []
    ensures WellFormed(f.Snapshot()) && |f.blocks| == old(|f.blocks|)
    ensures LiveCount(f.blocks) <= old(LiveCount(f.blocks))
    ensures changed ==> LiveCount(f.blocks) < old(LiveCount(f.blocks))
    ensures !changed ==> f.instrs == old(f.instrs) && f.blocks == old(f.blocks)
  {
    changed := false;
    while true
      invariant WellFormed(f.Snapshot()) && f.instrs == old(f.instrs) && |f.blocks| == old(|f.blocks|)
      invariant DceFix(f.Snapshot()) == DceFix(old(f.Snapshot()))
      invariant !changed ==> f.blocks == old(f.blocks)
      invariant changed ==> DeadScan(old(f.Snapshot())) != [] && LiveCount(f.blocks) < old(LiveCount(f.blocks))
      decreases LiveCount(f.blocks)
    {
      var blocks := f.blocks;
      var toDelete := CollectDead(f.Snapshot());
      if toDelete == [] {
        break;
      }
      assert toDelete[0] in toDelete;
      EraseAll(f, toDelete);
      EraseCount(blocks, toDelete);
      EraseInRange(blocks, toDelete, |f.instrs|);
      changed := true;
    }
  }

  /** Folding, then dead-code elimination; reports whether either changed anything. */
  method RunLocalOptimizations(f: Function) returns (changed: bool)
    requires WellFormed(f.Snapshot())
    modifies f
    ensures WellFormed(f.Snapshot())
    ensures var folded := FoldScan(old(f.instrs), Flatten(old(f.blocks)));
            f.Snapshot() == DceFix(Body(folded.0, Erase(old(f.blocks), folded.1))) &&
            (changed <==> folded.1 != [] || DeadScan(Body(folded.0, Erase(old(f.blocks), folded.1))) != [])
  {
    changed := false;
    var c1 := ConstantFolding(f);
    changed := changed || c1;
    var c2 := DeadCodeElimination(f);
    changed := changed || c2;
  }
}
