/** The control-flow-graph IR that the optimization passes rewrite in place.

    Instructions live in an arena and are named by their index there.  A
    function body is a sequence of basic blocks, each a sequence of arena
    indices in program order.  Replacing all uses of an instruction is operand
    substitution over the arena; erasing an instruction removes its index from
    the block that holds it. */
module IR {

  type InstrId = nat

  /** `OtherTerminator` stands for the remaining block terminators (switch,
      indirect branch, invoke, unreachable and the like), with their successor
      blocks in `targets`; `Other` is any remaining non-terminator. */
  datatype Opcode = Store | Load | Add | Sub | Mul | Call | Alloca | Br | Ret | OtherTerminator | Other

  /** An operand: the result of another instruction, an integer literal (its
      sign-extended value and its bit width), or any other value such as a
      function argument or a global. */
  datatype Operand =
    | Ref(id: InstrId)
    | ConstInt(value: int, width: nat)
    | Value(name: string)

  /** `width` is the bit width of the result type; `targets` are the
      successor block indices of a branch. */
  datatype Instr = Instr(op: Opcode, operands: seq<Operand>, width: nat, targets: seq<nat>)

  datatype Body = Body(instrs: seq<Instr>, blocks: seq<seq<InstrId>>)

  predicate IsTerminator(op: Opcode) {
    op == Br || op == Ret || op == OtherTerminator
  }

  /** Operand arity that the accessors of the passes rely on. */
  predicate ValidInstr(ins: Instr) {
    match ins.op
    case Store => |ins.operands| >= 2
    case Load => |ins.operands| >= 1
    case Add => |ins.operands| >= 2
    case Sub => |ins.operands| >= 2
    case Mul => |ins.operands| >= 2
    case _ => true
  }

  predicate AllValid(instrs: seq<Instr>) {
    forall x :: 0 <= x < |instrs| ==> ValidInstr(instrs[x])
  }

  predicate InRange(blocks: seq<seq<InstrId>>, n: nat) {
    forall b, k :: 0 <= b < |blocks| && 0 <= k < |blocks[b]| ==> blocks[b][k] < n
  }

  /** What a verifier-clean function body guarantees the passes. */
  predicate WellFormed(body: Body) {
    AllValid(body.instrs) && InRange(body.blocks, |body.instrs|)
  }

  /** The instructions in block order, then program order within a block. */
  function Flatten(blocks: seq<seq<InstrId>>): seq<InstrId> {
    if blocks == [] then [] else blocks[0] + Flatten(blocks[1..])
  }

  function LiveCount(blocks: seq<seq<InstrId>>): nat {
    |Flatten(blocks)|
  }

  /** Instruction `ins` uses the result of instruction `x`. */
  predicate Uses(ins: Instr, x: InstrId) {
    Ref(x) in ins.operands
  }

  /** The use-list of `x` is non-empty: some instruction still in the body uses it. */
  predicate HasUses(body: Body, x: InstrId) {
    exists y :: y in Flatten(body.blocks) && y < |body.instrs| && Uses(body.instrs[y], x)
  }

  // ---------------------------------------------------------------------------
  // Replacing all uses

  function SubstOperands(ops: seq<Operand>, x: InstrId, c: Operand): (r: seq<Operand>)
    ensures |r| == |ops|
    ensures forall j :: 0 <= j < |ops| ==> r[j] == if ops[j] == Ref(x) then c else ops[j]
  {
    seq(|ops|, j requires 0 <= j < |ops| => if ops[j] == Ref(x) then c else ops[j])
  }

  /** Every operand `Ref(x)` anywhere in the arena becomes `c`; nothing else
      about any instruction changes. */
  function ReplaceAllUses(instrs: seq<Instr>, x: InstrId, c: Operand): (r: seq<Instr>)
    ensures |r| == |instrs|
    ensures forall k :: 0 <= k < |instrs| ==>
              r[k].op == instrs[k].op && r[k].width == instrs[k].width &&
              r[k].targets == instrs[k].targets &&
              r[k].operands == SubstOperands(instrs[k].operands, x, c)
    ensures AllValid(instrs) ==> AllValid(r)
  {
    seq(|instrs|, k requires 0 <= k < |instrs| =>
      instrs[k].(operands := SubstOperands(instrs[k].operands, x, c)))
  }

  /** After replacing the uses of `x` by a non-reference, nothing uses `x`,
      and no instruction uses anything it did not use before. */
  lemma {:induction false} ReplaceAllUsesRemoves(instrs: seq<Instr>, x: InstrId, c: Operand, k: nat, y: InstrId)
    requires !c.Ref? && k < |instrs|
    ensures !Uses(ReplaceAllUses(instrs, x, c)[k], x)
    ensures Uses(ReplaceAllUses(instrs, x, c)[k], y) ==> Uses(instrs[k], y)
  {
    var ops := ReplaceAllUses(instrs, x, c)[k].operands;
    if Ref(y) in ops {
      var j :| 0 <= j < |ops| && ops[j] == Ref(y);
      assert instrs[k].operands[j] == Ref(y);
    }
  }

  // ---------------------------------------------------------------------------
  // Erasing instructions

  /** The ids of `ids` not listed in `dead`, in their original order. */
  function Without(ids: seq<InstrId>, dead: seq<InstrId>): (r: seq<InstrId>)
    ensures forall x :: x in r <==> x in ids && x !in dead
    ensures |r| <= |ids|
    ensures (exists x :: x in ids && x in dead) ==> |r| < |ids|
  {
    if ids == [] then []
    else
      assert forall x :: x in ids <==> x == ids[0] || x in ids[1..];
      (if ids[0] in dead then [] else [ids[0]]) + Without(ids[1..], dead)
  }

  /** Erases every instruction of `dead` from the block that holds it. */
  function Erase(blocks: seq<seq<InstrId>>, dead: seq<InstrId>): (r: seq<seq<InstrId>>)
    ensures |r| == |blocks|
    ensures forall b :: 0 <= b < |blocks| ==> r[b] == Without(blocks[b], dead)
  {
    seq(|blocks|, b requires 0 <= b < |blocks| => Without(blocks[b], dead))
  }

  lemma {:induction false} WithoutWithout(ids: seq<InstrId>, dead: seq<InstrId>, x: InstrId)
    ensures Without(Without(ids, dead), [x]) == Without(ids, dead + [x])
    decreases |ids|
  {
    if ids != [] {
      WithoutWithout(ids[1..], dead, x);
      var tail := Without(ids[1..], dead);
      if ids[0] in dead {
        assert Without(ids, dead) == tail;
      } else {
        assert Without(ids, dead) == [ids[0]] + tail;
        assert ([ids[0]] + tail)[1..] == tail;
      }
    }
  }

  lemma {:induction false} FlattenErase(blocks: seq<seq<InstrId>>, dead: seq<InstrId>)
    ensures Flatten(Erase(blocks, dead)) == Without(Flatten(blocks), dead)
    decreases |blocks|
  {
    if blocks != [] {
      FlattenErase(blocks[1..], dead);
      assert Erase(blocks, dead)[1..] == Erase(blocks[1..], dead);
      WithoutAppend(blocks[0], Flatten(blocks[1..]), dead);
    }
  }

  /** The head and tail of a concatenation with a non-empty front. */
  lemma {:induction false} AppendTail<T>(a: seq<T>, b: seq<T>)
    requires a != []
    ensures (a + b)[0] == a[0] && (a + b)[1..] == a[1..] + b
  {
  }

  lemma {:induction false} WithoutAppend(a: seq<InstrId>, b: seq<InstrId>, dead: seq<InstrId>)
    ensures Without(a + b, dead) == Without(a, dead) + Without(b, dead)
    decreases |a|
  {
    if a != [] {
      var head := if a[0] in dead then [] else [a[0]];
      AppendTail(a, b);
      assert Without(a + b, dead) == head + Without(a[1..] + b, dead);
      WithoutAppend(a[1..], b, dead);
      assert Without(a, dead) == head + Without(a[1..], dead);
      assert head + (Without(a[1..], dead) + Without(b, dead)) == (head + Without(a[1..], dead)) + Without(b, dead);
    } else {
      assert a + b == b;
    }
  }

  /** Erasing instructions never adds any, and erasing one that is present
      strictly lowers the instruction count. */
  lemma {:induction false} EraseCount(blocks: seq<seq<InstrId>>, dead: seq<InstrId>)
    ensures LiveCount(Erase(blocks, dead)) <= LiveCount(blocks)
    ensures (exists x :: x in Flatten(blocks) && x in dead) ==> LiveCount(Erase(blocks, dead)) < LiveCount(blocks)
    ensures forall x :: x in Flatten(Erase(blocks, dead)) <==> x in Flatten(blocks) && x !in dead
  {
    FlattenErase(blocks, dead);
  }

  /** Replacing one block changes the instruction count by the difference
      of the two block lengths. */
  lemma {:induction false} LiveCountUpdate(blocks: seq<seq<InstrId>>, i: nat, v: seq<InstrId>)
    requires i < |blocks|
    ensures LiveCount(blocks[i := v]) + |blocks[i]| == LiveCount(blocks) + |v|
    decreases i
  {
    if i == 0 {
      assert blocks[i := v][1..] == blocks[1..];
    } else {
      LiveCountUpdate(blocks[1..], i - 1, v);
      assert blocks[i := v][1..] == blocks[1..][i - 1 := v];
    }
  }

  /** Erasing from one block keeps every index inside the arena. */
  lemma {:induction false} EraseOneBlockInRange(blocks: seq<seq<InstrId>>, i: nat, dead: seq<InstrId>, n: nat)
    requires InRange(blocks, n) && i < |blocks|
    ensures InRange(blocks[i := Without(blocks[i], dead)], n)
  {
    var r := blocks[i := Without(blocks[i], dead)];
    forall b, k | 0 <= b < |r| && 0 <= k < |r[b]| ensures r[b][k] < n {
      if b == i {
        assert r[b][k] in Without(blocks[i], dead);
        var j :| 0 <= j < |blocks[i]| && blocks[i][j] == r[b][k];
      }
    }
  }

  /** Erasing keeps every remaining index inside the arena. */
  lemma {:induction false} EraseInRange(blocks: seq<seq<InstrId>>, dead: seq<InstrId>, n: nat)
    requires InRange(blocks, n)
    ensures InRange(Erase(blocks, dead), n)
  {
    var r := Erase(blocks, dead);
    forall b, k | 0 <= b < |r| && 0 <= k < |r[b]| ensures r[b][k] < n {
      assert r[b][k] in Without(blocks[b], dead);
      var j :| 0 <= j < |blocks[b]| && blocks[b][j] == r[b][k];
    }
  }

  lemma {:induction false} FlattenMember(blocks: seq<seq<InstrId>>, b: nat, k: nat)
    requires b < |blocks| && k < |blocks[b]|
    ensures blocks[b][k] in Flatten(blocks)
    decreases b
  {
    if b > 0 {
      FlattenMember(blocks[1..], b - 1, k);
    }
  }

  lemma {:induction false} FlattenInRange(blocks: seq<seq<InstrId>>, n: nat)
    requires InRange(blocks, n)
    ensures forall x :: x in Flatten(blocks) ==> x < n
    decreases |blocks|
  {
    if blocks != [] {
      FlattenInRange(blocks[1..], n);
    }
  }

  /** Flattening the blocks from `i` on peels off block `i`. */
  lemma {:induction false} FlattenFrom(blocks: seq<seq<InstrId>>, i: nat)
    requires i < |blocks|
    ensures Flatten(blocks[i..]) == blocks[i] + Flatten(blocks[i + 1..])
  {
    assert blocks[i..][1..] == blocks[i + 1..];
  }

  // ---------------------------------------------------------------------------
  // Two's-complement integer constants

  function Pow2(w: nat): (r: int)
    ensures r >= 1
  {
    if w == 0 then 1 else 2 * Pow2(w - 1)
  }

  /** The signed value of the `w`-bit two's-complement pattern of `x`. */
  function Wrap(x: int, w: nat): (r: int)
    ensures w > 0 ==> -Pow2(w - 1) <= r < Pow2(w - 1)
    ensures w == 0 ==> r == 0
    ensures r % Pow2(w) == x % Pow2(w)
  {
    var m := Pow2(w);
    var u := x % m;
    ModFacts(x, u, m);
    if w > 0 && u >= Pow2(w - 1) then u - m else u
  }

  lemma {:induction false} ModFacts(x: int, u: int, m: int)
    requires m >= 1 && u == x % m
    ensures 0 <= u < m && u % m == u && (u - m) % m == u
  {
  }

  // ---------------------------------------------------------------------------
  // The mutable function

  /** One function of the module; the passes rewrite its fields in place. */
  class Function {
    var instrs: seq<Instr>
    var blocks: seq<seq<InstrId>>

    constructor (instrs: seq<Instr>, blocks: seq<seq<InstrId>>)
      ensures this.instrs == instrs && this.blocks == blocks
    {
      this.instrs := instrs;
      this.blocks := blocks;
    }

    function Snapshot(): Body
      reads this
    {
      Body(instrs, blocks)
    }
  }

  /** Erases the collected instructions one after the other, after the scan
      that chose them. */
  method EraseAll(f: Function, toDelete: seq<InstrId>)
    modifies f
    ensures f.instrs == old(f.instrs)
    ensures f.blocks == Erase(old(f.blocks), toDelete)
    ensures toDelete == [] ==> f.blocks == old(f.blocks)
  {
    ghost var start := f.blocks;
    EraseNone(start);
    assert toDelete[..0] == [];
    for k := 0 to |toDelete|
      invariant f.instrs == old(f.instrs)
      invariant f.blocks == Erase(start, toDelete[..k])
    {
      EraseStep(start, toDelete, k);
      f.blocks := Erase(f.blocks, [toDelete[k]]);
    }
    assert toDelete[..|toDelete|] == toDelete;
  }

  /** Erasing one more id after a prefix of `dead` erases the next prefix. */
  lemma {:induction false} EraseStep(blocks: seq<seq<InstrId>>, dead: seq<InstrId>, k: nat)
    requires k < |dead|
    ensures Erase(Erase(blocks, dead[..k]), [dead[k]]) == Erase(blocks, dead[..k + 1])
  {
    assert dead[..k] + [dead[k]] == dead[..k + 1];
    forall b | 0 <= b < |blocks|
      ensures Without(Without(blocks[b], dead[..k]), [dead[k]]) == Without(blocks[b], dead[..k + 1])
    {
      WithoutWithout(blocks[b], dead[..k], dead[k]);
    }
  }

  /** Erasing nothing leaves every block as it was. */
  lemma {:induction false} EraseNone(blocks: seq<seq<InstrId>>)
    ensures Erase(blocks, []) == blocks
  {
    forall b | 0 <= b < |blocks| ensures Erase(blocks, [])[b] == blocks[b] {
      WithoutNone(blocks[b]);
    }
  }

  lemma {:induction false} WithoutNone(ids: seq<InstrId>)
    ensures Without(ids, []) == ids
    decreases |ids|
  {
    if ids != [] {
      WithoutNone(ids[1..]);
    }
  }
}
