/** Global constant propagation by reaching stores.

    A store writes operand 0 to the address in operand 1; a load reads the
    address in operand 0.  Sets of stores are sets of arena ids.  Per block,
    GEN, KILL, IN and OUT are computed, IN/OUT by chaotic iteration; then each
    block is rescanned with a running reaching set, and a load is replaced by
    a constant when every store to its address that reaches it writes the
    same integer constant. */
module GlobalOptimizations {
  import opened IR

  datatype Option<T> = None | Some(value: T)

  // ---------------------------------------------------------------------------
  // Accessors

  predicate IsStoreAt(instrs: seq<Instr>, x: InstrId) {
    x < |instrs| && instrs[x].op == Store && |instrs[x].operands| >= 2
  }

  predicate IsLoadAt(instrs: seq<Instr>, x: InstrId) {
    x < |instrs| && instrs[x].op == Load && |instrs[x].operands| >= 1
  }

  /** The address a store writes. */
  function StorePointer(instrs: seq<Instr>, s: InstrId): Operand
    requires IsStoreAt(instrs, s)
  {
    instrs[s].operands[1]
  }

  /** The value a store writes. */
  function StoreValue(instrs: seq<Instr>, s: InstrId): Operand
    requires IsStoreAt(instrs, s)
  {
    instrs[s].operands[0]
  }

  /** The address a load reads. */
  function LoadPointer(instrs: seq<Instr>, x: InstrId): Operand
    requires IsLoadAt(instrs, x)
  {
    instrs[x].operands[0]
  }

  /** `s` is a store to address `p`. */
  predicate StoresTo(instrs: seq<Instr>, s: InstrId, p: Operand) {
    IsStoreAt(instrs, s) && StorePointer(instrs, s) == p
  }

  /** `s` is a store of the integer constant whose sign-extended value is `v`. */
  predicate StoresConstant(instrs: seq<Instr>, s: InstrId, v: int) {
    IsStoreAt(instrs, s) && StoreValue(instrs, s).ConstInt? && StoreValue(instrs, s).value == v
  }

  // ---------------------------------------------------------------------------
  // Set helpers

  /** `S` without its stores to `p`. */
  ghost function KillPointer(instrs: seq<Instr>, S: set<InstrId>, p: Operand): set<InstrId> {
    set s | s in S && !StoresTo(instrs, s, p)
  }

  /** Erases from `S` every store to `p`, visiting the elements one by one. */
  method RemoveStoresToPointer(instrs: seq<Instr>, S: set<InstrId>, p: Operand) returns (r: set<InstrId>)
    ensures forall s :: s in r ==> s in S && !StoresTo(instrs, s, p)
    ensures forall s :: s in S && !StoresTo(instrs, s, p) ==> s in r
    ensures r == KillPointer(instrs, S, p)
  {
    r := S;
    var todo := S;
    while todo != {}
      invariant todo <= S
      invariant forall s :: s in r <==> s in S && (s in todo || !StoresTo(instrs, s, p))
      decreases |todo|
    {
      var s :| s in todo;
      if StoresTo(instrs, s, p) {
        r := r - {s};
      }
      todo := todo - {s};
    }
  }

  function SetUnion(a: set<InstrId>, b: set<InstrId>): (r: set<InstrId>)
    ensures a <= r && b <= r
    ensures forall x :: x in r ==> x in a || x in b
  {
    a + b
  }

  /** The elements of `a` not in `b`, collected one by one. */
  method SetDifference(a: set<InstrId>, b: set<InstrId>) returns (r: set<InstrId>)
    ensures r <= a
    ensures forall x :: x in a ==> (x in r <==> x !in b)
  {
    r := {};
    var todo := a;
    while todo != {}
      invariant todo <= a
      invariant forall x :: x in r <==> x in a && x !in todo && x !in b
      decreases |todo|
    {
      var x :| x in todo;
      if x !in b {
        r := r + {x};
      }
      todo := todo - {x};
    }
  }

  /** A subset of equal size is the whole set. */
  lemma {:induction false} SubsetCard(a: set<InstrId>, b: set<InstrId>)
    requires a <= b
    ensures |a| <= |b|
    ensures a != b ==> |a| < |b|
  {
    assert b == a + (b - a);
    assert a * (b - a) == {};
    if a != b {
      var x :| x in b && x !in a;
      assert x in b - a;
    }
  }

  /** Two sets are equal exactly when they have the same size and one
      contains the other; the pairwise walk of the two ordered sets compares
      exactly that. */
  function SetsEqual(a: set<InstrId>, b: set<InstrId>): (r: bool)
    ensures r <==> a == b
  {
    if a <= b then
      SubsetCard(a, b);
      |a| == |b|
    else false
  }

  // ---------------------------------------------------------------------------
  // All stores of the function

  /** The stores among `ids`. */
  ghost function StoresIn(instrs: seq<Instr>, ids: seq<InstrId>): set<InstrId> {
    set x | x in ids && IsStoreAt(instrs, x)
  }

  lemma {:induction false} StoresInCons(instrs: seq<Instr>, ids: seq<InstrId>)
    requires ids != []
    ensures StoresIn(instrs, ids) ==
            (if IsStoreAt(instrs, ids[0]) then {ids[0]} else {}) + StoresIn(instrs, ids[1..])
  {
    assert forall x :: x in ids <==> x == ids[0] || x in ids[1..];
  }

  /** Every store instruction of the function, block by block. */
  method CollectStores(body: Body) returns (allStores: set<InstrId>)
    requires WellFormed(body)
    ensures allStores == StoresIn(body.instrs, Flatten(body.blocks))
    ensures forall s :: s in allStores <==> s in Flatten(body.blocks) && IsStoreAt(body.instrs, s)
  {
    allStores := {};
    var blocks := body.blocks;
    for bi := 0 to |blocks|
      invariant allStores + StoresIn(body.instrs, Flatten(blocks[bi..])) == StoresIn(body.instrs, Flatten(blocks))
    {
      FlattenFrom(blocks, bi);
      ghost var after := Flatten(blocks[bi + 1..]);
      for k := 0 to |blocks[bi]|
        invariant allStores + StoresIn(body.instrs, blocks[bi][k..] + after) == StoresIn(body.instrs, Flatten(blocks))
      {
        var x := blocks[bi][k];
        ghost var rest := blocks[bi][k..] + after;
        assert rest[0] == x && rest[1..] == blocks[bi][k + 1..] + after;
        StoresInCons(body.instrs, rest);
        if body.instrs[x].op == Store {
          allStores := allStores + {x};
        }
      }
      assert blocks[bi][|blocks[bi]|..] + after == after;
    }
    assert blocks[|blocks|..] == [];
  }

  // ---------------------------------------------------------------------------
  // Predecessors

  /** The successors of block `b`: the targets of its terminator, or none
      when the block does not end in one. */
  function Succs(body: Body, b: nat): seq<nat>
    requires WellFormed(body) && b < |body.blocks|
  {
    var blk := body.blocks[b];
    if blk == [] then []
    else
      var t := blk[|blk| - 1];
      if IsTerminator(body.instrs[t].op) then body.instrs[t].targets else []
  }

  function SuccLists(body: Body): (r: seq<seq<nat>>)
    requires WellFormed(body)
    ensures |r| == |body.blocks|
    ensures forall b :: 0 <= b < |r| ==> r[b] == Succs(body, b)
  {
    seq(|body.blocks|, b requires 0 <= b < |body.blocks| => Succs(body, b))
  }

  /** How often `s` occurs in `xs`. */
  function Count(xs: seq<nat>, s: nat): nat {
    if xs == [] then 0 else Count(xs[..|xs| - 1], s) + (if xs[|xs| - 1] == s then 1 else 0)
  }

  function Repeat(b: nat, c: nat): (r: seq<nat>)
    ensures |r| == c && forall i :: 0 <= i < c ==> r[i] == b
  {
    seq(c, _ => b)
  }

  /** The predecessor list of `s`: each block in order, repeated once per
      successor slot of its terminator that names `s`. */
  ghost function PredList(succs: seq<seq<nat>>, s: nat): seq<nat> {
    if succs == [] then []
    else PredList(succs[..|succs| - 1], s) + Repeat(|succs| - 1, Count(succs[|succs| - 1], s))
  }

  /** The list for `b` in `preds`; a block without an entry has none. */
  function PredsAt(preds: map<nat, seq<nat>>, b: nat): seq<nat> {
    if b in preds then preds[b] else []
  }

  lemma {:induction false} PredListSnoc(succs: seq<seq<nat>>, b: nat, s: nat)
    requires b < |succs|
    ensures PredList(succs[..b + 1], s) == PredList(succs[..b], s) + Repeat(b, Count(succs[b], s))
  {
    assert succs[..b + 1][..b] == succs[..b];
  }

  lemma {:induction false} CountSnoc(xs: seq<nat>, i: nat, s: nat)
    requires i < |xs|
    ensures Count(xs[..i + 1], s) == Count(xs[..i], s) + (if xs[i] == s then 1 else 0)
  {
    assert xs[..i + 1][..i] == xs[..i];
  }

  lemma {:induction false} RepeatSnoc(b: nat, c: nat)
    ensures Repeat(b, c) + [b] == Repeat(b, c + 1)
  {
    assert forall i :: 0 <= i < c + 1 ==> (Repeat(b, c) + [b])[i] == b;
  }

  /** `preds` lists the predecessors among the blocks before `b`. */
  ghost predicate PredsUpTo(preds: map<nat, seq<nat>>, succs: seq<seq<nat>>, b: nat)
    requires b <= |succs|
  {
    forall s :: PredsAt(preds, s) == PredList(succs[..b], s)
  }

  /** A block whose terminator names no successor adds no predecessor. */
  lemma {:induction false} PredListNoEdges(preds: map<nat, seq<nat>>, succs: seq<seq<nat>>, b: nat)
    requires b < |succs| && succs[b] == [] && PredsUpTo(preds, succs, b)
    ensures PredsUpTo(preds, succs, b + 1)
  {
    forall s ensures PredsAt(preds, s) == PredList(succs[..b + 1], s) {
      PredListSnoc(succs, b, s);
      assert Repeat(b, 0) == [];
    }
  }

  /** Adding a block's edges extends the lists by that block. */
  lemma {:induction false} PredListEdges(preds: map<nat, seq<nat>>, preds': map<nat, seq<nat>>, succs: seq<seq<nat>>, b: nat)
    requires b < |succs| && PredsUpTo(preds, succs, b)
    requires forall s :: PredsAt(preds', s) == PredsAt(preds, s) + Repeat(b, Count(succs[b], s))
    ensures PredsUpTo(preds', succs, b + 1)
  {
    forall s ensures PredsAt(preds', s) == PredList(succs[..b + 1], s) {
      PredListSnoc(succs, b, s);
    }
  }

  /** Appends `b` to the list of each target, once per slot. */
  method AddEdges(preds: map<nat, seq<nat>>, b: nat, targets: seq<nat>) returns (r: map<nat, seq<nat>>)
    ensures forall c :: c in preds ==> c in r
    ensures forall s :: PredsAt(r, s) == PredsAt(preds, s) + Repeat(b, Count(targets, s))
  {
    r := preds;
    for i := 0 to |targets|
      invariant forall c :: c in preds ==> c in r
      invariant forall s :: PredsAt(r, s) == PredsAt(preds, s) + Repeat(b, Count(targets[..i], s))
    {
      var s := targets[i];
      var current := PredsAt(r, s);
      r := r[s := current + [b]];
      forall t ensures PredsAt(r, t) == PredsAt(preds, t) + Repeat(b, Count(targets[..i + 1], t)) {
        CountSnoc(targets, i, t);
        if t == s {
          RepeatSnoc(b, Count(targets[..i], t));
        }
      }
    }
    assert targets[..|targets|] == targets;
  }

  /** An empty list for each of the blocks `0 .. n - 1`. */
  method EmptyEntries(n: nat) returns (preds: map<nat, seq<nat>>)
    ensures forall c: nat :: c in preds <==> c < n
    ensures forall c :: PredsAt(preds, c) == []
  {
    preds := map[];
    for b := 0 to n
      invariant forall c: nat :: c in preds <==> c < b
      invariant forall c :: c in preds ==> preds[c] == []
    {
      preds := preds[b := []];
    }
  }

  /** The predecessor map: every block has an entry, and every entry lists
      the blocks that branch to it, once per branch slot. */
  method BuildPredecessors(body: Body) returns (preds: map<nat, seq<nat>>)
    requires WellFormed(body)
    ensures forall b :: 0 <= b < |body.blocks| ==> b in preds
    ensures forall s :: PredsAt(preds, s) == PredList(SuccLists(body), s)
  {
    var n := |body.blocks|;
    ghost var succs := SuccLists(body);
    preds := EmptyEntries(n);
    assert succs[..0] == [];
    for b := 0 to n
      invariant forall c :: 0 <= c < n ==> c in preds
      invariant PredsUpTo(preds, succs, b)
    {
      var blk := body.blocks[b];
      if blk == [] {
        PredListNoEdges(preds, succs, b);
        continue;
      }
      var t := blk[|blk| - 1];
      if !IsTerminator(body.instrs[t].op) {
        PredListNoEdges(preds, succs, b);
        continue;
      }
      ghost var before := preds;
      preds := AddEdges(preds, b, body.instrs[t].targets);
      PredListEdges(before, preds, succs, b);
    }
    assert succs[..n] == succs;
  }

  lemma {:induction false} CountMembers(xs: seq<nat>, s: nat)
    ensures Count(xs, s) > 0 <==> s in xs
    decreases |xs|
  {
    if xs != [] {
      CountMembers(xs[..|xs| - 1], s);
      assert xs == xs[..|xs| - 1] + [xs[|xs| - 1]];
    }
  }

  /** Block `p` is a predecessor of `s` exactly when some successor slot of
      `p`'s terminator names `s`, and it is listed once per such slot. */
  lemma {:induction false} PredListMembers(succs: seq<seq<nat>>, s: nat, p: nat)
    ensures p in PredList(succs, s) <==> p < |succs| && s in succs[p]
    ensures p < |succs| ==> multiset(PredList(succs, s))[p] == Count(succs[p], s)
    ensures p >= |succs| ==> multiset(PredList(succs, s))[p] == 0
    decreases |succs|
  {
    if succs != [] {
      var last := |succs| - 1;
      var front := succs[..last];
      PredListMembers(front, s, p);
      var rep := Repeat(last, Count(succs[last], s));
      RepeatCount(last, Count(succs[last], s), p);
      assert multiset(PredList(succs, s)) == multiset(PredList(front, s)) + multiset(rep);
      CountMembers(succs[last], s);
      if p < last {
        assert succs[p] == front[p];
      }
    }
  }

  lemma {:induction false} RepeatCount(b: nat, c: nat, p: nat)
    ensures multiset(Repeat(b, c))[p] == (if p == b then c else 0)
    decreases c
  {
    if c > 0 {
      RepeatCount(b, c - 1, p);
      assert Repeat(b, c) == Repeat(b, c - 1) + [b];
    } else {
      assert Repeat(b, c) == [];
    }
  }

  // ---------------------------------------------------------------------------
  // The running reaching set, GEN and KILL

  /** One instruction of a forward scan: a store first removes every store to
      its address from the set, then adds itself; anything else leaves the
      set alone. */
  ghost function Step(instrs: seq<Instr>, S: set<InstrId>, x: InstrId): set<InstrId> {
    if IsStoreAt(instrs, x) then KillPointer(instrs, S, StorePointer(instrs, x)) + {x} else S
  }

  /** The set after scanning `ids` in order from `S`. */
  ghost function Scan(instrs: seq<Instr>, S: set<InstrId>, ids: seq<InstrId>): set<InstrId>
    decreases |ids|
  {
    if ids == [] then S else Scan(instrs, Step(instrs, S, ids[0]), ids[1..])
  }

  /** GEN of a block: the scan of its instructions from the empty set. */
  ghost function GenOf(instrs: seq<Instr>, ids: seq<InstrId>): set<InstrId> {
    Scan(instrs, {}, ids)
  }

  /** Store `y` overwrites what store `x` wrote: both store to one address. */
  predicate Clobbers(instrs: seq<Instr>, y: InstrId, x: InstrId) {
    IsStoreAt(instrs, y) && IsStoreAt(instrs, x) && StorePointer(instrs, y) == StorePointer(instrs, x)
  }

  /** No store among `ids[i..]` overwrites `x`. */
  predicate SurvivesFrom(instrs: seq<Instr>, x: InstrId, ids: seq<InstrId>, i: nat) {
    forall j :: i <= j < |ids| ==> !Clobbers(instrs, ids[j], x)
  }

  /** `x` is a store of `ids` that no later store of `ids` overwrites: the
      last store to its address. */
  predicate LastStoreIn(instrs: seq<Instr>, x: InstrId, ids: seq<InstrId>) {
    exists i :: 0 <= i < |ids| && ids[i] == x && IsStoreAt(instrs, x) && SurvivesFrom(instrs, x, ids, i + 1)
  }

  lemma {:induction false} ShiftFacts(instrs: seq<Instr>, x: InstrId, ids: seq<InstrId>)
    requires ids != []
    ensures SurvivesFrom(instrs, x, ids, 0) <==>
            !Clobbers(instrs, ids[0], x) && SurvivesFrom(instrs, x, ids[1..], 0)
    ensures LastStoreIn(instrs, x, ids) <==>
            (ids[0] == x && IsStoreAt(instrs, x) && SurvivesFrom(instrs, x, ids[1..], 0)) ||
            LastStoreIn(instrs, x, ids[1..])
  {
    var rest := ids[1..];
    if SurvivesFrom(instrs, x, ids, 1) {
      assert SurvivesFrom(instrs, x, rest, 0) by {
        forall j | 0 <= j < |rest| ensures !Clobbers(instrs, rest[j], x) {
          assert rest[j] == ids[j + 1];
        }
      }
    }
    if SurvivesFrom(instrs, x, rest, 0) {
      assert SurvivesFrom(instrs, x, ids, 1) by {
        forall j | 1 <= j < |ids| ensures !Clobbers(instrs, ids[j], x) {
          assert ids[j] == rest[j - 1];
        }
      }
    }
    if LastStoreIn(instrs, x, ids) {
      var i :| 0 <= i < |ids| && ids[i] == x && IsStoreAt(instrs, x) && SurvivesFrom(instrs, x, ids, i + 1);
      if i > 0 {
        assert rest[i - 1] == x;
        assert SurvivesFrom(instrs, x, rest, i) by {
          forall j | i <= j < |rest| ensures !Clobbers(instrs, rest[j], x) {
            assert rest[j] == ids[j + 1];
          }
        }
      }
    }
    if LastStoreIn(instrs, x, rest) {
      var i :| 0 <= i < |rest| && rest[i] == x && IsStoreAt(instrs, x) && SurvivesFrom(instrs, x, rest, i + 1);
      assert ids[i + 1] == x;
      assert SurvivesFrom(instrs, x, ids, i + 2) by {
        forall j | i + 2 <= j < |ids| ensures !Clobbers(instrs, ids[j], x) {
          assert ids[j] == rest[j - 1];
        }
      }
    }
  }

  /** After a scan, the set holds the stores of `S` that no scanned store
      overwrote, and the last store of the scan to each address. */
  lemma {:induction false} ScanMembers(instrs: seq<Instr>, S: set<InstrId>, ids: seq<InstrId>, x: InstrId)
    ensures x in Scan(instrs, S, ids) <==>
            (x in S && SurvivesFrom(instrs, x, ids, 0)) || LastStoreIn(instrs, x, ids)
    decreases |ids|
  {
    if ids != [] {
      var y := ids[0];
      ScanMembers(instrs, Step(instrs, S, y), ids[1..], x);
      ShiftFacts(instrs, x, ids);
      if IsStoreAt(instrs, y) {
        assert x in Step(instrs, S, y) <==> (x in S && !Clobbers(instrs, y, x)) || x == y;
      }
    }
  }

  /** GEN holds exactly the stores of the block that no later store of the
      block overwrites. */
  lemma {:induction false} GenIsLastStores(instrs: seq<Instr>, ids: seq<InstrId>, x: InstrId)
    ensures x in GenOf(instrs, ids) <==> LastStoreIn(instrs, x, ids)
  {
    ScanMembers(instrs, {}, ids, x);
  }

  /** GEN holds at most one store per address ... */
  lemma {:induction false} GenOnePerPointer(instrs: seq<Instr>, ids: seq<InstrId>, x: InstrId, y: InstrId)
    requires x in GenOf(instrs, ids) && y in GenOf(instrs, ids)
    requires Clobbers(instrs, x, y)
    ensures x == y
  {
    GenIsLastStores(instrs, ids, x);
    GenIsLastStores(instrs, ids, y);
    var i :| 0 <= i < |ids| && ids[i] == x && IsStoreAt(instrs, x) && SurvivesFrom(instrs, x, ids, i + 1);
    var j :| 0 <= j < |ids| && ids[j] == y && IsStoreAt(instrs, y) && SurvivesFrom(instrs, y, ids, j + 1);
    if i < j {
      assert Clobbers(instrs, ids[j], x);
    } else if j < i {
      assert Clobbers(instrs, ids[i], y);
    }
  }

  /** ... and at least one for every address the block stores to. */
  lemma {:induction false} GenCoversPointer(instrs: seq<Instr>, ids: seq<InstrId>, k: nat)
    requires k < |ids| && IsStoreAt(instrs, ids[k])
    ensures exists x :: x in GenOf(instrs, ids) && Clobbers(instrs, x, ids[k])
    decreases |ids| - k
  {
    var p := ids[k];
    if SurvivesFrom(instrs, p, ids, k + 1) {
      GenIsLastStores(instrs, ids, p);
      assert Clobbers(instrs, p, p);
    } else {
      var j :| k + 1 <= j < |ids| && Clobbers(instrs, ids[j], p);
      GenCoversPointer(instrs, ids, j);
      var x :| x in GenOf(instrs, ids) && Clobbers(instrs, x, ids[j]);
      assert Clobbers(instrs, x, p);
    }
  }

  /** KILL of a block: every store of `all` that some store of the block,
      other than itself, overwrites.  Two stores of one block to one address
      kill each other. */
  ghost function KillOf(instrs: seq<Instr>, all: set<InstrId>, ids: seq<InstrId>): set<InstrId> {
    set s | s in all && exists k :: 0 <= k < |ids| && ids[k] != s && Clobbers(instrs, ids[k], s)
  }

  /** Two different stores of one block to one address are both in its KILL. */
  lemma {:induction false} KillHoldsOwnStores(instrs: seq<Instr>, all: set<InstrId>, ids: seq<InstrId>, i: nat, j: nat)
    requires i < |ids| && j < |ids| && ids[i] != ids[j] && ids[i] in all && ids[j] in all
    requires Clobbers(instrs, ids[i], ids[j])
    ensures ids[i] in KillOf(instrs, all, ids) && ids[j] in KillOf(instrs, all, ids)
  {
    assert Clobbers(instrs, ids[j], ids[i]);
  }

  /** The instructions of a block are pairwise different. */
  predicate NoDup(ids: seq<InstrId>) {
    forall i, j :: 0 <= i < j < |ids| ==> ids[i] != ids[j]
  }

  /** GEN and KILL summarise the block: scanning it from any set of stores
      of the function gives GEN plus what of that set KILL spares. */
  lemma {:induction false} ScanIsTransfer(instrs: seq<Instr>, all: set<InstrId>, S: set<InstrId>, ids: seq<InstrId>)
    requires S <= all && NoDup(ids)
    ensures Scan(instrs, S, ids) == GenOf(instrs, ids) + (S - KillOf(instrs, all, ids))
  {
    forall x ensures x in Scan(instrs, S, ids) <==> x in GenOf(instrs, ids) || (x in S && x !in KillOf(instrs, all, ids)) {
      ScanMembers(instrs, S, ids, x);
      GenIsLastStores(instrs, ids, x);
      if x in S && x !in KillOf(instrs, all, ids) && !SurvivesFrom(instrs, x, ids, 0) {
        var j :| 0 <= j < |ids| && Clobbers(instrs, ids[j], x);
        assert ids[j] == x;
        assert SurvivesFrom(instrs, x, ids, j + 1) by {
          forall j' | j + 1 <= j' < |ids| ensures !Clobbers(instrs, ids[j'], x) {
            assert ids[j'] != ids[j];
          }
        }
      }
    }
  }

  /** GEN of one block, in program order. */
  method GenOfBlock(instrs: seq<Instr>, ids: seq<InstrId>) returns (genSet: set<InstrId>)
    requires AllValid(instrs) && forall k :: 0 <= k < |ids| ==> ids[k] < |instrs|
    ensures genSet == GenOf(instrs, ids)
  {
    genSet := {};
    for k := 0 to |ids|
      invariant Scan(instrs, genSet, ids[k..]) == GenOf(instrs, ids)
    {
      var x := ids[k];
      assert ids[k..][0] == x && ids[k..][1..] == ids[k + 1..];
      if instrs[x].op != Store {
        continue;
      }
      var ptr := StorePointer(instrs, x);
      genSet := RemoveStoresToPointer(instrs, genSet, ptr);
      genSet := genSet + {x};
    }
    assert ids[|ids|..] == [];
  }

  /** KILL of one block: for each store, every other store of `all` to its address. */
  method KillOfBlock(instrs: seq<Instr>, all: set<InstrId>, ids: seq<InstrId>) returns (killSet: set<InstrId>)
    requires AllValid(instrs) && forall k :: 0 <= k < |ids| ==> ids[k] < |instrs|
    ensures killSet == KillOf(instrs, all, ids)
  {
    killSet := {};
    for k := 0 to |ids|
      invariant killSet == KillOf(instrs, all, ids[..k])
    {
      var x := ids[k];
      assert ids[..k + 1][..k] == ids[..k] && ids[..k + 1][k] == x;
      if instrs[x].op != Store {
        assert KillOf(instrs, all, ids[..k + 1]) == KillOf(instrs, all, ids[..k]) by {
          forall s | s in KillOf(instrs, all, ids[..k + 1]) ensures s in KillOf(instrs, all, ids[..k]) {
            var j :| 0 <= j < k + 1 && ids[..k + 1][j] != s && Clobbers(instrs, ids[..k + 1][j], s);
            assert ids[..k][j] == ids[..k + 1][j];
          }
          forall s | s in KillOf(instrs, all, ids[..k]) ensures s in KillOf(instrs, all, ids[..k + 1]) {
            var j :| 0 <= j < k && ids[..k][j] != s && Clobbers(instrs, ids[..k][j], s);
            assert ids[..k + 1][j] == ids[..k][j];
          }
        }
        continue;
      }
      var ptr := StorePointer(instrs, x);
      var added := KillersOf(instrs, all, x, ptr);
      assert KillOf(instrs, all, ids[..k + 1]) == killSet + added by {
        forall s | s in KillOf(instrs, all, ids[..k + 1]) ensures s in killSet + added {
          var j :| 0 <= j < k + 1 && ids[..k + 1][j] != s && Clobbers(instrs, ids[..k + 1][j], s);
          if j < k {
            assert ids[..k][j] == ids[..k + 1][j];
          }
        }
        forall s | s in killSet ensures s in KillOf(instrs, all, ids[..k + 1]) {
          var j :| 0 <= j < k && ids[..k][j] != s && Clobbers(instrs, ids[..k][j], s);
          assert ids[..k + 1][j] == ids[..k][j];
        }
      }
      killSet := killSet + added;
    }
    assert ids[..|ids|] == ids;
  }

  /** The stores of `all` other than `x` that store to `ptr`. */
  method KillersOf(instrs: seq<Instr>, all: set<InstrId>, x: InstrId, ptr: Operand) returns (r: set<InstrId>)
    requires IsStoreAt(instrs, x) && ptr == StorePointer(instrs, x)
    ensures forall s :: s in r <==> s in all && s != x && Clobbers(instrs, x, s)
  {
    r := {};
    var todo := all;
    while todo != {}
      invariant todo <= all
      invariant forall s :: s in r <==> s in all && s !in todo && s != x && Clobbers(instrs, x, s)
      decreases |todo|
    {
      var s :| s in todo;
      if s != x && StoresTo(instrs, s, ptr) {
        r := r + {s};
      }
      todo := todo - {s};
    }
  }

  /** GEN and KILL of every block. */
  method ComputeGenKill(body: Body, allStores: set<InstrId>) returns (gen: seq<set<InstrId>>, kill: seq<set<InstrId>>)
    requires WellFormed(body)
    ensures |gen| == |body.blocks| && |kill| == |body.blocks|
    ensures forall b :: 0 <= b < |body.blocks| ==>
              gen[b] == GenOf(body.instrs, body.blocks[b]) && kill[b] == KillOf(body.instrs, allStores, body.blocks[b])
  {
    gen := [];
    for b := 0 to |body.blocks|
      invariant |gen| == b
      invariant forall c :: 0 <= c < b ==> gen[c] == GenOf(body.instrs, body.blocks[c])
    {
      var g := GenOfBlock(body.instrs, body.blocks[b]);
      gen := gen + [g];
    }
    kill := [];
    for b := 0 to |body.blocks|
      invariant |kill| == b
      invariant forall c :: 0 <= c < b ==> kill[c] == KillOf(body.instrs, allStores, body.blocks[c])
    {
      var k := KillOfBlock(body.instrs, allStores, body.blocks[b]);
      kill := kill + [k];
    }
  }

  // ---------------------------------------------------------------------------
  // IN and OUT

  /** OUT of block `p`; a block outside the function has an empty one. */
  function OutOf(outs: seq<set<InstrId>>, p: nat): set<InstrId> {
    if p < |outs| then outs[p] else {}
  }

  /** The union of OUT over the listed predecessors. */
  ghost function UnionOuts(outs: seq<set<InstrId>>, ps: seq<nat>): set<InstrId> {
    if ps == [] then {} else UnionOuts(outs, ps[..|ps| - 1]) + OutOf(outs, ps[|ps| - 1])
  }

  lemma {:induction false} UnionOutsMembers(outs: seq<set<InstrId>>, ps: seq<nat>, x: InstrId)
    ensures x in UnionOuts(outs, ps) <==> exists i :: 0 <= i < |ps| && x in OutOf(outs, ps[i])
    decreases |ps|
  {
    if ps != [] {
      var front := ps[..|ps| - 1];
      UnionOutsMembers(outs, front, x);
      if x in UnionOuts(outs, front) {
        var i :| 0 <= i < |front| && x in OutOf(outs, front[i]);
        assert ps[i] == front[i];
      }
      if exists i :: 0 <= i < |ps| && x in OutOf(outs, ps[i]) {
        var i :| 0 <= i < |ps| && x in OutOf(outs, ps[i]);
        if i < |front| {
          assert front[i] == ps[i];
        }
      }
    }
  }

  /** Pointwise inclusion of two same-length sequences of sets. */
  predicate Below(a: seq<set<InstrId>>, b: seq<set<InstrId>>) {
    |a| == |b| && forall i :: 0 <= i < |a| ==> a[i] <= b[i]
  }

  lemma {:induction false} UnionOutsMono(outs: seq<set<InstrId>>, outs2: seq<set<InstrId>>, ps: seq<nat>)
    requires Below(outs, outs2)
    ensures UnionOuts(outs, ps) <= UnionOuts(outs2, ps)
    decreases |ps|
  {
    if ps != [] {
      UnionOutsMono(outs, outs2, ps[..|ps| - 1]);
    }
  }

  /** Every store generated by some block. */
  ghost function GenUnion(gen: seq<set<InstrId>>): set<InstrId> {
    if gen == [] then {} else GenUnion(gen[..|gen| - 1]) + gen[|gen| - 1]
  }

  lemma {:induction false} GenUnionMembers(gen: seq<set<InstrId>>, x: InstrId)
    ensures x in GenUnion(gen) <==> exists c :: 0 <= c < |gen| && x in gen[c]
    decreases |gen|
  {
    if gen != [] {
      var front := gen[..|gen| - 1];
      GenUnionMembers(front, x);
      if x in GenUnion(front) {
        var c :| 0 <= c < |front| && x in front[c];
        assert gen[c] == front[c];
      }
      if exists c :: 0 <= c < |gen| && x in gen[c] {
        var c :| 0 <= c < |gen| && x in gen[c];
        if c < |front| {
          assert front[c] == gen[c];
        }
      }
    }
  }

  lemma {:induction false} UnionOutsBound(outs: seq<set<InstrId>>, ps: seq<nat>, U: set<InstrId>)
    requires forall p :: 0 <= p < |outs| ==> outs[p] <= U
    ensures UnionOuts(outs, ps) <= U
    decreases |ps|
  {
    if ps != [] {
      UnionOutsBound(outs, ps[..|ps| - 1], U);
    }
  }

  /** The dataflow equations of reaching stores: IN of a block is the union
      of its predecessors' OUT, and OUT is GEN plus what of IN is not killed. */
  ghost predicate IsSolution(n: nat, preds: map<nat, seq<nat>>, gen: seq<set<InstrId>>, kill: seq<set<InstrId>>,
                       ins: seq<set<InstrId>>, outs: seq<set<InstrId>>)
    requires |gen| == n && |kill| == n
  {
    |ins| == n && |outs| == n &&
    forall b :: 0 <= b < n ==>
      ins[b] == UnionOuts(outs, PredsAt(preds, b)) && outs[b] == gen[b] + (ins[b] - kill[b])
  }

  /** How far the sets of `s` are from all being `U`. */
  ghost function Deficit(U: set<InstrId>, s: seq<set<InstrId>>): nat {
    if s == [] then 0 else Deficit(U, s[..|s| - 1]) + |U - s[|s| - 1]|
  }

  /** Growing one set inside `U` lowers the deficit, strictly when it really grows. */
  lemma {:induction false} DeficitGrow(U: set<InstrId>, s: seq<set<InstrId>>, b: nat, v: set<InstrId>)
    requires b < |s| && s[b] <= v <= U
    ensures Deficit(U, s[b := v]) <= Deficit(U, s)
    ensures v != s[b] ==> Deficit(U, s[b := v]) < Deficit(U, s)
    decreases |s|
  {
    var last := |s| - 1;
    assert Deficit(U, s) == Deficit(U, s[..last]) + |U - s[last]|;
    assert Deficit(U, s[b := v]) == Deficit(U, s[b := v][..last]) + |U - s[b := v][last]|;
    if b < last {
      assert s[b := v][..last] == s[..last][b := v];
      DeficitGrow(U, s[..last], b, v);
    } else {
      assert s[b := v][..last] == s[..last];
      SubsetCard(U - v, U - s[b]);
      if v != s[b] {
        var x :| x in v && x !in s[b];
        assert x in U - s[b] && x !in U - v;
      }
    }
  }

  /** The union of OUT over `ps`, one predecessor at a time. */
  method UnionOfOuts(outs: seq<set<InstrId>>, ps: seq<nat>) returns (newIn: set<InstrId>)
    ensures newIn == UnionOuts(outs, ps)
  {
    newIn := {};
    for i := 0 to |ps|
      invariant newIn == UnionOuts(outs, ps[..i])
    {
      assert ps[..i + 1][..i] == ps[..i];
      newIn := SetUnion(newIn, OutOf(outs, ps[i]));
    }
    assert ps[..|ps|] == ps;
  }

  /** IN and OUT sit below every solution of the equations. */
  ghost predicate BelowSolutions(n: nat, preds: map<nat, seq<nat>>, gen: seq<set<InstrId>>, kill: seq<set<InstrId>>,
                                 ins: seq<set<InstrId>>, outs: seq<set<InstrId>>)
    requires |gen| == n && |kill| == n
  {
    forall ins2, outs2 :: IsSolution(n, preds, gen, kill, ins2, outs2) ==> Below(ins, ins2) && Below(outs, outs2)
  }

  /** What holds of IN and OUT throughout the iteration: OUT follows from
      IN, IN is no more than its predecessors provide, and everything stays
      within the generated stores `U`. */
  ghost predicate IterationInv(n: nat, preds: map<nat, seq<nat>>, gen: seq<set<InstrId>>, kill: seq<set<InstrId>>,
                               U: set<InstrId>, ins: seq<set<InstrId>>, outs: seq<set<InstrId>>)
    requires |gen| == n && |kill| == n
  {
    |ins| == n && |outs| == n &&
    (forall c :: 0 <= c < n ==> gen[c] <= U) &&
    (forall c :: 0 <= c < n ==> outs[c] == gen[c] + (ins[c] - kill[c])) &&
    (forall c :: 0 <= c < n ==> ins[c] <= UnionOuts(outs, PredsAt(preds, c))) &&
    (forall c :: 0 <= c < n ==> ins[c] <= U && outs[c] <= U)
  }

  /** IN = {} and OUT = GEN start the iteration below every solution. */
  lemma {:induction false} IterationStart(n: nat, preds: map<nat, seq<nat>>, gen: seq<set<InstrId>>, kill: seq<set<InstrId>>,
                                          ins: seq<set<InstrId>>)
    requires |gen| == n && |kill| == n && ins == seq(n, _ => {})
    ensures IterationInv(n, preds, gen, kill, GenUnion(gen), ins, gen)
    ensures BelowSolutions(n, preds, gen, kill, ins, gen)
  {
    forall c | 0 <= c < n ensures gen[c] <= GenUnion(gen) {
      forall x | x in gen[c] ensures x in GenUnion(gen) {
        GenUnionMembers(gen, x);
      }
    }
  }

  /** A sweep that changes nothing leaves a solution of the equations. */
  lemma {:induction false} IterationDone(n: nat, preds: map<nat, seq<nat>>, gen: seq<set<InstrId>>, kill: seq<set<InstrId>>,
                                         U: set<InstrId>, ins: seq<set<InstrId>>, outs: seq<set<InstrId>>)
    requires |gen| == n && |kill| == n
    requires IterationInv(n, preds, gen, kill, U, ins, outs) && StableUpTo(preds, ins, outs, n)
    ensures IsSolution(n, preds, gen, kill, ins, outs)
  {
  }

  /** The equations always have a least solution: recomputing any block
      whose IN is off, in any order, climbs from IN = {} and OUT = GEN to
      one within finitely many steps. */
  lemma {:induction false} LeastFixpointExists(n: nat, preds: map<nat, seq<nat>>, gen: seq<set<InstrId>>, kill: seq<set<InstrId>>)
    requires |gen| == n && |kill| == n
    ensures exists ins, outs :: IsSolution(n, preds, gen, kill, ins, outs) && BelowSolutions(n, preds, gen, kill, ins, outs) &&
                                forall c :: 0 <= c < n ==> ins[c] <= GenUnion(gen)
  {
    var U := GenUnion(gen);
    var ins: seq<set<InstrId>> := seq(n, _ => {});
    var outs := gen;
    IterationStart(n, preds, gen, kill, ins);
    while !IsSolution(n, preds, gen, kill, ins, outs)
      invariant IterationInv(n, preds, gen, kill, U, ins, outs)
      invariant BelowSolutions(n, preds, gen, kill, ins, outs)
      decreases Deficit(U, ins) + Deficit(U, outs)
    {
      var b :| 0 <= b < n && ins[b] != UnionOuts(outs, PredsAt(preds, b));
      var ins' := ins[b := UnionOuts(outs, PredsAt(preds, b))];
      var outs' := outs[b := gen[b] + (ins'[b] - kill[b])];
      InOutStepEquations(n, preds, gen, kill, U, ins, outs, b, ins', outs');
      InOutStepLeast(n, preds, gen, kill, ins, outs, b, ins', outs');
      DeficitGrow(U, ins, b, ins'[b]);
      DeficitGrow(U, outs, b, outs'[b]);
      ins, outs := ins', outs';
    }
  }

  /** Chaotic iteration from IN = {} and OUT = GEN: sweeps the blocks in
      order until a sweep changes nothing.  The result is the least
      solution of the equations. */
  method ComputeInOut(n: nat, preds: map<nat, seq<nat>>, gen: seq<set<InstrId>>, kill: seq<set<InstrId>>)
      returns (ins: seq<set<InstrId>>, outs: seq<set<InstrId>>)
    requires |gen| == n && |kill| == n
    ensures IsSolution(n, preds, gen, kill, ins, outs)
    ensures forall ins2, outs2 :: IsSolution(n, preds, gen, kill, ins2, outs2) ==> Below(ins, ins2) && Below(outs, outs2)
    ensures forall b :: 0 <= b < n ==> outs[b] <= GenUnion(gen)
  {
    ghost var U := GenUnion(gen);
    ins := seq(n, _ => {});
    outs := gen;
    IterationStart(n, preds, gen, kill, ins);
    while true
      invariant IterationInv(n, preds, gen, kill, U, ins, outs)
      invariant BelowSolutions(n, preds, gen, kill, ins, outs)
      decreases Deficit(U, ins) + Deficit(U, outs)
    {
      var ins', outs', changed := Sweep(n, preds, gen, kill, U, ins, outs);
      if !changed {
        IterationDone(n, preds, gen, kill, U, ins, outs);
        break;
      }
      ins, outs := ins', outs';
    }
  }

  /** IN of each of the first `b` blocks is exactly the union of its
      predecessors' OUT. */
  ghost predicate StableUpTo(preds: map<nat, seq<nat>>, ins: seq<set<InstrId>>, outs: seq<set<InstrId>>, b: nat)
    requires b <= |ins|
  {
    forall c :: 0 <= c < b ==> ins[c] == UnionOuts(outs, PredsAt(preds, c))
  }

  /** One pass over the blocks in order, updating a block as soon as its
      recomputed IN or OUT differs. */
  method Sweep(n: nat, preds: map<nat, seq<nat>>, gen: seq<set<InstrId>>, kill: seq<set<InstrId>>,
               ghost U: set<InstrId>, ins0: seq<set<InstrId>>, outs0: seq<set<InstrId>>)
      returns (ins: seq<set<InstrId>>, outs: seq<set<InstrId>>, changed: bool)
    requires |gen| == n && |kill| == n
    requires IterationInv(n, preds, gen, kill, U, ins0, outs0)
    requires BelowSolutions(n, preds, gen, kill, ins0, outs0)
    ensures IterationInv(n, preds, gen, kill, U, ins, outs)
    ensures BelowSolutions(n, preds, gen, kill, ins, outs)
    ensures changed ==> Deficit(U, ins) + Deficit(U, outs) < Deficit(U, ins0) + Deficit(U, outs0)
    ensures !changed ==> ins == ins0 && outs == outs0 && StableUpTo(preds, ins, outs, n)
  {
    ins, outs, changed := ins0, outs0, false;
    for b := 0 to n
      invariant IterationInv(n, preds, gen, kill, U, ins, outs)
      invariant BelowSolutions(n, preds, gen, kill, ins, outs)
      invariant Deficit(U, ins) + Deficit(U, outs) <= Deficit(U, ins0) + Deficit(U, outs0)
      invariant changed ==> Deficit(U, ins) + Deficit(U, outs) < Deficit(U, ins0) + Deficit(U, outs0)
      invariant !changed ==> ins == ins0 && outs == outs0
      invariant !changed ==> StableUpTo(preds, ins, outs, b)
    {
      var upd;
      ghost var insPrev, outsPrev := ins, outs;
      ins, outs, upd := UpdateBlock(n, preds, gen, kill, U, ins, outs, b);
      if !changed && !upd {
        assert ins == insPrev && outs == outsPrev;
        assert StableUpTo(preds, ins, outs, b + 1);
      }
      changed := changed || upd;
    }
  }

  /** Recomputes IN and OUT of block `b` from its predecessors and stores
      them when either differs; `updated` tells whether it did. */
  method UpdateBlock(n: nat, preds: map<nat, seq<nat>>, gen: seq<set<InstrId>>, kill: seq<set<InstrId>>,
                     ghost U: set<InstrId>, ins0: seq<set<InstrId>>, outs0: seq<set<InstrId>>, b: nat)
      returns (ins: seq<set<InstrId>>, outs: seq<set<InstrId>>, updated: bool)
    requires |gen| == n && |kill| == n && b < n
    requires IterationInv(n, preds, gen, kill, U, ins0, outs0)
    requires BelowSolutions(n, preds, gen, kill, ins0, outs0)
    ensures IterationInv(n, preds, gen, kill, U, ins, outs)
    ensures BelowSolutions(n, preds, gen, kill, ins, outs)
    ensures updated ==> ins == ins0[b := UnionOuts(outs0, PredsAt(preds, b))] && outs == outs0[b := gen[b] + (ins[b] - kill[b])]
    ensures updated ==> Deficit(U, ins) + Deficit(U, outs) < Deficit(U, ins0) + Deficit(U, outs0)
    ensures !updated ==> ins == ins0 && outs == outs0 && ins[b] == UnionOuts(outs, PredsAt(preds, b))
  {
    ins, outs, updated := ins0, outs0, false;
    var newIn := UnionOfOuts(outs, PredsAt(preds, b));
    var diff := SetDifference(newIn, kill[b]);
    var newOut := SetUnion(gen[b], diff);
    assert diff == newIn - kill[b];
    assert newOut == gen[b] + (newIn - kill[b]);
    if !SetsEqual(newIn, ins[b]) || !SetsEqual(newOut, outs[b]) {
      ins := ins[b := newIn];
      outs := outs[b := newOut];
      InOutStepEquations(n, preds, gen, kill, U, ins0, outs0, b, ins, outs);
      InOutStepLeast(n, preds, gen, kill, ins0, outs0, b, ins, outs);
      DeficitGrow(U, ins0, b, newIn);
      DeficitGrow(U, outs0, b, newOut);
      updated := true;
    }
  }

  /** Replacing the sets of one block by their recomputed values keeps the
      invariant of the iteration, and only grows them. */
  lemma {:induction false} InOutStepEquations(n: nat, preds: map<nat, seq<nat>>, gen: seq<set<InstrId>>, kill: seq<set<InstrId>>,
                                              U: set<InstrId>, ins: seq<set<InstrId>>, outs: seq<set<InstrId>>,
                                              b: nat, ins': seq<set<InstrId>>, outs': seq<set<InstrId>>)
    requires |gen| == n && |kill| == n && b < n
    requires IterationInv(n, preds, gen, kill, U, ins, outs)
    requires ins' == ins[b := UnionOuts(outs, PredsAt(preds, b))]
    requires outs' == outs[b := gen[b] + (ins'[b] - kill[b])]
    ensures IterationInv(n, preds, gen, kill, U, ins', outs')
    ensures ins[b] <= ins'[b] && outs[b] <= outs'[b]
  {
    assert Below(outs, outs');
    UnionOutsBound(outs, PredsAt(preds, b), U);
    forall c | 0 <= c < n ensures ins'[c] <= UnionOuts(outs', PredsAt(preds, c)) {
      UnionOutsMono(outs, outs', PredsAt(preds, c));
    }
  }

  /** The same replacement stays below every solution. */
  lemma {:induction false} InOutStepLeast(n: nat, preds: map<nat, seq<nat>>, gen: seq<set<InstrId>>, kill: seq<set<InstrId>>,
                                          ins: seq<set<InstrId>>, outs: seq<set<InstrId>>,
                                          b: nat, ins': seq<set<InstrId>>, outs': seq<set<InstrId>>)
    requires |gen| == n && |kill| == n && b < n && |ins| == n && |outs| == n
    requires BelowSolutions(n, preds, gen, kill, ins, outs)
    requires ins' == ins[b := UnionOuts(outs, PredsAt(preds, b))]
    requires outs' == outs[b := gen[b] + (ins'[b] - kill[b])]
    ensures BelowSolutions(n, preds, gen, kill, ins', outs')
  {
    forall ins2, outs2 | IsSolution(n, preds, gen, kill, ins2, outs2)
      ensures Below(ins', ins2) && Below(outs', outs2)
    {
      assert Below(outs, outs2);
      UnionOutsMono(outs, outs2, PredsAt(preds, b));
    }
  }

  // ---------------------------------------------------------------------------
  // Reaching constants

  /** Every store of `rs` writes the constant `v`. */
  predicate AllStoreConstantSeq(instrs: seq<Instr>, rs: seq<InstrId>, v: int) {
    forall i :: 0 <= i < |rs| ==> StoresConstant(instrs, rs[i], v)
  }

  /** Some store to `p` reaches through `R`, and every one that does writes `v`. */
  ghost predicate ConstantReaches(instrs: seq<Instr>, R: set<InstrId>, p: Operand, v: int) {
    (exists s :: s in R && StoresTo(instrs, s, p)) &&
    forall s :: s in R && StoresTo(instrs, s, p) ==> StoresConstant(instrs, s, v)
  }

  /** The constant a load from `p` can be replaced by, if any. */
  ghost function ReachingConstant(instrs: seq<Instr>, R: set<InstrId>, p: Operand): Option<int> {
    if exists v :: ConstantReaches(instrs, R, p, v) then
      Some(var v :| ConstantReaches(instrs, R, p, v); v)
    else
      None
  }

  lemma {:induction false} ConstantReachesUnique(instrs: seq<Instr>, R: set<InstrId>, p: Operand, v: int, w: int)
    requires ConstantReaches(instrs, R, p, v) && ConstantReaches(instrs, R, p, w)
    ensures v == w
  {
    var s :| s in R && StoresTo(instrs, s, p);
    assert StoresConstant(instrs, s, v) && StoresConstant(instrs, s, w);
  }

  /** A load is replaced by `v` exactly when some store to its address
      reaches it and every reaching store to that address writes `v`. */
  lemma {:induction false} ReachingConstantIff(instrs: seq<Instr>, R: set<InstrId>, p: Operand, v: int)
    ensures ReachingConstant(instrs, R, p) == Some(v) <==> ConstantReaches(instrs, R, p, v)
  {
    if ReachingConstant(instrs, R, p) == Some(v) {
      var w :| ConstantReaches(instrs, R, p, w);
      ConstantReachesUnique(instrs, R, p, v, ReachingConstant(instrs, R, p).value);
    }
    if ConstantReaches(instrs, R, p, v) {
      ConstantReachesUnique(instrs, R, p, v, ReachingConstant(instrs, R, p).value);
    }
  }

  /** Two reaching stores to one address that write different constants
      block the replacement. */
  lemma {:induction false} ConflictingStoresBlock(instrs: seq<Instr>, R: set<InstrId>, p: Operand,
                                                  s1: InstrId, s2: InstrId, v1: int, v2: int)
    requires s1 in R && s2 in R && StoresTo(instrs, s1, p) && StoresTo(instrs, s2, p)
    requires StoresConstant(instrs, s1, v1) && StoresConstant(instrs, s2, v2) && v1 != v2
    ensures ReachingConstant(instrs, R, p) == None
  {
    forall v | true ensures !ConstantReaches(instrs, R, p, v) {
      if v != v1 {
        assert !StoresConstant(instrs, s1, v);
      } else {
        assert !StoresConstant(instrs, s2, v);
      }
    }
  }

  /** A reaching store of a value that is not an integer constant blocks the
      replacement. */
  lemma {:induction false} UnknownStoreBlocks(instrs: seq<Instr>, R: set<InstrId>, p: Operand, s: InstrId)
    requires s in R && StoresTo(instrs, s, p) && !StoreValue(instrs, s).ConstInt?
    ensures ReachingConstant(instrs, R, p) == None
  {
    forall v | true ensures !ConstantReaches(instrs, R, p, v) {
      assert !StoresConstant(instrs, s, v);
    }
  }

  /** The reaching stores to `ptr`, in no particular order. */
  method ReachingStores(instrs: seq<Instr>, R: set<InstrId>, ptr: Operand) returns (rs: seq<InstrId>)
    ensures forall s :: s in rs <==> s in R && StoresTo(instrs, s, ptr)
    ensures forall i :: 0 <= i < |rs| ==> StoresTo(instrs, rs[i], ptr)
  {
    rs := [];
    var todo := R;
    while todo != {}
      invariant todo <= R
      invariant forall s :: s in rs <==> s in R && s !in todo && StoresTo(instrs, s, ptr)
      invariant forall i :: 0 <= i < |rs| ==> StoresTo(instrs, rs[i], ptr)
      decreases |todo|
    {
      var s :| s in todo;
      if StoresTo(instrs, s, ptr) {
        rs := rs + [s];
      }
      todo := todo - {s};
    }
  }

  /** Whether every store of `rs` writes one integer constant, and which:
      the first one fixes the value and the walk stops at the first store
      that disagrees or is not a constant. */
  method AgreeOnConstant(instrs: seq<Instr>, rs: seq<InstrId>) returns (ok: bool, val: int)
    requires forall i :: 0 <= i < |rs| ==> IsStoreAt(instrs, rs[i])
    ensures ok ==> AllStoreConstantSeq(instrs, rs, val)
    ensures !ok ==> forall v :: !AllStoreConstantSeq(instrs, rs, v)
  {
    ok, val := true, 0;
    for idx := 0 to |rs|
      invariant ok
      invariant forall i :: 0 <= i < idx ==> StoresConstant(instrs, rs[i], val)
    {
      var s := rs[idx];
      var sv := StoreValue(instrs, s);
      if !sv.ConstInt? {
        ok := false;
        assert forall v :: !AllStoreConstantSeq(instrs, rs, v) by {
          forall v ensures !AllStoreConstantSeq(instrs, rs, v) {
            assert !StoresConstant(instrs, rs[idx], v);
          }
        }
        return;
      }
      var sVal := sv.value;
      if idx == 0 {
        val := sVal;
      } else if sVal != val {
        ok := false;
        assert forall v :: !AllStoreConstantSeq(instrs, rs, v) by {
          forall v ensures !AllStoreConstantSeq(instrs, rs, v) {
            if v == val {
              assert !StoresConstant(instrs, rs[idx], v);
            } else {
              assert !StoresConstant(instrs, rs[0], v);
            }
          }
        }
        return;
      }
    }
  }

  /** The reaching stores found and their agreement decide the reaching
      constant. */
  lemma {:induction false} ReachingBySeq(instrs: seq<Instr>, R: set<InstrId>, p: Operand, rs: seq<InstrId>, v: int)
    requires forall s :: s in rs <==> s in R && StoresTo(instrs, s, p)
    ensures ConstantReaches(instrs, R, p, v) <==> rs != [] && AllStoreConstantSeq(instrs, rs, v)
  {
    if rs != [] {
      assert rs[0] in rs;
    }
    if ConstantReaches(instrs, R, p, v) {
      var s :| s in R && StoresTo(instrs, s, p);
      assert s in rs;
      forall i | 0 <= i < |rs| ensures StoresConstant(instrs, rs[i], v) {
        assert rs[i] in rs;
      }
    }
    if rs != [] && AllStoreConstantSeq(instrs, rs, v) {
      forall s | s in R && StoresTo(instrs, s, p) ensures StoresConstant(instrs, s, v) {
        var i :| 0 <= i < |rs| && rs[i] == s;
      }
    }
  }

  /** No reaching constant when no store to `p` reaches, or the reaching
      stores do not agree on one constant. */
  lemma {:induction false} NoReachingConstant(instrs: seq<Instr>, R: set<InstrId>, p: Operand, rs: seq<InstrId>)
    requires forall s :: s in rs <==> s in R && StoresTo(instrs, s, p)
    requires rs == [] || forall v :: !AllStoreConstantSeq(instrs, rs, v)
    ensures ReachingConstant(instrs, R, p) == None
  {
    if ReachingConstant(instrs, R, p).Some? {
      var v := ReachingConstant(instrs, R, p).value;
      ReachingConstantIff(instrs, R, p, v);
      ReachingBySeq(instrs, R, p, rs, v);
    }
  }

  // ---------------------------------------------------------------------------
  // Replacing loads

  /** Two arenas that differ at most in the operand values of instructions. */
  predicate SameShape(a: seq<Instr>, b: seq<Instr>) {
    |a| == |b| &&
    forall k :: 0 <= k < |a| ==>
      a[k].op == b[k].op && a[k].width == b[k].width && a[k].targets == b[k].targets &&
      |a[k].operands| == |b[k].operands|
  }

  /** The load `x` replaced by the constant `v`, truncated to the load's
      width and read back as a signed value. */
  function ReplaceLoad(instrs: seq<Instr>, x: InstrId, v: int): (r: seq<Instr>)
    requires x < |instrs|
    ensures SameShape(instrs, r)
    ensures forall k, j :: 0 <= k < |instrs| && 0 <= j < |instrs[k].operands| ==>
              r[k].operands[j] == if instrs[k].operands[j] == Ref(x)
                                  then ConstInt(Wrap(v, instrs[x].width), instrs[x].width)
                                  else instrs[k].operands[j]
    ensures forall k :: 0 <= k < |r| ==> !Uses(r[k], x)
  {
    var w := instrs[x].width;
    var r := ReplaceAllUses(instrs, x, ConstInt(Wrap(v, w), w));
    assert forall k :: 0 <= k < |r| ==> !Uses(r[k], x) by {
      forall k | 0 <= k < |r| ensures !Uses(r[k], x) {
        ReplaceAllUsesRemoves(instrs, x, ConstInt(Wrap(v, w), w), k, x);
      }
    }
    r
  }

  /** Scans `ids` in order from the reaching set `R`: a store updates the
      set as in `Step`; a load whose reaching stores agree on a constant has
      every use replaced by that constant at once and is recorded for
      deletion.  Returns the new arena and the replaced loads in order. */
  ghost function RewriteFrom(instrs: seq<Instr>, R: set<InstrId>, ids: seq<InstrId>): (seq<Instr>, seq<InstrId>)
    decreases |ids|
  {
    if ids == [] then (instrs, [])
    else
      var x := ids[0];
      if IsStoreAt(instrs, x) then RewriteFrom(instrs, Step(instrs, R, x), ids[1..])
      else if IsLoadAt(instrs, x) && ReachingConstant(instrs, R, LoadPointer(instrs, x)).Some? then
        var rest := RewriteFrom(ReplaceLoad(instrs, x, ReachingConstant(instrs, R, LoadPointer(instrs, x)).value), R, ids[1..]);
        (rest.0, [x] + rest.1)
      else RewriteFrom(instrs, R, ids[1..])
  }

  /** Rewriting a block only changes operands, only replaces loads of the
      block, leaves no use of a replaced load, adds no use of anything, and
      changes nothing when it replaces nothing. */
  lemma {:induction false} RewriteFromFacts(instrs: seq<Instr>, R: set<InstrId>, ids: seq<InstrId>)
    ensures SameShape(instrs, RewriteFrom(instrs, R, ids).0)
    ensures forall x :: x in RewriteFrom(instrs, R, ids).1 ==> x in ids && IsLoadAt(instrs, x)
    ensures forall x, k :: x in RewriteFrom(instrs, R, ids).1 && 0 <= k < |instrs| ==>
              !Uses(RewriteFrom(instrs, R, ids).0[k], x)
    ensures forall k, y :: 0 <= k < |instrs| && Uses(RewriteFrom(instrs, R, ids).0[k], y) ==> Uses(instrs[k], y)
    ensures RewriteFrom(instrs, R, ids).1 == [] ==> RewriteFrom(instrs, R, ids).0 == instrs
    decreases |ids|
  {
    if ids != [] {
      var x := ids[0];
      var r := RewriteFrom(instrs, R, ids);
      if IsStoreAt(instrs, x) {
        RewriteFromFacts(instrs, Step(instrs, R, x), ids[1..]);
      } else if IsLoadAt(instrs, x) && ReachingConstant(instrs, R, LoadPointer(instrs, x)).Some? {
        var v := ReachingConstant(instrs, R, LoadPointer(instrs, x)).value;
        var w := instrs[x].width;
        var mid := ReplaceLoad(instrs, x, v);
        RewriteFromFacts(mid, R, ids[1..]);
        var rest := RewriteFrom(mid, R, ids[1..]);
        assert r == (rest.0, [x] + rest.1);
        forall k, y | 0 <= k < |instrs| && Uses(mid[k], y) ensures Uses(instrs[k], y) {
          ReplaceAllUsesRemoves(instrs, x, ConstInt(Wrap(v, w), w), k, y);
        }
        forall y | y in r.1 ensures y in ids && IsLoadAt(instrs, y) {
          if y != x {
            assert y in rest.1;
          }
        }
      } else {
        RewriteFromFacts(instrs, R, ids[1..]);
      }
    }
  }

  /** Rewriting never touches an operand that is not a reference. */
  lemma {:induction false} RewriteFromKeepsConstants(instrs: seq<Instr>, R: set<InstrId>, ids: seq<InstrId>)
    ensures |RewriteFrom(instrs, R, ids).0| == |instrs|
    ensures forall k, j :: 0 <= k < |instrs| && 0 <= j < |instrs[k].operands| && !instrs[k].operands[j].Ref? ==>
              j < |RewriteFrom(instrs, R, ids).0[k].operands| &&
              RewriteFrom(instrs, R, ids).0[k].operands[j] == instrs[k].operands[j]
    decreases |ids|
  {
    RewriteFromFacts(instrs, R, ids);
    if ids != [] {
      var x := ids[0];
      if IsStoreAt(instrs, x) {
        RewriteFromKeepsConstants(instrs, Step(instrs, R, x), ids[1..]);
      } else if IsLoadAt(instrs, x) && ReachingConstant(instrs, R, LoadPointer(instrs, x)).Some? {
        var mid := ReplaceLoad(instrs, x, ReachingConstant(instrs, R, LoadPointer(instrs, x)).value);
        RewriteFromKeepsConstants(mid, R, ids[1..]);
      } else {
        RewriteFromKeepsConstants(instrs, R, ids[1..]);
      }
    }
  }

  /** The instruction at the head of the scan is recorded as replaced exactly
      when it is a load whose reaching stores agree on a constant (and it
      does not recur later in the block); then every operand that used it
      ends up holding that constant at the load's width. */
  lemma {:induction false} RewriteFromHead(instrs: seq<Instr>, R: set<InstrId>, ids: seq<InstrId>)
    requires ids != []
    ensures var x := ids[0];
            IsLoadAt(instrs, x) && ReachingConstant(instrs, R, LoadPointer(instrs, x)).Some? ==>
              var v := ReachingConstant(instrs, R, LoadPointer(instrs, x)).value;
              var r := RewriteFrom(instrs, R, ids);
              x in r.1 && |r.0| == |instrs| &&
              forall k, j :: 0 <= k < |instrs| && 0 <= j < |instrs[k].operands| && instrs[k].operands[j] == Ref(x) ==>
                j < |r.0[k].operands| && r.0[k].operands[j] == ConstInt(Wrap(v, instrs[x].width), instrs[x].width)
    ensures var x := ids[0];
            !(IsLoadAt(instrs, x) && ReachingConstant(instrs, R, LoadPointer(instrs, x)).Some?) && x !in ids[1..] ==>
              x !in RewriteFrom(instrs, R, ids).1
  {
    var x := ids[0];
    if IsStoreAt(instrs, x) {
      RewriteFromFacts(instrs, Step(instrs, R, x), ids[1..]);
    } else if IsLoadAt(instrs, x) && ReachingConstant(instrs, R, LoadPointer(instrs, x)).Some? {
      var v := ReachingConstant(instrs, R, LoadPointer(instrs, x)).value;
      var mid := ReplaceLoad(instrs, x, v);
      RewriteFromKeepsConstants(mid, R, ids[1..]);
    } else {
      RewriteFromFacts(instrs, R, ids[1..]);
    }
  }

  /** Rewrites one block in place; the loads it replaced are returned, not
      yet erased. */
  method PropagateBlock(f: Function, bi: nat, R0: set<InstrId>) returns (replaced: seq<InstrId>)
    requires bi < |f.blocks| && WellFormed(f.Snapshot())
    modifies f
    ensures f.blocks == old(f.blocks)
    ensures (f.instrs, replaced) == RewriteFrom(old(f.instrs), R0, old(f.blocks)[bi])
  {
    var ids := f.blocks[bi];
    ghost var full := RewriteFrom(f.instrs, R0, ids);
    var R: set<InstrId> := R0;
    replaced := [];
    for k := 0 to |ids|
      invariant f.blocks == old(f.blocks)
      invariant |f.instrs| == |old(f.instrs)| && AllValid(f.instrs)
      invariant RewriteFrom(f.instrs, R, ids[k..]).0 == full.0
      invariant replaced + RewriteFrom(f.instrs, R, ids[k..]).1 == full.1
    {
      var x := ids[k];
      assert ids[k..][0] == x && ids[k..][1..] == ids[k + 1..];
      assert x < |f.instrs|;
      if f.instrs[x].op == Store {
        var ptr := StorePointer(f.instrs, x);
        R := RemoveStoresToPointer(f.instrs, R, ptr);
        R := R + {x};
        continue;
      }
      if f.instrs[x].op != Load {
        continue;
      }
      var ptr := LoadPointer(f.instrs, x);
      var rs := ReachingStores(f.instrs, R, ptr);
      if rs == [] {
        NoReachingConstant(f.instrs, R, ptr, rs);
        continue;
      }
      var ok, val := AgreeOnConstant(f.instrs, rs);
      if !ok {
        NoReachingConstant(f.instrs, R, ptr, rs);
        continue;
      }
      ReachingBySeq(f.instrs, R, ptr, rs, val);
      ReachingConstantIff(f.instrs, R, ptr, val);
      ghost var rest := RewriteFrom(ReplaceLoad(f.instrs, x, val), R, ids[k + 1..]);
      assert RewriteFrom(f.instrs, R, ids[k..]) == (rest.0, [x] + rest.1);
      var w := f.instrs[x].width;
      f.instrs := ReplaceAllUses(f.instrs, x, ConstInt(Wrap(val, w), w));
      assert replaced + ([x] + rest.1) == (replaced + [x]) + rest.1;
      replaced := replaced + [x];
    }
    assert ids[|ids|..] == [];
    assert RewriteFrom(f.instrs, R, ids[|ids|..]) == (f.instrs, []);
    assert replaced + [] == replaced;
  }

  /** Erases the listed instructions from block `bi`, one after the other. */
  method EraseFromBlock(f: Function, bi: nat, dead: seq<InstrId>)
    requires bi < |f.blocks|
    modifies f
    ensures f.instrs == old(f.instrs)
    ensures f.blocks == old(f.blocks)[bi := Without(old(f.blocks)[bi], dead)]
  {
    ghost var start := f.blocks;
    WithoutNone(start[bi]);
    assert f.blocks == start[bi := Without(start[bi], dead[..0])];
    for k := 0 to |dead|
      invariant f.instrs == old(f.instrs)
      invariant f.blocks == start[bi := Without(start[bi], dead[..k])]
    {
      EraseOneMore(start, bi, dead, k);
      f.blocks := f.blocks[bi := Without(f.blocks[bi], [dead[k]])];
    }
    assert dead[..|dead|] == dead;
  }

  /** Erasing one more instruction from block `bi`. */
  lemma {:induction false} EraseOneMore(start: seq<seq<InstrId>>, bi: nat, dead: seq<InstrId>, k: nat)
    requires bi < |start| && k < |dead|
    ensures var cur := start[bi := Without(start[bi], dead[..k])];
            cur[bi := Without(cur[bi], [dead[k]])] == start[bi := Without(start[bi], dead[..k + 1])]
  {
    WithoutWithout(start[bi], dead[..k], dead[k]);
    assert dead[..k] + [dead[k]] == dead[..k + 1];
  }

  lemma {:induction false} SameShapeFacts(a: seq<Instr>, b: seq<Instr>, c: seq<Instr>)
    requires SameShape(a, b) && SameShape(b, c)
    ensures SameShape(a, c)
    ensures AllValid(a) ==> AllValid(b)
    ensures forall x :: IsLoadAt(b, x) ==> IsLoadAt(a, x)
  {
    if AllValid(a) {
      forall x | 0 <= x < |b| ensures ValidInstr(b[x]) {
        assert ValidInstr(a[x]);
      }
    }
  }

  // ---------------------------------------------------------------------------
  // The pass

  /** IN of block `b`; empty for a block the analysis does not cover. */
  function InAt(ins: seq<set<InstrId>>, b: nat): set<InstrId> {
    if b < |ins| then ins[b] else {}
  }

  /** Rewrites blocks `bi..` in order, each from its IN, erasing after each
      block the loads it replaced from that block.  Returns the arena, the
      blocks and every replaced load. */
  ghost function PropagateFrom(instrs: seq<Instr>, blocks: seq<seq<InstrId>>, ins: seq<set<InstrId>>, bi: nat)
      : (seq<Instr>, seq<seq<InstrId>>, seq<InstrId>)
    decreases |blocks| - bi
  {
    if bi >= |blocks| then (instrs, blocks, [])
    else
      var r := RewriteFrom(instrs, InAt(ins, bi), blocks[bi]);
      var rest := PropagateFrom(r.0, blocks[bi := Without(blocks[bi], r.1)], ins, bi + 1);
      (rest.0, rest.1, r.1 + rest.2)
  }

  lemma {:induction false} PropagateFromStep(instrs: seq<Instr>, blocks: seq<seq<InstrId>>, ins: seq<set<InstrId>>, bi: nat)
    requires bi < |blocks|
    ensures var r := RewriteFrom(instrs, InAt(ins, bi), blocks[bi]);
            var rest := PropagateFrom(r.0, blocks[bi := Without(blocks[bi], r.1)], ins, bi + 1);
            PropagateFrom(instrs, blocks, ins, bi) == (rest.0, rest.1, r.1 + rest.2)
  {
  }

  /** One block's rewrite and erasure keep the body well formed, and erase
      at least one instruction when they replace a load. */
  lemma {:induction false} BlockStepFacts(instrs: seq<Instr>, blocks: seq<seq<InstrId>>, R: set<InstrId>, bi: nat)
    requires WellFormed(Body(instrs, blocks)) && bi < |blocks|
    ensures var r := RewriteFrom(instrs, R, blocks[bi]);
            var blocks' := blocks[bi := Without(blocks[bi], r.1)];
            WellFormed(Body(r.0, blocks')) && SameShape(instrs, r.0) &&
            LiveCount(blocks') <= LiveCount(blocks) &&
            (r.1 != [] ==> LiveCount(blocks') < LiveCount(blocks)) &&
            (r.1 == [] ==> r.0 == instrs && blocks' == blocks)
  {
    var r := RewriteFrom(instrs, R, blocks[bi]);
    RewriteFromFacts(instrs, R, blocks[bi]);
    SameShapeFacts(instrs, r.0, r.0);
    EraseOneBlockInRange(blocks, bi, r.1, |instrs|);
    LiveCountUpdate(blocks, bi, Without(blocks[bi], r.1));
    if r.1 != [] {
      assert r.1[0] in r.1;
      assert r.1[0] in blocks[bi];
    } else {
      WithoutNone(blocks[bi]);
    }
  }

  /** What propagation over the remaining blocks preserves and achieves:
      the body stays well formed with the same shape, the instruction count
      drops exactly when some load is replaced, nothing uses a replaced load,
      and no instruction gains a use. */
  lemma {:induction false} PropagateFromFacts(instrs: seq<Instr>, blocks: seq<seq<InstrId>>, ins: seq<set<InstrId>>, bi: nat)
    requires WellFormed(Body(instrs, blocks))
    ensures WellFormed(Body(PropagateFrom(instrs, blocks, ins, bi).0, PropagateFrom(instrs, blocks, ins, bi).1))
    ensures SameShape(instrs, PropagateFrom(instrs, blocks, ins, bi).0)
    ensures |PropagateFrom(instrs, blocks, ins, bi).1| == |blocks|
    ensures LiveCount(PropagateFrom(instrs, blocks, ins, bi).1) <= LiveCount(blocks)
    ensures PropagateFrom(instrs, blocks, ins, bi).2 != [] ==>
              LiveCount(PropagateFrom(instrs, blocks, ins, bi).1) < LiveCount(blocks)
    ensures PropagateFrom(instrs, blocks, ins, bi).2 == [] ==>
              PropagateFrom(instrs, blocks, ins, bi).0 == instrs && PropagateFrom(instrs, blocks, ins, bi).1 == blocks
    ensures forall x :: x in PropagateFrom(instrs, blocks, ins, bi).2 ==> IsLoadAt(instrs, x)
    ensures forall x, k :: x in PropagateFrom(instrs, blocks, ins, bi).2 && 0 <= k < |instrs| ==>
              !Uses(PropagateFrom(instrs, blocks, ins, bi).0[k], x)
    ensures forall k, y :: 0 <= k < |instrs| && Uses(PropagateFrom(instrs, blocks, ins, bi).0[k], y) ==> Uses(instrs[k], y)
    decreases |blocks| - bi
  {
    if bi < |blocks| {
      var r := RewriteFrom(instrs, InAt(ins, bi), blocks[bi]);
      var blocks' := blocks[bi := Without(blocks[bi], r.1)];
      BlockStepFacts(instrs, blocks, InAt(ins, bi), bi);
      RewriteFromFacts(instrs, InAt(ins, bi), blocks[bi]);
      PropagateFromFacts(r.0, blocks', ins, bi + 1);
      var rest := PropagateFrom(r.0, blocks', ins, bi + 1);
      assert PropagateFrom(instrs, blocks, ins, bi) == (rest.0, rest.1, r.1 + rest.2);
      SameShapeFacts(instrs, r.0, rest.0);
      forall x | x in r.1 + rest.2 ensures IsLoadAt(instrs, x) {
        if x !in r.1 {
          assert x in rest.2;
        }
      }
      forall x, k | x in r.1 + rest.2 && 0 <= k < |instrs| ensures !Uses(rest.0[k], x) {
        if x in r.1 {
          assert !Uses(r.0[k], x);
        }
      }
    }
  }

  /** The equations of reaching stores of a whole body, with KILL taken
      against every store of the body. */
  ghost predicate SolvesBody(body: Body, ins: seq<set<InstrId>>, outs: seq<set<InstrId>>) {
    var n := |body.blocks|;
    var all := StoresIn(body.instrs, Flatten(body.blocks));
    WellFormed(body) && |ins| == n && |outs| == n &&
    forall b :: 0 <= b < n ==>
      ins[b] == UnionOuts(outs, PredList(SuccLists(body), b)) &&
      outs[b] == GenOf(body.instrs, body.blocks[b]) + (ins[b] - KillOf(body.instrs, all, body.blocks[b]))
  }

  /** The least solution of the equations of a body. */
  ghost predicate LeastSolution(body: Body, ins: seq<set<InstrId>>, outs: seq<set<InstrId>>) {
    SolvesBody(body, ins, outs) &&
    forall ins2, outs2 :: SolvesBody(body, ins2, outs2) ==> Below(ins, ins2) && Below(outs, outs2)
  }

  /** There is only one least solution. */
  lemma {:induction false} LeastSolutionUnique(body: Body, ins: seq<set<InstrId>>, outs: seq<set<InstrId>>,
                                               ins2: seq<set<InstrId>>, outs2: seq<set<InstrId>>)
    requires LeastSolution(body, ins, outs) && LeastSolution(body, ins2, outs2)
    ensures ins == ins2 && outs == outs2
  {
    assert Below(ins, ins2) && Below(ins2, ins);
    assert Below(outs, outs2) && Below(outs2, outs);
    BelowAntisymmetric(ins, ins2);
    BelowAntisymmetric(outs, outs2);
  }

  lemma {:induction false} BelowAntisymmetric(a: seq<set<InstrId>>, b: seq<set<InstrId>>)
    requires Below(a, b) && Below(b, a)
    ensures a == b
  {
    assert forall i :: 0 <= i < |a| ==> a[i] == b[i];
  }

  /** A block without predecessors has nothing reaching its entry. */
  lemma {:induction false} EntryInIsEmpty(body: Body, ins: seq<set<InstrId>>, outs: seq<set<InstrId>>, b: nat)
    requires SolvesBody(body, ins, outs) && b < |body.blocks| && PredList(SuccLists(body), b) == []
    ensures ins[b] == {}
  {
  }

  lemma {:induction false} SolutionsAgree(body: Body, preds: map<nat, seq<nat>>, gen: seq<set<InstrId>>, kill: seq<set<InstrId>>,
                                          ins: seq<set<InstrId>>, outs: seq<set<InstrId>>)
    requires WellFormed(body) && |gen| == |body.blocks| && |kill| == |body.blocks|
    requires forall s :: 0 <= s < |body.blocks| ==> PredsAt(preds, s) == PredList(SuccLists(body), s)
    requires forall b :: 0 <= b < |body.blocks| ==>
               gen[b] == GenOf(body.instrs, body.blocks[b]) &&
               kill[b] == KillOf(body.instrs, StoresIn(body.instrs, Flatten(body.blocks)), body.blocks[b])
    ensures IsSolution(|body.blocks|, preds, gen, kill, ins, outs) <==> SolvesBody(body, ins, outs)
  {
  }

  /** Every well-formed body has a least solution of its equations, and in
      it only stores of the body reach a block. */
  lemma {:induction false} LeastSolutionExists(body: Body)
    requires WellFormed(body)
    ensures exists ins, outs :: LeastSolution(body, ins, outs) &&
              forall b :: 0 <= b < |body.blocks| ==> ins[b] <= StoresIn(body.instrs, Flatten(body.blocks))
  {
    var n := |body.blocks|;
    var all := StoresIn(body.instrs, Flatten(body.blocks));
    var preds, gen, kill := BodyEquations(body);
    LeastFixpointExists(n, preds, gen, kill);
    var ins, outs :| IsSolution(n, preds, gen, kill, ins, outs) && BelowSolutions(n, preds, gen, kill, ins, outs) &&
                     forall c :: 0 <= c < n ==> ins[c] <= GenUnion(gen);
    LeastOfBody(body, preds, gen, kill, ins, outs);
    GenWithinStores(body, gen);
    assert forall b :: 0 <= b < n ==> ins[b] <= all;
  }

  /** The predecessor map, GEN and KILL of a body, as the equations of the
      body use them. */
  lemma {:induction false} BodyEquations(body: Body) returns (preds: map<nat, seq<nat>>, gen: seq<set<InstrId>>, kill: seq<set<InstrId>>)
    requires WellFormed(body)
    ensures |gen| == |body.blocks| && |kill| == |body.blocks|
    ensures forall s :: 0 <= s < |body.blocks| ==> PredsAt(preds, s) == PredList(SuccLists(body), s)
    ensures forall b :: 0 <= b < |body.blocks| ==>
              gen[b] == GenOf(body.instrs, body.blocks[b]) &&
              kill[b] == KillOf(body.instrs, StoresIn(body.instrs, Flatten(body.blocks)), body.blocks[b])
  {
    var n := |body.blocks|;
    var succs := SuccLists(body);
    var all := StoresIn(body.instrs, Flatten(body.blocks));
    preds := map b: nat | b < n :: PredList(succs, b);
    gen := seq(n, b requires 0 <= b < n => GenOf(body.instrs, body.blocks[b]));
    kill := seq(n, b requires 0 <= b < n => KillOf(body.instrs, all, body.blocks[b]));
  }

  /** The least solution of the equations over the body's predecessors, GEN
      and KILL is the least solution of the body's equations. */
  lemma {:induction false} LeastOfBody(body: Body, preds: map<nat, seq<nat>>, gen: seq<set<InstrId>>, kill: seq<set<InstrId>>,
                                       ins: seq<set<InstrId>>, outs: seq<set<InstrId>>)
    requires WellFormed(body) && |gen| == |body.blocks| && |kill| == |body.blocks|
    requires forall s :: 0 <= s < |body.blocks| ==> PredsAt(preds, s) == PredList(SuccLists(body), s)
    requires forall b :: 0 <= b < |body.blocks| ==>
               gen[b] == GenOf(body.instrs, body.blocks[b]) &&
               kill[b] == KillOf(body.instrs, StoresIn(body.instrs, Flatten(body.blocks)), body.blocks[b])
    requires IsSolution(|body.blocks|, preds, gen, kill, ins, outs) && BelowSolutions(|body.blocks|, preds, gen, kill, ins, outs)
    ensures LeastSolution(body, ins, outs)
  {
    SolutionsAgree(body, preds, gen, kill, ins, outs);
    forall ins2, outs2 | SolvesBody(body, ins2, outs2) ensures Below(ins, ins2) && Below(outs, outs2) {
      SolutionsAgree(body, preds, gen, kill, ins2, outs2);
    }
  }

  /** Every store some block generates is a store of the function. */
  lemma {:induction false} GenWithinStores(body: Body, gen: seq<set<InstrId>>)
    requires |gen| == |body.blocks|
    requires forall c :: 0 <= c < |gen| ==> gen[c] == GenOf(body.instrs, body.blocks[c])
    ensures GenUnion(gen) <= StoresIn(body.instrs, Flatten(body.blocks))
  {
    forall x | x in GenUnion(gen) ensures x in StoresIn(body.instrs, Flatten(body.blocks)) {
      GenUnionMembers(gen, x);
      var c :| 0 <= c < |gen| && x in gen[c];
      GenIsLastStores(body.instrs, body.blocks[c], x);
      var k :| 0 <= k < |body.blocks[c]| && body.blocks[c][k] == x && IsStoreAt(body.instrs, x) &&
               SurvivesFrom(body.instrs, x, body.blocks[c], k + 1);
      FlattenMember(body.blocks, c, k);
    }
  }

  /** In the least solution only stores of the body reach a block. */
  lemma {:induction false} LeastInsAreStores(body: Body, ins: seq<set<InstrId>>, outs: seq<set<InstrId>>)
    requires LeastSolution(body, ins, outs)
    ensures forall b :: 0 <= b < |body.blocks| ==> ins[b] <= StoresIn(body.instrs, Flatten(body.blocks))
  {
    LeastSolutionExists(body);
    var ins2, outs2 :| LeastSolution(body, ins2, outs2) &&
                       forall b :: 0 <= b < |body.blocks| ==> ins2[b] <= StoresIn(body.instrs, Flatten(body.blocks));
    LeastSolutionUnique(body, ins, outs, ins2, outs2);
  }

  /** In the least solution, scanning a block whose instructions are
      distinct from its IN, one `Step` at a time as the rewrite does, ends
      at its OUT. */
  lemma {:induction false} BlockEndIsOut(body: Body, ins: seq<set<InstrId>>, outs: seq<set<InstrId>>, b: nat)
    requires LeastSolution(body, ins, outs) && b < |body.blocks| && NoDup(body.blocks[b])
    ensures Scan(body.instrs, ins[b], body.blocks[b]) == outs[b]
  {
    LeastInsAreStores(body, ins, outs);
    ScanIsTransfer(body.instrs, StoresIn(body.instrs, Flatten(body.blocks)), ins[b], body.blocks[b]);
  }

  /** IN of the least solution of a body's equations. */
  ghost function LeastIns(body: Body): (ins: seq<set<InstrId>>)
    requires WellFormed(body)
    ensures exists outs :: LeastSolution(body, ins, outs)
  {
    LeastSolutionExists(body);
    var ins, outs :| LeastSolution(body, ins, outs);
    ins
  }

  /** Global constant propagation over one function: computes IN by the
      least solution of the reaching-store equations, then rewrites and
      erases block by block.  `changed` tells whether any load was replaced. */
  method ConstantPropagation(f: Function) returns (changed: bool, ghost ins: seq<set<InstrId>>, ghost outs: seq<set<InstrId>>)
    requires WellFormed(f.Snapshot())
    modifies f
    ensures LeastSolution(old(f.Snapshot()), ins, outs)
    ensures f.instrs == PropagateFrom(old(f.instrs), old(f.blocks), ins, 0).0
    ensures f.blocks == PropagateFrom(old(f.instrs), old(f.blocks), ins, 0).1
    ensures changed <==> PropagateFrom(old(f.instrs), old(f.blocks), ins, 0).2 != []
    ensures WellFormed(f.Snapshot()) && |f.blocks| == |old(f.blocks)|
    ensures changed ==> LiveCount(f.blocks) < LiveCount(old(f.blocks))
    ensures !changed ==> f.instrs == old(f.instrs) && f.blocks == old(f.blocks)
  {
    var body := f.Snapshot();
    var n := |f.blocks|;
    var allStores := CollectStores(body);
    var preds := BuildPredecessors(body);
    var gen, kill := ComputeGenKill(body, allStores);
    var inSets, outSets := ComputeInOut(n, preds, gen, kill);
    ins, outs := inSets, outSets;
    SolutionsAgree(body, preds, gen, kill, ins, outs);
    forall ins2, outs2 | SolvesBody(body, ins2, outs2) ensures Below(ins, ins2) && Below(outs, outs2) {
      SolutionsAgree(body, preds, gen, kill, ins2, outs2);
    }
    PropagateFromFacts(body.instrs, body.blocks, ins, 0);
    changed := PropagateBlocks(f, inSets);
  }

  /** The loop invariant of `PropagateBlocks`: what is left to do from
      block `bi` on, after the loads `done` were replaced, ends where the
      whole pass ends. */
  ghost predicate PropagateInv(instrs: seq<Instr>, blocks: seq<seq<InstrId>>, ins: seq<set<InstrId>>, bi: nat,
                               full: (seq<Instr>, seq<seq<InstrId>>, seq<InstrId>), done: seq<InstrId>)
  {
    var rest := PropagateFrom(instrs, blocks, ins, bi);
    rest.0 == full.0 && rest.1 == full.1 && done + rest.2 == full.2
  }

  lemma {:induction false} PropagateBlocksStep(instrs: seq<Instr>, blocks: seq<seq<InstrId>>, ins: seq<set<InstrId>>,
                                               bi: nat, full: (seq<Instr>, seq<seq<InstrId>>, seq<InstrId>), done: seq<InstrId>)
    requires WellFormed(Body(instrs, blocks)) && bi < |blocks|
    requires PropagateInv(instrs, blocks, ins, bi, full, done)
    ensures var r := RewriteFrom(instrs, InAt(ins, bi), blocks[bi]);
            var blocks' := blocks[bi := Without(blocks[bi], r.1)];
            WellFormed(Body(r.0, blocks')) && PropagateInv(r.0, blocks', ins, bi + 1, full, done + r.1)
  {
    var r := RewriteFrom(instrs, InAt(ins, bi), blocks[bi]);
    var rest := PropagateFrom(r.0, blocks[bi := Without(blocks[bi], r.1)], ins, bi + 1);
    PropagateFromStep(instrs, blocks, ins, bi);
    BlockStepFacts(instrs, blocks, InAt(ins, bi), bi);
    assert done + (r.1 + rest.2) == (done + r.1) + rest.2;
  }

  /** The rewrite phase: each block from its IN, in block order, erasing
      its replaced loads right after it. */
  method PropagateBlocks(f: Function, ins: seq<set<InstrId>>) returns (changed: bool)
    requires WellFormed(f.Snapshot())
    modifies f
    ensures f.instrs == PropagateFrom(old(f.instrs), old(f.blocks), ins, 0).0
    ensures f.blocks == PropagateFrom(old(f.instrs), old(f.blocks), ins, 0).1
    ensures changed <==> PropagateFrom(old(f.instrs), old(f.blocks), ins, 0).2 != []
  {
    ghost var full := PropagateFrom(f.instrs, f.blocks, ins, 0);
    ghost var done: seq<InstrId> := [];
    changed := false;
    for bi := 0 to |f.blocks|
      invariant |f.blocks| == |old(f.blocks)| && WellFormed(f.Snapshot())
      invariant PropagateInv(f.instrs, f.blocks, ins, bi, full, done)
      invariant changed <==> done != []
    {
      PropagateBlocksStep(f.instrs, f.blocks, ins, bi, full, done);
      var replaced := PropagateBlock(f, bi, InAt(ins, bi));
      EraseFromBlock(f, bi, replaced);
      done := done + replaced;
      changed := changed || replaced != [];
    }
  }
}
