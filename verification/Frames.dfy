/** How the names of a running function sit in its stack frame. */
module Frames {
  import opened KoalaBear
  import opened Machine
  import opened Ir
  import opened SimpleLang
  import opened CompilerSpec

  /** All visible names with their offsets. */
  function Slots(s: Scopes): map<Var, nat> {
    match s
    case Outermost(vars) => vars
    case Nested(vars, outer) => Slots(outer) + vars
  }

  lemma {:induction false} SlotsAreOffsets(s: Scopes, x: Var)
    ensures InScope(s, x) <==> x in Slots(s)
    ensures InScope(s, x) ==> Offset(s, x) == Slots(s)[x]
    decreases s
  {
    if s.Nested? { SlotsAreOffsets(s.outer, x); }
  }

  lemma SlotsOfDeclare(st: CState, x: Var)
    ensures Slots(Declare(st, x).scopes) == Slots(st.scopes)[x := st.stackPos]
  {
  }

  lemma SlotsOfPush(s: Scopes)
    ensures Slots(Push(s)) == Slots(s)
  {
  }

  /** The part of a frame layout that stays fixed while a block runs; the block may use the offsets below `size`. */
  datatype Activation = Activation(c: Context, homes: map<Var, nat>, free: set<nat>, size: nat)

  /** Visible names have their own cells between the header and stackPos, away from the free return slots. */
  ghost predicate Fits(a: Activation, slots: map<Var, nat>, pos: nat, scope: set<Var>) {
    && slots.Keys == scope + a.c.coalesced
    && (forall x :: x in slots ==> 2 <= slots[x] < pos && slots[x] !in a.free)
    && (forall x, y :: x in slots && y in slots && slots[x] == slots[y] ==> x == y)
    && (forall x :: x in a.homes ==> x in slots && slots[x] == a.homes[x])
    && (forall o :: o in a.free ==> o < pos)
    && a.homes.Keys == a.c.coalesced
    && a.c.coalesced !! a.c.dead
    && (forall x :: x in a.c.coalesced ==> x.Name?)
  }

  /** Cells that must still be unwritten: free return slots, temporaries to come, everything from ap on. */
  predicate Vacant(a: Activation, pos: nat, fp: nat, ap: nat, address: nat) {
    address >= ap || fp + pos <= address < fp + a.size || (fp <= address && address - fp in a.free)
  }

  /** A visible name has a value exactly if its cell is written, and then they agree. */
  ghost predicate Holding(a: Activation, slots: map<Var, nat>, pos: nat, env: Env, fp: nat, ap: nat, mem: Memory) {
    && fp < MEMORY_LIMIT && fp + a.size <= ap < P
    && (a.c.isMain || (fp in mem && fp + 1 in mem))
    && (forall x :: x in slots && x in env ==> fp + slots[x] in mem && mem[fp + slots[x]] == env[x])
    && (forall x :: x in slots && x !in env ==> fp + slots[x] !in mem)
    && (forall address :: address in mem ==> !Vacant(a, pos, fp, ap, address))
  }

  lemma HoldingBounds(a: Activation, slots: map<Var, nat>, pos: nat, env: Env, fp: nat, ap: nat, mem: Memory)
    requires Holding(a, slots, pos, env, fp, ap, mem)
    ensures fp < MEMORY_LIMIT && fp < P && fp + a.size <= ap < P
  {
  }

  /** Nothing written is lost, and new values go to the first `top` cells of the frame or to memory that was free. */
  ghost predicate Kept(fp: nat, top: nat, ap: nat, mem: Memory, mem': Memory) {
    && (forall address :: address in mem ==> address in mem' && mem'[address] == mem[address])
    && (forall address :: address in mem' ==> address in mem || fp <= address < fp + top || ap <= address)
  }

  lemma KeptReflexive(fp: nat, top: nat, ap: nat, mem: Memory)
    ensures Kept(fp, top, ap, mem, mem)
  {
  }

  lemma ValueReads(a: Activation, s: Scopes, pos: nat, l: Local, o: Operand, L: Layout, fp: nat, ap: nat, mem: Memory)
    requires Fits(a, Slots(s), pos, l.scope) && pos <= a.size
    requires Holding(a, Slots(s), pos, l.env, fp, ap, mem)
    requires o.Variable? ==> o.name in l.scope
    ensures Plain(ValueOf(o, s)) && ReadValue(ValueOf(o, s), L, mem, fp) == Lookup(o, l.scope, l.env)
    ensures o.Variable? ==> o.name in Slots(s) && ValueOf(o, s) == Mem(Slots(s)[o.name])
  {
    hide Fits, Holding, Slots;
    if o.Variable? {
      HoldingBounds(a, Slots(s), pos, l.env, fp, ap, mem);
      VisibleCell(a, Slots(s), pos, l.scope, l.env, o.name, fp, ap, mem);
      SlotsAreOffsets(s, o.name);
    }
  }

  lemma VisibleCell(a: Activation, slots: map<Var, nat>, pos: nat, scope: set<Var>, env: Env, x: Var, fp: nat, ap: nat,
      mem: Memory)
    requires Fits(a, slots, pos, scope) && Holding(a, slots, pos, env, fp, ap, mem) && x in scope
    ensures x in slots && slots[x] < pos && (fp + slots[x] in mem <==> x in env)
        && (x in env ==> mem[fp + slots[x]] == env[x])
  {
    assert x in slots.Keys;
  }

  /** A first value for a visible name goes to the name's own cell. */
  lemma BindCell(a: Activation, slots: map<Var, nat>, pos: nat, l: Local, x: Var, v: F, fp: nat, ap: nat, mem: Memory)
    requires Fits(a, slots, pos, l.scope) && pos <= a.size
    requires Holding(a, slots, pos, l.env, fp, ap, mem)
    requires x in slots && x !in l.env
    ensures match Set(mem, fp + slots[x], v)
            case Stored(mem') => Holding(a, slots, pos, l.env[x := v], fp, ap, mem') && Kept(fp, a.size, ap, mem, mem')
            case Refused(error) => error == OutOfMemory && ap > MEMORY_LIMIT
  {
  }

  /** A temporary takes the next offset. */
  lemma TemporaryCell(a: Activation, slots: map<Var, nat>, pos: nat, l: Local, v: F, fp: nat, ap: nat, mem: Memory)
    requires Fits(a, slots, pos, l.scope) && pos < a.size
    requires Holding(a, slots, pos, l.env, fp, ap, mem)
    ensures match Set(mem, fp + pos, v)
            case Stored(mem') => mem' == mem[fp + pos := v] && Holding(a, slots, pos + 1, l.env, fp, ap, mem')
                && Kept(fp, a.size, ap, mem, mem')
            case Refused(error) => error == OutOfMemory && ap > MEMORY_LIMIT
  {
    assert Vacant(a, pos, fp, ap, fp + pos);
  }

  lemma HoldingLater(a: Activation, slots: map<Var, nat>, pos: nat, slots': map<Var, nat>, pos': nat, env: Env, fp: nat,
      ap: nat, mem: Memory)
    requires Holding(a, slots', pos, env, fp, ap, mem) && pos <= pos' && Grown(slots, slots')
    ensures Holding(a, slots, pos', env, fp, ap, mem)
  {
    forall address | address in mem ensures !Vacant(a, pos', fp, ap, address) {
      assert !Vacant(a, pos, fp, ap, address);
    }
  }

  lemma DeclareHolds(a: Activation, slots: map<Var, nat>, pos: nat, x: Var, env: Env, fp: nat, ap: nat, mem: Memory)
    requires Holding(a, slots, pos, env, fp, ap, mem) && pos < a.size
    requires x !in slots
    ensures Holding(a, slots[x := pos], pos + 1, env - {x}, fp, ap, mem)
  {
    assert Vacant(a, pos, fp, ap, fp + pos);
    HoldingLater(a, slots, pos, slots, pos + 1, env, fp, ap, mem);
  }

  lemma FitsLater(a: Activation, slots: map<Var, nat>, pos: nat, pos': nat, scope: set<Var>)
    requires Fits(a, slots, pos, scope) && pos <= pos'
    ensures Fits(a, slots, pos', scope)
  {
  }

  lemma KeptTransitive(fp: nat, top: nat, ap: nat, ap1: nat, m0: Memory, m1: Memory, m2: Memory)
    requires Kept(fp, top, ap, m0, m1) && Kept(fp, top, ap1, m1, m2) && ap <= ap1
    ensures Kept(fp, top, ap, m0, m2)
  {
  }

  lemma ReadKept(v: Value, L: Layout, fp: nat, base: nat, top: nat, ap: nat, mem: Memory, mem': Memory)
    requires Kept(base, top, ap, mem, mem') && ReadValue(v, L, mem, fp).Some?
    ensures ReadValue(v, L, mem', fp) == ReadValue(v, L, mem, fp)
  {
  }

  lemma DeclareFits(a: Activation, slots: map<Var, nat>, pos: nat, x: Var, scope: set<Var>)
    requires Fits(a, slots, pos, scope) && pos >= 2
    requires x !in slots
    ensures Fits(a, slots[x := pos], pos + 1, scope + {x})
  {
    assert slots[x := pos].Keys == slots.Keys + {x};
  }

  lemma CoalescedFits(a: Activation, slots: map<Var, nat>, pos: nat, x: Var, scope: set<Var>)
    requires Fits(a, slots, pos, scope) && (x in slots || x in scope || x in a.c.coalesced)
    ensures x in slots && Fits(a, slots, pos, scope + {x})
  {
    assert x in slots.Keys;
  }

  lemma SlotsOfAllocate(st: CState, id: nat, size: nat)
    ensures Slots(Allocate(st, id, size).scopes) == Slots(st.scopes) + PlaceCells(id, size, st.stackPos)
  {
  }

  lemma CellsAreNew(a: Activation, slots: map<Var, nat>, pos: nat, scope: set<Var>, id: nat, size: nat)
    requires Fits(a, slots, pos, scope) && CellsOf(id, size) !! scope
    ensures CellsOf(id, size) !! slots.Keys && PlaceCells(id, size, pos).Keys == CellsOf(id, size)
  {
  }

  lemma AllocateFits(a: Activation, slots: map<Var, nat>, pos: nat, scope: set<Var>, id: nat, size: nat)
    requires Fits(a, slots, pos, scope) && 2 <= pos && CellsOf(id, size) !! scope
    ensures Fits(a, slots + PlaceCells(id, size, pos), pos + size, scope + CellsOf(id, size))
  {
    CellsAreNew(a, slots, pos, scope, id, size);
    var cells := PlaceCells(id, size, pos);
    assert (slots + cells).Keys == slots.Keys + cells.Keys;
  }

  lemma AllocateHolds(a: Activation, slots: map<Var, nat>, pos: nat, env: Env, id: nat, size: nat, fp: nat, ap: nat,
      mem: Memory)
    requires Holding(a, slots, pos, env, fp, ap, mem) && pos + size <= a.size && CellsOf(id, size) !! env.Keys
    ensures Holding(a, slots + PlaceCells(id, size, pos), pos + size, env, fp, ap, mem)
    ensures forall k {:trigger Cell(id, k)} :: 0 <= k < size ==> fp + pos + k !in mem
  {
    forall k {:trigger Cell(id, k)} | 0 <= k < size ensures fp + (pos + k) !in mem && Cell(id, k) !in env {
      assert Vacant(a, pos, fp, ap, fp + (pos + k));
      assert Cell(id, k) in CellsOf(id, size);
    }
    HoldingLater(a, slots, pos, slots, pos + size, env, fp, ap, mem);
  }

  /**
   * The cells of an array lie one after another, above every visible name and below every offset handed out later, in
   * none of the free return slots, and have no value yet.
   */
  lemma ArrayCells(a: Activation, st: CState, id: nat, size: nat, l: Local, fp: nat, ap: nat, mem: Memory)
    requires Fits(a, Slots(st.scopes), st.stackPos, l.scope) && 2 <= st.stackPos && st.stackPos + size <= a.size
    requires Holding(a, Slots(st.scopes), st.stackPos, l.env, fp, ap, mem) && CellsOf(id, size) !! l.scope + l.env.Keys
    ensures var slots, st' := Slots(st.scopes), Allocate(st, id, size);
            && Fits(a, Slots(st'.scopes), st'.stackPos, l.scope + CellsOf(id, size))
            && Holding(a, Slots(st'.scopes), st'.stackPos, l.env, fp, ap, mem) && Grown(slots, Slots(st'.scopes))
            && (forall x :: x in slots ==> slots[x] < st.stackPos)
            && (forall k {:trigger Cell(id, k)} :: 0 <= k < size ==>
                  && Cell(id, k) in Slots(st'.scopes)
                  && Slots(st'.scopes)[Cell(id, k)] == st.stackPos + k < st'.stackPos
                  && st.stackPos + k !in a.free && fp + st.stackPos + k !in mem)
  {
    hide Fits, Holding, CellsOf, Slots;
    SlotsOfAllocate(st, id, size);
    CellsAreNew(a, Slots(st.scopes), st.stackPos, l.scope, id, size);
    AllocateFits(a, Slots(st.scopes), st.stackPos, l.scope, id, size);
    AllocateHolds(a, Slots(st.scopes), st.stackPos, l.env, id, size, fp, ap, mem);
    AllBelow(a, Slots(st.scopes), st.stackPos, l.scope);
    GrowsByCells(Slots(st.scopes), PlaceCells(id, size, st.stackPos));
    forall k {:trigger Cell(id, k)} | 0 <= k < size
      ensures Cell(id, k) in Slots(Allocate(st, id, size).scopes)
      ensures Slots(Allocate(st, id, size).scopes)[Cell(id, k)] == st.stackPos + k && st.stackPos + k !in a.free
    {
      PlacedCell(Slots(st.scopes), id, size, st.stackPos, k);
    }
  }

  lemma PlacedCell(slots: map<Var, nat>, id: nat, size: nat, pos: nat, k: nat)
    requires k < size
    ensures var all := slots + PlaceCells(id, size, pos); Cell(id, k) in all && all[Cell(id, k)] == pos + k
  {
  }

  lemma AllBelow(a: Activation, slots: map<Var, nat>, pos: nat, scope: set<Var>)
    requires Fits(a, slots, pos, scope)
    ensures (forall x :: x in slots ==> slots[x] < pos) && forall o :: o in a.free ==> o < pos
  {
  }

  lemma GrowsByCells(slots: map<Var, nat>, cells: map<Var, nat>)
    requires cells.Keys !! slots.Keys
    ensures Grown(slots, slots + cells)
  {
  }

  ghost predicate Grown(slots: map<Var, nat>, slots': map<Var, nat>) {
    forall x :: x in slots ==> x in slots' && slots'[x] == slots[x]
  }

  lemma SlotsOfRegister(st: CState, x: Var)
    requires x.Name? || x in Slots(st.scopes)
    ensures var st1 := RegisterIfNeeded(st, Variable(x));
            if x in Slots(st.scopes) then st1 == st
            else st1 == Declare(st, x) && Slots(st1.scopes) == Slots(st.scopes)[x := st.stackPos]
  {
    SlotsAreOffsets(st.scopes, x);
    SlotsOfDeclare(st, x);
  }

  lemma IntroduceKnown(a: Activation, slots: map<Var, nat>, pos: nat, l: Local, x: Var, fp: nat, ap: nat, mem: Memory)
    requires Fits(a, slots, pos, l.scope) && x in slots
    requires Holding(a, slots, pos, l.env, fp, ap, mem)
    requires Introduce(l, Variable(x), a.c.dead).Some?
    ensures var l1 := Introduce(l, Variable(x), a.c.dead).value;
            Fits(a, slots, pos, l1.scope) && Holding(a, slots, pos, l1.env, fp, ap, mem) && l1.scope == l.scope + {x}
  {
    CoalescedFits(a, slots, pos, x, l.scope);
    if x in l.scope {
      assert l.scope + {x} == l.scope;
    } else {
      assert x in slots.Keys;
      assert l.env - {x} == l.env by { assert x !in a.c.dead; }
    }
  }

  lemma IntroduceNew(a: Activation, slots: map<Var, nat>, pos: nat, l: Local, x: Var, fp: nat, ap: nat, mem: Memory)
    requires Fits(a, slots, pos, l.scope) && x !in slots && 2 <= pos < a.size
    requires Holding(a, slots, pos, l.env, fp, ap, mem)
    requires Introduce(l, Variable(x), a.c.dead).Some?
    ensures var l1 := Introduce(l, Variable(x), a.c.dead).value;
            Fits(a, slots[x := pos], pos + 1, l1.scope) && Holding(a, slots[x := pos], pos + 1, l1.env, fp, ap, mem)
                && l1.scope == l.scope + {x}
  {
    DeclareHolds(a, slots, pos, x, l.env, fp, ap, mem);
    DeclareFits(a, slots, pos, x, l.scope);
    assert x !in slots.Keys;
    assert x !in l.scope;
  }

  /** A name brought into scope gets the next offset unless it is at home in a return slot. */
  lemma IntroduceFits(a: Activation, st: CState, l: Local, o: Operand, fp: nat, ap: nat, mem: Memory)
    requires Fits(a, Slots(st.scopes), st.stackPos, l.scope) && 2 <= st.stackPos <= a.size
    requires Holding(a, Slots(st.scopes), st.stackPos, l.env, fp, ap, mem)
    requires Introduce(l, o, a.c.dead).Some? && RegisterIfNeeded(st, o).stackPos <= a.size
    ensures var st1, l1 := RegisterIfNeeded(st, o), Introduce(l, o, a.c.dead).value;
            && Fits(a, Slots(st1.scopes), st1.stackPos, l1.scope)
            && Holding(a, Slots(st1.scopes), st1.stackPos, l1.env, fp, ap, mem)
            && Grown(Slots(st.scopes), Slots(st1.scopes)) && st.stackPos <= st1.stackPos
            && l1.scope == l.scope + Named(o)
  {
    hide Fits, Holding;
    if o.Variable? {
      var x, slots := o.name, Slots(st.scopes);
      if x.Cell? { CoalescedFits(a, slots, st.stackPos, x, l.scope); }
      SlotsOfRegister(st, x);
      if x in slots {
        IntroduceKnown(a, slots, st.stackPos, l, x, fp, ap, mem);
      } else {
        IntroduceNew(a, slots, st.stackPos, l, x, fp, ap, mem);
      }
    }
  }

  /**
   * After a call the names of the caller are where they were: only a temporary and memory that was free were written.
   */
  lemma HoldingAcrossCall(a: Activation, slots: map<Var, nat>, pos: nat, l: Local, fp: nat, ap: nat, mem: Memory,
      ap': nat, mem': Memory)
    requires Fits(a, slots, pos, l.scope) && pos < a.size && Holding(a, slots, pos, l.env, fp, ap, mem) && ap <= ap' < P
    requires forall address :: address in mem ==> address in mem' && mem'[address] == mem[address]
    requires forall address :: address in mem' ==>
        address < ap' && (address in mem || address == fp + pos || ap <= address)
    ensures Holding(a, slots, pos + 1, l.env, fp, ap', mem')
  {
    forall address | address in mem' ensures !Vacant(a, pos + 1, fp, ap', address) {
      if address in mem { assert !Vacant(a, pos, fp, ap, address); }
    }
    forall x | x in slots && x !in l.env ensures fp + slots[x] !in mem' {
      assert fp + slots[x] < ap;
    }
  }

  /** Names brought into scope together, as the targets of a call are. */
  lemma {:induction false} IntroduceAllFits(a: Activation, st: CState, l: Local, xs: seq<Var>, fp: nat, ap: nat,
      mem: Memory)
    requires Fits(a, Slots(st.scopes), st.stackPos, l.scope) && 2 <= st.stackPos
    requires Holding(a, Slots(st.scopes), st.stackPos, l.env, fp, ap, mem)
    requires IntroduceAll(l, xs, a.c.dead).Some? && RegisterAll(st, xs).stackPos <= a.size
    ensures var st1, l1 := RegisterAll(st, xs), IntroduceAll(l, xs, a.c.dead).value;
            && Fits(a, Slots(st1.scopes), st1.stackPos, l1.scope) && st.stackPos <= st1.stackPos
            && Holding(a, Slots(st1.scopes), st1.stackPos, l1.env, fp, ap, mem)
            && Grown(Slots(st.scopes), Slots(st1.scopes)) && l.scope <= l1.scope
            && (forall x :: x in xs ==> x in l1.scope)
    decreases |xs|
  {
    hide Fits, Holding;
    if xs != [] {
      var st0, l0 := RegisterIfNeeded(st, Variable(xs[0])), Introduce(l, Variable(xs[0]), a.c.dead).value;
      RegisterAllGrows(st0, xs[1..]);
      IntroduceFits(a, st, l, Variable(xs[0]), fp, ap, mem);
      IntroduceAllFits(a, st0, l0, xs[1..], fp, ap, mem);
      forall x | x in xs ensures x in IntroduceAll(l, xs, a.c.dead).value.scope {
        if x != xs[0] { assert x in xs[1..]; }
      }
    }
  }

  lemma RegisterAllGrows(st: CState, xs: seq<Var>)
    ensures st.stackPos <= RegisterAll(st, xs).stackPos
    decreases |xs|
  {
  }
}
