/** The final layout: labelled blocks and match arms become one sequence of machine instructions with hints. */
module Assembly {
  import opened Wrappers
  import opened Machine
  import opened Ir

  datatype IrProgram = IrProgram(bytecode: map<Label, seq<Instr>>, matchBlocks: seq<seq<seq<Instr>>>,
      sizes: map<string, nat>)

  const MIN_BYTECODE_SIZE: nat := 256

  /** The entries a block turns into; `pending` are the hints waiting for its first real instruction. */
  function Flatten(L: Layout, block: seq<Instr>, pending: seq<Hint>): seq<Entry>
    decreases |block|
  {
    if block == [] then []
    else if IsHint(block[0]) then Flatten(L, block[1..], pending + [LowerHint(block[0], L)])
    else [Entry(pending, Lower(block[0], L))] + Flatten(L, block[1..], [])
  }

  /** No hint is left without an instruction to run before. */
  predicate EndsReal(block: seq<Instr>) {
    block == [] || !IsHint(block[|block| - 1])
  }

  /** A block emits exactly as many instructions as it counts. */
  lemma {:induction false} FlattenCounts(L: Layout, block: seq<Instr>, pending: seq<Hint>)
    ensures |Flatten(L, block, pending)| == CountReal(block)
    decreases |block|
  {
    if block != [] {
      FlattenCounts(L, block[1..], if IsHint(block[0]) then pending + [LowerHint(block[0], L)] else []);
    }
  }

  lemma {:induction false} FlattenStarts(L: Layout, block: seq<Instr>, pending: seq<Hint>)
    requires block != [] && EndsReal(block)
    ensures var e := Flatten(L, block, pending); e != [] && pending <= e[0].hints
    decreases |block|
  {
    if IsHint(block[0]) {
      FlattenStarts(L, block[1..], pending + [LowerHint(block[0], L)]);
    }
  }

  predicate Occupies(code: seq<Entry>, pc: nat, piece: seq<Entry>) {
    pc + |piece| <= |code| && forall t {:trigger piece[t]} :: 0 <= t < |piece| ==> code[pc + t] == piece[t]
  }

  lemma OccupiesTail(code: seq<Entry>, pc: nat, first: Entry, rest: seq<Entry>)
    requires Occupies(code, pc, [first] + rest)
    ensures pc < |code| && code[pc] == first && Occupies(code, pc + 1, rest)
  {
    var piece := [first] + rest;
    assert piece[0] == first;
    forall t {:trigger rest[t]} | 0 <= t < |rest| ensures code[pc + 1 + t] == rest[t] {
      assert piece[t + 1] == rest[t];
    }
  }

  /** Entries in sequence are the block in place. */
  lemma {:induction false} FlattenPlaces(code: seq<Entry>, L: Layout, block: seq<Instr>, pending: seq<Hint>, pc: nat)
    requires pc > 0 && EndsReal(block) && Occupies(code, pc, Flatten(L, block, pending))
    ensures Placed(code, L, block, pc, |pending|)
    decreases |block|
  {
    if block != [] {
      FlattenStarts(L, block, pending);
      OccupiesTail(code, pc, Flatten(L, block, pending)[0], Flatten(L, block, pending)[1..]);
      assert Flatten(L, block, pending) == [Flatten(L, block, pending)[0]] + Flatten(L, block, pending)[1..];
      if IsHint(block[0]) {
        var more := pending + [LowerHint(block[0], L)];
        FlattenStarts(L, block[1..], more);
        assert Flatten(L, block, pending) == Flatten(L, block[1..], more);
        FlattenPlaces(code, L, block[1..], more, pc);
      } else {
        var e := Entry(pending, Lower(block[0], L));
        OccupiesTail(code, pc, e, Flatten(L, block[1..], []));
        FlattenPlaces(code, L, block[1..], [], pc + 1);
      }
    }
  }

  // -- Emitting ---------------------------------------------------------------------------------

  function HintsAt(hints: map<nat, seq<Hint>>, pc: nat): seq<Hint> {
    if pc in hints then hints[pc] else []
  }

  /** Instructions with the hints recorded for their pcs. */
  function Entries(instructions: seq<Instruction>, hints: map<nat, seq<Hint>>): (r: seq<Entry>)
    ensures |r| == |instructions|
  {
    seq(|instructions|, i requires 0 <= i < |instructions| => Entry(HintsAt(hints, i), instructions[i]))
  }

  /** Appends a block: hints are filed under the pc of the instruction that follows them. */
  method CompileBlock(L: Layout, block: seq<Instr>, pcStart: nat, instructions: seq<Instruction>,
      hints: map<nat, seq<Hint>>)
    returns (instructions': seq<Instruction>, hints': map<nat, seq<Hint>>)
    requires pcStart == |instructions| && EndsReal(block) && forall p :: p in hints ==> p < pcStart
    ensures Entries(instructions', hints') == Entries(instructions, hints) + Flatten(L, block, [])
    ensures forall p :: p in hints' ==> p < |instructions'|
  {
    instructions', hints' := instructions, hints;
    var pc, i := pcStart, 0;
    while i < |block|
      invariant 0 <= i <= |block| && pc == |instructions'|
      invariant forall p :: p in hints' ==> p <= pc
      invariant pc in hints' ==> i > 0 && IsHint(block[i - 1])
      invariant Entries(instructions', hints') + Flatten(L, block[i..], HintsAt(hints', pc))
          == Entries(instructions, hints) + Flatten(L, block, [])
    {
      assert block[i..][1..] == block[i + 1..];
      ghost var before, pending := Entries(instructions', hints'), HintsAt(hints', pc);
      if IsHint(block[i]) {
        hints' := hints'[pc := HintsAt(hints', pc) + [LowerHint(block[i], L)]];
        assert Entries(instructions', hints') == before;
      } else {
        instructions' := instructions' + [Lower(block[i], L)];
        assert Entries(instructions', hints') == before + [Entry(pending, Lower(block[i], L))];
        pc := pc + 1;
      }
      i := i + 1;
    }
    assert block[i..] == [];
  }

  // -- Laying out -------------------------------------------------------------------------------

  type CodeBlock = (nat, seq<Instr>)

  function Total(blocks: seq<CodeBlock>): nat {
    if blocks == [] then 0 else Total(blocks[..|blocks| - 1]) + CountReal(blocks[|blocks| - 1].1)
  }

  /** Every block begins where the ones before it end, and none ends in a hint. */
  predicate Contiguous(blocks: seq<CodeBlock>) {
    forall j {:trigger blocks[j]} :: 0 <= j < |blocks| ==> blocks[j].0 == Total(blocks[..j]) && EndsReal(blocks[j].1)
  }

  lemma ContiguousAppend(blocks: seq<CodeBlock>, b: CodeBlock)
    requires Contiguous(blocks) && b.0 == Total(blocks) && EndsReal(b.1)
    ensures Contiguous(blocks + [b]) && Total(blocks + [b]) == b.0 + CountReal(b.1)
  {
    var all := blocks + [b];
    assert all[..|all| - 1] == blocks;
    forall j | 0 <= j < |all| ensures all[j].0 == Total(all[..j]) && EndsReal(all[j].1) {
      assert all[..j] == blocks[..j];
      if j < |blocks| { assert blocks[j] == all[j]; }
    }
  }

  lemma {:induction false} CountAppend(xs: seq<Instr>, ys: seq<Instr>)
    ensures CountReal(xs + ys) == CountReal(xs) + CountReal(ys)
  {
    if xs == [] {
      assert xs + ys == ys;
    } else {
      CountAppend(xs[1..], ys);
      assert (xs + ys)[1..] == xs[1..] + ys;
    }
  }

  /** An arm filled up with unreachable instructions to the size of the largest arm. */
  function Padded(block: seq<Instr>, size: nat): (r: seq<Instr>)
    requires CountReal(block) <= size
    ensures block <= r && forall i :: |block| <= i < |r| ==> r[i] == Instr.Panic
  {
    block + Panics(size - CountReal(block))
  }

  function Panics(n: nat): (r: seq<Instr>)
    ensures CountReal(r) == n && EndsReal(r) && forall i :: 0 <= i < |r| ==> r[i] == Instr.Panic
  {
    if n == 0 then [] else
      assert ([Instr.Panic] + Panics(n - 1))[1..] == Panics(n - 1);
      [Instr.Panic] + Panics(n - 1)
  }

  lemma PaddedCounts(block: seq<Instr>, size: nat)
    requires CountReal(block) <= size && EndsReal(block)
    ensures CountReal(Padded(block, size)) == size && EndsReal(Padded(block, size))
  {
    CountAppend(block, Panics(size - CountReal(block)));
  }

  /** The count of real instructions of the largest arm. */
  predicate IsLargest(size: nat, cases: seq<seq<Instr>>) {
    && (exists k :: 0 <= k < |cases| && CountReal(cases[k]) == size)
    && (forall k :: 0 <= k < |cases| ==> CountReal(cases[k]) <= size)
  }

  method MaxBlockSize(cases: seq<seq<Instr>>) returns (size: nat)
    requires cases != []
    ensures IsLargest(size, cases)
  {
    size := CountReal(cases[0]);
    var i := 1;
    while i < |cases|
      invariant 1 <= i <= |cases|
      invariant exists k :: 0 <= k < i && CountReal(cases[k]) == size
      invariant forall k :: 0 <= k < i ==> CountReal(cases[k]) <= size
    {
      if CountReal(cases[i]) > size { size := CountReal(cases[i]); }
      i := i + 1;
    }
  }

  /** The blocks without their pcs. */
  function Contents(blocks: seq<CodeBlock>): (r: seq<seq<Instr>>)
    ensures |r| == |blocks|
  {
    seq(|blocks|, j requires 0 <= j < |blocks| => blocks[j].1)
  }

  lemma ContentsAppend(blocks: seq<CodeBlock>, pc: nat, block: seq<Instr>)
    ensures Contents(blocks + [(pc, block)]) == Contents(blocks) + [block]
  {
  }

  /** The first n arms, filled up. */
  function PaddedArms(cases: seq<seq<Instr>>, size: nat, n: nat): (r: seq<seq<Instr>>)
    requires n <= |cases| && forall k :: 0 <= k < |cases| ==> CountReal(cases[k]) <= size
    ensures |r| == n
  {
    seq(n, k requires 0 <= k < n => Padded(cases[k], size))
  }

  lemma NextPaddedArm(cases: seq<seq<Instr>>, size: nat, n: nat, before: seq<seq<Instr>>)
    requires n < |cases| && forall k :: 0 <= k < |cases| ==> CountReal(cases[k]) <= size
    ensures (before + PaddedArms(cases, size, n)) + [Padded(cases[n], size)] == before + PaddedArms(cases, size, n + 1)
  {
  }

  predicate Filed(blocks: seq<CodeBlock>, pc: nat, block: seq<Instr>) {
    pc > 0 && (pc, block) in blocks
  }

  function ArmAddress(start: nat, k: nat, size: nat): nat { start + k * size }

  lemma NextArm(start: nat, k: nat, size: nat)
    ensures ArmAddress(start, k + 1, size) == ArmAddress(start, k, size) + size
    ensures ArmAddress(start, 0, size) == start
  {
  }

  predicate ArmsFiled(blocks: seq<CodeBlock>, cases: seq<seq<Instr>>, n: nat, start: nat, size: nat) {
    n <= |cases| && forall k {:trigger cases[k]} :: 0 <= k < n ==>
        CountReal(cases[k]) <= size && Filed(blocks, ArmAddress(start, k, size), Padded(cases[k], size))
  }

  lemma NoArmsFiled(blocks: seq<CodeBlock>, cases: seq<seq<Instr>>, start: nat, size: nat)
    ensures ArmsFiled(blocks, cases, 0, start, size)
  {
  }

  lemma NextArmFiled(blocks: seq<CodeBlock>, cases: seq<seq<Instr>>, n: nat, start: nat, size: nat)
    requires ArmsFiled(blocks, cases, n, start, size) && n < |cases| && CountReal(cases[n]) <= size && start > 0
    ensures ArmsFiled(blocks + [(ArmAddress(start, n, size), Padded(cases[n], size))], cases, n + 1, start, size)
  {
    var b := (ArmAddress(start, n, size), Padded(cases[n], size));
    var more := blocks + [b];
    assert more[|blocks|] == b;
    forall k {:trigger cases[k]} | 0 <= k < n + 1
        ensures CountReal(cases[k]) <= size && Filed(more, ArmAddress(start, k, size), Padded(cases[k], size)) {
      if k < n { assert Filed(blocks, ArmAddress(start, k, size), Padded(cases[k], size)); }
    }
  }

  /** The arms of one match, one after the other, each as long as the longest. */
  method PlaceArms(cases: seq<seq<Instr>>, size: nat, blocks: seq<CodeBlock>, start: nat)
    returns (blocks': seq<CodeBlock>, pc: nat)
    requires start > 0 && Contiguous(blocks) && start == Total(blocks)
    requires forall k :: 0 <= k < |cases| ==> EndsReal(cases[k]) && CountReal(cases[k]) <= size
    ensures Contiguous(blocks') && pc == Total(blocks') && blocks <= blocks' && pc >= start
    ensures ArmsFiled(blocks', cases, |cases|, start, size)
    ensures Contents(blocks') == Contents(blocks) + PaddedArms(cases, size, |cases|)
  {
    hide ArmsFiled, ArmAddress, Total, Contiguous, CountReal, Padded, Contents, PaddedArms;
    assert Contents(blocks) + PaddedArms(cases, size, 0) == Contents(blocks);
    blocks', pc := blocks, start;
    var k := 0;
    NextArm(start, 0, size);
    NoArmsFiled(blocks, cases, start, size);
    while k < |cases|
      invariant 0 <= k <= |cases| && start <= pc == ArmAddress(start, k, size)
      invariant Contiguous(blocks') && pc == Total(blocks') && blocks <= blocks'
      invariant ArmsFiled(blocks', cases, k, start, size)
      invariant Contents(blocks') == Contents(blocks) + PaddedArms(cases, size, k)
    {
      var block := Padded(cases[k], size);
      PaddedCounts(cases[k], size);
      ContiguousAppend(blocks', (pc, block));
      NextArmFiled(blocks', cases, k, start, size);
      NextArm(start, k, size);
      ContentsAppend(blocks', pc, block);
      NextPaddedArm(cases, size, k, Contents(blocks));
      blocks' := blocks' + [(pc, block)];
      pc := pc + size;
      k := k + 1;
    }
  }

  /** Blocks under the labels of `order`, in that order. */
  predicate LabelsFiled(blocks: seq<CodeBlock>, bytecode: map<Label, seq<Instr>>, order: seq<Label>, n: nat,
      pcs: map<Label, nat>)
  {
    n <= |order| && forall j {:trigger order[j]} :: 0 <= j < n && order[j] in bytecode ==>
        order[j] in pcs && Filed(blocks, pcs[order[j]], bytecode[order[j]])
  }

  lemma NextLabelFiled(blocks: seq<CodeBlock>, bytecode: map<Label, seq<Instr>>, order: seq<Label>, n: nat,
      pcs: map<Label, nat>, pc: nat)
    requires LabelsFiled(blocks, bytecode, order, n, pcs) && n < |order| && order[n] in bytecode
        && order[n] !in order[..n] && pc > 0
    ensures LabelsFiled(blocks + [(pc, bytecode[order[n]])], bytecode, order, n + 1, pcs[order[n] := pc])
  {
    var more := blocks + [(pc, bytecode[order[n]])];
    assert more[|blocks|] == (pc, bytecode[order[n]]);
    forall j {:trigger order[j]} | 0 <= j < n + 1 && order[j] in bytecode
      ensures order[j] in pcs[order[n] := pc] && Filed(more, pcs[order[n] := pc][order[j]], bytecode[order[j]])
    {
      if j < n { assert order[j] in order[..n]; }
    }
  }

  /** The blocks of the first n labels. */
  function InOrder(bytecode: map<Label, seq<Instr>>, order: seq<Label>, n: nat): (r: seq<seq<Instr>>)
    requires n <= |order| && forall j :: 0 <= j < |order| ==> order[j] in bytecode
    ensures |r| == n
  {
    seq(n, j requires 0 <= j < n => bytecode[order[j]])
  }

  lemma NextInOrder(bytecode: map<Label, seq<Instr>>, order: seq<Label>, n: nat, before: seq<seq<Instr>>)
    requires n < |order| && forall j :: 0 <= j < |order| ==> order[j] in bytecode
    ensures (before + InOrder(bytecode, order, n)) + [bytecode[order[n]]] == before + InOrder(bytecode, order, n + 1)
  {
  }

  /** Gives every label of `order` the pc at which its block will begin. */
  method PlaceLabels(bytecode: map<Label, seq<Instr>>, order: seq<Label>, blocks: seq<CodeBlock>, pcs: map<Label, nat>,
      start: nat)
    returns (blocks': seq<CodeBlock>, pcs': map<Label, nat>, pc: nat)
    requires start > 0 && Contiguous(blocks) && start == Total(blocks)
    requires forall j :: 0 <= j < |order| ==>
        order[j] in bytecode && EndsReal(bytecode[order[j]]) && order[j] !in order[..j] && order[j] !in pcs
    ensures Contiguous(blocks') && pc == Total(blocks') && blocks <= blocks' && pc >= start
    ensures LabelsFiled(blocks', bytecode, order, |order|, pcs')
    ensures forall l :: l in pcs ==> l in pcs' && pcs'[l] == pcs[l]
    ensures Contents(blocks') == Contents(blocks) + InOrder(bytecode, order, |order|)
  {
    hide Total, Contiguous, CountReal, LabelsFiled, Contents, InOrder;
    assert Contents(blocks) + InOrder(bytecode, order, 0) == Contents(blocks);
    blocks', pcs', pc := blocks, pcs, start;
    var i := 0;
    NoLabelsFiled(blocks, bytecode, order, pcs);
    while i < |order|
      invariant 0 <= i <= |order| && start <= pc
      invariant Contiguous(blocks') && pc == Total(blocks') && blocks <= blocks'
      invariant LabelsFiled(blocks', bytecode, order, i, pcs')
      invariant forall l :: l in pcs ==> l in pcs' && pcs'[l] == pcs[l]
      invariant Contents(blocks') == Contents(blocks) + InOrder(bytecode, order, i)
    {
      var block := bytecode[order[i]];
      ContiguousAppend(blocks', (pc, block));
      NextLabelFiled(blocks', bytecode, order, i, pcs', pc);
      ContentsAppend(blocks', pc, block);
      NextInOrder(bytecode, order, i, Contents(blocks));
      pcs' := pcs'[order[i] := pc];
      blocks' := blocks' + [(pc, block)];
      pc := pc + CountReal(block);
      i := i + 1;
    }
  }

  lemma NoLabelsFiled(blocks: seq<CodeBlock>, bytecode: map<Label, seq<Instr>>, order: seq<Label>, pcs: map<Label, nat>)
    ensures LabelsFiled(blocks, bytecode, order, 0, pcs)
  {
  }

  /** The first n matches are in place, arm k of match m at starts[m] + k * sizes[m]. */
  predicate MatchesFiled(blocks: seq<CodeBlock>, matchBlocks: seq<seq<seq<Instr>>>, starts: seq<nat>, sizes: seq<nat>) {
    |starts| == |sizes| <= |matchBlocks| &&
    forall m {:trigger matchBlocks[m]} :: 0 <= m < |starts| ==>
        ArmsFiled(blocks, matchBlocks[m], |matchBlocks[m]|, starts[m], sizes[m])
  }

  lemma FiledLater(blocks: seq<CodeBlock>, blocks': seq<CodeBlock>, cases: seq<seq<Instr>>, n: nat, start: nat,
      size: nat)
    requires ArmsFiled(blocks, cases, n, start, size) && blocks <= blocks'
    ensures ArmsFiled(blocks', cases, n, start, size)
  {
    forall k {:trigger cases[k]} | 0 <= k < n
        ensures CountReal(cases[k]) <= size && Filed(blocks', ArmAddress(start, k, size), Padded(cases[k], size)) {
      assert Filed(blocks, ArmAddress(start, k, size), Padded(cases[k], size));
    }
  }

  lemma NextMatchFiled(blocks: seq<CodeBlock>, blocks': seq<CodeBlock>, matchBlocks: seq<seq<seq<Instr>>>,
      starts: seq<nat>, sizes: seq<nat>, start: nat, size: nat)
    requires MatchesFiled(blocks, matchBlocks, starts, sizes) && |starts| < |matchBlocks| && blocks <= blocks'
    requires ArmsFiled(blocks', matchBlocks[|starts|], |matchBlocks[|starts|]|, start, size)
    ensures MatchesFiled(blocks', matchBlocks, starts + [start], sizes + [size])
  {
    forall m {:trigger matchBlocks[m]} | 0 <= m < |starts| + 1
      ensures ArmsFiled(blocks', matchBlocks[m], |matchBlocks[m]|, (starts + [start])[m], (sizes + [size])[m])
    {
      if m < |starts| { FiledLater(blocks, blocks', matchBlocks[m], |matchBlocks[m]|, starts[m], sizes[m]); }
    }
  }

  predicate AllLargest(matchBlocks: seq<seq<seq<Instr>>>, sizes: seq<nat>) {
    |sizes| <= |matchBlocks| &&
    forall m {:trigger matchBlocks[m]} {:trigger sizes[m]} :: 0 <= m < |sizes| ==> IsLargest(sizes[m], matchBlocks[m])
  }

  /** The filled-up arms of the first matches, one for each size. */
  function ArmsInOrder(matchBlocks: seq<seq<seq<Instr>>>, sizes: seq<nat>): seq<seq<Instr>>
    requires AllLargest(matchBlocks, sizes)
  {
    if sizes == [] then []
    else
      var m := |sizes| - 1;
      ArmsInOrder(matchBlocks, sizes[..m]) + PaddedArms(matchBlocks[m], sizes[m], |matchBlocks[m]|)
  }

  lemma NoArmsYet(matchBlocks: seq<seq<seq<Instr>>>, before: seq<seq<Instr>>)
    ensures before + ArmsInOrder(matchBlocks, []) == before
  {
  }

  lemma NextArmsInOrder(matchBlocks: seq<seq<seq<Instr>>>, sizes: seq<nat>, size: nat, before: seq<seq<Instr>>)
    requires AllLargest(matchBlocks, sizes) && |sizes| < |matchBlocks| && IsLargest(size, matchBlocks[|sizes|])
    ensures AllLargest(matchBlocks, sizes + [size])
    ensures var cases := matchBlocks[|sizes|];
            (before + ArmsInOrder(matchBlocks, sizes)) + PaddedArms(cases, size, |cases|)
                == before + ArmsInOrder(matchBlocks, sizes + [size])
  {
    assert (sizes + [size])[..|sizes|] == sizes;
  }

  method PlaceMatches(matchBlocks: seq<seq<seq<Instr>>>, blocks: seq<CodeBlock>, start: nat)
    returns (blocks': seq<CodeBlock>, starts: seq<nat>, sizes: seq<nat>)
    requires start > 0 && Contiguous(blocks) && start == Total(blocks)
    requires forall m :: 0 <= m < |matchBlocks| ==> matchBlocks[m] != []
    requires forall m, k {:trigger matchBlocks[m][k]} :: 0 <= m < |matchBlocks| && 0 <= k < |matchBlocks[m]| ==>
        EndsReal(matchBlocks[m][k])
    ensures Contiguous(blocks') && blocks <= blocks'
    ensures |starts| == |matchBlocks| && MatchesFiled(blocks', matchBlocks, starts, sizes)
    ensures AllLargest(matchBlocks, sizes) && Contents(blocks') == Contents(blocks) + ArmsInOrder(matchBlocks, sizes)
  {
    hide Total, Contiguous, CountReal, ArmsFiled, Contents, ArmsInOrder, PaddedArms;
    NoArmsYet(matchBlocks, Contents(blocks));
    blocks', starts, sizes := blocks, [], [];
    var pc, m := start, 0;
    while m < |matchBlocks|
      invariant 0 <= m <= |matchBlocks| && start <= pc && |starts| == m
      invariant Contiguous(blocks') && pc == Total(blocks') && blocks <= blocks'
      invariant MatchesFiled(blocks', matchBlocks, starts, sizes) && AllLargest(matchBlocks, sizes)
      invariant Contents(blocks') == Contents(blocks) + ArmsInOrder(matchBlocks, sizes)
    {
      var size := MaxBlockSize(matchBlocks[m]);
      var more, next := PlaceArms(matchBlocks[m], size, blocks', pc);
      NextMatchFiled(blocks', more, matchBlocks, starts, sizes, pc, size);
      NextArmsInOrder(matchBlocks, sizes, size, Contents(blocks));
      starts, sizes := starts + [pc], sizes + [size];
      blocks', pc := more, next;
      m := m + 1;
    }
  }

  // -- The whole program ----------------------------------------------------------------------------

  /** The first n blocks are in the code where they were placed. */
  predicate Emitted(code: seq<Entry>, L: Layout, blocks: seq<CodeBlock>, n: nat) {
    n <= |blocks| && forall j {:trigger blocks[j]} :: 0 <= j < n ==>
        Occupies(code, blocks[j].0, Flatten(L, blocks[j].1, []))
  }

  lemma EmittedLater(code: seq<Entry>, more: seq<Entry>, L: Layout, blocks: seq<CodeBlock>, n: nat)
    requires Emitted(code, L, blocks, n)
    ensures Emitted(code + more, L, blocks, n)
  {
    forall j {:trigger blocks[j]} | 0 <= j < n ensures Occupies(code + more, blocks[j].0, Flatten(L, blocks[j].1, [])) {
      assert Occupies(code, blocks[j].0, Flatten(L, blocks[j].1, []));
    }
  }

  lemma NextEmitted(code: seq<Entry>, L: Layout, blocks: seq<CodeBlock>, n: nat)
    requires Emitted(code, L, blocks, n) && n < |blocks| && |code| == blocks[n].0
    ensures Emitted(code + Flatten(L, blocks[n].1, []), L, blocks, n + 1)
  {
    EmittedLater(code, Flatten(L, blocks[n].1, []), L, blocks, n);
  }

  /** Blocks one after another. */
  function FlattenAll(L: Layout, blocks: seq<seq<Instr>>): seq<Entry> {
    if blocks == [] then [] else FlattenAll(L, blocks[..|blocks| - 1]) + Flatten(L, blocks[|blocks| - 1], [])
  }

  /** Short programs are filled up with their last instruction. */
  function FilledUp(code: seq<Entry>): (r: seq<Entry>)
    requires code != []
    ensures |r| >= MIN_BYTECODE_SIZE
  {
    if |code| >= MIN_BYTECODE_SIZE then code
    else code + seq(MIN_BYTECODE_SIZE - |code|, _ => Entry([], code[|code| - 1].instruction))
  }

  lemma NextFlattened(L: Layout, blocks: seq<CodeBlock>, k: nat)
    requires k < |blocks|
    ensures FlattenAll(L, Contents(blocks[..k + 1]))
        == FlattenAll(L, Contents(blocks[..k])) + Flatten(L, blocks[k].1, [])
  {
    assert Contents(blocks[..k + 1])[..k] == Contents(blocks[..k]);
  }

  method EmitBlocks(L: Layout, blocks: seq<CodeBlock>) returns (code: seq<Entry>)
    requires blocks != [] && Contiguous(blocks) && CountReal(blocks[0].1) > 0
    ensures var all := FlattenAll(L, Contents(blocks)); all != [] && code == FilledUp(all)
    ensures Emitted(code, L, blocks, |blocks|) && |code| >= MIN_BYTECODE_SIZE
  {
    hide Emitted, Occupies, EndsReal, Flatten, FlattenAll, Contents;
    var instructions: seq<Instruction>, hints: map<nat, seq<Hint>>, k := [], map[], 0;
    NothingEmitted(Entries(instructions, hints), L, blocks);
    NothingFlattened(L, blocks);
    while k < |blocks|
      invariant 0 <= k <= |blocks| && |instructions| == Total(blocks[..k])
      invariant forall p :: p in hints ==> p < |instructions|
      invariant k > 0 ==> instructions != []
      invariant Emitted(Entries(instructions, hints), L, blocks, k)
      invariant Entries(instructions, hints) == FlattenAll(L, Contents(blocks[..k]))
    {
      NextFlattened(L, blocks, k);
      assert blocks[k].0 == Total(blocks[..k]);
      NextEmitted(Entries(instructions, hints), L, blocks, k);
      instructions, hints := CompileBlock(L, blocks[k].1, blocks[k].0, instructions, hints);
      FlattenCounts(L, blocks[k].1, []);
      assert blocks[..k + 1][..k] == blocks[..k];
      k := k + 1;
    }
    assert blocks[..k] == blocks;
    code := Entries(instructions, hints);
    if |instructions| < MIN_BYTECODE_SIZE {
      var filler := Entry([], instructions[|instructions| - 1]);
      var padding := seq(MIN_BYTECODE_SIZE - |instructions|, i => filler);
      EmittedLater(code, padding, L, blocks, |blocks|);
      code := code + padding;
    }
  }

  lemma NothingFlattened(L: Layout, blocks: seq<CodeBlock>)
    ensures FlattenAll(L, Contents(blocks[..0])) == []
  {
  }

  lemma NothingEmitted(code: seq<Entry>, L: Layout, blocks: seq<CodeBlock>)
    ensures Emitted(code, L, blocks, 0)
  {
  }

  /** The block is in the code from pc on, instruction for instruction. */
  predicate Begins(code: seq<Entry>, L: Layout, block: seq<Instr>, pc: nat) {
    pc > 0 && Occupies(code, pc, Flatten(L, block, []))
  }

  lemma FiledBegins(code: seq<Entry>, L: Layout, blocks: seq<CodeBlock>, pc: nat, block: seq<Instr>)
    requires Emitted(code, L, blocks, |blocks|) && Filed(blocks, pc, block)
    ensures Begins(code, L, block, pc)
  {
    var j :| 0 <= j < |blocks| && blocks[j] == (pc, block);
  }

  /** Every label points at its block and every arm stands at its multiple of the block size. */
  predicate LaidOut(ir: IrProgram, code: seq<Entry>, L: Layout) {
    && L.sizes == ir.sizes && EndProgram in L.pcs && L.pcs[EndProgram] == ENDING_PC
    && Label.Function("main") in L.pcs && L.pcs[Label.Function("main")] == STARTING_PC
    && (forall l {:trigger ir.bytecode[l]} :: l in ir.bytecode && l != EndProgram ==>
        l in L.pcs && Begins(code, L, ir.bytecode[l], L.pcs[l]))
    && |L.matchStarts| == |L.matchSizes| == |ir.matchBlocks|
    && (forall m, k {:trigger ir.matchBlocks[m][k]} :: 0 <= m < |ir.matchBlocks| && 0 <= k < |ir.matchBlocks[m]| ==>
         CountReal(ir.matchBlocks[m][k]) <= L.matchSizes[m]
             && Begins(code, L, Padded(ir.matchBlocks[m][k], L.matchSizes[m]),
             ArmAddress(L.matchStarts[m], k, L.matchSizes[m])))
    && |code| >= MIN_BYTECODE_SIZE
  }

  /** The blocks other than the two fixed ones, each once, in the order of the label map. */
  function ExitPoint(): seq<Instr> { [Instr.Jump(Const(LabelPc(EndProgram)), None)] }

  /** The blocks as they follow each other: the exit, main, the labels in their order, the arms of every match. */
  function Arrangement(ir: IrProgram, order: seq<Label>, sizes: seq<nat>): seq<seq<Instr>>
    requires Enumerates(order, ir.bytecode) && Label.Function("main") in ir.bytecode
        && AllLargest(ir.matchBlocks, sizes)
  {
    [ExitPoint(), ir.bytecode[Label.Function("main")]] + InOrder(ir.bytecode, order, |order|)
        + ArmsInOrder(ir.matchBlocks, sizes)
  }

  /** The code is that arrangement and nothing else, and every arm is as long as the largest of its match. */
  predicate Assembled(ir: IrProgram, order: seq<Label>, code: seq<Entry>, L: Layout) {
    && Enumerates(order, ir.bytecode) && Label.Function("main") in ir.bytecode
    && |L.matchSizes| == |ir.matchBlocks| && AllLargest(ir.matchBlocks, L.matchSizes)
    && var all := FlattenAll(L, Arrangement(ir, order, L.matchSizes));
    && all != [] && code == FilledUp(all)
  }

  predicate Enumerates(order: seq<Label>, bytecode: map<Label, seq<Instr>>) {
    && (forall l :: l in bytecode && l != EndProgram && l != Label.Function("main") ==> l in order)
    && (forall j {:trigger order[j]} :: 0 <= j < |order| ==>
        order[j] in bytecode && order[j] != EndProgram && order[j] != Label.Function("main") && order[j] !in order[..j])
  }

  /** Blocks and arms as the first pass makes them: no hint without an instruction, no match without arms. */
  predicate WellFormed(ir: IrProgram) {
    && (forall l {:trigger ir.bytecode[l]} :: l in ir.bytecode ==> EndsReal(ir.bytecode[l]))
    && (forall m :: 0 <= m < |ir.matchBlocks| ==> ir.matchBlocks[m] != [])
    && (forall m, k {:trigger ir.matchBlocks[m][k]} :: 0 <= m < |ir.matchBlocks| && 0 <= k < |ir.matchBlocks[m]| ==>
        EndsReal(ir.matchBlocks[m][k]))
  }

  method CompileToLowLevelBytecode(ir: IrProgram, order: seq<Label>) returns (r: Option<(seq<Entry>, Layout)>)
    requires WellFormed(ir) && Enumerates(order, ir.bytecode)
    ensures r.None? <==> "main" !in ir.sizes || Label.Function("main") !in ir.bytecode
    ensures r.Some? ==> LaidOut(ir, r.value.0, r.value.1) && Assembled(ir, order, r.value.0, r.value.1)
  {
    if "main" !in ir.sizes || Label.Function("main") !in ir.bytecode { return None; }
    hide Total, Contiguous, Emitted, ArmsFiled, MatchesFiled, LabelsFiled, Padded, Flatten, Occupies, EndsReal,
        AllLargest, ArmsInOrder, FlattenAll, Contents, InOrder, FilledUp, Assembled, LaidOut;
    var main := Label.Function("main");
    var exitPoint := ExitPoint();
    var entryPoint := ir.bytecode[main];
    var pcs := map[EndProgram := ENDING_PC, main := STARTING_PC];
    var blocks := [(ENDING_PC, exitPoint), (STARTING_PC, entryPoint)];
    FirstBlocks(exitPoint, entryPoint);
    var pc := CountReal(exitPoint) + CountReal(entryPoint);
    var starts, sizes;
    var labelled;
    labelled, pcs, pc := PlaceLabels(ir.bytecode, order, blocks, pcs, pc);
    var all;
    all, starts, sizes := PlaceMatches(ir.matchBlocks, labelled, pc);
    var L := Layout(ir.sizes, pcs, sizes, starts);
    assert all[0] == blocks[0] && all[1] == blocks[1];
    var code := EmitBlocks(L, all);
    LayoutHolds(ir, order, code, L, labelled, all);
    WholeIsAssembled(ir, order, code, L, blocks, labelled, all);
    r := Some((code, L));
  }

  lemma WholeIsAssembled(ir: IrProgram, order: seq<Label>, code: seq<Entry>, L: Layout, blocks: seq<CodeBlock>,
      labelled: seq<CodeBlock>, all: seq<CodeBlock>)
    requires Enumerates(order, ir.bytecode) && Label.Function("main") in ir.bytecode
    requires blocks == [(ENDING_PC, ExitPoint()), (STARTING_PC, ir.bytecode[Label.Function("main")])]
    requires |L.matchSizes| == |ir.matchBlocks| && AllLargest(ir.matchBlocks, L.matchSizes)
    requires Contents(labelled) == Contents(blocks) + InOrder(ir.bytecode, order, |order|)
    requires Contents(all) == Contents(labelled) + ArmsInOrder(ir.matchBlocks, L.matchSizes)
    requires var whole := FlattenAll(L, Contents(all)); whole != [] && code == FilledUp(whole)
    ensures Assembled(ir, order, code, L)
  {
    hide AllLargest, ArmsInOrder, FlattenAll, InOrder, FilledUp;
    assert Contents(blocks) == [ExitPoint(), ir.bytecode[Label.Function("main")]];
    assert Contents(all) == Arrangement(ir, order, L.matchSizes);
  }

  lemma FirstBlocks(exitPoint: seq<Instr>, entryPoint: seq<Instr>)
    requires exitPoint == ExitPoint() && EndsReal(entryPoint)
    ensures var blocks := [(ENDING_PC, exitPoint), (STARTING_PC, entryPoint)];
            CountReal(exitPoint) == STARTING_PC && Contiguous(blocks)
                && Total(blocks) == CountReal(exitPoint) + CountReal(entryPoint)
  {
    assert [(ENDING_PC, exitPoint), (STARTING_PC, entryPoint)] == ([] + [(ENDING_PC, exitPoint)])
        + [(STARTING_PC, entryPoint)];
    ContiguousAppend([], (ENDING_PC, exitPoint));
    ContiguousAppend([] + [(ENDING_PC, exitPoint)], (STARTING_PC, entryPoint));
  }

  lemma LayoutHolds(ir: IrProgram, order: seq<Label>, code: seq<Entry>, L: Layout, labelled: seq<CodeBlock>,
      all: seq<CodeBlock>)
    requires Enumerates(order, ir.bytecode) && Label.Function("main") in ir.bytecode && labelled <= all && |all| >= 2
        && all[1] == (STARTING_PC, ir.bytecode[Label.Function("main")])
    requires LabelsFiled(labelled, ir.bytecode, order, |order|, L.pcs) && Emitted(code, L, all, |all|)
    requires |L.matchStarts| == |ir.matchBlocks| && MatchesFiled(all, ir.matchBlocks, L.matchStarts, L.matchSizes)
    requires L.sizes == ir.sizes && EndProgram in L.pcs && L.pcs[EndProgram] == ENDING_PC && |code| >= MIN_BYTECODE_SIZE
    requires Label.Function("main") in L.pcs && L.pcs[Label.Function("main")] == STARTING_PC
    ensures LaidOut(ir, code, L)
  {
    hide Emitted, Padded, Flatten, Occupies, EndsReal, Begins;
    forall l {:trigger ir.bytecode[l]} | l in ir.bytecode && l != EndProgram
        ensures l in L.pcs && Begins(code, L, ir.bytecode[l], L.pcs[l]) {
      if l == Label.Function("main") {
        assert (STARTING_PC, ir.bytecode[l]) in all;
        FiledBegins(code, L, all, STARTING_PC, ir.bytecode[l]);
      } else {
        var j :| 0 <= j < |order| && order[j] == l;
        assert Filed(labelled, L.pcs[l], ir.bytecode[l]);
        FiledBegins(code, L, all, L.pcs[l], ir.bytecode[l]);
      }
    }
    forall m, k {:trigger ir.matchBlocks[m][k]} | 0 <= m < |ir.matchBlocks| && 0 <= k < |ir.matchBlocks[m]|
      ensures CountReal(ir.matchBlocks[m][k]) <= L.matchSizes[m]
          && Begins(code, L, Padded(ir.matchBlocks[m][k], L.matchSizes[m]),
          ArmAddress(L.matchStarts[m], k, L.matchSizes[m]))
    {
      ArmBegins(code, L, all, ir.matchBlocks[m], k, L.matchStarts[m], L.matchSizes[m]);
    }
  }

  lemma ArmBegins(code: seq<Entry>, L: Layout, all: seq<CodeBlock>, cases: seq<seq<Instr>>, k: nat, start: nat,
      size: nat)
    requires Emitted(code, L, all, |all|) && ArmsFiled(all, cases, |cases|, start, size) && k < |cases|
    ensures CountReal(cases[k]) <= size && Begins(code, L, Padded(cases[k], size), ArmAddress(start, k, size))
  {
    assert Filed(all, ArmAddress(start, k, size), Padded(cases[k], size));
    FiledBegins(code, L, all, ArmAddress(start, k, size), Padded(cases[k], size));
  }
}
