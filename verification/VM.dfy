/** The virtual machine of src/execution/vm.rs over byte-array words, and the
    storage map of src/execution/state.rs it runs against.  Every method is
    proved to do to the numbers its words denote what `Machine` does. */
module VM {
  import opened Bytes
  import opened U256
  import opened Division
  import opened Machine
  import opened StateRoot
  import opened Wrappers

  // ----- from words to numbers ---------------------------------------------

  ghost function Nats(stack: seq<Word>): (n: seq<nat>)
    ensures |n| == |stack| && forall i :: 0 <= i < |n| ==> n[i] == BE(stack[i])
  {
    seq(|stack|, i requires 0 <= i < |stack| => BE(stack[i]))
  }

  ghost function NumberOf(j: (Address, Word)): (Address, nat) {
    (j.0, BE(j.1))
  }

  lemma NumberInjective(i: (Address, Word), j: (Address, Word))
    requires NumberOf(i) == NumberOf(j)
    ensures i == j
  {
    BEInjective(i.1, j.1);
  }

  ghost predicate Holds(slots: Slots, k: (Address, nat)) {
    exists j :: j in slots && NumberOf(j) == k
  }

  ghost function ValueAt(slots: Slots, k: (Address, nat)): nat
    requires Holds(slots, k)
  {
    var j :| j in slots && NumberOf(j) == k;
    BE(slots[j])
  }

  /** The numeric storage: distinct words are distinct numbers, so no two
      slots are merged. */
  ghost function Numeric(slots: Slots): Storage {
    map k | k in (set j | j in slots :: NumberOf(j)) :: ValueAt(slots, k)
  }

  lemma NumericAt(slots: Slots, j: (Address, Word))
    ensures NumberOf(j) in Numeric(slots) <==> j in slots
    ensures j in slots ==> Numeric(slots)[NumberOf(j)] == BE(slots[j])
  {
    var k := NumberOf(j);
    if Holds(slots, k) {
      forall i | i in slots && NumberOf(i) == k
        ensures i == j
      {
        NumberInjective(i, j);
      }
    }
  }

  lemma NumericLoad(slots: Slots, a: Address, w: Word)
    ensures Load(Numeric(slots), a, BE(w)) == if (a, w) in slots then BE(slots[(a, w)]) else 0
  {
    NumericAt(slots, (a, w));
    assert NumberOf((a, w)) == (a, BE(w));
  }

  lemma NumericStoreAt(slots: Slots, i: (Address, Word), v: Word, k: (Address, nat))
    ensures k in Numeric(slots[i := v]) <==> k in Numeric(slots) || k == NumberOf(i)
    ensures k in Numeric(slots[i := v]) ==>
              Numeric(slots[i := v])[k] == if k == NumberOf(i) then BE(v) else Numeric(slots)[k]
  {
    if k == NumberOf(i) {
      NumericAt(slots[i := v], i);
    } else if j :| j in slots[i := v] && NumberOf(j) == k {
      NumericAt(slots[i := v], j);
      NumericAt(slots, j);
    } else {
      assert forall j :: j in slots ==> j in slots[i := v];
    }
  }

  lemma NumericStore(slots: Slots, a: Address, w: Word, v: Word)
    ensures Numeric(slots[(a, w) := v]) == Numeric(slots)[(a, BE(w)) := BE(v)]
  {
    forall k: (Address, nat) {
      NumericStoreAt(slots, (a, w), v, k);
    }
  }

  lemma NumericFits(slots: Slots)
    ensures forall k :: k in Numeric(slots) ==> Numeric(slots)[k] < MODULUS && k.1 < MODULUS
  {
    forall k | k in Numeric(slots)
      ensures Numeric(slots)[k] < MODULUS && k.1 < MODULUS
    {
      var j :| j in slots && NumberOf(j) == k;
      NumericAt(slots, j);
      WordBound(j.1);
      WordBound(slots[j]);
    }
  }

  lemma WordsFit(stack: seq<Word>)
    ensures forall i :: 0 <= i < |stack| ==> Nats(stack)[i] < MODULUS
  {
    forall i | 0 <= i < |stack|
      ensures Nats(stack)[i] < MODULUS
    {
      WordBound(stack[i]);
    }
  }

  // ----- storage -----------------------------------------------------------

  class StateTrie {
    var root: Bytes32
    var storage: Slots

    /** The root belongs to the storage. */
    ghost predicate Current(sha: Sha256)
      reads this
    {
      Rooted(sha, storage, root)
    }

    constructor ()
      ensures storage == map[] && root == ZERO
      ensures forall sha :: Current(sha)
    {
      root, storage := ZERO, map[];
    }

    method Get(address: Address, slot: Word) returns (value: Word)
      ensures BE(value) == Load(Numeric(storage), address, BE(slot))
      ensures BE(value) == if (address, slot) in storage then BE(storage[(address, slot)]) else 0
    {
      NumericLoad(storage, address, slot);
      ConstantValues(ZERO);
      value := if (address, slot) in storage then storage[(address, slot)] else ZERO;
    }

    method Set(sha: Sha256, address: Address, slot: Word, value: Word)
      modifies this
      ensures Numeric(storage) == Numeric(old(storage))[(address, BE(slot)) := BE(value)]
      ensures Current(sha)
      ensures storage == old(storage)[(address, slot) := value]
    {
      NumericStore(storage, address, slot, value);
      storage := storage[(address, slot) := value];
      UpdateRoot(sha);
    }

    /** Lists the slots in an arbitrary order, as a hash map yields them. */
    method UpdateRoot(sha: Sha256)
      modifies this`root
      ensures exists order :: Lists(storage, order) && root == Root(sha, storage, order)
      ensures exists order, data :: Lists(storage, order) && InOrder(storage, order, data) && root == sha(sha(data))
    {
      hide Entry;
      var data: Bytes := [];
      ghost var order: seq<Slot> := [];
      var todo := storage.Keys;
      while todo != {}
        invariant todo <= storage.Keys
        invariant forall k :: k in order <==> k in storage && k !in todo
        invariant forall i, j :: 0 <= i < j < |order| ==> order[i] != order[j]
        invariant data == Listing(storage, order)
        decreases todo
      {
        var k :| k in todo;
        data := data + Entry(k, storage[k]);
        assert (order + [k])[..|order|] == order;
        order := order + [k];
        todo := todo - {k};
      }
      root := Sha256d(sha, data);
      assert Lists(storage, order) && root == Root(sha, storage, order);
      hide InOrder, Listing;
      ListingExact(storage, order);
      assert InOrder(storage, order, data) && root == sha(sha(data));
    }
  }

  // ----- the machine -------------------------------------------------------

  lemma NatsPop(stack: seq<Word>)
    requires |stack| > 0
    ensures Nats(stack[..|stack| - 1]) == Nats(stack)[..|stack| - 1]
  {
  }

  lemma NatsPush(stack: seq<Word>, w: Word)
    ensures Nats(stack + [w]) == Nats(stack) + [BE(w)]
  {
  }

  class VM {
    var pc: nat
    var stack: seq<Word>
    var memory: Bytes
    var returndata: Bytes
    const address: Address

    /** The machine state this object and the storage denote. */
    ghost function View(trie: StateTrie, status: Status): State
      reads this, trie
    {
      State(pc, Nats(stack), memory, returndata, Numeric(trie.storage), status)
    }

    constructor (address: Address)
      ensures pc == 0 && stack == [] && memory == [] && returndata == [] && this.address == address
    {
      pc, stack, memory, returndata := 0, [], [], [];
      this.address := address;
    }

    method Pop() returns (r: Option<Word>)
      modifies this`stack
      ensures old(stack) == [] ==> r.None? && stack == []
      ensures old(stack) != [] ==>
                && r == Some(old(stack)[|old(stack)| - 1])
                && stack == old(stack)[..|old(stack)| - 1]
                && Nats(stack) == Nats(old(stack))[..|old(stack)| - 1]
    {
      if stack == [] {
        return None;
      }
      NatsPop(stack);
      r := Some(stack[|stack| - 1]);
      stack := stack[..|stack| - 1];
    }

    method Push(w: Word)
      modifies this`stack
      ensures stack == old(stack) + [w] && Nats(stack) == Nats(old(stack)) + [BE(w)]
    {
      NatsPush(stack, w);
      stack := stack + [w];
    }

    /** The two pops every binary instruction starts with. */
    method Pop2() returns (r: Option<(Word, Word)>)
      modifies this`stack
      ensures |old(stack)| < 2 ==> r.None? && stack == []
      ensures |old(stack)| >= 2 ==>
                && r == Some((old(stack)[|old(stack)| - 1], old(stack)[|old(stack)| - 2]))
                && stack == old(stack)[..|old(stack)| - 2]
                && Nats(stack) == Nats(old(stack))[..|old(stack)| - 2]
    {
      ghost var n := |stack|;
      var a := Pop();
      if a.None? {
        return None;
      }
      assert |stack| == |Nats(stack)| == n - 1;
      var b := Pop();
      if b.None? {
        return None;
      }
      r := Some((a.value, b.value));
    }

    method OpAdd(ghost env: Env, ghost m: State) returns (status: Status)
      requires m.stack == Nats(stack) && m.status.Running?
      modifies this`stack
      ensures Exec(env, ADD, m) == m.(stack := Nats(stack), status := status)
      ensures var s := old(stack);
              if |s| < 2 then status == Failed(StackUnderflow) && stack == []
              else
                && status == Running && |stack| == |s| - 1 && stack[..|s| - 2] == s[..|s| - 2]
                && BE(stack[|s| - 2]) == (BE(s[|s| - 1]) + BE(s[|s| - 2])) % MODULUS
    {
      var ab := Pop2();
      if ab.None? {
        return Failed(StackUnderflow);
      }
      var r := Add(ab.value.0, ab.value.1);
      Push(r);
      status := Running;
    }

    method OpSub(ghost env: Env, ghost m: State) returns (status: Status)
      requires m.stack == Nats(stack) && m.status.Running?
      modifies this`stack
      ensures Exec(env, SUB, m) == m.(stack := Nats(stack), status := status)
      ensures var s := old(stack);
              if |s| < 2 then status == Failed(StackUnderflow) && stack == []
              else
                && status == Running && |stack| == |s| - 1 && stack[..|s| - 2] == s[..|s| - 2]
                && BE(stack[|s| - 2]) == (BE(s[|s| - 1]) - BE(s[|s| - 2])) % MODULUS
    {
      var ab := Pop2();
      if ab.None? {
        return Failed(StackUnderflow);
      }
      var r := Sub(ab.value.0, ab.value.1);
      Push(r);
      status := Running;
    }

    method OpMul(ghost env: Env, ghost m: State) returns (status: Status)
      requires m.stack == Nats(stack) && m.status.Running?
      modifies this`stack
      ensures Exec(env, MUL, m) == m.(stack := Nats(stack), status := status)
      ensures var s := old(stack);
              if |s| < 2 then status == Failed(StackUnderflow) && stack == []
              else
                && status == Running && |stack| == |s| - 1 && stack[..|s| - 2] == s[..|s| - 2]
                && BE(stack[|s| - 2]) == (BE(s[|s| - 1]) * BE(s[|s| - 2])) % MODULUS
    {
      var ab := Pop2();
      if ab.None? {
        return Failed(StackUnderflow);
      }
      var r := Mul(ab.value.0, ab.value.1);
      Push(r);
      status := Running;
    }

    method OpDiv(ghost env: Env, ghost m: State) returns (status: Status)
      requires m.stack == Nats(stack) && m.status.Running?
      modifies this`stack
      ensures Exec(env, DIV, m) == m.(stack := Nats(stack), status := status)
      ensures var s := old(stack);
              if |s| < 2 then status == Failed(StackUnderflow) && stack == []
              else if BE(s[|s| - 2]) == 0 then status == Failed(DivisionByZero) && stack == s[..|s| - 2]
              else
                && status == Running && |stack| == |s| - 1 && stack[..|s| - 2] == s[..|s| - 2]
                && BE(stack[|s| - 2]) == BE(s[|s| - 1]) / BE(s[|s| - 2])
    {
      var ab := Pop2();
      if ab.None? {
        return Failed(StackUnderflow);
      }
      ConstantValues(ab.value.1);
      if ab.value.1 == ZERO {
        return Failed(DivisionByZero);
      }
      var r := Div(ab.value.0, ab.value.1);
      Push(r);
      status := Running;
    }

    method OpPop(ghost env: Env, ghost m: State) returns (status: Status)
      requires m.stack == Nats(stack) && m.status.Running?
      modifies this`stack
      ensures Exec(env, POP, m) == m.(stack := Nats(stack), status := status)
      ensures var s := old(stack);
              if |s| < 1 then status == Failed(StackUnderflow) && stack == []
              else status == Running && stack == s[..|s| - 1]
    {
      var a := Pop();
      status := if a.None? then Failed(StackUnderflow) else Running;
    }

    method OpPush(value: Word, ghost env: Env, ghost m: State) returns (status: Status)
      requires m.stack == Nats(stack) && m.status.Running?
      modifies this`stack
      ensures Exec(env, PUSH(value), m) == m.(stack := Nats(stack), status := status)
      ensures var s := old(stack);
              status == Running && stack == s + [value]
    {
      Push(value);
      status := Running;
    }

    method OpSload(trie: StateTrie, ghost env: Env, ghost m: State) returns (status: Status)
      requires env.address == address && m == View(trie, Running)
      modifies this`stack
      ensures Exec(env, SLOAD, m) == m.(stack := Nats(stack), status := status)
      ensures var s := old(stack);
              if |s| < 1 then status == Failed(StackUnderflow) && stack == []
              else
                && status == Running && |stack| == |s| && stack[..|s| - 1] == s[..|s| - 1]
                && BE(stack[|s| - 1]) == (if (address, s[|s| - 1]) in trie.storage
                                          then BE(trie.storage[(address, s[|s| - 1])]) else 0)
    {
      var slot := Pop();
      if slot.None? {
        return Failed(StackUnderflow);
      }
      var value := trie.Get(address, slot.value);
      Push(value);
      status := Running;
    }

    method OpSstore(trie: StateTrie, sha: Sha256, ghost env: Env, ghost m: State) returns (status: Status)
      requires env.address == address && m == View(trie, Running)
      modifies this`stack, trie
      ensures Exec(env, SSTORE, m) == View(trie, status)
      ensures old(trie.Current(sha)) ==> trie.Current(sha)
      ensures var s := old(stack);
              if |s| < 2 then status == Failed(StackUnderflow) && stack == [] && trie.storage == old(trie.storage)
              else
                && status == Running && stack == s[..|s| - 2]
                && trie.storage == old(trie.storage)[(address, s[|s| - 1]) := s[|s| - 2]]
    {
      var ab := Pop2();
      if ab.None? {
        return Failed(StackUnderflow);
      }
      trie.Set(sha, address, ab.value.0, ab.value.1);
      status := Running;
    }

    method JumpTo(code: Bytes, dest: Word) returns (status: Status)
      modifies this`pc
      ensures status == if BE(dest) % B64 >= |code| then Failed(InvalidJumpDestination(BE(dest) % B64)) else Running
      ensures pc == if BE(dest) % B64 >= |code| then old(pc) else BE(dest) % B64
    {
      AsU64Value(dest);
      var target := AsU64(dest);
      if target >= |code| {
        return Failed(InvalidJumpDestination(target));
      }
      pc := target;
      status := Running;
    }

    method OpJump(code: Bytes, ghost env: Env, ghost m: State) returns (status: Status)
      requires env.code == code && m.pc == pc && m.stack == Nats(stack) && m.status.Running?
      modifies this`stack, this`pc
      ensures Exec(env, JUMP, m) == m.(stack := Nats(stack), pc := pc, status := status)
      ensures var s := old(stack);
              if |s| < 1 then status == Failed(StackUnderflow) && stack == [] && pc == old(pc)
              else
                && stack == s[..|s| - 1]
                && var d := BE(s[|s| - 1]) % 0x1_0000_0000_0000_0000;
                   if d < |code| then status == Running && pc == d
                   else status == Failed(InvalidJumpDestination(d)) && pc == old(pc)
    {
      var dest := Pop();
      if dest.None? {
        return Failed(StackUnderflow);
      }
      status := JumpTo(code, dest.value);
    }

    method OpJumpi(code: Bytes, ghost env: Env, ghost m: State) returns (status: Status)
      requires env.code == code && m.pc == pc && m.stack == Nats(stack) && m.status.Running?
      modifies this`stack, this`pc
      ensures Exec(env, JUMPI, m) == m.(stack := Nats(stack), pc := pc, status := status)
      ensures var s := old(stack);
              if |s| < 2 then status == Failed(StackUnderflow) && stack == [] && pc == old(pc)
              else
                && stack == s[..|s| - 2]
                && var d := BE(s[|s| - 1]) % 0x1_0000_0000_0000_0000;
                   if BE(s[|s| - 2]) == 0 then status == Running && pc == old(pc)
                   else if d < |code| then status == Running && pc == d
                   else status == Failed(InvalidJumpDestination(d)) && pc == old(pc)
    {
      var dc := Pop2();
      if dc.None? {
        return Failed(StackUnderflow);
      }
      ConstantValues(dc.value.1);
      status := Running;
      if dc.value.1 != ZERO {
        status := JumpTo(code, dc.value.0);
      }
    }

    method OpReturn(ghost env: Env, ghost m: State) returns (status: Status)
      requires m.stack == Nats(stack) && m.memory == memory && m.returndata == returndata && m.status.Running?
      modifies this`stack, this`returndata
      ensures Exec(env, RETURN, m) == m.(stack := Nats(stack), returndata := returndata, status := status)
      ensures var s := old(stack);
              if |s| < 2 then status == Failed(StackUnderflow) && stack == [] && returndata == old(returndata)
              else
                && stack == s[..|s| - 2]
                && var offset, size := BE(s[|s| - 1]) % 0x1_0000_0000_0000_0000, BE(s[|s| - 2]) % 0x1_0000_0000_0000_0000;
                   if offset + size >= 0x1_0000_0000_0000_0000 then status == Trapped && returndata == old(returndata)
                   else if offset + size > |memory| then
                     status == Failed(MemoryOutOfBounds) && returndata == old(returndata)
                   else status == Done && returndata == memory[offset..offset + size]
    {
      var os := Pop2();
      if os.None? {
        return Failed(StackUnderflow);
      }
      AsU64Value(os.value.0);
      AsU64Value(os.value.1);
      var offset, size := AsU64(os.value.0), AsU64(os.value.1);
      if offset + size >= B64 {
        return Trapped;
      }
      if offset + size > |memory| {
        return Failed(MemoryOutOfBounds);
      }
      returndata := memory[offset..offset + size];
      status := Done;
    }

    method OpChecksig(ghost env: Env, ghost m: State) returns (status: Status)
      requires m.stack == Nats(stack) && m.status.Running?
      modifies this`stack
      ensures Exec(env, CHECKSIG, m) == m.(stack := Nats(stack), status := status)
      ensures var s := old(stack);
              status == Running && |stack| == |s| + 1 && stack[..|s|] == s && BE(stack[|s|]) == 1
    {
      ConstantValues(ONE);
      Push(ONE);
      status := Running;
    }

    method OpHash256(sha: Sha256, ghost env: Env, ghost m: State) returns (status: Status)
      requires env.sha == sha && m.stack == Nats(stack) && m.status.Running?
      modifies this`stack
      ensures Exec(env, HASH256, m) == m.(stack := Nats(stack), status := status)
      ensures var s := old(stack);
              if |s| < 1 then status == Failed(StackUnderflow) && stack == []
              else status == Running && stack == s[..|s| - 1] + [sha(sha(s[|s| - 1]))]
    {
      var input := Pop();
      if input.None? {
        return Failed(StackUnderflow);
      }
      ToBEBE(input.value);
      Push(Sha256d(sha, input.value));
      status := Running;
    }

    /** One turn of the loop of `execute`. */
    method FetchAndExecute(code: Bytes, trie: StateTrie, sha: Sha256) returns (status: Status)
      requires pc < |code|
      modifies this, trie
      ensures View(trie, status) == Step(Env(code, address, sha), old(View(trie, Running)))
      ensures old(trie.Current(sha)) ==> trie.Current(sha)
      ensures code[old(pc)] != 0x56 && code[old(pc)] != 0x57 ==> pc == old(pc) + 1
    {
      hide Exec, Rooted;
      AdvancesByOne(Env(code, address, sha), View(trie, Running));
      var opcode := code[pc];
      pc := pc + 1;
      status := Dispatch(opcode, code, trie, sha);
    }

    /** The `match` in the loop of `execute`. */
    method Dispatch(opcode: byte, code: Bytes, trie: StateTrie, sha: Sha256) returns (status: Status)
      modifies this, trie
      ensures View(trie, status)
           == match FromU8(opcode)
              case Known(op) => Exec(Env(code, address, sha), op, old(View(trie, Running)))
              case Unknown => Halt(old(View(trie, Running)), InvalidOpcode(opcode))
      ensures old(trie.Current(sha)) ==> trie.Current(sha)
      ensures opcode !in {0x01, 0x02, 0x03, 0x04, 0x50, 0x51, 0x54, 0x55, 0x56, 0x57, 0xa9, 0xac, 0xf3} ==>
                status == Failed(InvalidOpcode(opcode)) && stack == old(stack) && pc == old(pc)
    {
      FromU8Iff(opcode, POP);
      hide Rooted;
      ghost var env, m := Env(code, address, sha), View(trie, Running);
      match FromU8(opcode)
      case Known(ADD) => status := OpAdd(env, m);
      case Known(SUB) => status := OpSub(env, m);
      case Known(MUL) => status := OpMul(env, m);
      case Known(DIV) => status := OpDiv(env, m);
      case Known(POP) => status := OpPop(env, m);
      case Known(PUSH(value)) => status := OpPush(value, env, m);
      case Known(SLOAD) => status := OpSload(trie, env, m);
      case Known(SSTORE) => status := OpSstore(trie, sha, env, m);
      case Known(JUMP) => status := OpJump(code, env, m);
      case Known(JUMPI) => status := OpJumpi(code, env, m);
      case Known(RETURN) => status := OpReturn(env, m);
      case Known(CHECKSIG) => status := OpChecksig(env, m);
      case Known(HASH256) => status := OpHash256(sha, env, m);
      case Unknown => status := Failed(InvalidOpcode(opcode));
    }

    /** `execute`, cut off after `fuel` instructions: bytecode need not halt. */
    method Execute(code: Bytes, trie: StateTrie, sha: Sha256, fuel: nat) returns (status: Status)
      modifies this, trie
      ensures View(trie, status) == Run(Env(code, address, sha), old(View(trie, Running)), fuel)
      ensures old(pc) <= |code| ==>
                && pc <= |code|
                && Framed(Env(code, address, sha), old(View(trie, Running)), View(trie, status))
      ensures old(trie.Current(sha)) ==> trie.Current(sha)
    {
      hide Exec, Framed, Rooted;
      ghost var env := Env(code, address, sha);
      ghost var start := View(trie, Running);
      if pc <= |code| {
        NumericFits(trie.storage);
        WordsFit(stack);
        RunKeeps(env, start, fuel);
      }
      var left: nat := fuel;
      while pc < |code|
        invariant 0 <= left <= fuel
        invariant Run(env, start, fuel) == Run(env, View(trie, Running), left)
        invariant old(trie.Current(sha)) ==> trie.Current(sha)
        decreases left
      {
        if left == 0 {
          return Running;
        }
        left := left - 1;
        status := FetchAndExecute(code, trie, sha);
        if !status.Running? {
          return status;
        }
      }
      status := Done;
    }
  }
}
