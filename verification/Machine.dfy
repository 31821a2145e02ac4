/** What src/execution/vm.rs computes, stated over integers modulo 2^256: the
    reference machine that the byte-array VM is proved to simulate, and the
    properties of all of its runs. */
module Machine {
  import opened Arith
  import opened Bytes
  import opened U256

  datatype VmError =
    | StackUnderflow
    | InvalidOpcode(opcode: byte)
    | InvalidJumpDestination(dest: nat)
    | DivisionByZero
    | MemoryOutOfBounds

  /** `Trapped` is the arithmetic-overflow panic of `offset + size` in RETURN. */
  datatype Status = Running | Done | Failed(error: VmError) | Trapped

  datatype Opcode =
    | ADD | SUB | MUL | DIV
    | PUSH(value: Word) | POP
    | SLOAD | SSTORE
    | JUMP | JUMPI | RETURN
    | CHECKSIG | HASH256

  datatype Decoded = Known(op: Opcode) | Unknown

  /** Every byte of the bytecode is an opcode: PUSH carries no immediate. */
  function FromU8(b: byte): Decoded {
    if b == 0x01 then Known(ADD)
    else if b == 0x02 then Known(SUB)
    else if b == 0x03 then Known(MUL)
    else if b == 0x04 then Known(DIV)
    else if b == 0x50 then Known(POP)
    else if b == 0x51 then Known(PUSH(ZERO))
    else if b == 0x54 then Known(SLOAD)
    else if b == 0x55 then Known(SSTORE)
    else if b == 0x56 then Known(JUMP)
    else if b == 0x57 then Known(JUMPI)
    else if b == 0xF3 then Known(RETURN)
    else if b == 0xAC then Known(CHECKSIG)
    else if b == 0xA9 then Known(HASH256)
    else Unknown
  }

  /** A byte decodes to an instruction exactly when it is that instruction's
      byte, and the only constant a program can push is zero. */
  lemma FromU8Iff(b: byte, op: Opcode)
    ensures FromU8(b) == Known(op) <==>
              match op
              case ADD => b == 0x01
              case SUB => b == 0x02
              case MUL => b == 0x03
              case DIV => b == 0x04
              case POP => b == 0x50
              case PUSH(value) => b == 0x51 && value == ZERO
              case SLOAD => b == 0x54
              case SSTORE => b == 0x55
              case JUMP => b == 0x56
              case JUMPI => b == 0x57
              case HASH256 => b == 0xa9
              case CHECKSIG => b == 0xac
              case RETURN => b == 0xf3
    ensures FromU8(b) == Unknown <==>
              b !in {0x01, 0x02, 0x03, 0x04, 0x50, 0x51, 0x54, 0x55, 0x56, 0x57, 0xa9, 0xac, 0xf3}
  {
  }

  type Storage = map<(Address, nat), nat>

  datatype State = State(pc: nat, stack: seq<nat>, memory: Bytes, returndata: Bytes, storage: Storage, status: Status)

  /** What a run never changes: the bytecode, the contract and the hash. */
  datatype Env = Env(code: Bytes, address: Address, sha: Sha256)

  function Load(storage: Storage, address: Address, slot: nat): nat {
    if (address, slot) in storage then storage[(address, slot)] else 0
  }

  function Arity(op: Opcode): nat {
    match op
    case PUSH(_) => 0
    case CHECKSIG => 0
    case POP => 1
    case SLOAD => 1
    case JUMP => 1
    case HASH256 => 1
    case _ => 2
  }

  function Halt(m: State, e: VmError): State {
    m.(status := Failed(e))
  }

  function Jump(env: Env, m: State, dest: nat): State {
    var d := dest % B64;
    if d >= |env.code| then Halt(m, InvalidJumpDestination(d)) else m.(pc := d)
  }

  function Return(m: State, offset: nat, size: nat): State {
    var o, s := offset % B64, size % B64;
    if o + s >= B64 then m.(status := Trapped)
    else if o + s > |m.memory| then Halt(m, MemoryOutOfBounds)
    else m.(returndata := m.memory[o..o + s], status := Done)
  }

  /** One instruction.  Operands are popped one at a time, so an underflow has
      emptied the stack by the time it is noticed. */
  function Exec(env: Env, op: Opcode, m: State): State {
    if |m.stack| < Arity(op) then Halt(m.(stack := []), StackUnderflow)
    else
      var n := |m.stack| - Arity(op);
      var rest := m.stack[..n];
      var m' := m.(stack := rest);
      match op
      case ADD => m.(stack := rest + [(m.stack[n + 1] + m.stack[n]) % MODULUS])
      case SUB => m.(stack := rest + [(m.stack[n + 1] - m.stack[n]) % MODULUS])
      case MUL => m.(stack := rest + [(m.stack[n + 1] * m.stack[n]) % MODULUS])
      case DIV => if m.stack[n] == 0 then Halt(m', DivisionByZero)
                  else m.(stack := rest + [m.stack[n + 1] / m.stack[n]])
      case PUSH(v) => m.(stack := m.stack + [BE(v)])
      case POP => m'
      case SLOAD => m.(stack := rest + [Load(m.storage, env.address, m.stack[n])])
      case SSTORE => m'.(storage := m.storage[(env.address, m.stack[n + 1]) := m.stack[n]])
      case JUMP => Jump(env, m', m.stack[n])
      case JUMPI => if m.stack[n] == 0 then m' else Jump(env, m', m.stack[n + 1])
      case RETURN => Return(m', m.stack[n + 1], m.stack[n])
      case CHECKSIG => m.(stack := m.stack + [1])
      case HASH256 => m.(stack := rest + [BE(Sha256d(env.sha, ToBE(m.stack[n], 32)))])
  }

  /** Fetch, advance and execute. */
  function Step(env: Env, m: State): State
    requires m.pc < |env.code|
  {
    var next := m.(pc := m.pc + 1);
    match FromU8(env.code[m.pc])
    case Known(op) => Exec(env, op, next)
    case Unknown => Halt(next, InvalidOpcode(env.code[m.pc]))
  }

  /** Only the jumps, 0x56 and 0x57, move the counter past the next byte. */
  lemma AdvancesByOne(env: Env, m: State)
    requires m.pc < |env.code|
    ensures env.code[m.pc] != 0x56 && env.code[m.pc] != 0x57 ==> Step(env, m).pc == m.pc + 1
  {
    match FromU8(env.code[m.pc]) {
      case Known(op) =>
        FromU8Iff(env.code[m.pc], op);
        if op != JUMP && op != JUMPI {
          StaysPut(env, op, m.(pc := m.pc + 1));
        }
      case Unknown =>
    }
  }

  lemma StaysPut(env: Env, op: Opcode, m: State)
    requires op != JUMP && op != JUMPI
    ensures Exec(env, op, m).pc == m.pc
  {
  }

  /** At most `fuel` instructions of a run. */
  function Run(env: Env, m: State, fuel: nat): State
    decreases fuel
  {
    if m.pc >= |env.code| then m.(status := Done)
    else if fuel == 0 then m
    else
      var m' := Step(env, m);
      if m'.status.Running? then Run(env, m', fuel - 1) else m'
  }

  // ----- what every run keeps ----------------------------------------------

  /** Words are below 2^256 and the program counter stays within the code. */
  ghost predicate WellFormed(env: Env, m: State) {
    && m.pc <= |env.code|
    && (forall i :: 0 <= i < |m.stack| ==> m.stack[i] < MODULUS)
    && (forall k :: k in m.storage ==> m.storage[k] < MODULUS && k.1 < MODULUS)
  }

  /** Instructions that push a computed word. */
  predicate Computes(op: Opcode) {
    op.ADD? || op.SUB? || op.MUL? || op.DIV? || op.PUSH? || op.HASH256? || op.CHECKSIG?
  }

  lemma ExecWellFormed(env: Env, op: Opcode, m: State)
    requires WellFormed(env, m)
    ensures WellFormed(env, Exec(env, op, m))
  {
    if Computes(op) {
      ComputedWordFits(env, op, m);
    } else {
      MovedWordFits(env, op, m);
    }
  }

  lemma MovedWordFits(env: Env, op: Opcode, m: State)
    requires WellFormed(env, m) && !Computes(op)
    ensures WellFormed(env, Exec(env, op, m))
  {
  }

  lemma ComputedWordFits(env: Env, op: Opcode, m: State)
    requires WellFormed(env, m) && Computes(op)
    ensures WellFormed(env, Exec(env, op, m))
  {
    if |m.stack| < Arity(op) {
      EmptiedFits(env, m);
    } else {
      hide WellFormed;
      match op {
        case ADD => SumFits(env, m);
        case SUB => DifferenceFits(env, m);
        case MUL => ProductFits(env, m);
        case DIV => QuotientWordFits(env, m);
        case PUSH(v) => ConstantFits(env, m, v);
        case HASH256 => HashFits(env, m);
        case CHECKSIG =>
          assert m.stack[..|m.stack|] == m.stack;
          PushedFits(env, m, |m.stack|, 1);
      }
    }
  }

  lemma EmptiedFits(env: Env, m: State)
    requires WellFormed(env, m)
    ensures WellFormed(env, Halt(m.(stack := []), StackUnderflow))
  {
  }

  /** A word on top of what is left of the stack. */
  lemma PushedFits(env: Env, m: State, k: nat, w: nat)
    requires WellFormed(env, m) && k <= |m.stack| && w < MODULUS
    ensures WellFormed(env, m.(stack := m.stack[..k] + [w]))
  {
  }

  lemma SumFits(env: Env, m: State)
    requires WellFormed(env, m) && |m.stack| >= 2
    ensures WellFormed(env, Exec(env, ADD, m))
  {
    hide WellFormed;
    var n := |m.stack| - 2;
    PushedFits(env, m, n, (m.stack[n + 1] + m.stack[n]) % MODULUS);
  }

  lemma DifferenceFits(env: Env, m: State)
    requires WellFormed(env, m) && |m.stack| >= 2
    ensures WellFormed(env, Exec(env, SUB, m))
  {
    hide WellFormed;
    var n := |m.stack| - 2;
    PushedFits(env, m, n, (m.stack[n + 1] - m.stack[n]) % MODULUS);
  }

  lemma ProductFits(env: Env, m: State)
    requires WellFormed(env, m) && |m.stack| >= 2
    ensures WellFormed(env, Exec(env, MUL, m))
  {
    hide WellFormed;
    var n := |m.stack| - 2;
    PushedFits(env, m, n, (m.stack[n + 1] * m.stack[n]) % MODULUS);
  }

  lemma QuotientWordFits(env: Env, m: State)
    requires WellFormed(env, m) && |m.stack| >= 2
    ensures WellFormed(env, Exec(env, DIV, m))
  {
    var n := |m.stack| - 2;
    if m.stack[n] > 0 {
      QuotientFits(m.stack[n + 1], m.stack[n]);
      assert m.stack[n + 1] / m.stack[n] < MODULUS;
      hide WellFormed;
      PushedFits(env, m, n, m.stack[n + 1] / m.stack[n]);
    }
  }

  lemma ConstantFits(env: Env, m: State, v: Word)
    requires WellFormed(env, m)
    ensures WellFormed(env, Exec(env, PUSH(v), m))
  {
    hide WellFormed;
    WordBound(v);
    assert m.stack[..|m.stack|] == m.stack;
    PushedFits(env, m, |m.stack|, BE(v));
  }

  lemma HashFits(env: Env, m: State)
    requires WellFormed(env, m) && |m.stack| >= 1
    ensures WellFormed(env, Exec(env, HASH256, m))
  {
    hide WellFormed;
    var n := |m.stack| - 1;
    var hash := Sha256d(env.sha, ToBE(m.stack[n], 32));
    WordBound(hash);
    PushedFits(env, m, n, BE(hash));
  }

  lemma QuotientFits(a: nat, b: nat)
    requires b > 0
    ensures a / b <= a
  {
    DivBounds(a, b);
    MulMonotone(1, b, a / b);
  }

  /** Nothing outside the contract's own storage changes, memory is never
      written, and return data only ever comes out of memory. */
  ghost predicate Framed(env: Env, m: State, m': State) {
    && (forall a: Address, s: nat :: a != env.address ==> Load(m'.storage, a, s) == Load(m.storage, a, s))
    && (forall k :: k in m.storage ==> k in m'.storage)
    && m'.memory == m.memory
    && (m'.returndata == m.returndata || |m'.returndata| <= |m.memory|)
  }

  lemma ExecFramed(env: Env, op: Opcode, m: State)
    ensures Framed(env, m, Exec(env, op, m))
  {
  }

  lemma FetchKeeps(env: Env, m: State)
    requires m.pc < |env.code| && WellFormed(env, m)
    ensures WellFormed(env, m.(pc := m.pc + 1)) && Framed(env, m, m.(pc := m.pc + 1))
    ensures var failed := Halt(m.(pc := m.pc + 1), InvalidOpcode(env.code[m.pc]));
            WellFormed(env, failed) && Framed(env, m, failed)
  {
  }

  lemma StepKeeps(env: Env, m: State)
    requires m.pc < |env.code| && WellFormed(env, m)
    ensures WellFormed(env, Step(env, m)) && Framed(env, m, Step(env, m))
  {
    hide Framed, WellFormed, Exec, Halt;
    FetchKeeps(env, m);
    var next := m.(pc := m.pc + 1);
    match FromU8(env.code[m.pc]) {
      case Known(op) =>
        ExecWellFormed(env, op, next);
        ExecFramed(env, op, next);
        FramedTransitive(env, m, next, Exec(env, op, next));
      case Unknown =>
    }
  }

  lemma FramedTransitive(env: Env, m0: State, m1: State, m2: State)
    requires Framed(env, m0, m1) && Framed(env, m1, m2)
    ensures Framed(env, m0, m2)
  {
    forall a: Address, s: nat | a != env.address
      ensures Load(m2.storage, a, s) == Load(m0.storage, a, s)
    {
      assert Load(m1.storage, a, s) == Load(m0.storage, a, s);
    }
  }

  lemma {:induction false} RunKeeps(env: Env, m: State, fuel: nat)
    requires WellFormed(env, m)
    ensures WellFormed(env, Run(env, m, fuel))
    ensures Framed(env, m, Run(env, m, fuel))
    decreases fuel
  {
    hide Exec;
    if m.pc < |env.code| && fuel > 0 {
      StepKeeps(env, m);
      var m' := Step(env, m);
      if m'.status.Running? {
        RunKeeps(env, m', fuel - 1);
        FramedTransitive(env, m, m', Run(env, m', fuel - 1));
      }
    }
  }

  /** A run that starts with empty memory, as every VM does, returns no data. */
  lemma NoReturnData(env: Env, m: State, fuel: nat)
    requires WellFormed(env, m) && m.memory == [] && m.returndata == []
    ensures Run(env, m, fuel).returndata == []
  {
    RunKeeps(env, m, fuel);
  }

  /** Once a run has halted, more fuel changes nothing; a run cut short resumes
      exactly where it stopped.  The fuel is therefore only a time limit. */
  lemma {:induction false} RunCompose(env: Env, m: State, f: nat, g: nat)
    requires m.status.Running?
    ensures var r := Run(env, m, f);
            Run(env, m, f + g) == if r.status.Running? then Run(env, r, g) else r
    decreases f
  {
    hide Exec;
    if m.pc < |env.code| && f > 0 {
      var m' := Step(env, m);
      if m'.status.Running? {
        RunCompose(env, m', f - 1, g);
      }
    }
  }

  /** The same contract storage gives the same run, whatever other contracts
      have stored. */
  ghost predicate SameView(env: Env, m: State, k: State) {
    && k.(storage := m.storage) == m
    && forall s: nat :: Load(k.storage, env.address, s) == Load(m.storage, env.address, s)
  }

  lemma {:induction false} RunNonInterference(env: Env, m: State, k: State, fuel: nat)
    requires SameView(env, m, k)
    ensures SameView(env, Run(env, m, fuel), Run(env, k, fuel))
    decreases fuel
  {
    hide Exec;
    SameViewFields(env, m, k);
    if m.pc < |env.code| && fuel > 0 {
      StepNonInterference(env, m, k);
      var m', k' := Step(env, m), Step(env, k);
      SameViewFields(env, m', k');
      if m'.status.Running? {
        RunNonInterference(env, m', k', fuel - 1);
      }
    }
  }

  lemma SameViewFields(env: Env, m: State, k: State)
    requires SameView(env, m, k)
    ensures k.pc == m.pc && k.status == m.status && k.stack == m.stack && k.memory == m.memory
  {
  }

  lemma StepNonInterference(env: Env, m: State, k: State)
    requires m.pc < |env.code| && SameView(env, m, k)
    ensures k.pc == m.pc && SameView(env, Step(env, m), Step(env, k))
  {
    hide Exec;
    match FromU8(env.code[m.pc]) {
      case Known(op) => ExecNonInterference(env, op, m.(pc := m.pc + 1), k.(pc := k.pc + 1));
      case Unknown =>
    }
  }

  lemma ExecNonInterference(env: Env, op: Opcode, m: State, k: State)
    requires SameView(env, m, k)
    ensures SameView(env, Exec(env, op, m), Exec(env, op, k))
  {
    if op.SLOAD? || op.SSTORE? {
      StorageNonInterference(env, op, m, k);
    } else {
      ExecIgnoresStorage(env, op, m, k.storage);
      assert k == m.(storage := k.storage);
    }
  }

  lemma ExecIgnoresStorage(env: Env, op: Opcode, m: State, storage: Storage)
    requires !op.SLOAD? && !op.SSTORE?
    ensures Exec(env, op, m.(storage := storage)) == Exec(env, op, m).(storage := storage)
    ensures Exec(env, op, m).storage == m.storage
  {
  }

  lemma StorageNonInterference(env: Env, op: Opcode, m: State, k: State)
    requires SameView(env, m, k) && (op.SLOAD? || op.SSTORE?)
    ensures SameView(env, Exec(env, op, m), Exec(env, op, k))
  {
    assert k == m.(storage := k.storage);
    if |m.stack| >= 1 {
      assert Load(k.storage, env.address, m.stack[|m.stack| - 1]) == Load(m.storage, env.address, m.stack[|m.stack| - 1]);
    }
    var m', k' := Exec(env, op, m), Exec(env, op, k);
    forall s: nat
      ensures Load(k'.storage, env.address, s) == Load(m'.storage, env.address, s)
    {
      assert Load(k.storage, env.address, s) == Load(m.storage, env.address, s);
    }
  }

  // ----- where nonzero words come from -------------------------------------

  /** No byte of the code is CHECKSIG or HASH256. */
  predicate Plain(code: Bytes) {
    forall i :: 0 <= i < |code| ==> code[i] != 0xac && code[i] != 0xa9
  }

  /** All words in the contract's reach are zero. */
  ghost predicate AllZero(env: Env, m: State) {
    && (forall i :: 0 <= i < |m.stack| ==> m.stack[i] == 0)
    && (forall slot: nat :: Load(m.storage, env.address, slot) == 0)
  }

  lemma ExecKeepsZero(env: Env, op: Opcode, m: State)
    requires AllZero(env, m) && op != CHECKSIG && op != HASH256
    requires op.PUSH? ==> BE(op.value) == 0
    ensures AllZero(env, Exec(env, op, m))
  {
    hide BE;
    if op.SLOAD? || op.SSTORE? {
      StorageStaysZero(env, op, m);
    } else {
      StackStaysZero(env, op, m);
    }
  }

  lemma StackStaysZero(env: Env, op: Opcode, m: State)
    requires AllZero(env, m) && op != CHECKSIG && op != HASH256 && op != SLOAD && op != SSTORE
    requires op.PUSH? ==> BE(op.value) == 0
    ensures AllZero(env, Exec(env, op, m))
  {
    hide BE;
    ExecIgnoresStorage(env, op, m, m.storage);
    var q := Exec(env, op, m);
    forall i | 0 <= i < |q.stack|
      ensures q.stack[i] == 0
    {
      if op.PUSH? && i == |m.stack| {
        assert q.stack[i] == BE(op.value);
      }
    }
  }

  lemma StorageStaysZero(env: Env, op: Opcode, m: State)
    requires AllZero(env, m) && (op == SLOAD || op == SSTORE)
    ensures AllZero(env, Exec(env, op, m))
  {
    var q := Exec(env, op, m);
    forall slot: nat
      ensures Load(q.storage, env.address, slot) == 0
    {
      assert Load(m.storage, env.address, slot) == 0;
    }
  }

  /** A contract whose code holds neither CHECKSIG nor HASH256 computes nothing
      but zeros from a zero start: PUSH pushes only zero. */
  lemma {:induction false} ZeroRun(env: Env, m: State, fuel: nat)
    requires Plain(env.code) && AllZero(env, m)
    ensures AllZero(env, Run(env, m, fuel))
    decreases fuel
  {
    hide Exec, AllZero, FromU8;
    HaltedZero(env, m, StackUnderflow);
    if m.pc < |env.code| && fuel > 0 {
      StepKeepsZero(env, m);
      var m' := Step(env, m);
      if m'.status.Running? {
        ZeroRun(env, m', fuel - 1);
      }
    }
  }

  lemma HaltedZero(env: Env, m: State, e: VmError)
    requires AllZero(env, m)
    ensures AllZero(env, m.(status := Done)) && AllZero(env, m.(pc := m.pc + 1))
    ensures AllZero(env, Halt(m.(pc := m.pc + 1), e))
  {
  }

  lemma StepKeepsZero(env: Env, m: State)
    requires m.pc < |env.code| && Plain(env.code) && AllZero(env, m)
    ensures AllZero(env, Step(env, m))
  {
    hide Exec, AllZero, FromU8;
    HaltedZero(env, m, InvalidOpcode(env.code[m.pc]));
    ConstantValues(ZERO);
    match FromU8(env.code[m.pc]) {
      case Known(op) =>
        FromU8Iff(env.code[m.pc], op);
        ExecKeepsZero(env, op, m.(pc := m.pc + 1));
      case Unknown =>
    }
  }

  /** The two instructions PUSH and JUMP, at the start of their loop. */
  ghost predicate Looping(env: Env, m: State) {
    && env.code == [0x51, 0x56]
    && m.status.Running? && m.pc == 0 && m.stack == []
  }

  /** Some bytecode never halts: PUSH (which pushes zero) then JUMP. */
  lemma {:induction false} RunDiverges(env: Env, m: State, fuel: nat)
    requires Looping(env, m)
    ensures Run(env, m, 2 * fuel).status.Running?
    decreases fuel
  {
    hide Step, Looping;
    LoopStart(env, m);
    if fuel > 0 {
      PushThenJump(env, m);
      RunDiverges(env, m, fuel - 1);
    }
  }

  lemma LoopStart(env: Env, m: State)
    requires Looping(env, m)
    ensures |env.code| == 2 && m.pc == 0 && m.status.Running?
  {
  }

  lemma PushThenJump(env: Env, m: State)
    requires Looping(env, m)
    ensures |env.code| == 2 && m.pc == 0
    ensures Step(env, m).pc == 1 && Step(env, m).status.Running? && Step(env, Step(env, m)) == m
  {
    ConstantValues(ZERO);
    FromU8Iff(env.code[0], PUSH(ZERO));
    var pushed := m.(pc := 1, stack := [0]);
    assert Step(env, m) == pushed by {
      hide BE, FromU8;
    }
    JumpToZero(env, pushed);
  }

  lemma JumpToZero(env: Env, m: State)
    requires env.code == [0x51, 0x56] && m.pc == 1 && m.stack == [0]
    ensures Step(env, m) == m.(pc := 0, stack := [])
  {
    FromU8Iff(env.code[1], JUMP);
    assert m.stack[..0] == [];
  }

  // ----- programs that tell operands apart ---------------------------------

  /** PUSH, CHECKSIG and one binary instruction put a one on top of a zero. */
  lemma OneOnZero(env: Env, m: State, f: nat)
    requires |env.code| == 3 && env.code[0] == 0x51 && env.code[1] == 0xac
    requires m.status.Running? && m.pc == 0 && m.stack == [] && f >= 2
    ensures Run(env, m, f) == Run(env, m.(pc := 2, stack := [0, 1]), f - 2)
  {
    ConstantValues(ZERO);
    FromU8Iff(0x51, PUSH(ZERO));
    FromU8Iff(0xac, CHECKSIG);
    hide FromU8, BE;
    var pushed := m.(pc := 1, stack := [0]);
    assert Step(env, m) == pushed;
    assert Step(env, pushed) == m.(pc := 2, stack := [0, 1]);
  }

  lemma OneLessZero(env: Env, m: State)
    requires m.stack == [0, 1]
    ensures Exec(env, SUB, m) == m.(stack := [1])
  {
    assert m.stack[..0] == [];
  }

  /** SUB takes the second word from the top one. */
  lemma SubProgram(env: Env, m: State)
    requires env.code == [0x51, 0xac, 0x02]
    requires m.status.Running? && m.pc == 0 && m.stack == []
    ensures Run(env, m, 3) == m.(pc := 3, stack := [1], status := Done)
  {
    OneOnZero(env, m, 3);
    FromU8Iff(0x02, SUB);
    OneLessZero(env, m.(pc := 3, stack := [0, 1]));
    hide Run, Step, Exec, FromU8;
    LastInstruction(env, m, SUB, m.(pc := 3, stack := [1]));
  }

  /** DIV divides the top word by the second one. */
  lemma DivProgram(env: Env, m: State)
    requires env.code == [0x51, 0xac, 0x04]
    requires m.status.Running? && m.pc == 0 && m.stack == []
    ensures Run(env, m, 3) == m.(pc := 3, stack := [], status := Failed(DivisionByZero))
  {
    OneOnZero(env, m, 3);
    FromU8Iff(0x04, DIV);
    LastInstruction(env, m, DIV, m.(pc := 3, stack := [], status := Failed(DivisionByZero)));
  }

  /** SSTORE stores the second word in the slot on top. */
  lemma StoreProgram(env: Env, m: State)
    requires env.code == [0x51, 0xac, 0x55]
    requires m.status.Running? && m.pc == 0 && m.stack == []
    ensures Run(env, m, 3)
         == m.(pc := 3, stack := [], storage := m.storage[(env.address, 1) := 0], status := Done)
  {
    OneOnZero(env, m, 3);
    FromU8Iff(0x55, SSTORE);
    LastInstruction(env, m, SSTORE, m.(pc := 3, stack := [], storage := m.storage[(env.address, 1) := 0]));
  }

  /** JUMPI tests the second word, not the one on top. */
  lemma BranchProgram(env: Env, m: State)
    requires env.code == [0x51, 0xac, 0x57]
    requires m.status.Running? && m.pc == 0 && m.stack == []
    ensures Run(env, m, 3) == m.(pc := 3, stack := [], status := Done)
  {
    OneOnZero(env, m, 3);
    FromU8Iff(0x57, JUMPI);
    LastInstruction(env, m, JUMPI, m.(pc := 3, stack := []));
  }

  lemma LastInstruction(env: Env, m: State, op: Opcode, end: State)
    requires |env.code| == 3 && m.status.Running? && m.pc == 0 && FromU8(env.code[2]) == Known(op)
    requires Exec(env, op, m.(pc := 3, stack := [0, 1])) == end && end.pc == 3
    ensures Run(env, m.(pc := 2, stack := [0, 1]), 1) == if end.status.Running? then end.(status := Done) else end
  {
    hide Exec, FromU8;
    assert Step(env, m.(pc := 2, stack := [0, 1])) == end;
  }
}
