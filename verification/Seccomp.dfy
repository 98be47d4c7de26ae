/**
 A deny list compiled to a classic BPF program for the kernel's system-call filter. The interpreter below is
 the meaning of such programs; the compiler writes instructions into a fixed array.
 */
module Seccomp {
  import opened Common

  const SYSCALLS_MAX: nat := 128
  const FILTER_MAX: nat := 4 + SYSCALLS_MAX * 2 + 2

  const LOAD: nat := 0x20
  const JUMP_EQUAL: nat := 0x15
  const RETURN: nat := 0x06

  const DENY: nat := 0x00050001
  const ALLOW: nat := 0x7fff0000

  datatype Instruction = Instruction(code: nat, jt: nat, jf: nat, k: nat)

  // ----- What a program does -----

  /** The system call being decided. */
  datatype SysCall = SysCall(nr: nat, arch: nat)

  datatype Outcome = Returns(value: nat) | Fault

  /**
   Run from `pc`: 0x20 loads a word of the call, 0x15 jumps on equality, 0x06 returns. Leaving the program, or an
   instruction or an offset the kernel does not know, is a fault.
   */
  function Run(program: seq<Instruction>, pc: nat, acc: nat, call: SysCall): Outcome
    decreases |program| - pc
  {
    if pc >= |program| then Fault
    else
      var f := program[pc];
      if f.code == 0x20 then
        if f.k == 0 then Run(program, pc + 1, call.nr, call)
        else if f.k == 4 then Run(program, pc + 1, call.arch, call)
        else Fault
      else if f.code == 0x15 then
        Run(program, pc + 1 + if acc == f.k then f.jt else f.jf, acc, call)
      else if f.code == 0x06 then Returns(f.k)
      else Fault
  }

  // ----- The deny list -----

  /** The first number the table gives to `name`, or -1. */
  function Number(table: seq<(string, int)>, name: string): int {
    if table == [] then -1 else if table[0].0 == name then table[0].1 else Number(table[1..], name)
  }

  function U32(n: int): nat {
    n % 0x1_0000_0000
  }

  /** The numbers compared with: those of the listed names the table knows. */
  function Known(table: seq<(string, int)>, deny: seq<string>): seq<nat> {
    if deny == [] then []
    else
      var nr := Number(table, deny[|deny| - 1]);
      Known(table, deny[..|deny| - 1]) + if nr < 0 then [] else [U32(nr)]
  }

  /** Some listed name is known and has this number. */
  predicate Listed(table: seq<(string, int)>, deny: seq<string>, nr: nat) {
    exists i :: 0 <= i < |deny| && Names(table, deny[i], nr)
  }

  predicate Names(table: seq<(string, int)>, name: string, nr: nat) {
    Number(table, name) >= 0 && U32(Number(table, name)) == nr
  }

  /** The first entry of the name decides its number. */
  ghost predicate IsFirst(table: seq<(string, int)>, name: string, k: nat) {
    k < |table| && table[k].0 == name && forall j :: 0 <= j < k ==> table[j].0 != name
  }

  lemma {:induction false} NumberIsFirst(table: seq<(string, int)>, name: string)
    ensures forall k: nat :: IsFirst(table, name, k) ==> Number(table, name) == table[k].1
    ensures (forall k :: 0 <= k < |table| ==> table[k].0 != name) ==> Number(table, name) == -1
    ensures Number(table, name) >= 0 ==> exists k: nat :: IsFirst(table, name, k)
  {
    if table != [] {
      NumberIsFirst(table[1..], name);
      if table[0].0 == name {
        assert IsFirst(table, name, 0);
      } else {
        forall k: nat | IsFirst(table, name, k) ensures Number(table, name) == table[k].1 {
          assert IsFirst(table[1..], name, k - 1);
        }
        if k: nat :| IsFirst(table[1..], name, k) {
          assert IsFirst(table, name, k + 1);
        }
      }
    }
  }

  /** A number is denied when a listed name has it in the table: its first entry there, and not a negative one. */
  lemma ListedMeans(table: seq<(string, int)>, deny: seq<string>, nr: nat)
    ensures Listed(table, deny, nr) <==>
            exists name, k: nat :: name in deny && IsFirst(table, name, k) && table[k].1 >= 0
                                   && table[k].1 % 0x1_0000_0000 == nr
  {
    hide Number;
    if i :| 0 <= i < |deny| && Names(table, deny[i], nr) {
      NumberIsFirst(table, deny[i]);
      var k: nat :| IsFirst(table, deny[i], k);
      assert deny[i] in deny;
    }
    if name, k: nat :| name in deny && IsFirst(table, name, k) && k < |table| && table[k].1 >= 0
                       && table[k].1 % 0x1_0000_0000 == nr {
      NumberIsFirst(table, name);
      var i :| 0 <= i < |deny| && deny[i] == name;
      assert Names(table, deny[i], nr);
    }
  }

  lemma {:induction false} KnownIsListed(table: seq<(string, int)>, deny: seq<string>, nr: nat)
    ensures nr in Known(table, deny) <==> Listed(table, deny, nr)
    ensures |Known(table, deny)| <= |deny|
  {
    if deny != [] {
      var n := |deny| - 1;
      KnownIsListed(table, deny[..n], nr);
      if Listed(table, deny[..n], nr) {
        var i :| 0 <= i < n && Names(table, deny[..n][i], nr);
        assert Names(table, deny[i], nr);
      }
      if Listed(table, deny, nr) && !Names(table, deny[n], nr) {
        var i :| 0 <= i < |deny| && Names(table, deny[i], nr);
        assert deny[..n][i] == deny[i];
      }
    }
  }

  // ----- The shape of a compiled program -----

  /** The prologue; the architecture test has equal targets. */
  predicate Prologue(program: seq<Instruction>) {
    && |program| >= 3
    && program[0].code == LOAD && program[0].k == 4
    && program[1].code == JUMP_EQUAL && program[1].jt == 0 && program[1].jf == 0
    && program[2].code == LOAD && program[2].k == 0
  }

  /** From 3 on, a test and a verdict for each number. */
  predicate Tests(program: seq<Instruction>, numbers: seq<nat>) {
    && |program| >= 3 + 2 * |numbers|
    && forall j :: 0 <= j < |numbers| ==> TestAt(program, 3 + 2 * j, numbers[j])
  }

  predicate TestAt(program: seq<Instruction>, pc: nat, number: nat) {
    && pc + 1 < |program|
    && program[pc] == Instruction(JUMP_EQUAL, 0, 1, number)
    && program[pc + 1] == Instruction(RETURN, 0, 0, DENY)
  }

  predicate Compiled(program: seq<Instruction>, numbers: seq<nat>) {
    && |program| == 4 + 2 * |numbers|
    && Prologue(program)
    && Tests(program, numbers)
    && program[3 + 2 * |numbers|].code == RETURN && program[3 + 2 * |numbers|].k == ALLOW
  }

  lemma {:induction false} TestsDecide(program: seq<Instruction>, numbers: seq<nat>, j: nat, call: SysCall)
    requires Compiled(program, numbers) && j <= |numbers|
    ensures Run(program, 3 + 2 * j, call.nr, call) == Returns(if call.nr in numbers[j..] then DENY else ALLOW)
    decreases |numbers| - j
  {
    var pc := 3 + 2 * j;
    if j < |numbers| {
      assert TestAt(program, pc, numbers[j]);
      assert numbers[j..] == [numbers[j]] + numbers[j + 1..];
      if call.nr == numbers[j] {
        assert Run(program, pc + 1, call.nr, call) == Returns(DENY);
      } else {
        TestsDecide(program, numbers, j + 1, call);
        assert 3 + 2 * (j + 1) == pc + 2;
      }
    }
  }

  /** On every architecture alike, the program returns the verdict of the list and never faults. */
  lemma CompiledDecides(program: seq<Instruction>, numbers: seq<nat>, call: SysCall)
    requires Compiled(program, numbers)
    ensures Run(program, 0, 0, call) == Returns(if call.nr in numbers then 0x0005_0001 else 0x7fff_0000)
  {
    TestsDecide(program, numbers, 0, call);
    assert numbers[0..] == numbers;
    assert Run(program, 2, call.arch, call) == Run(program, 3, call.nr, call);
    assert Run(program, 1, call.arch, call) == Run(program, 2, call.arch, call);
  }

  // ----- The compiler -----

  method LookUp(table: seq<(string, int)>, name: string) returns (nr: int)
    ensures nr == Number(table, name)
  {
    var i := 0;
    assert table[0..] == table;
    while i < |table|
      invariant 0 <= i <= |table|
      invariant Number(table, name) == Number(table[i..], name)
    {
      if table[i].0 == name {
        return table[i].1;
      }
      i := i + 1;
    }
    return -1;
  }

  /** Write the program into `f`, whose contents on entry are arbitrary. */
  method Compile(table: seq<(string, int)>, deny: seq<string>, audit: nat, f: array<Instruction>) returns (n: nat)
    requires |deny| <= SYSCALLS_MAX && f.Length == FILTER_MAX
    modifies f
    ensures n <= FILTER_MAX
    ensures Compiled(f[..n], Known(table, deny))
  {
    hide Number, U32;
    f[0] := Instruction(LOAD, 0, 0, 4);
    f[1] := Instruction(JUMP_EQUAL, 0, 0, audit);
    f[2] := f[2].(code := LOAD, k := 0);
    n := 3;
    ghost var numbers: seq<nat> := [];
    var i := 0;
    while i < |deny|
      invariant 0 <= i <= |deny| && numbers == Known(table, deny[..i])
      invariant |numbers| <= i && n == 3 + 2 * |numbers|
      invariant Prologue(f[..n]) && Tests(f[..n], numbers)
    {
      assert deny[..i + 1][..i] == deny[..i];
      var nr := LookUp(table, deny[i]);
      i := i + 1;
      if nr < 0 {
        continue;
      }
      ghost var before := f[..n];
      f[n] := Instruction(JUMP_EQUAL, 0, 1, U32(nr));
      f[n + 1] := Instruction(RETURN, 0, 0, DENY);
      n := n + 2;
      TestsGrow(before, f[..n], numbers, U32(nr));
      numbers := numbers + [U32(nr)];
    }
    assert deny[..i] == deny;
    ghost var before := f[..n];
    f[n] := f[n].(code := RETURN, k := ALLOW);
    n := n + 1;
    TestsStay(before, f[..n], numbers);
  }

  lemma TestsStay(before: seq<Instruction>, after: seq<Instruction>, numbers: seq<nat>)
    requires Prologue(before) && Tests(before, numbers)
    requires |before| <= |after| && before == after[..|before|]
    ensures Prologue(after) && Tests(after, numbers)
  {
    forall j | 0 <= j < |numbers| ensures TestAt(after, 3 + 2 * j, numbers[j]) {
      assert TestAt(before, 3 + 2 * j, numbers[j]);
    }
  }

  lemma TestsGrow(before: seq<Instruction>, after: seq<Instruction>, numbers: seq<nat>, number: nat)
    requires Prologue(before) && Tests(before, numbers) && |before| == 3 + 2 * |numbers|
    requires |after| == |before| + 2 && before == after[..|before|]
    requires TestAt(after, |before|, number)
    ensures Prologue(after) && Tests(after, numbers + [number])
  {
    TestsStay(before, after, numbers);
    var all := numbers + [number];
    forall j | 0 <= j < |all| ensures TestAt(after, 3 + 2 * j, all[j]) {
      if j < |numbers| {
        assert TestAt(after, 3 + 2 * j, numbers[j]);
      }
    }
  }

  // ----- Installing it -----

  datatype Errno = Eperm | Einval | Enosys | OtherErrno

  /** What the kernel answers with the filter installed, or with none. */
  function Verdict(filter: Option<seq<Instruction>>, call: SysCall): Outcome {
    if filter.None? then Returns(ALLOW) else Run(filter.value, 0, 0, call)
  }

  /**
   Returns 0, 1 (not supported here) or -1. After 0 every call is decided by the list; otherwise nothing was
   installed.
   */
  method Apply(table: seq<(string, int)>, deny: seq<string>, audit: nat,
               noNewPrivileges: Option<Errno>, install: Option<Errno>)
    returns (code: int, filter: Option<seq<Instruction>>)
    requires |deny| <= SYSCALLS_MAX
    ensures code == 0 ==> forall call: SysCall ::
              Verdict(filter, call) == Returns(if Listed(table, deny, call.nr) then DENY else ALLOW)
    ensures code != 0 ==> filter.None?
    ensures code == 0 || code == 1 || code == -1
    ensures code == 1 <==>
            && deny != []
            && (|| noNewPrivileges == Some(Eperm)
                || (noNewPrivileges.None? && (install == Some(Einval) || install == Some(Enosys))))
    ensures code == 0 <==> deny == [] || (noNewPrivileges.None? && install.None?)
    ensures filter.Some? ==> |filter.value| <= FILTER_MAX
  {
    filter := None;
    if |deny| == 0 {
      return 0, None;
    }
    if noNewPrivileges.Some? {
      return if noNewPrivileges.value == Eperm then 1 else -1, None;
    }
    var f := new Instruction[FILTER_MAX](_ => Instruction(0, 0, 0, 0));
    var n := Compile(table, deny, audit, f);
    if install.Some? {
      return if install.value in [Einval, Enosys] then 1 else -1, None;
    }
    filter := Some(f[..n]);
    code := 0;
    forall call: SysCall
      ensures Verdict(filter, call) == Returns(if Listed(table, deny, call.nr) then DENY else ALLOW)
    {
      CompiledDecides(f[..n], Known(table, deny), call);
      KnownIsListed(table, deny, call.nr);
    }
  }
}
