/** The tick engine: each tick executes the instruction at the tick's index
    modulo the program length. */
module Emu {
  import opened RustStd
  import opened Tis100

  /** The change an instruction makes to `acc`. */
  function Effect(i: Instruction): int {
    match i
    case Add(x) => x
    case Sub(x) => -(x as int)
    case Nop => 0
  }

  /** The sum of the effects of a list of instructions. */
  function TotalEffect(program: seq<Instruction>): int
    decreases |program|
  {
    if program == [] then 0
    else TotalEffect(program[..|program| - 1]) + Effect(program[|program| - 1])
  }

  /** `acc` after `n` ticks from `acc`, in unbounded integers: tick `t`
      (counted from 0) executes `program[t % |program|]`, and an empty program
      does nothing. */
  function AccAfter(acc: int, program: seq<Instruction>, n: nat): int
    decreases n
  {
    if |program| == 0 || n == 0 then acc
    else AccAfter(acc, program, n - 1) + Effect(program[(n - 1) % |program|])
  }

  /** No tick of the first `n` takes `acc` out of the `u32` range: the checked
      `+=` and `-=` of the source panic on overflow and underflow. */
  predicate NoOverflow(acc: int, program: seq<Instruction>, n: nat) {
    forall k :: 0 <= k <= n ==> 0 <= AccAfter(acc, program, k) <= MaxU32
  }

  /** `tick_n`: runs `ticks` ticks on a copy of `state`, starting from index 0. */
  method TickN(state: NodeState, instructions: seq<Instruction>, ticks: nat) returns (r: NodeState)
    requires NoOverflow(state.acc, instructions, ticks)
    ensures r.acc == AccAfter(state.acc, instructions, ticks)
    ensures r.bak == state.bak
    ensures |instructions| == 0 || ticks == 0 ==> r == state
  {
    var programLength := |instructions|;
    if programLength == 0 {
      return state;
    }
    var newState := state;
    for tick := 0 to ticks
      invariant newState.bak == state.bak
      invariant newState.acc == AccAfter(state.acc, instructions, tick)
      invariant tick == 0 ==> newState == state
    {
      ghost var next := AccAfter(state.acc, instructions, tick + 1);
      assert 0 <= next <= MaxU32;
      match instructions[tick % programLength]
      case Add(x) =>
        newState := newState.(acc := newState.acc + x);
      case Sub(x) =>
        newState := newState.(acc := newState.acc - x);
      case Nop =>
    }
    return newState;
  }

  /** Every node of `nodes` can run `ticks` ticks without overflow. */
  predicate AllNoOverflow(nodes: seq<Node>, ticks: nat) {
    forall i :: 0 <= i < |nodes| ==> NoOverflow(nodes[i].state.acc, nodes[i].instructions, ticks)
  }

  /** `tick_all_n`: takes the nodes by value, overwrites each node's state with
      `tick_n` of its own state and program, and hands the nodes back. */
  method TickAllN(nodes: seq<Node>, ticks: nat) returns (r: seq<Node>)
    requires AllNoOverflow(nodes, ticks)
    ensures |r| == |nodes|
    ensures forall i :: 0 <= i < |nodes| ==>
      && r[i].instructions == nodes[i].instructions
      && r[i].state.bak == nodes[i].state.bak
      && r[i].state.acc == AccAfter(nodes[i].state.acc, nodes[i].instructions, ticks)
  {
    r := nodes;
    for i := 0 to |r|
      invariant |r| == |nodes|
      invariant forall j :: 0 <= j < i ==>
        && r[j].instructions == nodes[j].instructions
        && r[j].state.bak == nodes[j].state.bak
        && r[j].state.acc == AccAfter(nodes[j].state.acc, nodes[j].instructions, ticks)
      invariant forall j :: i <= j < |r| ==> r[j] == nodes[j]
    {
      var newState := TickN(r[i].state, r[i].instructions, ticks);
      r := r[i := r[i].(state := newState)];
    }
  }

  lemma MulBounds(d: int, len: int)
    requires len >= 0
    ensures d >= 1 ==> d * len >= len
    ensures d <= -1 ==> d * len <= -len
  {
    if d >= 1 {
      assert d * len == (d - 1) * len + len;
    } else if d <= -1 {
      assert d * len == (d + 1) * len - len;
    }
  }

  /** Euclidean division is unique: `q * len + r` with `0 <= r < len` has
      quotient `q` and remainder `r`. */
  lemma DivModUnique(n: int, len: int, q: int, r: int)
    requires len > 0 && 0 <= r < len && n == q * len + r
    ensures n / len == q && n % len == r
  {
    var q0, r0 := n / len, n % len;
    var d := q - q0;
    assert d * len == r0 - r by {
      assert n == q0 * len + r0;
      assert q * len - q0 * len == d * len;
    }
    MulBounds(d, len);
  }

  lemma ModOfShift(a: nat, m: nat, len: nat)
    requires len > 0 && a % len == 0
    ensures (a + m) % len == m % len
  {
    var q, r := a / len, m % len;
    assert a == q * len;
    assert m == (m / len) * len + r;
    assert a + m == (q + m / len) * len + r;
    DivModUnique(a + m, len, q + m / len, r);
  }

  /** A call that starts where a whole number of cycles ended continues the
      same run: `tick_n(tick_n(s, I, a), I, b) == tick_n(s, I, a + b)` when `a`
      is a multiple of `|I|`, because every call restarts at index 0. */
  lemma {:induction false} AccAfterCompose(acc: int, program: seq<Instruction>, a: nat, b: nat)
    requires |program| == 0 || a % |program| == 0
    ensures AccAfter(AccAfter(acc, program, a), program, b) == AccAfter(acc, program, a + b)
    decreases b
  {
    if |program| > 0 && b > 0 {
      AccAfterCompose(acc, program, a, b - 1);
      ModOfShift(a, b - 1, |program|);
      assert a + b - 1 == a + (b - 1);
    }
  }

  /** The panic-freedom of a composed run splits into that of its two calls. */
  lemma NoOverflowCompose(acc: int, program: seq<Instruction>, a: nat, b: nat)
    requires |program| == 0 || a % |program| == 0
    requires NoOverflow(acc, program, a + b)
    ensures NoOverflow(acc, program, a)
    ensures NoOverflow(AccAfter(acc, program, a), program, b)
  {
    forall k | 0 <= k <= b
      ensures 0 <= AccAfter(AccAfter(acc, program, a), program, k) <= MaxU32
    {
      AccAfterCompose(acc, program, a, k);
    }
  }

  lemma TotalEffectPrefix(program: seq<Instruction>, m: nat)
    requires m < |program|
    ensures TotalEffect(program[..m + 1]) == TotalEffect(program[..m]) + Effect(program[m])
  {
    assert program[..m + 1][..m] == program[..m];
  }

  /** The closed form of a run: `n` ticks execute `n / |I|` whole cycles and
      then the first `n % |I|` instructions. */
  lemma {:induction false} AccAfterClosedForm(acc: int, program: seq<Instruction>, n: nat)
    requires |program| > 0
    ensures AccAfter(acc, program, n) ==
      acc + (n / |program|) * TotalEffect(program) + TotalEffect(program[..n % |program|])
    decreases n
  {
    if n == 0 {
      assert program[..0] == [];
    } else {
      AccAfterClosedForm(acc, program, n - 1);
      ClosedFormStep(acc, program, n);
    }
  }

  /** The inductive step of `AccAfterClosedForm`, with the quotients named. */
  lemma ClosedFormStep(acc: int, program: seq<Instruction>, n: nat)
    requires |program| > 0 && n > 0
    requires AccAfter(acc, program, n - 1) ==
      acc + ((n - 1) / |program|) * TotalEffect(program) + TotalEffect(program[..(n - 1) % |program|])
    ensures AccAfter(acc, program, n) ==
      acc + (n / |program|) * TotalEffect(program) + TotalEffect(program[..n % |program|])
  {
    var len, total := |program|, TotalEffect(program);
    var q, m := (n - 1) / len, (n - 1) % len;
    QuotientStep(n, len);
    TotalEffectPrefix(program, m);
    if m + 1 == len {
      assert program[..m + 1] == program;
      assert program[..0] == [];
      MulSucc(q, total);
    }
  }

  /** How quotient and remainder by `len` change from `n - 1` to `n`. */
  lemma QuotientStep(n: nat, len: nat)
    requires len > 0 && n > 0
    ensures (n - 1) % len + 1 < len ==> n / len == (n - 1) / len && n % len == (n - 1) % len + 1
    ensures (n - 1) % len + 1 == len ==> n / len == (n - 1) / len + 1 && n % len == 0
  {
    var q, m := (n - 1) / len, (n - 1) % len;
    if m + 1 < len {
      DivModUnique(n, len, q, m + 1);
    } else {
      DivModUnique(n, len, q + 1, 0);
    }
  }

  lemma MulSucc(q: int, t: int)
    ensures (q + 1) * t == q * t + t
  {
  }

  /** Starting from a larger `acc` shifts the whole run by the same amount. */
  lemma {:induction false} AccAfterShift(acc: int, c: int, program: seq<Instruction>, n: nat)
    ensures AccAfter(acc + c, program, n) == AccAfter(acc, program, n) + c
    decreases n
  {
    if |program| > 0 && n > 0 {
      AccAfterShift(acc, c, program, n - 1);
    }
  }

  /** Ticking one more whole cycle adds the program's total effect. */
  lemma AccAfterPeriodic(acc: int, program: seq<Instruction>, n: nat)
    requires |program| > 0
    ensures AccAfter(acc, program, |program| + n) == AccAfter(acc, program, n) + TotalEffect(program)
  {
    var len := |program|;
    AccAfterClosedForm(acc, program, len);
    DivModUnique(len, len, 1, 0);
    assert program[..0] == [];
    AccAfterCompose(acc, program, len, n);
    AccAfterShift(acc, TotalEffect(program), program, n);
  }

  /** A program of `Nop`s never changes `acc`. */
  lemma {:induction false} NopProgramIdle(acc: int, program: seq<Instruction>, n: nat)
    requires forall i :: 0 <= i < |program| ==> program[i] == Nop
    ensures AccAfter(acc, program, n) == acc
    decreases n
  {
    if |program| > 0 && n > 0 {
      NopProgramIdle(acc, program, n - 1);
    }
  }
}
