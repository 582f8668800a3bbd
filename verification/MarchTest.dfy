/** The March C- memory tests of the S3C2410 board code: the plain 32-bit form that checks the
    USB FIFO and the masked form that checks the LCD palette RAM.

    The memory under test is modelled together with a single fault: a stuck bit, a bit that
    cannot make one of its two transitions, or a bit that a transition in another word inverts
    or forces. The results say exactly which faults one run of the test flags. */
module MarchMemory {
  type Word = w: seq<bool> | |w| == 32 witness seq(32, _ => false)

  function Not(w: Word): Word {
    seq(32, b requires 0 <= b < 32 => !w[b])
  }

  function And(m: Word, w: Word): Word {
    seq(32, b requires 0 <= b < 32 => m[b] && w[b])
  }

  /** The 32 bits of an unsigned int, least significant first. */
  function Bits(n: nat): Word {
    seq(32, b requires 0 <= b < 32 => BitOf(n, b))
  }

  predicate BitOf(n: nat, b: nat) {
    if b == 0 then n % 2 == 1 else BitOf(n / 2, b - 1)
  }

  datatype Effect = Invert | Force(value: bool)

  function Disturbed(e: Effect, b: bool): bool {
    match e
    case Invert => !b
    case Force(v) => v
  }

  /** `rising` names the transition from 0 to 1, its negation the one from 1 to 0. */
  datatype Fault =
    | Sound
    | StuckAt(cell: nat, bit: nat, value: bool)
    | Transition(cell: nat, bit: nat, rising: bool)
    | Coupling(aggressor: nat, abit: nat, rising: bool, cell: nat, bit: nat, effect: Effect)
  {
    /** The fault sits inside a memory of `n` words; a coupling joins two different words. */
    predicate Within(n: nat) {
      !Sound? ==>
        cell < n && bit < 32 && (Coupling? ==> aggressor < n && abit < 32 && aggressor != cell)
    }

    /** The one bit whose contents may deviate from what was written. */
    predicate Spoils(c: nat, b: nat) {
      !Sound? && c == cell && b == bit
    }
  }

  function Load(f: Fault, cells: seq<Word>, i: nat): Word
    requires i < |cells|
  {
    if f.StuckAt? && f.cell == i && f.bit < 32 then cells[i][f.bit := f.value] else cells[i]
  }

  function Store(f: Fault, cells: seq<Word>, i: nat, w: Word): (r: seq<Word>)
    requires i < |cells| && f.Within(|cells|)
    ensures |r| == |cells|
  {
    match f
    case Sound => cells[i := w]
    case StuckAt(_, _, _) => cells[i := w]
    case Transition(c, b, rising) =>
      if i == c && cells[i][b] == !rising && w[b] == rising
      then cells[i := w[b := !rising]]
      else cells[i := w]
    case Coupling(a, ab, rising, c, b, e) =>
      if i == a && cells[i][ab] == !rising && w[ab] == rising
      then cells[i := w][c := cells[c][b := Disturbed(e, cells[c][b])]]
      else cells[i := w]
  }

  /** The words under test, reachable only through loads and stores. */
  class Memory {
    const fault: Fault
    const cells: array<Word>

    ghost predicate Valid() {
      fault.Within(cells.Length)
    }

    method Read(i: nat) returns (w: Word)
      requires i < cells.Length
      ensures w == Load(fault, cells[..], i)
    {
      w := cells[i];
      if fault.StuckAt? && fault.cell == i && fault.bit < 32 {
        w := w[fault.bit := fault.value];
      }
    }

    method Write(i: nat, w: Word)
      requires Valid() && i < cells.Length
      modifies cells
      ensures cells[..] == Store(fault, old(cells[..]), i, w)
    {
      var before := cells[i];
      cells[i] := w;
      match fault
      case Transition(c, b, rising) =>
        if i == c && before[b] == !rising && w[b] == rising {
          cells[i] := w[b := !rising];
        }
      case Coupling(a, ab, rising, c, b, e) =>
        if i == a && before[ab] == !rising && w[ab] == rising {
          cells[c] := cells[c][b := Disturbed(e, cells[c][b])];
        }
      case _ =>
    }
  }
}

module MarchTest {
  import opened MarchMemory

  // ---------- the runs as functions of the memory contents ----------

  function Index(up: bool, k: nat, n: nat): nat
    requires k < n
  {
    if up then k else n - 1 - k
  }

  function Fill(f: Fault, cells: seq<Word>, pattern: Word, k: nat): (r: seq<Word>)
    requires f.Within(|cells|) && k <= |cells|
    ensures |r| == |cells|
    decreases |cells| - k
  {
    if k == |cells| then cells else Fill(f, Store(f, cells, k, pattern), pattern, k + 1)
  }

  predicate Differs(mask: Word, x: Word, y: Word) {
    And(mask, x) != And(mask, y)
  }

  datatype Run = Run(cells: seq<Word>, error: bool)

  /** One march element from its k-th step on: read, write, compare what was read. */
  function Element(f: Fault, r: Run, up: bool, pattern: Word, mask: Word, k: nat): (r': Run)
    requires f.Within(|r.cells|) && k <= |r.cells|
    ensures |r'.cells| == |r.cells|
    decreases |r.cells| - k
  {
    if k == |r.cells| then r
    else
      var i := Index(up, k, |r.cells|);
      var rp := Load(f, r.cells, i);
      Element(f, Run(Store(f, r.cells, i, pattern), r.error || Differs(mask, rp, Not(pattern))),
              up, pattern, mask, k + 1)
  }

  /** The closing read-only sweep. */
  function Sweep(f: Fault, r: Run, pattern: Word, mask: Word, k: nat): bool
    requires k <= |r.cells|
    decreases |r.cells| - k
  {
    if k == |r.cells| then r.error
    else Sweep(f, r.(error := r.error || Differs(mask, Load(f, r.cells, k), pattern)), pattern, mask, k + 1)
  }

  function MarchRun(f: Fault, r: Run, pattern: Word, mask: Word): (r': Run)
    requires f.Within(|r.cells|)
  {
    var r0 := Run(Fill(f, r.cells, pattern, 0), r.error);
    var r1 := Element(f, r0, true, Not(pattern), mask, 0);
    var r2 := Element(f, r1, true, pattern, mask, 0);
    var r3 := Element(f, r2, false, Not(pattern), mask, 0);
    var r4 := Element(f, r3, false, pattern, mask, 0);
    Run(r4.cells, Sweep(f, r4, pattern, mask, 0))
  }

  // ---------- what an element does to the one unreliable bit ----------

  predicate Done(up: bool, c: nat, k: nat, n: nat) {
    if up then c < k else n - 1 - c < k
  }

  /** In an element writing `pattern` over its complement, the aggressor makes the disturbing transition. */
  predicate Fires(f: Fault, pattern: Word)
    requires f.Coupling? && f.abit < 32
  {
    pattern[f.abit] == f.rising
  }

  function Stored(f: Fault, pattern: Word, v: bool): bool
    requires !f.Sound? && f.bit < 32
  {
    if f.Transition? && v == !f.rising then v else pattern[f.bit]
  }

  /** The stored value of the unreliable bit after k steps, from its value `v` at the start. */
  function VictimAfter(f: Fault, up: bool, pattern: Word, n: nat, k: nat, v: bool): bool
    requires f.Within(n) && !f.Sound?
  {
    var dv := Done(up, f.cell, k, n);
    if !f.Coupling? then (if dv then Stored(f, pattern, v) else v)
    else
      var da := Done(up, f.aggressor, k, n);
      var first := up == (f.aggressor < f.cell);
      if !dv then (if da && Fires(f, pattern) then Disturbed(f.effect, v) else v)
      else if da && !first && Fires(f, pattern) then Disturbed(f.effect, pattern[f.bit])
      else pattern[f.bit]
  }

  /** The value the element reads from the unreliable bit. */
  function Seen(f: Fault, up: bool, pattern: Word, v: bool): bool
    requires !f.Sound? && (f.Coupling? ==> f.abit < 32)
  {
    if f.StuckAt? then f.value
    else if f.Coupling? && up == (f.aggressor < f.cell) && Fires(f, pattern) then Disturbed(f.effect, v)
    else v
  }

  ghost predicate Midway(f: Fault, cells: seq<Word>, up: bool, pattern: Word, k: nat, v: bool)
    requires f.Within(|cells|) && k <= |cells|
  {
    && (forall c, b :: 0 <= c < |cells| && 0 <= b < 32 && !f.Spoils(c, b) ==>
          cells[c][b] == (if Done(up, c, k, |cells|) then pattern[b] else !pattern[b]))
    && (!f.Sound? ==> cells[f.cell][f.bit] == VictimAfter(f, up, pattern, |cells|, k, v))
  }

  lemma DiffersBits(mask: Word, x: Word, y: Word)
    ensures Differs(mask, x, y) <==> exists b :: 0 <= b < 32 && mask[b] && x[b] != y[b]
  {
    if b :| 0 <= b < 32 && mask[b] && x[b] != y[b] {
      assert And(mask, x)[b] != And(mask, y)[b];
    }
    if forall b :: 0 <= b < 32 && mask[b] ==> x[b] == y[b] {
      assert And(mask, x) == And(mask, y);
    }
  }

  lemma StepReliable(f: Fault, cells: seq<Word>, up: bool, pattern: Word, k: nat, v: bool, c: nat, b: nat)
    requires f.Within(|cells|) && k < |cells| && Midway(f, cells, up, pattern, k, v)
    requires c < |cells| && b < 32 && !f.Spoils(c, b)
    ensures Store(f, cells, Index(up, k, |cells|), pattern)[c][b]
         == if Done(up, c, k + 1, |cells|) then pattern[b] else !pattern[b]
  {
    assert Done(up, c, k + 1, |cells|) <==> Done(up, c, k, |cells|) || c == Index(up, k, |cells|);
  }

  lemma StepVictim(f: Fault, cells: seq<Word>, up: bool, pattern: Word, k: nat, v: bool)
    requires f.Within(|cells|) && k < |cells| && Midway(f, cells, up, pattern, k, v) && !f.Sound?
    ensures Store(f, cells, Index(up, k, |cells|), pattern)[f.cell][f.bit]
         == VictimAfter(f, up, pattern, |cells|, k + 1, v)
  {
    if f.Coupling? {
      assert cells[f.aggressor][f.abit] ==
             if Done(up, f.aggressor, k, |cells|) then pattern[f.abit] else !pattern[f.abit];
    }
  }

  lemma StepFlag(f: Fault, cells: seq<Word>, up: bool, pattern: Word, mask: Word, k: nat, v: bool)
    requires f.Within(|cells|) && k < |cells| && Midway(f, cells, up, pattern, k, v)
    ensures var i := Index(up, k, |cells|);
            Differs(mask, Load(f, cells, i), Not(pattern)) <==>
            !f.Sound? && i == f.cell && mask[f.bit] && Seen(f, up, pattern, v) != !pattern[f.bit]
  {
    var i := Index(up, k, |cells|);
    DiffersBits(mask, Load(f, cells, i), Not(pattern));
    assert forall b :: 0 <= b < 32 && !f.Spoils(i, b) ==> Load(f, cells, i)[b] == !pattern[b];
    if !f.Sound? && i == f.cell {
      assert Load(f, cells, i)[f.bit] == Seen(f, up, pattern, v);
    }
  }

  /** One step keeps the midway picture; it flags exactly a visible wrong victim bit. */
  lemma ElementStep(f: Fault, cells: seq<Word>, up: bool, pattern: Word, mask: Word, k: nat, v: bool)
    requires f.Within(|cells|) && k < |cells| && Midway(f, cells, up, pattern, k, v)
    ensures var i := Index(up, k, |cells|);
            && Midway(f, Store(f, cells, i, pattern), up, pattern, k + 1, v)
            && (Differs(mask, Load(f, cells, i), Not(pattern)) <==>
                !f.Sound? && i == f.cell && mask[f.bit] && Seen(f, up, pattern, v) != !pattern[f.bit])
  {
    var next := Store(f, cells, Index(up, k, |cells|), pattern);
    forall c, b | 0 <= c < |cells| && 0 <= b < 32 && !f.Spoils(c, b)
      ensures next[c][b] == if Done(up, c, k + 1, |cells|) then pattern[b] else !pattern[b]
    {
      StepReliable(f, cells, up, pattern, k, v, c, b);
    }
    if !f.Sound? {
      StepVictim(f, cells, up, pattern, k, v);
    }
    StepFlag(f, cells, up, pattern, mask, k, v);
  }

  lemma {:induction false} ElementFrom(f: Fault, r: Run, up: bool, pattern: Word, mask: Word, k: nat, v: bool)
    requires f.Within(|r.cells|) && k <= |r.cells| && Midway(f, r.cells, up, pattern, k, v)
    ensures var r' := Element(f, r, up, pattern, mask, k);
            && Midway(f, r'.cells, up, pattern, |r.cells|, v)
            && (r'.error <==> r.error || (!f.Sound? && !Done(up, f.cell, k, |r.cells|) && mask[f.bit]
                                          && Seen(f, up, pattern, v) != !pattern[f.bit]))
    decreases |r.cells| - k
  {
    if k < |r.cells| {
      var i := Index(up, k, |r.cells|);
      ElementStep(f, r.cells, up, pattern, mask, k, v);
      var next := Run(Store(f, r.cells, i, pattern), r.error || Differs(mask, Load(f, r.cells, i), Not(pattern)));
      ElementFrom(f, next, up, pattern, mask, k + 1, v);
    }
  }

  /** Every reliable bit holds the pattern and the unreliable one holds `v`. */
  ghost predicate Holds(f: Fault, cells: seq<Word>, pattern: Word, v: bool)
    requires f.Within(|cells|)
  {
    && (forall c, b :: 0 <= c < |cells| && 0 <= b < 32 && !f.Spoils(c, b) ==> cells[c][b] == pattern[b])
    && (!f.Sound? ==> cells[f.cell][f.bit] == v)
  }

  /** The stored value of the unreliable bit after a whole element. */
  function After(f: Fault, up: bool, pattern: Word, n: nat, v: bool): bool
    requires f.Within(n)
  {
    if f.Sound? then v else VictimAfter(f, up, pattern, n, n, v)
  }

  /** The element reads a wrong value from the unreliable bit. */
  predicate Exposes(f: Fault, up: bool, pattern: Word, v: bool)
    requires f.Coupling? ==> f.abit < 32
    requires !f.Sound? ==> f.bit < 32
  {
    !f.Sound? && Seen(f, up, pattern, v) != !pattern[f.bit]
  }

  lemma ElementResult(f: Fault, r: Run, up: bool, pattern: Word, mask: Word, v: bool)
    requires f.Within(|r.cells|) && Holds(f, r.cells, Not(pattern), v)
    ensures var r' := Element(f, r, up, pattern, mask, 0);
            && Holds(f, r'.cells, pattern, After(f, up, pattern, |r.cells|, v))
            && (r'.error <==> r.error || (Exposes(f, up, pattern, v) && mask[f.bit]))
  {
    ElementFrom(f, r, up, pattern, mask, 0, v);
  }

  /** Whatever the unreliable bit holds at first, one of the five reads catches it. */
  lemma SomeReadExposes(f: Fault, n: nat, pattern: Word, not: Word, v0: bool)
    requires f.Within(n) && !f.Sound? && not == Not(pattern)
    ensures var v1 := After(f, true, not, n, v0);
            var v2 := After(f, true, pattern, n, v1);
            var v3 := After(f, false, not, n, v2);
            var v4 := After(f, false, pattern, n, v3);
            || Exposes(f, true, not, v0) || Exposes(f, true, pattern, v1)
            || Exposes(f, false, not, v2) || Exposes(f, false, pattern, v3)
            || (if f.StuckAt? then f.value else v4) != pattern[f.bit]
  {
  }

  /** What the unreliable bit stores. */
  function Content(f: Fault, cells: seq<Word>): bool
    requires f.Within(|cells|)
  {
    !f.Sound? && cells[f.cell][f.bit]
  }

  lemma {:induction false} FillResult(f: Fault, cells: seq<Word>, pattern: Word, k: nat)
    requires f.Within(|cells|) && k <= |cells|
    requires forall c, b :: 0 <= c < k && 0 <= b < 32 && !f.Spoils(c, b) ==> cells[c][b] == pattern[b]
    ensures var r := Fill(f, cells, pattern, k); Holds(f, r, pattern, Content(f, r))
    decreases |cells| - k
  {
    if k < |cells| {
      FillResult(f, Store(f, cells, k, pattern), pattern, k + 1);
    }
  }

  lemma {:induction false} SweepResult(f: Fault, r: Run, pattern: Word, mask: Word, k: nat, v: bool)
    requires f.Within(|r.cells|) && k <= |r.cells| && Holds(f, r.cells, pattern, v)
    ensures Sweep(f, r, pattern, mask, k) <==>
            r.error || (!f.Sound? && k <= f.cell && mask[f.bit]
                        && (if f.StuckAt? then f.value else v) != pattern[f.bit])
    decreases |r.cells| - k
  {
    if k < |r.cells| {
      DiffersBits(mask, Load(f, r.cells, k), pattern);
      assert forall b :: 0 <= b < 32 && !f.Spoils(k, b) ==> Load(f, r.cells, k)[b] == pattern[b];
      SweepResult(f, r.(error := r.error || Differs(mask, Load(f, r.cells, k), pattern)), pattern, mask, k + 1, v);
    }
  }

  /** A run sets the error flag exactly for the faults whose unreliable bit lies under the mask,
      and on sound memory it leaves every word equal to the pattern. */
  lemma MarchDetects(f: Fault, r: Run, pattern: Word, mask: Word)
    requires f.Within(|r.cells|)
    ensures var r' := MarchRun(f, r, pattern, mask);
            && |r'.cells| == |r.cells|
            && (r'.error <==> r.error || (!f.Sound? && mask[f.bit]))
            && (f.Sound? ==> forall c :: 0 <= c < |r.cells| ==> r'.cells[c] == pattern)
  {
    var r0 := Run(Fill(f, r.cells, pattern, 0), r.error);
    FillResult(f, r.cells, pattern, 0);
    var v0 := Content(f, r0.cells);
    var not := Not(pattern);
    assert Not(not) == pattern;
    var n := |r.cells|;
    var r1 := Element(f, r0, true, not, mask, 0);
    var v1 := After(f, true, not, n, v0);
    ElementResult(f, r0, true, not, mask, v0);
    var r2 := Element(f, r1, true, pattern, mask, 0);
    var v2 := After(f, true, pattern, n, v1);
    ElementResult(f, r1, true, pattern, mask, v1);
    var r3 := Element(f, r2, false, not, mask, 0);
    var v3 := After(f, false, not, n, v2);
    ElementResult(f, r2, false, not, mask, v2);
    var r4 := Element(f, r3, false, pattern, mask, 0);
    var v4 := After(f, false, pattern, n, v3);
    ElementResult(f, r3, false, pattern, mask, v3);
    SweepResult(f, r4, pattern, mask, 0, v4);
    if !f.Sound? {
      SomeReadExposes(f, n, pattern, not, v0);
    }
    if f.Sound? {
      forall c | 0 <= c < n
        ensures r4.cells[c] == pattern
      {
        assert forall b :: 0 <= b < 32 ==> !f.Spoils(c, b);
      }
    }
  }

  // ---------- the tests themselves ----------

  const ALL_ONES: Word := seq(32, _ => true)

  lemma PlainComparison(x: Word, y: Word)
    ensures Differs(ALL_ONES, x, y) <==> x != y
  {
    DiffersBits(ALL_ONES, x, y);
  }

  /** The test of either board memory. `mask` is the all-ones word in the plain form. */
  class MarchTester {
    const mem: Memory
    var marchError: bool

    constructor (mem: Memory)
      ensures this.mem == mem && !marchError
    {
      this.mem := mem;
      marchError := false;
    }

    ghost function State(): Run
      reads this, mem.cells
    {
      Run(mem.cells[..], marchError)
    }

    method MarchSub1(pt: int, unit: nat, pattern: Word, incdec: int)
      requires mem.Valid() && mem.cells.Length == unit + 1
      requires (pt == 0 && incdec == 1) || (pt == unit && incdec == -1)
      modifies this, mem.cells
      ensures State() == Element(mem.fault, old(State()), incdec == 1, pattern, ALL_ONES, 0)
    {
      var p := pt;
      for i: int := 0 to unit + 1
        invariant p == pt + i * incdec
        invariant Element(mem.fault, State(), incdec == 1, pattern, ALL_ONES, i)
               == Element(mem.fault, old(State()), incdec == 1, pattern, ALL_ONES, 0)
      {
        assert p == Index(incdec == 1, i, unit + 1);
        var rp := mem.Read(p);
        PlainComparison(rp, Not(pattern));
        mem.Write(p, pattern);
        if rp != Not(pattern) {
          marchError := true;
        }
        p := p + incdec;
      }
    }

    method MarchSub1M(pt: int, unit: nat, pattern: Word, incdec: int, mask: Word)
      requires mem.Valid() && mem.cells.Length == unit + 1
      requires (pt == 0 && incdec == 1) || (pt == unit && incdec == -1)
      modifies this, mem.cells
      ensures State() == Element(mem.fault, old(State()), incdec == 1, pattern, mask, 0)
    {
      var p := pt;
      for i: int := 0 to unit + 1
        invariant p == pt + i * incdec
        invariant Element(mem.fault, State(), incdec == 1, pattern, mask, i)
               == Element(mem.fault, old(State()), incdec == 1, pattern, mask, 0)
      {
        assert p == Index(incdec == 1, i, unit + 1);
        var rp := mem.Read(p);
        mem.Write(p, pattern);
        if And(mask, rp) != And(mask, Not(pattern)) {
          marchError := true;
        }
        p := p + incdec;
      }
    }

    method FillWith(unit: nat, pattern: Word)
      requires mem.Valid() && mem.cells.Length == unit + 1
      modifies mem.cells
      ensures mem.cells[..] == Fill(mem.fault, old(mem.cells[..]), pattern, 0)
    {
      var p := 0;
      for i: int := 0 to unit + 1
        invariant p == i
        invariant Fill(mem.fault, mem.cells[..], pattern, i) == Fill(mem.fault, old(mem.cells[..]), pattern, 0)
      {
        mem.Write(p, pattern);
        p := p + 1;
      }
    }

    /** The plain form: it flags every fault of the class, and nothing but faults. */
    method MarchCMinus32(unit: nat, pattern: Word)
      requires mem.Valid() && mem.cells.Length == unit + 1
      modifies this, mem.cells
      ensures State() == MarchRun(mem.fault, old(State()), pattern, ALL_ONES)
      ensures marchError <==> old(marchError) || mem.fault != Sound
      ensures mem.fault == Sound ==> forall c :: 0 <= c <= unit ==> mem.cells[c] == pattern
    {
      FillWith(unit, pattern);
      MarchSub1(0, unit, Not(pattern), 1);
      MarchSub1(0, unit, pattern, 1);
      MarchSub1(unit, unit, Not(pattern), -1);
      MarchSub1(unit, unit, pattern, -1);
      ghost var r4 := State();
      for i: int := 0 to unit + 1
        invariant mem.cells[..] == r4.cells
        invariant Sweep(mem.fault, State(), pattern, ALL_ONES, i) == Sweep(mem.fault, r4, pattern, ALL_ONES, 0)
      {
        var rp := mem.Read(i);
        PlainComparison(rp, pattern);
        if rp != pattern {
          marchError := true;
        }
      }
      MarchDetects(mem.fault, old(State()), pattern, ALL_ONES);
    }

    /** The masked form: it flags exactly the faults that show under the mask. */
    method MarchCMinusM(unit: nat, pattern: Word, mask: Word)
      requires mem.Valid() && mem.cells.Length == unit + 1
      modifies this, mem.cells
      ensures State() == MarchRun(mem.fault, old(State()), pattern, mask)
      ensures marchError <==> old(marchError) || (mem.fault != Sound && mask[mem.fault.bit])
      ensures mem.fault == Sound ==> forall c :: 0 <= c <= unit ==> mem.cells[c] == pattern
    {
      FillWith(unit, pattern);
      MarchSub1M(0, unit, Not(pattern), 1, mask);
      MarchSub1M(0, unit, pattern, 1, mask);
      MarchSub1M(unit, unit, Not(pattern), -1, mask);
      MarchSub1M(unit, unit, pattern, -1, mask);
      ghost var r4 := State();
      for i: int := 0 to unit + 1
        invariant mem.cells[..] == r4.cells
        invariant Sweep(mem.fault, State(), pattern, mask, i) == Sweep(mem.fault, r4, pattern, mask, 0)
      {
        var rp := mem.Read(i);
        if And(mask, rp) != And(mask, pattern) {
          marchError := true;
        }
      }
      MarchDetects(mem.fault, old(State()), pattern, mask);
    }

    /** The USB FIFO test passes exactly on sound memory. */
    method TestUsbFifo() returns (ok: bool)
      requires mem.Valid() && mem.cells.Length == 64
      modifies this, mem.cells
      ensures ok <==> mem.fault == Sound
    {
      marchError := false;
      MarchCMinus32(63, Bits(0x00000000));
      MarchCMinus32(63, Bits(0x0f0f0f0f));
      MarchCMinus32(63, Bits(0x33333333));
      MarchCMinus32(63, Bits(0x55555555));
      MarchCMinus32(63, Bits(0xaaaaaaaa));
      ok := !marchError;
    }

    /** The palette test sees exactly the faults in the low sixteen bits of a word. */
    method TestPaletteMemory()
      requires mem.Valid() && mem.cells.Length == 256
      modifies this, mem.cells
      ensures marchError <==> mem.fault != Sound && mem.fault.bit < 16
    {
      marchError := false;
      mem.Write(0, Bits(0x1234));
      var mask := Bits(0xffff);
      LowHalf();
      MarchCMinusM(255, Bits(0x33333333), mask);
      MarchCMinusM(255, Bits(0x55555555), mask);
      MarchCMinusM(255, Bits(0x0000ffff), mask);
      MarchCMinusM(255, Bits(0x00ff00ff), mask);
      MarchCMinusM(255, Bits(0x0f0f0f0f), mask);
      MarchCMinusM(255, Bits(0xffffffff), mask);
    }
  }

  function Pow2(n: nat): (p: nat)
    ensures p > 0
  {
    if n == 0 then 1 else 2 * Pow2(n - 1)
  }

  /** Bit b of 2^m - 1 is set exactly when b < m. */
  lemma {:induction false} OnesBits(m: nat, b: nat)
    ensures BitOf(Pow2(m) - 1, b) <==> b < m
  {
    if m == 0 {
      ZeroBits(b);
    } else if b > 0 {
      assert (Pow2(m) - 1) / 2 == Pow2(m - 1) - 1;
      OnesBits(m - 1, b - 1);
    }
  }

  lemma {:induction false} ZeroBits(b: nat)
    ensures !BitOf(0, b)
  {
    if b > 0 {
      ZeroBits(b - 1);
    }
  }

  lemma LowHalf()
    ensures forall b :: 0 <= b < 32 ==> (Bits(0xffff)[b] <==> b < 16)
  {
    assert Pow2(8) == 256;
    assert Pow2(16) == 0x10000;
    forall b | 0 <= b < 32
      ensures Bits(0xffff)[b] <==> b < 16
    {
      OnesBits(16, b);
    }
  }
}
