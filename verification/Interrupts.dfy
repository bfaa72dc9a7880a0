/**
  Interrupt state: the descriptor table and the handler table of
  `kernel/interrupt.cpp`, which every registration must keep in step, the
  64-bit gates of `include/interrupt.h`, and programs built from
  `InterruptGuard`s.
 */
module Interrupts {
  import opened Options
  import opened Words

  type Vector = v: nat | v < 256

  // ------------------------------------------------------ 32-bit descriptors ---

  datatype Gate = Gate(baseLow: nat, selector: nat, zero: nat, flags: nat, baseHigh: nat)

  const EMPTY := Gate(0, 0, 0, 0, 0)

  function GateFor(handler: Word): Gate
  {
    Gate(handler % 0x1_0000, 0x08, 0, 0x8E, handler / 0x1_0000 % 0x1_0000)
  }

  /** The address the processor jumps to. */
  function Base(g: Gate): nat
  {
    g.baseLow + g.baseHigh * 0x1_0000
  }

  /** A present ring-0 interrupt gate in the kernel's code segment that leads to the handler. */
  ghost predicate IsGateFor(g: Gate, handler: Word)
  {
    && g.baseLow < 0x1_0000 && g.baseHigh < 0x1_0000 && Base(g) == handler
    && g.selector == 8 && g.zero == 0 && g.flags == 0x8E && g.flags / 128 == 1
  }

  datatype Registration = Registration(vector: Vector, handler: Word)

  type Gates = s: seq<Gate> | |s| == 256 ghost witness seq(256, _ => EMPTY)
  type Handlers = s: seq<Word> | |s| == 256 ghost witness seq(256, _ => 0)

  datatype Tables = Tables(idt: Gates, handlers: Handlers)

  function Cleared(): Tables
  {
    Tables(seq(256, _ => EMPTY), seq(256, _ => 0))
  }

  function Register(t: Tables, r: Registration): Tables
  {
    Tables(t.idt[r.vector := GateFor(r.handler)], t.handlers[r.vector := r.handler])
  }

  function RegisterAll(t: Tables, rs: seq<Registration>): Tables
  {
    if rs == [] then t else Register(RegisterAll(t, rs[..|rs| - 1]), rs[|rs| - 1])
  }

  /** The handler registered last for a vector. */
  function LastFor(rs: seq<Registration>, v: Vector): Option<Word>
  {
    if rs == [] then None
    else if rs[|rs| - 1].vector == v then Some(rs[|rs| - 1].handler)
    else LastFor(rs[..|rs| - 1], v)
  }

  /**
    After any registrations both tables hold the last handler registered for
    each vector, its address in two 16-bit halves; a gate is present (bit 7 of
    its flags) exactly for the registered vectors, and all zero for the others.
   */
  lemma {:induction false} TablesAgree(rs: seq<Registration>, v: Vector)
    ensures var t := RegisterAll(Cleared(), rs);
      match LastFor(rs, v)
      case None => t.idt[v] == Gate(0, 0, 0, 0, 0) && t.handlers[v] == 0
      case Some(h) => t.handlers[v] == h && IsGateFor(t.idt[v], h)
  {
    if rs != [] {
      TablesAgree(rs[..|rs| - 1], v);
    }
  }

  class InterruptController {
    const idt: array<Gate>
    const handlers: array<Word>
    var enabled: bool

    ghost predicate Valid()
      reads this
    {
      idt.Length == 256 && handlers.Length == 256 && idt as object != handlers as object
    }

    ghost function View(): Tables
      requires Valid()
      reads this, idt, handlers
    {
      Tables(idt[..], handlers[..])
    }

    constructor (idt: array<Gate>, handlers: array<Word>)
      requires idt.Length == 256 && handlers.Length == 256 && idt as object != handlers as object
      ensures Valid() && this.idt == idt && this.handlers == handlers && !enabled
    {
      this.idt, this.handlers, enabled := idt, handlers, false;
    }

    method Init()
      requires Valid()
      modifies this, idt, handlers
      ensures Valid() && View() == Cleared() && enabled
      ensures forall v: Vector :: idt[v] == Gate(0, 0, 0, 0, 0) && handlers[v] == 0
    {
      for i := 0 to 256
        invariant forall j :: 0 <= j < i ==> idt[j] == EMPTY && handlers[j] == 0
      {
        handlers[i] := 0;
        idt[i] := EMPTY;
      }
      assert idt[..] == Cleared().idt && handlers[..] == Cleared().handlers;
      Enable();
    }

    method RegisterHandler(vector: Vector, handler: Word)
      requires Valid()
      modifies idt, handlers
      ensures View() == Register(old(View()), Registration(vector, handler))
      ensures handlers[vector] == handler && IsGateFor(idt[vector], handler)
      ensures forall v: Vector :: v != vector ==> idt[v] == old(idt[v]) && handlers[v] == old(handlers[v])
    {
      handlers[vector] := handler;
      var base := handler;
      idt[vector] := idt[vector].(baseLow := base % 0x1_0000);
      idt[vector] := idt[vector].(selector := 0x08, zero := 0, flags := 0x8E);
      idt[vector] := idt[vector].(baseHigh := base / 0x1_0000 % 0x1_0000);
    }

    method Enable()
      modifies this`enabled
      ensures enabled
    {
      enabled := true;
    }

    method Disable()
      modifies this`enabled
      ensures !enabled
    {
      enabled := false;
    }
  }

  // ------------------------------------------------------------- 64-bit gates ---

  datatype Gate64 = Gate64(
    offsetLow: nat, selector: nat, ist: nat, typeAttr: nat, offsetMid: nat, offsetHigh: nat, reserved: nat)

  /** `type | dpl << 5 | present << 7`, for a 4-bit gate type and a 2-bit privilege level. */
  function SetGate(addr: Word64, selector: nat, kind: nat, dpl: nat, present: bool): Gate64
    requires kind < 16 && dpl < 4
  {
    Gate64(addr % 0x1_0000, selector, 0, kind + dpl * 32 + (if present then 0x80 else 0),
           addr / 0x1_0000 % 0x1_0000, addr / 0x1_0000_0000, 0)
  }

  function HandlerAddress(g: Gate64): nat
  {
    g.offsetLow + g.offsetMid * 0x1_0000 + g.offsetHigh * 0x1_0000_0000
  }

  /** The offset fields, of 16, 16 and 32 bits, and the attribute byte give back what was put in; the rest is 0. */
  lemma GateRoundTrip(addr: Word64, selector: nat, kind: nat, dpl: nat, present: bool)
    requires kind < 16 && dpl < 4
    ensures var g := SetGate(addr, selector, kind, dpl, present);
      && HandlerAddress(g) == addr && g.selector == selector
      && g.offsetLow < 0x1_0000 && g.offsetMid < 0x1_0000 && g.offsetHigh < 0x1_0000_0000
      && g.typeAttr % 16 == kind && g.typeAttr / 16 % 2 == 0 && g.typeAttr / 32 % 4 == dpl
      && g.typeAttr < 256 && (g.typeAttr / 128 == 1 <==> present)
      && g.ist == 0 && g.reserved == 0
  {
    assert addr / 0x1_0000 / 0x1_0000 == addr / 0x1_0000_0000;
    var attr := SetGate(addr, selector, kind, dpl, present).typeAttr;
    assert attr / 32 == dpl + (if present then 4 else 0);
  }

  // ------------------------------------------------------------------- guards ---

  /** Straight-line code with guard scopes. */
  datatype Code =
    | Work
    | Enable
    | Disable
    | Then(first: Code, second: Code)
    | Guarded(body: Code)

  /** The enabled flag after running `code`: a guard re-enables only what it found enabled. */
  function After(code: Code, enabled: bool): bool
  {
    match code
    case Work => enabled
    case Enable => true
    case Disable => false
    case Then(a, b) => After(b, After(a, enabled))
    case Guarded(body) => enabled || After(body, false)
  }

  /** The flag at each piece of work, in order. */
  function During(code: Code, enabled: bool): seq<bool>
  {
    match code
    case Work => [enabled]
    case Enable => []
    case Disable => []
    case Then(a, b) => During(a, enabled) + During(b, After(a, enabled))
    case Guarded(body) => During(body, false)
  }

  // The calls that are made when the code runs: every guard is constructed and,
  // at the end of its scope, destroyed.

  datatype Call = DoWork | CallEnable | CallDisable | Construct | Destroy

  function Calls(code: Code): seq<Call>
  {
    match code
    case Work => [DoWork]
    case Enable => [CallEnable]
    case Disable => [CallDisable]
    case Then(a, b) => Calls(a) + Calls(b)
    case Guarded(body) => [Construct] + Calls(body) + [Destroy]
  }

  /** The flag, the `was_enabled_` of each live guard, and the flag at each piece of work so far. */
  datatype Trace = Trace(enabled: bool, wasEnabled: seq<bool>, seen: seq<bool>)

  function Execute(t: Trace, call: Call): Trace
  {
    match call
    case DoWork => t.(seen := t.seen + [t.enabled])
    case CallEnable => t.(enabled := true)
    case CallDisable => t.(enabled := false)
    case Construct => t.(enabled := false, wasEnabled := t.wasEnabled + [t.enabled])
    case Destroy =>
      if t.wasEnabled == [] then t
      else
        var n := |t.wasEnabled| - 1;
        t.(enabled := t.wasEnabled[n] || t.enabled, wasEnabled := t.wasEnabled[..n])
  }

  function ExecuteAll(t: Trace, calls: seq<Call>): Trace
    decreases |calls|
  {
    if calls == [] then t else ExecuteAll(Execute(t, calls[0]), calls[1..])
  }

  lemma {:induction false} ExecuteThen(t: Trace, a: seq<Call>, b: seq<Call>)
    ensures ExecuteAll(t, a + b) == ExecuteAll(ExecuteAll(t, a), b)
    decreases |a|
  {
    if a == [] {
      assert a + b == b;
    } else {
      ExecuteThen(Execute(t, a[0]), a[1..], b);
      assert (a + b)[1..] == a[1..] + b && (a + b)[0] == a[0];
    }
  }

  lemma ExecuteOne(t: Trace, call: Call)
    ensures ExecuteAll(t, [call]) == Execute(t, call)
  {
    assert [call][1..] == [];
  }

  /** `After` and `During` are what comes of the calls. */
  ghost predicate AreCalls(code: Code, t: Trace)
  {
    ExecuteAll(t, Calls(code)) == Trace(After(code, t.enabled), t.wasEnabled, t.seen + During(code, t.enabled))
  }

  lemma ThenIsCalls(a: Code, b: Code, t: Trace)
    requires AreCalls(a, t) && AreCalls(b, ExecuteAll(t, Calls(a)))
    ensures AreCalls(Then(a, b), t)
  {
    ExecuteThen(t, Calls(a), Calls(b));
    SeenInOrder(t.seen, During(a, t.enabled), During(b, After(a, t.enabled)));
  }

  lemma SeenInOrder(a: seq<bool>, b: seq<bool>, c: seq<bool>)
    ensures a + b + c == a + (b + c)
  {
  }

  lemma GuardIsCalls(body: Code, t: Trace)
    requires AreCalls(body, Execute(t, Construct))
    ensures AreCalls(Guarded(body), t)
  {
    AroundTheBody(t, Calls(body), ExecuteAll(Execute(t, Construct), Calls(body)));
    DestroyRestores(After(body, false), t.wasEnabled, t.enabled, t.seen + During(body, false));
  }

  lemma AroundTheBody(t: Trace, body: seq<Call>, t': Trace)
    requires ExecuteAll(Execute(t, Construct), body) == t'
    ensures ExecuteAll(t, [Construct] + body + [Destroy]) == Execute(t', Destroy)
  {
    ExecuteFirst(t, Construct, body);
    ExecuteLast(t, [Construct] + body, Destroy);
  }

  /** So it is whatever the code and however many guards are live. */
  lemma {:induction false} GuardsAreCalls(code: Code, t: Trace)
    ensures AreCalls(code, t)
  {
    match code
    case Work => ExecuteOne(t, DoWork);
    case Enable => ExecuteOne(t, CallEnable);
    case Disable => ExecuteOne(t, CallDisable);
    case Then(a, b) =>
      GuardsAreCalls(a, t);
      GuardsAreCalls(b, ExecuteAll(t, Calls(a)));
      ThenIsCalls(a, b, t);
    case Guarded(body) =>
      GuardsAreCalls(body, Execute(t, Construct));
      GuardIsCalls(body, t);
  }

  lemma ExecuteFirst(t: Trace, call: Call, calls: seq<Call>)
    ensures ExecuteAll(t, [call] + calls) == ExecuteAll(Execute(t, call), calls)
  {
    assert ([call] + calls)[1..] == calls;
  }

  lemma ExecuteLast(t: Trace, calls: seq<Call>, call: Call)
    ensures ExecuteAll(t, calls + [call]) == Execute(ExecuteAll(t, calls), call)
  {
    ExecuteThen(t, calls, [call]);
    ExecuteOne(ExecuteAll(t, calls), call);
  }

  lemma DestroyRestores(enabled: bool, saved: seq<bool>, last: bool, seen: seq<bool>)
    ensures Execute(Trace(enabled, saved + [last], seen), Destroy) == Trace(last || enabled, saved, seen)
  {
    assert (saved + [last])[..|saved|] == saved;
  }

  /** Code that leaves the flag to its guards. */
  predicate GuardsOnly(code: Code)
  {
    match code
    case Work => true
    case Enable => false
    case Disable => false
    case Then(a, b) => GuardsOnly(a) && GuardsOnly(b)
    case Guarded(body) => GuardsOnly(body)
  }

  /**
    The last switch in the text that is not undone by a guard around it; a
    guard undoes everything but an enable.
   */
  function LastSwitch(code: Code): Option<bool>
  {
    match code
    case Work => None
    case Enable => Some(true)
    case Disable => Some(false)
    case Then(a, b) => if LastSwitch(b).Some? then LastSwitch(b) else LastSwitch(a)
    case Guarded(body) => if LastSwitch(body) == Some(true) then Some(true) else None
  }

  /** Running code sets the flag to its last switch, or leaves it. */
  lemma {:induction false} FlagIsLastSwitch(code: Code, enabled: bool)
    ensures After(code, enabled) == if LastSwitch(code).Some? then LastSwitch(code).value else enabled
  {
    match code
    case Then(a, b) =>
      FlagIsLastSwitch(a, enabled);
      FlagIsLastSwitch(b, After(a, enabled));
    case Guarded(body) =>
      FlagIsLastSwitch(body, false);
    case _ =>
  }

  /** A guard restores the flag, whatever it was, exactly if the last switch in its body is not an enable. */
  lemma GuardRestoresIff(body: Code)
    ensures (forall enabled :: After(Guarded(body), enabled) == enabled) <==> LastSwitch(body) != Some(true)
  {
    FlagIsLastSwitch(body, false);
    assert After(Guarded(body), false) == After(body, false);
  }

  /** For each piece of work in the text, in order, whether a guard is around it. */
  function Covered(code: Code, inside: bool): seq<bool>
  {
    match code
    case Work => [inside]
    case Enable => []
    case Disable => []
    case Then(a, b) => Covered(a, inside) + Covered(b, inside)
    case Guarded(body) => Covered(body, true)
  }

  lemma {:induction false} CoveredInside(code: Code, i: nat)
    requires i < |Covered(code, true)|
    ensures Covered(code, true)[i]
  {
    match code
    case Work =>
    case Then(a, b) =>
      if i < |Covered(a, true)| {
        CoveredInside(a, i);
      } else {
        CoveredInside(b, i - |Covered(a, true)|);
      }
    case Guarded(body) =>
      CoveredInside(body, i);
  }

  /**
    However deeply guards are nested, they restore the flag, and each piece of
    work runs with interrupts on exactly if they were on and no guard is around it.
   */
  lemma {:induction false} NestedGuardsRestore(code: Code, enabled: bool)
    requires GuardsOnly(code)
    ensures After(code, enabled) == enabled
    ensures |During(code, enabled)| == |Covered(code, false)|
    ensures forall i :: 0 <= i < |During(code, enabled)| ==>
      During(code, enabled)[i] == (enabled && !Covered(code, false)[i])
  {
    match code
    case Work =>
    case Then(a, b) =>
      NestedGuardsRestore(a, enabled);
      NestedGuardsRestore(b, enabled);
    case Guarded(body) =>
      NestedGuardsRestore(body, false);
      CoveredLength(body);
      forall i | 0 <= i < |Covered(body, true)|
        ensures Covered(body, true)[i]
      {
        CoveredInside(body, i);
      }
  }

  lemma {:induction false} CoveredLength(code: Code)
    ensures |Covered(code, true)| == |Covered(code, false)|
  {
    match code
    case Then(a, b) =>
      CoveredLength(a);
      CoveredLength(b);
    case _ =>
  }
}
