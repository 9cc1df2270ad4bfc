/** Bounded expansion with cycle detection is substitution: same successes, same text,
    same secrets, for every set of variables. */
module Substitution {
  import opened Text
  import opened Resolution

  // ---------- unbounded substitution ----------

  /** What substitution yields: text as it stands, and secrets by key. */
  datatype Piece = Verbatim(text: string) | Secret(key: string)

  /** Substitute with no limit but `fuel` on nesting and no cycle detection: `None`
      when something is missing, unterminated, or nested deeper than the fuel. */
  function Plan(e: Env, template: string, fuel: nat): Option<seq<Piece>>
    decreases fuel, 1, 0
  {
    if fuel == 0 then None else PlanRest(e, template, fuel)
  }

  function PlanRest(e: Env, rest: string, fuel: nat): Option<seq<Piece>>
    requires fuel > 0
    decreases fuel, 0, |rest|
  {
    match ScanNext(rest)
    case Plain(text) => Some([Verbatim(text)])
    case Open(_) => None
    case Reference(text, name, rest') =>
      match (PlanName(e, name, fuel), PlanRest(e, rest', fuel))
      case (Some(value), Some(tail)) => Some([Verbatim(text)] + value + tail)
      case _ => None
  }

  function PlanName(e: Env, name: string, fuel: nat): Option<seq<Piece>>
    requires fuel > 0
    decreases fuel, 0, 0
  {
    if SECRET <= name then
      var key := Trim(name[|SECRET|..]);
      if key in e.secrets then Some([Secret(key)]) else None
    else if ENV <= name then
      var key := Trim(name[|ENV|..]);
      if e.allowEnv && key in e.process then Some([Verbatim(e.process[key])]) else None
    else if name in e.generated then Some([Verbatim(e.generated[name])])
    else if name in e.vars then Plan(e, e.vars[name], fuel - 1)
    else None
  }

  function RenderPiece(secrets: map<string, string>, p: Piece): string {
    match p
    case Verbatim(t) => t
    case Secret(k) => if k in secrets then secrets[k] else ""
  }

  function Render(secrets: map<string, string>, ps: seq<Piece>): string {
    if ps == [] then "" else RenderPiece(secrets, ps[0]) + Render(secrets, ps[1..])
  }

  /** The non-empty secret values among the pieces. */
  function Values(secrets: map<string, string>, ps: seq<Piece>): set<string> {
    set i | 0 <= i < |ps| && ps[i].Secret? && ps[i].key in secrets && secrets[ps[i].key] != "" :: secrets[ps[i].key]
  }

  lemma {:induction false} RenderAppend(secrets: map<string, string>, a: seq<Piece>, b: seq<Piece>)
    ensures Render(secrets, a + b) == Render(secrets, a) + Render(secrets, b)
    decreases |a|
  {
    if a == [] {
      assert a + b == b;
    } else {
      assert (a + b)[1..] == a[1..] + b;
      RenderAppend(secrets, a[1..], b);
    }
  }

  lemma ValuesAppend(secrets: map<string, string>, a: seq<Piece>, b: seq<Piece>)
    ensures Values(secrets, a + b) == Values(secrets, a) + Values(secrets, b)
  {
    var ab := a + b;
    forall v | v in Values(secrets, a) + Values(secrets, b) ensures v in Values(secrets, ab) {
      if v in Values(secrets, a) {
        var i :| 0 <= i < |a| && a[i].Secret? && a[i].key in secrets && secrets[a[i].key] != "" && v == secrets[a[i].key];
        assert ab[i] == a[i];
      } else {
        var i :| 0 <= i < |b| && b[i].Secret? && b[i].key in secrets && secrets[b[i].key] != "" && v == secrets[b[i].key];
        assert ab[|a| + i] == b[i];
      }
    }
  }

  /** Text, then a substituted value, then the rest. */
  lemma RenderThree(secrets: map<string, string>, text: string, value: seq<Piece>, tail: seq<Piece>)
    ensures Render(secrets, [Verbatim(text)] + value + tail) == text + Render(secrets, value) + Render(secrets, tail)
    ensures Values(secrets, [Verbatim(text)] + value + tail) == Values(secrets, value) + Values(secrets, tail)
  {
    var head := [Verbatim(text)];
    RenderAppend(secrets, head + value, tail);
    RenderAppend(secrets, head, value);
    ValuesAppend(secrets, head + value, tail);
    ValuesAppend(secrets, head, value);
    RenderOne(secrets, Verbatim(text));
  }

  lemma RenderOne(secrets: map<string, string>, p: Piece)
    ensures Render(secrets, [p]) == RenderPiece(secrets, p)
    ensures Values(secrets, [p]) == if p.Secret? && p.key in secrets then Recorded(secrets[p.key]) else {}
  {
    assert [p][1..] == [];
    var vs := Values(secrets, [p]);
    if p.Secret? && p.key in secrets && secrets[p.key] != "" { assert [p][0] == p; assert secrets[p.key] in vs; }
  }

  predicate IsVariable(e: Env, name: string) {
    !(SECRET <= name) && !(ENV <= name) && name !in e.generated && name in e.vars
  }

  /** More fuel never changes a result. */
  lemma {:induction false} PlanMonotone(e: Env, template: string, f: nat, g: nat)
    requires f <= g && Plan(e, template, f).Some?
    ensures Plan(e, template, g) == Plan(e, template, f)
    decreases f, 1, 0
  {
    PlanRestMonotone(e, template, f, g);
  }

  lemma {:induction false} PlanRestMonotone(e: Env, rest: string, f: nat, g: nat)
    requires 0 < f <= g && PlanRest(e, rest, f).Some?
    ensures PlanRest(e, rest, g) == PlanRest(e, rest, f)
    decreases f, 0, |rest|
  {
    hide ScanNext;
    match ScanNext(rest)
    case Plain(_) =>
    case Open(_) =>
    case Reference(text, name, rest') =>
      PlanRestMonotone(e, rest', f, g);
      if IsVariable(e, name) { PlanMonotone(e, e.vars[name], f - 1, g - 1); }
  }

  // ---------- bounded expansion is substitution ----------

  /** What an expansion must be, given the plan. */
  ghost predicate Realises(e: Env, o: Outcome, plan: Option<seq<Piece>>) {
    match plan
    case None => o.result.Err?
    case Some(ps) => o.result == Ok(Render(e.secrets, ps)) && o.used == Values(e.secrets, ps)
  }

  lemma TerminalRealised(e: Env, max: nat, name: string, depth: nat, stack: seq<string>, fuel: nat)
    requires depth <= max && fuel > 0 && !IsVariable(e, name)
    ensures Realises(e, Lookup(e, max, name, depth, stack), PlanName(e, name, fuel))
  {
    if SECRET <= name {
      RenderOne(e.secrets, Secret(Trim(name[|SECRET|..])));
    } else if ENV <= name {
      var key := Trim(name[|ENV|..]);
      if key in e.process { RenderOne(e.secrets, Verbatim(e.process[key])); }
    } else if name in e.generated {
      RenderOne(e.secrets, Verbatim(e.generated[name]));
    }
  }

  /** Success of a bounded expansion is success of substitution, with its text and
      its secrets. */
  lemma {:induction false} ExpandSound(e: Env, max: nat, template: string, depth: nat, stack: seq<string>)
    requires Expand(e, max, template, depth, stack).result.Ok?
    ensures Plan(e, template, Left(max, depth)).Some?
    ensures Realises(e, Expand(e, max, template, depth, stack), Plan(e, template, Left(max, depth)))
    decreases Left(max, depth), 1, 0
  {
    ExpandRestSound(e, max, template, template, depth, stack);
  }

  lemma {:induction false} ExpandRestSound(e: Env, max: nat, template: string, rest: string, depth: nat, stack: seq<string>)
    requires depth <= max && ExpandRest(e, max, template, rest, depth, stack).result.Ok?
    ensures PlanRest(e, rest, Left(max, depth)).Some?
    ensures Realises(e, ExpandRest(e, max, template, rest, depth, stack), PlanRest(e, rest, Left(max, depth)))
    decreases Left(max, depth), 0, |rest|
  {
    hide ScanNext, Values;
    var fuel := Left(max, depth);
    match ScanNext(rest)
    case Plain(text) => RenderOne(e.secrets, Verbatim(text));
    case Open(_) =>
    case Reference(text, name, rest') =>
      ExpandRestSound(e, max, template, rest', depth, stack);
      if IsVariable(e, name) {
        ExpandSound(e, max, e.vars[name], depth + 1, stack + [name]);
        assert fuel - 1 == Left(max, depth + 1);
      } else {
        TerminalRealised(e, max, name, depth, stack, fuel);
      }
      RenderThree(e.secrets, text, PlanName(e, name, fuel).value, PlanRest(e, rest', fuel).value);
  }

  /** The least fuel with which a template can be substituted. */
  lemma {:induction false} LeastFuel(e: Env, template: string, fuel: nat) returns (g: nat)
    requires Plan(e, template, fuel).Some?
    ensures 0 < g <= fuel && Plan(e, template, g) == Plan(e, template, fuel)
    ensures Plan(e, template, g - 1) == None
    decreases fuel
  {
    hide PlanRest;
    if Plan(e, template, fuel - 1) == None {
      g := fuel;
    } else {
      g := LeastFuel(e, template, fuel - 1);
      PlanMonotone(e, template, fuel - 1, fuel);
    }
  }

  /** No variable being expanded can be substituted with less fuel than its own
      template has here, so none of them can occur below. */
  ghost predicate NoneSooner(e: Env, stack: seq<string>, fuel: nat)
    requires fuel > 0
  {
    forall i :: 0 <= i < |stack| ==> stack[i] in e.vars && Plan(e, e.vars[stack[i]], fuel - 1) == None
  }

  lemma PlanStep(e: Env, rest: string, fuel: nat)
    requires fuel > 0
    ensures var s := ScanNext(rest);
            PlanRest(e, rest, fuel).Some?
            <==> s.Plain? || (s.Reference? && PlanName(e, s.name, fuel).Some? && PlanRest(e, s.rest, fuel).Some?)
  {
    hide ScanNext, PlanName;
  }

  lemma ExpandStep(e: Env, max: nat, template: string, rest: string, depth: nat, stack: seq<string>)
    requires depth <= max
    ensures var s := ScanNext(rest);
            ExpandRest(e, max, template, rest, depth, stack).result.Ok?
            <==> s.Plain? || (s.Reference? && Lookup(e, max, s.name, depth, stack).result.Ok?
                              && ExpandRest(e, max, template, s.rest, depth, stack).result.Ok?)
  {
    hide ScanNext, Lookup;
  }

  lemma LookupVariable(e: Env, max: nat, name: string, depth: nat, stack: seq<string>)
    requires depth <= max && IsVariable(e, name) && name !in stack
    ensures Lookup(e, max, name, depth, stack) == Expand(e, max, e.vars[name], depth + 1, stack + [name])
  {
    hide Expand;
  }

  /** Whatever substitution can do within the depth limit, expansion does: the cycle
      check never refuses a template that has a value. */
  lemma {:induction false} ExpandComplete(e: Env, max: nat, template: string, depth: nat, stack: seq<string>, fuel: nat)
    requires 0 < fuel <= Left(max, depth) && Plan(e, template, fuel).Some? && NoneSooner(e, stack, fuel)
    ensures Expand(e, max, template, depth, stack).result.Ok?
    decreases fuel, 1, 0
  {
    ExpandRestComplete(e, max, template, template, depth, stack, fuel);
  }

  lemma {:induction false} ExpandRestComplete(e: Env, max: nat, template: string, rest: string, depth: nat,
                                              stack: seq<string>, fuel: nat)
    requires 0 < fuel <= Left(max, depth) && PlanRest(e, rest, fuel).Some? && NoneSooner(e, stack, fuel)
    ensures ExpandRest(e, max, template, rest, depth, stack).result.Ok?
    decreases fuel, 0, |rest|
  {
    hide ScanNext, NoneSooner, PlanName, Plan, PlanRest, Lookup, Expand, ExpandRest;
    PlanStep(e, rest, fuel);
    ExpandStep(e, max, template, rest, depth, stack);
    match ScanNext(rest)
    case Plain(_) =>
    case Reference(_, name, rest') =>
      ExpandRestComplete(e, max, template, rest', depth, stack, fuel);
      if IsVariable(e, name) {
        VariablePlan(e, name, fuel);
        var g := LeastFuel(e, e.vars[name], fuel - 1);
        NotOnStack(e, stack, name, fuel);
        LookupVariable(e, max, name, depth, stack);
        NoneSoonerBelow(e, stack, name, fuel, g);
        ExpandComplete(e, max, e.vars[name], depth + 1, stack + [name], g);
      } else {
        TerminalSucceeds(e, max, name, depth, stack, fuel);
      }
  }

  lemma TerminalSucceeds(e: Env, max: nat, name: string, depth: nat, stack: seq<string>, fuel: nat)
    requires depth <= max && fuel > 0 && !IsVariable(e, name) && PlanName(e, name, fuel).Some?
    ensures Lookup(e, max, name, depth, stack).result.Ok?
  {
    TerminalRealised(e, max, name, depth, stack, fuel);
  }

  lemma NotOnStack(e: Env, stack: seq<string>, name: string, fuel: nat)
    requires fuel > 0 && NoneSooner(e, stack, fuel) && name in e.vars && Plan(e, e.vars[name], fuel - 1).Some?
    ensures name !in stack
  {
  }

  lemma NoneSoonerBelow(e: Env, stack: seq<string>, name: string, fuel: nat, g: nat)
    requires 0 < g <= fuel && NoneSooner(e, stack, fuel)
    requires name in e.vars && Plan(e, e.vars[name], g - 1) == None
    ensures NoneSooner(e, stack + [name], g)
  {
    var stack' := stack + [name];
    forall i | 0 <= i < |stack'| ensures stack'[i] in e.vars && Plan(e, e.vars[stack'[i]], g - 1) == None {
      if i < |stack| {
        assert stack'[i] == stack[i];
        if Plan(e, e.vars[stack[i]], g - 1).Some? { PlanMonotone(e, e.vars[stack[i]], g - 1, fuel - 1); }
      }
    }
  }

  /** Resolving succeeds exactly when substitution needs no more than `max` nested
      variables, for every set of variables, cyclic ones included; and then the text
      and the recorded secrets are those of the substitution. */
  lemma ResolveIsSubstitution(e: Env, max: nat, template: string)
    ensures Realises(e, Expand(e, max, template, 0, []), Plan(e, template, max + 1))
  {
    if Expand(e, max, template, 0, []).result.Ok? {
      ExpandSound(e, max, template, 0, []);
    }
    if Plan(e, template, max + 1).Some? {
      ExpandComplete(e, max, template, 0, [], max + 1);
    }
  }

  /** A result is unbounded substitution's result, and raising the limit keeps it. */
  lemma RaisingTheLimit(e: Env, template: string, max: nat, fuel: nat)
    requires max >= 8 && fuel > max && Resolve(e, template).result.Ok?
    ensures Expand(e, max, template, 0, []) == Resolve(e, template)
    ensures Realises(e, Resolve(e, template), Plan(e, template, fuel))
  {
    ResolveIsSubstitution(e, MAX_DEPTH, template);
    ResolveIsSubstitution(e, max, template);
    PlanMonotone(e, template, MAX_DEPTH + 1, max + 1);
    PlanMonotone(e, template, MAX_DEPTH + 1, fuel);
  }

  // ---------- which templates have a value ----------

  /** The names a template refers to; `None` if a `{{` is never closed. */
  function References(rest: string): Option<seq<string>>
    decreases |rest|
  {
    match ScanNext(rest)
    case Plain(_) => Some([])
    case Open(_) => None
    case Reference(_, name, rest') =>
      match References(rest')
      case None => None
      case Some(names) => Some([name] + names)
  }

  predicate Defined(e: Env, name: string) {
    PlanName(e, name, 1).Some? || IsVariable(e, name)
  }

  /** The ranked variables refer only to ranked ones below them, with every reference
      defined and every template terminated; other variables may be anything. */
  ghost predicate Acyclic(e: Env, rank: map<string, nat>) {
    forall v :: v in rank && v in e.vars ==> RanksBelow(e, rank, e.vars[v], rank[v])
  }

  ghost predicate RanksBelow(e: Env, rank: map<string, nat>, template: string, bound: nat) {
    && References(template).Some?
    && forall r :: r in References(template).value ==>
         Defined(e, r) && (IsVariable(e, r) ==> r in rank && rank[r] < bound)
  }

  lemma VariablePlan(e: Env, name: string, fuel: nat)
    requires fuel > 0 && IsVariable(e, name)
    ensures PlanName(e, name, fuel) == Plan(e, e.vars[name], fuel - 1)
    ensures Plan(e, e.vars[name], fuel - 1).Some? ==> fuel > 1
    ensures fuel > 1 ==> Plan(e, e.vars[name], fuel - 1) == PlanRest(e, e.vars[name], fuel - 1)
  {
  }

  lemma TerminalPlan(e: Env, name: string, fuel: nat)
    requires fuel > 0 && !IsVariable(e, name)
    ensures PlanName(e, name, fuel) == PlanName(e, name, 1)
  {
  }

  /** What the ranks say of the first reference of a template, and of the rest. */
  lemma RanksStep(e: Env, rank: map<string, nat>, rest: string, bound: nat)
    requires RanksBelow(e, rank, rest, bound)
    ensures var s := ScanNext(rest);
            !s.Open? && (s.Reference? ==>
              && RanksBelow(e, rank, s.rest, bound) && Defined(e, s.name)
              && (IsVariable(e, s.name) ==> s.name in rank && rank[s.name] < bound))
  {
    hide ScanNext, Defined, IsVariable;
    var s := ScanNext(rest);
    if s.Reference? {
      assert s.name in References(rest).value;
      assert forall r :: r in References(s.rest).value ==> r in References(rest).value;
    }
  }

  lemma {:induction false} AcyclicPlan(e: Env, rank: map<string, nat>, rest: string, bound: nat, fuel: nat)
    requires Acyclic(e, rank) && RanksBelow(e, rank, rest, bound) && bound < fuel
    ensures PlanRest(e, rest, fuel).Some?
    decreases fuel, |rest|
  {
    hide ScanNext, Acyclic, PlanName, Plan, PlanRest, RanksBelow;
    RanksStep(e, rank, rest, bound);
    PlanStep(e, rest, fuel);
    match ScanNext(rest)
    case Plain(_) =>
    case Reference(_, name, rest') =>
      AcyclicPlan(e, rank, rest', bound, fuel);
      if IsVariable(e, name) {
        AcyclicHas(e, rank, name);
        VariablePlan(e, name, fuel);
        AcyclicPlan(e, rank, e.vars[name], rank[name], fuel - 1);
      } else {
        TerminalPlan(e, name, fuel);
      }
  }

  lemma AcyclicHas(e: Env, rank: map<string, nat>, v: string)
    requires Acyclic(e, rank) && v in e.vars && v in rank
    ensures RanksBelow(e, rank, e.vars[v], rank[v])
  {
  }

  /** A template whose variables, as far as it reaches, are defined, terminated and
      ranked 0 to 7 always resolves: at most eight of them nest. */
  lemma AcyclicResolves(e: Env, rank: map<string, nat>, template: string)
    requires Acyclic(e, rank) && RanksBelow(e, rank, template, 8)
    ensures Resolve(e, template).result.Ok?
  {
    AcyclicPlan(e, rank, template, MAX_DEPTH, MAX_DEPTH + 1);
    ResolveIsSubstitution(e, MAX_DEPTH, template);
  }

  /** The least fuel, up to `max`, that a template needs. */
  function Height(e: Env, template: string, max: nat): nat {
    if max == 0 || Plan(e, template, max - 1).None? then max else Height(e, template, max - 1)
  }

  lemma {:induction false} HeightIsLeast(e: Env, template: string, max: nat, fuel: nat)
    requires fuel <= max && Plan(e, template, fuel).Some?
    ensures 0 < Height(e, template, max) <= fuel && Plan(e, template, Height(e, template, max)).Some?
    decreases max
  {
    hide PlanRest;
    PlanMonotone(e, template, fuel, max);
    if fuel < max {
      PlanMonotone(e, template, fuel, max - 1);
      HeightIsLeast(e, template, max - 1, fuel);
    } else if Plan(e, template, max - 1).Some? {
      HeightIsLeast(e, template, max - 1, max - 1);
    }
  }

  function Rank(e: Env, v: string): nat
    requires v in e.vars
  {
    var h := Height(e, e.vars[v], MAX_DEPTH);
    if h == 0 then 0 else h - 1
  }

  /** Every variable with a value at most `MAX_DEPTH` deep, by its depth. */
  function Ranks(e: Env): map<string, nat> {
    map v | v in e.vars && Plan(e, e.vars[v], MAX_DEPTH).Some? :: Rank(e, v)
  }

  lemma VariableRanked(e: Env, name: string, fuel: nat)
    requires IsVariable(e, name) && fuel <= MAX_DEPTH && Plan(e, e.vars[name], fuel).Some?
    ensures name in Ranks(e) && Ranks(e)[name] < fuel
  {
    hide Plan, Height;
    PlanMonotone(e, e.vars[name], fuel, MAX_DEPTH);
    HeightIsLeast(e, e.vars[name], MAX_DEPTH, fuel);
  }

  lemma NamePlanned(e: Env, name: string, fuel: nat)
    requires 0 < fuel <= MAX_DEPTH + 1 && PlanName(e, name, fuel).Some?
    ensures Defined(e, name) && (IsVariable(e, name) ==> name in Ranks(e) && Ranks(e)[name] < fuel - 1)
  {
    hide Plan, Ranks, PlanName;
    if IsVariable(e, name) {
      VariablePlan(e, name, fuel);
      VariableRanked(e, name, fuel - 1);
    } else {
      TerminalPlan(e, name, fuel);
    }
  }

  lemma {:induction false} PlannedIsRanked(e: Env, rest: string, fuel: nat)
    requires 0 < fuel <= MAX_DEPTH + 1 && PlanRest(e, rest, fuel).Some?
    ensures RanksBelow(e, Ranks(e), rest, fuel - 1)
    decreases |rest|
  {
    hide ScanNext, Ranks, Defined, PlanName;
    match ScanNext(rest)
    case Plain(_) =>
    case Open(_) =>
    case Reference(_, name, rest') =>
      PlannedIsRanked(e, rest', fuel);
      NamePlanned(e, name, fuel);
  }

  lemma RanksAreAcyclic(e: Env)
    ensures Acyclic(e, Ranks(e))
  {
    hide RanksBelow, Height, PlanRest;
    forall v | v in Ranks(e) && v in e.vars ensures RanksBelow(e, Ranks(e), e.vars[v], Ranks(e)[v]) {
      HeightIsLeast(e, e.vars[v], MAX_DEPTH, MAX_DEPTH);
      PlannedIsRanked(e, e.vars[v], Height(e, e.vars[v], MAX_DEPTH));
    }
  }

  /** A template resolves if and only if the variables it reaches can be ranked below
      eight, each referring only to lower ones, with every reference defined and
      every template terminated. */
  lemma ResolvesIffAcyclic(e: Env, template: string)
    ensures Resolve(e, template).result.Ok? <==> exists rank :: Acyclic(e, rank) && RanksBelow(e, rank, template, 8)
  {
    hide Resolve, Acyclic, RanksBelow, Ranks, PlanRest;
    if Resolve(e, template).result.Ok? {
      PlannedIfResolved(e, template);
      PlannedIsRanked(e, template, MAX_DEPTH + 1);
      RanksAreAcyclic(e);
      assert Acyclic(e, Ranks(e)) && RanksBelow(e, Ranks(e), template, MAX_DEPTH);
    }
    if rank: map<string, nat> :| Acyclic(e, rank) && RanksBelow(e, rank, template, MAX_DEPTH) {
      AcyclicResolves(e, rank, template);
    }
  }

  lemma PlannedIfResolved(e: Env, template: string)
    requires Resolve(e, template).result.Ok?
    ensures PlanRest(e, template, MAX_DEPTH + 1).Some?
  {
    hide PlanRest, Expand;
    ResolveIsSubstitution(e, MAX_DEPTH, template);
  }

  lemma {:induction false} ReferencePlanned(e: Env, rest: string, name: string, fuel: nat)
    requires fuel > 0 && PlanRest(e, rest, fuel).Some? && IsVariable(e, name)
    requires References(rest).Some? && name in References(rest).value
    ensures fuel > 1 && Plan(e, e.vars[name], fuel - 1).Some?
    decreases |rest|
  {
    hide ScanNext;
    match ScanNext(rest)
    case Plain(_) =>
    case Open(_) =>
    case Reference(_, first, rest') =>
      if name == first {
        VariablePlan(e, name, fuel);
      } else {
        ReferencePlanned(e, rest', name, fuel);
      }
  }

  /** Each name is a variable whose template refers to the next. */
  ghost predicate Chain(e: Env, names: seq<string>) {
    && (forall i :: 0 <= i < |names| ==> IsVariable(e, names[i]))
    && (forall i :: 0 <= i < |names| - 1 ==>
          References(e.vars[names[i]]).Some? && names[i + 1] in References(e.vars[names[i]]).value)
  }

  lemma ChainLink(e: Env, names: seq<string>, i: nat)
    requires Chain(e, names) && i + 1 < |names|
    ensures IsVariable(e, names[i]) && IsVariable(e, names[i + 1])
    ensures References(e.vars[names[i]]).Some? && names[i + 1] in References(e.vars[names[i]]).value
  {
  }

  lemma LinkNeedsFuel(e: Env, a: string, b: string, fuel: nat)
    requires IsVariable(e, a) && IsVariable(e, b) && Plan(e, e.vars[a], fuel).Some?
    requires References(e.vars[a]).Some? && b in References(e.vars[a]).value
    ensures fuel > 1 && Plan(e, e.vars[b], fuel - 1).Some?
  {
    hide References, PlanRest;
    ReferencePlanned(e, e.vars[a], b, fuel);
  }

  lemma {:induction false} ChainNeedsFuel(e: Env, names: seq<string>, k: nat, fuel: nat)
    requires Chain(e, names) && k < |names| && Plan(e, e.vars[names[0]], fuel).Some?
    ensures fuel > k && Plan(e, e.vars[names[k]], fuel - k).Some?
    decreases k
  {
    hide PlanRest, IsVariable, References;
    if k > 0 {
      ChainNeedsFuel(e, names, k - 1, fuel);
      ChainLink(e, names, k - 1);
      LinkNeedsFuel(e, names[k - 1], names[k], fuel - (k - 1));
      assert fuel - (k - 1) - 1 == fuel - k;
    }
  }

  /** A variable that leads back to itself never resolves, however high the limit. */
  lemma CyclesNeverResolve(e: Env, names: seq<string>, max: nat)
    requires Chain(e, names) && |names| > 1 && names[0] == names[|names| - 1]
    ensures Expand(e, max, e.vars[names[0]], 0, []).result.Err?
  {
    hide PlanRest, References, Expand;
    ResolveIsSubstitution(e, max, e.vars[names[0]]);
    if Plan(e, e.vars[names[0]], max + 1).Some? {
      var g := LeastFuel(e, e.vars[names[0]], max + 1);
      ChainNeedsFuel(e, names, |names| - 1, g);
      PlanMonotone(e, e.vars[names[0]], g - (|names| - 1), g - 1);
    }
  }

  // ---------- secrets are terminal ----------

  lemma {:induction false} PlanIgnoresSecretText(e: Env, e': Env, template: string, fuel: nat)
    requires e' == e.(secrets := e'.secrets) && e'.secrets.Keys == e.secrets.Keys
    ensures Plan(e', template, fuel) == Plan(e, template, fuel)
    decreases fuel, 1, 0
  {
    if fuel > 0 { PlanRestIgnoresSecretText(e, e', template, fuel); }
  }

  /** One reference of a template, and what follows it. */
  lemma PlanReference(e: Env, rest: string, fuel: nat)
    requires fuel > 0 && ScanNext(rest).Reference?
    ensures var r := ScanNext(rest);
            PlanRest(e, rest, fuel)
            == match (PlanName(e, r.name, fuel), PlanRest(e, r.rest, fuel))
               { case (Some(value), Some(tail)) => Some([Verbatim(r.text)] + value + tail)
                 case _ => None }
  {
    hide ScanNext, PlanName;
  }

  lemma PlanWithoutReference(e: Env, e': Env, rest: string, fuel: nat)
    requires fuel > 0 && !ScanNext(rest).Reference?
    ensures PlanRest(e', rest, fuel) == PlanRest(e, rest, fuel)
  {
    hide ScanNext;
  }

  lemma {:induction false} PlanRestIgnoresSecretText(e: Env, e': Env, rest: string, fuel: nat)
    requires e' == e.(secrets := e'.secrets) && e'.secrets.Keys == e.secrets.Keys && fuel > 0
    ensures PlanRest(e', rest, fuel) == PlanRest(e, rest, fuel)
    decreases fuel, 0, |rest|
  {
    hide ScanNext, PlanRest, PlanName, Plan;
    var r := ScanNext(rest);
    if !r.Reference? {
      PlanWithoutReference(e, e', rest, fuel);
    } else {
      PlanReference(e, rest, fuel);
      PlanReference(e', rest, fuel);
      PlanRestIgnoresSecretText(e, e', r.rest, fuel);
      if IsVariable(e, r.name) {
        VariablePlan(e, r.name, fuel);
        VariablePlan(e', r.name, fuel);
        PlanIgnoresSecretText(e, e', e.vars[r.name], fuel - 1);
      } else {
        TerminalKeys(e, e', r.name, fuel);
      }
    }
  }

  lemma TerminalKeys(e: Env, e': Env, name: string, fuel: nat)
    requires e' == e.(secrets := e'.secrets) && e'.secrets.Keys == e.secrets.Keys && fuel > 0 && !IsVariable(e, name)
    ensures PlanName(e', name, fuel) == PlanName(e, name, fuel) && !IsVariable(e', name)
  {
    assert forall k :: k in e.secrets <==> k in e'.secrets.Keys;
  }

  /** Secret text is never expanded again: with other values under the same keys, the
      same template succeeds alike and differs only where the values stand, and each
      non-empty value that was substituted is recorded. */
  lemma SecretsAreTerminal(e: Env, e': Env, template: string) returns (ps: seq<Piece>)
    requires e' == e.(secrets := e'.secrets) && e'.secrets.Keys == e.secrets.Keys
    ensures Resolve(e, template).result.Ok? <==> Resolve(e', template).result.Ok?
    ensures Resolve(e, template).result.Ok? ==>
              && Resolve(e, template) == Outcome(Ok(Render(e.secrets, ps)), Values(e.secrets, ps))
              && Resolve(e', template) == Outcome(Ok(Render(e'.secrets, ps)), Values(e'.secrets, ps))
  {
    ResolveIsSubstitution(e, MAX_DEPTH, template);
    ResolveIsSubstitution(e', MAX_DEPTH, template);
    PlanIgnoresSecretText(e, e', template, MAX_DEPTH + 1);
    var plan := Plan(e, template, MAX_DEPTH + 1);
    ps := if plan.Some? then plan.value else [];
  }
}
