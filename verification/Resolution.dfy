/** `{{template}}` resolution: bounded recursive substitution with cycle detection. */
module Resolution {
  import opened Text

  datatype Result<+T, +E> = Ok(value: T) | Err(error: E)

  datatype Error =
    | VariableRecursion(name: string)
    | UnterminatedTemplate(template: string)
    | UnknownSecret(key: string)
    | UnknownVariable(name: string)
    | EnvNotAllowed(key: string)

  /** Where names are looked up.  `process` is the process environment and
      `generated` what the generators yield: both come from outside. */
  datatype Env = Env(vars: map<string, string>, secrets: map<string, string>,
                     allowEnv: bool, process: map<string, string>, generated: map<string, string>)

  const MAX_DEPTH: nat := 8

  const SECRET := "secret:"
  const ENV := "env:"

  // ---------- scanning ----------

  /** What a stretch of template starts with: text only, text and an open `{{`
      without its `}}`, or text and a reference. */
  datatype Scan = Plain(text: string) | Open(text: string) | Reference(text: string, name: string, rest: string)

  function ScanNext(rest: string): (r: Scan)
    ensures r.Reference? ==> |r.rest| < |rest|
    ensures r.Plain? ==> r.text == rest
    ensures r.Plain? <==> !Contains(rest, "{{")
  {
    match Find(rest, "{{")
    case None => Plain(rest)
    case Some(start) =>
      var after := rest[start + 2..];
      match Find(after, "}}")
      case None => Open(rest[..start])
      case Some(end) => Reference(rest[..start], Trim(after[..end]), after[end + 2..])
  }

  // ---------- expansion, as a function ----------

  /** The outcome of expanding, and the secrets recorded on the way. */
  datatype Outcome = Outcome(result: Result<string, Error>, used: set<string>)

  function Recorded(value: string): set<string> {
    if value == "" then {} else {value}
  }

  function Left(max: nat, depth: nat): nat {
    if depth > max then 0 else max + 1 - depth
  }

  function Expand(e: Env, max: nat, template: string, depth: nat, stack: seq<string>): Outcome
    decreases Left(max, depth), 1, 0
  {
    if depth > max then
      Outcome(Err(VariableRecursion(if stack == [] then template else stack[|stack| - 1])), {})
    else ExpandRest(e, max, template, template, depth, stack)
  }

  /** Expand what is left of a template. */
  function ExpandRest(e: Env, max: nat, template: string, rest: string, depth: nat, stack: seq<string>): Outcome
    requires depth <= max
    decreases Left(max, depth), 0, |rest|
  {
    match ScanNext(rest)
    case Plain(text) => Outcome(Ok(text), {})
    case Open(_) => Outcome(Err(UnterminatedTemplate(template)), {})
    case Reference(text, name, rest') =>
      var value := Lookup(e, max, name, depth, stack);
      if value.result.Err? then value
      else
        var tail := ExpandRest(e, max, template, rest', depth, stack);
        Outcome(Prepend(text + value.result.value, tail.result), value.used + tail.used)
  }

  function Lookup(e: Env, max: nat, name: string, depth: nat, stack: seq<string>): Outcome
    requires depth <= max
    decreases Left(max, depth), 0, 0
  {
    if SECRET <= name then
      var key := Trim(name[|SECRET|..]);
      if key in e.secrets then Outcome(Ok(e.secrets[key]), Recorded(e.secrets[key]))
      else Outcome(Err(UnknownSecret(key)), {})
    else if ENV <= name then
      var key := Trim(name[|ENV|..]);
      if !e.allowEnv then Outcome(Err(EnvNotAllowed(key)), {})
      else if key in e.process then Outcome(Ok(e.process[key]), {})
      else Outcome(Err(UnknownVariable(ENV + key)), {})
    else if name in e.generated then Outcome(Ok(e.generated[name]), {})
    else if name !in e.vars then Outcome(Err(UnknownVariable(name)), {})
    else if name in stack then Outcome(Err(VariableRecursion(name)), {})
    else Expand(e, max, e.vars[name], depth + 1, stack + [name])
  }

  function Resolve(e: Env, template: string): Outcome {
    Expand(e, MAX_DEPTH, template, 0, [])
  }

  // ---------- the resolver ----------

  class Stack {
    var names: seq<string>

    constructor ()
      ensures names == []
    {
      names := [];
    }
  }

  class Resolver {
    var vars: map<string, string>
    const secrets: map<string, string>
    const allowEnv: bool
    const process: map<string, string>
    const generated: map<string, string>
    var usedSecrets: set<string>

    constructor (vars: map<string, string>, secrets: map<string, string>, allowEnv: bool,
                 process: map<string, string>, generated: map<string, string>)
      ensures this.vars == vars && this.secrets == secrets && this.allowEnv == allowEnv
      ensures this.process == process && this.generated == generated && usedSecrets == {}
    {
      this.vars, this.secrets, this.allowEnv := vars, secrets, allowEnv;
      this.process, this.generated, this.usedSecrets := process, generated, {};
    }

    function Scope(): Env
      reads this`vars
    {
      Env(vars, secrets, allowEnv, process, generated)
    }

    method Set(key: string, value: string)
      modifies this`vars
      ensures vars == old(vars)[key := value]
    {
      vars := vars[key := value];
    }

    method ResolveText(template: string) returns (r: Result<string, Error>)
      modifies this`usedSecrets
      ensures r == Resolve(Scope(), template).result
      ensures usedSecrets == old(usedSecrets) + Resolve(Scope(), template).used
    {
      var stack := new Stack();
      r := ExpandText(template, 0, stack);
    }

    method ExpandText(template: string, depth: nat, stack: Stack) returns (r: Result<string, Error>)
      modifies this`usedSecrets, stack
      ensures stack.names == old(stack.names)
      ensures r == Expand(Scope(), MAX_DEPTH, template, depth, stack.names).result
      ensures usedSecrets == old(usedSecrets) + Expand(Scope(), MAX_DEPTH, template, depth, stack.names).used
      decreases Left(MAX_DEPTH, depth), 1
    {
      if depth > MAX_DEPTH {
        return Err(VariableRecursion(if stack.names == [] then template else stack.names[|stack.names| - 1]));
      }
      if !Contains(template, "{{") {
        return Ok(template);
      }
      hide ScanNext, Expand, Lookup, Contains;
      ghost var e, names := Scope(), stack.names;
      ghost var goal := ExpandRest(e, MAX_DEPTH, template, template, depth, names);
      PrependNothing(goal.result);
      var out, rest := "", template;
      while true
        invariant stack.names == names
        invariant goal.used + old(usedSecrets) == usedSecrets + ExpandRest(e, MAX_DEPTH, template, rest, depth, names).used
        invariant goal.result == Prepend(out, ExpandRest(e, MAX_DEPTH, template, rest, depth, names).result)
        decreases |rest|
      {
        match ScanNext(rest) {
          case Plain(text) =>
            out := out + text;
            return Ok(out);
          case Open(text) =>
            return Err(UnterminatedTemplate(template));
          case Reference(text, name, rest') =>
            out := out + text;
            var value := LookupName(name, depth, stack);
            if value.Err? {
              return value;
            }
            PrependTwice(out[..|out| - |text|], text, value.value, ExpandRest(e, MAX_DEPTH, template, rest', depth, names).result);
            out := out + value.value;
            rest := rest';
        }
      }
    }

    method LookupName(name: string, depth: nat, stack: Stack) returns (r: Result<string, Error>)
      requires depth <= MAX_DEPTH
      modifies this`usedSecrets, stack
      ensures stack.names == old(stack.names)
      ensures r == Lookup(Scope(), MAX_DEPTH, name, depth, stack.names).result
      ensures usedSecrets == old(usedSecrets) + Lookup(Scope(), MAX_DEPTH, name, depth, stack.names).used
      decreases Left(MAX_DEPTH, depth), 0
    {
      hide Expand, ExpandRest, Trim, ScanNext;
      if SECRET <= name {
        var key := Trim(name[|SECRET|..]);
        if key !in secrets {
          return Err(UnknownSecret(key));
        }
        if secrets[key] != "" {
          usedSecrets := usedSecrets + {secrets[key]};
        }
        return Ok(secrets[key]);
      }
      if ENV <= name {
        var key := Trim(name[|ENV|..]);
        if !allowEnv {
          return Err(EnvNotAllowed(key));
        }
        return if key in process then Ok(process[key]) else Err(UnknownVariable(ENV + key));
      }
      if name in generated {
        return Ok(generated[name]);
      }
      if name !in vars {
        return Err(UnknownVariable(name));
      }
      if name in stack.names {
        return Err(VariableRecursion(name));
      }
      ghost var names := stack.names;
      stack.names := stack.names + [name];
      r := ExpandText(vars[name], depth + 1, stack);
      assert stack.names == names + [name];
      stack.names := stack.names[..|stack.names| - 1];
      assert stack.names == names;
    }
  }

  function Prepend(out: string, r: Result<string, Error>): Result<string, Error> {
    if r.Err? then r else Ok(out + r.value)
  }

  lemma PrependNothing(r: Result<string, Error>)
    ensures Prepend("", r) == r
  {
    if r.Ok? { assert "" + r.value == r.value; }
  }

  lemma PrependTwice(out: string, text: string, value: string, r: Result<string, Error>)
    ensures Prepend(out, Prepend(text + value, r)) == Prepend(out + text + value, r)
  {
    if r.Ok? { assert out + (text + value + r.value) == out + text + value + r.value; }
  }
}
