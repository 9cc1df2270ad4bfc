/** What a template is, character by character, and what it resolves to in terms of its
    text, its first reference and the rest. */
module TemplateText {
  import opened Text
  import opened Marks
  import opened Resolution

  // ---------- scanning ----------

  /** A template is text alone if it has no `{{`. */
  lemma ScanPlain(rest: string)
    requires !Within("{{", rest)
    ensures ScanNext(rest) == Plain(rest)
  {
    hide Find;
    FindNoneIff(rest, "{{");
  }

  /** Its first `{{` is open if no `}}` follows it. */
  lemma ScanOpen(text: string, back: string)
    requires FirstMark(text, "{{", back) && !Within("}}", back)
    ensures ScanNext(text + "{{" + back) == Open(text)
  {
    hide Find;
    var s := text + "{{" + back;
    FindIff(text, "{{", back);
    assert s[|text| + 2..] == back && s[..|text|] == text;
    FindNoneIff(back, "}}");
  }

  /** And otherwise it opens a reference that ends at the `}}` next to it. */
  lemma ScanReference(text: string, raw: string, tail: string)
    requires FirstMark(text, "{{", raw + "}}" + tail) && FirstMark(raw, "}}", tail)
    ensures ScanNext(text + "{{" + (raw + "}}" + tail)) == Reference(text, Trim(raw), tail)
  {
    hide Find, Trim;
    var after := raw + "}}" + tail;
    var s := text + "{{" + after;
    FindIff(text, "{{", after);
    assert s[|text| + 2..] == after && s[..|text|] == text;
    FindIff(raw, "}}", tail);
    assert after[..|raw|] == raw && after[|raw| + 2..] == tail;
  }

  /** Every template is one of the three. */
  lemma ScanParts(rest: string)
    ensures var r := ScanNext(rest);
            || (!Within("{{", rest) && r == Plain(rest))
            || (exists back :: FirstMark(r.text, "{{", back) && !Within("}}", back) && rest == r.text + "{{" + back && r.Open?)
            || (exists raw :: r.Reference? && rest == r.text + "{{" + (raw + "}}" + r.rest) && r.name == Trim(raw)
                              && FirstMark(r.text, "{{", raw + "}}" + r.rest) && FirstMark(raw, "}}", r.rest))
  {
    hide Find, Trim, Within, FirstMark;
    FindNoneIff(rest, "{{");
    if i :| Find(rest, "{{") == Some(i) {
      CutAt(rest, "{{", i);
      var text, after := rest[..i], rest[i + 2..];
      FindIff(text, "{{", after);
      FindNoneIff(after, "}}");
      if j :| Find(after, "}}") == Some(j) {
        CutAt(after, "}}", j);
        var raw, tail := after[..j], after[j + 2..];
        FindIff(raw, "}}", tail);
        ScanReference(text, raw, tail);
      } else {
        ScanOpen(text, after);
      }
    } else {
      ScanPlain(rest);
    }
  }

  // ---------- what a template resolves to ----------

  /** Text alone resolves to itself. */
  lemma ResolvePlain(e: Env, text: string)
    requires !Within("{{", text)
    ensures Resolve(e, text) == Outcome(Ok(text), {})
  {
    hide ScanNext;
    ScanPlain(text);
  }

  /** A `{{` without `}}` behind it is an error that shows the template. */
  lemma ResolveOpen(e: Env, text: string, back: string)
    requires FirstMark(text, "{{", back) && !Within("}}", back)
    ensures Resolve(e, text + "{{" + back).result == Err(UnterminatedTemplate(text + "{{" + back))
  {
    hide ScanNext;
    ScanOpen(text, back);
  }

  /** What is left of a template resolves as it would alone, but for the template that
      an error shows. */
  lemma {:induction false} RestAlone(e: Env, template: string, rest: string, depth: nat, stack: seq<string>)
    requires depth <= 8
    ensures var a, b := ExpandRest(e, 8, template, rest, depth, stack), ExpandRest(e, 8, rest, rest, depth, stack);
            a == b || (a.result == Err(UnterminatedTemplate(template)) && b.result == Err(UnterminatedTemplate(rest)) && a.used == b.used)
    decreases |rest|
  {
    RestOf(e, template, rest, rest, depth, stack);
  }

  lemma {:induction false} RestOf(e: Env, template: string, other: string, rest: string, depth: nat, stack: seq<string>)
    requires depth <= 8
    ensures var a, b := ExpandRest(e, 8, template, rest, depth, stack), ExpandRest(e, 8, other, rest, depth, stack);
            a == b || (a.result == Err(UnterminatedTemplate(template)) && b.result == Err(UnterminatedTemplate(other)) && a.used == b.used)
    decreases |rest|
  {
    hide ScanNext, Lookup;
    if ScanNext(rest).Reference? { RestOf(e, template, other, ScanNext(rest).rest, depth, stack); }
  }

  /** Text, a reference and a tail: the text, then what the name means, then what the
      tail resolves to; an error of the name, or else one of the tail. The secrets used
      are those of both. */
  lemma ResolveParts(e: Env, text: string, raw: string, tail: string)
    requires FirstMark(text, "{{", raw + "}}" + tail) && FirstMark(raw, "}}", tail)
    ensures var value, rest := Lookup(e, 8, Trim(raw), 0, []), Resolve(e, tail);
            var all := Resolve(e, text + "{{" + (raw + "}}" + tail));
            && (value.result.Err? ==> all == value)
            && (value.result.Ok? && rest.result.Err? ==> all.result.Err?)
            && (value.result.Ok? && rest.result.Ok? ==> all.result == Ok(text + value.result.value + rest.result.value))
            && (value.result.Ok? ==> all.used == value.used + rest.used)
  {
    hide ScanNext, Lookup, ExpandRest, Trim, FirstMark;
    var s := text + "{{" + (raw + "}}" + tail);
    ScanReference(text, raw, tail);
    ReferenceStep(e, s, s);
    RestAlone(e, s, tail, 0, []);
  }

  lemma ReferenceStep(e: Env, template: string, rest: string)
    requires ScanNext(rest).Reference?
    ensures var r := ScanNext(rest);
            var value := Lookup(e, 8, r.name, 0, []);
            ExpandRest(e, 8, template, rest, 0, [])
            == if value.result.Err? then value
               else var tail := ExpandRest(e, 8, template, r.rest, 0, []);
                    Outcome(Prepend(r.text + value.result.value, tail.result), value.used + tail.used)
  {
    hide ScanNext, Lookup;
  }

  // ---------- what a name means ----------

  lemma PrefixOf(front: string, key: string)
    ensures front <= front + key && (front + key)[|front|..] == key
  {
  }

  /** `secret:` names a secret and records it unless it is empty. */
  lemma SecretMeans(e: Env, key: string, depth: nat, stack: seq<string>)
    requires depth <= 8
    ensures var k, found := Trim(key), Lookup(e, 8, "secret:" + key, depth, stack);
            found == if k in e.secrets then Outcome(Ok(e.secrets[k]), if e.secrets[k] == "" then {} else {e.secrets[k]})
                     else Outcome(Err(UnknownSecret(k)), {})
  {
    hide Trim, Expand;
    PrefixOf("secret:", key);
  }

  /** `env:` names a variable of the process, where that is allowed. */
  lemma EnvMeans(e: Env, key: string, depth: nat, stack: seq<string>)
    requires depth <= 8
    ensures var k, found := Trim(key), Lookup(e, 8, "env:" + key, depth, stack);
            found == if !e.allowEnv then Outcome(Err(EnvNotAllowed(k)), {})
                     else if k in e.process then Outcome(Ok(e.process[k]), {})
                     else Outcome(Err(UnknownVariable("env:" + k)), {})
  {
    hide Trim, Expand;
    PrefixOf("env:", key);
    assert ("env:" + key)[0] == 'e' && "secret:"[0] == 's';
    assert !("secret:" <= "env:" + key);
  }

  /** Any other name is a generator's, or else a variable's: what its own template
      resolves to one level down, at most 8 levels, and never through itself. */
  lemma NameMeans(e: Env, name: string, depth: nat, stack: seq<string>)
    requires depth <= 8 && !("secret:" <= name) && !("env:" <= name)
    ensures var found := Lookup(e, 8, name, depth, stack);
            && (name in e.generated ==> found == Outcome(Ok(e.generated[name]), {}))
            && (name !in e.generated && name !in e.vars ==> found == Outcome(Err(UnknownVariable(name)), {}))
            && (name !in e.generated && name in e.vars ==>
                  && (name in stack ==> found == Outcome(Err(VariableRecursion(name)), {}))
                  && (name !in stack && depth == 8 ==> found == Outcome(Err(VariableRecursion(name)), {}))
                  && (name !in stack && depth < 8 ==> found == ExpandRest(e, 8, e.vars[name], e.vars[name], depth + 1, stack + [name])))
  {
    hide ExpandRest;
  }
}
