/** `argumentsToConfig`: expand the aliases of the rule table, scan the
    command line, then give every field of every rule whose value is falsy
    the rule's default. */
module ArgConfig {
  import opened JsValue
  import opened RuleTables
  import opened ArgParse

  /** What the default-filling loop does for one rule `r`:
      `if (!config[r.dataIndex]) config[r.dataIndex] = r.default`. */
  function FillStep(config: map<string, Value>, r: Rule): (c: map<string, Value>) {
    if Truthy(Lookup(config, r.dataIndex)) then config else config[r.dataIndex := r.default]
  }

  /** The configuration after the default-filling loop has visited the first
      `n` rules of `vs`. */
  function FillPrefix(config: map<string, Value>, vs: seq<Rule>, n: nat): (c: map<string, Value>)
    requires n <= |vs|
  {
    if n == 0 then config else FillStep(FillPrefix(config, vs, n - 1), vs[n - 1])
  }

  function FillDefaults(config: map<string, Value>, vs: seq<Rule>): (c: map<string, Value>) {
    FillPrefix(config, vs, |vs|)
  }

  /** The fields the rules of `vs` write. */
  function DataIndices(vs: seq<Rule>): (ds: set<string>) {
    set i | 0 <= i < |vs| :: vs[i].dataIndex
  }

  /** `argumentsToConfig(rules)` on a table `t`, reading the tokens from `argv`. */
  function Resolve(t: Table, argv: seq<string>): (config: map<string, Value>)
    requires WellFormed(t)
  {
    var e := Expanded(t);
    FillDefaults(Parse(e.entries, Params(argv)), Values(e))
  }

  /** The filling adds exactly the fields of the visited rules. */
  lemma {:induction false} FillKeys(config: map<string, Value>, vs: seq<Rule>, n: nat, d: string)
    requires n <= |vs|
    ensures d in FillPrefix(config, vs, n) <==> d in config || exists i :: 0 <= i < n && vs[i].dataIndex == d
  {
    if n > 0 {
      FillKeys(config, vs, n - 1, d);
    }
  }

  /** A field no visited rule writes keeps its value. */
  lemma {:induction false} FillUntouched(config: map<string, Value>, vs: seq<Rule>, n: nat, d: string)
    requires n <= |vs|
    requires forall i :: 0 <= i < n ==> vs[i].dataIndex != d
    ensures Lookup(FillPrefix(config, vs, n), d) == Lookup(config, d)
  {
    if n > 0 {
      FillUntouched(config, vs, n - 1, d);
    }
  }

  /** A truthy value is never replaced. */
  lemma {:induction false} FillKeepsTruthy(config: map<string, Value>, vs: seq<Rule>, n: nat, d: string)
    requires n <= |vs| && Truthy(Lookup(config, d))
    ensures Lookup(FillPrefix(config, vs, n), d) == Lookup(config, d)
  {
    if n > 0 {
      FillKeepsTruthy(config, vs, n - 1, d);
    }
  }

  /** A field ends up falsy only if every rule writing it has a falsy default. */
  lemma {:induction false} FillTruthyDefault(config: map<string, Value>, vs: seq<Rule>, n: nat, d: string, i: nat)
    requires i < n <= |vs| && vs[i].dataIndex == d && Truthy(vs[i].default)
    ensures Truthy(Lookup(FillPrefix(config, vs, n), d))
  {
    if i < n - 1 {
      FillTruthyDefault(config, vs, n - 1, d, i);
    }
  }

  /** When all rules writing field `d` share the default `dflt` (as a rule and
      its alias entry do), the field keeps a truthy parsed value and otherwise
      gets `dflt`; an explicit falsy value such as '' is overwritten too. */
  lemma {:induction false} FillAt(config: map<string, Value>, vs: seq<Rule>, n: nat, d: string, dflt: Value)
    requires n <= |vs|
    requires exists i :: 0 <= i < n && vs[i].dataIndex == d
    requires forall i :: 0 <= i < n && vs[i].dataIndex == d ==> vs[i].default == dflt
    ensures Lookup(FillPrefix(config, vs, n), d) == if Truthy(Lookup(config, d)) then Lookup(config, d) else dflt
  {
    if exists i :: 0 <= i < n - 1 && vs[i].dataIndex == d {
      FillAt(config, vs, n - 1, d, dflt);
    } else {
      FillUntouched(config, vs, n - 1, d);
    }
  }

  /** A falsy field stays falsy while every visited rule writing it has a
      falsy default. */
  lemma {:induction false} FillKeepsFalsy(config: map<string, Value>, vs: seq<Rule>, n: nat, d: string)
    requires n <= |vs| && !Truthy(Lookup(config, d))
    requires forall j :: 0 <= j < n && vs[j].dataIndex == d ==> !Truthy(vs[j].default)
    ensures !Truthy(Lookup(FillPrefix(config, vs, n), d))
  {
    if n > 0 {
      FillKeepsFalsy(config, vs, n - 1, d);
    }
  }

  /** Rules writing one field with different defaults: a falsy field gets the
      first truthy default among them, in the order the rules are visited. */
  lemma {:induction false} FillFirstTruthyDefault(config: map<string, Value>, vs: seq<Rule>, n: nat, d: string, i: nat)
    requires i < n <= |vs| && !Truthy(Lookup(config, d))
    requires vs[i].dataIndex == d && Truthy(vs[i].default)
    requires forall j :: 0 <= j < i && vs[j].dataIndex == d ==> !Truthy(vs[j].default)
    ensures Lookup(FillPrefix(config, vs, n), d) == vs[i].default
  {
    if i < n - 1 {
      FillFirstTruthyDefault(config, vs, n - 1, d, i);
    } else {
      FillKeepsFalsy(config, vs, i, d);
    }
  }

  /** When every rule writing a falsy field has a falsy default, the field
      gets the default of the last of them. */
  lemma {:induction false} FillLastFalsyDefault(config: map<string, Value>, vs: seq<Rule>, n: nat, d: string, i: nat)
    requires i < n <= |vs| && !Truthy(Lookup(config, d))
    requires vs[i].dataIndex == d
    requires forall j :: 0 <= j < n && vs[j].dataIndex == d ==> !Truthy(vs[j].default)
    requires forall j :: i < j < n ==> vs[j].dataIndex != d
    ensures Lookup(FillPrefix(config, vs, n), d) == vs[i].default
  {
    if i < n - 1 {
      FillLastFalsyDefault(config, vs, n - 1, d, i);
    } else {
      FillKeepsFalsy(config, vs, i, d);
    }
  }

  /** The fields the scan writes are fields of rules of the table. */
  lemma ParsedFieldsAreRuleFields(t: Table, params: seq<string>, d: string)
    requires WellFormed(t) && d in Parse(t.entries, params)
    ensures d in DataIndices(Values(t))
  {
    ParsedKeys(t.entries, params, |params|, d);
    var i :| 0 <= i < |params| && Writes(t.entries, params, i, d);
    var j :| 0 <= j < |t.keys| && t.keys[j] == params[i];
    assert Values(t)[j].dataIndex == d;
  }

  /** After `argumentsToConfig` there is one entry per field of the rules of
      the expanded table, and no other entry. */
  lemma ResolveKeys(t: Table, argv: seq<string>)
    requires WellFormed(t)
    ensures Resolve(t, argv).Keys == DataIndices(Values(Expanded(t)))
  {
    var e := Expanded(t);
    var vs := Values(e);
    var parsed := Parse(e.entries, Params(argv));
    forall d | d in Resolve(t, argv) ensures d in DataIndices(vs) {
      FillKeys(parsed, vs, |vs|, d);
      if d in parsed {
        ParsedFieldsAreRuleFields(e, Params(argv), d);
      }
    }
    forall d | d in DataIndices(vs) ensures d in Resolve(t, argv) {
      FillKeys(parsed, vs, |vs|, d);
    }
  }

  /** A field is falsy after `argumentsToConfig` only if every rule of the
      expanded table writing it has a falsy default. */
  lemma ResolveTruthyDefault(t: Table, argv: seq<string>, k: string)
    requires WellFormed(t) && k in Expanded(t).entries && Truthy(Expanded(t).entries[k].default)
    ensures Truthy(Lookup(Resolve(t, argv), Expanded(t).entries[k].dataIndex))
  {
    var e := Expanded(t);
    var j :| 0 <= j < |e.keys| && e.keys[j] == k;
    FillTruthyDefault(Parse(e.entries, Params(argv)), Values(e), |e.keys|, e.entries[k].dataIndex, j);
  }

  /** The rules of `vs` that write field `d` all have the default `dflt`, and
      there is at least one. */
  ghost predicate SharedDefault(vs: seq<Rule>, d: string, dflt: Value) {
    && (exists i :: 0 <= i < |vs| && vs[i].dataIndex == d)
    && (forall i :: 0 <= i < |vs| && vs[i].dataIndex == d ==> vs[i].default == dflt)
  }

  /** `SharedDefault` read off the entries of a table rather than its values. */
  lemma SharedDefaultOfEntries(e: Table, d: string, dflt: Value, k: string)
    requires WellFormed(e) && k in e.entries && e.entries[k].dataIndex == d
    requires forall k' :: k' in e.entries && e.entries[k'].dataIndex == d ==> e.entries[k'].default == dflt
    ensures SharedDefault(Values(e), d, dflt)
  {
    var vs := Values(e);
    var j :| 0 <= j < |e.keys| && e.keys[j] == k;
    assert vs[j].dataIndex == d;
  }

  /** A field that the scan leaves falsy (no token writes it, or the value
      given is falsy) gets the first truthy default among the rules of the
      expanded table that write it, in `Object.values` order. */
  lemma ResolveFirstTruthyDefault(t: Table, argv: seq<string>, d: string, i: nat)
    requires WellFormed(t) && !Truthy(Lookup(Parse(Expanded(t).entries, Params(argv)), d))
    requires i < |Values(Expanded(t))| && Values(Expanded(t))[i].dataIndex == d && Truthy(Values(Expanded(t))[i].default)
    requires forall j :: 0 <= j < i && Values(Expanded(t))[j].dataIndex == d ==> !Truthy(Values(Expanded(t))[j].default)
    ensures Lookup(Resolve(t, argv), d) == Values(Expanded(t))[i].default
  {
    var vs := Values(Expanded(t));
    FillFirstTruthyDefault(Parse(Expanded(t).entries, Params(argv)), vs, |vs|, d, i);
  }

  /** A field that the scan leaves falsy, whose rules in the expanded table
      all have falsy defaults, gets the default of the last of those rules. */
  lemma ResolveLastFalsyDefault(t: Table, argv: seq<string>, d: string, i: nat)
    requires WellFormed(t) && !Truthy(Lookup(Parse(Expanded(t).entries, Params(argv)), d))
    requires i < |Values(Expanded(t))| && Values(Expanded(t))[i].dataIndex == d
    requires forall j :: 0 <= j < |Values(Expanded(t))| && Values(Expanded(t))[j].dataIndex == d ==> !Truthy(Values(Expanded(t))[j].default)
    requires forall j :: i < j < |Values(Expanded(t))| ==> Values(Expanded(t))[j].dataIndex != d
    ensures Lookup(Resolve(t, argv), d) == Values(Expanded(t))[i].default
  {
    var vs := Values(Expanded(t));
    FillLastFalsyDefault(Parse(Expanded(t).entries, Params(argv)), vs, |vs|, d, i);
  }

  /** A field whose rules all have the default `dflt` and that no token writes
      resolves to `dflt`. */
  lemma ResolveAbsent(t: Table, argv: seq<string>, d: string, dflt: Value)
    requires WellFormed(t) && SharedDefault(Values(Expanded(t)), d, dflt)
    requires forall i :: 0 <= i < |Params(argv)| ==> !Writes(Expanded(t).entries, Params(argv), i, d)
    ensures Lookup(Resolve(t, argv), d) == dflt
  {
    var e := Expanded(t);
    var p := Params(argv);
    var parsed := Parse(e.entries, p);
    ParsedKeys(e.entries, p, |p|, d);
    FillAt(parsed, Values(e), |Values(e)|, d, dflt);
  }

  /** A field whose rules all have the default `dflt` resolves to the value the
      last token writing it gives (`omittedValue`, the next token, or undefined
      past the end) when that value is truthy, and to `dflt` when it is falsy. */
  lemma ResolveLastWriter(t: Table, argv: seq<string>, d: string, dflt: Value, i: nat)
    requires WellFormed(t) && SharedDefault(Values(Expanded(t)), d, dflt)
    requires i < |Params(argv)| && Writes(Expanded(t).entries, Params(argv), i, d)
    requires forall j :: i < j < |Params(argv)| ==> !Writes(Expanded(t).entries, Params(argv), j, d)
    ensures var v := TokenValue(Expanded(t).entries[Params(argv)[i]], Params(argv), i);
      Lookup(Resolve(t, argv), d) == if Truthy(v) then v else dflt
  {
    var e := Expanded(t);
    var p := Params(argv);
    var parsed := Parse(e.entries, p);
    LastOccurrenceWins(e.entries, p, |p|, d, i);
    FillAt(parsed, Values(e), |Values(e)|, d, dflt);
  }

  /** The rules writing `d` are switches: they set the value `on` without
      reading the next token. */
  ghost predicate SwitchRules(e: Table, d: string, on: Value) {
    forall k :: k in e.entries && e.entries[k].dataIndex == d ==>
      e.entries[k].valueOmit == Bool(true) && e.entries[k].omittedValue == on
  }

  /** A switch field that some token writes resolves to its truthy value `on`. */
  lemma ResolveSwitchOn(t: Table, argv: seq<string>, d: string, dflt: Value, on: Value, i: nat)
    requires WellFormed(t) && SharedDefault(Values(Expanded(t)), d, dflt)
    requires SwitchRules(Expanded(t), d, on) && Truthy(on)
    requires i < |Params(argv)| && Writes(Expanded(t).entries, Params(argv), i, d)
    ensures Lookup(Resolve(t, argv), d) == on
  {
    var e := Expanded(t);
    var p := Params(argv);
    LastWriterExists(e.entries, p, |p|, d, i);
    var k :| i <= k < |p| && Writes(e.entries, p, k, d) && forall j :: k < j < |p| ==> !Writes(e.entries, p, j, d);
    assert TokenValue(e.entries[p[k]], p, k) == on;
    ResolveLastWriter(t, argv, d, dflt, k);
  }

  /** A field whose rules all have the default `dflt` and are switches setting
      the truthy value `on` (as `--open` is) resolves to `on` when some token
      writes it and to `dflt` otherwise. */
  lemma ResolveSwitch(t: Table, argv: seq<string>, d: string, dflt: Value, on: Value)
    requires WellFormed(t) && SharedDefault(Values(Expanded(t)), d, dflt)
    requires SwitchRules(Expanded(t), d, on) && Truthy(on)
    ensures Lookup(Resolve(t, argv), d) ==
      if exists i :: 0 <= i < |Params(argv)| && Writes(Expanded(t).entries, Params(argv), i, d) then on else dflt
  {
    var e := Expanded(t);
    var p := Params(argv);
    if exists i :: 0 <= i < |p| && Writes(e.entries, p, i, d) {
      var i :| 0 <= i < |p| && Writes(e.entries, p, i, d);
      ResolveSwitchOn(t, argv, d, dflt, on, i);
    } else {
      ResolveAbsent(t, argv, d, dflt);
    }
  }

  /** What a value-taking flag resolves to when its last occurrence is at `i`:
      the next token if there is one and it is not empty, else the default. */
  function ValueAfter(p: seq<string>, i: nat, dflt: Value): (v: Value) {
    if i + 1 < |p| && p[i + 1] != "" then Str(p[i + 1]) else dflt
  }

  /** The rules writing `d` take the next token as their value. */
  ghost predicate ValueRules(e: Table, d: string) {
    forall k :: k in e.entries && e.entries[k].dataIndex == d ==> e.entries[k].valueOmit != Bool(true)
  }

  /** A field whose rules all have the default `dflt` and all read the next
      token resolves to what the next token after its last writer gives. */
  lemma ResolveValueFlag(t: Table, argv: seq<string>, d: string, dflt: Value)
    requires WellFormed(t) && SharedDefault(Values(Expanded(t)), d, dflt)
    requires ValueRules(Expanded(t), d)
    ensures var e := Expanded(t); var p := Params(argv);
      forall i :: 0 <= i < |p| && Writes(e.entries, p, i, d) && (forall j :: i < j < |p| ==> !Writes(e.entries, p, j, d)) ==>
        Lookup(Resolve(t, argv), d) == ValueAfter(p, i, dflt)
  {
    var e := Expanded(t);
    var p := Params(argv);
    forall i | 0 <= i < |p| && Writes(e.entries, p, i, d) && (forall j :: i < j < |p| ==> !Writes(e.entries, p, j, d))
      ensures Lookup(Resolve(t, argv), d) == ValueAfter(p, i, dflt)
    {
      ResolveValueAt(t, argv, d, dflt, i);
    }
  }

  /** A value-taking field whose last writer is at `i` resolves to the
      non-empty token after it, or to `dflt`. */
  lemma ResolveValueAt(t: Table, argv: seq<string>, d: string, dflt: Value, i: nat)
    requires WellFormed(t) && SharedDefault(Values(Expanded(t)), d, dflt) && ValueRules(Expanded(t), d)
    requires i < |Params(argv)| && Writes(Expanded(t).entries, Params(argv), i, d)
    requires forall j :: i < j < |Params(argv)| ==> !Writes(Expanded(t).entries, Params(argv), j, d)
    ensures Lookup(Resolve(t, argv), d) == ValueAfter(Params(argv), i, dflt)
  {
    var e := Expanded(t);
    var p := Params(argv);
    assert TokenValue(e.entries[p[i]], p, i) == NextToken(p, i);
    ResolveLastWriter(t, argv, d, dflt, i);
  }

  /** Passing an alias instead of its flag gives the same configuration, when
      no two rules share an alias, the flag's key is no rule's alias, and the
      token before it is not a flag that takes a value. */
  lemma AliasResolvesLikeFlag(t: Table, head: seq<string>, pre: seq<string>, post: seq<string>, flag: string)
    requires WellFormed(t) && UniqueAliases(Values(t))
    requires flag in t.entries && HasAlias(t.entries[flag])
    requires forall j :: 0 <= j < |t.keys| ==> !Aliases(t.entries[t.keys[j]], flag)
    requires |head| == 2
    requires var e := Expanded(t);
      pre == [] || pre[|pre| - 1] !in e.entries || e.entries[pre[|pre| - 1]].valueOmit == Bool(true)
    ensures var alias := t.entries[flag].alias.value;
      Resolve(t, head + (pre + [flag] + post)) == Resolve(t, head + (pre + [alias] + post))
  {
    var e := Expanded(t);
    var alias := t.entries[flag].alias.value;
    AliasReachable(t, flag);
    UnaliasedKeyKept(t, flag);
    AliasParsesLikeFlag(e.entries, pre, post, flag, alias);
    ParamsDropsTwo(head, pre + [flag] + post);
    ParamsDropsTwo(head, pre + [alias] + post);
  }

  /** A rule whose key is another rule's alias drops out: with `a` (alias `b`)
      and `b` in that order, the expansion puts the rule of `a` under `b`, and
      the field of the rule of `b` gets no entry whatever the command line. */
  lemma OverwrittenRuleDropped(a: string, b: string, ra: Rule, rb: Rule, argv: seq<string>)
    requires a != b && Aliases(ra, b) && !HasAlias(rb) && ra.dataIndex != rb.dataIndex
    ensures var t := Table([a, b], map[a := ra, b := rb]);
      WellFormed(t) && rb.dataIndex !in Resolve(t, argv)
  {
    var t := Table([a, b], map[a := ra, b := rb]);
    assert WellFormed(t);
    var vs := Values(t);
    assert vs[0] == ra && vs[1] == rb;
    ExpandOneMore(t, vs, 1);
    ExpandOneMore(t, vs, 0);
    assert vs[..0] == [] && vs[..2] == vs;
    var e := Expanded(t);
    assert e == Put(t, b, ra);
    forall i | 0 <= i < |e.keys| ensures Values(e)[i] == ra {
      assert e.keys[i] == a || e.keys[i] == b;
    }
    ResolveKeys(t, argv);
  }

  /** When no two rules share an alias, calling `argumentsToConfig` again on the
      same (now expanded) rules object gives the same configuration. */
  lemma ResolveAgain(t: Table, argv: seq<string>)
    requires WellFormed(t) && UniqueAliases(Values(t))
    ensures Resolve(Expanded(t), argv) == Resolve(t, argv)
  {
    ExpandIdempotent(t);
  }

  /** The default-filling loop of `argumentsToConfig`, over a snapshot of the
      values of the (expanded) rule table. */
  method ApplyDefaults(rules: RuleTable, parsed: map<string, Value>) returns (config: map<string, Value>)
    requires rules.Valid()
    ensures config == FillDefaults(parsed, Values(rules.State()))
  {
    var vs := Values(rules.State());
    config := parsed;
    var i := 0;
    while i < |vs|
      invariant i <= |vs|
      invariant config == FillPrefix(parsed, vs, i)
    {
      var r := vs[i];
      if !Truthy(Lookup(config, r.dataIndex)) {
        config := config[r.dataIndex := r.default];
      }
      i := i + 1;
    }
  }

  /** `argumentsToConfig(rules)`: the rules object is expanded in place, and the
      configuration is the one `Resolve` gives for the table as it was. */
  method ArgumentsToConfig(rules: RuleTable, argv: seq<string>) returns (config: map<string, Value>)
    requires rules.Valid()
    modifies rules
    ensures rules.Valid() && rules.State() == Expanded(old(rules.State()))
    ensures config == Resolve(old(rules.State()), argv)
  {
    rules.ExpandAliases();
    config := CommandArgumentsHandle(rules, argv);
    config := ApplyDefaults(rules, config);
  }
}
