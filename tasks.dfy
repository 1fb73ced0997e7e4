/** The three build tasks that call `argumentsToConfig`, each with the rule
    table it writes: `server` (`--open`, `--port` alias `--p`), `useref`
    (`--production` alias `--prod`) and `deploy` (`--branch`). Only the
    configuration each task reads is modelled; the tools it hands the values
    to are not. */
module Tasks {
  import opened JsValue
  import opened RuleTables
  import opened ArgParse
  import opened ArgConfig

  function OpenRule(): (r: Rule) { Rule("open", Bool(false), Bool(true), Bool(true), None) }
  function PortRule(): (r: Rule) { Rule("port", Num(2080), Bool(false), Undefined, Some("--p")) }
  function ProductionRule(production: bool): (r: Rule) {
    Rule("production", Bool(production), Bool(true), Bool(true), Some("--prod"))
  }
  function BranchRule(): (r: Rule) { Rule("branch", Str("gh-pages"), Bool(false), Undefined, None) }

  /** The rule table of `server`. */
  function ServerRules(): (t: Table) {
    Table(["--open", "--port"], map["--open" := OpenRule(), "--port" := PortRule()])
  }

  /** The rule table of `useref(production)`. */
  function UserefRules(production: bool): (t: Table) {
    Table(["--production"], map["--production" := ProductionRule(production)])
  }

  /** The rule table of `deploy`. */
  function DeployRules(): (t: Table) {
    Table(["--branch"], map["--branch" := BranchRule()])
  }

  /** `--port` or its alias `--p`. */
  predicate IsPortFlag(s: string) {
    s == "--port" || s == "--p"
  }

  /** `--production` or its alias `--prod`. */
  predicate IsProductionFlag(s: string) {
    s == "--production" || s == "--prod"
  }

  /** The server table expands to `--open`, `--port` and `--p`, the last two
      holding the same rule. */
  lemma ServerExpanded(t: Table)
    requires t == ServerRules()
    ensures WellFormed(t)
    ensures var e := Expanded(t);
      && e.entries.Keys == {"--open", "--port", "--p"}
      && e.entries["--open"] == OpenRule() && e.entries["--port"] == PortRule() && e.entries["--p"] == PortRule()
      && |e.keys| == 3
  {
    assert t.keys[0] == "--open" && t.keys[1] == "--port";
    var vs := Values(t);
    assert vs[0] == OpenRule() && vs[1] == PortRule();
    ExpandOneMore(t, vs, 1);
    ExpandOneMore(t, vs, 0);
    assert vs[..0] == [] && vs[..2] == vs;
  }

  /** Only `--open` writes `open`, and only `--port` and `--p` write `port`;
      every rule of the expanded server table is one of the two rules. */
  lemma ServerWrites(t: Table, argv: seq<string>)
    requires t == ServerRules()
    ensures WellFormed(t)
    ensures var e := Expanded(t); var p := Params(argv);
      && (forall i :: 0 <= i < |p| ==> (Writes(e.entries, p, i, "open") <==> p[i] == "--open"))
      && (forall i :: 0 <= i < |p| ==> (Writes(e.entries, p, i, "port") <==> IsPortFlag(p[i])))
  {
    ServerExpanded(t);
  }

  /** In the expanded server table, `open` is a switch with default false. */
  lemma ServerOpenField(t: Table)
    requires t == ServerRules()
    ensures WellFormed(t)
    ensures SharedDefault(Values(Expanded(t)), "open", Bool(false)) && SwitchRules(Expanded(t), "open", Bool(true))
  {
    ServerExpanded(t);
    var e := Expanded(t);
    assert "port" != "open" by { assert "port"[0] != "open"[0]; }
    forall k | k in e.entries && e.entries[k].dataIndex == "open"
      ensures e.entries[k] == OpenRule()
    {
    }
    SharedDefaultOfEntries(e, "open", Bool(false), "--open");
  }

  /** In the expanded server table, `port` takes a value and defaults to 2080. */
  lemma ServerPortField(t: Table)
    requires t == ServerRules()
    ensures WellFormed(t)
    ensures SharedDefault(Values(Expanded(t)), "port", Num(2080)) && ValueRules(Expanded(t), "port")
  {
    ServerExpanded(t);
    var e := Expanded(t);
    assert "port" != "open" by { assert "port"[0] != "open"[0]; }
    forall k | k in e.entries && e.entries[k].dataIndex == "port"
      ensures e.entries[k] == PortRule()
    {
    }
    SharedDefaultOfEntries(e, "port", Num(2080), "--port");
  }

  /** The useref table expands to `--production` and `--prod`, holding the same rule. */
  lemma UserefExpanded(t: Table, production: bool)
    requires t == UserefRules(production)
    ensures WellFormed(t)
    ensures var e := Expanded(t);
      && e.entries.Keys == {"--production", "--prod"}
      && e.entries["--production"] == ProductionRule(production) && e.entries["--prod"] == ProductionRule(production)
  {
    assert t.keys[0] == "--production";
    var vs := Values(t);
    assert vs[0] == ProductionRule(production);
    ExpandOneMore(t, vs, 0);
    assert vs[..0] == [] && vs[..1] == vs;
  }

  /** The deploy table has no alias and is left as it is. */
  lemma DeployExpanded(t: Table)
    requires t == DeployRules()
    ensures WellFormed(t)
    ensures var e := Expanded(t);
      && e.entries.Keys == {"--branch"} && e.entries["--branch"] == BranchRule()
  {
    assert t.keys[0] == "--branch";
    var vs := Values(t);
    assert vs[0] == BranchRule();
    ExpandOneMore(t, vs, 0);
    assert vs[..0] == [] && vs[..1] == vs;
  }

  /** With the server table, `config.open` is true exactly when `--open` is on
      the command line (wherever it stands, even right after `--port`), and
      false otherwise. */
  lemma ServerOpen(t: Table, argv: seq<string>)
    requires t == ServerRules()
    ensures WellFormed(t)
    ensures Lookup(Resolve(t, argv), "open") == Bool("--open" in Params(argv))
  {
    ServerWrites(t, argv);
    ServerOpenField(t);
    ResolveSwitch(t, argv, "open", Bool(false), Bool(true));
    var p := Params(argv);
    if "--open" in p {
      var i :| 0 <= i < |p| && p[i] == "--open";
    }
  }

  /** With the server table, `config.port` is the token after the last
      `--port` or `--p` when there is a non-empty one, and 2080 otherwise. */
  lemma ServerPort(t: Table, argv: seq<string>)
    requires t == ServerRules()
    ensures WellFormed(t)
    ensures var p := Params(argv); var port := Lookup(Resolve(t, argv), "port");
      && ((forall i :: 0 <= i < |p| ==> !IsPortFlag(p[i])) ==> port == Num(2080))
      && (forall i :: 0 <= i < |p| && IsPortFlag(p[i]) && (forall j :: i < j < |p| ==> !IsPortFlag(p[j])) ==>
            port == ValueAfter(p, i, Num(2080)))
  {
    ServerWrites(t, argv);
    ServerPortField(t);
    if forall i :: 0 <= i < |Params(argv)| ==> !IsPortFlag(Params(argv)[i]) {
      ResolveAbsent(t, argv, "port", Num(2080));
    }
    ResolveValueFlag(t, argv, "port", Num(2080));
  }

  /** With the useref table, `config.production` is true when `--production`
      or `--prod` is on the command line, and `production` otherwise. */
  lemma UserefProduction(t: Table, production: bool, argv: seq<string>)
    requires t == UserefRules(production)
    ensures WellFormed(t)
    ensures var p := Params(argv);
      Lookup(Resolve(t, argv), "production") == Bool(production || exists i :: 0 <= i < |p| && IsProductionFlag(p[i]))
  {
    UserefExpanded(t, production);
    var e := Expanded(t);
    var p := Params(argv);
    var vs := Values(e);
    forall i | 0 <= i < |p| ensures Writes(e.entries, p, i, "production") <==> IsProductionFlag(p[i]) {
      if p[i] in e.entries {
        assert p[i] == "--production" || p[i] == "--prod";
      }
    }
    forall i | 0 <= i < |vs| ensures vs[i] == ProductionRule(production) {
      assert e.keys[i] in e.entries.Keys;
    }
    var k :| 0 <= k < |e.keys| && e.keys[k] == "--production";
    assert vs[k].dataIndex == "production";
    ResolveSwitch(t, argv, "production", Bool(production), Bool(true));
  }

  /** With the deploy table, `config.branch` is the token after the last
      `--branch` when there is a non-empty one, and 'gh-pages' otherwise. */
  lemma DeployBranch(t: Table, argv: seq<string>)
    requires t == DeployRules()
    ensures WellFormed(t)
    ensures var p := Params(argv); var branch := Lookup(Resolve(t, argv), "branch");
      && ((forall i :: 0 <= i < |p| ==> p[i] != "--branch") ==> branch == Str("gh-pages"))
      && (forall i :: 0 <= i < |p| && p[i] == "--branch" && (forall j :: i < j < |p| ==> p[j] != "--branch") ==>
            branch == ValueAfter(p, i, Str("gh-pages")))
  {
    DeployExpanded(t);
    var e := Expanded(t);
    var p := Params(argv);
    var vs := Values(e);
    assert forall i :: 0 <= i < |p| ==> (Writes(e.entries, p, i, "branch") <==> p[i] == "--branch");
    forall i | 0 <= i < |vs| ensures vs[i] == BranchRule() {
      assert e.keys[i] in e.entries.Keys;
    }
    var k :| 0 <= k < |e.keys| && e.keys[k] == "--branch";
    assert vs[k].dataIndex == "branch";
    if forall i :: 0 <= i < |p| ==> p[i] != "--branch" {
      ResolveAbsent(t, argv, "branch", Str("gh-pages"));
    }
    ResolveValueFlag(t, argv, "branch", Str("gh-pages"));
  }

  /** `server`: builds its rule table, resolves it and reads `config.open` and
      `config.port`. */
  method Server(argv: seq<string>) returns (open: Value, port: Value)
    ensures open == Bool("--open" in Params(argv))
    ensures var p := Params(argv);
      (forall i :: 0 <= i < |p| ==> !IsPortFlag(p[i])) ==> port == Num(2080)
    ensures var p := Params(argv);
      forall i :: 0 <= i < |p| && IsPortFlag(p[i]) && (forall j :: i < j < |p| ==> !IsPortFlag(p[j])) ==>
        port == ValueAfter(p, i, Num(2080))
  {
    var t := ServerRules();
    ServerOpen(t, argv);
    ServerPort(t, argv);
    var rules := new RuleTable(t);
    var config := ArgumentsToConfig(rules, argv);
    open := Lookup(config, "open");
    port := Lookup(config, "port");
  }

  /** `useref(production)`: reads `config.production` and takes the minifying
      branch exactly when it is truthy. */
  method Useref(production: bool, argv: seq<string>) returns (productionValue: Value, minify: bool)
    ensures var p := Params(argv);
      productionValue == Bool(production || exists i :: 0 <= i < |p| && IsProductionFlag(p[i]))
    ensures minify <==> production || exists i :: 0 <= i < |Params(argv)| && IsProductionFlag(Params(argv)[i])
  {
    var t := UserefRules(production);
    UserefProduction(t, production, argv);
    var rules := new RuleTable(t);
    var config := ArgumentsToConfig(rules, argv);
    productionValue := Lookup(config, "production");
    minify := Truthy(productionValue);
  }

  /** `deploy`: reads `config.branch`, the branch it publishes to. */
  method Deploy(argv: seq<string>) returns (branch: Value)
    ensures var p := Params(argv);
      (forall i :: 0 <= i < |p| ==> p[i] != "--branch") ==> branch == Str("gh-pages")
    ensures var p := Params(argv);
      forall i :: 0 <= i < |p| && p[i] == "--branch" && (forall j :: i < j < |p| ==> p[j] != "--branch") ==>
        branch == ValueAfter(p, i, Str("gh-pages"))
  {
    var t := DeployRules();
    DeployBranch(t, argv);
    var rules := new RuleTable(t);
    var config := ArgumentsToConfig(rules, argv);
    branch := Lookup(config, "branch");
  }

  /** Command lines as `gulp serve`, `gulp build` and `gulp deploy` receive them. */
  method Examples() {
    var argv := ["node", "gulp", "serve", "--p", "3000"];
    var open, port := Server(argv);
    assert Params(argv) == ["serve", "--p", "3000"];
    assert IsPortFlag(Params(argv)[1]) && !IsPortFlag(Params(argv)[2]);
    assert open == Bool(false);
    assert port == Str("3000");

    argv := ["node", "gulp", "serve", "--port", "--open"];
    open, port := Server(argv);
    assert Params(argv) == ["serve", "--port", "--open"];
    assert IsPortFlag(Params(argv)[1]) && !IsPortFlag(Params(argv)[2]);
    assert open == Bool(true);
    assert port == Str("--open");

    argv := ["node", "gulp", "serve", "--port"];
    open, port := Server(argv);
    assert Params(argv) == ["serve", "--port"];
    assert IsPortFlag(Params(argv)[1]);
    assert port == Num(2080);

    argv := ["node", "gulp", "deploy"];
    var branch := Deploy(argv);
    assert Params(argv) == ["deploy"];
    assert branch == Str("gh-pages");

    argv := ["node", "gulp", "deploy", "--branch", ""];
    branch := Deploy(argv);
    assert Params(argv) == ["deploy", "--branch", ""];
    assert Params(argv)[1] == "--branch" && Params(argv)[2] != "--branch";
    assert branch == Str("gh-pages");

    argv := ["node", "gulp", "build", "--prod"];
    var production, minify := Useref(false, argv);
    assert Params(argv) == ["build", "--prod"];
    assert IsProductionFlag(Params(argv)[1]);
    assert minify;
  }
}
