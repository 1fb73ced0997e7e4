/** `commandArgumentsHandle`: scan the command-line tokens and, for every token
    that is a key of the rule table, write the rule's value into a fresh
    configuration object under the rule's `dataIndex`. */
module ArgParse {
  import opened JsValue
  import opened RuleTables

  /** `process.argv.slice(2)`: the interpreter and script positions are dropped. */
  function Params(argv: seq<string>): (params: seq<string>) {
    if |argv| <= 2 then [] else argv[2..]
  }

  /** The first two positions of the command line never reach the scan. */
  lemma ParamsDropsTwo(head: seq<string>, rest: seq<string>)
    requires |head| == 2
    ensures Params(head + rest) == rest
  {
    assert (head + rest)[2..] == rest;
  }

  /** `params[index + 1]`: reading past the end gives `undefined`. */
  function NextToken(params: seq<string>, i: nat): (v: Value) {
    if i + 1 < |params| then Str(params[i + 1]) else Undefined
  }

  /** The value rule `r`, matched at position `i`, writes: `omittedValue` when
      `valueOmit === true`, otherwise the next token, whatever it is. */
  function TokenValue(r: Rule, params: seq<string>, i: nat): (v: Value) {
    if r.valueOmit == Bool(true) then r.omittedValue else NextToken(params, i)
  }

  /** Token `i` is a key of the table whose rule writes the field `d`. */
  predicate Writes(rules: map<string, Rule>, params: seq<string>, i: nat, d: string)
    requires i < |params|
  {
    params[i] in rules && rules[params[i]].dataIndex == d
  }

  /** The configuration after the scan has visited the first `n` tokens. */
  function ParsePrefix(rules: map<string, Rule>, params: seq<string>, n: nat): (config: map<string, Value>)
    requires n <= |params|
  {
    if n == 0 then map[]
    else
      var config := ParsePrefix(rules, params, n - 1);
      var item := params[n - 1];
      if item in rules then config[rules[item].dataIndex := TokenValue(rules[item], params, n - 1)]
      else config
  }

  /** The configuration after the whole scan. */
  function Parse(rules: map<string, Rule>, params: seq<string>): (config: map<string, Value>) {
    ParsePrefix(rules, params, |params|)
  }

  /** A field has an entry exactly when some scanned token writes it: tokens
      that are not keys of the table leave the configuration alone. */
  lemma {:induction false} ParsedKeys(rules: map<string, Rule>, params: seq<string>, n: nat, d: string)
    requires n <= |params|
    ensures d in ParsePrefix(rules, params, n) <==> exists i :: 0 <= i < n && Writes(rules, params, i, d)
  {
    if n > 0 {
      ParsedKeys(rules, params, n - 1, d);
      if Writes(rules, params, n - 1, d) {
        assert d in ParsePrefix(rules, params, n);
      } else if d in ParsePrefix(rules, params, n) {
        var i :| 0 <= i < n - 1 && Writes(rules, params, i, d);
      }
    }
  }

  /** The last token that writes a field decides its value: tokens are scanned
      left to right and each match overwrites the field. */
  lemma {:induction false} LastOccurrenceWins(rules: map<string, Rule>, params: seq<string>, n: nat, d: string, i: nat)
    requires i < n <= |params|
    requires Writes(rules, params, i, d)
    requires forall j :: i < j < n ==> !Writes(rules, params, j, d)
    ensures d in ParsePrefix(rules, params, n)
    ensures ParsePrefix(rules, params, n)[d] == TokenValue(rules[params[i]], params, i)
  {
    if i < n - 1 {
      LastOccurrenceWins(rules, params, n - 1, d, i);
      assert !Writes(rules, params, n - 1, d);
    }
  }

  /** When some token writes a field, there is a last one that does. */
  lemma {:induction false} LastWriterExists(rules: map<string, Rule>, params: seq<string>, n: nat, d: string, i: nat)
    requires i < n <= |params| && Writes(rules, params, i, d)
    ensures exists k :: i <= k < n && Writes(rules, params, k, d) && forall j :: k < j < n ==> !Writes(rules, params, j, d)
  {
    if !Writes(rules, params, n - 1, d) {
      LastWriterExists(rules, params, n - 1, d, i);
    }
  }

  /** Two token lists with the same length that every scan step treats alike
      give the same configuration. */
  lemma {:induction false} SameSteps(rules: map<string, Rule>, p: seq<string>, q: seq<string>, n: nat)
    requires |p| == |q| && n <= |p|
    requires forall i :: 0 <= i < n ==> (p[i] in rules <==> q[i] in rules)
    requires forall i :: 0 <= i < n && p[i] in rules ==>
      rules[p[i]] == rules[q[i]] && TokenValue(rules[p[i]], p, i) == TokenValue(rules[q[i]], q, i)
    ensures ParsePrefix(rules, p, n) == ParsePrefix(rules, q, n)
  {
    if n > 0 {
      SameSteps(rules, p, q, n - 1);
    }
  }

  /** Writing an alias in place of the flag it stands for gives the same
      configuration, provided the token before it is not a flag that takes a
      value: such a flag would take the spelling itself as its value. */
  lemma AliasParsesLikeFlag(rules: map<string, Rule>, pre: seq<string>, post: seq<string>, flag: string, alias: string)
    requires flag in rules && alias in rules && rules[flag] == rules[alias]
    requires pre == [] || pre[|pre| - 1] !in rules || rules[pre[|pre| - 1]].valueOmit == Bool(true)
    ensures Parse(rules, pre + [flag] + post) == Parse(rules, pre + [alias] + post)
  {
    var p := pre + [flag] + post;
    var q := pre + [alias] + post;
    var m := |pre|;
    forall i | 0 <= i < |p|
      ensures p[i] in rules <==> q[i] in rules
      ensures p[i] in rules ==> rules[p[i]] == rules[q[i]] && TokenValue(rules[p[i]], p, i) == TokenValue(rules[q[i]], q, i)
    {
      if i != m {
        assert p[i] == q[i];
      }
      if i + 1 < |p| && i + 1 != m {
        assert p[i + 1] == q[i + 1];
      }
    }
    SameSteps(rules, p, q, |p|);
  }

  /** `commandArgumentsHandle(rules)`, reading the tokens from `argv` instead
      of `process.argv`. */
  method CommandArgumentsHandle(rules: RuleTable, argv: seq<string>) returns (config: map<string, Value>)
    ensures config == Parse(rules.entries, Params(argv))
  {
    var params := if |argv| <= 2 then [] else argv[2..];
    config := map[];
    var index := 0;
    while index < |params|
      invariant index <= |params|
      invariant config == ParsePrefix(rules.entries, params, index)
    {
      var item := params[index];
      if item in rules.entries {
        var r := rules.entries[item];
        config := config[r.dataIndex := if r.valueOmit == Bool(true) then r.omittedValue
                                         else if index + 1 < |params| then Str(params[index + 1])
                                         else Undefined];
      }
      index := index + 1;
    }
  }
}
