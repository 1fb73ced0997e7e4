/** Rule tables and `expendAliasRules`: the table is a JavaScript object whose
    own keys are flag names; expanding it adds, for every rule with an alias,
    an entry under the alias that holds the same rule. */
module RuleTables {
  import opened JsValue

  /** One rule, the object literal stored under a flag name. A property the
      literal leaves out is `Undefined`; a rule without `dataIndex` writes under
      the key "undefined", which is what JavaScript does with it. */
  datatype Rule = Rule(
    dataIndex: string,
    default: Value,
    valueOmit: Value,
    omittedValue: Value,
    alias: Option<string>)

  /** `if (r.alias)`: an absent or empty alias is falsy. */
  predicate HasAlias(r: Rule) {
    r.alias.Some? && r.alias.value != ""
  }

  /** Rule `r` names `k` as its (truthy) alias. */
  predicate Aliases(r: Rule, k: string) {
    HasAlias(r) && r.alias.value == k
  }

  /** The value of a rule-table object at one moment: its own keys in
      insertion order, and the rule under each key. */
  datatype Table = Table(keys: seq<string>, entries: map<string, Rule>)

  /** The keys are distinct and are exactly the keys of the entries. */
  ghost predicate WellFormed(t: Table) {
    && (forall i, j :: 0 <= i < j < |t.keys| ==> t.keys[i] != t.keys[j])
    && (forall i :: 0 <= i < |t.keys| ==> t.keys[i] in t.entries)
    && (forall k :: k in t.entries ==> k in t.keys)
  }

  /** `Object.values(t)`: the rules in key order, duplicates included. */
  function Values(t: Table): (vs: seq<Rule>)
    requires WellFormed(t)
    ensures |vs| == |t.keys|
    ensures forall i :: 0 <= i < |vs| ==> vs[i] == t.entries[t.keys[i]]
  {
    seq(|t.keys|, i requires 0 <= i < |t.keys| => t.entries[t.keys[i]])
  }

  /** `Object.values` visits the rule of every own key, and visits nothing
      else: each value is the rule of some key. */
  lemma ValuesCoverEntries(t: Table)
    requires WellFormed(t)
    ensures forall k :: k in t.entries ==> t.entries[k] in Values(t)
    ensures forall r :: r in Values(t) ==> exists k :: k in t.entries && t.entries[k] == r
  {
    var vs := Values(t);
    forall k | k in t.entries ensures t.entries[k] in vs {
      var i :| 0 <= i < |t.keys| && t.keys[i] == k;
      assert vs[i] == t.entries[k];
    }
    forall r | r in vs ensures exists k :: k in t.entries && t.entries[k] == r {
      var i :| 0 <= i < |vs| && vs[i] == r;
      assert t.keys[i] in t.entries;
    }
  }

  /** `t[k] = r` on a JavaScript object: an existing key keeps its position,
      a new key is placed last. */
  function Put(t: Table, k: string, r: Rule): (u: Table) {
    Table(if k in t.entries then t.keys else t.keys + [k], t.entries[k := r])
  }

  /** What `expendAliasRules` does for one rule `r` of its snapshot. */
  function AliasStep(t: Table, r: Rule): (u: Table) {
    if HasAlias(r) then Put(t, r.alias.value, r) else t
  }

  /** The aliases that the rules of `vs` bring in. */
  function AliasKeys(vs: seq<Rule>): (ks: set<string>) {
    set i | 0 <= i < |vs| && HasAlias(vs[i]) :: vs[i].alias.value
  }

  /** The table after the expansion has visited the rules `vs` in order,
      starting from `t`. */
  function ExpandWith(t: Table, vs: seq<Rule>): (e: Table)
    decreases |vs|
  {
    if vs == [] then t else AliasStep(ExpandWith(t, vs[..|vs| - 1]), vs[|vs| - 1])
  }

  /** The expansion keeps the table well formed, gains exactly the aliases of
      the visited rules as keys, and keeps every old key in its old position
      (new keys are appended). */
  lemma {:induction false} ExpandShape(t: Table, vs: seq<Rule>)
    ensures ExpandWith(t, vs).entries.Keys == t.entries.Keys + AliasKeys(vs)
    ensures WellFormed(t) ==> WellFormed(ExpandWith(t, vs))
    ensures |t.keys| <= |ExpandWith(t, vs).keys| && ExpandWith(t, vs).keys[..|t.keys|] == t.keys
  {
    if vs != [] {
      var u := ExpandWith(t, vs[..|vs| - 1]);
      ExpandShape(t, vs[..|vs| - 1]);
      AliasKeysLast(vs);
      AliasStepShape(u, vs[|vs| - 1]);
      assert ExpandWith(t, vs).keys[..|u.keys|][..|t.keys|] == u.keys[..|t.keys|];
    }
  }

  /** The aliases of `vs` are those of all but its last rule and those of its last rule. */
  lemma AliasKeysLast(vs: seq<Rule>)
    requires vs != []
    ensures AliasKeys(vs) == AliasKeys(vs[..|vs| - 1]) + AliasKeys([vs[|vs| - 1]])
  {
    var pre := vs[..|vs| - 1];
    var last := vs[|vs| - 1];
    forall k | k in AliasKeys(vs) ensures k in AliasKeys(pre) + AliasKeys([last]) {
      var i :| 0 <= i < |vs| && HasAlias(vs[i]) && vs[i].alias.value == k;
      if i < |vs| - 1 { assert pre[i] == vs[i]; } else { assert [last][0] == vs[i]; }
    }
    forall k | k in AliasKeys(pre) ensures k in AliasKeys(vs) {
      var i :| 0 <= i < |pre| && HasAlias(pre[i]) && pre[i].alias.value == k;
      assert vs[i] == pre[i];
    }
  }

  /** One step of the expansion adds the rule's alias as a key, at the end
      when it is new, and keeps the table well formed. */
  lemma AliasStepShape(u: Table, r: Rule)
    ensures AliasStep(u, r).entries.Keys == u.entries.Keys + AliasKeys([r])
    ensures WellFormed(u) ==> WellFormed(AliasStep(u, r))
    ensures |u.keys| <= |AliasStep(u, r).keys| && AliasStep(u, r).keys[..|u.keys|] == u.keys
  {
    assert [r][0] == r;
    assert AliasKeys([r]) == if HasAlias(r) then {r.alias.value} else {};
    if HasAlias(r) && r.alias.value !in u.entries {
      assert AliasStep(u, r).keys == u.keys + [r.alias.value];
    }
  }

  /** `expendAliasRules(rules)`: the snapshot `Object.values(rules)` is taken
      before the first assignment, so entries added on the way are not
      visited. */
  function Expanded(t: Table): (e: Table)
    requires WellFormed(t)
    ensures WellFormed(e)
    ensures e.entries.Keys == t.entries.Keys + AliasKeys(Values(t))
  {
    ExpandShape(t, Values(t));
    ExpandWith(t, Values(t))
  }

  /** No two rules of `vs` share an alias unless they are the same rule. */
  ghost predicate UniqueAliases(vs: seq<Rule>) {
    forall i, j :: 0 <= i < j < |vs| && HasAlias(vs[i]) && Aliases(vs[j], vs[i].alias.value) ==> vs[i] == vs[j]
  }

  /** A key that no visited rule names as its alias keeps its rule. */
  lemma {:induction false} ExpandKeepsUnaliased(t: Table, vs: seq<Rule>, k: string)
    requires k in t.entries
    requires forall j :: 0 <= j < |vs| ==> !Aliases(vs[j], k)
    ensures k in ExpandWith(t, vs).entries && ExpandWith(t, vs).entries[k] == t.entries[k]
  {
    if vs != [] {
      var pre := vs[..|vs| - 1];
      assert forall j :: 0 <= j < |pre| ==> pre[j] == vs[j];
      ExpandKeepsUnaliased(t, pre, k);
      assert !Aliases(vs[|vs| - 1], k);
    }
  }

  /** The alias of rule `vs[i]` holds `vs[i]` when every later rule with the same
      alias is that same rule: the last rule naming an alias wins. */
  lemma {:induction false} ExpandLastAliasWins(t: Table, vs: seq<Rule>, i: nat)
    requires i < |vs| && HasAlias(vs[i])
    requires forall j :: i < j < |vs| && Aliases(vs[j], vs[i].alias.value) ==> vs[j] == vs[i]
    ensures vs[i].alias.value in ExpandWith(t, vs).entries
    ensures ExpandWith(t, vs).entries[vs[i].alias.value] == vs[i]
  {
    var pre := vs[..|vs| - 1];
    if i < |vs| - 1 {
      assert forall j :: 0 <= j < |pre| ==> pre[j] == vs[j];
      ExpandLastAliasWins(t, pre, i);
    }
  }

  /** Every entry after the expansion is the entry the key had before, or one
      of the visited rules. */
  lemma {:induction false} ExpandEntriesFrom(t: Table, vs: seq<Rule>, k: string)
    requires k in ExpandWith(t, vs).entries
    ensures || (k in t.entries && ExpandWith(t, vs).entries[k] == t.entries[k])
            || ExpandWith(t, vs).entries[k] in vs
  {
    if vs != [] {
      var pre := vs[..|vs| - 1];
      var last := vs[|vs| - 1];
      if !Aliases(last, k) {
        ExpandEntriesFrom(t, pre, k);
        var r := ExpandWith(t, pre).entries[k];
        if r in pre {
          var j :| 0 <= j < |pre| && pre[j] == r;
          assert vs[j] == r;
        }
      }
    }
  }

  /** Visiting rules that already sit under their own aliases changes nothing. */
  lemma {:induction false} ExpandSettled(t: Table, vs: seq<Rule>)
    requires forall j :: 0 <= j < |vs| && HasAlias(vs[j]) ==>
      vs[j].alias.value in t.entries && t.entries[vs[j].alias.value] == vs[j]
    ensures ExpandWith(t, vs) == t
  {
    if vs != [] {
      var pre := vs[..|vs| - 1];
      assert forall j :: 0 <= j < |pre| ==> pre[j] == vs[j];
      ExpandSettled(t, pre);
      var last := vs[|vs| - 1];
      if HasAlias(last) {
        assert t.entries[last.alias.value := last] == t.entries;
      }
    }
  }

  /** With unique aliases, every rule of the table that has an alias can be
      reached under that alias, and the entry there is that very rule. */
  lemma AliasReachable(t: Table, k: string)
    requires WellFormed(t) && UniqueAliases(Values(t))
    requires k in t.entries && HasAlias(t.entries[k])
    ensures t.entries[k].alias.value in Expanded(t).entries
    ensures Expanded(t).entries[t.entries[k].alias.value] == t.entries[k]
  {
    var vs := Values(t);
    var i :| 0 <= i < |t.keys| && t.keys[i] == k;
    ExpandLastAliasWins(t, vs, i);
  }

  /** A key that is no rule's alias keeps its rule through the expansion. */
  lemma UnaliasedKeyKept(t: Table, k: string)
    requires WellFormed(t) && k in t.entries
    requires forall j :: 0 <= j < |t.keys| ==> !Aliases(t.entries[t.keys[j]], k)
    ensures k in Expanded(t).entries && Expanded(t).entries[k] == t.entries[k]
  {
    ExpandKeepsUnaliased(t, Values(t), k);
  }

  /** Every rule of the expanded table was a rule of the original table. */
  lemma ExpandedValuesFromTable(t: Table, k: string)
    requires WellFormed(t) && k in Expanded(t).entries
    ensures Expanded(t).entries[k] in Values(t)
  {
    var vs := Values(t);
    ExpandEntriesFrom(t, vs, k);
    if k in t.entries && ExpandWith(t, vs).entries[k] == t.entries[k] {
      var i :| 0 <= i < |t.keys| && t.keys[i] == k;
      assert vs[i] == t.entries[k];
    }
  }

  /** When no two rules share an alias, expanding an expanded table again (a
      second `argumentsToConfig` call on the same rules object) is a no-op. */
  lemma ExpandIdempotent(t: Table)
    requires WellFormed(t) && UniqueAliases(Values(t))
    ensures Expanded(Expanded(t)) == Expanded(t)
  {
    var e := Expanded(t);
    var vs := Values(t);
    var es := Values(e);
    forall j | 0 <= j < |es| && HasAlias(es[j])
      ensures es[j].alias.value in e.entries && e.entries[es[j].alias.value] == es[j]
    {
      ExpandedValuesFromTable(t, e.keys[j]);
      var i :| 0 <= i < |vs| && vs[i] == es[j];
      AliasReachable(t, t.keys[i]);
    }
    ExpandSettled(e, es);
  }

  /** Without unique aliases the expansion is not idempotent. Take a table with
      keys `k`, `a`, `b`, `c` in that order, where the rules under `a` and `b`
      share the alias `k` and the rule under `c` has the alias `b`. The first
      expansion leaves the rule of `b` under `k` and the rule of `c` under `b`,
      so in the values the rule of `b` now comes before the rule of `a`; the
      second expansion visits them in that order and leaves the rule of `a`
      under `k`. */
  lemma SharedAliasNotIdempotent(k: string, a: string, b: string, c: string, rk: Rule, ra: Rule, rb: Rule, rc: Rule)
    requires k != a && k != b && k != c && a != b && a != c && b != c
    requires !HasAlias(rk) && Aliases(ra, k) && Aliases(rb, k) && Aliases(rc, b) && ra != rb
    ensures var t := Table([k, a, b, c], map[k := rk, a := ra, b := rb, c := rc]);
      && WellFormed(t)
      && k in Expanded(t).entries && Expanded(t).entries[k] == rb
      && k in Expanded(Expanded(t)).entries && Expanded(Expanded(t)).entries[k] == ra
  {
    var t := Table([k, a, b, c], map[k := rk, a := ra, b := rb, c := rc]);
    SharedAliasFirst(k, a, b, c, rk, ra, rb, rc);
    SharedAliasSecond(k, a, b, c, ra, rb, rc, Expanded(t));
  }

  /** The first expansion of the counterexample table. */
  lemma SharedAliasFirst(k: string, a: string, b: string, c: string, rk: Rule, ra: Rule, rb: Rule, rc: Rule)
    requires k != a && k != b && k != c && a != b && a != c && b != c
    requires !HasAlias(rk) && Aliases(ra, k) && Aliases(rb, k) && Aliases(rc, b)
    ensures var t := Table([k, a, b, c], map[k := rk, a := ra, b := rb, c := rc]);
      && WellFormed(t)
      && var e := Expanded(t);
      && WellFormed(e) && e.keys == [k, a, b, c]
      && k in e.entries && a in e.entries && b in e.entries && c in e.entries
      && e.entries[k] == rb && e.entries[a] == ra && e.entries[b] == rc && e.entries[c] == rc
  {
    var t := Table([k, a, b, c], map[k := rk, a := ra, b := rb, c := rc]);
    FourKeysWellFormed(t, k, a, b, c);
    var vs := Values(t);
    assert vs[0] == rk && vs[1] == ra && vs[2] == rb && vs[3] == rc;
    ExpandFour(t, vs);
    var t2 := Put(t, k, ra);
    assert t2.keys == t.keys && k in t2.entries && b in t2.entries;
    var t3 := Put(t2, k, rb);
    assert t3.keys == t.keys && b in t3.entries && t3.entries[k] == rb;
    assert t3.entries[a] == ra && t3.entries[c] == rc;
    assert Expanded(t) == Put(t3, b, rc);
  }

  /** A table with four distinct keys, each holding a rule, is well formed. */
  lemma FourKeysWellFormed(t: Table, k: string, a: string, b: string, c: string)
    requires k != a && k != b && k != c && a != b && a != c && b != c
    requires t.keys == [k, a, b, c] && t.entries.Keys == {k, a, b, c}
    ensures WellFormed(t)
  {
    forall x | x in t.entries ensures x in t.keys {
      if x == k { assert t.keys[0] == x; }
      else if x == a { assert t.keys[1] == x; }
      else if x == b { assert t.keys[2] == x; }
      else { assert t.keys[3] == x; }
    }
  }

  /** The second expansion of the counterexample table. */
  lemma SharedAliasSecond(k: string, a: string, b: string, c: string, ra: Rule, rb: Rule, rc: Rule, e: Table)
    requires k != a && k != b && k != c && a != b && a != c && b != c
    requires Aliases(ra, k) && Aliases(rb, k) && Aliases(rc, b)
    requires WellFormed(e) && e.keys == [k, a, b, c]
    requires k in e.entries && a in e.entries && b in e.entries && c in e.entries
    requires e.entries[k] == rb && e.entries[a] == ra && e.entries[b] == rc && e.entries[c] == rc
    ensures k in Expanded(e).entries && Expanded(e).entries[k] == ra
  {
    var vs := Values(e);
    assert vs[0] == rb && vs[1] == ra && vs[2] == rc && vs[3] == rc;
    ExpandFour(e, vs);
    var e3 := Put(Put(e, k, rb), k, ra);
    assert e3.entries[k] == ra;
    assert Expanded(e) == Put(Put(e3, b, rc), b, rc);
  }

  /** Visiting four rules is four alias steps. */
  lemma ExpandFour(t: Table, vs: seq<Rule>)
    requires |vs| == 4
    ensures ExpandWith(t, vs) == AliasStep(AliasStep(AliasStep(AliasStep(t, vs[0]), vs[1]), vs[2]), vs[3])
  {
    assert vs[..4] == vs;
    ExpandOneMore(t, vs, 3);
    ExpandOneMore(t, vs, 2);
    ExpandOneMore(t, vs, 1);
    ExpandOneMore(t, vs, 0);
    assert vs[..0] == [];
  }

  /** Visiting one more rule of the snapshot is one more alias step. */
  lemma ExpandOneMore(t: Table, vs: seq<Rule>, i: nat)
    requires i < |vs|
    ensures ExpandWith(t, vs[..i + 1]) == AliasStep(ExpandWith(t, vs[..i]), vs[i])
  {
    assert vs[..i + 1][..i] == vs[..i];
  }

  /** A JavaScript rule-table object, updated in place by the expansion. */
  class RuleTable {
    var keys: seq<string>
    var entries: map<string, Rule>

    /** The table this object holds now. */
    function State(): (t: Table)
      reads this
    {
      Table(keys, entries)
    }

    ghost predicate Valid()
      reads this
    {
      WellFormed(State())
    }

    /** The object literal written at a call site. */
    constructor (t: Table)
      requires WellFormed(t)
      ensures Valid() && State() == t
    {
      keys := t.keys;
      entries := t.entries;
    }

    /** `rules[k] = r`. */
    method Assign(k: string, r: Rule)
      requires Valid()
      modifies this
      ensures Valid() && State() == Put(old(State()), k, r)
    {
      if k !in entries {
        keys := keys + [k];
      }
      entries := entries[k := r];
    }

    /** `expendAliasRules(rules)`: for every rule of a snapshot of the values
        that has a truthy alias, `rules[r.alias] = r`. */
    method ExpandAliases()
      requires Valid()
      modifies this
      ensures Valid() && State() == Expanded(old(State()))
    {
      ghost var t0 := State();
      var vs := Values(State());
      var i := 0;
      while i < |vs|
        invariant i <= |vs|
        invariant Valid()
        invariant State() == ExpandWith(t0, vs[..i])
      {
        var r := vs[i];
        if HasAlias(r) {
          Assign(r.alias.value, r);
        }
        ExpandOneMore(t0, vs, i);
        i := i + 1;
      }
      assert vs[..i] == vs;
    }
  }
}
