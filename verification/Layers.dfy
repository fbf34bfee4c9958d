/** `expandLayer` and `sessionEnv`: two registry layers are expanded through one growing table,
    then composed over the inherited block. */
module Layers {
  import opened Text
  import opened EnvBlock
  import opened Percent

  /** One value of an Environment registry key. */
  datatype RegistryValue = RegistryValue(name: string, value: string, expandable: bool) {
    function Key(): string { ToUpper(name) }

    function Expanded(table: Table): string {
      if expandable then Expand(value, table) else value
    }
  }

  /* ---------- the specification of one layer ---------- */

  /** Plain values are in the table before anything is expanded. */
  function Seed(values: seq<RegistryValue>, table: Table): Table
    decreases |values|
  {
    if values == [] then table
    else Seed(values[1..], if values[0].expandable then table else table[values[0].Key() := values[0].value])
  }

  /** The single pass: each value is expanded against everything set so far. */
  function Pass(values: seq<RegistryValue>, table: Table): seq<Entry>
    decreases |values|
  {
    if values == [] then []
    else
      var value := values[0].Expanded(table);
      [Entry(values[0].name, value)] + Pass(values[1..], table[values[0].Key() := value])
  }

  function LayerEntries(values: seq<RegistryValue>, table: Table): seq<Entry> {
    Pass(values, Seed(values, table))
  }

  /** The table a layer leaves behind. */
  function LayerTable(values: seq<RegistryValue>, table: Table): Table {
    Apply(Seed(values, table), LayerEntries(values, table))
  }

  lemma SeedFront(v: RegistryValue, rest: seq<RegistryValue>, table: Table)
    ensures Seed([v] + rest, table) == Seed(rest, if v.expandable then table else table[v.Key() := v.value])
  {
    hide ToUpper;
    assert ([v] + rest)[1..] == rest;
  }

  lemma {:induction false} SeedStep(values: seq<RegistryValue>, n: nat, table: Table)
    requires n < |values|
    ensures Seed(values[..n + 1], table) ==
            if values[n].expandable then Seed(values[..n], table)
            else Seed(values[..n], table)[values[n].Key() := values[n].value]
    decreases n
  {
    hide ToUpper, Seed;
    var v := values[0];
    assert values[..n + 1] == [v] + values[1..][..n];
    SeedFront(v, values[1..][..n], table);
    if n == 0 {
      SeedNothing(table);
      SeedNothing(if v.expandable then table else table[v.Key() := v.value]);
    } else {
      assert values[..n] == [v] + values[1..][..n - 1];
      SeedFront(v, values[1..][..n - 1], table);
      SeedStep(values[1..], n - 1, if v.expandable then table else table[v.Key() := v.value]);
    }
  }

  lemma SeedNothing(table: Table)
    ensures Seed([], table) == table
  {
  }

  lemma PassFront(v: RegistryValue, rest: seq<RegistryValue>, table: Table)
    ensures var value := v.Expanded(table);
            Pass([v] + rest, table) == [Entry(v.name, value)] + Pass(rest, table[v.Key() := value])
  {
    hide ToUpper, Expand;
    assert ([v] + rest)[1..] == rest;
  }

  lemma PassNothing(table: Table)
    ensures Pass([], table) == []
  {
  }

  /* ---------- the loops ---------- */

  method ExpandLayer(values: seq<RegistryValue>, lookup: EnvLookup) returns (entries: seq<Entry>)
    modifies lookup
    ensures entries == LayerEntries(values, old(lookup.table))
    ensures lookup.table == LayerTable(values, old(lookup.table))
  {
    hide ToUpper, Seed, Pass, Apply, Expand;
    entries := [];
    SeedNothing(lookup.table);
    assert values[..0] == [];
    for n := 0 to |values|
      invariant lookup.table == Seed(values[..n], old(lookup.table))
    {
      SeedStep(values, n, old(lookup.table));
      var v := values[n];
      if !v.expandable {
        lookup.Set(v.name, v.value);
      }
    }
    assert values[..|values|] == values;
    ghost var all := LayerEntries(values, old(lookup.table));
    ghost var final := LayerTable(values, old(lookup.table));
    assert values[0..] == values;
    for n := 0 to |values|
      invariant all == entries + Pass(values[n..], lookup.table)
      invariant final == Apply(lookup.table, Pass(values[n..], lookup.table))
    {
      var v := values[n];
      ghost var rest := values[n + 1..];
      assert values[n..] == [v] + rest;
      PassFront(v, rest, lookup.table);
      var value := v.value;
      if v.expandable {
        value := ExpandPercent(v.value, lookup);
      }
      var e := Entry(v.name, value);
      ghost var tail := Pass(rest, lookup.table[v.Key() := value]);
      ApplyFront(lookup.table, e, tail);
      assert all == entries + [e] + tail;
      lookup.Set(v.name, value);
      entries := entries + [e];
    }
    assert values[|values|..] == [];
    PassNothing(lookup.table);
    ApplyNothing(lookup.table);
  }

  /* ---------- the session ---------- */

  /** Everything `sessionEnv` computes: the entries of both layers and the final table. */
  datatype Session = Session(machine: seq<Entry>, user: seq<Entry>, below: Table, lookup: Table)

  function SessionOf(base: seq<string>, machine: seq<RegistryValue>, user: seq<RegistryValue>): Session {
    var t0 := TableOf(base);
    var t1 := LayerTable(machine, t0);
    Session(LayerEntries(machine, t0), LayerEntries(user, t1), t1, LayerTable(user, t1))
  }

  function SessionBlock(base: seq<string>, machine: seq<RegistryValue>, user: seq<RegistryValue>): seq<string> {
    var s := SessionOf(base, machine, user);
    Compose(base, s.machine, s.user)
  }

  /** The inherited block and the two registry keys are inputs. */
  method SessionEnv(base: seq<string>, machineKey: seq<RegistryValue>, userKey: seq<RegistryValue>)
    returns (block: seq<string>)
    ensures block == SessionBlock(base, machineKey, userKey)
  {
    hide LayerEntries, LayerTable, Compose;
    var lookup := new EnvLookup(base);
    var machine := ExpandLayer(machineKey, lookup);
    var user := ExpandLayer(userKey, lookup);
    block := ComposeEnv(base, machine, user);
  }
}
