/** When the enumeration order of a registry key matters: the exact condition on its values. */
module LayerOrder {
  import opened Text
  import opened EnvBlock
  import opened ComposeLaws
  import opened Percent
  import opened Layers
  import opened LayerLaws

  predicate DistinctNames(values: seq<RegistryValue>) {
    forall i, j :: 0 <= i < |values| && 0 <= j < |values| && i != j ==> values[i].Key() != values[j].Key()
  }

  /* ---------- the condition ---------- */

  /** The plain names of the layer whose value is empty: references to them leave no trace. */
  function EmptyKeys(values: seq<RegistryValue>): set<string> {
    set v | v in values && !v.expandable && v.value == "" :: v.Key()
  }

  function Visible(ts: seq<Token>, empty: set<string>): seq<Token> {
    if ts == [] then []
    else if ts[0].Reference? && ToUpper(ts[0].name) in empty then Visible(ts[1..], empty)
    else [ts[0]] + Visible(ts[1..], empty)
  }

  /** The value comes down to the one reference `%name%`. */
  predicate Echoes(values: seq<RegistryValue>, v: RegistryValue, name: string) {
    Visible(Tokenize(v.value), EmptyKeys(values)) == [Reference(name)]
  }

  /** `a` may be expanded before or after `b`: it does not refer to `b`, or only in the very
      spelling in which `b` refers to nothing but itself. */
  predicate Commutes(values: seq<RegistryValue>, a: RegistryValue, b: RegistryValue) {
    forall r :: r in Tokenize(a.value) && r.Reference? && ToUpper(r.name) == b.Key() ==> Echoes(values, b, r.name)
  }

  /** Among the expandable values, which may refer to themselves, any two commute. */
  predicate Interchangeable(values: seq<RegistryValue>) {
    forall i, j :: 0 <= i < |values| && 0 <= j < |values| && i != j && values[i].expandable && values[j].expandable
      ==> Commutes(values, values[i], values[j])
  }

  /* ---------- seeding ---------- */

  lemma {:induction false} SeedOwn(values: seq<RegistryValue>, t: Table, i: nat)
    requires DistinctNames(values) && i < |values| && !values[i].expandable
    ensures ValueAt(Seed(values, t), values[i].Key()) == Some(values[i].value)
    decreases |values|
  {
    hide ToUpper;
    var v, rest := values[0], values[1..];
    var t' := if v.expandable then t else t[v.Key() := v.value];
    assert forall j :: 0 <= j < |rest| ==> rest[j] == values[j + 1];
    if i == 0 {
      SeedElsewhere(rest, t', v.Key());
    } else {
      SeedOwn(rest, t', i - 1);
    }
  }

  /** The plain values of the layer are in the table. */
  predicate Seeded(t: Table, values: seq<RegistryValue>) {
    forall i :: 0 <= i < |values| && !values[i].expandable ==> ValueAt(t, values[i].Key()) == Some(values[i].value)
  }

  lemma SeedIsSeeded(values: seq<RegistryValue>, t: Table)
    requires DistinctNames(values)
    ensures Seeded(Seed(values, t), values)
  {
    hide ToUpper, Seed, DistinctNames;
    forall i | 0 <= i < |values| && !values[i].expandable {
      SeedOwn(values, t, i);
    }
  }

  lemma EmptySeeded(t: Table, values: seq<RegistryValue>, key: string)
    requires Seeded(t, values) && key in EmptyKeys(values)
    ensures ValueAt(t, key) == Some("")
  {
    hide ToUpper;
    var v :| v in values && !v.expandable && v.value == "" && v.Key() == key;
    var i :| 0 <= i < |values| && values[i] == v;
  }

  lemma {:induction false} MeaningVisible(ts: seq<Token>, t: Table, values: seq<RegistryValue>)
    requires Seeded(t, values)
    ensures Meaning(Visible(ts, EmptyKeys(values)), t) == Meaning(ts, t)
  {
    hide ToUpper, EmptyKeys, Seeded;
    if ts != [] {
      var r, rest := ts[0], ts[1..];
      assert [r] + rest == ts;
      MeaningVisible(rest, t, values);
      MeaningFront(r, rest, t);
      if r.Reference? && ToUpper(r.name) in EmptyKeys(values) {
        EmptySeeded(t, values, ToUpper(r.name));
        assert "" + Meaning(rest, t) == Meaning(rest, t);
      } else {
        MeaningFront(r, Visible(rest, EmptyKeys(values)), t);
      }
    }
  }

  /* ---------- interchangeable values: the order does not matter ---------- */

  /** `t` is `t0` but for the first `n` values; of these the expandable ones stand in it as
      expanded against `t0`. */
  ghost predicate Progress(t: Table, t0: Table, values: seq<RegistryValue>, n: nat)
    requires n <= |values|
  {
    forall k :: (forall j :: 0 <= j < n && values[j].expandable ==> values[j].Key() != k)
      ==> ValueAt(t, k) == ValueAt(t0, k)
  }

  ghost predicate Expansions(t: Table, t0: Table, values: seq<RegistryValue>, n: nat)
    requires n <= |values|
  {
    forall j :: 0 <= j < n && values[j].expandable ==> ValueAt(t, values[j].Key()) == Some(values[j].Expanded(t0))
  }

  lemma ProgressNext(t: Table, t0: Table, values: seq<RegistryValue>, n: nat)
    requires n < |values| && DistinctNames(values) && Seeded(t0, values)
    requires Progress(t, t0, values, n) && Expansions(t, t0, values, n)
    ensures var t' := t[values[n].Key() := values[n].Expanded(t0)];
            Progress(t', t0, values, n + 1) && Expansions(t', t0, values, n + 1)
  {
    hide ToUpper, Expand;
    var t' := t[values[n].Key() := values[n].Expanded(t0)];
    forall k | forall j :: 0 <= j < n + 1 && values[j].expandable ==> values[j].Key() != k
      ensures ValueAt(t', k) == ValueAt(t0, k)
    {
      assert ValueAt(t, k) == ValueAt(t0, k);
    }
  }

  lemma {:induction false} MeaningSame(ts: seq<Token>, t1: Table, t2: Table)
    requires forall r :: r in ts ==> r.Value(t1) == r.Value(t2)
    ensures Meaning(ts, t1) == Meaning(ts, t2)
  {
    hide Token.Value;
    if ts != [] {
      assert ts[0] in ts;
      MeaningSame(ts[1..], t1, t2);
    }
  }

  /** A value that echoes `%name%` expands to whatever that reference does. */
  lemma EchoExpands(values: seq<RegistryValue>, v: RegistryValue, name: string, t: Table)
    requires Seeded(t, values) && v.expandable && Echoes(values, v, name)
    ensures v.Expanded(t) == Reference(name).Value(t)
  {
    hide ToUpper, Tokenize, Visible, EmptyKeys, Seeded, Token.Value;
    MeaningVisible(Tokenize(v.value), t, values);
    MeaningFront(Reference(name), [], t);
    assert [Reference(name)] + [] == [Reference(name)];
    assert Meaning([], t) == "";
  }

  lemma ReadsAlike(values: seq<RegistryValue>, n: nat, t: Table, t0: Table, r: Token)
    requires n < |values| && values[n].expandable && r in Tokenize(values[n].value)
    requires Interchangeable(values) && Seeded(t0, values)
    requires Progress(t, t0, values, n) && Expansions(t, t0, values, n)
    ensures r.Value(t) == r.Value(t0)
  {
    hide ToUpper, Expand, Echoes, Tokenize, Seeded;
    if r.Reference? {
      var k := ToUpper(r.name);
      if j :| 0 <= j < n && values[j].expandable && values[j].Key() == k {
        assert Commutes(values, values[n], values[j]);
        EchoExpands(values, values[j], r.name, t0);
        assert ValueAt(t, k) == Some(r.Value(t0));
      } else {
        assert ValueAt(t, k) == ValueAt(t0, k);
      }
    }
  }

  lemma ExpandedAlike(values: seq<RegistryValue>, n: nat, t: Table, t0: Table)
    requires n < |values| && Interchangeable(values) && Seeded(t0, values)
    requires Progress(t, t0, values, n) && Expansions(t, t0, values, n)
    ensures values[n].Expanded(t) == values[n].Expanded(t0)
  {
    hide ToUpper, Interchangeable, Seeded, Progress, Expansions, Tokenize, Token.Value;
    var v := values[n];
    if v.expandable {
      forall r | r in Tokenize(v.value)
        ensures r.Value(t) == r.Value(t0)
      {
        ReadsAlike(values, n, t, t0, r);
      }
      MeaningSame(Tokenize(v.value), t, t0);
    }
  }

  /** In an interchangeable layer every value is expanded against the seeded table. */
  lemma {:induction false} PassInterchangeable(values: seq<RegistryValue>, n: nat, t: Table, t0: Table, k: nat)
    requires n <= k < |values| && DistinctNames(values) && Interchangeable(values) && Seeded(t0, values)
    requires Progress(t, t0, values, n) && Expansions(t, t0, values, n)
    ensures |Pass(values[n..], t)| == |values| - n
    ensures Pass(values[n..], t)[k - n] == Entry(values[k].name, values[k].Expanded(t0))
    decreases |values| - n
  {
    hide ToUpper, Expand, Pass, Interchangeable, DistinctNames, Progress, Expansions, Seeded;
    var v := values[n];
    assert values[n..] == [v] + values[n + 1..];
    PassNames(values[n..], t);
    PassFront(v, values[n + 1..], t);
    ExpandedAlike(values, n, t, t0);
    if n < k {
      ProgressNext(t, t0, values, n);
      PassInterchangeable(values, n + 1, t[v.Key() := v.Expanded(t)], t0, k);
    }
  }

  lemma NoProgress(t: Table, values: seq<RegistryValue>)
    ensures Progress(t, t, values, 0) && Expansions(t, t, values, 0)
  {
  }

  lemma LayerInterchangeable(values: seq<RegistryValue>, t: Table, k: nat)
    requires DistinctNames(values) && Interchangeable(values) && k < |values|
    ensures |LayerEntries(values, t)| == |values|
    ensures LayerEntries(values, t)[k] == Entry(values[k].name, values[k].Expanded(Seed(values, t)))
  {
    hide ToUpper, Expand, Pass, Interchangeable, DistinctNames, Seed, Progress, Expansions, Seeded;
    var t0 := Seed(values, t);
    SeedIsSeeded(values, t);
    assert values[0..] == values;
    NoProgress(t0, values);
    PassInterchangeable(values, 0, t0, t0, k);
  }

  /* ---------- rearranging ---------- */

  /** `other` is `values` rearranged: position `i` holds what stood at `p[i]`, and `q` undoes `p`. */
  ghost predicate Rearranged(values: seq<RegistryValue>, other: seq<RegistryValue>, p: seq<nat>, q: seq<nat>) {
    && |other| == |p| == |q| == |values|
    && (forall i :: 0 <= i < |p| ==> p[i] < |values| && q[p[i]] == i && other[i] == values[p[i]])
    && (forall i :: 0 <= i < |q| ==> q[i] < |values| && p[q[i]] == i)
  }

  lemma RearrangedHas(values: seq<RegistryValue>, other: seq<RegistryValue>, p: seq<nat>, q: seq<nat>)
    requires Rearranged(values, other, p, q)
    ensures EmptyKeys(other) == EmptyKeys(values)
    ensures DistinctNames(values) ==> DistinctNames(other)
  {
    hide ToUpper;
    assert forall i, j :: 0 <= i < |p| && 0 <= j < |p| && i != j ==> p[i] != p[j];
    forall v
      ensures v in other <==> v in values
    {
      if v in values {
        var i :| 0 <= i < |values| && values[i] == v;
        assert other[q[i]] == v;
      }
    }
  }

  lemma RearrangedInterchangeable(values: seq<RegistryValue>, other: seq<RegistryValue>, p: seq<nat>, q: seq<nat>)
    requires Rearranged(values, other, p, q) && Interchangeable(values)
    ensures Interchangeable(other)
  {
    hide ToUpper, Tokenize, EmptyKeys, Visible, DistinctNames;
    RearrangedHas(values, other, p, q);
    assert forall i, j :: 0 <= i < |p| && 0 <= j < |p| && i != j ==> p[i] != p[j];
    forall i, j | 0 <= i < |other| && 0 <= j < |other| && i != j && other[i].expandable && other[j].expandable
      ensures Commutes(other, other[i], other[j])
    {
      assert Commutes(values, values[p[i]], values[p[j]]);
    }
  }

  lemma SeedRearranged(values: seq<RegistryValue>, other: seq<RegistryValue>, p: seq<nat>, q: seq<nat>, t: Table)
    requires Rearranged(values, other, p, q) && DistinctNames(values)
    ensures Seed(other, t) == Seed(values, t)
  {
    hide ToUpper, Seed, DistinctNames, EmptyKeys;
    RearrangedHas(values, other, p, q);
    forall k
      ensures ValueAt(Seed(other, t), k) == ValueAt(Seed(values, t), k)
    {
      if i :| 0 <= i < |values| && !values[i].expandable && values[i].Key() == k {
        SeedOwn(values, t, i);
        assert other[q[i]] == values[i];
        SeedOwn(other, t, q[i]);
      } else {
        assert NotSeeded(values, k);
        assert NotSeeded(other, k);
        SeedElsewhere(values, t, k);
        SeedElsewhere(other, t, k);
      }
    }
    TablesEqual(Seed(other, t), Seed(values, t));
  }

  /** The entries of the rearranged layer are rearranged alike, and the table is the same. */
  predicate SameLayer(values: seq<RegistryValue>, other: seq<RegistryValue>, p: seq<nat>, t: Table) {
    && |LayerEntries(other, t)| == |LayerEntries(values, t)| == |p|
    && (forall i :: 0 <= i < |p| ==> p[i] < |p| && LayerEntries(other, t)[i] == LayerEntries(values, t)[p[i]])
    && LayerTable(other, t) == LayerTable(values, t)
  }

  lemma EntriesUnique(values: seq<RegistryValue>, t: Table)
    requires DistinctNames(values)
    ensures Unique(LayerEntries(values, t)) && |LayerEntries(values, t)| == |values|
  {
    hide ToUpper, Seed, Pass;
    PassNames(values, Seed(values, t));
    var es := LayerEntries(values, t);
    assert forall i :: 0 <= i < |values| ==> es[i].Key() == values[i].Key();
  }

  lemma ApplyUnique(t: Table, es: seq<Entry>, i: nat)
    requires Unique(es) && i < |es|
    ensures ValueAt(Apply(t, es), es[i].Key()) == Some(es[i].value)
  {
    hide ToUpper, LastWrite, Apply;
    ApplyAt(t, es, es[i].Key());
    LastWriteMeaning(es, i, None);
  }

  lemma ApplyElsewhere(t: Table, es: seq<Entry>, key: string)
    requires forall i :: 0 <= i < |es| ==> es[i].Key() != key
    ensures ValueAt(Apply(t, es), key) == ValueAt(t, key)
  {
    hide ToUpper, LastWrite, Apply;
    ApplyAt(t, es, key);
    LastWriteSilent(es, key, None);
  }

  /** A registry key's enumeration order does not matter: rearranging an interchangeable layer
      gives the same entries, rearranged alike, and the same table. */
  lemma OrderDoesNotMatter(values: seq<RegistryValue>, other: seq<RegistryValue>, p: seq<nat>, q: seq<nat>, t: Table)
    requires DistinctNames(values) && Interchangeable(values) && Rearranged(values, other, p, q)
    ensures SameLayer(values, other, p, t)
  {
    hide ToUpper, Seed, LayerEntries, DistinctNames, Interchangeable, Expand, Apply, LayerTable, EmptyKeys, Unique;
    RearrangedHas(values, other, p, q);
    RearrangedInterchangeable(values, other, p, q);
    SeedRearranged(values, other, p, q, t);
    var es, es' := LayerEntries(values, t), LayerEntries(other, t);
    EntriesUnique(values, t);
    EntriesUnique(other, t);
    forall i | 0 <= i < |p|
      ensures es'[i] == es[p[i]]
    {
      LayerInterchangeable(other, t, i);
      LayerInterchangeable(values, t, p[i]);
    }
    SeedsAreRewritten(values, t);
    SeedsAreRewritten(other, t);
    forall k
      ensures ValueAt(Apply(t, es'), k) == ValueAt(Apply(t, es), k)
    {
      if i :| 0 <= i < |es| && es[i].Key() == k {
        ApplyUnique(t, es, i);
        assert es'[q[i]] == es[i];
        ApplyUnique(t, es', q[i]);
      } else {
        ApplyElsewhere(t, es, k);
        ApplyElsewhere(t, es', k);
      }
    }
    TablesEqual(Apply(t, es'), Apply(t, es));
  }

  /* ---------- other layers: some order matters ---------- */

  ghost predicate OrderFree(values: seq<RegistryValue>) {
    forall t, other, p, q :: Rearranged(values, other, p, q) ==> SameLayer(values, other, p, t)
  }

  function Swap(a: nat, b: nat, k: nat): nat {
    if k == a then b else if k == b then a else k
  }

  /** The rearrangement that starts with the values at `first` and `second`. */
  lemma StartingWith(values: seq<RegistryValue>, first: nat, second: nat)
    returns (other: seq<RegistryValue>, p: seq<nat>, q: seq<nat>)
    requires first < |values| && second < |values| && first != second
    ensures Rearranged(values, other, p, q) && p[0] == first && p[1] == second
  {
    var n, moved := |values|, if second == 0 then first else second;
    p := seq(n, k requires 0 <= k < n => Swap(0, first, Swap(1, moved, k)));
    q := seq(n, k requires 0 <= k < n => Swap(1, moved, Swap(0, first, k)));
    other := seq(n, k requires 0 <= k < n => values[Swap(0, first, Swap(1, moved, k))]);
  }

  lemma FirstTwo(values: seq<RegistryValue>, t: Table)
    requires |values| >= 2
    ensures var v, w, t0 := values[0], values[1], Seed(values, t);
            && |LayerEntries(values, t)| >= 2
            && LayerEntries(values, t)[0] == Entry(v.name, v.Expanded(t0))
            && LayerEntries(values, t)[1] == Entry(w.name, w.Expanded(t0[v.Key() := v.Expanded(t0)]))
  {
    hide ToUpper, Seed, Pass, Expand;
    var v, w, rest, t0 := values[0], values[1], values[2..], Seed(values, t);
    assert values == [v] + ([w] + rest);
    PassFront(v, [w] + rest, t0);
    PassFront(w, rest, t0[v.Key() := v.Expanded(t0)]);
  }

  /** When the order is free, `values[i]` comes out the same right before `values[j]` and right after it. */
  lemma EitherOrder(values: seq<RegistryValue>, i: nat, j: nat, t: Table)
    requires DistinctNames(values) && OrderFree(values) && i < |values| && j < |values| && i != j
    ensures var t0 := Seed(values, t);
            values[i].Expanded(t0) == values[i].Expanded(t0[values[j].Key() := values[j].Expanded(t0)])
  {
    hide ToUpper, Seed, LayerEntries, LayerTable, DistinctNames, Expand;
    var before, p, q := StartingWith(values, i, j);
    var after, p', q' := StartingWith(values, j, i);
    assert SameLayer(values, before, p, t) && SameLayer(values, after, p', t);
    SeedRearranged(values, before, p, q, t);
    SeedRearranged(values, after, p', q', t);
    FirstTwo(before, t);
    FirstTwo(after, t);
  }

  /** Values that grow token by token only come to the same text if none of them changes. */
  lemma {:induction false} MeaningGrows(ts: seq<Token>, t1: Table, t2: Table)
    requires forall r :: r in ts ==> |r.Value(t1)| <= |r.Value(t2)|
    ensures |Meaning(ts, t1)| <= |Meaning(ts, t2)|
    ensures Meaning(ts, t1) == Meaning(ts, t2) ==> forall r :: r in ts ==> r.Value(t1) == r.Value(t2)
  {
    hide Token.Value;
    if ts != [] {
      var r, rest := ts[0], ts[1..];
      assert ts == [r] + rest;
      MeaningGrows(rest, t1, t2);
      MeaningFront(r, rest, t1);
      MeaningFront(r, rest, t2);
      if Meaning(ts, t1) == Meaning(ts, t2) {
        assert Meaning(ts, t1)[..|r.Value(t1)|] == r.Value(t1) && Meaning(ts, t2)[..|r.Value(t1)|] == r.Value(t2);
        assert Meaning(ts, t1)[|r.Value(t1)|..] == Meaning(rest, t1);
        assert Meaning(ts, t2)[|r.Value(t1)|..] == Meaning(rest, t2);
      }
    }
  }

  lemma {:induction false} MeaningAtLeast(ts: seq<Token>, t: Table)
    requires forall r :: r in ts ==> r.Value(t) != ""
    ensures |Meaning(ts, t)| >= |ts|
  {
    hide Token.Value;
    if ts != [] {
      assert ts[0] in ts;
      MeaningAtLeast(ts[1..], t);
    }
  }

  lemma {:induction false} VisibleOf(ts: seq<Token>, empty: set<string>, r: Token)
    ensures r in Visible(ts, empty) <==> r in ts && !(r.Reference? && ToUpper(r.name) in empty)
  {
    hide ToUpper;
    if ts != [] {
      assert ts == [ts[0]] + ts[1..];
      VisibleOf(ts[1..], empty, r);
    }
  }

  /** A token's reading of a name changes the expansion whenever the name's value is not what was read. */
  lemma AnotherValue(ts: seq<Token>, t: Table, key: string, c: string, r: Token)
    requires r in ts && r.Reference? && ToUpper(r.name) == key && r.Value(t) != c
    ensures Meaning(ts, t) != Meaning(ts, t[key := c])
  {
    hide Meaning;
    forall x | x in ts
      ensures if x.Reference? && ToUpper(x.name) == key
              then |x.Value(t)| == |r.Value(t)| && x.Value(t[key := c]) == c
              else x.Value(t[key := c]) == x.Value(t)
    {
      hide ToUpper;
      if x.Reference? && ToUpper(x.name) == key {
        assert |x.name| == |ToUpper(x.name)| == |ToUpper(r.name)| == |r.name|;
      }
    }
    if |r.Value(t)| <= |c| {
      MeaningGrows(ts, t, t[key := c]);
    } else {
      MeaningGrows(ts, t[key := c], t);
    }
  }

  lemma SeededFrom(values: seq<RegistryValue>, t: Table, j: nat)
    requires DistinctNames(values) && j < |values| && values[j].expandable
    ensures ValueAt(Seed(values, t), values[j].Key()) == ValueAt(t, values[j].Key())
    ensures values[j].Key() !in EmptyKeys(values)
  {
    hide ToUpper, Seed;
    SeedElsewhere(values, t, values[j].Key());
  }

  lemma {:induction false} SeedAgrees(values: seq<RegistryValue>, t: Table, t': Table, key: string)
    requires ValueAt(t, key) == ValueAt(t', key)
    ensures ValueAt(Seed(values, t), key) == ValueAt(Seed(values, t'), key)
    decreases |values|
  {
    hide ToUpper;
    if values != [] {
      var v := values[0];
      SeedAgrees(values[1..], if v.expandable then t else t[v.Key() := v.value],
                 if v.expandable then t' else t'[v.Key() := v.value], key);
    }
  }

  /** Over a table with no other entry, what a seeded table reads as empty is an empty plain value. */
  lemma SeedReadsEmpty(values: seq<RegistryValue>, t: Table, key: string)
    requires DistinctNames(values) && ValueAt(Seed(values, t), key) == Some("") && ValueAt(t, key) != Some("")
    ensures key in EmptyKeys(values)
  {
    hide ToUpper, Seed;
    if NotSeeded(values, key) {
      SeedElsewhere(values, t, key);
      assert false;
    } else {
      var i :| 0 <= i < |values| && !values[i].expandable && values[i].Key() == key;
      SeedOwn(values, t, i);
      assert values[i] in values;
    }
  }

  /** A value that refers to itself in more than the one reference outgrows a short value of its own. */
  lemma Outgrows(values: seq<RegistryValue>, j: nat, x: Token)
    requires DistinctNames(values) && j < |values| && values[j].expandable
    requires x in Tokenize(values[j].value) && x.Reference? && ToUpper(x.name) == values[j].Key()
    requires Visible(Tokenize(values[j].value), EmptyKeys(values)) != [x]
    ensures |values[j].Expanded(Seed(values, map[values[j].Key() := "x"]))| > 1
  {
    hide ToUpper, Tokenize, Visible, Seed, EmptyKeys, DistinctNames, Meaning;
    var key, ts := values[j].Key(), Tokenize(values[j].value);
    var t := map[key := "x"];
    var t0, visible := Seed(values, t), Visible(ts, EmptyKeys(values));
    SeedIsSeeded(values, t);
    MeaningVisible(ts, t0, values);
    SeededFrom(values, t, j);
    VisibleOf(ts, EmptyKeys(values), x);
    var k :| 0 <= k < |visible| && visible[k] == x;
    assert |visible| > 1;
    PrintTokenize(values[j].value);
    forall r | r in visible
      ensures r.Value(t0) != ""
    {
      VisibleOf(ts, EmptyKeys(values), r);
      if r.Reference? && ValueAt(t0, ToUpper(r.name)) == Some("") {
        SeedReadsEmpty(values, t, ToUpper(r.name));
      }
    }
    MeaningAtLeast(visible, t0);
  }

  /** When a value refers to `values[j]`, which does not echo the reference, some table tells the
      two orders apart: the reference does not read what `values[j]` comes to. */
  lemma TellApart(values: seq<RegistryValue>, j: nat, name: string)
    returns (t: Table)
    requires DistinctNames(values) && j < |values| && values[j].expandable && ToUpper(name) == values[j].Key()
    requires !Echoes(values, values[j], name)
    ensures Reference(name).Value(Seed(values, t)) != values[j].Expanded(Seed(values, t))
  {
    hide ToUpper, Tokenize, Visible, Seed, EmptyKeys, DistinctNames, Expand;
    var v := values[j];
    var key, ts := v.Key(), Tokenize(v.value);
    if x :| x in ts && x.Reference? && ToUpper(x.name) == key {
      if Visible(ts, EmptyKeys(values)) == [x] {
        t := map[];
        SeededFrom(values, t, j);
        SeedIsSeeded(values, t);
        EchoExpands(values, v, x.name, Seed(values, t));
        assert ("%" + x.name + "%")[1..|x.name| + 1] == x.name;
        assert ("%" + name + "%")[1..|name| + 1] == name;
      } else {
        t := map[key := "x"];
        SeededFrom(values, t, j);
        Outgrows(values, j, x);
      }
    } else {
      var c := v.Expanded(Seed(values, map[]));
      t := map[key := "x" + c];
      SeededFrom(values, t, j);
      forall k | k in References(v.value)
        ensures AgreeAt(Seed(values, t), Seed(values, map[]), k)
      {
        SeedAgrees(values, t, map[], k);
      }
      ExpandDependsOnReferences(v.value, Seed(values, t), Seed(values, map[]));
    }
  }

  /** Two values that do not commute: over some table the first comes out differently right
      before and right after the second. */
  lemma OrderMatters(values: seq<RegistryValue>, i: nat, j: nat)
    returns (t: Table)
    requires DistinctNames(values) && i < |values| && j < |values| && values[i].expandable && values[j].expandable
    requires !Commutes(values, values[i], values[j])
    ensures var t0 := Seed(values, t);
            values[i].Expanded(t0) != values[i].Expanded(t0[values[j].Key() := values[j].Expanded(t0)])
  {
    hide ToUpper, Tokenize, Echoes, Seed, DistinctNames, Meaning, Token.Value;
    var key := values[j].Key();
    var r :| r in Tokenize(values[i].value) && r.Reference? && ToUpper(r.name) == key
             && !Echoes(values, values[j], r.name);
    t := TellApart(values, j, r.name);
    var t0 := Seed(values, t);
    AnotherValue(Tokenize(values[i].value), t0, key, values[j].Expanded(t0), r);
  }

  /** The order in which a registry key lists its values is without effect on every table exactly
      when any two expandable values commute. */
  lemma OrderDecides(values: seq<RegistryValue>)
    requires DistinctNames(values)
    ensures OrderFree(values) <==> Interchangeable(values)
  {
    hide DistinctNames, Rearranged, SameLayer, Commutes, Seed, Expand, ToUpper;
    if Interchangeable(values) {
      forall t, other, p, q | Rearranged(values, other, p, q)
        ensures SameLayer(values, other, p, t)
      {
        OrderDoesNotMatter(values, other, p, q, t);
      }
    }
    if OrderFree(values) {
      forall i, j | 0 <= i < |values| && 0 <= j < |values| && i != j && values[i].expandable && values[j].expandable
        ensures Commutes(values, values[i], values[j])
      {
        if !Commutes(values, values[i], values[j]) {
          var t := OrderMatters(values, i, j);
          EitherOrder(values, i, j, t);
        }
      }
    }
  }
}
