/** Laws of layer expansion and of the session environment built from it. */
module LayerLaws {
  import opened Text
  import opened PathMerge
  import opened EnvBlock
  import opened ComposeLaws
  import opened Percent
  import opened Layers

  /* ---------- tables, seen from one key ---------- */

  function ValueAt(t: Table, key: string): Option<string> {
    if key in t then Some(t[key]) else None
  }

  lemma TablesEqual(t1: Table, t2: Table)
    requires forall k :: ValueAt(t1, k) == ValueAt(t2, k)
    ensures t1 == t2
  {
    forall k
      ensures k in t1 <==> k in t2
      ensures k in t1 ==> t1[k] == t2[k]
    {
      assert ValueAt(t1, k) == ValueAt(t2, k);
    }
  }

  lemma {:induction false} ApplyAt(t: Table, es: seq<Entry>, key: string)
    ensures ValueAt(Apply(t, es), key) ==
            match LastWrite(es, key, None)
            case Some(e) => Some(e.value)
            case None => ValueAt(t, key)
    decreases |es|
  {
    hide ToUpper, LastWrite;
    if es == [] {
      LastWriteNothing(key, None);
    } else {
      var e, rest := es[0], es[1..];
      assert [e] + rest == es;
      ApplyAt(t[e.Key() := e.value], rest, key);
      LastWriteFront(e, rest, key, None);
      LastWriteDecided(rest, key, Some(e), None);
      LastWriteKept(rest, key);
    }
  }

  lemma LastWriteKept(es: seq<Entry>, key: string)
    ensures LastWrite(es, key, None).Some? <==> ValuesOf(es, key) != []
  {
    hide ToUpper, LastWrite;
    LastWriteDecided(es, key, None, None);
  }

  lemma {:induction false} ValuesSilent(es: seq<Entry>, key: string)
    ensures ValuesOf(es, key) == [] <==> SilentFrom(es, key, 0)
  {
    hide ToUpper;
    if es != [] {
      ValuesSilent(es[1..], key);
      assert forall i :: 0 <= i < |es| - 1 ==> es[1..][i] == es[i + 1];
      assert SilentFrom(es, key, 0) <==> es[0].Key() != key && SilentFrom(es[1..], key, 0) by {
        if es[0].Key() != key && SilentFrom(es[1..], key, 0) {
          assert forall i :: 0 < i < |es| ==> es[i] == es[1..][i - 1];
        }
      }
    }
  }

  /* ---------- the shape of one layer ---------- */

  lemma {:induction false} PassNames(values: seq<RegistryValue>, t: Table)
    ensures |Pass(values, t)| == |values|
    ensures forall i :: 0 <= i < |values| ==> Pass(values, t)[i].name == values[i].name
    decreases |values|
  {
    hide ToUpper, Expand;
    if values != [] {
      PassNames(values[1..], t[values[0].Key() := values[0].Expanded(t)]);
    }
  }

  /** No plain value of the layer is named `key`. */
  predicate NotSeeded(values: seq<RegistryValue>, key: string) {
    forall i :: 0 <= i < |values| && !values[i].expandable ==> values[i].Key() != key
  }

  lemma {:induction false} SeedElsewhere(values: seq<RegistryValue>, t: Table, key: string)
    requires NotSeeded(values, key)
    ensures ValueAt(Seed(values, t), key) == ValueAt(t, key)
    decreases |values|
  {
    hide ToUpper;
    if values != [] {
      var v, rest := values[0], values[1..];
      assert NotSeeded(rest, key) by {
        assert forall i :: 0 <= i < |rest| ==> rest[i] == values[i + 1];
      }
      SeedElsewhere(rest, if v.expandable then t else t[v.Key() := v.value], key);
    }
  }

  /** Seeding is not visible in the table a layer leaves: every seeded name is set again in the
      pass, so the layer amounts to applying its entries to the table it was given. */
  lemma SeedsAreRewritten(values: seq<RegistryValue>, t: Table)
    ensures LayerTable(values, t) == Apply(t, LayerEntries(values, t))
  {
    hide ToUpper, Seed, Pass, Apply, LastWrite, ValuesOf;
    var t0 := Seed(values, t);
    var es := LayerEntries(values, t);
    PassNames(values, t0);
    forall k
      ensures ValueAt(Apply(t0, es), k) == ValueAt(Apply(t, es), k)
    {
      ApplyAt(t0, es, k);
      ApplyAt(t, es, k);
      LastWriteKept(es, k);
      ValuesSilent(es, k);
      if SilentFrom(es, k, 0) {
        forall i | 0 <= i < |values| && !values[i].expandable
          ensures values[i].Key() != k
        {
          assert es[i].Key() != k;
        }
        SeedElsewhere(values, t, k);
      }
    }
    TablesEqual(Apply(t0, es), Apply(t, es));
  }

  /* ---------- full expansion ---------- */

  predicate TablePlain(t: Table) {
    forall k :: k in t ==> '%' !in t[k]
  }

  predicate EntriesPlain(es: seq<Entry>) {
    forall e :: e in es ==> '%' !in e.value
  }

  function KeySet(values: seq<RegistryValue>): set<string> {
    set v | v in values :: v.Key()
  }

  function PlainKeys(values: seq<RegistryValue>): set<string> {
    set v | v in values && !v.expandable :: v.Key()
  }

  /** Each value in turn is free of percent signs, or refers only to names known by then. */
  predicate CompleteFrom(values: seq<RegistryValue>, known: set<string>)
    decreases |values|
  {
    values == [] ||
    (&& (if values[0].expandable then Complete(values[0].value, known) else '%' !in values[0].value)
     && CompleteFrom(values[1..], known + {values[0].Key()}))
  }

  /** The condition on a whole layer: the plain names are known from the start. */
  predicate LayerComplete(values: seq<RegistryValue>, known: set<string>) {
    CompleteFrom(values, known + PlainKeys(values))
  }

  predicate PlainValuesPlain(values: seq<RegistryValue>) {
    forall v :: v in values && !v.expandable ==> '%' !in v.value
  }

  lemma EntriesPlainFront(e: Entry, es: seq<Entry>)
    ensures EntriesPlain([e] + es) <==> '%' !in e.value && EntriesPlain(es)
  {
    assert e in [e] + es;
  }

  lemma {:induction false} PassPlain(values: seq<RegistryValue>, t: Table)
    requires TablePlain(t)
    ensures EntriesPlain(Pass(values, t)) <==> CompleteFrom(values, t.Keys)
    decreases |values|
  {
    hide ToUpper, Expand, Complete, EntriesPlain;
    if values == [] {
      PlainNothing();
    } else {
      var v, rest := values[0], values[1..];
      var value := v.Expanded(t);
      var t' := t[v.Key() := value];
      EntriesPlainFront(Entry(v.name, value), Pass(rest, t'));
      PlainTableBrings(v.value, t);
      ExpandPlainExactly(v.value, t);
      assert t'.Keys == t.Keys + {v.Key()};
      if '%' !in value {
        PassPlain(rest, t');
      }
    }
  }

  lemma PlainNothing()
    ensures EntriesPlain([])
  {
  }

  lemma PlainTableBrings(s: string, t: Table)
    requires TablePlain(t)
    ensures BringsPlain(Tokenize(s), t)
  {
    hide ToUpper, Tokenize;
  }

  lemma {:induction false} PlainNeeded(values: seq<RegistryValue>, t: Table, known: set<string>)
    ensures EntriesPlain(Pass(values, t)) ==> PlainValuesPlain(values)
    ensures CompleteFrom(values, known) ==> PlainValuesPlain(values)
    decreases |values|
  {
    hide ToUpper, Expand, Complete, EntriesPlain;
    if values != [] {
      var v, rest := values[0], values[1..];
      assert values == [v] + rest;
      var value := v.Expanded(t);
      EntriesPlainFront(Entry(v.name, value), Pass(rest, t[v.Key() := value]));
      PlainNeeded(rest, t[v.Key() := value], known + {v.Key()});
    }
  }

  lemma {:induction false} SeedPlain(values: seq<RegistryValue>, t: Table)
    requires TablePlain(t) && PlainValuesPlain(values)
    ensures TablePlain(Seed(values, t))
    ensures Seed(values, t).Keys == t.Keys + PlainKeys(values)
    decreases |values|
  {
    hide ToUpper;
    if values != [] {
      var v, rest := values[0], values[1..];
      assert values == [v] + rest;
      var t' := if v.expandable then t else t[v.Key() := v.value];
      SeedPlain(rest, t');
      assert PlainKeys(values) == (if v.expandable then {} else {v.Key()}) + PlainKeys(rest);
    }
  }

  lemma {:induction false} ApplyPlain(t: Table, es: seq<Entry>)
    requires TablePlain(t) && EntriesPlain(es)
    ensures TablePlain(Apply(t, es))
    decreases |es|
  {
    hide ToUpper;
    if es != [] {
      assert es[0] in es;
      ApplyPlain(t[es[0].Key() := es[0].value], es[1..]);
    }
  }

  lemma {:induction false} ApplyKeys(t: Table, es: seq<Entry>)
    ensures Apply(t, es).Keys == t.Keys + set e | e in es :: e.Key()
    decreases |es|
  {
    hide ToUpper;
    if es != [] {
      var e, rest := es[0], es[1..];
      assert es == [e] + rest;
      ApplyKeys(t[e.Key() := e.value], rest);
      assert (set x | x in es :: x.Key()) == {e.Key()} + set x | x in rest :: x.Key();
    }
  }

  lemma LayerKeys(values: seq<RegistryValue>, t: Table)
    ensures LayerTable(values, t).Keys == t.Keys + KeySet(values)
  {
    hide ToUpper, Pass, Seed, Apply, LayerTable;
    var es := LayerEntries(values, t);
    SeedsAreRewritten(values, t);
    ApplyKeys(t, es);
    PassNames(values, Seed(values, t));
    var ks := set e | e in es :: e.Key();
    forall k
      ensures k in ks <==> k in KeySet(values)
    {
      if k in ks {
        var i :| 0 <= i < |es| && es[i].Key() == k;
        assert values[i].Key() == k;
      }
      if k in KeySet(values) {
        var i :| 0 <= i < |values| && values[i].Key() == k;
        assert es[i].Key() == k;
      }
    }
  }

  /** Over a plain table a layer leaves no percent sign exactly when it is complete, and then the
      table it leaves is plain again. */
  lemma LayerPlain(values: seq<RegistryValue>, t: Table)
    requires TablePlain(t)
    ensures EntriesPlain(LayerEntries(values, t)) <==> LayerComplete(values, t.Keys)
    ensures LayerComplete(values, t.Keys) ==> TablePlain(LayerTable(values, t))
  {
    hide ToUpper, Pass, Seed, Apply, EntriesPlain, CompleteFrom, TablePlain, LayerTable;
    PlainNeeded(values, Seed(values, t), t.Keys + PlainKeys(values));
    if PlainValuesPlain(values) {
      SeedPlain(values, t);
      PassPlain(values, Seed(values, t));
    }
    if EntriesPlain(LayerEntries(values, t)) {
      SeedsAreRewritten(values, t);
      ApplyPlain(t, LayerEntries(values, t));
    }
  }

  /** Over an inherited block without percent signs, the session's entries are fully expanded
      exactly when each registry value refers only to inherited names, plain names of its layer,
      names of an earlier layer, or names that come before it. */
  lemma FullExpansion(base: seq<string>, machine: seq<RegistryValue>, user: seq<RegistryValue>)
    requires TablePlain(TableOf(base))
    ensures var s := SessionOf(base, machine, user);
            var known := TableOf(base).Keys;
            && (EntriesPlain(s.machine) && EntriesPlain(s.user)
                <==> LayerComplete(machine, known) && LayerComplete(user, known + KeySet(machine)))
            && (EntriesPlain(s.machine) && EntriesPlain(s.user) ==> TablePlain(s.below) && TablePlain(s.lookup))
  {
    hide ToUpper, LayerEntries, LayerTable, LayerComplete, TablePlain, EntriesPlain, TableOf;
    var t0 := TableOf(base);
    LayerPlain(machine, t0);
    LayerKeys(machine, t0);
    if LayerComplete(machine, t0.Keys) {
      LayerPlain(user, LayerTable(machine, t0));
    }
  }

  /* ---------- the two tables ---------- */

  lemma {:induction false} AppliedBlock(block: seq<Entry>, key: string)
    requires Unique(block)
    ensures ValueAt(Apply(map[], block), key) ==
            match Find(block, key) case Some(e) => Some(e.value) case None => None
  {
    hide ToUpper, Apply, LastWrite, Find, Unique;
    ApplyAt(map[], block, key);
    FindIsLastWrite(block, key);
  }

  predicate ReadableNames(values: seq<RegistryValue>) {
    forall v :: v in values ==> Entry(v.name, "").Readable()
  }

  lemma EntriesReadable(values: seq<RegistryValue>, t: Table)
    requires ReadableNames(values)
    ensures AllReadable(LayerEntries(values, t))
  {
    hide Seed, Pass;
    PassNames(values, Seed(values, t));
    var es := LayerEntries(values, t);
    forall e | e in es
      ensures e.Readable()
    {
      var i :| 0 <= i < |es| && es[i] == e;
      assert values[i] in values;
    }
  }

  /** Only readable names are ever read from a block. */
  lemma TableReadable(base: seq<string>)
    ensures forall k :: k in TableOf(base) ==> ReadableKey(k)
  {
    hide ToUpper, Parse, Apply, ReadableKey, Entry.Readable;
    ParseReadable(base);
    AllReadableByKey(Parse(base));
    ApplyKeys(map[], Parse(base));
  }

  lemma KeysReadable(values: seq<RegistryValue>, ks: set<string>)
    requires KeySet(values) <= ks && forall k :: k in ks ==> ReadableKey(k)
    ensures ReadableNames(values)
  {
    hide ToUpper, ReadableKey;
    forall v | v in values
      ensures Entry(v.name, "").Readable()
    {
      assert v.Key() in KeySet(values);
      ReadableByKey(Entry(v.name, ""));
    }
  }

  /** The user's PATH as `composeEnv` puts it into the block. */
  function ComposedPath(s: Session): string {
    Merge([if PATH_KEY in s.below then s.below[PATH_KEY] else ""] + ValuesOf(s.user, PATH_KEY), PATH_LIST_SEPARATOR)
  }

  /** The lookup a session ends with, with the user's PATH as composed. */
  function MergedLookup(s: Session): Table {
    if ValuesOf(s.user, PATH_KEY) == [] then s.lookup else s.lookup[PATH_KEY := ComposedPath(s)]
  }

  lemma TablesMeet(base: seq<string>, machine: seq<RegistryValue>, user: seq<RegistryValue>)
    requires ReadableNames(machine) && ReadableNames(user)
    ensures TableOf(SessionBlock(base, machine, user)) == MergedLookup(SessionOf(base, machine, user))
  {
    hide ToUpper, LayerEntries, LayerTable, Apply, LastWrite, Find, ValuesOf, Compose, Slots, Unique, Parse, Merge,
         FirstBy, PicksFirsts, Keys, AllReadable, ReadableNames;
    var s := SessionOf(base, machine, user);
    var block := Slots(base, s.machine, s.user);
    var below := Parse(base) + s.machine;
    EntriesReadable(machine, TableOf(base));
    EntriesReadable(user, s.below);
    ReadBack(base, s.machine, s.user);
    SeedsAreRewritten(machine, TableOf(base));
    SeedsAreRewritten(user, s.below);
    ApplyConcat(map[], Parse(base), s.machine);
    var expected := MergedLookup(s);
    forall k
      ensures ValueAt(Apply(map[], block), k) == ValueAt(expected, k)
    {
      ComposeMeaning(base, s.machine, s.user, k);
      AppliedBlock(block, k);
      ApplyAt(map[], below, k);
      ApplyAt(s.below, s.user, k);
      LastWriteDecided(s.user, k, LastWrite(below, k, None), None);
    }
    TablesEqual(Apply(map[], block), expected);
  }

  /** The block a session gets, read back, is the very table its values were expanded against,
      except that it holds a PATH the user sets merged with the one below.  This takes, exactly,
      registry names that are not empty and hold no '='. */
  lemma TablesAgree(base: seq<string>, machine: seq<RegistryValue>, user: seq<RegistryValue>)
    ensures TableOf(SessionBlock(base, machine, user)) == MergedLookup(SessionOf(base, machine, user))
       <==> ReadableNames(machine) && ReadableNames(user)
  {
    hide ToUpper, LayerEntries, LayerTable, ValuesOf, Merge, TableOf, Compose, ReadableNames, ReadableKey, KeySet;
    var s := SessionOf(base, machine, user);
    var table := TableOf(SessionBlock(base, machine, user));
    if ReadableNames(machine) && ReadableNames(user) {
      TablesMeet(base, machine, user);
    }
    if table == MergedLookup(s) {
      LayerKeys(machine, TableOf(base));
      LayerKeys(user, s.below);
      TableReadable(SessionBlock(base, machine, user));
      assert s.lookup.Keys <= table.Keys;
      KeysReadable(machine, table.Keys);
      KeysReadable(user, table.Keys);
    }
  }

  /* ---------- PATH ---------- */

  /** Exactly one user value sets PATH; it is expandable and extends the PATH below. */
  ghost predicate ExtendsPath(user: seq<RegistryValue>, at: nat, name: string, x: string) {
    && at < |user|
    && (forall i :: 0 <= i < |user| ==> (user[i].Key() == PATH_KEY <==> i == at))
    && EqualFold(name, PATH_KEY)
    && user[at].expandable
    && user[at].value == "%" + name + "%;" + x
  }

  lemma ValuesOfOne(es: seq<Entry>, key: string, at: nat)
    requires at < |es| && forall i :: 0 <= i < |es| ==> (es[i].Key() == key <==> i == at)
    ensures ValuesOf(es, key) == [es[at].value]
  {
    hide ToUpper;
    if at == 0 {
      ValuesSilent(es[1..], key);
      assert forall i :: 0 <= i < |es| - 1 ==> es[1..][i] == es[i + 1];
    } else {
      assert forall i :: 0 <= i < |es| - 1 ==> es[1..][i] == es[i + 1];
      ValuesOfOne(es[1..], key, at - 1);
    }
  }

  /** The table a value of a layer is expanded against. */
  function TableBefore(values: seq<RegistryValue>, n: nat, t: Table): Table
    requires n <= |values|
    decreases n
  {
    if n == 0 then t
    else
      var t' := TableBefore(values, n - 1, t);
      t'[values[n - 1].Key() := values[n - 1].Expanded(t')]
  }

  lemma {:induction false} PassAt(values: seq<RegistryValue>, n: nat, t: Table)
    requires n <= |values|
    ensures Pass(values, t) == Pass(values[..n], t) + Pass(values[n..], TableBefore(values, n, t))
    decreases n
  {
    hide ToUpper, Expand, Pass;
    if n == 0 {
      assert values[..0] == [] && values[0..] == values;
      PassNothing(t);
    } else {
      PassAt(values, n - 1, t);
      var t' := TableBefore(values, n - 1, t);
      var v := values[n - 1];
      assert values[n - 1..] == [v] + values[n..];
      PassFront(v, values[n..], t');
      PassAt(values[..n], n - 1, t);
      assert values[..n][..n - 1] == values[..n - 1] && values[..n][n - 1..] == [v] + [];
      TableBeforePrefix(values, n, n - 1, t);
      PassFront(v, [], t');
      PassNothing(TableBefore(values, n, t));
      assert Pass(values[..n], t) == Pass(values[..n - 1], t) + [Entry(v.name, v.Expanded(t'))];
    }
  }

  lemma {:induction false} TableBeforePrefix(values: seq<RegistryValue>, m: nat, n: nat, t: Table)
    requires n <= m <= |values|
    ensures TableBefore(values[..m], n, t) == TableBefore(values, n, t)
    decreases n
  {
    hide ToUpper, Expand;
    if n > 0 {
      TableBeforePrefix(values, m, n - 1, t);
    }
  }

  lemma {:induction false} TableBeforeKeeps(values: seq<RegistryValue>, n: nat, t: Table, key: string)
    requires n <= |values| && forall i :: 0 <= i < n ==> values[i].Key() != key
    ensures ValueAt(TableBefore(values, n, t), key) == ValueAt(t, key)
    decreases n
  {
    hide ToUpper, Expand;
    if n > 0 {
      TableBeforeKeeps(values, n - 1, t, key);
    }
  }

  lemma EntryAt(values: seq<RegistryValue>, n: nat, t: Table)
    requires n < |values|
    ensures |Pass(values, t)| == |values|
    ensures Pass(values, t)[n] == Entry(values[n].name, values[n].Expanded(TableBefore(values, n, t)))
  {
    hide ToUpper, Expand, Pass;
    PassAt(values, n, t);
    PassNames(values, t);
    PassNames(values[..n], t);
    assert values[n..] == [values[n]] + values[n + 1..];
    PassFront(values[n], values[n + 1..], TableBefore(values, n, t));
  }

  lemma SeparatorFirst(x: string, t: Table)
    ensures Expand([PATH_LIST_SEPARATOR] + x, t) == [PATH_LIST_SEPARATOR] + Expand(x, t)
  {
    hide Expand;
    ExpandStep([PATH_LIST_SEPARATOR] + x, Literal(PATH_LIST_SEPARATOR), x, t);
  }

  lemma ThenSeparator(r: Token, x: string, t: Table)
    requires r.Reference? && r.Proper()
    ensures Expand(r.Source() + [PATH_LIST_SEPARATOR] + x, t) == r.Value(t) + [PATH_LIST_SEPARATOR] + Expand(x, t)
  {
    hide Expand, Token.Source, Token.Value, Token.Proper;
    var rest := [PATH_LIST_SEPARATOR] + x;
    SeparatorFirst(x, t);
    ExpandStep(r.Source() + rest, r, rest, t);
    assert r.Source() + [PATH_LIST_SEPARATOR] + x == r.Source() + rest;
  }

  /** `%NAME%;x` where NAME is known expands to its value, the separator and the expansion of x. */
  lemma SelfReferenceExpands(name: string, x: string, t: Table)
    requires EqualFold(name, PATH_KEY)
    ensures Expand("%" + name + "%" + [PATH_LIST_SEPARATOR] + x, t)
         == (if PATH_KEY in t then t[PATH_KEY] else "%" + name + "%") + [PATH_LIST_SEPARATOR] + Expand(x, t)
  {
    assert ToUpper(PATH_KEY) == PATH_KEY;
    NameOfPath(name);
    hide ToUpper, Expand;
    ThenSeparator(Reference(name), x, t);
  }

  lemma NameOfPath(name: string)
    requires EqualFold(name, PATH_KEY)
    ensures name != "" && '%' !in name
  {
    assert |ToUpper(name)| == |name| && |ToUpper(PATH_KEY)| == 4;
    ToUpperKeepsMark(name, '%');
    ToUpperKeepsMark(PATH_KEY, '%');
  }

  /** A user PATH that extends `%PATH%` does not repeat the PATH below it: the session's PATH, in
      the user's spelling, is that one (the machine's, else the inherited one), merged once with the
      user's own part.  Where no PATH lies below, the reference stays as it is. */
  lemma SelfReferenceCollapses(base: seq<string>, machine: seq<RegistryValue>, user: seq<RegistryValue>,
                               at: nat, name: string, x: string)
    requires ExtendsPath(user, at, name, x)
    ensures var s := SessionOf(base, machine, user);
            var own := Expand(x, TableBefore(user, at, Seed(user, s.below)));
            Find(Slots(base, s.machine, s.user), PATH_KEY) == Some(Entry(user[at].name,
              Merge([if PATH_KEY in s.below then s.below[PATH_KEY] else "%" + name + "%", own], PATH_LIST_SEPARATOR)))
  {
    hide ToUpper, Expand, Seed, Pass, Merge, LayerTable, TableOf, Compose, ValuesOf, Find, LastWrite, Slots, Parse;
    var s := SessionOf(base, machine, user);
    var t0 := Seed(user, s.below);
    var t := TableBefore(user, at, t0);
    var own := Expand(x, t);
    PassNames(user, t0);
    assert forall i :: 0 <= i < |user| ==> s.user[i].Key() == user[i].Key();
    ValuesOfOne(s.user, PATH_KEY, at);
    ComposedPathAt(base, machine, user, at);
    EntryAt(user, at, t0);
    assert NotSeeded(user, PATH_KEY);
    SeedElsewhere(user, s.below, PATH_KEY);
    TableBeforeKeeps(user, at, t0, PATH_KEY);
    assert ValueAt(t, PATH_KEY) == ValueAt(s.below, PATH_KEY);
    SelfReferenceExpands(name, x, t);
    assert "%" + name + "%;" + x == "%" + name + "%" + [PATH_LIST_SEPARATOR] + x;
    if PATH_KEY in s.below {
      var m := s.below[PATH_KEY];
      MergeLaws(m, own, "", PATH_LIST_SEPARATOR);
      assert [m] + [m + [PATH_LIST_SEPARATOR] + own] == [m, m + [PATH_LIST_SEPARATOR] + own];
    } else {
      var m := "%" + name + "%";
      var joined := m + [PATH_LIST_SEPARATOR] + own;
      MergePreJoined([""], m, own, [], PATH_LIST_SEPARATOR);
      assert [""] + [joined] + [] == [""] + [joined];
      EmptyFragment([m, own]);
      assert [""] + [m, own] + [] == [""] + [m, own];
    }
  }

  /** With readable names, that is also the PATH the finished block is read back with. */
  lemma SelfReferenceReadBack(base: seq<string>, machine: seq<RegistryValue>, user: seq<RegistryValue>,
                              at: nat, name: string, x: string)
    requires ExtendsPath(user, at, name, x) && ReadableNames(machine) && ReadableNames(user)
    ensures var s := SessionOf(base, machine, user);
            var own := Expand(x, TableBefore(user, at, Seed(user, s.below)));
            ValueAt(TableOf(SessionBlock(base, machine, user)), PATH_KEY) == Some(
              Merge([if PATH_KEY in s.below then s.below[PATH_KEY] else "%" + name + "%", own], PATH_LIST_SEPARATOR))
  {
    hide ToUpper, Expand, Seed, Pass, Merge, LayerTable, Find, Slots, Parse, ReadableNames, AllReadable, Apply, Unique;
    var s := SessionOf(base, machine, user);
    SelfReferenceCollapses(base, machine, user, at, name, x);
    EntriesReadable(machine, TableOf(base));
    EntriesReadable(user, s.below);
    ReadBack(base, s.machine, s.user);
    ComposeMeaning(base, s.machine, s.user, PATH_KEY);
    AppliedBlock(Slots(base, s.machine, s.user), PATH_KEY);
  }

  /** The PATH slot of a session whose user sets PATH, last in `user[at]`. */
  lemma ComposedPathAt(base: seq<string>, machine: seq<RegistryValue>, user: seq<RegistryValue>, at: nat)
    requires var es := SessionOf(base, machine, user).user;
             at < |es| && es[at].Key() == PATH_KEY && SilentFrom(es, PATH_KEY, at + 1)
    ensures var s := SessionOf(base, machine, user);
            Find(Slots(base, s.machine, s.user), PATH_KEY) == Some(Entry(s.user[at].name, ComposedPath(s)))
  {
    hide ToUpper, LayerEntries, LayerTable, Apply, LastWrite, Find, ValuesOf, Slots, Unique, Parse, Merge, FirstBy,
         PicksFirsts, Keys;
    var s := SessionOf(base, machine, user);
    var below := Parse(base) + s.machine;
    SeedsAreRewritten(machine, TableOf(base));
    ApplyConcat(map[], Parse(base), s.machine);
    ComposeMeaning(base, s.machine, s.user, PATH_KEY);
    ApplyAt(map[], below, PATH_KEY);
    LastWriteMeaning(s.user, at, LastWrite(below, PATH_KEY, None));
    LastWriteMeaning(s.user, at, None);
    LastWriteKept(s.user, PATH_KEY);
  }

  lemma EmptyFragment(fragments: seq<string>)
    ensures Merge([""] + fragments, PATH_LIST_SEPARATOR) == Merge(fragments, PATH_LIST_SEPARATOR)
  {
    hide FirstBy, Join, Gather, Entries;
    GatherConcat([""], fragments, PATH_LIST_SEPARATOR);
    GatherOne("", PATH_LIST_SEPARATOR);
    EntriesNothing(PATH_LIST_SEPARATOR);
    assert [] + Gather(fragments, PATH_LIST_SEPARATOR) == Gather(fragments, PATH_LIST_SEPARATOR);
  }
}
