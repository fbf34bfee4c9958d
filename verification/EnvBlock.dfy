/** Environment blocks: `composeEnv` overlays three layers, `replaceEnv` edits a finished block. */
module EnvBlock {
  import opened Text
  import opened PathMerge

  /** What PATH entries are joined with where blocks are composed (Windows). */
  const PATH_LIST_SEPARATOR := ';'

  const PATH_KEY := "PATH"

  /** One variable to set, with the spelling its layer uses. */
  datatype Entry = Entry(name: string, value: string) {
    function Key(): string { ToUpper(name) }

    function Line(): string { name + "=" + value }

    /** A name that can be read back from a rendered line. */
    predicate Readable() { name != "" && '=' !in name }
  }

  predicate ReadableKey(key: string) {
    key != "" && '=' !in key
  }

  predicate AllReadable(entries: seq<Entry>) {
    forall e :: e in entries ==> e.Readable()
  }

  /* ---------- lines and entries ---------- */

  function Render(entries: seq<Entry>): seq<string> {
    seq(|entries|, i requires 0 <= i < |entries| => entries[i].Line())
  }

  /** The entry of one line; lines without a name, or without '=', carry none. */
  function ParseLine(kv: string): Option<Entry> {
    var i := IndexByte(kv, '=');
    if i > 0 then Some(Entry(kv[..i], kv[i + 1..])) else None
  }

  function Parse(base: seq<string>): seq<Entry> {
    if base == [] then []
    else (match ParseLine(base[0]) case Some(e) => [e] case None => []) + Parse(base[1..])
  }

  lemma {:induction false} ParseConcat(a: seq<string>, b: seq<string>)
    ensures Parse(a + b) == Parse(a) + Parse(b)
  {
    hide ParseLine;
    if a == [] {
      assert a + b == b;
    } else {
      assert (a + b)[1..] == a[1..] + b;
      ParseConcat(a[1..], b);
    }
  }

  lemma {:induction false} ParseReadable(base: seq<string>)
    ensures AllReadable(Parse(base))
  {
    if base != [] {
      ParseReadable(base[1..]);
    }
  }

  /** Reading a line finds exactly the readable entry that renders to it. */
  lemma ParseLineIs(kv: string, e: Entry)
    ensures ParseLine(kv) == Some(e) <==> e.Readable() && kv == e.Line()
  {
    var i := IndexByte(kv, '=');
    if e.Readable() && kv == e.Line() {
      ParseOfLine(e);
    }
    if ParseLine(kv) == Some(e) {
      assert kv == kv[..i] + "=" + kv[i + 1..];
    }
  }

  lemma ParseOfLine(e: Entry)
    requires e.Readable()
    ensures ParseLine(e.Line()) == Some(e)
  {
    var kv := e.Line();
    assert kv[..|e.name|] == e.name && kv[|e.name| + 1..] == e.value;
    IndexByteIs(kv, '=', |e.name|);
  }

  /** Rendering is undone by parsing. */
  lemma {:induction false} ParseRender(entries: seq<Entry>)
    requires AllReadable(entries)
    ensures Parse(Render(entries)) == entries
  {
    if entries != [] {
      assert entries[0].Readable();
      ParseOfLine(entries[0]);
      assert Render(entries)[1..] == Render(entries[1..]);
      ParseRender(entries[1..]);
    }
  }

  /* ---------- tables ---------- */

  /** The table after setting every entry in turn. */
  function Apply(table: map<string, string>, entries: seq<Entry>): map<string, string>
    decreases |entries|
  {
    if entries == [] then table else Apply(table[entries[0].Key() := entries[0].value], entries[1..])
  }

  lemma {:induction false} ApplyConcat(t: map<string, string>, a: seq<Entry>, b: seq<Entry>)
    ensures Apply(t, a + b) == Apply(Apply(t, a), b)
    decreases |a|
  {
    if a == [] {
      assert a + b == b;
    } else {
      assert (a + b)[1..] == a[1..] + b;
      ApplyConcat(t[a[0].Key() := a[0].value], a[1..], b);
    }
  }

  lemma ApplyFront(t: map<string, string>, e: Entry, rest: seq<Entry>)
    ensures Apply(t, [e] + rest) == Apply(t[e.Key() := e.value], rest)
  {
    hide ToUpper;
    assert ([e] + rest)[1..] == rest;
  }

  lemma ApplyNothing(t: map<string, string>)
    ensures Parse([]) == [] && Apply(t, []) == t
  {
  }

  /** The case-insensitive table a block stands for. */
  function TableOf(base: seq<string>): map<string, string> {
    Apply(map[], Parse(base))
  }

  /* ---------- overlaying ---------- */

  /** Sets a variable: a known name keeps its place and takes the new spelling and value. */
  function Put(block: seq<Entry>, e: Entry): seq<Entry> {
    if block == [] then [e]
    else if block[0].Key() == e.Key() then [e] + block[1..]
    else [block[0]] + Put(block[1..], e)
  }

  function Overlay(block: seq<Entry>, layer: seq<Entry>): seq<Entry>
    decreases |layer|
  {
    if layer == [] then block else Overlay(Put(block, layer[0]), layer[1..])
  }

  function Find(block: seq<Entry>, key: string): Option<Entry> {
    if block == [] then None
    else if block[0].Key() == key then Some(block[0])
    else Find(block[1..], key)
  }

  function ValueIn(block: seq<Entry>, key: string): string {
    match Find(block, key) case Some(e) => e.value case None => ""
  }

  /** A user's PATH extends the one below it; every other user variable replaces. */
  function Extended(block: seq<Entry>, e: Entry): Entry {
    if e.Key() == PATH_KEY
    then Entry(e.name, Merge([ValueIn(block, PATH_KEY), e.value], PATH_LIST_SEPARATOR))
    else e
  }

  function OverlayUser(block: seq<Entry>, layer: seq<Entry>): seq<Entry>
    decreases |layer|
  {
    if layer == [] then block else OverlayUser(Put(block, Extended(block, layer[0])), layer[1..])
  }

  function Slots(base: seq<string>, machine: seq<Entry>, user: seq<Entry>): seq<Entry> {
    OverlayUser(Overlay(Overlay([], Parse(base)), machine), user)
  }

  function Compose(base: seq<string>, machine: seq<Entry>, user: seq<Entry>): seq<string> {
    Render(Slots(base, machine, user))
  }

  /* ---------- the loops of composeEnv ---------- */

  /** The three tables of `composeEnv` describe one list of entries. */
  ghost predicate Represents(order: seq<string>, values: map<string, string>, spelling: map<string, string>,
                             block: seq<Entry>) {
    && Unique(block)
    && |order| == |block|
    && (forall i :: 0 <= i < |order| ==>
          && order[i] == block[i].Key()
          && order[i] in values && values[order[i]] == block[i].value
          && order[i] in spelling && spelling[order[i]] == block[i].name)
    && (forall k :: k in values ==> k in order)
  }

  ghost predicate Unique(block: seq<Entry>) {
    forall i, j :: 0 <= i < j < |block| ==> block[i].Key() != block[j].Key()
  }

  lemma {:induction false} PutAt(block: seq<Entry>, e: Entry, i: nat)
    requires Unique(block) && i < |block| && block[i].Key() == e.Key()
    ensures Put(block, e) == block[i := e]
  {
    if i > 0 {
      assert block[0].Key() != block[i].Key();
      PutAt(block[1..], e, i - 1);
    }
  }

  lemma {:induction false} PutNew(block: seq<Entry>, e: Entry)
    requires forall i :: 0 <= i < |block| ==> block[i].Key() != e.Key()
    ensures Put(block, e) == block + [e]
  {
    if block != [] {
      PutNew(block[1..], e);
    }
  }

  lemma {:induction false} FindAt(block: seq<Entry>, i: nat)
    requires Unique(block) && i < |block|
    ensures Find(block, block[i].Key()) == Some(block[i])
  {
    if i > 0 {
      FindAt(block[1..], i - 1);
    }
  }

  lemma {:induction false} FindNone(block: seq<Entry>, key: string)
    ensures Find(block, key).None? <==> forall i :: 0 <= i < |block| ==> block[i].Key() != key
    ensures Find(block, key).Some? ==> Find(block, key).value.Key() == key
  {
    if block != [] {
      FindNone(block[1..], key);
    }
  }

  lemma RepresentsFind(order: seq<string>, values: map<string, string>, spelling: map<string, string>,
                       block: seq<Entry>, key: string)
    requires Represents(order, values, spelling, block)
    ensures ValueIn(block, key) == if key in values then values[key] else ""
  {
    FindNone(block, key);
    if key in values {
      var i :| 0 <= i < |order| && order[i] == key;
      FindAt(block, i);
    } else {
      assert forall i :: 0 <= i < |block| ==> order[i] == block[i].Key();
    }
  }

  /** The closure `add`: one variable is set in all three tables. */
  method Add(order: seq<string>, values: map<string, string>, spelling: map<string, string>,
             name: string, value: string, ghost block: seq<Entry>)
    returns (order': seq<string>, values': map<string, string>, spelling': map<string, string>)
    requires Represents(order, values, spelling, block)
    ensures Represents(order', values', spelling', Put(block, Entry(name, value)))
  {
    hide Represents, Put;
    var key := ToUpper(name);
    order' := order;
    RepresentsPut(order, values, spelling, Entry(name, value), block);
    if key !in values {
      order' := order' + [key];
    }
    values' := values[key := value];
    spelling' := spelling[key := name];
  }

  lemma RepresentsPut(order: seq<string>, values: map<string, string>, spelling: map<string, string>,
                      e: Entry, block: seq<Entry>)
    requires Represents(order, values, spelling, block)
    ensures var key := e.Key();
            Represents(if key in values then order else order + [key],
                       values[key := e.value], spelling[key := e.name], Put(block, e))
  {
    hide Put, ToUpper;
    var key := e.Key();
    assert forall i :: 0 <= i < |block| ==> order[i] == block[i].Key();
    if key in values {
      var i :| 0 <= i < |order| && order[i] == key;
      PutAt(block, e, i);
      assert forall j :: 0 <= j < |block| && j != i ==> block[j].Key() != key;
    } else {
      PutNew(block, e);
    }
  }

  lemma OverlayStep(block: seq<Entry>, layer: seq<Entry>, i: nat)
    requires i < |layer|
    ensures Overlay(block, layer[..i + 1]) == Put(Overlay(block, layer[..i]), layer[i])
  {
    assert layer[..i + 1] == layer[..i] + [layer[i]];
    OverlayConcat(block, layer[..i], [layer[i]]);
    assert [layer[i]][1..] == [];
  }

  lemma {:induction false} OverlayConcat(block: seq<Entry>, a: seq<Entry>, b: seq<Entry>)
    ensures Overlay(block, a + b) == Overlay(Overlay(block, a), b)
    decreases |a|
  {
    if a == [] {
      assert a + b == b;
    } else {
      assert (a + b)[1..] == a[1..] + b;
      OverlayConcat(Put(block, a[0]), a[1..], b);
    }
  }

  lemma {:induction false} OverlayUserConcat(block: seq<Entry>, a: seq<Entry>, b: seq<Entry>)
    ensures OverlayUser(block, a + b) == OverlayUser(OverlayUser(block, a), b)
    decreases |a|
  {
    hide Extended, Put;
    if a == [] {
      assert a + b == b;
    } else {
      assert (a + b)[1..] == a[1..] + b;
      OverlayUserConcat(Put(block, Extended(block, a[0])), a[1..], b);
    }
  }

  lemma OverlayUserStep(block: seq<Entry>, layer: seq<Entry>, i: nat)
    requires i < |layer|
    ensures var sofar := OverlayUser(block, layer[..i]);
            OverlayUser(block, layer[..i + 1]) == Put(sofar, Extended(sofar, layer[i]))
  {
    hide Extended, Put;
    assert layer[..i + 1] == layer[..i] + [layer[i]];
    OverlayUserConcat(block, layer[..i], [layer[i]]);
    assert [layer[i]][1..] == [];
  }

  lemma ParseStep(base: seq<string>, i: nat)
    requires i < |base|
    ensures Parse(base[..i + 1]) ==
            Parse(base[..i]) + match ParseLine(base[i]) case Some(e) => [e] case None => []
  {
    hide ParseLine;
    assert base[..i + 1] == base[..i] + [base[i]];
    ParseConcat(base[..i], [base[i]]);
    assert [base[i]][1..] == [];
  }

  lemma OverlayParsedStep(base: seq<string>, n: nat)
    requires n < |base|
    ensures Overlay([], Parse(base[..n + 1])) ==
            match ParseLine(base[n])
            case Some(e) => Put(Overlay([], Parse(base[..n])), e)
            case None => Overlay([], Parse(base[..n]))
  {
    hide ParseLine, Put;
    var parsed := Parse(base[..n]);
    ParseStep(base, n);
    match ParseLine(base[n]) {
      case Some(e) =>
        OverlayConcat([], parsed, [e]);
        assert [e][1..] == [];
      case None =>
        assert parsed + [] == parsed;
    }
  }

  lemma NothingOverlaid(block: seq<Entry>)
    ensures Parse([]) == [] && Overlay(block, []) == block && OverlayUser(block, []) == block
  {
  }

  /** No two names differ in case only. */
  predicate NamesApart(block: seq<Entry>) {
    forall i, j :: 0 <= i < j < |block| ==> !SameButCase(block[i].name, block[j].name)
  }

  lemma UniqueApart(block: seq<Entry>)
    ensures Unique(block) <==> NamesApart(block)
  {
    hide ToUpper, SameButCase;
    forall i, j | 0 <= i < j < |block|
      ensures block[i].Key() == block[j].Key() <==> SameButCase(block[i].name, block[j].name)
    {
      FoldingIsCase(block[i].name, block[j].name);
    }
  }

  method ComposeEnv(base: seq<string>, machine: seq<Entry>, user: seq<Entry>) returns (out: seq<string>)
    ensures out == Compose(base, machine, user)
    ensures NamesApart(Slots(base, machine, user))
  {
    hide Put, Extended, Represents, Overlay, OverlayUser, Parse, ToUpper, Merge, ValueIn, Render, NamesApart;
    var order: seq<string>, values: map<string, string>, spelling: map<string, string> := [], map[], map[];
    RepresentsNothing();
    NothingOverlaid([]);
    assert base[..0] == [];
    for n := 0 to |base|
      invariant Represents(order, values, spelling, Overlay([], Parse(base[..n])))
    {
      var kv := base[n];
      var i := IndexByte(kv, '=');
      ghost var block := Overlay([], Parse(base[..n]));
      OverlayParsedStep(base, n);
      if i > 0 {
        order, values, spelling := Add(order, values, spelling, kv[..i], kv[i + 1..], block);
      }
    }
    assert base[..|base|] == base;
    ghost var inherited := Overlay([], Parse(base));
    NothingOverlaid(inherited);
    assert machine[..0] == [];
    for n := 0 to |machine|
      invariant Represents(order, values, spelling, Overlay(inherited, machine[..n]))
    {
      OverlayStep(inherited, machine, n);
      order, values, spelling := Add(order, values, spelling, machine[n].name, machine[n].value,
                                     Overlay(inherited, machine[..n]));
    }
    assert machine[..|machine|] == machine;
    ghost var system := Overlay(inherited, machine);
    NothingOverlaid(system);
    assert user[..0] == [];
    for n := 0 to |user|
      invariant Represents(order, values, spelling, OverlayUser(system, user[..n]))
    {
      ghost var block := OverlayUser(system, user[..n]);
      OverlayUserStep(system, user, n);
      var e := user[n];
      var key := ToUpper(e.name);
      var value := e.value;
      if key == PATH_KEY {
        RepresentsFind(order, values, spelling, block, key);
        var below := if key in values then values[key] else "";
        value := MergePath([below, e.value], PATH_LIST_SEPARATOR);
      }
      ExtendedIs(block, e, value);
      order, values, spelling := Add(order, values, spelling, e.name, value, block);
    }
    assert user[..|user|] == user;
    RepresentsUnique(order, values, spelling, Slots(base, machine, user));
    UniqueApart(Slots(base, machine, user));
    out := RenderTables(order, values, spelling, Slots(base, machine, user));
  }

  lemma RepresentsUnique(order: seq<string>, values: map<string, string>, spelling: map<string, string>,
                         block: seq<Entry>)
    requires Represents(order, values, spelling, block)
    ensures Unique(block)
  {
  }

  lemma RepresentsNothing()
    ensures Represents([], map[], map[], [])
  {
  }

  lemma ExtendedIs(block: seq<Entry>, e: Entry, value: string)
    requires value == if e.Key() == PATH_KEY
                      then Merge([ValueIn(block, PATH_KEY), e.value], PATH_LIST_SEPARATOR)
                      else e.value
    ensures Extended(block, e) == Entry(e.name, value)
  {
  }

  method RenderTables(order: seq<string>, values: map<string, string>, spelling: map<string, string>,
                      ghost block: seq<Entry>)
    returns (out: seq<string>)
    requires Represents(order, values, spelling, block)
    ensures out == Render(block)
  {
    out := [];
    for n := 0 to |order|
      invariant out == Render(block)[..n]
    {
      out := out + [spelling[order[n]] + "=" + values[order[n]]];
    }
  }
}
