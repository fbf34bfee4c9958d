/** What `composeEnv` means, key by key, and the laws that follow. */
module ComposeLaws {
  import opened Text
  import opened PathMerge
  import opened EnvBlock

  function Same(k: string): string { k }

  function Keys(block: seq<Entry>): seq<string> {
    seq(|block|, i requires 0 <= i < |block| => block[i].Key())
  }

  /* ---------- one Put, seen from every key ---------- */

  lemma {:induction false} PutFind(block: seq<Entry>, e: Entry, key: string)
    ensures Find(Put(block, e), key) == if key == e.Key() then Some(e) else Find(block, key)
  {
    hide ToUpper;
    if block != [] {
      PutFind(block[1..], e, key);
    }
  }

  lemma {:induction false} PutKeys(block: seq<Entry>, e: Entry)
    ensures Keys(Put(block, e)) == Keys(block) + if e.Key() in Keys(block) then [] else [e.Key()]
  {
    hide ToUpper;
    if block == [] {
    } else {
      assert Keys(block) == [block[0].Key()] + Keys(block[1..]);
      if block[0].Key() == e.Key() {
        assert Keys([e] + block[1..]) == Keys(block);
        assert Keys(block) + [] == Keys(block);
      } else {
        PutKeys(block[1..], e);
        assert Keys([block[0]] + Put(block[1..], e)) == [block[0].Key()] + Keys(Put(block[1..], e));
      }
    }
  }

  lemma UniqueKeys(block: seq<Entry>)
    ensures Unique(block) <==> forall i, j :: 0 <= i < j < |block| ==> Keys(block)[i] != Keys(block)[j]
  {
    hide ToUpper;
    var ks := Keys(block);
    assert forall i :: 0 <= i < |block| ==> ks[i] == block[i].Key();
  }

  lemma PutUnique(block: seq<Entry>, e: Entry)
    requires Unique(block)
    ensures Unique(Put(block, e))
  {
    hide ToUpper, Put, Keys, Unique;
    UniqueKeys(block);
    UniqueKeys(Put(block, e));
    PutKeys(block, e);
    KeysLength(block);
    KeysLength(Put(block, e));
  }

  lemma KeysLength(block: seq<Entry>)
    ensures |Keys(block)| == |block|
  {
  }

  lemma KeysConcat(a: seq<Entry>, b: seq<Entry>)
    ensures Keys(a + b) == Keys(a) + Keys(b)
  {
    hide ToUpper;
  }

  /* ---------- a layer, seen from one key ---------- */

  /** The last entry of `layer` under `key`, or what lies below when the layer has none. */
  function LastWrite(layer: seq<Entry>, key: string, below: Option<Entry>): Option<Entry> {
    if layer == [] then below
    else if layer[|layer| - 1].Key() == key then Some(layer[|layer| - 1])
    else LastWrite(layer[..|layer| - 1], key, below)
  }

  /** No entry of `layer` from index `i` on is under `key`. */
  predicate SilentFrom(layer: seq<Entry>, key: string, i: nat) {
    forall j :: i <= j < |layer| ==> layer[j].Key() != key
  }

  lemma {:induction false} LastWriteSilent(layer: seq<Entry>, key: string, below: Option<Entry>)
    requires SilentFrom(layer, key, 0)
    ensures LastWrite(layer, key, below) == below
  {
    hide ToUpper;
    if layer != [] {
      LastWriteSilent(layer[..|layer| - 1], key, below);
    }
  }

  lemma {:induction false} LastWriteMeaning(layer: seq<Entry>, i: nat, below: Option<Entry>)
    requires i < |layer| && SilentFrom(layer, layer[i].Key(), i + 1)
    ensures LastWrite(layer, layer[i].Key(), below) == Some(layer[i])
  {
    hide ToUpper;
    if i < |layer| - 1 {
      var front := layer[..|layer| - 1];
      assert forall j :: 0 <= j < |front| ==> front[j] == layer[j];
      LastWriteMeaning(front, i, below);
    }
  }

  lemma {:induction false} LastWriteConcat(a: seq<Entry>, b: seq<Entry>, key: string, below: Option<Entry>)
    ensures LastWrite(a + b, key, below) == LastWrite(b, key, LastWrite(a, key, below))
  {
    hide ToUpper;
    if b == [] {
      assert a + b == a;
    } else {
      assert (a + b)[..|a + b| - 1] == a + b[..|b| - 1];
      LastWriteConcat(a, b[..|b| - 1], key, below);
    }
  }

  /** The values a layer gives to `key`, in order. */
  function ValuesOf(layer: seq<Entry>, key: string): seq<string> {
    if layer == [] then []
    else (if layer[0].Key() == key then [layer[0].value] else []) + ValuesOf(layer[1..], key)
  }

  lemma {:induction false} FindOverlay(block: seq<Entry>, layer: seq<Entry>, key: string)
    ensures Find(Overlay(block, layer), key) == LastWrite(layer, key, Find(block, key))
    decreases |layer|
  {
    hide ToUpper, Find, Put;
    if layer != [] {
      FindOverlay(Put(block, layer[0]), layer[1..], key);
      PutFind(block, layer[0], key);
      LastWriteConcat([layer[0]], layer[1..], key, Find(block, key));
      assert [layer[0]] + layer[1..] == layer;
    }
  }

  function Inherited(below: Option<Entry>): string {
    match below case Some(e) => e.value case None => ""
  }

  /** What a user layer leaves under one key: PATH is one merge of everything, other names are
      overridden by the last write. */
  function UserWrite(layer: seq<Entry>, key: string, below: Option<Entry>): Option<Entry> {
    var last := LastWrite(layer, key, below);
    var values := ValuesOf(layer, key);
    if key == PATH_KEY && values != [] && last.Some? then
      Some(Entry(last.value.name, Merge([Inherited(below)] + values, PATH_LIST_SEPARATOR)))
    else last
  }

  lemma LastWriteFront(x: Entry, rest: seq<Entry>, key: string, below: Option<Entry>)
    ensures LastWrite([x] + rest, key, below) == LastWrite(rest, key, if x.Key() == key then Some(x) else below)
  {
    hide ToUpper;
    LastWriteConcat([x], rest, key, below);
  }

  lemma LastWriteNothing(key: string, below: Option<Entry>)
    ensures LastWrite([], key, below) == below
  {
  }

  lemma {:induction false} LastWriteDecided(layer: seq<Entry>, key: string, x: Option<Entry>, y: Option<Entry>)
    ensures ValuesOf(layer, key) == [] ==> LastWrite(layer, key, x) == x && LastWrite(layer, key, y) == y
    ensures ValuesOf(layer, key) != [] ==>
              LastWrite(layer, key, x) == LastWrite(layer, key, y) && LastWrite(layer, key, x).Some?
  {
    hide ToUpper, LastWrite;
    if layer == [] {
      LastWriteNothing(key, x);
      LastWriteNothing(key, y);
    } else {
      assert layer == [layer[0]] + layer[1..];
      LastWriteFront(layer[0], layer[1..], key, x);
      LastWriteFront(layer[0], layer[1..], key, y);
      if layer[0].Key() == key {
        LastWriteDecided(layer[1..], key, Some(layer[0]), Some(layer[0]));
      } else {
        LastWriteDecided(layer[1..], key, x, y);
      }
    }
  }

  /** The first user value under PATH is merged into what lies below. */
  lemma UserWriteFront(x: Entry, x': Entry, rest: seq<Entry>, key: string, below: Option<Entry>)
    requires x.Key() == key && x'.name == x.name
    requires x'.value == if key == PATH_KEY then Merge([Inherited(below), x.value], PATH_LIST_SEPARATOR) else x.value
    ensures UserWrite([x] + rest, key, below) == UserWrite(rest, key, Some(x'))
  {
    hide ToUpper, LastWrite, Merge;
    var values := ValuesOf(rest, key);
    assert ([x] + rest)[1..] == rest;
    assert ValuesOf([x] + rest, key) == [x.value] + values;
    LastWriteFront(x, rest, key, below);
    LastWriteDecided(rest, key, Some(x), Some(x'));
    MergeNested([], [Inherited(below), x.value], values, PATH_LIST_SEPARATOR);
    assert [] + [Inherited(below), x.value] + values == [Inherited(below)] + ([x.value] + values);
    var m := Merge([Inherited(below), x.value], PATH_LIST_SEPARATOR);
    assert [] + [m] + values == [m] + values;
    assert values == [] ==> [x.value] + values == [x.value];
    assert values == [] ==> [Inherited(below)] + [x.value] == [Inherited(below), x.value];
  }

  lemma UserWriteSkip(x: Entry, rest: seq<Entry>, key: string, below: Option<Entry>)
    requires x.Key() != key
    ensures UserWrite([x] + rest, key, below) == UserWrite(rest, key, below)
  {
    hide ToUpper, LastWrite, Merge;
    assert ([x] + rest)[1..] == rest;
    assert [] + ValuesOf(rest, key) == ValuesOf(rest, key);
    LastWriteFront(x, rest, key, below);
  }

  lemma {:induction false} FindOverlayUser(block: seq<Entry>, layer: seq<Entry>, key: string)
    ensures Find(OverlayUser(block, layer), key) == UserWrite(layer, key, Find(block, key))
    decreases |layer|
  {
    hide ToUpper, Find, Put, LastWrite, Merge, UserWrite;
    var below := Find(block, key);
    if layer == [] {
      UserWriteNothing(key, below);
    } else {
      var x, rest := layer[0], layer[1..];
      var x' := Extended(block, x);
      assert [x] + rest == layer;
      FindOverlayUser(Put(block, x'), rest, key);
      PutFind(block, x', key);
      if x.Key() == key {
        UserWriteFront(x, x', rest, key, below);
      } else {
        UserWriteSkip(x, rest, key, below);
      }
    }
  }

  lemma UserWriteNothing(key: string, below: Option<Entry>)
    ensures UserWrite([], key, below) == below
  {
  }

  /* ---------- the order of names ---------- */

  lemma {:induction false} KeysOverlay(block: seq<Entry>, layer: seq<Entry>)
    ensures Keys(Overlay(block, layer)) == Keys(block) + FirstBy(Keys(layer), Same, KeysBy(Keys(block), Same))
    decreases |layer|
  {
    hide ToUpper, Put, Keys;
    if layer == [] {
      KeysLength(layer);
    } else {
      KeysOverlay(Put(block, layer[0]), layer[1..]);
      KeysPutFirst(block, layer[0], layer[0], layer[1..]);
      assert [layer[0]] + layer[1..] == layer;
    }
  }

  lemma {:induction false} KeysOverlayUser(block: seq<Entry>, layer: seq<Entry>)
    ensures Keys(OverlayUser(block, layer)) == Keys(block) + FirstBy(Keys(layer), Same, KeysBy(Keys(block), Same))
    decreases |layer|
  {
    hide ToUpper, Put, Keys, Merge, ValueIn;
    if layer == [] {
      KeysLength(layer);
    } else {
      var x := Extended(block, layer[0]);
      KeysOverlayUser(Put(block, x), layer[1..]);
      KeysPutFirst(block, x, layer[0], layer[1..]);
      assert [layer[0]] + layer[1..] == layer;
    }
  }

  lemma KeysPutFirst(block: seq<Entry>, x: Entry, y: Entry, rest: seq<Entry>)
    requires x.Key() == y.Key()
    ensures Keys(Put(block, x)) + FirstBy(Keys(rest), Same, KeysBy(Keys(Put(block, x)), Same))
         == Keys(block) + FirstBy(Keys([y] + rest), Same, KeysBy(Keys(block), Same))
  {
    hide ToUpper, Put;
    var ks := Keys(block);
    var k := x.Key();
    PutKeys(block, x);
    assert Keys([y] + rest) == [k] + Keys(rest);
    assert ([k] + Keys(rest))[1..] == Keys(rest);
    assert k in ks <==> k in KeysBy(ks, Same) by { InKeysBy(ks, k); }
    KeysByConcat(ks, [k], Same);
    assert KeysBy([k], Same) == {k} by {
      forall j {
        InKeysBy([k], j);
      }
    }
    if k in ks {
      assert ks + [] == ks;
    }
  }

  lemma InKeysBy(ks: seq<string>, k: string)
    ensures k in KeysBy(ks, Same) <==> k in ks
  {
    if k in ks {
      var i :| 0 <= i < |ks| && ks[i] == k;
      assert Same(ks[i]) == k;
    }
  }

  lemma {:induction false} OverlayUniquePlain(block: seq<Entry>, layer: seq<Entry>)
    requires Unique(block)
    ensures Unique(Overlay(block, layer))
    decreases |layer|
  {
    hide ToUpper, Put, Unique;
    if layer != [] {
      PutUnique(block, layer[0]);
      OverlayUniquePlain(Put(block, layer[0]), layer[1..]);
    }
  }

  lemma {:induction false} OverlayUniqueUser(block: seq<Entry>, layer: seq<Entry>)
    requires Unique(block)
    ensures Unique(OverlayUser(block, layer))
    decreases |layer|
  {
    hide ToUpper, Put, Unique, Extended;
    if layer != [] {
      PutUnique(block, Extended(block, layer[0]));
      OverlayUniqueUser(Put(block, Extended(block, layer[0])), layer[1..]);
    }
  }

  /* ---------- the layered override ---------- */

  lemma SlotsUnique(base: seq<string>, machine: seq<Entry>, user: seq<Entry>)
    ensures Unique(Slots(base, machine, user))
  {
    hide Unique, Overlay, OverlayUser, Parse;
    assert Unique([]) by { UniqueNothing(); }
    OverlayUniquePlain([], Parse(base));
    OverlayUniquePlain(Overlay([], Parse(base)), machine);
    OverlayUniqueUser(Overlay(Overlay([], Parse(base)), machine), user);
  }

  lemma UniqueNothing()
    ensures Unique([])
  {
  }

  /** `composeEnv` is a layered override.  Every name appears once; the order is that of first
      mention across base, machine and user; under each name stand the spelling and the value of
      the last write, except that a PATH the user sets is one merge of the PATH below (machine's,
      else inherited, else empty) and all the user's values, spelled as the user last did. */
  lemma ComposeMeaning(base: seq<string>, machine: seq<Entry>, user: seq<Entry>, key: string)
    ensures var block := Slots(base, machine, user);
            var below := Parse(base) + machine;
            var writes := below + user;
            && Unique(block)
            && Keys(block) == FirstBy(Keys(writes), Same, {})
            && PicksFirsts(Keys(writes), Same, {}, Keys(block), FirstIndices(Keys(writes), Same, {}))
            && Find(block, key) == UserWrite(user, key, LastWrite(below, key, None))
            && (key != PATH_KEY || ValuesOf(user, key) == [] ==> Find(block, key) == LastWrite(writes, key, None))
  {
    hide ToUpper, Keys, Overlay, OverlayUser, Find, LastWrite, Unique, FirstBy, PicksFirsts, FirstIndices,
         ValuesOf, Parse;
    var b := Parse(base);
    SlotsUnique(base, machine, user);
    var inherited := Overlay([], b);
    var system := Overlay(inherited, machine);
    OverlayConcat([], b, machine);
    FindNothing(key);
    FindOverlay([], b + machine, key);
    FindOverlayUser(system, user, key);
    LastWriteConcat(b + machine, user, key, None);
    LastWriteDecided(user, key, LastWrite(b + machine, key, None), None);
    KeysOverlay([], b + machine);
    KeysOverlayUser(system, user);
    KeysConcat(b + machine, user);
    var ks, us := Keys(b + machine), Keys(user);
    KeysNothing();
    assert KeysBy(Keys([]), Same) == {};
    FirstByConcat(ks, us, Same, {});
    FirstByKeys(ks, Same, {});
    assert {} + KeysBy(ks, Same) == KeysBy(ks, Same) - {};
    assert Keys([]) + FirstBy(ks, Same, {}) == FirstBy(ks, Same, {});
    FirstByPicksFirsts(Keys(b + machine + user), Same, {});
  }

  lemma FindNothing(key: string)
    ensures Find([], key) == None
  {
  }

  lemma KeysNothing()
    ensures Keys([]) == []
  {
  }

  /* ---------- rebuilding changes nothing ---------- */

  /** Blocks with unique names are determined by their order and what stands under each name. */
  lemma BlockExtensional(a: seq<Entry>, b: seq<Entry>)
    requires Unique(a) && Unique(b) && Keys(a) == Keys(b)
    requires forall k :: k in Keys(a) ==> Find(a, k) == Find(b, k)
    ensures a == b
  {
    hide ToUpper, Find, Unique;
    KeysLength(a);
    KeysLength(b);
    forall i | 0 <= i < |a|
      ensures a[i] == b[i]
    {
      assert Keys(a)[i] == a[i].Key() && Keys(b)[i] == b[i].Key();
      FindAt(a, i);
      FindAt(b, i);
    }
  }

  lemma {:induction false} OverlayOfUnique(done: seq<Entry>, rest: seq<Entry>)
    requires Unique(done + rest)
    ensures Overlay(done, rest) == done + rest
    decreases |rest|
  {
    hide ToUpper, Put;
    if rest == [] {
      assert done + rest == done;
    } else {
      var all := done + rest;
      assert forall i :: 0 <= i < |done| ==> all[i] == done[i];
      assert all[|done|] == rest[0];
      PutNew(done, rest[0]);
      assert done + [rest[0]] + rest[1..] == all;
      OverlayOfUnique(done + [rest[0]], rest[1..]);
    }
  }

  lemma KeyIn(es: seq<Entry>, e: Entry)
    requires e in es
    ensures e.Key() in Keys(es)
  {
    hide ToUpper;
    var i :| 0 <= i < |es| && es[i] == e;
    assert Keys(es)[i] == e.Key();
  }

  lemma KeyOf(es: seq<Entry>, key: string) returns (e: Entry)
    requires key in Keys(es)
    ensures e in es && e.Key() == key
  {
    hide ToUpper;
    var i :| 0 <= i < |es| && Keys(es)[i] == key;
    e := es[i];
  }

  /** A composed block has exactly the names of its layers. */
  lemma SlotNames(base: seq<string>, machine: seq<Entry>, user: seq<Entry>, key: string)
    ensures key in Keys(Slots(base, machine, user)) <==> key in Keys(Parse(base) + machine + user)
  {
    hide ToUpper, Keys, Find, LastWrite, Unique, FirstBy, PicksFirsts, FirstIndices, ValuesOf, Parse, UserWrite;
    var writes := Keys(Parse(base) + machine + user);
    ComposeMeaning(base, machine, user, key);
    FirstByKeys(writes, Same, {});
    InKeysBy(writes, key);
    InKeysBy(Keys(Slots(base, machine, user)), key);
  }

  /** What holds of every inherited name, and depends on the folded name alone, holds of all names
      of a composed block exactly when it holds of all names of both layers. */
  lemma SlotsAll(base: seq<string>, machine: seq<Entry>, user: seq<Entry>, p: string -> bool)
    requires forall e :: e in Parse(base) ==> p(e.Key())
    ensures (forall e :: e in Slots(base, machine, user) ==> p(e.Key()))
       <==> (forall e :: e in machine + user ==> p(e.Key()))
  {
    hide ToUpper, Keys, Slots, Parse;
    var block, writes := Slots(base, machine, user), Parse(base) + machine + user;
    if forall e :: e in machine + user ==> p(e.Key()) {
      forall e | e in block
        ensures p(e.Key())
      {
        KeyIn(block, e);
        SlotNames(base, machine, user, e.Key());
        var w := KeyOf(writes, e.Key());
        assert w in Parse(base) || w in machine + user;
      }
    }
    if forall e :: e in block ==> p(e.Key()) {
      forall w | w in machine + user
        ensures p(w.Key())
      {
        assert w in writes;
        KeyIn(writes, w);
        SlotNames(base, machine, user, w.Key());
        var e := KeyOf(block, w.Key());
      }
    }
  }

  lemma ReadableByKey(e: Entry)
    ensures e.Readable() <==> ReadableKey(e.Key())
  {
    ToUpperKeepsMark(e.name, '=');
    assert |ToUpper(e.name)| == |e.name|;
  }

  lemma AllReadableByKey(es: seq<Entry>)
    ensures AllReadable(es) <==> forall e :: e in es ==> ReadableKey(e.Key())
  {
    hide ToUpper, ReadableKey, Entry.Readable;
    forall e | e in es {
      ReadableByKey(e);
    }
  }

  lemma SlotsReadable(base: seq<string>, machine: seq<Entry>, user: seq<Entry>)
    ensures AllReadable(Slots(base, machine, user)) <==> AllReadable(machine) && AllReadable(user)
  {
    hide Parse, Slots, ReadableKey, ToUpper, Entry.Readable;
    ParseReadable(base);
    AllReadableByKey(Parse(base));
    AllReadableByKey(Slots(base, machine, user));
    AllReadableByKey(machine + user);
    SlotsAll(base, machine, user, k => ReadableKey(k));
  }

  /** The entries a composed block is read back as are the ones it was rendered from, exactly when
      every name set by a layer can be read back at all. */
  lemma ReadBack(base: seq<string>, machine: seq<Entry>, user: seq<Entry>)
    ensures Parse(Compose(base, machine, user)) == Slots(base, machine, user)
       <==> AllReadable(machine) && AllReadable(user)
  {
    hide Parse, Slots, AllReadable, Render;
    SlotsReadable(base, machine, user);
    ParseReadable(Compose(base, machine, user));
    if AllReadable(machine) && AllReadable(user) {
      ParseRender(Slots(base, machine, user));
    }
  }

  /** A second pass over a merged PATH with the same user values adds nothing. */
  lemma UserWriteTwice(machine: seq<Entry>, user: seq<Entry>, key: string, below: Option<Entry>)
    ensures var once := UserWrite(user, key, LastWrite(machine, key, below));
            UserWrite(user, key, LastWrite(machine, key, once)) == once
  {
    hide ToUpper, LastWrite, Merge, ValuesOf;
    var first := LastWrite(machine, key, below);
    var once := UserWrite(user, key, first);
    LastWriteDecided(machine, key, below, once);
    LastWriteDecided(user, key, first, LastWrite(machine, key, once));
    MergeAgain(Inherited(below), ValuesOf(user, key));
  }

  lemma MergeAgain(a: string, values: seq<string>)
    ensures Merge([Merge([a] + values, PATH_LIST_SEPARATOR)] + values, PATH_LIST_SEPARATOR)
         == Merge([a] + values, PATH_LIST_SEPARATOR)
  {
    hide Merge, Gather;
    var m := Merge([a] + values, PATH_LIST_SEPARATOR);
    MergeNested([], [a] + values, values, PATH_LIST_SEPARATOR);
    assert [] + [m] + values == [m] + values;
    assert [] + ([a] + values) + values == [a] + values + values;
    MergeAbsorbs([a] + values, values, PATH_LIST_SEPARATOR);
    GatherConcat([a], values, PATH_LIST_SEPARATOR);
    KeysByConcat(Gather([a], PATH_LIST_SEPARATOR), Gather(values, PATH_LIST_SEPARATOR), ToLower);
  }

  lemma FindIsLastWrite(block: seq<Entry>, key: string)
    requires Unique(block)
    ensures LastWrite(block, key, None) == Find(block, key)
  {
    hide ToUpper, Overlay, Find, LastWrite;
    OverlayOfUnique([], block);
    assert [] + block == block;
    FindOverlay([], block, key);
    FindNothing(key);
  }
}
