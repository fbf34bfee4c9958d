/** Rebuilding a composed block on top of itself: exactly when that changes nothing. */
module Rebuild {
  import opened Text
  import opened PathMerge
  import opened EnvBlock
  import opened ComposeLaws

  /* ---------- reading a line back ---------- */

  /** The name a line "key=..." is read back under, when `key` itself holds a '='. */
  function Head(key: string): string {
    var i := IndexByte(key, '=');
    if i > 0 then key[..i] else ""
  }

  lemma HeadFolds(name: string)
    ensures IndexByte(ToUpper(name), '=') == IndexByte(name, '=')
    ensures ToUpper(Head(name)) == Head(ToUpper(name)) && |Head(ToUpper(name))| == |Head(name)|
    ensures Head(name) != "" ==> ReadableKey(Head(name))
  {
    var i, u := IndexByte(name, '='), ToUpper(name);
    ToUpperKeepsMark(name, '=');
    if i >= 0 {
      assert u[..i] == ToUpper(name[..i]);
      ToUpperKeepsMark(name[..i], '=');
      IndexByteIs(u, '=', i);
    }
  }

  lemma LineReadBack(e: Entry)
    ensures e.Readable() ==> ParseLine(e.Line()) == Some(e) && Head(e.name) == ""
    ensures !e.Readable() && Head(e.name) == "" ==> ParseLine(e.Line()) == None
    ensures Head(e.name) != "" ==>
              && ParseLine(e.Line()).Some?
              && ParseLine(e.Line()).value.name == Head(e.name)
              && |ParseLine(e.Line()).value.value| <= |e.name| + |e.value|
  {
    var i, kv := IndexByte(e.name, '='), e.Line();
    if e.Readable() {
      ParseOfLine(e);
    } else if i < 0 {
      IndexByteIs(kv, '=', 0);
    } else {
      assert kv[..i] == e.name[..i];
      IndexByteIs(kv, '=', i);
    }
  }

  function ReadAs(e: Entry): seq<Entry> {
    if ParseLine(e.Line()).Some? then [ParseLine(e.Line()).value] else []
  }

  lemma RenderedFront(e: Entry, rest: seq<Entry>)
    ensures Parse(Render([e] + rest)) == ReadAs(e) + Parse(Render(rest))
  {
    hide ParseLine;
    assert Render([e] + rest) == [e.Line()] + Render(rest);
  }

  lemma NothingRead()
    ensures Parse(Render([])) == []
  {
  }

  /** An entry read back from a rendered block is one of its readable entries, or comes from a name
      with a '=' in it. */
  lemma {:induction false} ReadFrom(block: seq<Entry>, x: Entry) returns (e: Entry)
    requires x in Parse(Render(block))
    ensures e in block && (if e.Readable() then e == x else Head(e.Key()) == x.Key())
    ensures |x.value| <= |e.name| + |e.value|
  {
    hide ToUpper, ParseLine, Entry.Readable, Head;
    NothingRead();
    var first, rest := block[0], block[1..];
    assert [first] + rest == block;
    RenderedFront(first, rest);
    LineReadBack(first);
    HeadFolds(first.name);
    if x in ReadAs(first) {
      e := first;
    } else {
      e := ReadFrom(rest, x);
    }
  }

  lemma {:induction false} ReadsHead(block: seq<Entry>, e: Entry)
    requires e in block
    ensures e.Readable() ==> e in Parse(Render(block))
    ensures Head(e.Key()) != "" ==> Head(e.Key()) in Keys(Parse(Render(block)))
  {
    hide ToUpper, ParseLine, Entry.Readable, Head, Keys;
    var first, rest := block[0], block[1..];
    assert [first] + rest == block;
    RenderedFront(first, rest);
    KeysConcat(ReadAs(first), Parse(Render(rest)));
    if e == first {
      LineReadBack(e);
      HeadFolds(e.name);
      if ReadAs(e) != [] {
        KeyIn(ReadAs(e), ReadAs(e)[0]);
      }
    } else {
      ReadsHead(rest, e);
    }
  }

  /** A readable name that is no other name's head is read back with what stood under it. */
  lemma {:induction false} ReadUndisturbed(block: seq<Entry>, key: string, below: Option<Entry>)
    requires ReadableKey(key) && forall e :: e in block ==> Head(e.Key()) != key
    ensures LastWrite(Parse(Render(block)), key, below) == LastWrite(block, key, below)
    decreases |block|
  {
    hide ToUpper, ParseLine, LastWrite, Head;
    if block == [] {
      assert Parse(Render(block)) == [] == block;
    } else {
      var e, rest := block[0], block[1..];
      assert [e] + rest == block;
      assert e in block;
      RenderedFront(e, rest);
      LineReadBack(e);
      HeadFolds(e.name);
      ReadableByKey(e);
      LastWriteFront(e, rest, key, below);
      if ReadAs(e) != [] {
        var x := ReadAs(e)[0];
        assert ReadAs(e) == [x];
        LastWriteFront(x, Parse(Render(rest)), key, below);
        assert x.Key() == key <==> e.Key() == key && x == e;
      } else {
        assert [] + Parse(Render(rest)) == Parse(Render(rest));
      }
      ReadUndisturbed(rest, key, if e.Key() == key then Some(e) else below);
    }
  }

  /* ---------- the condition ---------- */

  /** Once an unreadable name was mentioned, no new readable one is. */
  predicate ReadableFirst(ks: seq<string>) {
    forall i, j :: 0 <= i < j < |ks| && !ReadableKey(ks[i]) && ReadableKey(ks[j]) ==> ks[j] in ks[..i]
  }

  /** Each head of a name is set by a layer itself, PATH by the machine. */
  predicate HeadsSet(machine: seq<Entry>, user: seq<Entry>) {
    forall e :: e in machine + user && Head(e.Key()) != "" ==>
      && Head(e.Key()) in Keys(machine + user)
      && (Head(e.Key()) == PATH_KEY ==> PATH_KEY in Keys(machine))
  }

  predicate Rebuildable(machine: seq<Entry>, user: seq<Entry>) {
    ReadableFirst(Keys(machine + user)) && HeadsSet(machine, user)
  }

  /** The rebuilt block is the same list of lines. */
  predicate KeepsLines(base: seq<string>, machine: seq<Entry>, user: seq<Entry>) {
    Compose(Compose(base, machine, user), machine, user) == Compose(base, machine, user)
  }

  /** Neither order, nor spelling, nor a value changes.  This is more: two entries may render to the
      same line, as A=B with value x and A with value B=x. */
  predicate Rebuilds(base: seq<string>, machine: seq<Entry>, user: seq<Entry>) {
    Slots(Compose(base, machine, user), machine, user) == Slots(base, machine, user)
  }

  lemma {:induction false} ValuesInKeys(es: seq<Entry>, key: string)
    ensures ValuesOf(es, key) == [] <==> key !in Keys(es)
  {
    hide ToUpper, Keys;
    if es == [] {
      KeysLength(es);
    } else {
      assert [es[0]] + es[1..] == es;
      KeysConcat([es[0]], es[1..]);
      KeysOne(es[0]);
      ValuesInKeys(es[1..], key);
    }
  }

  lemma KeysOne(e: Entry)
    ensures Keys([e]) == [e.Key()]
  {
  }

  lemma UnreadableIsWritten(base: seq<string>, machine: seq<Entry>, user: seq<Entry>, e: Entry)
    requires e in Slots(base, machine, user) && !e.Readable()
    ensures e.Key() in Keys(machine + user)
  {
    hide ToUpper, Keys, Parse, Slots, Entry.Readable, ReadableKey;
    KeyIn(Slots(base, machine, user), e);
    SlotNames(base, machine, user, e.Key());
    var w := KeyOf(Parse(base) + machine + user, e.Key());
    ReadableByKey(e);
    ReadableByKey(w);
    ParseReadable(base);
    assert w in machine + user;
    KeyIn(machine + user, w);
  }

  /* ---------- it is enough ---------- */

  predicate Sorted(ks: seq<string>) {
    forall i, j :: 0 <= i < j < |ks| && !ReadableKey(ks[i]) ==> !ReadableKey(ks[j])
  }

  lemma FirstsSorted(ks: seq<string>)
    requires ReadableFirst(ks)
    ensures Sorted(FirstBy(ks, Same, {}))
  {
    hide FirstBy, ReadableKey, FirstIndices;
    FirstByPicksFirsts(ks, Same, {});
    var idx, out := FirstIndices(ks, Same, {}), FirstBy(ks, Same, {});
    forall i, j | 0 <= i < j < |out| && !ReadableKey(out[i])
      ensures !ReadableKey(out[j])
    {
      assert idx[j] in idx && IsFirst(ks, Same, {}, idx[j]);
      forall k | 0 <= k < idx[i]
        ensures ks[k] != ks[idx[j]]
      {
        assert Same(ks[k]) != Same(ks[idx[j]]);
      }
      assert ks[idx[j]] !in ks[..idx[i]];
    }
  }

  lemma {:induction false} SortedSplit(ks: seq<string>) returns (n: nat)
    requires Sorted(ks)
    ensures n <= |ks|
    ensures forall i :: 0 <= i < |ks| ==> (ReadableKey(ks[i]) <==> i < n)
  {
    hide ReadableKey;
    if ks == [] || !ReadableKey(ks[0]) {
      n := 0;
    } else {
      assert forall i :: 0 <= i < |ks| - 1 ==> ks[1..][i] == ks[i + 1];
      var m := SortedSplit(ks[1..]);
      n := m + 1;
      assert forall i :: 1 <= i < |ks| ==> ks[i] == ks[1..][i - 1];
    }
  }

  /** First occurrences already counted as seen drop out at the front. */
  lemma {:induction false} FirstsSkip(a: seq<string>, seen: set<string>, x: seq<string>, y: seq<string>)
    requires FirstBy(a, Same, seen) == x + y
    ensures FirstBy(a, Same, seen + KeysBy(x, Same)) == y
    decreases |a|
  {
    hide KeysBy;
    if a == [] {
      assert x == [] && y == [];
    } else if a[0] in seen {
      FirstsSkip(a[1..], seen, x, y);
    } else if x == [] {
      assert KeysBy(x, Same) == {} by { KeysByNothing(); }
      assert seen + {} == seen && x + y == y;
    } else {
      assert (x + y)[0] == x[0] && (x + y)[1..] == x[1..] + y;
      FirstsSkip(a[1..], seen + {a[0]}, x[1..], y);
      assert [x[0]] + x[1..] == x;
      KeysByConcat([x[0]], x[1..], Same);
      KeysByOne(x[0]);
      assert seen + {a[0]} + KeysBy(x[1..], Same) == seen + KeysBy(x, Same);
    }
  }

  lemma KeysByNothing()
    ensures KeysBy([], Same) == {}
  {
  }

  lemma KeysByOne(k: string)
    ensures KeysBy([k], Same) == {k}
  {
    assert Same([k][0]) == k;
  }

  lemma {:induction false} FirstsOfSeen(a: seq<string>, seen: set<string>)
    requires forall k :: k in a ==> k in seen
    ensures FirstBy(a, Same, seen) == []
  {
    if a != [] {
      FirstsOfSeen(a[1..], seen);
    }
  }

  /** Of the first mentions `ks`, the readable ones in front account for all but the others. */
  lemma AfterReadable(kb: seq<string>, kw: seq<string>, ks: seq<string>, n: nat)
    requires ks == FirstBy(kb + kw, Same, {}) && n <= |ks|
    requires forall i :: 0 <= i < |ks| ==> (ReadableKey(ks[i]) <==> i < n)
    requires forall k :: k in kb ==> ReadableKey(k)
    ensures FirstBy(kw, Same, {} + KeysBy(ks[..n], Same)) == ks[n..]
  {
    hide FirstBy, KeysBy, ReadableKey;
    var fb, sb := FirstBy(kb, Same, {}), {} + KeysBy(kb, Same);
    FirstByConcat(kb, kw, Same, {});
    FirstByFrom(kb, Same, {});
    assert |fb| <= n by {
      if fb != [] {
        assert ks[|fb| - 1] == fb[|fb| - 1];
        assert fb[|fb| - 1] in fb;
      }
    }
    var x := ks[|fb|..n];
    assert ks[..n] == fb + x && FirstBy(kw, Same, sb) == x + ks[n..];
    FirstsSkip(kw, sb, x, ks[n..]);
    FirstByKeys(kb, Same, {});
    KeysByConcat(fb, x, Same);
    assert sb + KeysBy(x, Same) == {} + KeysBy(ks[..n], Same);
  }

  /** Names already mentioned may be repeated anywhere. */
  lemma Repeated(r: seq<string>, strays: seq<string>, kw: seq<string>)
    requires forall k :: k in strays ==> k in r
    ensures FirstBy(r + strays + kw, Same, {})
         == FirstBy(r, Same, {}) + FirstBy(kw, Same, {} + KeysBy(r, Same))
  {
    hide FirstBy, KeysBy;
    var none: set<string> := {};
    assert r + strays + kw == (r + strays) + kw;
    FirstByConcat(r + strays, kw, Same, {});
    FirstByConcat(r, strays, Same, {});
    KeysByConcat(r, strays, Same);
    forall k
      ensures k in KeysBy(strays, Same) ==> k in KeysBy(r, Same)
      ensures k in strays ==> k in none + KeysBy(r, Same)
    {
      InKeysBy(r, k);
      InKeysBy(strays, k);
    }
    FirstsOfSeen(strays, none + KeysBy(r, Same));
    assert none + KeysBy(r + strays, Same) == none + KeysBy(r, Same);
    assert FirstBy(r, Same, {}) + [] == FirstBy(r, Same, {});
  }

  /** Reading back a list that starts with its readable names and writing it again keeps its order. */
  lemma SameOrder(kb: seq<string>, kw: seq<string>, ks: seq<string>, n: nat, strays: seq<string>)
    requires ks == FirstBy(kb + kw, Same, {}) && n <= |ks|
    requires forall i :: 0 <= i < |ks| ==> (ReadableKey(ks[i]) <==> i < n)
    requires forall k :: k in kb ==> ReadableKey(k)
    requires forall k :: k in strays ==> k in ks[..n]
    ensures FirstBy(ks[..n] + strays + kw, Same, {}) == ks
  {
    hide FirstBy, KeysBy, ReadableKey;
    assert ks[..n] + ks[n..] == ks;
    AfterReadable(kb, kw, ks, n);
    Repeated(ks[..n], strays, kw);
    FirstsOfFirsts(kb + kw, ks[..n], ks[n..]);
  }

  lemma FirstsOfFirsts(a: seq<string>, r: seq<string>, rest: seq<string>)
    requires FirstBy(a, Same, {}) == r + rest
    ensures FirstBy(r, Same, {}) == r
  {
    hide FirstBy;
    FirstByTwice(a, Same, {}, {});
    var none: set<string> := {};
    assert none + {} == none;
    FirstByConcat(r, rest, Same, {});
    FirstByLength(r, {});
    FirstByLength(rest, {} + KeysBy(r, Same));
    assert FirstBy(r + rest, Same, {})[..|r|] == r;
  }

  lemma {:induction false} FirstByLength(a: seq<string>, seen: set<string>)
    ensures |FirstBy(a, Same, seen)| <= |a|
  {
    if a != [] {
      FirstByLength(a[1..], if a[0] in seen then seen else seen + {a[0]});
    }
  }

  lemma HeadIsName(base: seq<string>, machine: seq<Entry>, user: seq<Entry>, e: Entry)
    requires HeadsSet(machine, user) && e in Slots(base, machine, user) && Head(e.Key()) != ""
    ensures Head(e.Key()) in Keys(machine + user) && ReadableKey(Head(e.Key()))
    ensures Head(e.Key()) == PATH_KEY ==> PATH_KEY in Keys(machine)
  {
    hide ToUpper, Keys, Slots, Entry.Readable, ReadableKey, Head;
    HeadFolds(e.Key());
    HeadFolds(e.name);
    LineReadBack(e);
    UnreadableIsWritten(base, machine, user, e);
    var w := KeyOf(machine + user, e.Key());
  }

  lemma InheritedReadable(base: seq<string>)
    ensures forall k :: k in Keys(Parse(base)) ==> ReadableKey(k)
  {
    hide ToUpper, Keys, Parse, ReadableKey;
    ParseReadable(base);
    forall k | k in Keys(Parse(base))
      ensures ReadableKey(k)
    {
      var e := KeyOf(Parse(base), k);
      ReadableByKey(e);
    }
  }

  lemma ReadableFirstAfter(kb: seq<string>, kw: seq<string>)
    requires ReadableFirst(kw) && forall k :: k in kb ==> ReadableKey(k)
    ensures ReadableFirst(kb + kw)
  {
    hide ReadableKey;
    var ks := kb + kw;
    forall i | 0 <= i < |kb|
      ensures ReadableKey(ks[i])
    {
      assert kb[i] in kb;
    }
    forall i, j | 0 <= i < j < |ks| && !ReadableKey(ks[i]) && ReadableKey(ks[j])
      ensures ks[j] in ks[..i]
    {
      var i', j' := i - |kb|, j - |kb|;
      assert i' >= 0;
      var k :| 0 <= k < i' && kw[..i'][k] == kw[j'];
      assert ks[..i][|kb| + k] == ks[j];
    }
  }

  /** The unreadable end of a block is read back under names it also has. */
  lemma StraysKnown(base: seq<string>, machine: seq<Entry>, user: seq<Entry>, back: seq<Entry>, k: string)
    requires HeadsSet(machine, user)
    requires forall e :: e in back ==> e in Slots(base, machine, user) && !e.Readable()
    requires k in Keys(Parse(Render(back)))
    ensures ReadableKey(k) && k in Keys(Slots(base, machine, user))
  {
    hide ToUpper, Keys, Slots, Parse, Entry.Readable, HeadsSet, Head;
    var x := KeyOf(Parse(Render(back)), k);
    var e := ReadFrom(back, x);
    InheritedReadable(Render(back));
    HeadIsName(base, machine, user, e);
    KeysConcat(Parse(base), machine + user);
    assert Parse(base) + machine + user == Parse(base) + (machine + user);
    SlotNames(base, machine, user, k);
  }

  lemma ReadInParts(a: seq<Entry>, b: seq<Entry>)
    ensures Parse(Render(a + b)) == Parse(Render(a)) + Parse(Render(b))
  {
    hide Parse;
    assert Render(a + b) == Render(a) + Render(b);
    ParseConcat(Render(a), Render(b));
  }

  lemma KeyReadable(block: seq<Entry>, i: nat)
    requires i < |block|
    ensures |Keys(block)| == |block| && (block[i].Readable() <==> ReadableKey(Keys(block)[i]))
  {
    ReadableByKey(block[i]);
  }

  lemma RebuiltOrder(base: seq<string>, machine: seq<Entry>, user: seq<Entry>)
    requires Rebuildable(machine, user)
    ensures Keys(Slots(Compose(base, machine, user), machine, user)) == Keys(Slots(base, machine, user))
  {
    hide ToUpper, Keys, Slots, Find, LastWrite, Unique, FirstBy, PicksFirsts, FirstIndices, ValuesOf, Parse, UserWrite,
         ReadableKey, ReadableFirst, HeadsSet, Sorted, Entry.Readable, Head, Render;
    var block, w := Slots(base, machine, user), machine + user;
    var b, ks, kw := Parse(base), Keys(block), Keys(w);
    assert b + machine + user == b + w;
    ComposeMeaning(base, machine, user, "");
    KeysConcat(b, w);
    InheritedReadable(base);
    ReadableFirstAfter(Keys(b), kw);
    FirstsSorted(Keys(b) + kw);
    var n := SortedSplit(ks);
    KeysLength(block);
    var front, back := block[..n], block[n..];
    forall i | 0 <= i < |block|
      ensures block[i].Readable() <==> i < n
    {
      KeyReadable(block, i);
    }
    assert front + back == block;
    KeysConcat(front, back);
    KeysLength(front);
    assert ks[..n] == Keys(front);
    assert AllReadable(front);
    ParseRender(front);
    ReadInParts(front, back);
    var strays := Keys(Parse(Render(back)));
    forall k | k in strays
      ensures k in ks[..n]
    {
      StraysKnown(base, machine, user, back, k);
      var i :| 0 <= i < |ks| && ks[i] == k;
      assert ks[..n][i] == k;
    }
    SameOrder(Keys(b), kw, ks, n, strays);
    var read := Parse(Compose(base, machine, user));
    assert read == front + Parse(Render(back));
    KeysConcat(front, Parse(Render(back)));
    KeysConcat(read, w);
    assert read + machine + user == read + w;
    ComposeMeaning(Compose(base, machine, user), machine, user, "");
  }

  lemma RebuiltValue(base: seq<string>, machine: seq<Entry>, user: seq<Entry>, k: string)
    requires HeadsSet(machine, user) && k in Keys(Slots(base, machine, user))
    ensures Find(Slots(Compose(base, machine, user), machine, user), k) == Find(Slots(base, machine, user), k)
  {
    hide ToUpper, Keys, Slots, Find, LastWrite, Unique, FirstBy, PicksFirsts, FirstIndices, ValuesOf, Parse, Merge,
         ReadableKey, ReadableFirst, HeadsSet, Entry.Readable, Head, Render;
    var block := Slots(base, machine, user);
    var read := Parse(Compose(base, machine, user));
    ComposeMeaning(base, machine, user, k);
    ComposeMeaning(Compose(base, machine, user), machine, user, k);
    LastWriteConcat(Parse(base), machine, k, None);
    LastWriteConcat(read, machine, k, None);
    var once, twice := LastWrite(Parse(base), k, None), LastWrite(read, k, None);
    LastWriteDecided(machine, k, once, twice);
    LastWriteDecided(user, k, LastWrite(machine, k, once), LastWrite(machine, k, twice));
    ValuesInKeys(machine, k);
    ValuesInKeys(user, k);
    KeysConcat(machine, user);
    if k !in Keys(machine) && (k !in Keys(user) || k == PATH_KEY) {
      KeptReadable(base, machine, user, k);
      ReadUndisturbed(block, k, None);
      FindIsLastWrite(block, k);
      UserWriteTwice(machine, user, k, once);
    }
  }

  /** A name the layers leave to the inherited block, or the user alone merges, is no other's head. */
  lemma KeptReadable(base: seq<string>, machine: seq<Entry>, user: seq<Entry>, k: string)
    requires HeadsSet(machine, user) && k in Keys(Slots(base, machine, user))
    requires k !in Keys(machine) && (k !in Keys(user) || k == PATH_KEY)
    ensures ReadableKey(k)
    ensures forall e :: e in Slots(base, machine, user) ==> Head(e.Key()) != k
  {
    hide ToUpper, Keys, Slots, Parse, HeadsSet, Entry.Readable, Head;
    var block := Slots(base, machine, user);
    KeysConcat(machine, user);
    var own := KeyOf(block, k);
    ReadableByKey(own);
    if !own.Readable() {
      UnreadableIsWritten(base, machine, user, own);
    }
    forall e | e in block
      ensures Head(e.Key()) != k
    {
      if Head(e.Key()) == k {
        HeadIsName(base, machine, user, e);
      }
    }
  }

  /** Where every new readable name comes before the unreadable ones, and their heads are set anyway,
      rebuilding changes nothing. */
  lemma RebuildableRebuilds(base: seq<string>, machine: seq<Entry>, user: seq<Entry>)
    requires Rebuildable(machine, user)
    ensures Rebuilds(base, machine, user)
  {
    hide ToUpper, Keys, Slots, Find, Unique, ReadableFirst, HeadsSet, Compose, FirstBy, PicksFirsts, FirstIndices,
         UserWrite, LastWrite, ValuesOf, Parse;
    var block, again := Slots(base, machine, user), Slots(Compose(base, machine, user), machine, user);
    ComposeMeaning(base, machine, user, "");
    ComposeMeaning(Compose(base, machine, user), machine, user, "");
    RebuiltOrder(base, machine, user);
    forall k | k in Keys(block)
      ensures Find(again, k) == Find(block, k)
    {
      RebuiltValue(base, machine, user, k);
    }
    BlockExtensional(again, block);
  }

  /* ---------- it is needed ---------- */

  lemma EmptyBase(machine: seq<Entry>, user: seq<Entry>, k: string)
    ensures k in Keys(Slots([], machine, user)) <==> k in Keys(machine + user)
    ensures Keys(Slots([], machine, user)) == FirstBy(Keys(machine + user), Same, {})
  {
    hide ToUpper, Keys, Slots, Find, LastWrite, Unique, FirstBy, PicksFirsts, FirstIndices, ValuesOf, UserWrite;
    SlotNames([], machine, user, k);
    ComposeMeaning([], machine, user, k);
    assert Parse([]) + machine + user == machine + user;
  }

  lemma {:induction false} FirstsCount(a: seq<string>, seen: set<string>)
    ensures |FirstBy(a, Same, seen)| == |KeysBy(a, Same) - seen|
    decreases |a|
  {
    hide KeysBy;
    if a == [] {
      KeysByNothing();
    } else {
      var k, rest := a[0], a[1..];
      assert a == [k] + rest;
      KeysByConcat([k], rest, Same);
      KeysByOne(k);
      if k in seen {
        FirstsCount(rest, seen);
        assert KeysBy(a, Same) - seen == KeysBy(rest, Same) - seen;
      } else {
        FirstsCount(rest, seen + {k});
        assert KeysBy(a, Same) - seen == {k} + (KeysBy(rest, Same) - (seen + {k}));
      }
    }
  }

  lemma SmallerSet(a: set<string>, b: set<string>, k: string)
    requires a <= b && k in b && k !in a
    ensures |a| < |b|
  {
    assert b == a + (b - a) && k in b - a;
  }

  /** A head no layer sets would become a variable of its own, and the block would grow. */
  lemma HeadNeeded(machine: seq<Entry>, user: seq<Entry>, e: Entry)
    requires KeepsLines([], machine, user) && e in machine + user && Head(e.Key()) != ""
    ensures Head(e.Key()) in Keys(machine + user)
  {
    hide ToUpper, Keys, Slots, Parse, FirstBy, Head, Render, KeysBy, Find, LastWrite, Unique, PicksFirsts, FirstIndices,
         ValuesOf, UserWrite;
    var block, k, w := Slots([], machine, user), Head(e.Key()), machine + user;
    KeyIn(w, e);
    EmptyBase(machine, user, e.Key());
    var slot := KeyOf(block, e.Key());
    ReadsHead(block, slot);
    var read, again := Parse(Render(block)), Slots(Render(block), machine, user);
    KeysConcat(read, w);
    assert read + machine + user == read + w;
    ComposeMeaning(Render(block), machine, user, "");
    SameLength(block, again);
    var before, after := Keys(w), Keys(read) + Keys(w);
    FirstsCount(before, {});
    FirstsCount(after, {});
    KeysByConcat(Keys(read), Keys(w), Same);
    assert KeysBy(before, Same) - {} == KeysBy(before, Same) && KeysBy(after, Same) - {} == KeysBy(after, Same);
    if k !in before {
      InKeysBy(before, k);
      InKeysBy(after, k);
      SmallerSet(KeysBy(before, Same), KeysBy(after, Same), k);
      assert false;
    }
  }

  lemma SameLength(a: seq<Entry>, b: seq<Entry>)
    requires Render(a) == Render(b)
    ensures |Keys(a)| == |Keys(b)|
  {
    hide ToUpper;
    assert |Render(a)| == |a| && |Render(b)| == |b|;
  }

  /** Of two beginnings of one list, the one holds an element the other lacks, and not the other way round. */
  lemma TwoBeginnings(ks: seq<string>, x1: seq<string>, y1: seq<string>, x2: seq<string>, y2: seq<string>,
                      a: string, b: string)
    requires ks == x1 + y1 && ks == x2 + y2
    requires a in x2 && b !in x2 && b in x1
    ensures a in x1
  {
    var i :| 0 <= i < |x2| && x2[i] == a;
    var j :| 0 <= j < |x1| && x1[j] == b;
    assert forall m :: 0 <= m < |x2| ==> ks[m] in x2;
    assert ks[j] == b && ks[i] == a;
    assert x1[i] == a;
  }

  lemma FirstsHave(ks: seq<string>, k: string)
    ensures k in FirstBy(ks, Same, {}) <==> k in ks
  {
    hide FirstBy, KeysBy;
    FirstByKeys(ks, Same, {});
    InKeysBy(ks, k);
    InKeysBy(FirstBy(ks, Same, {}), k);
  }

  /** A readable name first mentioned after an unreadable one would move before it. */
  lemma OrderNeeded(machine: seq<Entry>, user: seq<Entry>)
    requires Keys(Slots(Compose([], machine, user), machine, user)) == Keys(Slots([], machine, user))
    ensures ReadableFirst(Keys(machine + user))
  {
    hide ToUpper, Keys, Slots, Parse, FirstBy, KeysBy, ReadableKey, Find, LastWrite, Unique, PicksFirsts, FirstIndices,
         ValuesOf, UserWrite;
    var w, block := machine + user, Slots([], machine, user);
    var kw, ks, read := Keys(w), Keys(block), Parse(Render(block));
    EmptyBase(machine, user, "");
    ComposeMeaning(Compose([], machine, user), machine, user, "");
    assert read + machine + user == read + w;
    KeysConcat(read, w);
    var kr := Keys(read);
    FirstByConcat(kr, kw, Same, {});
    var y1 := FirstBy(kw, Same, {} + KeysBy(kr, Same));
    forall i, j | 0 <= i < j < |kw| && !ReadableKey(kw[i]) && ReadableKey(kw[j])
      ensures kw[j] in kw[..i]
    {
      var a, b, front, rest := kw[i], kw[j], kw[..i + 1], kw[i + 1..];
      if b !in kw[..i] {
        assert front + rest == kw && front == kw[..i] + [a];
        FirstByConcat(front, rest, Same, {});
        FirstsHave(front, a);
        FirstsHave(front, b);
        FirstsHave(kw, b);
        ReadableRead(block, b);
        FirstsHave(kr, b);
        TwoBeginnings(ks, FirstBy(kr, Same, {}), y1, FirstBy(front, Same, {}),
                      FirstBy(rest, Same, {} + KeysBy(front, Same)), a, b);
        FirstsHave(kr, a);
        InheritedReadable(Render(block));
        assert false;
      }
    }
  }

  lemma ReadableRead(block: seq<Entry>, k: string)
    requires k in Keys(block) && ReadableKey(k)
    ensures k in Keys(Parse(Render(block)))
  {
    hide ToUpper, Keys, Parse, ReadableKey, Head;
    var e := KeyOf(block, k);
    ReadableByKey(e);
    ReadsHead(block, e);
    KeyIn(Parse(Render(block)), e);
  }

  /* ---------- PATH ---------- */

  function Size(es: seq<Entry>): nat {
    if es == [] then 0 else |es[0].name| + |es[0].value| + Size(es[1..])
  }

  lemma {:induction false} SizeBounds(es: seq<Entry>, key: string)
    ensures forall e :: e in es ==> |e.name| + |e.value| <= Size(es)
    ensures forall v :: v in ValuesOf(es, key) ==> |v| <= Size(es)
  {
    hide ToUpper;
    if es != [] {
      SizeBounds(es[1..], key);
    }
  }

  lemma {:induction false} SplitShorter(s: string, sep: char)
    ensures forall p :: p in Split(s, sep) ==> |p| <= |s|
    decreases |s|
  {
    var i := IndexByte(s, sep);
    if i >= 0 {
      SplitShorter(s[i + 1..], sep);
    }
  }

  lemma {:induction false} CleanShorter(parts: seq<string>, n: nat)
    requires forall p :: p in parts ==> |p| <= n
    ensures forall e :: e in Clean(parts) ==> |e| <= n
  {
    if parts != [] {
      CleanShorter(parts[1..], n);
    }
  }

  lemma {:induction false} GatherShorter(fragments: seq<string>, sep: char, n: nat)
    requires forall f :: f in fragments ==> |f| <= n
    ensures forall e :: e in Gather(fragments, sep) ==> |e| <= n
  {
    hide Split, Clean;
    if fragments != [] {
      var f := fragments[0];
      SplitShorter(f, sep);
      CleanShorter(Split(f, sep), n);
      GatherShorter(fragments[1..], sep, n);
    }
  }

  /** A long entry in front cannot be traded for anything shorter. */
  lemma MergeShows(b: string, x: string, values: seq<string>)
    requires CleanEntry(b, PATH_LIST_SEPARATOR) && |x| < |b| && forall v :: v in values ==> |v| < |b|
    ensures Merge([b] + values, PATH_LIST_SEPARATOR) != Merge([x] + values, PATH_LIST_SEPARATOR)
  {
    hide Merge, Gather, FirstBy, Entries, CleanEntry;
    var sep := PATH_LIST_SEPARATOR;
    EntriesOfMerge([b] + values, sep);
    EntriesOfMerge([x] + values, sep);
    GatherConcat([b], values, sep);
    GatherOne(b, sep);
    EntriesOfJoin([b], sep);
    assert Join([b], sep) == b;
    GatherShorter([x] + values, sep, |b| - 1);
    FirstByFrom(Gather([x] + values, sep), ToLower, {});
    FirstOfFront(b, Gather(values, sep));
    assert b in Distinct(Gather([b] + values, sep));
    assert b !in Distinct(Gather([x] + values, sep));
  }

  lemma FirstOfFront(b: string, rest: seq<string>)
    ensures b in Distinct([b] + rest)
  {
    assert ([b] + rest)[0] == b;
  }

  lemma LastWriteFrom(layer: seq<Entry>, key: string, below: Option<Entry>)
    ensures var r := LastWrite(layer, key, below);
            if key in Keys(layer) then r.Some? && r.value in layer && r.value.Key() == key else r == below
  {
    hide ToUpper;
    if layer != [] {
      LastWriteFrom(layer[..|layer| - 1], key, below);
      assert Keys(layer) == Keys(layer[..|layer| - 1]) + [layer[|layer| - 1].Key()];
    }
  }

  lemma LastWriteAt(x: Entry, layer: seq<Entry>, key: string)
    requires x.Key() == key && key !in Keys(layer)
    ensures LastWrite([x] + layer, key, None) == Some(x)
  {
    hide ToUpper, LastWrite, Keys;
    LastWriteFront(x, layer, key, None);
    LastWriteFrom(layer, key, Some(x));
  }

  /** Everything in a composed block but a PATH stands there as some layer wrote it. */
  lemma SlotWritten(base: seq<string>, machine: seq<Entry>, user: seq<Entry>, e: Entry)
    requires e in Slots(base, machine, user) && e.Key() != PATH_KEY
    ensures e in Parse(base) + machine + user
  {
    hide ToUpper, Keys, Slots, Parse, LastWrite, Find, Unique, FirstBy, PicksFirsts, FirstIndices, UserWrite;
    var block, writes := Slots(base, machine, user), Parse(base) + machine + user;
    ComposeMeaning(base, machine, user, e.Key());
    var i :| 0 <= i < |block| && block[i] == e;
    FindAt(block, i);
    LastWriteFrom(writes, e.Key(), None);
  }

  lemma HeadHasMark(key: string)
    ensures Head(key) != "" ==> '=' in key
  {
  }

  lemma UniqueRest(x: Entry, rest: seq<Entry>, e: Entry)
    requires Unique([x] + rest) && e in rest
    ensures e.Key() != x.Key()
  {
    hide ToUpper;
    var block := [x] + rest;
    var i :| 0 <= i < |rest| && rest[i] == e;
    assert block[0] == x && block[i + 1] == e;
  }

  lemma ParseOne(p: Entry)
    requires p.Readable()
    ensures Parse([p.Line()]) == [p]
  {
    ParseOfLine(p);
    assert [p.Line()][1..] == [];
  }

  lemma ParsePath(p: Entry)
    requires p.name == PATH_KEY
    ensures p.Key() == PATH_KEY && p.Readable() && Parse([p.Line()]) == [p]
  {
    assert ToUpper(PATH_KEY) == PATH_KEY;
    ParseOne(p);
  }

  lemma FirstInFront(k: string, rest: seq<string>)
    ensures |FirstBy([k] + rest, Same, {})| > 0 && FirstBy([k] + rest, Same, {})[0] == k
  {
    assert ([k] + rest)[0] == k;
  }

  lemma KeysAt(block: seq<Entry>, i: nat)
    requires i < |block|
    ensures |Keys(block)| == |block| && Keys(block)[i] == block[i].Key()
  {
  }

  /** A PATH in front of the inherited block stays in front. */
  lemma PathInFront(p: Entry, rest: seq<string>, machine: seq<Entry>, user: seq<Entry>)
    requires p.Key() == PATH_KEY && p.Readable()
    ensures var block := Slots([p.Line()] + rest, machine, user);
            block != [] && Unique(block) && block[0].Key() == PATH_KEY && block[0].Readable()
  {
    hide ToUpper, Keys, Slots, Parse, LastWrite, Find, Unique, FirstBy, PicksFirsts, FirstIndices, UserWrite,
         Entry.Readable, ValuesOf;
    var base := [p.Line()] + rest;
    var block := Slots(base, machine, user);
    var others := Parse(rest) + machine + user;
    ParseConcat([p.Line()], rest);
    ParseOne(p);
    ComposeMeaning(base, machine, user, "");
    assert Parse(base) + machine + user == [p] + others;
    KeysConcat([p], others);
    KeysOne(p);
    FirstInFront(PATH_KEY, Keys(others));
    KeysLength(block);
    KeysAt(block, 0);
    ReadableByKey(block[0]);
  }

  /** Behind an inherited PATH in front, a name that starts with PATH= is read back as the PATH below. */
  lemma PathBelow(inherited: string, machine: seq<Entry>, user: seq<Entry>, e: Entry)
    requires e in machine + user && Head(e.Key()) == PATH_KEY
    ensures var read := Parse(Compose([Entry(PATH_KEY, inherited).Line()], machine, user));
            var below := LastWrite(read, PATH_KEY, None);
            below.Some? && |below.value.value| <= Size(machine + user)
  {
    hide ToUpper, Keys, Slots, Parse, LastWrite, Unique, Head, Size, Entry.Readable, Render;
    var p := Entry(PATH_KEY, inherited);
    var base, w := [p.Line()], machine + user;
    var block := Slots(base, machine, user);
    ParsePath(p);
    assert base + [] == base;
    PathInFront(p, [], machine, user);
    var first, rest := block[0], block[1..];
    assert [first] + rest == block;
    assert [p] + machine + user == [p] + w;
    KeysConcat([p], w);
    KeyIn(w, e);
    SlotNames(base, machine, user, e.Key());
    var slot := KeyOf(block, e.Key());
    HeadHasMark(e.Key());
    ReadsHead(rest, slot);
    LineReadBack(first);
    RenderedFront(first, rest);
    var read := Parse(Render(rest));
    assert ReadAs(first) == [first];
    LastWriteFront(first, read, PATH_KEY, None);
    LastWriteFrom(read, PATH_KEY, Some(first));
    var x := LastWrite(read, PATH_KEY, Some(first)).value;
    var from := ReadFrom(rest, x);
    UniqueRest(first, rest, from);
    SlotWritten(base, machine, user, from);
    assert from in w;
    SizeBounds(w, PATH_KEY);
  }

  function Long(n: nat): string {
    seq(n + 1, i => 'x')
  }

  lemma LinesTell(a: Entry, b: Entry)
    requires a.name == b.name && a.Line() == b.Line()
    ensures a.value == b.value
  {
    assert a.Line()[|a.name| + 1..] == a.value && b.Line()[|b.name| + 1..] == b.value;
  }

  /** A name that starts with PATH=, while the machine sets no PATH: some inherited PATH is lost. */
  lemma PathNeeded(machine: seq<Entry>, user: seq<Entry>, e: Entry) returns (base: seq<string>)
    requires e in machine + user && Head(e.Key()) == PATH_KEY
    requires PATH_KEY !in Keys(machine) && PATH_KEY in Keys(user)
    ensures !KeepsLines(base, machine, user)
  {
    hide ToUpper, Keys, Slots, Parse, LastWrite, Find, Unique, FirstBy, PicksFirsts, FirstIndices, Head, Size, Merge,
         ValuesOf, Render;
    var p := Entry(PATH_KEY, Long(Size(machine + user)));
    base := [p.Line()];
    var block, again := Slots(base, machine, user), Slots(Compose(base, machine, user), machine, user);
    PathLost(machine, user, e);
    ParsePath(p);
    assert base + [] == base;
    PathInFront(p, [], machine, user);
    RenderedParts(block);
    PathInFront(block[0], Render(block[1..]), machine, user);
    FindAt(block, 0);
    FindAt(again, 0);
    if KeepsLines(base, machine, user) {
      FirstLines(block, again);
      LinesTell(block[0], again[0]);
    }
  }

  lemma RenderedParts(block: seq<Entry>)
    requires block != []
    ensures Render(block) == [block[0].Line()] + Render(block[1..])
  {
  }

  lemma FirstLines(a: seq<Entry>, b: seq<Entry>)
    requires a != [] && b != [] && Render(a) == Render(b)
    ensures a[0].Line() == b[0].Line()
  {
    assert Render(a)[0] == a[0].Line() && Render(b)[0] == b[0].Line();
  }

  lemma PathLost(machine: seq<Entry>, user: seq<Entry>, e: Entry)
    requires e in machine + user && Head(e.Key()) == PATH_KEY
    requires PATH_KEY !in Keys(machine) && PATH_KEY in Keys(user)
    ensures var base := [Entry(PATH_KEY, Long(Size(machine + user))).Line()];
            var once := Find(Slots(base, machine, user), PATH_KEY);
            var twice := Find(Slots(Compose(base, machine, user), machine, user), PATH_KEY);
            once.Some? && twice.Some? && once.value.name == twice.value.name && once.value.value != twice.value.value
  {
    hide ToUpper, Keys, Slots, Parse, LastWrite, Find, Unique, FirstBy, PicksFirsts, FirstIndices, Head, Size, Merge,
         ValuesOf;
    var b := Long(Size(machine + user));
    var p := Entry(PATH_KEY, b);
    var base := [p.Line()];
    var again := Compose(base, machine, user);
    var values := ValuesOf(user, PATH_KEY);
    ParsePath(p);
    ComposeMeaning(base, machine, user, PATH_KEY);
    ComposeMeaning(again, machine, user, PATH_KEY);
    LastWriteAt(p, machine, PATH_KEY);
    PathBelow(b, machine, user, e);
    var below := LastWrite(Parse(again), PATH_KEY, None);
    LastWriteConcat(Parse(again), machine, PATH_KEY, None);
    LastWriteFrom(machine, PATH_KEY, below);
    ValuesInKeys(user, PATH_KEY);
    LastWriteDecided(user, PATH_KEY, Some(p), below);
    ValuesShort(machine, user);
    MergeShows(b, below.value.value, values);
  }

  lemma ValuesShort(machine: seq<Entry>, user: seq<Entry>)
    ensures forall v :: v in ValuesOf(user, PATH_KEY) ==> |v| <= Size(machine + user)
  {
    hide ToUpper;
    SizeBounds(machine + user, PATH_KEY);
    ValuesFrom(user, PATH_KEY);
    forall v | v in ValuesOf(user, PATH_KEY)
      ensures |v| <= Size(machine + user)
    {
      var e :| e in user && e.value == v;
      assert e in machine + user;
    }
  }

  lemma {:induction false} ValuesFrom(es: seq<Entry>, key: string)
    ensures forall v :: v in ValuesOf(es, key) ==> exists e :: e in es && e.value == v
  {
    hide ToUpper;
    if es != [] {
      ValuesFrom(es[1..], key);
      assert es[0] in es;
    }
  }

  /* ---------- the results ---------- */

  lemma HeadsNeeded(machine: seq<Entry>, user: seq<Entry>)
    requires forall base :: KeepsLines(base, machine, user)
    ensures HeadsSet(machine, user)
  {
    hide KeepsLines, ToUpper, Keys, Head;
    forall e | e in machine + user && Head(e.Key()) != ""
      ensures Head(e.Key()) in Keys(machine + user)
      ensures Head(e.Key()) == PATH_KEY ==> PATH_KEY in Keys(machine)
    {
      HeadNeeded(machine, user, e);
      KeysConcat(machine, user);
      if Head(e.Key()) == PATH_KEY && PATH_KEY !in Keys(machine) {
        var base := PathNeeded(machine, user, e);
      }
    }
  }

  /** Rebuilding a session's environment on top of itself changes neither order, nor spelling, nor a
      value, whatever block was inherited, exactly when each new readable name comes before the
      unreadable ones, and each name that would be read back as another is set anyway. */
  lemma RebuildsExactly(machine: seq<Entry>, user: seq<Entry>)
    ensures (forall base :: Rebuilds(base, machine, user)) <==> Rebuildable(machine, user)
  {
    hide ReadableFirst, HeadsSet, ToUpper, Keys, Head, Slots;
    if Rebuildable(machine, user) {
      forall base
        ensures Rebuilds(base, machine, user)
      {
        RebuildableRebuilds(base, machine, user);
      }
    }
    if forall base :: Rebuilds(base, machine, user) {
      assert Rebuilds([], machine, user);
      OrderNeeded(machine, user);
      forall base
        ensures KeepsLines(base, machine, user)
      {
        assert Rebuilds(base, machine, user);
      }
      HeadsNeeded(machine, user);
    }
  }

  /** The rebuilt block is then the same list of lines. */
  lemma ComposeIdempotent(base: seq<string>, machine: seq<Entry>, user: seq<Entry>)
    requires Rebuildable(machine, user)
    ensures Compose(Compose(base, machine, user), machine, user) == Compose(base, machine, user)
  {
    hide Rebuildable, Slots;
    RebuildableRebuilds(base, machine, user);
  }

  predicate SameNames(a: seq<Entry>, b: seq<Entry>) {
    |a| == |b| && forall i :: 0 <= i < |a| ==> a[i].name == b[i].name
  }

  lemma SameKeys(a: seq<Entry>, b: seq<Entry>)
    requires SameNames(a, b)
    ensures Keys(a) == Keys(b)
  {
  }

  /** The condition is one on names. */
  lemma NamesRebuildable(machine: seq<Entry>, user: seq<Entry>, m: seq<Entry>, u: seq<Entry>)
    requires SameNames(m, machine) && SameNames(u, user)
    ensures Rebuildable(m, u) ==> Rebuildable(machine, user)
  {
    hide ToUpper, Keys, Head, ReadableFirst;
    SameKeys(m, machine);
    SameKeys(m + u, machine + user);
    var w, w' := machine + user, m + u;
    if Rebuildable(m, u) {
      forall e | e in w && Head(e.Key()) != ""
        ensures Head(e.Key()) in Keys(w) && (Head(e.Key()) == PATH_KEY ==> PATH_KEY in Keys(machine))
      {
        var i :| 0 <= i < |w| && w[i] == e;
        assert w'[i] in w' && w'[i].Key() == e.Key();
      }
    }
  }

  predicate AllBlank(es: seq<Entry>) {
    forall e :: e in es ==> e.value == ""
  }

  function Blanked(es: seq<Entry>): seq<Entry> {
    seq(|es|, i requires 0 <= i < |es| => Entry(es[i].name, ""))
  }

  lemma {:induction false} BlankValues(es: seq<Entry>, key: string)
    requires AllBlank(es)
    ensures forall v :: v in ValuesOf(es, key) ==> v == ""
  {
    hide ToUpper;
    ValuesFrom(es, key);
  }

  lemma {:induction false} GatherBlank(fragments: seq<string>, sep: char)
    requires forall i :: 0 <= i < |fragments| ==> fragments[i] == ""
    ensures Gather(fragments, sep) == []
  {
    hide Entries;
    if fragments != [] {
      EntriesNothing(sep);
      GatherBlank(fragments[1..], sep);
    }
  }

  lemma MergeBlank(a: string, values: seq<string>, sep: char)
    requires a == "" && forall v :: v in values ==> v == ""
    ensures Merge([a] + values, sep) == ""
  {
    hide Gather;
    assert forall i :: 0 <= i < |values| ==> values[i] in values;
    GatherBlank([a] + values, sep);
  }

  /** Blank layers over nothing compose to blank variables. */
  lemma BlankSlots(machine: seq<Entry>, user: seq<Entry>)
    requires AllBlank(machine) && AllBlank(user)
    ensures AllBlank(Slots([], machine, user))
  {
    hide ToUpper, Keys, Slots, LastWrite, Find, Unique, FirstBy, PicksFirsts, FirstIndices, ValuesOf, Merge;
    var block := Slots([], machine, user);
    forall e | e in block
      ensures e.value == ""
    {
      var key := e.Key();
      var i :| 0 <= i < |block| && block[i] == e;
      ComposeMeaning([], machine, user, key);
      FindAt(block, i);
      assert Parse([]) + machine == machine;
      var below := LastWrite(machine, key, None);
      LastWriteFrom(machine, key, None);
      LastWriteFrom(user, key, below);
      BlankValues(user, key);
      MergeBlank(Inherited(below), ValuesOf(user, key), PATH_LIST_SEPARATOR);
    }
  }

  lemma BlankLines(a: seq<Entry>, b: seq<Entry>)
    requires AllBlank(a) && AllBlank(b) && Render(a) == Render(b)
    ensures Keys(a) == Keys(b)
  {
    hide ToUpper;
    assert |Render(a)| == |a| && |Render(b)| == |b|;
    forall i | 0 <= i < |a|
      ensures a[i].name == b[i].name
    {
      assert Render(a)[i] == Render(b)[i];
      assert a[i] in a && b[i] in b;
      assert a[i].Line()[..|a[i].Line()| - 1] == a[i].name && b[i].Line()[..|b[i].Line()| - 1] == b[i].name;
    }
  }

  lemma RebuiltBlank(machine: seq<Entry>, user: seq<Entry>)
    requires AllBlank(machine) && AllBlank(user) && HeadsSet(machine, user)
    ensures AllBlank(Slots(Compose([], machine, user), machine, user))
  {
    hide ToUpper, Keys, Slots, LastWrite, Find, Unique, FirstBy, PicksFirsts, FirstIndices, ValuesOf, UserWrite, Render,
         HeadsSet, Parse;
    var block := Slots([], machine, user);
    var again := Slots(Render(block), machine, user);
    BlankSlots(machine, user);
    ComposeMeaning(Render(block), machine, user, "");
    forall e | e in again
      ensures e.value == ""
    {
      var key := e.Key();
      var i :| 0 <= i < |again| && again[i] == e;
      FindAt(again, i);
      NothingNew(machine, user, e);
      RebuiltValue([], machine, user, key);
      var own := KeyOf(block, key);
      ComposeMeaning([], machine, user, key);
      var j :| 0 <= j < |block| && block[j] == own;
      FindAt(block, j);
    }
  }

  lemma NothingNew(machine: seq<Entry>, user: seq<Entry>, e: Entry)
    requires HeadsSet(machine, user) && e in Slots(Compose([], machine, user), machine, user)
    ensures e.Key() in Keys(Slots([], machine, user))
  {
    hide ToUpper, Keys, Slots, Parse, Render, HeadsSet, Head, Entry.Readable;
    var block, w := Slots([], machine, user), machine + user;
    var read := Parse(Render(block));
    KeyIn(Slots(Render(block), machine, user), e);
    SlotNames(Render(block), machine, user, e.Key());
    assert read + machine + user == read + w;
    KeysConcat(read, w);
    EmptyBase(machine, user, e.Key());
    if e.Key() !in Keys(w) {
      var x := KeyOf(read, e.Key());
      var from := ReadFrom(block, x);
      if from.Readable() {
        KeyIn(block, from);
      } else {
        InheritedReadable(Render(block));
        HeadIsName([], machine, user, from);
      }
    }
  }

  /** The same for the lines themselves: they stay, for every inherited block and whatever values
      the layers give to their names, exactly when the names meet the condition.  (For values of one's
      choice, two names may come to the same line, and then trade places unseen.) */
  lemma LinesExactly(machine: seq<Entry>, user: seq<Entry>)
    ensures (forall base, m, u :: SameNames(m, machine) && SameNames(u, user) ==> KeepsLines(base, m, u))
       <==> Rebuildable(machine, user)
  {
    hide ToUpper, Keys, Slots, Rebuildable, HeadsSet, KeepsLines, SameNames, AllBlank, Blanked;
    if Rebuildable(machine, user) {
      forall base, m, u | SameNames(m, machine) && SameNames(u, user)
        ensures KeepsLines(base, m, u)
      {
        SameNamesBack(m, machine);
        SameNamesBack(u, user);
        NamesRebuildable(m, u, machine, user);
        LinesKept(base, m, u);
      }
    }
    if forall base, m, u :: SameNames(m, machine) && SameNames(u, user) ==> KeepsLines(base, m, u) {
      var m, u := Blanked(machine), Blanked(user);
      BlankedNames(machine);
      BlankedNames(user);
      HeadsNeeded(m, u);
      BlankOrder(m, u);
      NamesRebuildable(machine, user, m, u);
    }
  }

  lemma SameNamesBack(a: seq<Entry>, b: seq<Entry>)
    requires SameNames(a, b)
    ensures SameNames(b, a)
  {
  }

  lemma BlankedNames(es: seq<Entry>)
    ensures SameNames(Blanked(es), es) && AllBlank(Blanked(es))
  {
  }

  lemma LinesKept(base: seq<string>, machine: seq<Entry>, user: seq<Entry>)
    requires Rebuildable(machine, user)
    ensures KeepsLines(base, machine, user)
  {
    hide Rebuildable, Compose;
    ComposeIdempotent(base, machine, user);
  }

  lemma BlankOrder(machine: seq<Entry>, user: seq<Entry>)
    requires AllBlank(machine) && AllBlank(user) && HeadsSet(machine, user) && KeepsLines([], machine, user)
    ensures Rebuildable(machine, user)
  {
    hide ToUpper, Keys, Slots, HeadsSet, AllBlank, Render, ReadableFirst;
    BlankSlots(machine, user);
    RebuiltBlank(machine, user);
    BlankLines(Slots([], machine, user), Slots(Compose([], machine, user), machine, user));
    OrderNeeded(machine, user);
  }

  /** Names that are not empty and hold no '=' meet the condition. */
  lemma ReadableRebuildable(machine: seq<Entry>, user: seq<Entry>)
    requires AllReadable(machine) && AllReadable(user)
    ensures Rebuildable(machine, user)
  {
    hide ToUpper, Keys, ReadableKey, Head;
    AllReadableByKey(machine + user);
    forall k | k in Keys(machine + user)
      ensures ReadableKey(k)
    {
      var e := KeyOf(machine + user, k);
    }
    forall e | e in machine + user
      ensures Head(e.Key()) == ""
    {
      LineReadBack(e);
      HeadFolds(e.name);
    }
  }
}
