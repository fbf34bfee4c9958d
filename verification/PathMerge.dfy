/** `mergePath`: PATH fragments are split, trimmed, de-duplicated and rejoined. */
module PathMerge {
  import opened Text

  /* ---------- first occurrences ---------- */

  /** The elements of `s` whose key is neither in `seen` nor the key of an earlier element. */
  function FirstBy<T, K(==)>(s: seq<T>, key: T -> K, seen: set<K>): seq<T> {
    if s == [] then []
    else if key(s[0]) in seen then FirstBy(s[1..], key, seen)
    else [s[0]] + FirstBy(s[1..], key, seen + {key(s[0])})
  }

  function KeysBy<T, K(==)>(s: seq<T>, key: T -> K): set<K> {
    set i | 0 <= i < |s| :: key(s[i])
  }

  lemma KeysByConcat<T, K>(a: seq<T>, b: seq<T>, key: T -> K)
    ensures KeysBy(a + b, key) == KeysBy(a, key) + KeysBy(b, key)
  {
    var c := a + b;
    forall k | k in KeysBy(a, key)
      ensures k in KeysBy(c, key)
    {
      var i :| 0 <= i < |a| && k == key(a[i]);
      assert key(c[i]) == k;
    }
    forall k | k in KeysBy(b, key)
      ensures k in KeysBy(c, key)
    {
      var i :| 0 <= i < |b| && k == key(b[i]);
      assert key(c[|a| + i]) == k;
    }
  }

  lemma {:induction false} FirstByConcat<T, K>(a: seq<T>, b: seq<T>, key: T -> K, seen: set<K>)
    ensures FirstBy(a + b, key, seen) == FirstBy(a, key, seen) + FirstBy(b, key, seen + KeysBy(a, key))
  {
    if a == [] {
      assert a + b == b;
      assert seen + KeysBy(a, key) == seen;
    } else {
      assert (a + b)[1..] == a[1..] + b;
      assert a == [a[0]] + a[1..];
      KeysByConcat([a[0]], a[1..], key);
      assert KeysBy([a[0]], key) == {key(a[0])};
      if key(a[0]) in seen {
        FirstByConcat(a[1..], b, key, seen);
        assert seen + KeysBy(a, key) == seen + KeysBy(a[1..], key);
      } else {
        FirstByConcat(a[1..], b, key, seen + {key(a[0])});
        assert seen + KeysBy(a, key) == seen + {key(a[0])} + KeysBy(a[1..], key);
      }
    }
  }

  lemma {:induction false} FirstByTwice<T, K>(a: seq<T>, key: T -> K, s: set<K>, t: set<K>)
    ensures FirstBy(FirstBy(a, key, s), key, t) == FirstBy(a, key, s + t)
  {
    if a != [] {
      var k := key(a[0]);
      if k in s {
        FirstByTwice(a[1..], key, s, t);
      } else {
        var rest := FirstBy(a[1..], key, s + {k});
        assert ([a[0]] + rest)[1..] == rest;
        if k in t {
          FirstByTwice(a[1..], key, s + {k}, t);
          assert s + {k} + t == s + t;
        } else {
          FirstByTwice(a[1..], key, s + {k}, t + {k});
          assert s + {k} + (t + {k}) == s + t + {k};
        }
      }
    }
  }

  lemma {:induction false} FirstByKeys<T, K>(a: seq<T>, key: T -> K, seen: set<K>)
    ensures KeysBy(FirstBy(a, key, seen), key) == KeysBy(a, key) - seen
  {
    if a != [] {
      var k := key(a[0]);
      assert a == [a[0]] + a[1..];
      KeysByConcat([a[0]], a[1..], key);
      assert KeysBy([a[0]], key) == {k};
      if k in seen {
        FirstByKeys(a[1..], key, seen);
      } else {
        FirstByKeys(a[1..], key, seen + {k});
        KeysByConcat([a[0]], FirstBy(a[1..], key, seen + {k}), key);
      }
    }
  }

  /** Index `i` of `s` is the first one carrying its key, and that key is not in `seen`. */
  ghost predicate IsFirst<T, K>(s: seq<T>, key: T -> K, seen: set<K>, i: int)
    requires 0 <= i < |s|
  {
    key(s[i]) !in seen && forall j :: 0 <= j < i ==> key(s[j]) != key(s[i])
  }

  /** `out` is `s` at the indices `idx`: increasing, and exactly the first occurrences. */
  ghost predicate PicksFirsts<T, K>(s: seq<T>, key: T -> K, seen: set<K>, out: seq<T>, idx: seq<nat>) {
    && |idx| == |out|
    && (forall k :: 0 <= k < |idx| ==> idx[k] < |s| && out[k] == s[idx[k]])
    && (forall j, k :: 0 <= j < k < |idx| ==> idx[j] < idx[k])
    && (forall i: nat :: i < |s| ==> (i in idx <==> IsFirst(s, key, seen, i)))
  }

  lemma IsFirstStep<T, K>(s: seq<T>, key: T -> K, seen: set<K>, i: nat)
    requires i < |s|
    ensures i == 0 ==> (IsFirst(s, key, seen, i) <==> key(s[0]) !in seen)
    ensures i > 0 ==>
              (IsFirst(s, key, seen, i)
          <==> IsFirst(s[1..], key, if key(s[0]) in seen then seen else seen + {key(s[0])}, i - 1))
  {
    var t := s[1..];
    assert forall j :: 0 <= j < i - 1 ==> t[j] == s[j + 1];
    assert forall j :: 0 < j < i ==> s[j] == t[j - 1];
  }

  function Shifted(idx: seq<nat>): seq<nat> {
    seq(|idx|, k requires 0 <= k < |idx| => idx[k] + 1)
  }

  lemma ShiftedHas(idx: seq<nat>, i: nat)
    ensures i in Shifted(idx) <==> i > 0 && i - 1 in idx
  {
    if i > 0 && i - 1 in idx {
      var k :| 0 <= k < |idx| && idx[k] == i - 1;
      assert Shifted(idx)[k] == i;
    }
  }

  function FirstIndices<T, K(==)>(s: seq<T>, key: T -> K, seen: set<K>): seq<nat> {
    if s == [] then []
    else if key(s[0]) in seen then Shifted(FirstIndices(s[1..], key, seen))
    else [0] + Shifted(FirstIndices(s[1..], key, seen + {key(s[0])}))
  }

  lemma {:induction false} FirstIndicesSelect<T, K>(s: seq<T>, key: T -> K, seen: set<K>)
    ensures var idx, out := FirstIndices(s, key, seen), FirstBy(s, key, seen);
            && |idx| == |out|
            && (forall k :: 0 <= k < |idx| ==> idx[k] < |s| && out[k] == s[idx[k]])
            && (forall j, k :: 0 <= j < k < |idx| ==> idx[j] < idx[k])
  {
    if s != [] {
      FirstIndicesSelect(s[1..], key, if key(s[0]) in seen then seen else seen + {key(s[0])});
    }
  }

  lemma {:induction false} FirstIndicesHas<T, K>(s: seq<T>, key: T -> K, seen: set<K>, i: nat)
    requires i < |s|
    ensures i in FirstIndices(s, key, seen) <==> IsFirst(s, key, seen, i)
  {
    hide IsFirst, Shifted;
    IsFirstStep(s, key, seen, i);
    var seen' := if key(s[0]) in seen then seen else seen + {key(s[0])};
    ShiftedHas(FirstIndices(s[1..], key, seen'), i);
    if i > 0 {
      FirstIndicesHas(s[1..], key, seen', i - 1);
    }
  }

  lemma FirstByPicksFirsts<T, K>(s: seq<T>, key: T -> K, seen: set<K>)
    ensures PicksFirsts(s, key, seen, FirstBy(s, key, seen), FirstIndices(s, key, seen))
  {
    hide IsFirst, FirstBy, FirstIndices;
    FirstIndicesSelect(s, key, seen);
    forall i: nat | i < |s| {
      FirstIndicesHas(s, key, seen, i);
    }
  }

  /** De-duplicating a middle run first changes nothing. */
  lemma FirstByNested<T, K>(b: seq<T>, i: seq<T>, a: seq<T>, key: T -> K)
    ensures FirstBy(b + FirstBy(i, key, {}) + a, key, {}) == FirstBy(b + i + a, key, {})
  {
    hide FirstBy, KeysBy;
    var d := FirstBy(i, key, {});
    var kb := {} + KeysBy(b, key);
    FirstByConcat(b + d, a, key, {});
    FirstByConcat(b, d, key, {});
    FirstByConcat(b + i, a, key, {});
    FirstByConcat(b, i, key, {});
    FirstByTwice(i, key, {}, kb);
    assert {} + kb == kb;
    FirstByKeys(i, key, {});
    KeysByConcat(b, d, key);
    KeysByConcat(b, i, key);
    assert KeysBy(b + d, key) == KeysBy(b + i, key);
  }

  lemma FirstByAbsorbs<T, K>(f: seq<T>, m: seq<T>, key: T -> K)
    ensures FirstBy(f + m, key, {}) == FirstBy(f, key, {}) <==> KeysBy(m, key) <= KeysBy(f, key)
  {
    hide FirstBy;
    var kf := {} + KeysBy(f, key);
    var extra := FirstBy(m, key, kf);
    FirstByConcat(f, m, key, {});
    FirstByKeys(m, key, kf);
    assert extra == [] <==> KeysBy(extra, key) == {} by {
      if extra != [] {
        assert key(extra[0]) in KeysBy(extra, key);
      }
    }
  }

  /* ---------- PATH entries ---------- */

  function Kept(part: string): seq<string> {
    var p := TrimSpace(part);
    if p == "" then [] else [p]
  }

  /** The non-empty trimmed parts, in order. */
  function Clean(parts: seq<string>): seq<string> {
    if parts == [] then [] else Kept(parts[0]) + Clean(parts[1..])
  }

  lemma CleanFront(p: string, rest: seq<string>)
    ensures Clean([p] + rest) == Kept(p) + Clean(rest)
  {
    hide Kept;
    assert ([p] + rest)[1..] == rest;
  }

  lemma {:induction false} CleanConcat(a: seq<string>, b: seq<string>)
    ensures Clean(a + b) == Clean(a) + Clean(b)
  {
    hide Kept;
    if a == [] {
      assert a + b == b;
    } else {
      assert (a + b)[1..] == a[1..] + b;
      CleanConcat(a[1..], b);
    }
  }

  function Entries(fragment: string, sep: char): seq<string> {
    Clean(Split(fragment, sep))
  }

  /** The entries of all fragments, in order. */
  function Gather(fragments: seq<string>, sep: char): seq<string> {
    if fragments == [] then [] else Entries(fragments[0], sep) + Gather(fragments[1..], sep)
  }

  lemma {:induction false} GatherConcat(a: seq<string>, b: seq<string>, sep: char)
    ensures Gather(a + b, sep) == Gather(a, sep) + Gather(b, sep)
  {
    hide Entries;
    if a == [] {
      assert a + b == b;
    } else {
      assert (a + b)[1..] == a[1..] + b;
      GatherConcat(a[1..], b, sep);
    }
  }

  /** What a PATH entry looks like once merged: not empty, trimmed, and free of the separator. */
  predicate CleanEntry(e: string, sep: char) {
    e != "" && Trimmed(e) && sep !in e
  }

  lemma {:induction false} CleanIsClean(parts: seq<string>, sep: char)
    requires forall p :: p in parts ==> sep !in p
    ensures forall e :: e in Clean(parts) ==> CleanEntry(e, sep)
  {
    if parts != [] {
      CleanIsClean(parts[1..], sep);
    }
  }

  lemma {:induction false} CleanKeepsClean(parts: seq<string>, sep: char)
    requires forall p :: p in parts ==> CleanEntry(p, sep)
    ensures Clean(parts) == parts
  {
    if parts != [] {
      assert CleanEntry(parts[0], sep);
      CleanKeepsClean(parts[1..], sep);
    }
  }

  lemma GatherOne(f: string, sep: char)
    ensures Gather([f], sep) == Entries(f, sep)
  {
    hide Entries;
    assert [f][1..] == [];
  }

  lemma GatherAround(a: seq<string>, b: seq<string>, c: seq<string>, sep: char)
    ensures Gather(a + b + c, sep) == Gather(a, sep) + Gather(b, sep) + Gather(c, sep)
  {
    hide Gather;
    GatherConcat(a + b, c, sep);
    GatherConcat(a, b, sep);
  }

  lemma {:induction false} GatherIsClean(fragments: seq<string>, sep: char)
    ensures forall e :: e in Gather(fragments, sep) ==> CleanEntry(e, sep)
  {
    if fragments != [] {
      CleanIsClean(Split(fragments[0], sep), sep);
      GatherIsClean(fragments[1..], sep);
    }
  }

  /** Reading back a joined list of clean entries gives the list. */
  lemma EntriesOfJoin(entries: seq<string>, sep: char)
    requires forall e :: e in entries ==> CleanEntry(e, sep)
    ensures Entries(Join(entries, sep), sep) == entries
  {
    if entries == [] {
      EntriesNothing(sep);
    } else {
      hide Split, Clean, Join;
      SplitJoin(entries, sep);
      CleanKeepsClean(entries, sep);
    }
  }

  lemma EntriesNothing(sep: char)
    ensures Entries("", sep) == []
  {
    assert Split("", sep) == [""];
    CleanFront("", []);
    assert [""] + [] == [""];
  }

  /* ---------- the specification of mergePath ---------- */

  function Distinct(entries: seq<string>): seq<string> {
    FirstBy(entries, ToLower, {})
  }

  function Folded(entries: seq<string>): set<string> {
    KeysBy(entries, ToLower)
  }

  function Merge(fragments: seq<string>, sep: char): string {
    Join(Distinct(Gather(fragments, sep)), sep)
  }

  lemma FirstByFrom<T, K>(a: seq<T>, key: T -> K, seen: set<K>)
    ensures forall x :: x in FirstBy(a, key, seen) ==> x in a
  {
  }

  /** The merged PATH read back: exactly the distinct entries. */
  lemma EntriesOfMerge(fragments: seq<string>, sep: char)
    ensures Entries(Merge(fragments, sep), sep) == Distinct(Gather(fragments, sep))
  {
    GatherIsClean(fragments, sep);
    FirstByFrom(Gather(fragments, sep), ToLower, {});
    EntriesOfJoin(Distinct(Gather(fragments, sep)), sep);
  }

  /** The merged PATH holds, in order, the first spelling of every input entry and nothing
      else; no entry is empty, padded or repeated under folding. */
  lemma MergeMeaning(fragments: seq<string>, sep: char)
    ensures var given := Gather(fragments, sep);
            var kept := Entries(Merge(fragments, sep), sep);
            && PicksFirsts(given, ToLower, {}, kept, FirstIndices(given, ToLower, {}))
            && Join(kept, sep) == Merge(fragments, sep)
            && Folded(kept) == Folded(given)
            && (forall e :: e in kept ==> CleanEntry(e, sep))
            && (forall i, j :: 0 <= i < j < |kept| ==> ToLower(kept[i]) != ToLower(kept[j]))
  {
    hide Gather, Entries, FirstBy, KeysBy, Join, FirstIndices;
    var given := Gather(fragments, sep);
    EntriesOfMerge(fragments, sep);
    FirstByPicksFirsts(given, ToLower, {});
    var idx := FirstIndices(given, ToLower, {});
    FirstByKeys(given, ToLower, {});
    GatherIsClean(fragments, sep);
    FirstByFrom(given, ToLower, {});
    var kept := Distinct(given);
    forall i, j | 0 <= i < j < |kept|
      ensures ToLower(kept[i]) != ToLower(kept[j])
    {
      assert idx[j] in idx;
      assert IsFirst(given, ToLower, {}, idx[j]);
      assert idx[i] < idx[j];
    }
  }

  lemma {:induction false} CleanHas(parts: seq<string>, p: string)
    requires p in parts && TrimSpace(p) != ""
    ensures TrimSpace(p) in Clean(parts)
  {
    if p != parts[0] {
      CleanHas(parts[1..], p);
    }
  }

  lemma {:induction false} CleanFrom(parts: seq<string>, e: string) returns (p: string)
    requires e in Clean(parts)
    ensures p in parts && e == TrimSpace(p) && e != ""
  {
    if e in Kept(parts[0]) {
      p := parts[0];
    } else {
      p := CleanFrom(parts[1..], e);
    }
  }

  lemma {:induction false} GatherHas(fragments: seq<string>, sep: char, f: string, e: string)
    requires f in fragments && e in Entries(f, sep)
    ensures e in Gather(fragments, sep)
  {
    if f != fragments[0] {
      GatherHas(fragments[1..], sep, f, e);
    }
  }

  lemma {:induction false} GatherFrom(fragments: seq<string>, sep: char, e: string) returns (f: string)
    requires e in Gather(fragments, sep)
    ensures f in fragments && e in Entries(f, sep)
  {
    if e in Entries(fragments[0], sep) {
      f := fragments[0];
    } else {
      f := GatherFrom(fragments[1..], sep, e);
    }
  }

  /** A merged PATH with anything in it is its distinct entries, joined. */
  lemma SplitMerged(fragments: seq<string>, sep: char)
    requires Distinct(Gather(fragments, sep)) != []
    ensures Split(Merge(fragments, sep), sep) == Distinct(Gather(fragments, sep))
  {
    hide FirstBy, Gather, Split, Join;
    GatherIsClean(fragments, sep);
    FirstByFrom(Gather(fragments, sep), ToLower, {});
    SplitJoin(Distinct(Gather(fragments, sep)), sep);
  }

  /** Every part of a fragment that is not all white space is in the merged PATH: without the
      white space around it, and in the case of its first occurrence. */
  lemma MergeKeeps(fragments: seq<string>, sep: char, f: string, l: string, x: string, r: string)
    requires f in fragments && l + x + r in Split(f, sep)
    requires AllSpace(l) && AllSpace(r) && Trimmed(x) && x != ""
    ensures exists e :: e in Split(Merge(fragments, sep), sep) && SameButCase(e, x)
  {
    hide FirstBy, Gather, Split, Merge, Clean, AllSpace, SameButCase, ToLower;
    var given := Gather(fragments, sep);
    TrimIs(l, x, r);
    CleanHas(Split(f, sep), l + x + r);
    GatherHas(fragments, sep, f, x);
    var i :| 0 <= i < |given| && given[i] == x;
    assert ToLower(given[i]) in KeysBy(given, ToLower);
    FirstByKeys(given, ToLower, {});
    var kept := Distinct(given);
    assert ToLower(x) in KeysBy(kept, ToLower);
    var j :| 0 <= j < |kept| && ToLower(kept[j]) == ToLower(x);
    SplitMerged(fragments, sep);
    FoldingIsCase(kept[j], x);
    assert kept[j] in Split(Merge(fragments, sep), sep);
  }

  /** And there is nothing else in it, nor anything twice. */
  lemma MergeAddsNothing(fragments: seq<string>, sep: char, i: nat)
    returns (f: string, l: string, r: string)
    requires Merge(fragments, sep) != "" && i < |Split(Merge(fragments, sep), sep)|
    ensures var parts := Split(Merge(fragments, sep), sep);
            && f in fragments && l + parts[i] + r in Split(f, sep) && AllSpace(l) && AllSpace(r)
            && parts[i] != "" && Trimmed(parts[i])
            && forall j :: 0 <= j < |parts| && j != i ==> !SameButCase(parts[i], parts[j])
  {
    hide FirstBy, Gather, Split, Clean, AllSpace, SameButCase, ToLower, PicksFirsts;
    var given := Gather(fragments, sep);
    SplitMerged(fragments, sep);
    var parts := Distinct(given);
    FirstByFrom(given, ToLower, {});
    assert parts[i] in parts;
    f := GatherFrom(fragments, sep, parts[i]);
    var p := CleanFrom(Split(f, sep), parts[i]);
    l, r := TrimTakesSpace(p);
    MergeMeaning(fragments, sep);
    EntriesOfMerge(fragments, sep);
    forall j | 0 <= j < |parts| && j != i
      ensures !SameButCase(parts[i], parts[j])
    {
      FoldingIsCase(parts[i], parts[j]);
    }
  }

  /** Merging part of the fragments first changes nothing: every bracketing gives the same PATH. */
  lemma MergeNested(before: seq<string>, inner: seq<string>, after: seq<string>, sep: char)
    ensures Merge(before + [Merge(inner, sep)] + after, sep) == Merge(before + inner + after, sep)
  {
    hide Entries, FirstBy, Join, Gather;
    var m := Merge(inner, sep);
    EntriesOfMerge(inner, sep);
    GatherOne(m, sep);
    GatherAround(before, [m], after, sep);
    GatherAround(before, inner, after, sep);
    FirstByNested(Gather(before, sep), Gather(inner, sep), Gather(after, sep), ToLower);
  }

  /** A fragment may be cut at a separator into two fragments. */
  lemma MergePreJoined(before: seq<string>, x: string, y: string, after: seq<string>, sep: char)
    ensures Merge(before + [x + [sep] + y] + after, sep) == Merge(before + [x, y] + after, sep)
  {
    hide FirstBy, Join, Clean, Split, Gather;
    SplitConcat(x, sep, y);
    CleanConcat(Split(x, sep), Split(y, sep));
    GatherOne(x + [sep] + y, sep);
    GatherOne(x, sep);
    GatherOne(y, sep);
    GatherConcat([x], [y], sep);
    assert [x] + [y] == [x, y];
    GatherAround(before, [x + [sep] + y], after, sep);
    GatherAround(before, [x, y], after, sep);
  }

  /** Further fragments leave a merged PATH alone exactly when they name no new entry. */
  lemma MergeAbsorbs(fragments: seq<string>, more: seq<string>, sep: char)
    ensures Merge(fragments + more, sep) == Merge(fragments, sep)
       <==> Folded(Gather(more, sep)) <= Folded(Gather(fragments, sep))
  {
    hide FirstBy, KeysBy, Join, Entries, Gather;
    GatherConcat(fragments, more, sep);
    EntriesOfMerge(fragments, sep);
    EntriesOfMerge(fragments + more, sep);
    FirstByAbsorbs(Gather(fragments, sep), Gather(more, sep), ToLower);
  }

  /** The laws for two and three fragments, as the callers use them. */
  lemma MergeLaws(a: string, b: string, c: string, sep: char)
    ensures Merge([Merge([a, b], sep), c], sep) == Merge([a, b, c], sep)
    ensures Merge([a, Merge([b, c], sep)], sep) == Merge([a, b, c], sep)
    ensures Merge([a + [sep] + b + [sep] + c], sep) == Merge([a, b, c], sep)
    ensures Merge([a, a + [sep] + b], sep) == Merge([a, b], sep)
  {
    hide Merge;
    MergeNested([], [a, b], [c], sep);
    assert [] + [a, b] + [c] == [a, b, c];
    assert [] + [Merge([a, b], sep)] + [c] == [Merge([a, b], sep), c];
    MergeNested([a], [b, c], [], sep);
    assert [a] + [b, c] + [] == [a, b, c];
    assert [a] + [Merge([b, c], sep)] + [] == [a, Merge([b, c], sep)];
    MergePreJoined([], a + [sep] + b, c, [], sep);
    MergePreJoined([], a, b, [c], sep);
    assert [] + [a + [sep] + b, c] + [] == [] + [a + [sep] + b] + [c];
    assert [] + [a, b] + [c] == [a, b, c];
    assert [] + [a + [sep] + b + [sep] + c] + [] == [a + [sep] + b + [sep] + c];
    MergeTwice(a, [a], [b], sep);
    MergePreJoined([a], a, b, [], sep);
    assert [a] + [a + [sep] + b] + [] == [a, a + [sep] + b];
    assert [a] + [a, b] + [] == [a] + [a] + [b];
    assert [a] + [b] == [a, b];
  }

  /** A repeated run of fragments counts once. */
  lemma MergeTwice(a: string, run: seq<string>, after: seq<string>, sep: char)
    ensures Merge(run + run + after, sep) == Merge(run + after, sep)
  {
    hide Merge, Gather;
    MergeAbsorbs(run, run, sep);
    MergeNested([], run + run, after, sep);
    MergeNested([], run, after, sep);
    assert [] + (run + run) + after == run + run + after;
    assert [] + run + after == run + after;
  }

  /* ---------- the loop ---------- */

  lemma CleanStep(parts: seq<string>, j: nat)
    requires j < |parts|
    ensures Clean(parts[..j + 1]) == Clean(parts[..j]) + Kept(parts[j])
  {
    hide Kept;
    assert parts[..j + 1] == parts[..j] + [parts[j]];
    CleanConcat(parts[..j], [parts[j]]);
    CleanFront(parts[j], []);
    assert [parts[j]] + [] == [parts[j]];
    assert Kept(parts[j]) + [] == Kept(parts[j]);
  }

  lemma GatherStep(fragments: seq<string>, i: nat, sep: char)
    requires i < |fragments|
    ensures Gather(fragments[..i + 1], sep) == Gather(fragments[..i], sep) + Clean(Split(fragments[i], sep))
  {
    assert fragments[..i + 1] == fragments[..i] + [fragments[i]];
    GatherConcat(fragments[..i], [fragments[i]], sep);
    GatherOne(fragments[i], sep);
  }

  lemma DistinctStep(soFar: seq<string>, part: string)
    ensures Distinct(soFar + [part]) == Distinct(soFar) + if ToLower(part) in Folded(soFar) then [] else [part]
    ensures Folded(soFar + [part]) == Folded(soFar) + {ToLower(part)}
  {
    FirstByConcat(soFar, [part], ToLower, {});
    KeysByConcat(soFar, [part], ToLower);
    assert KeysBy([part], ToLower) == {ToLower(part)};
    assert {} + Folded(soFar) == Folded(soFar);
  }

  method MergePath(fragments: seq<string>, sep: char) returns (merged: string)
    ensures merged == Merge(fragments, sep)
  {
    hide Distinct, Folded, Gather, Clean, Split;
    var out: seq<string> := [];
    var seen: set<string> := {};
    MergeNothing(fragments, sep);
    for i := 0 to |fragments|
      invariant out == Distinct(Gather(fragments[..i], sep))
      invariant seen == Folded(Gather(fragments[..i], sep))
    {
      var parts := Split(fragments[i], sep);
      ghost var before := Gather(fragments[..i], sep);
      CleanNothing(parts, before);
      for j := 0 to |parts|
        invariant out == Distinct(before + Clean(parts[..j]))
        invariant seen == Folded(before + Clean(parts[..j]))
      {
        var part := TrimSpace(parts[j]);
        CleanStep(parts, j);
        if part == "" {
          assert Clean(parts[..j]) + [] == Clean(parts[..j]);
          continue;
        }
        DistinctStep(before + Clean(parts[..j]), part);
        assert before + Clean(parts[..j + 1]) == before + Clean(parts[..j]) + [part];
        var key := ToLower(part);
        if key in seen {
          continue;
        }
        seen := seen + {key};
        out := out + [part];
      }
      assert parts[..|parts|] == parts;
      GatherStep(fragments, i, sep);
    }
    assert fragments[..|fragments|] == fragments;
    merged := Join(out, sep);
  }

  lemma MergeNothing(fragments: seq<string>, sep: char)
    ensures Distinct(Gather(fragments[..0], sep)) == [] && Folded(Gather(fragments[..0], sep)) == {}
  {
  }

  lemma CleanNothing(parts: seq<string>, before: seq<string>)
    ensures before + Clean(parts[..0]) == before
  {
  }
}
