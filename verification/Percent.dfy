/** `%NAME%` references: the token grammar, the single-pass scanner and its laws. */
module Percent {
  import opened Text
  import opened EnvBlock

  type Table = map<string, string>

  /* ---------- the table the scanner reads ---------- */

  /** The variables known so far, under their folded names. */
  class EnvLookup {
    var table: Table

    constructor (base: seq<string>)
      ensures table == TableOf(base)
    {
      table := map[];
      new;
      hide ToUpper, Parse, Apply;
      TableNothing(base);
      for n := 0 to |base|
        invariant table == TableOf(base[..n])
      {
        var kv := base[n];
        var i := IndexByte(kv, '=');
        TableStep(base, n);
        if i > 0 {
          table := table[ToUpper(kv[..i]) := kv[i + 1..]];
        }
      }
      assert base[..|base|] == base;
    }

    method Get(name: string) returns (value: string, ok: bool)
      ensures ok <==> ToUpper(name) in table
      ensures value == if ok then table[ToUpper(name)] else ""
    {
      var key := ToUpper(name);
      ok := key in table;
      value := if ok then table[key] else "";
    }

    method Set(name: string, value: string)
      modifies this
      ensures table == old(table)[ToUpper(name) := value]
    {
      table := table[ToUpper(name) := value];
    }
  }

  lemma TableNothing(base: seq<string>)
    ensures TableOf(base[..0]) == map[]
  {
  }

  lemma TableStep(base: seq<string>, n: nat)
    requires n < |base|
    ensures TableOf(base[..n + 1]) ==
            match ParseLine(base[n])
            case Some(e) => TableOf(base[..n])[e.Key() := e.value]
            case None => TableOf(base[..n])
  {
    hide ToUpper, ParseLine;
    var before := Parse(base[..n]);
    ParseStep(base, n);
    match ParseLine(base[n]) {
      case Some(e) =>
        ApplyConcat(map[], before, [e]);
        assert [e][1..] == [];
      case None =>
        assert before + [] == before;
    }
  }

  /* ---------- the token grammar ---------- */

  datatype Token =
    | Literal(c: char)        // any character but '%'
    | Reference(name: string) // %name%
    | EmptyPair               // %%
    | Tail(text: string)      // a '%' that is never closed, and everything after it
  {
    function Source(): string {
      match this
      case Literal(c) => [c]
      case Reference(name) => "%" + name + "%"
      case EmptyPair => "%%"
      case Tail(text) => "%" + text
    }

    predicate Proper() {
      match this
      case Literal(c) => c != '%'
      case Reference(name) => name != "" && '%' !in name
      case EmptyPair => true
      case Tail(text) => '%' !in text
    }

    /** What the token becomes: a known name its value, everything else itself. */
    function Value(table: Table): string {
      if Reference? && ToUpper(name) in table then table[ToUpper(name)] else Source()
    }
  }

  function FirstToken(s: string): (t: Token)
    requires s != ""
    ensures t.Proper() && 0 < |t.Source()| && t.Source() <= s
    ensures t.Tail? ==> t.Source() == s
  {
    if s[0] != '%' then Literal(s[0])
    else
      var rest := s[1..];
      var end := IndexByte(rest, '%');
      assert s == "%" + rest && (end >= 0 ==> rest == rest[..end] + "%" + rest[end + 1..]);
      if end < 0 then Tail(rest) else if end == 0 then EmptyPair else Reference(rest[..end])
  }

  function Tokenize(s: string): seq<Token>
    decreases |s|
  {
    if s == "" then []
    else
      var t := FirstToken(s);
      [t] + Tokenize(s[|t.Source()|..])
  }

  function Print(ts: seq<Token>): string {
    if ts == [] then "" else ts[0].Source() + Print(ts[1..])
  }

  function Meaning(ts: seq<Token>, table: Table): string {
    if ts == [] then "" else ts[0].Value(table) + Meaning(ts[1..], table)
  }

  function Expand(s: string, table: Table): string {
    Meaning(Tokenize(s), table)
  }

  /** Every token is proper, and only the last one may be an unterminated tail. */
  predicate WellFormed(ts: seq<Token>) {
    forall i :: 0 <= i < |ts| ==> ts[i].Proper() && (ts[i].Tail? ==> i == |ts| - 1)
  }

  lemma WellFormedFront(t: Token, ts: seq<Token>)
    ensures WellFormed([t] + ts) <==> t.Proper() && (t.Tail? ==> ts == []) && WellFormed(ts)
  {
    var all := [t] + ts;
    if WellFormed(all) {
      assert all[0] == t;
      assert forall i :: 0 <= i < |ts| ==> all[i + 1] == ts[i];
    }
  }

  /** Printing undoes tokenizing. */
  lemma {:induction false} PrintTokenize(s: string)
    ensures Print(Tokenize(s)) == s && WellFormed(Tokenize(s))
    decreases |s|
  {
    hide FirstToken;
    if s != "" {
      var t := FirstToken(s);
      var rest := s[|t.Source()|..];
      PrintTokenize(rest);
      WellFormedFront(t, Tokenize(rest));
      PrintFront(t, Tokenize(rest));
    }
  }

  lemma PrintFront(t: Token, ts: seq<Token>)
    ensures Print([t] + ts) == t.Source() + Print(ts)
  {
    assert ([t] + ts)[1..] == ts;
  }

  lemma MeaningFront(t: Token, ts: seq<Token>, table: Table)
    ensures Meaning([t] + ts, table) == t.Value(table) + Meaning(ts, table)
  {
    assert ([t] + ts)[1..] == ts;
  }

  /** The first token is recognised whatever follows. */
  lemma TokenizeFront(t: Token, rest: string)
    requires t.Proper() && (t.Tail? ==> rest == "")
    ensures Tokenize(t.Source() + rest) == [t] + Tokenize(rest)
  {
    var s := t.Source() + rest;
    FirstTokenIs(t, rest);
    assert s[|t.Source()|..] == rest;
  }

  lemma FirstTokenIs(t: Token, rest: string)
    requires t.Proper() && (t.Tail? ==> rest == "")
    ensures t.Source() + rest != "" && FirstToken(t.Source() + rest) == t
  {
    match t {
      case Literal(c) =>
      case Reference(name) =>
        FirstReference(name, rest);
      case EmptyPair =>
        FirstEmptyPair(rest);
      case Tail(text) =>
        assert t.Source() + rest == "%" + text && ("%" + text)[1..] == text;
    }
  }

  lemma FirstReference(name: string, rest: string)
    requires name != "" && '%' !in name
    ensures FirstToken("%" + name + "%" + rest) == Reference(name)
  {
    var s := "%" + name + "%" + rest;
    var after := name + "%" + rest;
    assert s[1..] == after;
    assert after[..|name|] == name;
    IndexByteIs(after, '%', |name|);
  }

  lemma FirstEmptyPair(rest: string)
    ensures FirstToken("%%" + rest) == EmptyPair
  {
    var s := "%%" + rest;
    assert s[1..] == "%" + rest;
    IndexByteIs("%" + rest, '%', 0);
  }

  /** Tokenizing undoes printing: the grammar is unambiguous. */
  lemma {:induction false} TokenizePrint(ts: seq<Token>)
    requires WellFormed(ts)
    ensures Tokenize(Print(ts)) == ts
  {
    if ts != [] {
      assert [ts[0]] + ts[1..] == ts;
      WellFormedFront(ts[0], ts[1..]);
      TokenizePrint(ts[1..]);
      TokenizeFront(ts[0], Print(ts[1..]));
    }
  }

  /* ---------- the scanner ---------- */

  /** One step of the scanner: the expansion of a suffix in terms of a shorter one. */
  lemma ExpandStep(s: string, t: Token, rest: string, table: Table)
    requires t.Proper() && (t.Tail? ==> rest == "") && s == t.Source() + rest
    ensures Expand(s, table) == t.Value(table) + Expand(rest, table)
  {
    TokenizeFront(t, rest);
    MeaningFront(t, Tokenize(rest), table);
  }

  /** The scanner at `i` sees token `t`, which ends at `n`. */
  lemma ScanStep(s: string, i: nat, t: Token, n: nat, r: string, table: Table)
    requires i <= n <= |s| && t.Proper() && (t.Tail? ==> n == |s|)
    requires s[i..n] == t.Source()
    ensures r + Expand(s[i..], table) == r + t.Value(table) + Expand(s[n..], table)
  {
    hide Expand, Token.Source, Token.Value, Token.Proper;
    assert s[i..] == s[i..n] + s[n..];
    ExpandStep(s[i..], t, s[n..], table);
    assert r + (t.Value(table) + Expand(s[n..], table)) == r + t.Value(table) + Expand(s[n..], table);
  }

  lemma ScanLiteral(s: string, i: nat, r: string, table: Table)
    requires i < |s| && s[i] != '%'
    ensures r + Expand(s[i..], table) == r + [s[i]] + Expand(s[i + 1..], table)
  {
    hide Expand;
    ScanStep(s, i, Literal(s[i]), i + 1, r, table);
  }

  lemma ScanTail(s: string, i: nat, r: string, table: Table)
    requires i < |s| && s[i] == '%' && '%' !in s[i + 1..]
    ensures r + Expand(s[i..], table) == r + s[i..]
  {
    hide Expand;
    assert s[i..|s|] == s[i..] == "%" + s[i + 1..];
    ScanStep(s, i, Tail(s[i + 1..]), |s|, r, table);
    assert s[|s|..] == "";
    ExpandNothing(table);
  }

  /** A closed reference: an empty pair and an unknown name stay, a known name becomes its value. */
  lemma ScanReference(s: string, i: nat, end: nat, r: string, table: Table)
    requires i + end + 1 < |s| && s[i] == s[i + end + 1] == '%' && '%' !in s[i + 1..][..end]
    ensures var name := s[i + 1..][..end];
            r + Expand(s[i..], table) ==
            r + (if name != "" && ToUpper(name) in table then table[ToUpper(name)] else s[i..i + 2 + end])
              + Expand(s[i + 2 + end..], table)
  {
    hide Expand, ToUpper;
    var name := s[i + 1..][..end];
    assert s[i..i + 2 + end] == "%" + name + "%";
    if name == "" {
      assert "%" + name + "%" == "%%";
      ScanStep(s, i, EmptyPair, i + 2, r, table);
    } else {
      ScanStep(s, i, Reference(name), i + 2 + end, r, table);
    }
  }

  method ExpandPercent(s: string, lookup: EnvLookup) returns (r: string)
    ensures r == Expand(s, lookup.table)
  {
    hide Expand, ToUpper, IndexByte;
    ghost var table := lookup.table;
    if '%' !in s {
      ExpandPlain(s, table);
      return s;
    }
    r := "";
    var i := 0;
    assert s[0..] == s;
    ExpandNothing(table);
    while i < |s|
      invariant 0 <= i <= |s|
      invariant Expand(s, table) == r + Expand(s[i..], table)
    {
      if s[i] != '%' {
        ScanLiteral(s, i, r, table);
        r := r + [s[i]];
        i := i + 1;
        continue;
      }
      var rest := s[i + 1..];
      var end := IndexByte(rest, '%');
      if end < 0 {
        ScanTail(s, i, r, table);
        r := r + s[i..];
        break;
      }
      ScanReference(s, i, end, r, table);
      var name := rest[..end];
      if name == "" {
        r := r + s[i..i + 2];
        i := i + 2;
        continue;
      }
      var value, ok := lookup.Get(name);
      if ok {
        r := r + value;
      } else {
        r := r + s[i..i + 2 + end];
      }
      i := i + end + 2;
    }
    assert i == |s| ==> s[i..] == "" && r + "" == r;
  }

  lemma ExpandNothing(table: Table)
    ensures Expand("", table) == ""
  {
  }

  lemma {:induction false} ExpandPlain(s: string, table: Table)
    requires '%' !in s
    ensures Expand(s, table) == s
  {
    if s != "" {
      assert s == [s[0]] + s[1..];
      ExpandPlain(s[1..], table);
      MeaningFront(Literal(s[0]), Tokenize(s[1..]), table);
    }
  }

  /* ---------- what an expansion depends on ---------- */

  /** The names, folded, that `s` refers to. */
  function References(s: string): set<string> {
    set t | t in Tokenize(s) && t.Reference? :: ToUpper(t.name)
  }

  predicate AgreeAt(t1: Table, t2: Table, key: string) {
    (key in t1 <==> key in t2) && (key in t1 && key in t2 ==> t1[key] == t2[key])
  }

  lemma {:induction false} MeaningAgrees(ts: seq<Token>, t1: Table, t2: Table)
    requires forall t :: t in ts && t.Reference? ==> AgreeAt(t1, t2, ToUpper(t.name))
    ensures Meaning(ts, t1) == Meaning(ts, t2)
  {
    hide ToUpper;
    if ts != [] {
      assert ts[0] in ts;
      MeaningAgrees(ts[1..], t1, t2);
    }
  }

  /** The result depends only on what the table says about the names referred to. */
  lemma ExpandDependsOnReferences(s: string, t1: Table, t2: Table)
    requires forall key :: key in References(s) ==> AgreeAt(t1, t2, key)
    ensures Expand(s, t1) == Expand(s, t2)
  {
    hide ToUpper, Tokenize, Meaning;
    forall t | t in Tokenize(s) && t.Reference?
      ensures AgreeAt(t1, t2, ToUpper(t.name))
    {
      assert ToUpper(t.name) in References(s);
    }
    MeaningAgrees(Tokenize(s), t1, t2);
  }

  lemma {:induction false} MeaningUnresolved(ts: seq<Token>, table: Table)
    requires forall t :: t in ts && t.Reference? ==> ToUpper(t.name) !in table
    ensures Meaning(ts, table) == Print(ts)
  {
    hide ToUpper;
    if ts != [] {
      assert ts[0] in ts;
      MeaningUnresolved(ts[1..], table);
    }
  }

  /** With nothing to resolve, every string is left exactly as it is. */
  lemma ExpandUnresolved(s: string, table: Table)
    requires References(s) !! table.Keys
    ensures Expand(s, table) == s
  {
    hide ToUpper, Tokenize, Meaning;
    forall t | t in Tokenize(s) && t.Reference?
      ensures ToUpper(t.name) !in table
    {
      assert ToUpper(t.name) in References(s);
    }
    MeaningUnresolved(Tokenize(s), table);
    PrintTokenize(s);
  }

  /* ---------- parity ---------- */

  function Percents(s: string): nat {
    if s == "" then 0 else (if s[0] == '%' then 1 else 0) + Percents(s[1..])
  }

  lemma {:induction false} PercentsConcat(a: string, b: string)
    ensures Percents(a + b) == Percents(a) + Percents(b)
  {
    if a == "" {
      assert a + b == b;
    } else {
      assert (a + b)[1..] == a[1..] + b;
      PercentsConcat(a[1..], b);
    }
  }

  lemma {:induction false} PercentsNone(s: string)
    requires '%' !in s
    ensures Percents(s) == 0
  {
    if s != "" {
      assert s == [s[0]] + s[1..];
      PercentsNone(s[1..]);
    }
  }

  /** Every token but a tail takes up an even number of percent signs. */
  lemma SourcePercents(t: Token)
    requires t.Proper()
    ensures Percents(t.Source()) % 2 == if t.Tail? then 1 else 0
  {
    match t {
      case Literal(c) =>
        PercentsNone([c]);
      case Reference(name) =>
        PercentsNone(name);
        PercentsConcat("%" + name, "%");
        PercentsConcat("%", name);
        assert Percents("%") == 1;
      case EmptyPair =>
        PercentsConcat("%", "%");
        assert "%" + "%" == "%%";
      case Tail(text) =>
        PercentsNone(text);
        PercentsConcat("%", text);
        assert Percents("%") == 1;
    }
  }

  predicate NoTail(ts: seq<Token>) {
    forall t :: t in ts ==> t.Proper() && !t.Tail?
  }

  lemma NoTailFront(t: Token, rest: seq<Token>)
    requires t.Proper()
    ensures NoTail([t] + rest) <==> !t.Tail? && NoTail(rest)
  {
    assert t in [t] + rest;
  }

  lemma {:induction false} EvenHasNoTail(ts: seq<Token>)
    requires WellFormed(ts)
    ensures NoTail(ts) <==> Percents(Print(ts)) % 2 == 0
  {
    hide Percents, WellFormed, Token.Proper, Token.Source, NoTail;
    if ts == [] {
      PercentsNone("");
      NoTailNothing();
    } else {
      var t, rest := ts[0], ts[1..];
      assert [t] + rest == ts;
      WellFormedFront(t, rest);
      EvenHasNoTail(rest);
      PrintFront(t, rest);
      SourcePercents(t);
      PercentsConcat(t.Source(), Print(rest));
      NoTailFront(t, rest);
      if t.Tail? {
        PercentsNone("");
      }
    }
  }

  lemma NoTailNothing()
    ensures NoTail([])
  {
  }

  lemma {:induction false} TokenizeAfter(ts: seq<Token>, b: string)
    requires NoTail(ts)
    ensures Tokenize(Print(ts) + b) == ts + Tokenize(b)
  {
    hide Tokenize, Token.Source, Token.Proper;
    if ts == [] {
      assert Print(ts) + b == b;
      assert ts + Tokenize(b) == Tokenize(b);
    } else {
      var t, rest := ts[0], ts[1..];
      assert [t] + rest == ts;
      assert t in ts;
      TokenizeAfter(rest, b);
      PrintFront(t, rest);
      assert Print(ts) + b == t.Source() + (Print(rest) + b);
      TokenizeFront(t, Print(rest) + b);
      assert ts + Tokenize(b) == [t] + (rest + Tokenize(b));
    }
  }

  lemma {:induction false} MeaningConcat(a: seq<Token>, b: seq<Token>, table: Table)
    ensures Meaning(a + b, table) == Meaning(a, table) + Meaning(b, table)
  {
    if a == [] {
      assert a + b == b;
    } else {
      assert (a + b)[1..] == a[1..] + b;
      MeaningConcat(a[1..], b, table);
    }
  }

  /** After an even number of percent signs the scanner starts afresh. */
  lemma ExpandConcat(a: string, b: string, table: Table)
    requires Percents(a) % 2 == 0
    ensures Expand(a + b, table) == Expand(a, table) + Expand(b, table)
  {
    hide Tokenize, Meaning;
    PrintTokenize(a);
    EvenHasNoTail(Tokenize(a));
    TokenizeAfter(Tokenize(a), b);
    MeaningConcat(Tokenize(a), Tokenize(b), table);
  }

  lemma {:induction false} OddTail(a: string) returns (p: string, x: string)
    requires Percents(a) % 2 == 1
    ensures a == p + "%" + x && Percents(p) % 2 == 0 && '%' !in x
  {
    assert a != "";
    var front, last := a[..|a| - 1], a[|a| - 1];
    assert a == front + [last];
    PercentsConcat(front, [last]);
    assert Percents([last]) == if last == '%' then 1 else 0;
    if last == '%' {
      p, x := front, "";
      assert a == p + "%" + x;
    } else {
      p, x := OddTail(front);
      x := x + [last];
    }
  }

  predicate ExpandsApart(a: string, b: string, table: Table) {
    Expand(a + b, table) == Expand(a, table) + Expand(b, table)
  }

  /** Parity is the exact condition: `a` can be expanded on its own, whatever follows and
      whatever the table, if and only if it holds an even number of percent signs. */
  lemma ParityDecides(a: string)
    ensures Percents(a) % 2 == 0 <==> forall b, table :: ExpandsApart(a, b, table)
  {
    hide Expand, ToUpper, Percents;
    if Percents(a) % 2 == 0 {
      forall b, table
        ensures ExpandsApart(a, b, table)
      {
        ExpandConcat(a, b, table);
      }
    } else {
      var p, x := OddTail(a);
      var table: Table := map[ToUpper(x + "n") := ""];
      ExpandConcat(p, "%" + x + "n%", table);
      assert a + "n%" == p + ("%" + x + "n%");
      ExpandStep("%" + x + "n%", Reference(x + "n"), "", table);
      ExpandNothing(table);
      ExpandConcat(p, "%" + x, table);
      assert a == p + ("%" + x);
      ExpandStep("%" + x, Tail(x), "", table);
      assert !ExpandsApart(a, "n%", table);
    }
  }

  /* ---------- expanding twice ---------- */

  function Literals(s: string): seq<Token> {
    seq(|s|, i requires 0 <= i < |s| => Literal(s[i]))
  }

  /** The tokens after expansion: a resolved reference turns into plain characters. */
  function Resolved(ts: seq<Token>, table: Table): seq<Token> {
    if ts == [] then []
    else if ts[0].Reference? && ToUpper(ts[0].name) in table
    then Literals(ts[0].Value(table)) + Resolved(ts[1..], table)
    else [ts[0]] + Resolved(ts[1..], table)
  }

  lemma {:induction false} PrintLiterals(s: string, ts: seq<Token>)
    ensures Print(Literals(s) + ts) == s + Print(ts)
    ensures '%' !in s && WellFormed(ts) ==> WellFormed(Literals(s) + ts)
  {
    hide Literals, Print, WellFormed;
    if s == "" {
      LiteralsNil(ts);
      assert s + Print(ts) == Print(ts);
    } else {
      var rest := Literals(s[1..]) + ts;
      LiteralsFront(s, ts);
      assert s == [s[0]] + s[1..];
      PrintLiterals(s[1..], ts);
      PrintFront(Literal(s[0]), rest);
      WellFormedFront(Literal(s[0]), rest);
      assert [s[0]] + (s[1..] + Print(ts)) == s + Print(ts);
    }
  }

  lemma LiteralsNil(ts: seq<Token>)
    ensures Literals("") + ts == ts
  {
  }

  lemma LiteralsFront(s: string, ts: seq<Token>)
    requires s != ""
    ensures Literals(s) + ts == [Literal(s[0])] + (Literals(s[1..]) + ts)
  {
  }

  /** The values that `ts` would bring in hold no percent sign. */
  predicate BringsPlain(ts: seq<Token>, table: Table) {
    forall t :: t in ts && t.Reference? && ToUpper(t.name) in table ==> '%' !in table[ToUpper(t.name)]
  }

  lemma {:induction false} ResolvedPrints(ts: seq<Token>, table: Table)
    requires WellFormed(ts) && BringsPlain(ts, table)
    ensures Print(Resolved(ts, table)) == Meaning(ts, table)
    ensures WellFormed(Resolved(ts, table))
    ensures forall t :: t in Resolved(ts, table) && t.Reference? ==> ToUpper(t.name) !in table
  {
    hide ToUpper;
    if ts != [] {
      var t, rest := ts[0], ts[1..];
      assert [t] + rest == ts;
      WellFormedFront(t, rest);
      ResolvedPrints(rest, table);
      if t.Reference? && ToUpper(t.name) in table {
        PrintLiterals(t.Value(table), Resolved(rest, table));
      } else {
        PrintFront(t, Resolved(rest, table));
        assert rest == [] ==> Resolved(rest, table) == [];
        WellFormedFront(t, Resolved(rest, table));
      }
    }
  }

  /** Where the values brought in are plain, one pass is a fixed point: unresolved references,
      empty pairs and an unterminated tail pair up again exactly as before. */
  lemma ExpandIdempotent(s: string, table: Table)
    requires BringsPlain(Tokenize(s), table)
    ensures Expand(Expand(s, table), table) == Expand(s, table)
    ensures Tokenize(Expand(s, table)) == Resolved(Tokenize(s), table)
  {
    hide ToUpper, Tokenize, Meaning, BringsPlain, Resolved, WellFormed;
    var ts := Tokenize(s);
    PrintTokenize(s);
    ResolvedPrints(ts, table);
    TokenizePrint(Resolved(ts, table));
    MeaningUnresolved(Resolved(ts, table), table);
  }

  /** The scanner is single-pass: a reference that a value brings in stays as it is, and only a
      second expansion would resolve it. */
  lemma ExpandIsSinglePass(a: string, b: string, table: Table)
    requires Reference(a).Proper() && Reference(b).Proper() && ToUpper(a) in table && ToUpper(b) in table
    requires table[ToUpper(a)] == "%" + b + "%"
    ensures Expand("%" + a + "%", table) == "%" + b + "%"
    ensures Expand(Expand("%" + a + "%", table), table) == table[ToUpper(b)]
  {
    hide ToUpper, Expand;
    ExpandReference(a, table);
    ExpandReference(b, table);
  }

  lemma ExpandReference(name: string, table: Table)
    requires name != "" && '%' !in name && ToUpper(name) in table
    ensures Expand("%" + name + "%", table) == table[ToUpper(name)]
  {
    hide ToUpper, Expand;
    var t := Reference(name);
    assert t.Source() + "" == "%" + name + "%";
    ExpandStep("%" + name + "%", t, "", table);
    ExpandNothing(table);
  }

  /* ---------- full expansion ---------- */

  /** Every percent sign of `s` belongs to a reference to a name in `known`. */
  predicate Complete(s: string, known: set<string>) {
    forall t :: t in Tokenize(s) ==> t.Literal? || (t.Reference? && ToUpper(t.name) in known)
  }

  lemma {:induction false} MeaningPlain(ts: seq<Token>, table: Table)
    requires WellFormed(ts) && BringsPlain(ts, table)
    ensures '%' !in Meaning(ts, table)
       <==> forall t :: t in ts ==> t.Literal? || (t.Reference? && ToUpper(t.name) in table)
  {
    hide ToUpper;
    if ts != [] {
      var t, rest := ts[0], ts[1..];
      assert [t] + rest == ts;
      WellFormedFront(t, rest);
      MeaningPlain(rest, table);
      assert t in ts && t.Proper();
      assert '%' in Meaning(ts, table) <==> '%' in t.Value(table) || '%' in Meaning(rest, table);
      assert !t.Literal? ==> t.Source()[0] == '%';
      assert (forall x :: x in ts ==> x.Literal? || (x.Reference? && ToUpper(x.name) in table))
        <==> (t.Literal? || (t.Reference? && ToUpper(t.name) in table))
             && forall x :: x in rest ==> x.Literal? || (x.Reference? && ToUpper(x.name) in table);
    }
  }

  /** With plain values to bring in, an expansion is free of percent signs exactly when every
      percent sign was part of a resolvable reference. */
  lemma ExpandPlainExactly(s: string, table: Table)
    requires BringsPlain(Tokenize(s), table)
    ensures '%' !in Expand(s, table) <==> Complete(s, table.Keys)
  {
    hide ToUpper, Tokenize, Meaning, WellFormed;
    PrintTokenize(s);
    MeaningPlain(Tokenize(s), table);
  }
}
