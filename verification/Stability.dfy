/** When one pass of the scanner is a fixed point: the exact condition on the table. */
module Stability {
  import opened Text
  import opened Percent

  predicate Stable(s: string, table: Table) {
    Expand(Expand(s, table), table) == Expand(s, table)
  }

  /** A key that some reference resolves to. */
  predicate Reachable(key: string, table: Table) {
    key in table && key != "" && '%' !in key && ToUpper(key) == key
  }

  /** Every value that can be brought in pairs up its own percent signs, and expands to itself. */
  ghost predicate SettledTable(table: Table) {
    forall key :: Reachable(key, table) ==>
      Percents(table[key]) % 2 == 0 && Expand(table[key], table) == table[key]
  }

  /* ---------- settled tables are enough ---------- */

  lemma UpperTwice(s: string)
    ensures ToUpper(ToUpper(s)) == ToUpper(s)
    ensures s != "" ==> ToUpper(s) != ""
  {
  }

  lemma ReferenceReaches(name: string, table: Table)
    requires Reference(name).Proper() && ToUpper(name) in table
    ensures Reachable(ToUpper(name), table)
  {
    UpperTwice(name);
    ToUpperKeepsMark(name, '%');
  }

  lemma SourceExpands(t: Token, table: Table)
    requires t.Proper() && t.Value(table) == t.Source()
    ensures Expand(t.Source(), table) == t.Source()
  {
    hide Expand, ToUpper;
    assert t.Source() + "" == t.Source();
    ExpandStep(t.Source(), t, "", table);
    ExpandNothing(table);
  }

  /** What a token becomes expands to itself, and, unless it is a tail, pairs up its percent signs. */
  lemma ValueSettles(t: Token, table: Table)
    requires SettledTable(table) && t.Proper()
    ensures Expand(t.Value(table), table) == t.Value(table)
    ensures !t.Tail? ==> Percents(t.Value(table)) % 2 == 0
  {
    hide Expand, ToUpper, Percents;
    if t.Reference? && ToUpper(t.name) in table {
      ReferenceReaches(t.name, table);
    } else {
      SourceExpands(t, table);
      SourcePercents(t);
    }
  }

  lemma {:induction false} MeaningSettles(ts: seq<Token>, table: Table)
    requires SettledTable(table) && WellFormed(ts)
    ensures Expand(Meaning(ts, table), table) == Meaning(ts, table)
  {
    hide Expand, ToUpper, SettledTable, WellFormed, Meaning, Percents;
    if ts == [] {
      MeaningNothing(table);
      ExpandNothing(table);
    } else {
      var t, rest := ts[0], ts[1..];
      assert [t] + rest == ts;
      WellFormedFront(t, rest);
      MeaningFront(t, rest, table);
      ValueSettles(t, table);
      MeaningSettles(rest, table);
      if t.Tail? {
        MeaningNothing(table);
        assert t.Value(table) + "" == t.Value(table);
      } else {
        ExpandConcat(t.Value(table), Meaning(rest, table), table);
      }
    }
  }

  lemma MeaningNothing(table: Table)
    ensures Meaning([], table) == ""
  {
  }

  /* ---------- and needed ---------- */

  lemma ReachedExpands(key: string, table: Table)
    requires Reachable(key, table)
    ensures Expand("%" + key + "%", table) == table[key]
  {
    hide Expand, ToUpper;
    ExpandReference(key, table);
  }

  /** A string in which an odd value is followed by what looks like the name it came from. */
  function Probe(key: string): string {
    "%" + key + "%" + ("%%" + key + "%%")
  }

  lemma ProbeOnce(key: string, table: Table)
    requires Reachable(key, table)
    ensures Expand(Probe(key), table) == table[key] + ("%%" + key + "%%")
  {
    hide Expand, ToUpper, Percents;
    var tail := "%%" + key + "%%";
    ReachedExpands(key, table);
    SourcePercents(Reference(key));
    ExpandConcat("%" + key + "%", tail, table);
    PairedExpands(key, table);
  }

  lemma PairedExpands(key: string, table: Table)
    requires '%' !in key
    ensures Expand("%%" + key + "%%", table) == "%%" + key + "%%"
  {
    hide Expand;
    assert "%%" + key + "%%" == EmptyPair.Source() + (key + "%%");
    ExpandStep("%%" + key + "%%", EmptyPair, key + "%%", table);
    PercentsNone(key);
    ExpandConcat(key, "%%", table);
    ExpandPlain(key, table);
    SourceExpands(EmptyPair, table);
  }

  /** Behind an odd value "p%x" the percent signs pair up the other way. */
  lemma ProbeTwice(p: string, x: string, key: string, table: Table)
    requires Reachable(key, table) && Percents(p) % 2 == 0 && '%' !in x
    ensures Expand(p + "%" + x + ("%%" + key + "%%"), table)
         == Expand(p, table) + (Expand("%" + x + "%", table) + (table[key] + "%"))
  {
    hide Expand, ToUpper, Percents;
    var first, second := "%" + x + "%", "%" + key + "%";
    assert p + "%" + x + ("%%" + key + "%%") == p + (first + (second + "%"));
    ExpandConcat(p, first + (second + "%"), table);
    PairPercents(x);
    ExpandConcat(first, second + "%", table);
    PairPercents(key);
    ExpandConcat(second, "%", table);
    ReachedExpands(key, table);
    SourceExpands(Tail(""), table);
    assert "%" + "" == "%";
  }

  lemma PairPercents(x: string)
    requires '%' !in x
    ensures Percents("%" + x + "%") % 2 == 0
  {
    hide Percents;
    if x == "" {
      assert "%" + x + "%" == "%%";
      SourcePercents(EmptyPair);
    } else {
      SourcePercents(Reference(x));
    }
  }

  lemma OddValueFails(key: string, table: Table)
    requires Reachable(key, table) && Expand(table[key], table) == table[key]
    requires Percents(table[key]) % 2 == 1
    ensures !Stable(Probe(key), table)
  {
    hide Expand, ToUpper, Percents;
    var v := table[key];
    var p, x := OddTail(v);
    ProbeOnce(key, table);
    ProbeTwice(p, x, key, table);
    ExpandConcat(p, "%" + x, table);
    assert v == p + ("%" + x);
    SourceExpands(Tail(x), table);
    CancelTail(Expand(p, table), p, "%" + x);
    if Stable(Probe(key), table) {
      var second := Expand("%" + x + "%", table);
      assert p + (second + (v + "%")) == p + "%" + x + ("%%" + key + "%%");
      Cancel(p, second + (v + "%"), "%" + x + ("%%" + key + "%%"));
      assert "%" + x + ("%%" + key + "%%") == "%" + x + "%" + ("%" + key + "%") + "%";
      assert second + (v + "%") == (second + v) + "%";
      CancelTail(second + v, "%" + x + "%" + ("%" + key + "%"), "%");
      assert second + v == second + (p + "%") + x;
      assert "%" + x + "%" + ("%" + key + "%") == "%" + x + "%" + ("%" + key) + "%";
      EndsInMark(second + (p + "%"), x, "%" + x + "%" + ("%" + key));
      assert "%" + x + "%" == "%%";
      SourceExpands(EmptyPair, table);
      Cancel("%%", v, "%" + key + "%");
      PairPercents(key);
    }
  }

  lemma Cancel(a: string, b: string, c: string)
    requires a + b == a + c
    ensures b == c
  {
    assert (a + b)[|a|..] == b && (a + c)[|a|..] == c;
  }

  lemma CancelTail(a: string, b: string, c: string)
    requires a + c == b + c
    ensures a == b
  {
    assert (a + c)[..|a|] == a && (b + c)[..|b|] == b;
  }

  lemma LastIn(a: string, x: string)
    requires x != ""
    ensures (a + x)[|a + x| - 1] in x
  {
    assert (a + x)[|a + x| - 1] == x[|x| - 1];
  }

  /** A value ending in a percent-free `x`, put last, ends in a percent sign only if `x` is empty. */
  lemma EndsInMark(before: string, x: string, other: string)
    requires '%' !in x && before + x == other + "%"
    ensures x == ""
  {
    assert (before + x)[|before + x| - 1] == '%';
    if x != "" {
      LastIn(before, x);
    }
  }

  /** One pass is a fixed point for every string if and only if the table is settled: each value a
      reference can bring in holds an even number of percent signs and expands to itself. */
  lemma StableExactly(table: Table)
    ensures (forall s :: Stable(s, table)) <==> SettledTable(table)
  {
    hide Expand, Percents, ToUpper;
    if SettledTable(table) {
      forall s
        ensures Stable(s, table)
      {
        StableWhenSettled(s, table);
      }
    } else {
      var key :| Reachable(key, table)
        && !(Percents(table[key]) % 2 == 0 && Expand(table[key], table) == table[key]);
      ReachedExpands(key, table);
      if Expand(table[key], table) == table[key] {
        OddValueFails(key, table);
      } else {
        assert !Stable("%" + key + "%", table);
      }
    }
  }

  lemma StableWhenSettled(s: string, table: Table)
    requires SettledTable(table)
    ensures Stable(s, table)
  {
    hide Tokenize, Meaning, SettledTable;
    PrintTokenize(s);
    MeaningSettles(Tokenize(s), table);
  }
}
