/** `replaceEnv`: one variable of a finished block is set in place. */
module BlockEdit {
  import opened Text
  import opened PathMerge
  import opened EnvBlock
  import opened ComposeLaws

  /* ---------- the specification ---------- */

  /** A line defines `key` when, case aside, it starts with the key and '='. */
  predicate Matches(kv: string, key: string) {
    HasPrefix(ToUpper(kv), ToUpper(key) + "=")
  }

  function Line(key: string, value: string): string {
    Entry(key, value).Line()
  }

  function Without(env: seq<string>, key: string): seq<string> {
    if env == [] then []
    else (if Matches(env[0], key) then [] else [env[0]]) + Without(env[1..], key)
  }

  function Replace(env: seq<string>, key: string, value: string): seq<string> {
    if env == [] then [Line(key, value)]
    else if Matches(env[0], key) then [Line(key, value)] + Without(env[1..], key)
    else [env[0]] + Replace(env[1..], key, value)
  }

  lemma WithoutFront(x: string, rest: seq<string>, key: string)
    ensures Without([x] + rest, key) == if Matches(x, key) then Without(rest, key) else [x] + Without(rest, key)
  {
    hide Matches;
    assert ([x] + rest)[1..] == rest;
    assert [] + Without(rest, key) == Without(rest, key);
  }

  lemma ReplaceFront(x: string, rest: seq<string>, key: string, v: string)
    ensures Replace([x] + rest, key, v) ==
            if Matches(x, key) then [Line(key, v)] + Without(rest, key) else [x] + Replace(rest, key, v)
  {
    hide Matches;
    assert ([x] + rest)[1..] == rest;
  }

  lemma MatchesIs(kv: string, key: string)
    ensures Matches(kv, key) <==> HasPrefix(ToUpper(kv), ToUpper(key) + "=")
  {
  }

  lemma EditNothing(key: string, value: string)
    ensures Without([], key) == [] && Replace([], key, value) == [Line(key, value)]
  {
  }

  method ReplaceEnv(env: seq<string>, key: string, value: string) returns (out: seq<string>)
    ensures out == Replace(env, key, value)
  {
    hide Matches, Replace, Without, ToUpper;
    var prefix := ToUpper(key) + "=";
    out := [];
    var replaced := false;
    ghost var goal := Replace(env, key, value);
    EditNothing(key, value);
    for i := 0 to |env|
      invariant replaced ==> goal == out + Without(env[i..], key)
      invariant !replaced ==> goal == out + Replace(env[i..], key, value)
    {
      var kv := env[i];
      ghost var rest := env[i + 1..];
      assert env[i..] == [kv] + rest;
      MatchesIs(kv, key);
      WithoutFront(kv, rest, key);
      ReplaceFront(kv, rest, key, value);
      if HasPrefix(ToUpper(kv), prefix) {
        if !replaced {
          assert goal == out + [Line(key, value)] + Without(rest, key);
          out := out + [key + "=" + value];
          replaced := true;
        }
        continue;
      }
      assert replaced ==> goal == out + [kv] + Without(rest, key);
      assert !replaced ==> goal == out + [kv] + Replace(rest, key, value);
      out := out + [kv];
    }
    assert env[|env|..] == [];
    if !replaced {
      out := out + [key + "=" + value];
    }
  }

  /* ---------- what one edit does ---------- */

  /** The index of the first line that defines `key`, or the length of the block. */
  function FirstMatch(env: seq<string>, key: string): (p: nat)
    ensures p <= |env|
  {
    if env == [] || Matches(env[0], key) then 0 else 1 + FirstMatch(env[1..], key)
  }

  lemma LineMatches(key: string, value: string)
    ensures Matches(Line(key, value), key)
  {
    ToUpperConcat(key + "=", value);
    ToUpperConcat(key, "=");
    assert ToUpper("=") == "=";
  }

  lemma {:induction false} WithoutNone(env: seq<string>, key: string)
    ensures forall i :: 0 <= i < |Without(env, key)| ==> !Matches(Without(env, key)[i], key)
    ensures Without(Without(env, key), key) == Without(env, key)
  {
    hide Matches;
    if env != [] {
      var rest := Without(env[1..], key);
      WithoutNone(env[1..], key);
      if !Matches(env[0], key) {
        assert ([env[0]] + rest)[1..] == rest;
      } else {
        assert [] + rest == rest;
      }
    }
  }

  /** `out` has one line for the key, at `p`. */
  predicate OnlyMatch(out: seq<string>, key: string, p: nat) {
    p < |out| && forall i :: 0 <= i < |out| ==> (Matches(out[i], key) <==> i == p)
  }

  lemma OnlyMatchBehind(x: string, out: seq<string>, key: string, p: nat)
    requires !Matches(x, key) && OnlyMatch(out, key, p)
    ensures OnlyMatch([x] + out, key, p + 1)
  {
    hide Matches;
  }

  /** After an edit exactly one line defines the key: it stands where the first one stood, or at
      the end.  Everything before it is untouched, and every other variable keeps its order. */
  lemma {:induction false} ReplaceMeaning(env: seq<string>, key: string, value: string)
    ensures var out, p := Replace(env, key, value), FirstMatch(env, key);
            && OnlyMatch(out, key, p)
            && out[..p + 1] == env[..p] + [Line(key, value)]
            && (p < |env| ==> Matches(env[p], key))
            && Without(out, key) == Without(env, key)
  {
    hide Matches, Line, Replace, Without, OnlyMatch;
    LineMatches(key, value);
    var line := Line(key, value);
    if env == [] {
      EditNothing(key, value);
      WithoutFront(line, [], key);
      OnlyMatchHead(line, [], key);
      assert [line] + [] == [line];
    } else {
      var x, rest := env[0], env[1..];
      assert [x] + rest == env;
      ReplaceFront(x, rest, key, value);
      WithoutFront(x, rest, key);
      if Matches(x, key) {
        WithoutNone(rest, key);
        WithoutFront(line, Without(rest, key), key);
        OnlyMatchHead(line, Without(rest, key), key);
      } else {
        var out, p := Replace(rest, key, value), FirstMatch(rest, key);
        ReplaceMeaning(rest, key, value);
        OnlyMatchBound(out, key, p);
        OnlyMatchBehind(x, out, key, p);
        WithoutFront(x, out, key);
        assert ([x] + out)[..p + 2] == [x] + out[..p + 1];
        assert env[..p + 1] == [x] + rest[..p];
      }
    }
  }

  lemma OnlyMatchHead(line: string, rest: seq<string>, key: string)
    requires Matches(line, key) && forall i :: 0 <= i < |rest| ==> !Matches(rest[i], key)
    ensures OnlyMatch([line] + rest, key, 0)
  {
    hide Matches;
  }

  lemma OnlyMatchBound(out: seq<string>, key: string, p: nat)
    requires OnlyMatch(out, key, p)
    ensures p < |out|
  {
  }

  lemma MatchesFold(kv: string, key: string, key': string)
    requires EqualFold(key, key')
    ensures Matches(kv, key) == Matches(kv, key')
  {
  }

  lemma {:induction false} WithoutFold(env: seq<string>, key: string, key': string)
    requires EqualFold(key, key')
    ensures Without(env, key) == Without(env, key')
  {
    hide Matches, EqualFold;
    if env != [] {
      MatchesFold(env[0], key, key');
      WithoutFold(env[1..], key, key');
    }
  }

  /** Of two writes to one name, whatever the spelling, only the later is seen. */
  lemma {:induction false} LastEditWins(env: seq<string>, key: string, key': string, v: string, v': string)
    requires EqualFold(key, key')
    ensures Replace(Replace(env, key, v), key', v') == Replace(env, key', v')
  {
    hide Matches, EqualFold;
    LineMatches(key, v);
    MatchesFold(Line(key, v), key, key');
    var once := Replace(env, key, v);
    if env == [] {
      assert once[1..] == [];
    } else {
      MatchesFold(env[0], key, key');
      if Matches(env[0], key) {
        assert once[1..] == Without(env[1..], key);
        WithoutFold(env[1..], key, key');
        WithoutNone(env[1..], key');
      } else {
        assert once[1..] == Replace(env[1..], key, v);
        LastEditWins(env[1..], key, key', v, v');
      }
    }
  }

  /* ---------- two names ---------- */

  /** Names that can be told apart in a block: '='-free and different under folding. */
  predicate Apart(k1: string, k2: string) {
    '=' !in k1 && '=' !in k2 && !EqualFold(k1, k2)
  }

  /** Two upper-cased '='-free names that head the same line are one name. */
  lemma HeadsAgree(u: string, a: string, b: string)
    requires a + "=" <= u && b + "=" <= u && '=' !in a && '=' !in b
    ensures a == b
  {
    assert u[|a|] == (a + "=")[|a|] && u[|b|] == (b + "=")[|b|];
    assert forall i :: 0 <= i < |a| ==> u[i] == a[i] && a[i] in a;
    assert forall i :: 0 <= i < |b| ==> u[i] == b[i] && b[i] in b;
    assert |a| == |b|;
  }

  lemma HeadEndsAtMark(u: string, a: string)
    requires a + "=" <= u
    ensures |a| < |u| && u[|a|] == '=' && '=' in u
  {
    assert u[|a|] == (a + "=")[|a|];
  }

  lemma ApartLines(kv: string, k1: string, k2: string)
    requires Apart(k1, k2)
    ensures !(Matches(kv, k1) && Matches(kv, k2))
  {
    ToUpperKeepsMark(k1, '=');
    ToUpperKeepsMark(k2, '=');
    if Matches(kv, k1) && Matches(kv, k2) {
      HeadsAgree(ToUpper(kv), ToUpper(k1), ToUpper(k2));
    }
  }

  lemma ApartLine(k1: string, v1: string, k2: string)
    requires Apart(k1, k2)
    ensures !Matches(Line(k1, v1), k2)
  {
    hide Matches;
    LineMatches(k1, v1);
    ApartLines(Line(k1, v1), k1, k2);
  }

  predicate Defines(env: seq<string>, key: string) {
    exists i :: 0 <= i < |env| && Matches(env[i], key)
  }

  lemma DefinesFront(env: seq<string>, key: string)
    requires env != []
    ensures Defines(env, key) <==> Matches(env[0], key) || Defines(env[1..], key)
  {
    hide Matches;
    if Defines(env, key) {
      var i :| 0 <= i < |env| && Matches(env[i], key);
      if i > 0 {
        assert env[1..][i - 1] == env[i];
      }
    }
    if Defines(env[1..], key) {
      var i :| 0 <= i < |env[1..]| && Matches(env[1..][i], key);
      assert env[1..][i] == env[i + 1];
    }
  }

  lemma {:induction false} WithoutCommutes(env: seq<string>, k1: string, k2: string)
    ensures Without(Without(env, k1), k2) == Without(Without(env, k2), k1)
  {
    hide Matches;
    if env != [] {
      var x, rest := env[0], env[1..];
      WithoutCommutes(rest, k1, k2);
      WithoutFront(x, rest, k1);
      WithoutFront(x, rest, k2);
      WithoutFront(x, Without(rest, k1), k2);
      WithoutFront(x, Without(rest, k2), k1);
      assert [x] + rest == env;
    }
  }

  lemma {:induction false} WithoutReplace(env: seq<string>, k1: string, v1: string, k2: string)
    requires Apart(k1, k2)
    ensures Without(Replace(env, k1, v1), k2) == Replace(Without(env, k2), k1, v1)
  {
    hide Matches, Apart;
    ApartLine(k1, v1, k2);
    var line := Line(k1, v1);
    if env == [] {
      WithoutFront(line, [], k2);
      assert [line] + [] == [line];
    } else {
      var x, rest := env[0], env[1..];
      assert [x] + rest == env;
      ApartLines(x, k1, k2);
      WithoutReplace(rest, k1, v1, k2);
      WithoutCommutes(rest, k1, k2);
      ReplaceFront(x, rest, k1, v1);
      WithoutFront(x, rest, k2);
      WithoutFront(line, Without(rest, k1), k2);
      WithoutFront(x, Replace(rest, k1, v1), k2);
      ReplaceFront(x, Without(rest, k2), k1, v1);
    }
  }

  /** Writes to two different names commute, as lists, exactly when at least one of the names is
      already in the block; otherwise both are appended, and the order of the writes shows. */
  lemma {:induction false} EditsCommute(env: seq<string>, k1: string, v1: string, k2: string, v2: string)
    requires Apart(k1, k2)
    ensures Replace(Replace(env, k1, v1), k2, v2) == Replace(Replace(env, k2, v2), k1, v1)
       <==> Defines(env, k1) || Defines(env, k2)
  {
    hide Matches, Apart, Defines;
    var l1, l2 := Line(k1, v1), Line(k2, v2);
    ApartLine(k1, v1, k2);
    ApartIsSymmetric(k1, k2);
    ApartLine(k2, v2, k1);
    LineMatches(k1, v1);
    LineMatches(k2, v2);
    if env == [] {
      ReplaceFront(l1, [], k2, v2);
      ReplaceFront(l2, [], k1, v1);
      assert [l1] + [] == [l1] && [l2] + [] == [l2];
      assert ([l1] + [l2])[0] == l1 && ([l2] + [l1])[0] == l2;
      DefinesNothing(k1);
      DefinesNothing(k2);
    } else {
      var x, rest := env[0], env[1..];
      assert [x] + rest == env;
      ApartLines(x, k1, k2);
      DefinesFront(env, k1);
      DefinesFront(env, k2);
      ReplaceFront(x, rest, k1, v1);
      ReplaceFront(x, rest, k2, v2);
      if Matches(x, k1) {
        ReplaceFront(l1, Without(rest, k1), k2, v2);
        ReplaceFront(x, Replace(rest, k2, v2), k1, v1);
        WithoutReplace(rest, k2, v2, k1);
      } else if Matches(x, k2) {
        ReplaceFront(l2, Without(rest, k2), k1, v1);
        ReplaceFront(x, Replace(rest, k1, v1), k2, v2);
        WithoutReplace(rest, k1, v1, k2);
      } else {
        ReplaceFront(x, Replace(rest, k1, v1), k2, v2);
        ReplaceFront(x, Replace(rest, k2, v2), k1, v1);
        EditsCommute(rest, k1, v1, k2, v2);
        var a, b := Replace(Replace(rest, k1, v1), k2, v2), Replace(Replace(rest, k2, v2), k1, v1);
        assert ([x] + a)[1..] == a && ([x] + b)[1..] == b;
      }
    }
  }

  lemma ApartIsSymmetric(k1: string, k2: string)
    requires Apart(k1, k2)
    ensures Apart(k2, k1)
  {
  }

  lemma DefinesNothing(key: string)
    ensures !Defines([], key)
  {
  }

  /* ---------- a block as a table ---------- */

  lemma ParsedKey(kv: string, key: string)
    requires Entry(key, "").Readable()
    ensures Matches(kv, key) <==> ParseLine(kv).Some? && ParseLine(kv).value.Key() == ToUpper(key)
  {
    var u := ToUpper(kv);
    var i := IndexByte(kv, '=');
    ToUpperKeepsMark(key, '=');
    if i >= 0 {
      assert kv == kv[..i] + "=" + kv[i + 1..];
      LineMatches(kv[..i], kv[i + 1..]);
      ToUpperKeepsMark(kv[..i], '=');
      if Matches(kv, key) {
        HeadsAgree(u, ToUpper(kv[..i]), ToUpper(key));
      }
    } else {
      ToUpperKeepsMark(kv, '=');
      if Matches(kv, key) {
        HeadEndsAtMark(u, ToUpper(key));
      }
    }
  }

  /** The table does not see which lines of `key` were dropped once `key` is set again. */
  lemma {:induction false} WithoutTable(t: map<string, string>, env: seq<string>, key: string, v: string)
    requires Entry(key, "").Readable()
    ensures Apply(t, Parse(Without(env, key)))[ToUpper(key) := v] == Apply(t, Parse(env))[ToUpper(key) := v]
    decreases |env|
  {
    hide Matches, ParseLine, ToUpper, Parse, Apply, Without;
    if env == [] {
      EditNothing(key, v);
    } else {
      var x, rest := env[0], env[1..];
      var k := ToUpper(key);
      assert [x] + rest == env;
      WithoutFront(x, rest, key);
      ParsedKey(x, key);
      ParseFront(x, rest);
      ParseFront(x, Without(rest, key));
      match ParseLine(x) {
        case None =>
          WithoutTable(t, rest, key, v);
        case Some(e) =>
          ApplyFront(t, e, Parse(rest));
          ApplyFront(t, e, Parse(Without(rest, key)));
          WithoutTable(t[e.Key() := e.value], rest, key, v);
          if e.Key() == k {
            WithoutSet(t, rest, key, e.value);
            var all := Apply(t, Parse(Without(rest, key)));
            assert all[k := e.value][k := v] == all[k := v];
          }
      }
    }
  }

  /** Lines of other names can be applied before or after `key` is set. */
  lemma {:induction false} WithoutSet(t: map<string, string>, env: seq<string>, key: string, v: string)
    requires Entry(key, "").Readable()
    ensures Apply(t[ToUpper(key) := v], Parse(Without(env, key)))
         == Apply(t, Parse(Without(env, key)))[ToUpper(key) := v]
    decreases |env|
  {
    hide Matches, ParseLine, ToUpper, Parse, Apply, Without;
    if env == [] {
      EditNothing(key, v);
      ApplyNothing(t);
      ApplyNothing(t[ToUpper(key) := v]);
    } else {
      var x, rest := env[0], env[1..];
      var k := ToUpper(key);
      assert [x] + rest == env;
      WithoutFront(x, rest, key);
      ParsedKey(x, key);
      ParseFront(x, Without(rest, key));
      match ParseLine(x) {
        case None =>
          WithoutSet(t, rest, key, v);
        case Some(e) =>
          if e.Key() == k {
            WithoutSet(t, rest, key, v);
          } else {
            ApplyFront(t, e, Parse(Without(rest, key)));
            ApplyFront(t[k := v], e, Parse(Without(rest, key)));
            WithoutSet(t[e.Key() := e.value], rest, key, v);
            assert t[k := v][e.Key() := e.value] == t[e.Key() := e.value][k := v];
          }
      }
    }
  }

  lemma ParseFront(x: string, rest: seq<string>)
    ensures Parse([x] + rest) == if ParseLine(x).Some? then [ParseLine(x).value] + Parse(rest) else Parse(rest)
  {
    hide ParseLine;
    assert ([x] + rest)[1..] == rest;
    assert [] + Parse(rest) == Parse(rest);
  }

  lemma {:induction false} ReplaceApplied(t: map<string, string>, env: seq<string>, key: string, v: string)
    requires Entry(key, "").Readable()
    ensures Apply(t, Parse(Replace(env, key, v))) == Apply(t, Parse(env))[ToUpper(key) := v]
    decreases |env|
  {
    hide Matches, ParseLine, ToUpper, Parse, Apply, Without, Replace;
    var e := Entry(key, v);
    var k := ToUpper(key);
    ParseOfLine(e);
    if env == [] {
      EditNothing(key, v);
      ParseFront(Line(key, v), []);
      assert [Line(key, v)] + [] == [Line(key, v)];
      ApplyFront(t, e, []);
      ApplyNothing(t);
      ApplyNothing(t[k := v]);
    } else {
      var x, rest := env[0], env[1..];
      assert [x] + rest == env;
      ReplaceFront(x, rest, key, v);
      ParsedKey(x, key);
      ParseFront(x, rest);
      if Matches(x, key) {
        var x' := ParseLine(x).value;
        ParseFront(Line(key, v), Without(rest, key));
        ApplyFront(t, e, Parse(Without(rest, key)));
        ApplyFront(t, x', Parse(rest));
        WithoutSet(t, rest, key, v);
        WithoutSet(t, rest, key, x'.value);
        WithoutTable(t[k := x'.value], rest, key, v);
        var all := Apply(t, Parse(Without(rest, key)));
        assert all[k := x'.value][k := v] == all[k := v];
      } else {
        ParseFront(x, Replace(rest, key, v));
        match ParseLine(x) {
          case None =>
            ReplaceApplied(t, rest, key, v);
          case Some(y) =>
            ApplyFront(t, y, Parse(rest));
            ApplyFront(t, y, Parse(Replace(rest, key, v)));
            ReplaceApplied(t[y.Key() := y.value], rest, key, v);
        }
      }
    }
  }

  /** As a table, an edit is one map update; so edits of different names always commute there. */
  lemma ReplaceTable(env: seq<string>, key: string, v: string)
    requires Entry(key, "").Readable()
    ensures TableOf(Replace(env, key, v)) == TableOf(env)[ToUpper(key) := v]
  {
    ReplaceApplied(map[], env, key, v);
  }

  lemma EditsCommuteAsTables(env: seq<string>, k1: string, v1: string, k2: string, v2: string)
    requires Entry(k1, "").Readable() && Entry(k2, "").Readable() && Apart(k1, k2)
    ensures TableOf(Replace(Replace(env, k1, v1), k2, v2)) == TableOf(Replace(Replace(env, k2, v2), k1, v1))
  {
    hide TableOf, Replace, ToUpper;
    ReplaceTable(env, k1, v1);
    ReplaceTable(env, k2, v2);
    ReplaceTable(Replace(env, k1, v1), k2, v2);
    ReplaceTable(Replace(env, k2, v2), k1, v1);
  }

  /* ---------- editing a composed block ---------- */

  /** `e` is another variable, but its rendered line is taken for a definition of `key`; this
      needs a name with '=' in it. */
  predicate Shadows(e: Entry, key: string) {
    e.Key() != ToUpper(key) && HasPrefix(e.Key() + "=", ToUpper(key) + "=")
  }

  /** Whether a head "k=" fits on a line "n=..." is decided within "n=", when k is '='-free. */
  lemma HeadWithin(n: string, tail: string, k: string)
    requires '=' !in k
    ensures k + "=" <= n + "=" + tail <==> k + "=" <= n + "="
  {
    var line := n + "=" + tail;
    assert line[..|n| + 1] == n + "=";
    assert line[|n|] == '=';
    assert forall i :: 0 <= i < |k| ==> (k + "=")[i] == k[i] && k[i] in k;
  }

  lemma RenderedMatch(e: Entry, key: string)
    requires '=' !in key
    ensures Matches(e.Line(), key) <==> e.Key() == ToUpper(key) || Shadows(e, key)
    ensures '=' !in e.name ==> !Shadows(e, key)
  {
    ToUpperConcat(e.name + "=", e.value);
    ToUpperConcat(e.name, "=");
    assert ToUpper("=") == "=";
    ToUpperKeepsMark(key, '=');
    ToUpperKeepsMark(e.name, '=');
    hide ToUpper;
    HeadWithin(e.Key(), ToUpper(e.value), ToUpper(key));
    if '=' !in e.name && ToUpper(key) + "=" <= e.Key() + "=" {
      HeadsAgree(e.Key() + "=", e.Key(), ToUpper(key));
    }
  }

  predicate Clear(block: seq<Entry>, key: string) {
    forall e :: e in block ==> !Shadows(e, key)
  }

  function CountMatches(env: seq<string>, key: string): nat {
    if env == [] then 0 else (if Matches(env[0], key) then 1 else 0) + CountMatches(env[1..], key)
  }

  lemma {:induction false} ReplaceLength(env: seq<string>, key: string, v: string)
    ensures |Without(env, key)| == |env| - CountMatches(env, key)
    ensures |Replace(env, key, v)| == |env| - CountMatches(env, key) + 1
  {
    hide Matches;
    if env != [] {
      ReplaceLength(env[1..], key, v);
    }
  }

  lemma {:induction false} CountRendered(block: seq<Entry>, key: string)
    requires '=' !in key && Unique(block)
    ensures var own := if Find(block, ToUpper(key)).Some? then 1 else 0;
            && CountMatches(Render(block), key) >= own
            && (CountMatches(Render(block), key) == own <==> Clear(block, key))
    decreases |block|
  {
    hide Matches, Shadows, ToUpper;
    if block != [] {
      var x, rest := block[0], block[1..];
      CountRendered(rest, key);
      RenderedMatch(x, key);
      assert Render(block)[1..] == Render(rest);
      assert block == [x] + rest;
      assert Clear(block, key) <==> !Shadows(x, key) && Clear(rest, key);
      if x.Key() == ToUpper(key) {
        FindNone(rest, ToUpper(key));
        assert forall i :: 0 <= i < |rest| ==> rest[i] == block[i + 1];
        ShadowsOther(x, key);
      }
    }
  }

  lemma ShadowsOther(e: Entry, key: string)
    requires e.Key() == ToUpper(key)
    ensures !Shadows(e, key)
  {
  }

  lemma RenderFront(x: Entry, rest: seq<Entry>)
    ensures Render([x] + rest) == [x.Line()] + Render(rest)
  {
  }

  lemma UniqueFront(x: Entry, rest: seq<Entry>)
    requires Unique([x] + rest)
    ensures Unique(rest) && forall i :: 0 <= i < |rest| ==> rest[i].Key() != x.Key()
  {
    hide ToUpper;
    var block := [x] + rest;
    assert block[0] == x && forall i :: 0 <= i < |rest| ==> rest[i] == block[i + 1];
  }

  lemma ClearFront(x: Entry, rest: seq<Entry>, key: string)
    ensures Clear([x] + rest, key) <==> !Shadows(x, key) && Clear(rest, key)
  {
    hide Shadows;
    assert x in [x] + rest;
  }

  lemma PutFront(x: Entry, rest: seq<Entry>, e: Entry)
    ensures Put([x] + rest, e) == if x.Key() == e.Key() then [e] + rest else [x] + Put(rest, e)
  {
    hide ToUpper;
    assert ([x] + rest)[1..] == rest;
  }

  lemma {:induction false} ReplaceRendered(block: seq<Entry>, key: string, v: string)
    requires '=' !in key && Unique(block) && Clear(block, key)
    ensures Replace(Render(block), key, v) == Render(Put(block, Entry(key, v)))
    decreases |block|
  {
    hide Matches, Shadows, ToUpper, Clear, Unique, Render, Put, Replace, Without;
    var e := Entry(key, v);
    if block == [] {
      RenderNothing(e);
      EditNothing(key, v);
    } else {
      var x, rest := block[0], block[1..];
      assert block == [x] + rest;
      RenderedMatch(x, key);
      RenderFront(x, rest);
      ReplaceFront(x.Line(), Render(rest), key, v);
      UniqueFront(x, rest);
      ClearFront(x, rest, key);
      PutFront(x, rest, e);
      if x.Key() == ToUpper(key) {
        ReplaceNothing(rest, key);
        RenderFront(e, rest);
      } else {
        ReplaceRendered(rest, key, v);
        RenderFront(x, Put(rest, e));
      }
    }
  }

  lemma RenderNothing(e: Entry)
    ensures Render([]) == [] && Render(Put([], e)) == [e.Line()]
  {
  }

  lemma {:induction false} ReplaceNothing(block: seq<Entry>, key: string)
    requires '=' !in key && Clear(block, key)
    requires forall i :: 0 <= i < |block| ==> block[i].Key() != ToUpper(key)
    ensures Without(Render(block), key) == Render(block)
    decreases |block|
  {
    hide Matches, Shadows, ToUpper;
    if block != [] {
      var x, rest := block[0], block[1..];
      RenderedMatch(x, key);
      assert Render(block) == [x.Line()] + Render(rest);
      WithoutFront(x.Line(), Render(rest), key);
      ReplaceNothing(rest, key);
    }
  }

  lemma PutLength(block: seq<Entry>, e: Entry)
    ensures |Put(block, e)| == |block| + if Find(block, e.Key()).Some? then 0 else 1
  {
    hide ToUpper;
  }

  /** Whether a name shadows `key` depends on the folded name alone. */
  predicate KeyShadows(k: string, key: string) {
    k != ToUpper(key) && HasPrefix(k + "=", ToUpper(key) + "=")
  }

  lemma SlotsClear(base: seq<string>, machine: seq<Entry>, user: seq<Entry>, key: string)
    requires '=' !in key
    ensures Clear(Slots(base, machine, user), key) <==> Clear(machine, key) && Clear(user, key)
  {
    hide Parse, Slots, ToUpper;
    ParseReadable(base);
    forall e | e in Parse(base)
      ensures !KeyShadows(e.Key(), key)
    {
      RenderedMatch(e, key);
      assert e.Readable();
    }
    SlotsAll(base, machine, user, k => !KeyShadows(k, key));
    assert Clear(Slots(base, machine, user), key) <==>
           forall e :: e in Slots(base, machine, user) ==> !KeyShadows(e.Key(), key);
    assert (forall e :: e in machine + user ==> !KeyShadows(e.Key(), key)) <==> Clear(machine, key) && Clear(user, key);
  }

  /** Editing a composed block in place is recomposing it with one more user variable, exactly
      when no name set by a layer shadows the key, and, for PATH, merging the new value into the
      current one leaves the new value. */
  lemma EditIsRecompose(base: seq<string>, machine: seq<Entry>, user: seq<Entry>, key: string, v: string)
    requires '=' !in key
    ensures (Replace(Compose(base, machine, user), key, v) == Compose(base, machine, user + [Entry(key, v)]))
       <==> (&& Clear(machine, key) && Clear(user, key)
             && (ToUpper(key) == PATH_KEY ==>
                   Merge([ValueIn(Slots(base, machine, user), PATH_KEY), v], PATH_LIST_SEPARATOR) == v))
  {
    hide Matches, Shadows, ToUpper, Find, Put, Replace, Render, OverlayUser, Overlay, Parse, Merge,
         Clear, Unique, ValueIn;
    var block := Slots(base, machine, user);
    var e := Entry(key, v);
    var e' := Extended(block, e);
    var system := Overlay(Overlay([], Parse(base)), machine);
    SlotsUnique(base, machine, user);
    SlotsClear(base, machine, user, key);
    OverlayUserLast(system, user, e);
    assert Compose(base, machine, user + [e]) == Render(Put(block, e'));
    RenderLength(block);
    RenderLength(Put(block, e'));
    PutLength(block, e');
    CountRendered(block, key);
    ReplaceLength(Render(block), key, v);
    if Clear(block, key) {
      ReplaceRendered(block, key, v);
      RenderPutSame(block, e, e');
    }
  }

  lemma OverlayUserLast(block: seq<Entry>, layer: seq<Entry>, e: Entry)
    ensures OverlayUser(block, layer + [e]) == Put(OverlayUser(block, layer), Extended(OverlayUser(block, layer), e))
  {
    hide Put, Extended;
    OverlayUserConcat(block, layer, [e]);
    assert [e][1..] == [];
  }

  lemma RenderLength(block: seq<Entry>)
    ensures |Render(block)| == |block|
  {
  }

  lemma {:induction false} RenderPutSame(block: seq<Entry>, e: Entry, e': Entry)
    requires e.name == e'.name
    ensures Render(Put(block, e)) == Render(Put(block, e')) <==> e == e'
    decreases |block|
  {
    hide ToUpper;
    if block == [] {
      assert Render([e])[0] == e.Line() && Render([e'])[0] == e'.Line();
      assert e.Line()[|e.name| + 1..] == e.value && e'.Line()[|e.name| + 1..] == e'.value;
    } else if block[0].Key() == e.Key() {
      assert Render([e] + block[1..])[0] == e.Line() && Render([e'] + block[1..])[0] == e'.Line();
      assert e.Line()[|e.name| + 1..] == e.value && e'.Line()[|e.name| + 1..] == e'.value;
    } else {
      RenderPutSame(block[1..], e, e');
      var a, b := Put(block[1..], e), Put(block[1..], e');
      assert Render([block[0]] + a)[1..] == Render(a);
      assert Render([block[0]] + b)[1..] == Render(b);
    }
  }

  /** What the session handler relies on: patching TERM on the finished block is the same as
      having composed it in, exactly when no registry name starts with TERM and '='. */
  lemma PatchTerm(base: seq<string>, machine: seq<Entry>, user: seq<Entry>, term: string)
    ensures (Replace(Compose(base, machine, user), "TERM", term)
             == Compose(base, machine, user + [Entry("TERM", term)]))
       <==> forall e :: e in machine + user ==> !HasPrefix(e.Key(), "TERM=")
  {
    hide Compose, Replace, Slots, Merge, ValueIn;
    EditIsRecompose(base, machine, user, "TERM", term);
    assert ToUpper("TERM") == "TERM" && "TERM" + "=" == "TERM=";
    forall e | e in machine + user
      ensures Shadows(e, "TERM") <==> HasPrefix(e.Key(), "TERM=")
    {
      hide ToUpper;
      var k := e.Key();
      if |k| == 4 && "TERM=" <= k + "=" {
        assert k == "TERM=TERM="[..4];
      }
    }
  }
}
