/** The string operations of Go's standard library that the relay uses, over ASCII case
    folding and ASCII white space.  A string is a sequence of characters. */
module Text {
  datatype Option<+T> = None | Some(value: T) {
    function GetOr(default: T): T {
      if Some? then value else default
    }
  }

  datatype Result<+T> = Ok(value: T) | Err

  /* ---------- case folding ---------- */

  function UpperChar(c: char): char {
    if 'a' <= c <= 'z' then (c as int - 32) as char else c
  }

  function LowerChar(c: char): char {
    if 'A' <= c <= 'Z' then (c as int + 32) as char else c
  }

  function ToUpper(s: string): string {
    seq(|s|, i requires 0 <= i < |s| => UpperChar(s[i]))
  }

  function ToLower(s: string): string {
    seq(|s|, i requires 0 <= i < |s| => LowerChar(s[i]))
  }

  predicate EqualFold(a: string, b: string) {
    ToUpper(a) == ToUpper(b)
  }

  function Letter(first: char, k: nat): char
    requires first as int + k < 128
  {
    (first as int + k) as char
  }

  /** The same letter in its two cases. */
  predicate CasePair(c: char, d: char) {
    exists k :: 0 <= k < 26 && c == Letter('A', k) && d == Letter('a', k)
  }

  /** The strings are equal, or differ in the case of letters only. */
  predicate SameButCase(a: string, b: string) {
    && |a| == |b|
    && forall i :: 0 <= i < |a| ==> a[i] == b[i] || CasePair(a[i], b[i]) || CasePair(b[i], a[i])
  }

  lemma CasePairIs(c: char, d: char)
    ensures CasePair(c, d) <==> 'A' <= c <= 'Z' && d as int == c as int + 32
  {
    if 'A' <= c <= 'Z' && d as int == c as int + 32 {
      assert d == Letter('a', c as int - 'A' as int);
    }
  }

  lemma FoldsChar(c: char, d: char)
    ensures UpperChar(c) == UpperChar(d) <==> c == d || CasePair(c, d) || CasePair(d, c)
    ensures LowerChar(c) == LowerChar(d) <==> c == d || CasePair(c, d) || CasePair(d, c)
  {
    CasePairIs(c, d);
    CasePairIs(d, c);
  }

  /** Both foldings identify exactly the strings that differ in case only. */
  lemma FoldingIsCase(a: string, b: string)
    ensures EqualFold(a, b) <==> SameButCase(a, b)
    ensures ToLower(a) == ToLower(b) <==> SameButCase(a, b)
  {
    hide CasePair, UpperChar, LowerChar;
    forall i | 0 <= i < |a| && 0 <= i < |b|
      ensures ToUpper(a)[i] == ToUpper(b)[i] <==> a[i] == b[i] || CasePair(a[i], b[i]) || CasePair(b[i], a[i])
      ensures ToLower(a)[i] == ToLower(b)[i] <==> a[i] == b[i] || CasePair(a[i], b[i]) || CasePair(b[i], a[i])
    {
      FoldsChar(a[i], b[i]);
    }
    assert |ToUpper(a)| == |a| == |ToLower(a)| && |ToUpper(b)| == |b| == |ToLower(b)|;
    if SameButCase(a, b) {
      assert ToUpper(a) == ToUpper(b) && ToLower(a) == ToLower(b);
    }
  }

  lemma ToUpperConcat(a: string, b: string)
    ensures ToUpper(a + b) == ToUpper(a) + ToUpper(b)
  {
  }

  /** Folding neither creates nor removes a character that is not a letter. */
  lemma ToUpperKeepsMark(s: string, c: char)
    requires !('a' <= c <= 'z') && !('A' <= c <= 'Z')
    ensures c in ToUpper(s) <==> c in s
  {
    var u := ToUpper(s);
    if c in s {
      var i :| 0 <= i < |s| && s[i] == c;
      assert u[i] == c;
    }
  }

  /* ---------- searching ---------- */

  /** The first index of `c` in `s`, or -1. */
  function IndexByte(s: string, c: char): (i: int)
    ensures -1 <= i < |s|
    ensures i >= 0 ==> s[i] == c && c !in s[..i]
    ensures i < 0 ==> c !in s
  {
    if s == "" then -1
    else if s[0] == c then 0
    else
      var j := IndexByte(s[1..], c);
      assert s == [s[0]] + s[1..];
      if j < 0 then -1 else
        assert s[..j + 1] == [s[0]] + s[1..][..j];
        j + 1
  }

  lemma IndexByteIs(s: string, c: char, i: nat)
    requires i < |s| && s[i] == c && c !in s[..i]
    ensures IndexByte(s, c) == i
  {
    var j := IndexByte(s, c);
    assert forall k :: 0 <= k < i ==> s[..i][k] == s[k];
    assert forall k :: 0 <= k < j ==> s[..j][k] == s[k];
  }

  predicate HasPrefix(s: string, prefix: string) {
    prefix <= s
  }

  /* ---------- white space ---------- */

  predicate IsSpace(c: char) {
    c == ' ' || 9 as char <= c <= 13 as char
  }

  function TrimLeft(s: string): (r: string)
    ensures r == "" || !IsSpace(r[0])
    ensures |r| <= |s| && r == s[|s| - |r|..]
  {
    if s != "" && IsSpace(s[0]) then TrimLeft(s[1..]) else s
  }

  function TrimRight(s: string): (r: string)
    ensures r == "" || !IsSpace(r[|r| - 1])
    ensures r <= s
  {
    if s != "" && IsSpace(s[|s| - 1]) then TrimRight(s[..|s| - 1]) else s
  }

  function TrimSpace(s: string): (r: string)
    ensures Trimmed(r)
    ensures forall c :: c in r ==> c in s
    ensures Trimmed(s) ==> r == s
  {
    TrimRight(TrimLeft(s))
  }

  predicate Trimmed(s: string) {
    s == "" || (!IsSpace(s[0]) && !IsSpace(s[|s| - 1]))
  }

  predicate Blank(s: string) {
    TrimSpace(s) == ""
  }

  /** Nothing but white space: blanks, tabs, line ends, vertical tabs and form feeds. */
  predicate AllSpace(s: string) {
    forall i :: 0 <= i < |s| ==> s[i] in [' ', '\t', '\n', 11 as char, 12 as char, '\r']
  }

  lemma {:induction false} TrimLeftDrops(s: string)
    ensures AllSpace(s[..|s| - |TrimLeft(s)|])
  {
    if s != "" && IsSpace(s[0]) {
      TrimLeftDrops(s[1..]);
      var n := |s| - |TrimLeft(s)|;
      assert s[..n] == [s[0]] + s[1..][..n - 1];
    }
  }

  lemma {:induction false} TrimRightDrops(s: string)
    ensures AllSpace(s[|TrimRight(s)|..])
  {
    if s != "" && IsSpace(s[|s| - 1]) {
      var front := s[..|s| - 1];
      TrimRightDrops(front);
      assert s[|TrimRight(s)|..] == front[|TrimRight(s)|..] + [s[|s| - 1]];
    }
  }

  /** Trimming takes off white space at both ends and nothing else. */
  lemma TrimTakesSpace(s: string) returns (l: string, r: string)
    ensures s == l + TrimSpace(s) + r && AllSpace(l) && AllSpace(r)
  {
    hide TrimLeft, TrimRight, IsSpace, AllSpace;
    var t := TrimLeft(s);
    TrimLeftDrops(s);
    TrimRightDrops(t);
    l, r := s[..|s| - |t|], t[|TrimRight(t)|..];
  }

  lemma BlankIs(s: string)
    ensures Blank(s) <==> AllSpace(s)
  {
    hide TrimSpace;
    var l, r := TrimTakesSpace(s);
    if Blank(s) {
      assert s == l + r;
    }
    if AllSpace(s) {
      TrimIs(s, "", "");
      assert s + "" + "" == s;
    }
  }

  lemma SpaceEnds(s: string)
    requires AllSpace(s) && s != ""
    ensures IsSpace(s[0]) && AllSpace(s[1..]) && IsSpace(s[|s| - 1]) && AllSpace(s[..|s| - 1])
  {
  }

  lemma {:induction false} TrimLeftOver(l: string, rest: string)
    requires AllSpace(l) && (rest == "" || !IsSpace(rest[0]))
    ensures TrimLeft(l + rest) == rest
  {
    hide AllSpace, IsSpace;
    if l == "" {
      assert l + rest == rest;
    } else {
      SpaceEnds(l);
      assert (l + rest)[1..] == l[1..] + rest;
      TrimLeftOver(l[1..], rest);
    }
  }

  lemma {:induction false} TrimRightOver(front: string, r: string)
    requires AllSpace(r) && (front == "" || !IsSpace(front[|front| - 1]))
    ensures TrimRight(front + r) == front
  {
    hide AllSpace, IsSpace;
    if r == "" {
      assert front + r == front;
    } else {
      SpaceEnds(r);
      assert (front + r)[..|front + r| - 1] == front + r[..|r| - 1];
      TrimRightOver(front, r[..|r| - 1]);
    }
  }

  /** With its ends trimmed that fixes the result: the text between white space is `x`. */
  lemma TrimIs(l: string, x: string, r: string)
    requires AllSpace(l) && AllSpace(r) && Trimmed(x)
    ensures TrimSpace(l + x + r) == x
  {
    hide TrimLeft, TrimRight;
    if x == "" {
      assert l + x + r == l + r + "" && AllSpace(l + r);
      TrimLeftOver(l + r, "");
      TrimRightOver("", "");
    } else {
      assert l + x + r == l + (x + r);
      TrimLeftOver(l, x + r);
      TrimRightOver(x, r);
    }
  }

  /* ---------- splitting and joining ---------- */

  function Split(s: string, sep: char): (parts: seq<string>)
    ensures |parts| > 0
    ensures forall p :: p in parts ==> sep !in p
    decreases |s|
  {
    var i := IndexByte(s, sep);
    if i < 0 then [s] else [s[..i]] + Split(s[i + 1..], sep)
  }

  function Join(parts: seq<string>, sep: char): string {
    if |parts| == 0 then ""
    else if |parts| == 1 then parts[0]
    else parts[0] + [sep] + Join(parts[1..], sep)
  }

  lemma SplitAt(head: string, sep: char, rest: string)
    requires sep !in head
    ensures Split(head + [sep] + rest, sep) == [head] + Split(rest, sep)
  {
    var s := head + [sep] + rest;
    assert s[..|head|] == head && s[|head| + 1..] == rest;
    IndexByteIs(s, sep, |head|);
  }

  lemma SplitNone(s: string, sep: char)
    requires sep !in s
    ensures Split(s, sep) == [s]
  {
  }

  lemma {:induction false} SplitConcat(a: string, sep: char, b: string)
    ensures Split(a + [sep] + b, sep) == Split(a, sep) + Split(b, sep)
    decreases |a|
  {
    hide Split, IndexByte;
    var i := IndexByte(a, sep);
    if i < 0 {
      SplitNone(a, sep);
      SplitAt(a, sep, b);
    } else {
      var head, rest := a[..i], a[i + 1..];
      assert a == head + [sep] + rest;
      SplitAt(head, sep, rest);
      SplitConcat(rest, sep, b);
      SplitAt(head, sep, rest + [sep] + b);
      assert head + [sep] + (rest + [sep] + b) == a + [sep] + b;
      assert [head] + (Split(rest, sep) + Split(b, sep)) == [head] + Split(rest, sep) + Split(b, sep);
    }
  }

  /** Splitting undoes joining, for a non-empty list of separator-free parts. */
  lemma {:induction false} SplitJoin(parts: seq<string>, sep: char)
    requires |parts| > 0
    requires forall p :: p in parts ==> sep !in p
    ensures Split(Join(parts, sep), sep) == parts
  {
    hide Split;
    assert parts[0] in parts;
    SplitNone(parts[0], sep);
    if |parts| > 1 {
      SplitJoin(parts[1..], sep);
      SplitConcat(parts[0], sep, Join(parts[1..], sep));
      assert parts == [parts[0]] + parts[1..];
    }
  }

  lemma JoinFront(head: string, rest: seq<string>, sep: char)
    requires rest != []
    ensures Join([head] + rest, sep) == head + [sep] + Join(rest, sep)
  {
    assert ([head] + rest)[1..] == rest;
  }

  lemma JoinOne(s: string, sep: char)
    ensures Join([s], sep) == s
  {
  }

  /** Joining undoes splitting; with separator-free parts that fixes both. */
  lemma {:induction false} JoinSplit(s: string, sep: char)
    ensures Join(Split(s, sep), sep) == s
    decreases |s|
  {
    hide IndexByte, Join;
    var i := IndexByte(s, sep);
    if i >= 0 {
      JoinSplit(s[i + 1..], sep);
      JoinFront(s[..i], Split(s[i + 1..], sep), sep);
      assert s == s[..i] + [sep] + s[i + 1..];
    } else {
      JoinOne(s, sep);
    }
  }
}
