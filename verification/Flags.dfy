/** Go's `flag` package, as far as the relay's command lines need it: `-name`, `--name`,
    `--name=value`, and `--name value`, which takes the next argument whatever it looks like. */
module Flags {
  import opened Text

  datatype Kind = StringFlag | BoolFlag

  type Defs = map<string, Kind>

  /** Flag values as text; a boolean is "true" or "false". */
  type Values = map<string, string>

  datatype Parsed = Parsed(values: Values, rest: seq<string>) | HelpAsked | Invalid

  function ParseBool(s: string): Option<string> {
    if s in ["1", "t", "T", "true", "TRUE", "True"] then Some("true")
    else if s in ["0", "f", "F", "false", "FALSE", "False"] then Some("false")
    else None
  }

  /** What one argument is to the parser. */
  datatype Word =
    | Positional
    | Terminator
    | Malformed
    | Flag(name: string, value: Option<string>)

  function ReadWord(s: string): Word {
    if |s| < 2 || s[0] != '-' then Positional
    else if s == "--" then Terminator
    else
      var body := if s[1] == '-' then s[2..] else s[1..];
      if body[0] == '-' || body[0] == '=' then Malformed
      else
        var eq := IndexByte(body, '=');
        if eq < 0 then Flag(body, None) else Flag(body[..eq], Some(body[eq + 1..]))
  }

  function ParseFlags(defs: Defs, values: Values, args: seq<string>): (r: Parsed)
    ensures r.Parsed? ==> values.Keys <= r.values.Keys
    decreases |args|
  {
    if args == [] then Parsed(values, [])
    else
      match ReadWord(args[0])
      case Positional => Parsed(values, args)
      case Terminator => Parsed(values, args[1..])
      case Malformed => Invalid
      case Flag(name, value) =>
        if name !in defs then
          if name == "help" || name == "h" then HelpAsked else Invalid
        else if defs[name].BoolFlag? then
          match ParseBool(value.GetOr("true"))
          case Some(b) => ParseFlags(defs, values[name := b], args[1..])
          case None => Invalid
        else if value.Some? then ParseFlags(defs, values[name := value.value], args[1..])
        else if |args| >= 2 then ParseFlags(defs, values[name := args[1]], args[2..])
        else Invalid
  }

  /** A name that `--name` spells without ambiguity. */
  predicate Plain(name: string) {
    name != "" && name[0] != '-' && '=' !in name
  }

  function Dashed(name: string): string {
    "--" + name
  }

  lemma ReadWordIs(dashes: string, name: string, tail: string)
    requires dashes in ["-", "--"] && Plain(name) && (tail == "" || tail[0] == '=')
    ensures ReadWord(dashes + name + tail) == Flag(name, if tail == "" then None else Some(tail[1..]))
  {
    hide IndexByte;
    var s, body := dashes + name + tail, name + tail;
    assert dashes == "-" ==> s[1] == name[0] && s[1..] == body;
    assert dashes == "--" ==> s[1] == '-' && s[2..] == body;
    assert body[0] == name[0] && body[..|name|] == name;
    if tail != "" {
      assert body[|name|] == '=' && body[|name| + 1..] == tail[1..];
      IndexByteIs(body, '=', |name|);
    } else {
      assert body == name;
    }
  }

  /** `--name value` sets the flag to the value, and parsing goes on behind it. */
  lemma ParsePair(defs: Defs, values: Values, name: string, value: string, rest: seq<string>)
    requires Plain(name) && name in defs && defs[name].StringFlag?
    ensures ParseFlags(defs, values, [Dashed(name), value] + rest) == ParseFlags(defs, values[name := value], rest)
  {
    hide ParseFlags, Plain;
    ParseOne(defs, values, Spaced("--", name, value), rest);
  }

  lemma ParseSwitch(defs: Defs, values: Values, name: string, rest: seq<string>)
    requires Plain(name) && name in defs && defs[name].BoolFlag?
    ensures ParseFlags(defs, values, [Dashed(name)] + rest) == ParseFlags(defs, values[name := "true"], rest)
  {
    hide ParseFlags, Plain;
    ParseOne(defs, values, Switch("--", name), rest);
  }

  /** A flag is printed only when it has a value. */
  function Pair(name: string, value: string): seq<string> {
    if value == "" then [] else [Dashed(name), value]
  }

  /** Printing a flag or leaving it out, then parsing, sets it to its value, when its default is
      the empty string. */
  lemma ParseOptional(defs: Defs, values: Values, name: string, value: string, rest: seq<string>)
    requires Plain(name) && name in defs && defs[name].StringFlag?
    requires name in values && values[name] == ""
    ensures ParseFlags(defs, values, Pair(name, value) + rest) == ParseFlags(defs, values[name := value], rest)
  {
    if value == "" {
      assert Pair(name, value) + rest == rest;
      assert values[name := value] == values;
    } else {
      ParsePair(defs, values, name, value, rest);
    }
  }

  /* ---------- every way to write a flag ---------- */

  /** A flag as it may stand on a command line, behind one dash or two. */
  datatype Setting =
    | Spaced(dashes: string, name: string, value: string)  // -name value
    | Joined(dashes: string, name: string, value: string)  // -name=value
    | Switch(dashes: string, name: string)                 // -name
  {
    function Words(): seq<string> {
      match this
      case Spaced(d, n, v) => [d + n, v]
      case Joined(d, n, v) => [d + n + "=" + v]
      case Switch(d, n) => [d + n]
    }

    /** Only a text flag takes the next argument, only a boolean one stands alone. */
    predicate Fits(defs: Defs) {
      && dashes in ["-", "--"] && Plain(name) && name in defs
      && match this
         case Spaced(_, n, _) => defs[n].StringFlag?
         case Joined(_, n, v) => defs[n].BoolFlag? ==> IsYes(v) || IsNo(v)
         case Switch(_, n) => defs[n].BoolFlag?
    }

    /** The value it gives to its flag. */
    function Gives(defs: Defs): string
      requires Fits(defs)
    {
      match this
      case Spaced(_, _, v) => v
      case Joined(_, n, v) => if defs[n].StringFlag? then v else if IsYes(v) then "true" else "false"
      case Switch(_, _) => "true"
    }
  }

  predicate IsYes(v: string) {
    v == "1" || v == "t" || v == "T" || v == "true" || v == "True" || v == "TRUE"
  }

  predicate IsNo(v: string) {
    v == "0" || v == "f" || v == "F" || v == "false" || v == "False" || v == "FALSE"
  }

  function Written(settings: seq<Setting>): seq<string> {
    if settings == [] then [] else settings[0].Words() + Written(settings[1..])
  }

  predicate AllFit(defs: Defs, settings: seq<Setting>) {
    forall s :: s in settings ==> s.Fits(defs)
  }

  /** The value of the last setting of a flag, or its default. */
  function LastGiven(defs: Defs, settings: seq<Setting>, name: string, default: string): string
    requires AllFit(defs, settings)
  {
    if settings == [] then default
    else
      var last := settings[|settings| - 1];
      if last.name == name then last.Gives(defs) else LastGiven(defs, settings[..|settings| - 1], name, default)
  }

  function Assigned(defs: Defs, values: Values, settings: seq<Setting>): Values
    requires AllFit(defs, settings)
    decreases |settings|
  {
    if settings == [] then values
    else Assigned(defs, values[settings[0].name := settings[0].Gives(defs)], settings[1..])
  }

  lemma {:induction false} AssignedLast(defs: Defs, values: Values, settings: seq<Setting>)
    requires settings != [] && AllFit(defs, settings)
    ensures var front, last := settings[..|settings| - 1], settings[|settings| - 1];
            AllFit(defs, front) && last.Fits(defs)
            && Assigned(defs, values, settings) == Assigned(defs, values, front)[last.name := last.Gives(defs)]
    decreases |settings|
  {
    hide Setting.Fits, Setting.Gives;
    if |settings| > 1 {
      var rest := settings[1..];
      AssignedLast(defs, values[settings[0].name := settings[0].Gives(defs)], rest);
      assert settings[..|settings| - 1][1..] == rest[..|rest| - 1];
    } else {
      assert settings[1..] == [];
    }
  }

  /** Of several settings of one flag the last counts; flags not set keep their values. */
  lemma {:induction false} AssignedIsLast(defs: Defs, values: Values, settings: seq<Setting>, name: string)
    requires AllFit(defs, settings) && name in values
    ensures name in Assigned(defs, values, settings)
    ensures Assigned(defs, values, settings)[name] == LastGiven(defs, settings, name, values[name])
    decreases |settings|
  {
    hide Setting.Fits, Setting.Gives, Assigned;
    if settings == [] {
      AssignedNothing(defs, values);
    } else {
      AssignedLast(defs, values, settings);
      AssignedIsLast(defs, values, settings[..|settings| - 1], name);
    }
  }

  lemma AssignedNothing(defs: Defs, values: Values)
    ensures Assigned(defs, values, []) == values
  {
  }

  /** One step of the parser at a flag with a proper name. */
  lemma ParseHead(defs: Defs, values: Values, dashes: string, name: string, tail: string, rest: seq<string>)
    requires dashes in ["-", "--"] && Plain(name) && (tail == "" || tail[0] == '=')
    ensures ParseFlags(defs, values, [dashes + name + tail] + rest) ==
            if name !in defs then (if name == "help" || name == "h" then HelpAsked else Invalid)
            else if defs[name].BoolFlag? then
              (match ParseBool(if tail == "" then "true" else tail[1..])
               case Some(b) => ParseFlags(defs, values[name := b], rest)
               case None => Invalid)
            else if tail != "" then ParseFlags(defs, values[name := tail[1..]], rest)
            else if rest != [] then ParseFlags(defs, values[name := rest[0]], rest[1..])
            else Invalid
  {
    hide ReadWord, ParseBool, Plain;
    ReadWordIs(dashes, name, tail);
    var args := [dashes + name + tail] + rest;
    assert args[1..] == rest;
    assert rest != [] ==> args[1] == rest[0] && args[2..] == rest[1..];
  }

  lemma BoolIs(v: string)
    ensures ParseBool(v) == if IsYes(v) then Some("true") else if IsNo(v) then Some("false") else None
  {
  }

  lemma ParseOne(defs: Defs, values: Values, s: Setting, rest: seq<string>)
    requires s.Fits(defs)
    ensures ParseFlags(defs, values, s.Words() + rest) == ParseFlags(defs, values[s.name := s.Gives(defs)], rest)
  {
    hide ParseFlags, ParseBool, Plain, IsYes, IsNo;
    match s {
      case Spaced(d, n, v) =>
        ParseHead(defs, values, d, n, "", [v] + rest);
        assert d + n + "" == d + n;
        assert [d + n, v] + rest == [d + n] + ([v] + rest) && ([v] + rest)[1..] == rest;
      case Joined(d, n, v) =>
        ParseHead(defs, values, d, n, "=" + v, rest);
        BoolIs(v);
        assert d + n + ("=" + v) == d + n + "=" + v && ("=" + v)[1..] == v;
      case Switch(d, n) =>
        ParseHead(defs, values, d, n, "", rest);
        BoolIs("true");
        assert d + n + "" == d + n;
        assert IsYes("true") by { YesIsTrue(); }
    }
  }

  lemma YesIsTrue()
    ensures IsYes("true")
  {
  }

  /** Flags may be written in any order, number and form: parsing sets each in turn and goes on
      behind them. */
  lemma {:induction false} ParseSettings(defs: Defs, values: Values, settings: seq<Setting>, rest: seq<string>)
    requires AllFit(defs, settings)
    ensures ParseFlags(defs, values, Written(settings) + rest)
         == ParseFlags(defs, Assigned(defs, values, settings), rest)
    decreases |settings|
  {
    hide ParseFlags, Setting.Fits, Setting.Gives, Setting.Words;
    if settings == [] {
      assert Written(settings) + rest == rest;
    } else {
      var s, others := settings[0], settings[1..];
      assert s in settings;
      ParseOne(defs, values, s, Written(others) + rest);
      ParseSettings(defs, values[s.name := s.Gives(defs)], others, rest);
      assert s.Words() + Written(others) + rest == s.Words() + (Written(others) + rest);
    }
  }

  /** An argument that is no flag, and "--", end the flags. */
  lemma ParseEnds(defs: Defs, values: Values, rest: seq<string>)
    requires rest == [] || |rest[0]| < 2 || rest[0][0] != '-' || rest[0] == "--"
    ensures ParseFlags(defs, values, rest) ==
            Parsed(values, if rest != [] && rest[0] == "--" then rest[1..] else rest)
  {
  }

  /** An undefined flag is an error, unless it asks for help. */
  lemma ParseUndefined(defs: Defs, values: Values, dashes: string, name: string, tail: string, rest: seq<string>)
    requires dashes in ["-", "--"] && Plain(name) && (tail == "" || tail[0] == '=') && name !in defs
    ensures ParseFlags(defs, values, [dashes + name + tail] + rest) ==
            if name == "h" || name == "help" then HelpAsked else Invalid
  {
    hide ParseFlags, Plain;
    ParseHead(defs, values, dashes, name, tail, rest);
  }

  /** So is a text flag without a value at the very end, and a boolean with any other value. */
  lemma ParseMalformed(defs: Defs, values: Values, dashes: string, name: string, value: string, rest: seq<string>)
    requires dashes in ["-", "--"] && Plain(name) && name in defs
    ensures defs[name].StringFlag? ==> ParseFlags(defs, values, [dashes + name]) == Invalid
    ensures defs[name].BoolFlag? && !IsYes(value) && !IsNo(value) ==>
              ParseFlags(defs, values, [dashes + name + "=" + value] + rest) == Invalid
  {
    hide ParseFlags, Plain, ParseBool, IsYes, IsNo;
    ParseHead(defs, values, dashes, name, "", []);
    ParseHead(defs, values, dashes, name, "=" + value, rest);
    BoolIs(value);
    assert dashes + name + "" == dashes + name && [dashes + name] + [] == [dashes + name];
    assert dashes + name + ("=" + value) == dashes + name + "=" + value && ("=" + value)[1..] == value;
  }

  /** And so is a flag without a name, or with a third dash. */
  lemma ParseNameless(defs: Defs, values: Values, dashes: string, tail: string, rest: seq<string>)
    requires (dashes in ["-", "--"] && tail != "" && tail[0] == '=') || (dashes == "--" && tail != "" && tail[0] == '-')
    ensures ParseFlags(defs, values, [dashes + tail] + rest) == Invalid
  {
    hide IndexByte, ParseBool;
    var s := dashes + tail;
    assert dashes == "-" ==> s[1..] == tail;
    assert dashes == "--" ==> s[2..] == tail;
  }
}
