/** Command-line flags of six types, set by `--name=value`, and the compaction of the
    arguments that are no flags. */
module CommandLineParser {
  import opened Basics
  import opened StringUtils

  datatype FlagType = BoolFlag | Int32Flag | DoubleFlag | Int64Flag | Uint64Flag | StringFlag

  /** Numbers are kept as whatever the stream extraction made of the text. */
  datatype Value = Bool(b: bool) | Number(n: int) | Text(s: string)

  /** The variable behind the `index`-th command of a registry. */
  datatype Slot = Slot(ty: FlagType, index: nat)

  /** The registries' command names, in the order of registration. */
  type Commands = map<FlagType, seq<string>>

  /** Text to number, by the rules of the standard library. */
  type Extraction = (FlagType, string) -> Option<int>

  /** What decides about an argument: the order in which types are tried, and their
      commands. */
  datatype Grammar = Grammar(extract: Extraction, order: seq<FlagType>, commands: Commands)

  /** The order in which the parser tries them. */
  const TYPE_ORDER := [BoolFlag, Int32Flag, DoubleFlag, Int64Flag, Uint64Flag, StringFlag]

  function Names(commands: Commands, ty: FlagType): seq<string> {
    if ty in commands then commands[ty] else []
  }

  // ----- Conversion -----

  function Lower(c: char): char {
    if 'A' <= c <= 'Z' then (c as int + 32) as char else c
  }

  function LowerAll(s: string): string {
    if s == "" then "" else [Lower(s[0])] + LowerAll(s[1..])
  }

  function ToBool(content: string): Option<bool> {
    var t := LowerAll(content);
    if t == "true" || t == "1" then Some(true)
    else if t == "false" || t == "0" then Some(false)
    else None
  }

  /** Whether a text is a lower-case word in any mixture of cases. */
  predicate Spells(content: string, word: string) {
    |content| == |word| &&
    forall i :: 0 <= i < |word| ==>
      content[i] == word[i] || ('A' <= content[i] <= 'Z' && content[i] as int + 32 == word[i] as int)
  }

  lemma {:induction false} LowerSpells(content: string, word: string)
    requires forall i :: 0 <= i < |word| ==> !('A' <= word[i] <= 'Z')
    ensures LowerAll(content) == word <==> Spells(content, word)
  {
    if content != "" && word != "" {
      LowerSpells(content[1..], word[1..]);
      assert LowerAll(content)[0] == Lower(content[0]) && LowerAll(content)[1..] == LowerAll(content[1..]);
      assert word == [word[0]] + word[1..];
      if Spells(content[1..], word[1..]) {
        assert forall i :: 1 <= i < |word| ==> content[i] == content[1..][i - 1] && word[i] == word[1..][i - 1];
      }
    }
  }

  /** Boolean values are the words and digits for true and false, in any case. */
  lemma BoolTexts(content: string)
    ensures ToBool(content) == Some(true) <==> Spells(content, "true") || content == "1"
    ensures ToBool(content) == Some(false) <==> Spells(content, "false") || content == "0"
  {
    LowerSpells(content, "true");
    LowerSpells(content, "1");
    LowerSpells(content, "false");
    LowerSpells(content, "0");
    assert '1' as int == 49 && '0' as int == 48;
    if Spells(content, "1") {
      assert content[0] == '1';
    }
    if Spells(content, "0") {
      assert content[0] == '0';
    }
  }

  function Convert(extract: Extraction, ty: FlagType, content: string): Option<Value> {
    match ty
    case BoolFlag => (match ToBool(content) case Some(b) => Some(Bool(b)) case None => None)
    case StringFlag => Some(Text(content))
    case _ => (match extract(ty, content) case Some(n) => Some(Number(n)) case None => None)
  }

  // ----- Matching -----

  /** What follows `--name=` or `-name=`; empty when neither is there. */
  function Content(argument: string, name: string): string {
    if "--" + name + "=" <= argument then argument[|name| + 3..]
    else if "-" + name + "=" <= argument then argument[|name| + 2..]
    else ""
  }

  /** The first command that takes the argument as its assignment. */
  function FindFlag(names: seq<string>, argument: string): Option<nat> {
    FindFlagFrom(names, argument, 0)
  }

  function FindFlagFrom(names: seq<string>, argument: string, i: nat): (r: Option<nat>)
    requires i <= |names|
    ensures r.Some? ==> i <= r.value < |names| && Content(argument, names[r.value]) != ""
    ensures forall j :: i <= j < (if r.Some? then r.value else |names|) ==> Content(argument, names[j]) == ""
    decreases |names| - i
  {
    if i == |names| then None
    else if Content(argument, names[i]) != "" then Some(i)
    else FindFlagFrom(names, argument, i + 1)
  }

  const BARE_PREFIXES := [("-", true), ("--", true), ("-no", false), ("--no", false)]

  /** The value that a bare boolean argument gives a flag: the prefix is looked up by the
      difference in length. */
  function BareValue(argument: string, name: string): Option<bool> {
    if |argument| <= |name| then None
    else
      var diff := |argument| - |name| - 1;
      if diff < |BARE_PREFIXES| && argument == BARE_PREFIXES[diff].0 + name then Some(BARE_PREFIXES[diff].1) else None
  }

  function FindBareFrom(names: seq<string>, argument: string, i: nat): (r: Option<nat>)
    requires i <= |names|
    ensures r.Some? ==> i <= r.value < |names| && BareValue(argument, names[r.value]).Some?
    ensures forall j :: i <= j < (if r.Some? then r.value else |names|) ==> BareValue(argument, names[j]).None?
    decreases |names| - i
  {
    if i == |names| then None
    else if BareValue(argument, names[i]).Some? then Some(i)
    else FindBareFrom(names, argument, i + 1)
  }

  // ----- What one argument does -----

  datatype Decision = Set(slot: Slot, value: Value) | Stop | Keep

  /** The first type, from the `k`-th on, that knows the argument. */
  function ByType(g: Grammar, argument: string, k: nat): (r: Option<Decision>)
    requires k <= |g.order|
    ensures r.Some? ==> !r.value.Keep?
    decreases |g.order| - k
  {
    if k == |g.order| then None
    else
      var ty := g.order[k];
      match FindFlag(Names(g.commands, ty), argument)
      case None => ByType(g, argument, k + 1)
      case Some(i) =>
        match Convert(g.extract, ty, Content(argument, Names(g.commands, ty)[i]))
        case Some(v) => Some(Set(Slot(ty, i), v))
        case None => Some(Stop)
  }

  /** Assignments first, then bare booleans, then the help options; the rest is kept. */
  function Decide(g: Grammar, withHelp: bool, argument: string): Decision {
    match ByType(g, argument, 0)
    case Some(d) => d
    case None => DecideBare(g, withHelp, argument)
  }

  function DecideBare(g: Grammar, withHelp: bool, argument: string): Decision {
    var names := Names(g.commands, BoolFlag);
    match FindBareFrom(names, argument, 0)
    case Some(i) => Set(Slot(BoolFlag, i), Bool(BareValue(argument, names[i]).value))
    case None => if withHelp && (argument == "--help" || argument == "-h") then Stop else Keep
  }

  // ----- A whole command line -----

  /** The arguments that are kept, in order. */
  function Kept(g: Grammar, withHelp: bool, arguments: seq<string>): seq<string> {
    if arguments == [] then []
    else
      var n := |arguments| - 1;
      Kept(g, withHelp, arguments[..n])
      + (if Decide(g, withHelp, arguments[n]).Keep? then [arguments[n]] else [])
  }

  /** The last value that an argument gives a flag. */
  function LastSet(g: Grammar, withHelp: bool, arguments: seq<string>, slot: Slot)
    : Option<Value>
  {
    if arguments == [] then None
    else
      var n := |arguments| - 1;
      var d := Decide(g, withHelp, arguments[n]);
      if d.Set? && d.slot == slot then Some(d.value)
      else LastSet(g, withHelp, arguments[..n], slot)
  }

  /** Every flag holds the conversion of the last argument that set it, or what it held
      before. */
  ghost predicate Settings(g: Grammar, withHelp: bool, arguments: seq<string>,
                           before: map<Slot, Value>, after: map<Slot, Value>)
  {
    forall slot ::
      match LastSet(g, withHelp, arguments, slot)
      case Some(v) => slot in after && after[slot] == v
      case None => (slot in after <==> slot in before) && (slot in before ==> after[slot] == before[slot])
  }

  ghost predicate SomeStop(g: Grammar, withHelp: bool, arguments: seq<string>) {
    exists k :: 0 <= k < |arguments| && Decide(g, withHelp, arguments[k]).Stop?
  }

  datatype Status = Ok | Invalid | NotFound

  datatype ParseResult = Parsed(argc: nat) | Exited

  lemma SwapPermutes<T>(s: seq<T>, i: nat, j: nat)
    requires i <= j < |s|
    ensures multiset(s[i := s[j]][j := s[i]]) == multiset(s)
  {
  }

  method Swap<T>(a: array<T>, i: nat, j: nat)
    requires i <= j < a.Length
    modifies a
    ensures a[..] == old(a[..])[i := old(a[j])][j := old(a[i])]
  {
    a[i], a[j] := a[j], a[i];
  }

  class Parser {
    const grammar: Grammar
    var values: map<Slot, Value>

    constructor (extract: Extraction, commands: Commands, defaults: map<Slot, Value>)
      ensures grammar == Grammar(extract, TYPE_ORDER, commands) && values == defaults
    {
      this.grammar, this.values := Grammar(extract, TYPE_ORDER, commands), defaults;
    }

    /** Tries the commands of one type in turn. */
    method ParseArgument(ty: FlagType, argument: string) returns (status: Status)
      modifies this
      ensures var names := Names(grammar.commands, ty);
              match FindFlag(names, argument)
              case None => status == NotFound && values == old(values)
              case Some(i) =>
                match Convert(grammar.extract, ty, Content(argument, names[i]))
                case Some(v) => status == Ok && values == old(values)[Slot(ty, i) := v]
                case None => status == Invalid
    {
      var names := Names(grammar.commands, ty);
      var i := 0;
      while i < |names|
        invariant i <= |names| && values == old(values)
        invariant FindFlag(names, argument) == FindFlagFrom(names, argument, i)
      {
        var content := "";
        var long, short := "--" + names[i] + "=", "-" + names[i] + "=";
        var matches := StartsWith(argument, long);
        if matches {
          content := argument[|long|..];
        } else {
          matches := StartsWith(argument, short);
          if matches {
            content := argument[|short|..];
          }
        }
        if content != "" {
          match Convert(grammar.extract, ty, content) {
            case Some(v) =>
              values := values[Slot(ty, i) := v];
              return Ok;
            case None =>
              return Invalid;
          }
        }
        i := i + 1;
      }
      status := NotFound;
    }

    /** Tries the boolean commands for a bare argument. */
    method ParseBoolArgumentExtra(argument: string) returns (status: Status)
      modifies this
      ensures var names := Names(grammar.commands, BoolFlag);
              match FindBareFrom(names, argument, 0)
              case None => status == NotFound && values == old(values)
              case Some(i) =>
                status == Ok && values == old(values)[Slot(BoolFlag, i) := Bool(BareValue(argument, names[i]).value)]
    {
      var names := Names(grammar.commands, BoolFlag);
      var i := 0;
      while i < |names|
        invariant i <= |names| && values == old(values)
        invariant FindBareFrom(names, argument, 0) == FindBareFrom(names, argument, i)
      {
        if |argument| > |names[i]| {
          var diff := |argument| - |names[i]| - 1;
          if diff < |BARE_PREFIXES| {
            var prefix := BARE_PREFIXES[diff].0;
            if argument == prefix + names[i] {
              values := values[Slot(BoolFlag, i) := Bool(BARE_PREFIXES[diff].1)];
              return Ok;
            }
          }
        }
        i := i + 1;
      }
      status := NotFound;
    }

    /** Tries the six types in turn, then bare booleans, then help. */
    method ParseOne(argument: string, withHelp: bool) returns (decision: Status)
      modifies this
      ensures match Decide(grammar, withHelp, argument)
              case Set(slot, v) => decision == Ok && values == old(values)[slot := v]
              case Stop => decision == Invalid
              case Keep => decision == NotFound && values == old(values)
    {
      var k := 0;
      while k < |grammar.order|
        invariant k <= |grammar.order| && values == old(values)
        invariant ByType(grammar, argument, 0) == ByType(grammar, argument, k)
      {
        var s := ParseArgument(grammar.order[k], argument);
        if s != NotFound {
          return s;
        }
        k := k + 1;
      }
      decision := ParseBoolArgumentExtra(argument);
      if decision == NotFound && withHelp && (argument == "--help" || argument == "-h") {
        decision := Invalid;
      }
    }

    /** One turn of the loop over the arguments. */
    method ParseAt(argv: array<string>, i: nat, unused: nat, withHelp: bool,
                   ghost all: seq<string>, ghost before: map<Slot, Value>)
      returns (exit: bool, next: nat)
      requires 1 <= i < argv.Length == |all|
      requires Progress(grammar, withHelp, all[1..i], all, argv[..], unused, before, values)
      modifies this, argv
      ensures exit <==> Decide(grammar, withHelp, all[i]).Stop?
      ensures !exit ==> Progress(grammar, withHelp, all[1..i + 1], all, argv[..], next, before, values)
    {
      ghost var now, old_values := argv[..], values;
      ghost var seen := all[1..i];
      Upcoming(now, all, i);
      var status := ParseOne(argv[i], withHelp);
      exit, next := status == Invalid, unused;
      if status == Ok {
        Recognised(grammar, withHelp, seen, all, now, unused, before, old_values, argv[i], values);
      } else if status == NotFound {
        Unrecognised(grammar, withHelp, seen, all, now, unused, before, values, argv[i]);
        Swap(argv, unused, i);
        next := unused + 1;
      }
    }

    /** Parses `argv[1..argc]`, moving the arguments that are kept to the front. */
    method ParseCommandlineFlags(argc: nat, argv: array<string>, withHelp: bool) returns (r: ParseResult)
      requires argc <= argv.Length
      modifies this, argv
      ensures r.Exited? <==> SomeStop(grammar, withHelp, Arguments(argc, old(argv[..])))
      ensures r.Parsed? ==>
                var kept := Kept(grammar, withHelp, Arguments(argc, old(argv[..])));
                r.argc == 1 + |kept|
                && (argc == 0 ==> argv[..] == old(argv[..]))
                && (argc > 0 ==> r.argc <= argc && argv[..r.argc] == [old(argv[0])] + kept)
      ensures r.Parsed? ==> multiset(argv[..]) == multiset(old(argv[..])) && argv[argc..] == old(argv[argc..])
      ensures r.Parsed? ==>
                Settings(grammar, withHelp, Arguments(argc, old(argv[..])), old(values), values)
    {
      ghost var all, before := argv[..], values;
      var unused := 1;
      var i := 1;
      while i < argc
        invariant argc == 0 ==> i == unused == 1 && argv[..] == all && values == before
        invariant argc > 0 ==> 1 <= i <= argc
        invariant argc > 0 ==> Progress(grammar, withHelp, all[1..i], all, argv[..], unused, before, values)
      {
        var exit;
        exit, unused := ParseAt(argv, i, unused, withHelp, all, before);
        if exit {
          assert Arguments(argc, all)[i - 1] == all[i];
          return Exited;
        }
        i := i + 1;
      }
      r := Parsed(unused);
    }
  }

  /** The arguments proper, without the program name. */
  function Arguments(argc: nat, argv: seq<string>): (r: seq<string>)
    requires argc <= |argv|
    ensures argc == 0 ==> r == []
    ensures argc > 0 ==> |r| == argc - 1 && forall i :: 0 <= i < |r| ==> r[i] == argv[i + 1]
  {
    if argc == 0 then [] else argv[1..argc]
  }

  lemma Upcoming<T>(s: seq<T>, t: seq<T>, k: nat)
    requires |s| == |t| && k < |s| && s[k..] == t[k..]
    ensures s[k] == t[k] && (k >= 1 ==> t[1..k + 1] == t[1..k] + [s[k]])
  {
    assert s[k..][0] == s[k] && t[k..][0] == t[k];
  }

  /** Where parsing stands when it has `seen` these arguments: the first `unused` entries
      are the program name and what is kept, and what comes next has not moved. */
  ghost predicate Progress(g: Grammar, withHelp: bool, seen: seq<string>,
                           all: seq<string>, now: seq<string>, unused: nat,
                           before: map<Slot, Value>, values: map<Slot, Value>)
  {
    && 1 + |seen| <= |all| == |now| && 1 <= unused <= 1 + |seen|
    && now[..unused] == [all[0]] + Kept(g, withHelp, seen)
    && now[1 + |seen|..] == all[1 + |seen|..]
    && multiset(now) == multiset(all)
    && !SomeStop(g, withHelp, seen)
    && Settings(g, withHelp, seen, before, values)
  }

  lemma Snoc(seen: seq<string>, argument: string)
    ensures (seen + [argument])[..|seen|] == seen
  {
  }

  lemma NoStop(g: Grammar, withHelp: bool, seen: seq<string>, argument: string)
    requires !SomeStop(g, withHelp, seen)
    requires !Decide(g, withHelp, argument).Stop?
    ensures !SomeStop(g, withHelp, seen + [argument])
  {
    forall k | 0 <= k <= |seen| ensures !Decide(g, withHelp, (seen + [argument])[k]).Stop? {
      if k < |seen| {
        assert !Decide(g, withHelp, seen[k]).Stop?;
      }
    }
  }

  lemma Recognised(g: Grammar, withHelp: bool, seen: seq<string>,
                   all: seq<string>, now: seq<string>, unused: nat, before: map<Slot, Value>,
                   values: map<Slot, Value>, argument: string, values': map<Slot, Value>)
    requires Progress(g, withHelp, seen, all, now, unused, before, values)
    requires 1 + |seen| < |all|
    requires var d := Decide(g, withHelp, argument);
             d.Set? && values' == values[d.slot := d.value]
    ensures Progress(g, withHelp, seen + [argument], all, now, unused, before, values')
  {
    Snoc(seen, argument);
    NoStop(g, withHelp, seen, argument);
    Later(now, all, 1 + |seen|);
  }

  lemma Later<T>(s: seq<T>, t: seq<T>, k: nat)
    requires |s| == |t| && k < |s| && s[k..] == t[k..]
    ensures s[k + 1..] == t[k + 1..]
  {
    assert s[k..][1..] == s[k + 1..] && t[k..][1..] == t[k + 1..];
  }

  /** Swapping the next argument to the front keeps the front in order. */
  lemma SwapToFront(now: seq<string>, all: seq<string>, unused: nat, i: nat, front: seq<string>)
    requires |now| == |all| && unused <= i < |now| && now[..unused] == front && now[i..] == all[i..]
    ensures var next := now[unused := now[i]][i := now[unused]];
            next[..unused + 1] == front + [now[i]] && next[i + 1..] == all[i + 1..]
            && multiset(next) == multiset(now)
  {
    Later(now, all, i);
    SwapPermutes(now, unused, i);
    var next := now[unused := now[i]][i := now[unused]];
    assert next[i + 1..] == now[i + 1..];
    assert next[..unused + 1] == now[..unused] + [now[i]];
  }

  lemma SettingsKeep(g: Grammar, withHelp: bool, seen: seq<string>, argument: string,
                     before: map<Slot, Value>, values: map<Slot, Value>)
    requires Settings(g, withHelp, seen, before, values)
    requires Decide(g, withHelp, argument).Keep?
    ensures Settings(g, withHelp, seen + [argument], before, values)
  {
    Snoc(seen, argument);
  }

  lemma Unrecognised(g: Grammar, withHelp: bool, seen: seq<string>,
                     all: seq<string>, now: seq<string>, unused: nat,
                     before: map<Slot, Value>, values: map<Slot, Value>, argument: string)
    requires Progress(g, withHelp, seen, all, now, unused, before, values)
    requires 1 + |seen| < |all| && now[1 + |seen|] == argument
    requires Decide(g, withHelp, argument).Keep?
    ensures var i := 1 + |seen|;
            Progress(g, withHelp, seen + [argument], all,
                     now[unused := now[i]][i := now[unused]], unused + 1, before, values)
  {
    var kept := Kept(g, withHelp, seen);
    SwapToFront(now, all, unused, 1 + |seen|, [all[0]] + kept);
    assert [all[0]] + kept + [argument] == [all[0]] + (kept + [argument]);
    Snoc(seen, argument);
    NoStop(g, withHelp, seen, argument);
    SettingsKeep(g, withHelp, seen, argument, before, values);
  }

  // ----- At most one flag takes an argument -----

  predicate IsLetter(c: char) {
    'a' <= c <= 'z' || 'A' <= c <= 'Z' || c == '_'
  }

  predicate IsDigit(c: char) {
    '0' <= c <= '9'
  }

  /** Flag names come from C identifiers. */
  predicate IsIdentifier(name: string) {
    name != "" && IsLetter(name[0]) && forall i :: 0 <= i < |name| ==> IsLetter(name[i]) || IsDigit(name[i])
  }

  lemma ContentParts(argument: string, name: string) returns (dashes: string, rest: string, content: string)
    requires IsIdentifier(name) && Content(argument, name) != ""
    ensures dashes in {"-", "--"} && argument == dashes + rest
    ensures rest == name + ['='] + content && rest != "" && rest[0] != '-'
  {
    dashes := if "--" + name + "=" <= argument then "--" else "-";
    content := Content(argument, name);
    rest := name + ['='] + content;
    assert dashes + name + "=" <= argument;
    assert argument == dashes + name + "=" + content;
    assert dashes + name + "=" + content == dashes + rest;
  }

  lemma SameDashes(d: string, a: string, e: string, b: string)
    requires d in {"-", "--"} && e in {"-", "--"} && d + a == e + b
    requires a != "" && b != "" && a[0] != '-' && b[0] != '-'
    ensures d == e && a == b
  {
    assert (d + a)[1] == (e + b)[1];
    assert (d + a)[|d|..] == a && (e + b)[|e|..] == b;
  }

  lemma NoEquals(name: string)
    requires IsIdentifier(name)
    ensures '=' !in name
  {
  }

  /** Two identifiers that both take an argument as their assignment are the same. */
  lemma OneName(argument: string, a: string, b: string)
    requires IsIdentifier(a) && IsIdentifier(b)
    requires Content(argument, a) != "" && Content(argument, b) != ""
    ensures a == b
  {
    var d, r, u := ContentParts(argument, a);
    var e, s, v := ContentParts(argument, b);
    SameDashes(d, r, e, s);
    NoEquals(a);
    NoEquals(b);
    FirstPiece(a, u, b, v, '=');
  }

  datatype Flag = Flag(ty: FlagType, name: string)

  function Flags(commands: Commands): set<Flag> {
    set ty, i | ty in commands && 0 <= i < |commands[ty]| :: Flag(ty, commands[ty][i])
  }

  /** All flags of all types have different identifiers as names. */
  ghost predicate Distinct(commands: Commands) {
    && (forall f :: f in Flags(commands) ==> IsIdentifier(f.name))
    && (forall f, g :: f in Flags(commands) && g in Flags(commands) && f.name == g.name ==> f == g)
  }

  /** The first flag, searching the types in the given order, that takes the argument. */
  function FirstFlag(order: seq<FlagType>, commands: Commands, argument: string): Option<Flag> {
    if order == [] then None
    else
      match FindFlag(Names(commands, order[0]), argument)
      case Some(i) => Some(Flag(order[0], Names(commands, order[0])[i]))
      case None => FirstFlag(order[1..], commands, argument)
  }

  /** The search finds a flag exactly if it is the one that takes the argument. */
  lemma {:induction false} FirstFlagIff(order: seq<FlagType>, commands: Commands, argument: string, f: Flag)
    requires Distinct(commands)
    ensures FirstFlag(order, commands, argument) == Some(f) <==>
            f.ty in order && f in Flags(commands) && Content(argument, f.name) != ""
    decreases |order|
  {
    if order != [] {
      FirstFlagIff(order[1..], commands, argument, f);
      var ty := order[0];
      var names := Names(commands, ty);
      match FindFlag(names, argument) {
        case Some(i) =>
          var g := Flag(ty, names[i]);
          assert g in Flags(commands);
          if f in Flags(commands) && Content(argument, f.name) != "" {
            OneName(argument, f.name, g.name);
          }
        case None =>
          if f.ty == ty && f in Flags(commands) {
            var j :| 0 <= j < |names| && names[j] == f.name;
            assert Content(argument, names[j]) == "";
          }
      }
    }
  }

  /** Which flag an assignment sets depends neither on the order of the types nor on the
      order in which the flags were registered. */
  lemma OrderIrrelevant(order: seq<FlagType>, commands: Commands, order': seq<FlagType>, commands': Commands,
                        argument: string)
    requires Distinct(commands) && Flags(commands) == Flags(commands')
    requires forall ty :: ty in order <==> ty in order'
    ensures FirstFlag(order, commands, argument) == FirstFlag(order', commands', argument)
  {
    match FirstFlag(order, commands, argument) {
      case Some(f) =>
        FirstFlagIff(order, commands, argument, f);
        FirstFlagIff(order', commands', argument, f);
      case None =>
        if FirstFlag(order', commands', argument).Some? {
          var f := FirstFlag(order', commands', argument).value;
          FirstFlagIff(order', commands', argument, f);
          FirstFlagIff(order, commands, argument, f);
        }
    }
  }

  // ----- Bare booleans -----

  ghost predicate BareMatch(argument: string, name: string, k: nat)
    requires k < |BARE_PREFIXES|
  {
    argument == BARE_PREFIXES[k].0 + name
  }

  /** Looking up the prefix by length accepts exactly what trying all four would. */
  lemma BareLookup(argument: string, name: string, b: bool)
    ensures BareValue(argument, name) == Some(b) <==>
            exists k :: 0 <= k < |BARE_PREFIXES| && BareMatch(argument, name, k) && BARE_PREFIXES[k].1 == b
  {
    if BareValue(argument, name) == Some(b) {
      assert BareMatch(argument, name, |argument| - |name| - 1);
    }
    assert forall k :: 0 <= k < |BARE_PREFIXES| ==> |BARE_PREFIXES[k].0| == k + 1;
  }

  /** Among identifiers, two flags can claim the same bare argument exactly when one is
      named "no" and the other's name. */
  lemma BareAmbiguity(a: string, b: string)
    requires IsIdentifier(a) && IsIdentifier(b) && a != b
    ensures (exists argument :: BareValue(argument, a).Some? && BareValue(argument, b).Some?)
            <==> a == "no" + b || b == "no" + a
  {
    if a == "no" + b {
      assert "-" + a == "-no" + b;
      assert BareValue("-" + a, a).Some? && BareValue("-" + a, b).Some?;
    } else if b == "no" + a {
      assert "-" + b == "-no" + a;
      assert BareValue("-" + b, a).Some? && BareValue("-" + b, b).Some?;
    } else {
      forall argument ensures !(BareValue(argument, a).Some? && BareValue(argument, b).Some?) {
        if BareValue(argument, a).Some? && BareValue(argument, b).Some? {
          BareClash(argument, a, b);
        }
      }
    }
  }

  lemma BareClash(argument: string, a: string, b: string)
    requires IsIdentifier(a) && IsIdentifier(b)
    requires BareValue(argument, a).Some? && BareValue(argument, b).Some?
    ensures a == b || a == "no" + b || b == "no" + a
  {
    BareParts(argument, a);
    BareParts(argument, b);
  }

  /** What a bare match says about the characters of the argument. */
  lemma BareParts(argument: string, a: string)
    requires IsIdentifier(a) && BareValue(argument, a).Some?
    ensures |argument| >= 2 && argument[0] == '-'
    ensures var rest := if argument[1] == '-' then argument[2..] else argument[1..];
            rest == a || rest == "no" + a
  {
    var diff := |argument| - |a| - 1;
    assert argument == BARE_PREFIXES[diff].0 + a;
    var rest := if argument[1] == '-' then argument[2..] else argument[1..];
    if diff == 2 {
      assert rest == "no" + a;
    } else if diff == 3 {
      assert rest == "no" + a;
    }
  }

  // ----- Order independence of the whole parse -----

  function FirstIndex(names: seq<string>, name: string): (r: nat)
    ensures r <= |names| && (r < |names| ==> names[r] == name)
    ensures forall j :: 0 <= j < r ==> names[j] != name
  {
    if names == [] || names[0] == name then 0 else 1 + FirstIndex(names[1..], name)
  }

  /** The variable that an argument for this flag sets. */
  function SlotOf(commands: Commands, f: Flag): Slot {
    Slot(f.ty, FirstIndex(Names(commands, f.ty), f.name))
  }

  /** What an argument does, in terms of flags: nothing here is a position. */
  datatype Effect = Assign(flag: Flag, value: Value) | Exit | Unused

  function FirstBare(commands: Commands, argument: string): Option<Flag> {
    match FindBareFrom(Names(commands, BoolFlag), argument, 0)
    case Some(i) => Some(Flag(BoolFlag, Names(commands, BoolFlag)[i]))
    case None => None
  }

  function EffectOf(g: Grammar, withHelp: bool, argument: string): Effect {
    match FirstFlag(g.order, g.commands, argument)
    case Some(f) =>
      (match Convert(g.extract, f.ty, Content(argument, f.name))
       case Some(v) => Assign(f, v)
       case None => Exit)
    case None =>
      match FirstBare(g.commands, argument)
      case Some(f) => Assign(f, Bool(BareValue(argument, f.name) == Some(true)))
      case None => if withHelp && (argument == "--help" || argument == "-h") then Exit else Unused
  }

  /** A decision that has this effect. */
  function Decided(commands: Commands, e: Effect): Decision {
    match e
    case Assign(f, v) => Set(SlotOf(commands, f), v)
    case Exit => Stop
    case Unused => Keep
  }

  lemma FirstIndexIs(names: seq<string>, i: nat)
    requires i < |names| && forall j :: 0 <= j < i ==> names[j] != names[i]
    ensures FirstIndex(names, names[i]) == i
  {
  }

  lemma {:induction false} DecideAssignment(g: Grammar, argument: string, k: nat)
    requires k <= |g.order|
    ensures match FirstFlag(g.order[k..], g.commands, argument)
            case None => ByType(g, argument, k) == None
            case Some(f) =>
              match Convert(g.extract, f.ty, Content(argument, f.name))
              case None => ByType(g, argument, k) == Some(Stop)
              case Some(v) => ByType(g, argument, k) == Some(Set(SlotOf(g.commands, f), v))
    decreases |g.order| - k
  {
    if k < |g.order| {
      assert g.order[k..][0] == g.order[k] && g.order[k..][1..] == g.order[k + 1..];
      DecideAssignment(g, argument, k + 1);
      var names := Names(g.commands, g.order[k]);
      match FindFlag(names, argument) {
        case Some(i) => FirstIndexIs(names, i);
        case None =>
      }
    }
  }

  /** What the parser decides about any argument is its effect on flags, carried out on
      the first variable of that name and type. */
  lemma DecideIsEffect(g: Grammar, withHelp: bool, argument: string)
    ensures Decide(g, withHelp, argument) == Decided(g.commands, EffectOf(g, withHelp, argument))
  {
    assert g.order[0..] == g.order;
    DecideAssignment(g, argument, 0);
    var names := Names(g.commands, BoolFlag);
    match FindBareFrom(names, argument, 0) {
      case Some(i) => FirstIndexIs(names, i);
      case None =>
    }
  }

  /** No boolean flag is named "no" and another one's name. */
  ghost predicate NoClash(commands: Commands) {
    forall f, g :: f in Flags(commands) && g in Flags(commands) && f.ty.BoolFlag? && g.ty.BoolFlag? ==>
      f.name != "no" + g.name
  }

  lemma FlagsIn(commands: Commands, f: Flag)
    ensures f in Flags(commands) <==> f.name in Names(commands, f.ty)
  {
    if f.name in Names(commands, f.ty) {
      var i :| 0 <= i < |Names(commands, f.ty)| && Names(commands, f.ty)[i] == f.name;
      assert Flag(f.ty, commands[f.ty][i]) in Flags(commands);
    }
  }

  lemma FirstBareIff(commands: Commands, argument: string, f: Flag)
    requires Distinct(commands) && NoClash(commands)
    ensures FirstBare(commands, argument) == Some(f) <==>
            f.ty.BoolFlag? && f in Flags(commands) && BareValue(argument, f.name).Some?
  {
    FlagsIn(commands, f);
    var names := Names(commands, BoolFlag);
    match FindBareFrom(names, argument, 0) {
      case Some(i) =>
        var g := Flag(BoolFlag, names[i]);
        FlagsIn(commands, g);
        if f.ty.BoolFlag? && f in Flags(commands) && BareValue(argument, f.name).Some? {
          BareClash(argument, f.name, g.name);
        }
      case None =>
    }
  }

  /** The same flags and types, registered and tried in whatever order. */
  ghost predicate SameFlags(g: Grammar, g': Grammar) {
    && g.extract == g'.extract
    && (forall ty :: ty in g.order <==> ty in g'.order)
    && Flags(g.commands) == Flags(g'.commands)
  }

  lemma SameFirstBare(commands: Commands, commands': Commands, argument: string)
    requires Distinct(commands) && NoClash(commands) && Flags(commands) == Flags(commands')
    ensures FirstBare(commands, argument) == FirstBare(commands', argument)
  {
    match FirstBare(commands, argument) {
      case Some(f) =>
        FirstBareIff(commands, argument, f);
        FirstBareIff(commands', argument, f);
      case None =>
        if FirstBare(commands', argument).Some? {
          var f := FirstBare(commands', argument).value;
          FirstBareIff(commands', argument, f);
          FirstBareIff(commands, argument, f);
        }
    }
  }

  lemma SameEffect(g: Grammar, g': Grammar, withHelp: bool, argument: string)
    requires Distinct(g.commands) && NoClash(g.commands) && SameFlags(g, g')
    ensures EffectOf(g, withHelp, argument) == EffectOf(g', withHelp, argument)
  {
    OrderIrrelevant(g.order, g.commands, g'.order, g'.commands, argument);
    SameFirstBare(g.commands, g'.commands, argument);
  }

  lemma SlotOfInjective(commands: Commands, f: Flag, f': Flag)
    requires f in Flags(commands) && f' in Flags(commands) && SlotOf(commands, f) == SlotOf(commands, f')
    ensures f == f'
  {
    FlagsIn(commands, f);
    FlagsIn(commands, f');
  }

  lemma EffectOnFlag(g: Grammar, withHelp: bool, argument: string)
    ensures var e := EffectOf(g, withHelp, argument);
            e.Assign? ==> e.flag in Flags(g.commands)
  {
    DecideIsEffect(g, withHelp, argument);
    var e := EffectOf(g, withHelp, argument);
    if e.Assign? {
      FlagsIn(g.commands, e.flag);
      FirstFlagIn(g.order, g.commands, argument);
    }
  }

  lemma {:induction false} FirstFlagIn(order: seq<FlagType>, commands: Commands, argument: string)
    ensures var r := FirstFlag(order, commands, argument);
            r.Some? ==> r.value.name in Names(commands, r.value.ty)
    decreases |order|
  {
    if order != [] {
      FirstFlagIn(order[1..], commands, argument);
    }
  }

  /** Two parses of one command line exit or not alike, keep the same arguments, and give
      every flag the same value. */
  ghost predicate SameParse(g: Grammar, g': Grammar, withHelp: bool, arguments: seq<string>) {
    && Kept(g, withHelp, arguments) == Kept(g', withHelp, arguments)
    && (SomeStop(g, withHelp, arguments) <==> SomeStop(g', withHelp, arguments))
    && forall f :: f in Flags(g.commands) ==>
         LastSet(g, withHelp, arguments, SlotOf(g.commands, f))
         == LastSet(g', withHelp, arguments, SlotOf(g'.commands, f))
  }

  lemma SameDecision(g: Grammar, g': Grammar, withHelp: bool, argument: string)
    requires Distinct(g.commands) && NoClash(g.commands) && SameFlags(g, g')
    ensures var d, d' := Decide(g, withHelp, argument), Decide(g', withHelp, argument);
            (d.Keep? <==> d'.Keep?) && (d.Stop? <==> d'.Stop?)
            && forall f :: f in Flags(g.commands) && d.Set? && d'.Set? ==>
                 d.value == d'.value && (d.slot == SlotOf(g.commands, f) <==> d'.slot == SlotOf(g'.commands, f))
  {
    SameEffect(g, g', withHelp, argument);
    DecideIsEffect(g, withHelp, argument);
    DecideIsEffect(g', withHelp, argument);
    EffectOnFlag(g, withHelp, argument);
    var e := EffectOf(g, withHelp, argument);
    if e.Assign? {
      forall f | f in Flags(g.commands)
        ensures SlotOf(g.commands, e.flag) == SlotOf(g.commands, f) <==> e.flag == f
        ensures SlotOf(g'.commands, e.flag) == SlotOf(g'.commands, f) <==> e.flag == f
      {
        if SlotOf(g.commands, e.flag) == SlotOf(g.commands, f) {
          SlotOfInjective(g.commands, e.flag, f);
        }
        if SlotOf(g'.commands, e.flag) == SlotOf(g'.commands, f) {
          SlotOfInjective(g'.commands, e.flag, f);
        }
      }
    }
  }

  /** The whole parse is independent of the order in which flags were registered and
      types are tried, if no boolean flag is named "no" and another one's name. */
  lemma {:induction false} ParseOrderIrrelevant(g: Grammar, g': Grammar, withHelp: bool, arguments: seq<string>)
    requires Distinct(g.commands) && NoClash(g.commands) && SameFlags(g, g')
    ensures SameParse(g, g', withHelp, arguments)
    decreases |arguments|
  {
    forall k | 0 <= k < |arguments|
      ensures Decide(g, withHelp, arguments[k]).Stop? <==> Decide(g', withHelp, arguments[k]).Stop?
    {
      SameDecision(g, g', withHelp, arguments[k]);
    }
    if arguments != [] {
      SameDecision(g, g', withHelp, arguments[|arguments| - 1]);
      ParseOrderIrrelevant(g, g', withHelp, arguments[..|arguments| - 1]);
    }
  }

  /** The commands of each type rearranged. */
  ghost predicate Reordering(commands: Commands, commands': Commands) {
    forall ty :: multiset(Names(commands, ty)) == multiset(Names(commands', ty))
  }

  lemma ReorderingSameFlags(commands: Commands, commands': Commands)
    requires Reordering(commands, commands')
    ensures Flags(commands) == Flags(commands')
  {
    forall f: Flag ensures f in Flags(commands) <==> f in Flags(commands') {
      FlagsIn(commands, f);
      FlagsIn(commands', f);
      assert f.name in Names(commands, f.ty) <==> f.name in multiset(Names(commands, f.ty));
      assert f.name in Names(commands', f.ty) <==> f.name in multiset(Names(commands', f.ty));
    }
  }

  lemma HasEquals(argument: string, name: string)
    requires IsIdentifier(name) && Content(argument, name) != ""
    ensures '=' in argument
  {
    var d, rest, u := ContentParts(argument, name);
    assert rest[|name|] == '=';
    assert argument[|d| + |name|] == '=';
  }

  lemma NoAssignment(order: seq<FlagType>, commands: Commands, argument: string)
    requires Distinct(commands) && '=' !in argument
    ensures FirstFlag(order, commands, argument) == None
  {
    var r := FirstFlag(order, commands, argument);
    if r.Some? {
      FirstFlagIff(order, commands, argument, r.value);
      HasEquals(argument, r.value.name);
    }
  }

  lemma BareEffect(g: Grammar, withHelp: bool, argument: string, i: nat)
    requires Distinct(g.commands) && '=' !in argument
    requires FindBareFrom(Names(g.commands, BoolFlag), argument, 0) == Some(i)
    ensures i < |Names(g.commands, BoolFlag)|
    ensures var e := EffectOf(g, withHelp, argument);
            e.Assign? && e.flag.name == Names(g.commands, BoolFlag)[i]
  {
    NoAssignment(g.order, g.commands, argument);
  }

  /** Swapping the first match with a later one makes that the first. */
  lemma SwappedFirst(names: seq<string>, argument: string, i: nat, j: nat)
    requires i < |names| && j < |names| && FindBareFrom(names, argument, 0) == Some(i)
    requires BareValue(argument, names[j]).Some?
    ensures i <= j && FindBareFrom(names[i := names[j]][j := names[i]], argument, 0) == Some(i)
  {
    var swapped := names[i := names[j]][j := names[i]];
    assert forall k :: 0 <= k < i ==> swapped[k] == names[k];
    assert BareValue(argument, swapped[i]).Some?;
  }

  lemma BothMatch(a: string, b: string)
    requires b == "no" + a
    ensures BareValue("-" + b, a).Some? && BareValue("-" + b, b).Some?
  {
    assert "-" + b == "-no" + a;
  }

  /** If two boolean flags clash, rearranging them changes what some argument sets. */
  lemma ClashMatters(g: Grammar, withHelp: bool, a: Flag, b: Flag) returns (commands': Commands, argument: string)
    requires Distinct(g.commands) && a in Flags(g.commands) && b in Flags(g.commands)
    requires a.ty.BoolFlag? && b.ty.BoolFlag? && b.name == "no" + a.name
    ensures Reordering(g.commands, commands')
    ensures var e, e' := EffectOf(g, withHelp, argument), EffectOf(g.(commands := commands'), withHelp, argument);
            e.Assign? && e'.Assign? && e.flag != e'.flag
  {
    argument := "-" + b.name;
    BothMatch(a.name, b.name);
    NoEquals(b.name);
    var names := Names(g.commands, BoolFlag);
    FlagsIn(g.commands, a);
    FlagsIn(g.commands, b);
    var i := FindBareFrom(names, argument, 0).value;
    var other := if names[i] == a.name then b.name else a.name;
    var j :| 0 <= j < |names| && names[j] == other;
    SwappedFirst(names, argument, i, j);
    commands' := g.commands[BoolFlag := names[i := names[j]][j := names[i]]];
    SwapPermutes(names, i, j);
    ReorderingSameFlags(g.commands, commands');
    BareEffect(g, withHelp, argument, i);
    BareEffect(g.(commands := commands'), withHelp, argument, i);
  }

  /** An argument that sets different flags makes different parses. */
  lemma OtherFlagOtherParse(g: Grammar, g': Grammar, withHelp: bool, argument: string)
    requires SameFlags(g, g')
    requires var e, e' := EffectOf(g, withHelp, argument), EffectOf(g', withHelp, argument);
             e.Assign? && e'.Assign? && e.flag != e'.flag
    ensures !SameParse(g, g', withHelp, [argument])
  {
    var e, e' := EffectOf(g, withHelp, argument), EffectOf(g', withHelp, argument);
    DecideIsEffect(g, withHelp, argument);
    DecideIsEffect(g', withHelp, argument);
    EffectOnFlag(g, withHelp, argument);
    EffectOnFlag(g', withHelp, argument);
    assert [argument][..0] == [];
    assert LastSet(g, withHelp, [argument], SlotOf(g.commands, e.flag)) == Some(e.value);
    if SlotOf(g'.commands, e.flag) == SlotOf(g'.commands, e'.flag) {
      SlotOfInjective(g'.commands, e.flag, e'.flag);
    }
    assert LastSet(g', withHelp, [argument], SlotOf(g'.commands, e.flag)) == None;
  }

  ghost predicate Rearranged(g: Grammar, g': Grammar) {
    && g.extract == g'.extract
    && (forall ty :: ty in g.order <==> ty in g'.order)
    && Reordering(g.commands, g'.commands)
  }

  /** With distinct identifiers the parse of every command line is the same under all
      rearrangements of registrations and types, if and only if no boolean flag is named
      "no" and another one's name. */
  lemma OrderIff(g: Grammar, withHelp: bool)
    requires Distinct(g.commands)
    ensures NoClash(g.commands) <==>
            forall g', arguments :: Rearranged(g, g') ==> SameParse(g, g', withHelp, arguments)
  {
    if NoClash(g.commands) {
      forall g', arguments | Rearranged(g, g') ensures SameParse(g, g', withHelp, arguments) {
        ReorderingSameFlags(g.commands, g'.commands);
        ParseOrderIrrelevant(g, g', withHelp, arguments);
      }
    } else {
      var b, a :| a in Flags(g.commands) && b in Flags(g.commands) && a.ty.BoolFlag? && b.ty.BoolFlag?
                  && b.name == "no" + a.name;
      var commands', argument := ClashMatters(g, withHelp, a, b);
      var g' := g.(commands := commands');
      ReorderingSameFlags(g.commands, commands');
      OtherFlagOtherParse(g, g', withHelp, argument);
      assert Rearranged(g, g') && !SameParse(g, g', withHelp, [argument]);
    }
  }

  // ----- What an argument does, spelled out -----

  /** A boolean is set to true by true and 1 and to false by false and 0, a string to the
      text itself, and a number to what the extraction for its type makes of the text. */
  lemma ConvertIs(extract: Extraction, content: string)
    ensures Convert(extract, BoolFlag, content) == Some(Bool(true)) <==> Spells(content, "true") || content == "1"
    ensures Convert(extract, BoolFlag, content) == Some(Bool(false)) <==> Spells(content, "false") || content == "0"
    ensures Convert(extract, BoolFlag, content).Some? ==> Convert(extract, BoolFlag, content).value.Bool?
    ensures Convert(extract, StringFlag, content) == Some(Text(content))
    ensures forall ty: FlagType, n :: !ty.BoolFlag? && !ty.StringFlag? ==>
              (Convert(extract, ty, content) == Some(Number(n)) <==> extract(ty, content) == Some(n))
    ensures forall ty: FlagType :: !ty.BoolFlag? && !ty.StringFlag? ==>
              (Convert(extract, ty, content) == None <==> extract(ty, content) == None)
  {
    BoolTexts(content);
  }

  /** The content of an assignment is what follows the equals sign, after one dash or two. */
  lemma ContentIs(argument: string, name: string, content: string)
    requires content != ""
    ensures Content(argument, name) == content <==>
            argument == "--" + name + "=" + content
            || (argument == "-" + name + "=" + content && !("--" + name + "=" <= argument))
  {
    var long, short := "--" + name + "=", "-" + name + "=";
    if long <= argument {
      assert argument == long + argument[|long|..];
    } else if short <= argument {
      assert argument == short + argument[|short|..];
    }
    if argument == long + content {
      assert long <= argument && argument[|long|..] == content;
    } else if argument == short + content {
      assert short <= argument && argument[|short|..] == content;
    }
  }

  /** A flag is switched on by its name behind one dash or two, and off by its name behind
      these and `no`. */
  lemma BareIs(argument: string, name: string)
    ensures BareValue(argument, name) == Some(true) <==> argument == "-" + name || argument == "--" + name
    ensures BareValue(argument, name) == Some(false) <==> argument == "-no" + name || argument == "--no" + name
  {
  }

  lemma AllTypes(ty: FlagType)
    ensures ty in TYPE_ORDER
  {
    assert TYPE_ORDER[0] == BoolFlag && TYPE_ORDER[1] == Int32Flag && TYPE_ORDER[2] == DoubleFlag;
    assert TYPE_ORDER[3] == Int64Flag && TYPE_ORDER[4] == Uint64Flag && TYPE_ORDER[5] == StringFlag;
  }

  lemma NoDashes(name: string)
    requires IsIdentifier(name)
    ensures '-' !in name
  {
  }

  lemma TakesContent(dashes: string, name: string, content: string)
    requires IsIdentifier(name) && dashes in {"-", "--"} && content != ""
    ensures Content(dashes + name + "=" + content, name) == content
  {
    var argument := dashes + name + "=" + content;
    ContentIs(argument, name, content);
    NoDashes(name);
    assert name[0] in name;
    assert dashes == "-" ==> argument[1] == name[0];
    assert ("--" + name + "=")[1] == '-';
  }

  /** `--name=value` and `-name=value`, for any flag among distinct identifiers, set the
      first variable of its name and type to the value converted for its type, or are an
      error. */
  lemma AssignmentSets(extract: Extraction, commands: Commands, withHelp: bool,
                       f: Flag, dashes: string, content: string)
    requires Distinct(commands) && f in Flags(commands) && dashes in {"-", "--"} && content != ""
    ensures Decide(Grammar(extract, TYPE_ORDER, commands), withHelp, dashes + f.name + "=" + content) ==
            match Convert(extract, f.ty, content)
            case Some(v) => Set(SlotOf(commands, f), v)
            case None => Stop
  {
    var argument := dashes + f.name + "=" + content;
    TakesContent(dashes, f.name, content);
    AllTypes(f.ty);
    FirstFlagIff(TYPE_ORDER, commands, argument, f);
    DecideIsEffect(Grammar(extract, TYPE_ORDER, commands), withHelp, argument);
  }

  /** `-name` and `--name` set a boolean flag to true, `-noname` and `--noname` to false. */
  lemma BareSets(extract: Extraction, commands: Commands, withHelp: bool, f: Flag, prefix: string)
    requires Distinct(commands) && NoClash(commands) && f in Flags(commands) && f.ty.BoolFlag?
    requires prefix in {"-", "--", "-no", "--no"}
    ensures Decide(Grammar(extract, TYPE_ORDER, commands), withHelp, prefix + f.name)
         == Set(SlotOf(commands, f), Bool(prefix == "-" || prefix == "--"))
  {
    var argument := prefix + f.name;
    BareIs(argument, f.name);
    assert |prefix| == 1 ==> prefix == "-";
    NoEquals(f.name);
    assert '=' !in prefix;
    NoAssignment(TYPE_ORDER, commands, argument);
    FirstBareIff(commands, argument, f);
    DecideIsEffect(Grammar(extract, TYPE_ORDER, commands), withHelp, argument);
  }

  /** An argument is kept if and only if no flag takes it as an assignment, no boolean flag
      as a bare argument, and it does not ask for help where help is given. */
  lemma KeptIff(extract: Extraction, commands: Commands, withHelp: bool, argument: string)
    requires Distinct(commands) && NoClash(commands)
    ensures Decide(Grammar(extract, TYPE_ORDER, commands), withHelp, argument).Keep? <==>
            (forall f :: f in Flags(commands) ==> Content(argument, f.name) == "")
            && (forall f :: f in Flags(commands) && f.ty.BoolFlag? ==> BareValue(argument, f.name).None?)
            && !(withHelp && (argument == "--help" || argument == "-h"))
  {
    var g := Grammar(extract, TYPE_ORDER, commands);
    DecideIsEffect(g, withHelp, argument);
    forall f | f in Flags(commands)
      ensures FirstFlag(TYPE_ORDER, commands, argument) == Some(f) <==> Content(argument, f.name) != ""
      ensures FirstBare(commands, argument) == Some(f) <==> f.ty.BoolFlag? && BareValue(argument, f.name).Some?
    {
      AllTypes(f.ty);
      FirstFlagIff(TYPE_ORDER, commands, argument, f);
      FirstBareIff(commands, argument, f);
    }
    if FirstFlag(TYPE_ORDER, commands, argument).Some? {
      FirstFlagIff(TYPE_ORDER, commands, argument, FirstFlag(TYPE_ORDER, commands, argument).value);
    }
    if FirstBare(commands, argument).Some? {
      FirstBareIff(commands, argument, FirstBare(commands, argument).value);
    }
  }
}
