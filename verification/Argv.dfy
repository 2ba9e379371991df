/** The option scanner of scripts/navigation_value.py: which argument of a `grep`-like
    command is the pattern it searches for. */
module Argv {
  import opened PyText
  import opened Decimal

  // ----- the option tables -----

  function ValueShorts(binary: string): set<char> {
    if binary == "rg" then {'e', 'f', 'g', 't', 'T', 'M', 'A', 'B', 'C', 'm', 'j', 'r'}
    else if binary == "ag" then {'e', 'f', 'm', 'A', 'B', 'C', 'G', 'p'}
    else if binary == "ack" then {'e', 'f', 'm', 'A', 'B', 'C'}
    else {'e', 'f', 'm', 'A', 'B', 'C', 'd', 'D'}
  }

  const VALUE_LONGS: set<string> := {
    "--regexp", "--file", "--max-count", "--after-context", "--before-context",
    "--context", "--include", "--exclude", "--exclude-dir", "--exclude-from",
    "--glob", "--iglob", "--type", "--type-not", "--type-add", "--replace",
    "--max-columns", "--max-depth", "--max-filesize", "--threads",
    "--binary-files", "--devices", "--directories", "--label", "--pre" }

  /** The short letters and the long names that take a value. */
  datatype Tables = Tables(shorts: set<char>, longs: set<string>)

  function TablesOf(binary: string): Tables { Tables(ValueShorts(binary), VALUE_LONGS) }

  /** What the scan relies on: its own two long options take a value, and every long name
      is one. */
  ghost predicate TablesOk(t: Tables) {
    "--regexp" in t.longs && "--file" in t.longs && forall n :: n in t.longs ==> LongName(n) && n != "--"
  }

  predicate LongName(name: string) { Dashed(name) && '=' !in name }

  lemma TablesAreOk(binary: string)
    ensures TablesOk(TablesOf(binary))
  {
  }

  // ----- the scan -----

  datatype Scan = Scan(explicit: seq<string>, operand: Option<string>, fromFile: bool)

  const START := Scan([], None, false)

  predicate Dashed(token: string) { |token| >= 2 && token[0] == '-' && token[1] == '-' }

  /** The first letter of a bundle that takes a value. */
  function ValueAt(letters: string, shorts: set<char>): (r: Option<nat>)
    ensures r.Some? ==> r.value < |letters| && letters[r.value] in shorts
                        && forall i :: 0 <= i < r.value ==> letters[i] !in shorts
    ensures r.None? ==> forall c :: c in letters ==> c !in shorts
  {
    if letters == "" then None
    else if letters[0] in shorts then Some(0)
    else match ValueAt(letters[1..], shorts) case None => None case Some(k) => Some(k + 1)
  }

  /** An operand counts only while none has been seen. */
  function WithOperand(s: Scan, text: string): Scan { if s.operand.None? then s.(operand := Some(text)) else s }

  function WithPattern(s: Scan, text: string): Scan { s.(explicit := s.explicit + [text]) }

  /** What a token that takes the next one does with it, when there is one. */
  function Takes(s: Scan, isPattern: bool, isFile: bool, next: Option<string>): Scan {
    var s' := if isFile then s.(fromFile := true) else s;
    if isPattern && next.Some? then WithPattern(s', next.value) else s'
  }

  function ScanArgs(t: Tables, argv: seq<string>, s: Scan): Scan {
    if argv == [] then s
    else
      var token, rest := argv[0], argv[1..];
      var next := if rest == [] then None else Some(rest[0]);
      var skip := if rest == [] then [] else rest[1..];
      if token == "--" then (if rest == [] then s else WithOperand(s, rest[0]))
      else if Dashed(token) then
        var name := Before(token, '=');
        if '=' in token then
          ScanArgs(t, rest, Takes(s, name == "--regexp", name == "--file", Some(After(token, '='))))
        else if name in t.longs then
          ScanArgs(t, skip, Takes(s, name == "--regexp", name == "--file", next))
        else ScanArgs(t, rest, s)
      else if |token| > 1 && token[0] == '-' then
        var letters := token[1..];
        match ValueAt(letters, t.shorts)
        case None => ScanArgs(t, rest, s)
        case Some(k) =>
          var value := letters[k + 1..];
          if value != "" then
            ScanArgs(t, rest, Takes(s, letters[k] == 'e', letters[k] == 'f', Some(value)))
          else ScanArgs(t, skip, Takes(s, letters[k] == 'e', letters[k] == 'f', next))
      else ScanArgs(t, rest, WithOperand(s, token))
  }

  function Answer(s: Scan): Option<string> {
    if s.explicit != [] then Some(s.explicit[0]) else if s.fromFile then None else s.operand
  }

  /** The scanner reads an argument vector left to right, and its index always advances. */
  method PatternFromArgv(binary: string, argv: seq<string>) returns (pattern: Option<string>)
    ensures pattern == Answer(ScanArgs(TablesOf(binary), argv, START))
  {
    TablesAreOk(binary);
    pattern := ScanWith(TablesOf(binary), argv);
  }

  method ScanWith(t: Tables, argv: seq<string>) returns (pattern: Option<string>)
    requires TablesOk(t)
    ensures pattern == Answer(ScanArgs(t, argv, START))
  {
    var shorts := t.shorts;
    var explicit: seq<string>, operand: Option<string>, fromFile := [], None, false;
    var index := 0;
    ghost var done := false;
    while index < |argv|
      invariant 0 <= index <= |argv|
      invariant ScanArgs(t, argv, START)
                == if done then Scan(explicit, operand, fromFile)
                   else ScanArgs(t, argv[index..], Scan(explicit, operand, fromFile))
      invariant !done
      decreases |argv| - index
    {
      var token := argv[index];
      index := index + 1;
      if token == "--" {
        if operand.None? && index < |argv| { operand := Some(argv[index]); }
        done := true;
        break;
      }
      if Dashed(token) {
        var name := Before(token, '=');
        if name == "--regexp" {
          if '=' in token {
            explicit := explicit + [After(token, '=')];
          } else if index < |argv| {
            explicit := explicit + [argv[index]];
            index := index + 1;
          }
        } else if name == "--file" {
          fromFile := true;
          if '=' !in token && index < |argv| { index := index + 1; }
        } else if name in t.longs && '=' !in token && index < |argv| {
          index := index + 1;
        }
        continue;
      }
      if |token| > 1 && token[0] == '-' {
        var letters := token[1..];
        var position := 0;
        while position < |letters| && letters[position] !in shorts
          invariant 0 <= position <= |letters|
          invariant forall i :: 0 <= i < position ==> letters[i] !in shorts
        {
          position := position + 1;
        }
        if position < |letters| {
          var letter, rest := letters[position], letters[position + 1..];
          assert ValueAt(letters, shorts) == Some(position);
          if letter == 'e' {
            if rest != "" {
              explicit := explicit + [rest];
            } else if index < |argv| {
              explicit := explicit + [argv[index]];
              index := index + 1;
            }
          } else if letter == 'f' {
            fromFile := true;
            if rest == "" && index < |argv| { index := index + 1; }
          } else if rest == "" && index < |argv| {
            index := index + 1;
          }
        } else {
          assert ValueAt(letters, shorts) == None;
        }
        continue;
      }
      if operand.None? { operand := Some(token); }
    }
    if explicit != [] { return Some(explicit[0]); }
    if fromFile { return None; }
    return operand;
  }

  // ----- structured command lines -----

  /** One argument as a person writes it. `flags` are bundled letters that take no value. */
  datatype Arg =
    | Flags(flags: string)
    | Short(flags: string, letter: char, value: string, attached: bool)
    | Long(name: string, inline: Option<string>)
    | LongValue(name: string, value: string)
    | Operand(text: string)

  /** How a command line ends: in nothing special, in `--` and operands, or in an option
      whose value is missing. */
  datatype Ending =
    | End
    | DashDash(operands: seq<string>)
    | ShortMissing(flags: string, letter: char)
    | LongMissing(name: string)

  datatype Command = Command(args: seq<Arg>, ending: Ending)

  predicate PlainFlags(flags: string, shorts: set<char>) { forall c :: c in flags ==> c !in shorts }

  predicate BundleOk(letters: string) { letters != "" && letters[0] != '-' }

  predicate ArgOk(a: Arg, t: Tables) {
    match a
    case Flags(flags) => BundleOk(flags) && PlainFlags(flags, t.shorts)
    case Short(flags, letter, value, attached) =>
      BundleOk(flags + [letter]) && PlainFlags(flags, t.shorts) && letter in t.shorts && (attached ==> value != "")
    case Long(name, inline) => LongName(name) && (inline.None? ==> name !in t.longs && |name| > 2)
    case LongValue(name, _) => name in t.longs
    case Operand(text) => |text| <= 1 || text[0] != '-'
  }

  predicate EndingOk(e: Ending, t: Tables) {
    match e
    case End => true
    case DashDash(_) => true
    case ShortMissing(flags, letter) => BundleOk(flags + [letter]) && PlainFlags(flags, t.shorts) && letter in t.shorts
    case LongMissing(name) => name in t.longs
  }

  predicate CommandOk(c: Command, t: Tables) {
    (forall a :: a in c.args ==> ArgOk(a, t)) && EndingOk(c.ending, t)
  }

  // ----- printing -----

  function PrintArg(a: Arg): seq<string> {
    match a
    case Flags(flags) => ["-" + flags]
    case Short(flags, letter, value, attached) =>
      if attached then ["-" + (flags + [letter] + value)] else ["-" + (flags + [letter]), value]
    case Long(name, inline) => if inline.None? then [name] else [name + ['='] + inline.value]
    case LongValue(name, value) => [name, value]
    case Operand(text) => [text]
  }

  function PrintEnding(e: Ending): seq<string> {
    match e
    case End => []
    case DashDash(operands) => ["--"] + operands
    case ShortMissing(flags, letter) => ["-" + (flags + [letter])]
    case LongMissing(name) => [name]
  }

  function Print(c: Command): seq<string>
    decreases |c.args|
  {
    if c.args == [] then PrintEnding(c.ending) else PrintArg(c.args[0]) + Print(c.(args := c.args[1..]))
  }

  // ----- what a command line means -----

  function ArgPattern(a: Arg): seq<string> {
    match a
    case Short(_, letter, value, _) => if letter == 'e' then [value] else []
    case Long(name, inline) => if name == "--regexp" && inline.Some? then [inline.value] else []
    case LongValue(name, value) => if name == "--regexp" then [value] else []
    case _ => []
  }

  /** The patterns given by `-e` or `--regexp`, in order. */
  function Patterns(args: seq<Arg>): seq<string> {
    if args == [] then [] else ArgPattern(args[0]) + Patterns(args[1..])
  }

  predicate NamesFile(a: Arg) {
    match a
    case Short(_, letter, _, _) => letter == 'f'
    case Long(name, _) => name == "--file"
    case LongValue(name, _) => name == "--file"
    case _ => false
  }

  predicate FromFile(c: Command) {
    || (exists a :: a in c.args && NamesFile(a))
    || (c.ending.ShortMissing? && c.ending.letter == 'f')
    || (c.ending.LongMissing? && c.ending.name == "--file")
  }

  function ArgOperand(a: Arg): seq<string> { if a.Operand? then [a.text] else [] }

  function Operands(args: seq<Arg>): seq<string> {
    if args == [] then [] else ArgOperand(args[0]) + Operands(args[1..])
  }

  function AllOperands(c: Command): seq<string> {
    Operands(c.args) + (if c.ending.DashDash? then c.ending.operands else [])
  }

  /** The first explicit pattern; else none, if patterns come from a file; else the first
      operand. */
  function Searched(c: Command): Option<string> {
    if Patterns(c.args) != [] then Some(Patterns(c.args)[0])
    else if FromFile(c) then None
    else if AllOperands(c) != [] then Some(AllOperands(c)[0])
    else None
  }

  /** The scanner's state after a whole command line. */
  ghost function Read(s: Scan, c: Command): Scan {
    Scan(s.explicit + Patterns(c.args),
         if s.operand.Some? || AllOperands(c) == [] then s.operand else Some(AllOperands(c)[0]),
         s.fromFile || FromFile(c))
  }

  /** Its state after one argument. */
  function ReadArg(s: Scan, a: Arg): Scan {
    Scan(s.explicit + ArgPattern(a),
         if s.operand.Some? || ArgOperand(a) == [] then s.operand else Some(ArgOperand(a)[0]),
         s.fromFile || NamesFile(a))
  }

  lemma {:induction false} ValueAfterFlags(flags: string, rest: string, shorts: set<char>)
    requires PlainFlags(flags, shorts) && (rest == "" || rest[0] in shorts)
    ensures ValueAt(flags + rest, shorts) == if rest == "" then None else Some(|flags|)
  {
    if flags == "" {
      assert flags + rest == rest;
    } else {
      assert (flags + rest)[1..] == flags[1..] + rest;
      ValueAfterFlags(flags[1..], rest, shorts);
    }
  }

  /** One printed argument moves the scanner past exactly its own tokens. */
  lemma ScanArg(t: Tables, a: Arg, rest: seq<string>, s: Scan)
    requires TablesOk(t)
    requires ArgOk(a, t)
    ensures ScanArgs(t, PrintArg(a) + rest, s) == ScanArgs(t, rest, ReadArg(s, a))
  {
    var argv := PrintArg(a) + rest;
    assert s.explicit + [] == s.explicit;
    match a
    case Flags(flags) =>
      assert argv[1..] == rest && argv[0][1..] == flags;
      ValueAfterFlags(flags, "", t.shorts);
      assert flags + "" == flags;
    case Short(flags, letter, value, attached) =>
      ScanShort(t, flags, letter, value, attached, rest, s);
    case Long(name, inline) =>
      assert argv[1..] == rest;
      if inline.Some? { ScanInline(t, name, inline.value, rest, s); } else { NoSplit(name, '='); }
    case LongValue(name, value) =>
      ScanLongValue(t, name, value, rest, s);
    case Operand(text) =>
      assert argv[1..] == rest;
  }

  lemma ScanLongValue(t: Tables, name: string, value: string, rest: seq<string>, s: Scan)
    requires TablesOk(t) && ArgOk(LongValue(name, value), t)
    ensures ScanArgs(t, [name, value] + rest, s) == ScanArgs(t, rest, ReadArg(s, LongValue(name, value)))
  {
    NoSplit(name, '=');
    assert ([name, value] + rest)[1..] == [value] + rest && ([value] + rest)[1..] == rest
           && s.explicit + [] == s.explicit;
  }

  lemma ScanInline(t: Tables, name: string, value: string, rest: seq<string>, s: Scan)
    requires ArgOk(Long(name, Some(value)), t)
    ensures ScanArgs(t, [name + ['='] + value] + rest, s) == ScanArgs(t, rest, ReadArg(s, Long(name, Some(value))))
  {
    var token := name + ['='] + value;
    FirstSplit(name, '=', value);
    assert token[|name|] == '=' && token[0] == name[0] && token[1] == name[1];
    assert ([token] + rest)[1..] == rest && s.explicit + [] == s.explicit;
  }

  lemma ScanShort(t: Tables, flags: string, letter: char, value: string, attached: bool, rest: seq<string>, s: Scan)
    requires ArgOk(Short(flags, letter, value, attached), t)
    ensures ScanArgs(t, PrintArg(Short(flags, letter, value, attached)) + rest, s)
            == ScanArgs(t, rest, Takes(s, letter == 'e', letter == 'f', Some(value)))
  {
    var argv := PrintArg(Short(flags, letter, value, attached)) + rest;
    var letters := argv[0][1..];
    var tail := if attached then [letter] + value else [letter];
    assert letters == flags + tail;
    ValueAfterFlags(flags, tail, t.shorts);
    assert letters[|flags| + 1..] == if attached then value else "";
    if attached {
      assert argv[1..] == rest;
    } else {
      assert argv[1..] == [value] + rest && argv[1..][1..] == rest;
    }
  }

  lemma ScanEnding(t: Tables, e: Ending, s: Scan)
    requires TablesOk(t)
    requires EndingOk(e, t)
    ensures ScanArgs(t, PrintEnding(e), s) == Read(s, Command([], e))
  {
    match e
    case End =>
    case DashDash(operands) =>
      assert (["--"] + operands)[1..] == operands;
    case ShortMissing(flags, letter) =>
      var token := "-" + (flags + [letter]);
      assert token[1..] == flags + [letter];
      ValueAfterFlags(flags, [letter], t.shorts);
    case LongMissing(name) =>
      NoSplit(name, '=');
  }

  lemma ReadTwice(s: Scan, c: Command)
    requires c.args != []
    ensures Read(ReadArg(s, c.args[0]), c.(args := c.args[1..])) == Read(s, c)
  {
    var a, less := c.args[0], c.(args := c.args[1..]);
    assert c.args == [a] + c.args[1..];
    assert FromFile(c) <==> NamesFile(a) || FromFile(less);
    assert AllOperands(c) == ArgOperand(a) + AllOperands(less);
    assert s.explicit + ArgPattern(a) + Patterns(less.args) == s.explicit + (ArgPattern(a) + Patterns(less.args));
  }

  lemma {:induction false} ScanPrint(t: Tables, c: Command, s: Scan)
    requires TablesOk(t)
    requires CommandOk(c, t)
    ensures ScanArgs(t, Print(c), s) == Read(s, c)
    decreases |c.args|
  {
    if c.args == [] {
      ScanEnding(t, c.ending, s);
      assert c == Command([], c.ending);
    } else {
      var a, less := c.args[0], c.(args := c.args[1..]);
      ScanArg(t, a, Print(less), s);
      ScanPrint(t, less, ReadArg(s, a));
      ReadTwice(s, c);
    }
  }

  /** On every printed command line the scanner finds what the command searches for. */
  lemma ScannerReadsCommand(t: Tables, c: Command)
    requires TablesOk(t)
    requires CommandOk(c, t)
    ensures Answer(ScanArgs(t, Print(c), START)) == Searched(c)
  {
    ScanPrint(t, c, START);
  }

  // ----- every argument vector is a command line -----

  lemma {:induction false} EveryArgvIsPrinted(t: Tables, argv: seq<string>) returns (c: Command)
    ensures CommandOk(c, t) && Print(c) == argv
  {
    if argv == [] {
      c := Command([], End);
    } else if argv[0] == "--" {
      c := Command([], DashDash(argv[1..]));
    } else {
      var a, e := FirstArg(t, argv);
      if e != End {
        c := Command([], e);
      } else {
        var n := |PrintArg(a.value)|;
        var less := EveryArgvIsPrinted(t, argv[n..]);
        c := Command([a.value] + less.args, less.ending);
        assert c.args[1..] == less.args;
      }
    }
  }

  /** The first tokens of an argument vector are one argument, or one with no value left. */
  lemma FirstArg(t: Tables, argv: seq<string>) returns (a: Option<Arg>, e: Ending)
    requires argv != [] && argv[0] != "--"
    ensures e != End ==> EndingOk(e, t) && PrintEnding(e) == argv
    ensures e == End ==> a.Some? && ArgOk(a.value, t) && 1 <= |PrintArg(a.value)| <= |argv|
                         && PrintArg(a.value) == argv[..|PrintArg(a.value)|]
  {
    a, e := None, End;
    var token := argv[0];
    if Dashed(token) {
      if '=' in token {
        FirstParts(token, '=');
        a := Some(Long(Before(token, '='), Some(After(token, '='))));
      } else if token !in t.longs {
        a := Some(Long(token, None));
      } else if |argv| == 1 {
        e := LongMissing(token);
      } else {
        a := Some(LongValue(token, argv[1]));
      }
    } else if |token| > 1 && token[0] == '-' {
      a, e := FirstBundle(t, argv);
    } else {
      a := Some(Operand(token));
    }
  }

  lemma FirstBundle(t: Tables, argv: seq<string>) returns (a: Option<Arg>, e: Ending)
    requires argv != [] && |argv[0]| > 1 && argv[0][0] == '-' && argv[0][1] != '-'
    ensures e != End ==> EndingOk(e, t) && PrintEnding(e) == argv
    ensures e == End ==> a.Some? && ArgOk(a.value, t) && 1 <= |PrintArg(a.value)| <= |argv|
                         && PrintArg(a.value) == argv[..|PrintArg(a.value)|]
  {
    var letters := argv[0][1..];
    match ValueAt(letters, t.shorts)
    case None =>
      a, e := Some(Flags(letters)), End;
      FlagsHere(t, argv);
    case Some(k) =>
      ValueSplits(letters, t.shorts, k);
      if letters[k + 1..] != "" {
        a, e := Some(Short(letters[..k], letters[k], letters[k + 1..], true)), End;
        AttachedHere(argv, k);
      } else if |argv| == 1 {
        a, e := None, ShortMissing(letters[..k], letters[k]);
        MissingHere(argv, k);
      } else {
        a, e := Some(Short(letters[..k], letters[k], argv[1], false)), End;
        SeparateHere(argv, k);
      }
  }

  lemma FlagsHere(t: Tables, argv: seq<string>)
    requires argv != [] && |argv[0]| > 1 && argv[0][0] == '-' && argv[0][1] != '-'
             && ValueAt(argv[0][1..], t.shorts).None?
    ensures ArgOk(Flags(argv[0][1..]), t) && PrintArg(Flags(argv[0][1..])) == argv[..1]
  {
    assert argv[0] == "-" + argv[0][1..];
  }

  lemma AttachedHere(argv: seq<string>, k: nat)
    requires argv != [] && argv[0] != "" && argv[0][0] == '-' && k + 1 < |argv[0]|
    ensures var letters := argv[0][1..]; PrintArg(Short(letters[..k], letters[k], letters[k + 1..], true)) == argv[..1]
  {
    var letters := argv[0][1..];
    assert letters[..k] + [letters[k]] + letters[k + 1..] == letters && argv[0] == "-" + letters;
  }

  lemma SeparateHere(argv: seq<string>, k: nat)
    requires |argv| > 1 && argv[0] != "" && argv[0][0] == '-' && k + 2 == |argv[0]|
    ensures var letters := argv[0][1..]; PrintArg(Short(letters[..k], letters[k], argv[1], false)) == argv[..2]
  {
    var letters := argv[0][1..];
    assert letters[..k] + [letters[k]] == letters && argv[0] == "-" + letters;
  }

  lemma MissingHere(argv: seq<string>, k: nat)
    requires |argv| == 1 && argv[0] != "" && argv[0][0] == '-' && k + 2 == |argv[0]|
    ensures var letters := argv[0][1..]; PrintEnding(ShortMissing(letters[..k], letters[k])) == argv
  {
    var letters := argv[0][1..];
    assert letters[..k] + [letters[k]] == letters && argv[0] == "-" + letters;
  }

  lemma ValueSplits(letters: string, shorts: set<char>, k: nat)
    requires letters != "" && letters[0] != '-' && ValueAt(letters, shorts) == Some(k)
    ensures k < |letters| && letters[k] in shorts && PlainFlags(letters[..k], shorts)
    ensures BundleOk(letters[..k] + [letters[k]]) && letters == letters[..k] + [letters[k]] + letters[k + 1..]
    ensures letters[k + 1..] == "" ==> letters == letters[..k] + [letters[k]]
  {
    assert (letters[..k] + [letters[k]])[0] == letters[0];
  }

  /** So the scanner's answer is, for every argument vector there is, the pattern of a
      command line that prints to it. */
  lemma ScannerIsTotal(t: Tables, argv: seq<string>)
    requires TablesOk(t)
    ensures exists c :: CommandOk(c, t) && Print(c) == argv && Answer(ScanArgs(t, argv, START)) == Searched(c)
  {
    var c := EveryArgvIsPrinted(t, argv);
    ScannerReadsCommand(t, c);
  }
}
