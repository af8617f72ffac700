/**
 * Command-line parsing in `main`: a first pass over every argument for the
 * help and version flags, then a left-to-right pass from the second argument
 * that consumes `-f <file>` and `-p <port>` pairs. Printing and exiting are
 * replaced by the command the parse yields.
 */
module Cli {
  import opened Wrappers

  /** A TCP port, Rust's `u16`. */
  type Port = p: int | 0 <= p < 0x1_0000

  const DefaultPort: Port := 3000

  /** Why the arguments are refused (each ends the process with status 1). */
  datatype CliError =
    | MissingFileName          // `-f` is the last argument
    | MissingPortNumber        // `-p` is the last argument
    | InvalidPort(arg: string) // the value after `-p` is not a `u16`
    | UnknownArgument(arg: string)
    | MissingFileArgument      // no `-f` at all

  /** What the process goes on to do. */
  datatype Command =
    | Help                               // print usage, exit 0
    | Version                            // print the version, exit 0
    | Error(reason: CliError)            // print the reason, exit 1
    | Config(file: string, port: Port)   // load `file` and serve on `port`

  predicate IsHelpFlag(a: string)
  {
    a == "-h" || a == "--help"
  }

  predicate IsVersionFlag(a: string)
  {
    a == "-v" || a == "--version"
  }

  predicate IsInfoFlag(a: string)
  {
    IsHelpFlag(a) || IsVersionFlag(a)
  }

  // ---------------------------------------------------------------------------
  // Ports: Rust's `u16::from_str` and the decimal form `format!` prints.

  predicate IsDigit(c: char)
  {
    '0' <= c <= '9'
  }

  predicate AllDigits(s: string)
  {
    forall i :: 0 <= i < |s| ==> IsDigit(s[i])
  }

  /** The number a string of decimal digits denotes, most significant first. */
  function DigitsValue(s: string): nat
    requires AllDigits(s)
  {
    if |s| == 0 then 0
    else DigitsValue(s[..|s| - 1]) * 10 + (s[|s| - 1] as int - '0' as int)
  }

  /**
   * `s.parse::<u16>()`: an optional leading `+` (never `-`), then at least one
   * ASCII digit, denoting a value below 65536; leading zeros are allowed.
   */
  function ParsePort(s: string): (r: Option<Port>)
    ensures |s| == 0 || s[0] == '-' ==> r.None?
    ensures r.Some? <==> var digits := if |s| > 0 && s[0] == '+' then s[1..] else s;
      |digits| > 0 && AllDigits(digits) && DigitsValue(digits) < 0x1_0000
    ensures r.Some? ==> var digits := if s[0] == '+' then s[1..] else s;
      |digits| > 0 && AllDigits(digits) && DigitsValue(digits) == r.value
  {
    var digits := if |s| > 0 && s[0] == '+' then s[1..] else s;
    if |digits| > 0 && AllDigits(digits) && DigitsValue(digits) < 0x1_0000 then
      Some(DigitsValue(digits))
    else
      None
  }

  /** The decimal form of `n`, as `format!("{}", n)` prints it. */
  function DecimalString(n: nat): string
  {
    if n < 10 then [('0' as int + n) as char]
    else DecimalString(n / 10) + [('0' as int + n % 10) as char]
  }

  lemma {:induction false} DecimalStringDigits(n: nat)
    ensures |DecimalString(n)| > 0 && AllDigits(DecimalString(n))
    ensures DigitsValue(DecimalString(n)) == n
  {
    if n >= 10 {
      DecimalStringDigits(n / 10);
      var s := DecimalString(n);
      var prefix := DecimalString(n / 10);
      assert s[..|s| - 1] == prefix;
    }
  }

  /** A number printed in decimal parses back as a port exactly when it fits 16 bits. */
  lemma ParsePortOfDecimal(n: nat)
    ensures ParsePort(DecimalString(n)) == if n < 0x1_0000 then Some(n) else None
    ensures ParsePort("+" + DecimalString(n)) == ParsePort(DecimalString(n))
  {
    DecimalStringDigits(n);
    assert ("+" + DecimalString(n))[1..] == DecimalString(n);
  }

  // ---------------------------------------------------------------------------
  // The reference definition of the parse.

  /** The first index at or after `from` holding a help or version flag. */
  function FirstInfoFlag(args: seq<string>, from: nat): (r: Option<nat>)
    decreases |args| - from
    ensures r.Some? ==> from <= r.value < |args| && IsInfoFlag(args[r.value])
    ensures r.Some? ==> forall j :: from <= j < r.value ==> !IsInfoFlag(args[j])
    ensures r.None? <==> forall j :: from <= j < |args| ==> !IsInfoFlag(args[j])
  {
    if from >= |args| then None
    else if IsInfoFlag(args[from]) then Some(from)
    else FirstInfoFlag(args, from + 1)
  }

  /** The end of the option pass. */
  function Finish(file: Option<string>, port: Port): Command
  {
    if file.None? then Error(MissingFileArgument) else Config(file.value, port)
  }

  /** The option pass from index `i`, with the file and port chosen so far. */
  function Scan(args: seq<string>, i: nat, file: Option<string>, port: Port): Command
    decreases |args| - i
  {
    if i >= |args| then Finish(file, port)
    else if args[i] == "-f" then
      if i + 1 < |args| then Scan(args, i + 2, Some(args[i + 1]), port)
      else Error(MissingFileName)
    else if args[i] == "-p" then
      if i + 1 < |args| then
        match ParsePort(args[i + 1])
        case None => Error(InvalidPort(args[i + 1]))
        case Some(p) => Scan(args, i + 2, file, p)
      else Error(MissingPortNumber)
    else Error(UnknownArgument(args[i]))
  }

  /** The whole parse: `args[0]` is the program name, and is scanned for flags too. */
  function Parse(args: seq<string>): Command
  {
    match FirstInfoFlag(args, 0)
    case Some(k) => if IsHelpFlag(args[k]) then Help else Version
    case None => Scan(args, 1, None, DefaultPort)
  }

  /** The two loops of `main`. */
  method ParseArgs(args: seq<string>) returns (cmd: Command)
    ensures cmd == Parse(args)
  {
    for k := 0 to |args|
      invariant forall j :: 0 <= j < k ==> !IsInfoFlag(args[j])
    {
      if IsHelpFlag(args[k]) {
        return Help;
      }
      if IsVersionFlag(args[k]) {
        return Version;
      }
    }
    var file: Option<string> := None;
    var port: Port := DefaultPort;
    var i := 1;
    while i < |args|
      invariant 1 <= i
      invariant Scan(args, i, file, port) == Parse(args)
    {
      if args[i] == "-f" {
        if i + 1 < |args| {
          file := Some(args[i + 1]);
          i := i + 2;
        } else {
          return Error(MissingFileName);
        }
      } else if args[i] == "-p" {
        if i + 1 < |args| {
          var p := ParsePort(args[i + 1]);
          if p.None? {
            return Error(InvalidPort(args[i + 1]));
          }
          port := p.value;
          i := i + 2;
        } else {
          return Error(MissingPortNumber);
        }
      } else {
        return Error(UnknownArgument(args[i]));
      }
    }
    if file.None? {
      return Error(MissingFileArgument);
    }
    return Config(file.value, port);
  }

  // ---------------------------------------------------------------------------
  // What the parse means, stated over argument positions.

  /** Index `j` is where the option pass expects a flag: 1, 3, 5, ... */
  predicate OptionPos(args: seq<string>, j: int)
  {
    1 <= j < |args| && j % 2 == 1
  }

  /** The flag at option position `j` is `-f` or `-p` with a usable value after it. */
  predicate GoodOption(args: seq<string>, j: int)
    requires OptionPos(args, j)
  {
    && j + 1 < |args|
    && (args[j] == "-f" || (args[j] == "-p" && ParsePort(args[j + 1]).Some?))
  }

  ghost predicate WellFormedFrom(args: seq<string>, i: int)
  {
    forall j :: OptionPos(args, j) && i <= j ==> GoodOption(args, j)
  }

  /** After the program name, the arguments are `-f <file>` and `-p <port>` pairs. */
  ghost predicate OptionsWellFormed(args: seq<string>)
  {
    WellFormedFrom(args, 1)
  }

  ghost predicate HasOptionFrom(args: seq<string>, flag: string, i: int)
  {
    exists j :: OptionPos(args, j) && i <= j && args[j] == flag
  }

  /** `flag` stands at option position `k` and at no later one. */
  ghost predicate LastOption(args: seq<string>, flag: string, k: int)
  {
    && OptionPos(args, k) && args[k] == flag
    && forall j :: OptionPos(args, j) && k < j ==> args[j] != flag
  }

  /** The error the option pass reports for a bad option at position `j`. */
  function OptionError(args: seq<string>, j: nat): CliError
    requires j < |args|
  {
    if args[j] == "-f" then MissingFileName
    else if args[j] == "-p" then
      if j + 1 < |args| then InvalidPort(args[j + 1]) else MissingPortNumber
    else UnknownArgument(args[j])
  }

  /** One option position: well-formedness from `i` is the option at `i` plus the rest. */
  lemma WellFormedStep(args: seq<string>, i: int)
    requires OptionPos(args, i)
    ensures WellFormedFrom(args, i) <==> GoodOption(args, i) && WellFormedFrom(args, i + 2)
  {

  }

  /** One option position: `flag` occurs from `i` if it is at `i` or occurs from `i + 2`. */
  lemma HasOptionStep(args: seq<string>, flag: string, i: int)
    requires OptionPos(args, i)
    ensures HasOptionFrom(args, flag, i) <==> args[i] == flag || HasOptionFrom(args, flag, i + 2)
  {

  }

  /** The option pass yields a configuration exactly when every option from `i` is good and a file is known. */
  lemma {:induction false} ScanConfigIff(args: seq<string>, i: nat, file: Option<string>, port: Port)
    requires i >= 1 && i % 2 == 1
    decreases |args| - i
    ensures Scan(args, i, file, port).Config? <==>
      WellFormedFrom(args, i) && (file.Some? || HasOptionFrom(args, "-f", i))
  {
    if i < |args| {
      WellFormedStep(args, i);
      HasOptionStep(args, "-f", i);
      if GoodOption(args, i) {
        var next := if args[i] == "-f" then Some(args[i + 1]) else file;
        var nextPort := if args[i] == "-p" then ParsePort(args[i + 1]).value else port;
        ScanConfigIff(args, i + 2, next, nextPort);
      }
    }
  }

  /** The file of a configuration is the value after the last `-f`, or the one chosen before `i`. */
  lemma {:induction false} ScanConfigFile(args: seq<string>, i: nat, file: Option<string>, port: Port)
    requires i >= 1 && i % 2 == 1
    requires Scan(args, i, file, port).Config?
    decreases |args| - i
    ensures var c := Scan(args, i, file, port);
      (exists k :: i <= k && LastOption(args, "-f", k) && k + 1 < |args| && c.file == args[k + 1])
      || (!HasOptionFrom(args, "-f", i) && file == Some(c.file))
  {
    var c := Scan(args, i, file, port);
    if i < |args| {
      HasOptionStep(args, "-f", i);
      var next := if args[i] == "-f" then Some(args[i + 1]) else file;
      var nextPort := if args[i] == "-p" then ParsePort(args[i + 1]).value else port;
      ScanConfigFile(args, i + 2, next, nextPort);
      if !HasOptionFrom(args, "-f", i + 2) && args[i] == "-f" {
        assert LastOption(args, "-f", i);
      }
    }
  }

  /** The port of a configuration is the value after the last `-p`, or the one chosen before `i`. */
  lemma {:induction false} ScanConfigPort(args: seq<string>, i: nat, file: Option<string>, port: Port)
    requires i >= 1 && i % 2 == 1
    requires Scan(args, i, file, port).Config?
    decreases |args| - i
    ensures var c := Scan(args, i, file, port);
      && (!HasOptionFrom(args, "-p", i) ==> c.port == port)
      && forall k :: i <= k && LastOption(args, "-p", k) && k + 1 < |args| ==> ParsePort(args[k + 1]) == Some(c.port)
  {
    var c := Scan(args, i, file, port);
    if i < |args| {
      HasOptionStep(args, "-p", i);
      var next := if args[i] == "-f" then Some(args[i + 1]) else file;
      var nextPort := if args[i] == "-p" then ParsePort(args[i + 1]).value else port;
      ScanConfigPort(args, i + 2, next, nextPort);
      forall k | i <= k && LastOption(args, "-p", k) && k + 1 < |args|
        ensures ParsePort(args[k + 1]) == Some(c.port)
      {
        if k == i {
          assert !HasOptionFrom(args, "-p", i + 2);
        } else {
          assert i + 2 <= k;
        }
      }
    }
  }

  lemma {:induction false} ScanError(args: seq<string>, i: nat, file: Option<string>, port: Port, j: nat)
    requires i >= 1 && i % 2 == 1 && i <= j
    requires OptionPos(args, j) && !GoodOption(args, j)
    requires forall m :: OptionPos(args, m) && i <= m < j ==> GoodOption(args, m)
    decreases j - i
    ensures Scan(args, i, file, port) == Error(OptionError(args, j))
  {
    assert OptionPos(args, i);
    if i < j {
      assert GoodOption(args, i);
      var next := if args[i] == "-f" then Some(args[i + 1]) else file;
      var nextPort := if args[i] == "-p" then ParsePort(args[i + 1]).value else port;
      ScanError(args, i + 2, next, nextPort, j);
    }
  }

  lemma {:induction false} ScanNotInfo(args: seq<string>, i: nat, file: Option<string>, port: Port)
    decreases |args| - i
    ensures !Scan(args, i, file, port).Help? && !Scan(args, i, file, port).Version?
  {
    if i < |args| && i + 1 < |args| && (args[i] == "-f" || args[i] == "-p") {
      var next := if args[i] == "-f" then Some(args[i + 1]) else file;
      var nextPort := if args[i] == "-p" && ParsePort(args[i + 1]).Some? then ParsePort(args[i + 1]).value else port;
      ScanNotInfo(args, i + 2, next, nextPort);
    }
  }

  /** The first help or version flag anywhere in the arguments decides the outcome. */
  lemma InfoFlagDecides(args: seq<string>, k: nat)
    requires k < |args| && IsInfoFlag(args[k])
    requires forall j :: 0 <= j < k ==> !IsInfoFlag(args[j])
    ensures Parse(args) == if IsHelpFlag(args[k]) then Help else Version
  {

  }

  /** Help or version comes out of the parse exactly when such a flag is present. */
  lemma InfoOnlyFromFlags(args: seq<string>)
    ensures (Parse(args).Help? || Parse(args).Version?) <==>
      exists k :: 0 <= k < |args| && IsInfoFlag(args[k])
  {
    ScanNotInfo(args, 1, None, DefaultPort);
  }

  /**
   * Without help or version flags, the parse gives a configuration exactly
   * when the options are well-formed pairs and one of them is `-f`; the file
   * is the value of the last `-f` and the port that of the last `-p`, 3000
   * when there is none.
   */
  lemma ParseConfig(args: seq<string>)
    requires forall j :: 0 <= j < |args| ==> !IsInfoFlag(args[j])
    ensures Parse(args).Config? <==> OptionsWellFormed(args) && HasOptionFrom(args, "-f", 1)
    ensures Parse(args).Config? ==>
      exists k :: LastOption(args, "-f", k) && Parse(args).file == args[k + 1]
    ensures Parse(args).Config? && !HasOptionFrom(args, "-p", 1) ==> Parse(args).port == DefaultPort
    ensures Parse(args).Config? ==>
      forall k :: LastOption(args, "-p", k) ==> ParsePort(args[k + 1]) == Some(Parse(args).port)
  {
    ScanConfigIff(args, 1, None, DefaultPort);
    if Parse(args).Config? {
      ScanConfigFile(args, 1, None, DefaultPort);
      ScanConfigPort(args, 1, None, DefaultPort);
      assert exists k :: 1 <= k && LastOption(args, "-f", k) && k + 1 < |args| && Parse(args).file == args[k + 1];
    }
  }

  /**
   * Without help or version flags, the first bad option decides the error:
   * `-f` or `-p` as the last argument, a port that does not parse, or an
   * unknown argument; well-formed options without `-f` miss the file.
   */
  lemma ParseError(args: seq<string>, j: nat)
    requires forall i :: 0 <= i < |args| ==> !IsInfoFlag(args[i])
    requires OptionPos(args, j) && !GoodOption(args, j)
    requires forall m :: OptionPos(args, m) && m < j ==> GoodOption(args, m)
    ensures Parse(args) == Error(OptionError(args, j))
  {
    ScanError(args, 1, None, DefaultPort, j);
  }

  /** Well-formed options without any `-f` end in the missing-file error. */
  lemma ParseMissingFile(args: seq<string>)
    requires forall i :: 0 <= i < |args| ==> !IsInfoFlag(args[i])
    requires OptionsWellFormed(args) && !HasOptionFrom(args, "-f", 1)
    ensures Parse(args) == Error(MissingFileArgument)
  {
    ScanMissingFile(args, 1, DefaultPort);
  }

  lemma {:induction false} ScanMissingFile(args: seq<string>, i: nat, port: Port)
    requires i >= 1 && i % 2 == 1
    requires WellFormedFrom(args, i) && !HasOptionFrom(args, "-f", i)
    decreases |args| - i
    ensures Scan(args, i, None, port) == Error(MissingFileArgument)
  {
    if i < |args| {
      WellFormedStep(args, i);
      HasOptionStep(args, "-f", i);
      ScanMissingFile(args, i + 2, ParsePort(args[i + 1]).value);
    }
  }
}
