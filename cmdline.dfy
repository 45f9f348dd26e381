// Command-line parsing of the update tool (main.c): the table of known
// options, the setting of one option into the argument record, the loop over
// argv with its pending option, and the exit status. Strings are NUL-free
// character sequences, as in CLib: index |s| stands for the terminating NUL.
module CmdLine {
  import opened CLib

  const U32_MOD: int := 0x1_0000_0000

  /** BaudrateDefaultI2C (platform.h). */
  const BAUDRATE_DEFAULT_I2C: nat := 100000

  /** RETURNCODE_t. */
  const SUCCESS: int := 0
  const ERROR_ARGUMENTS: int := 1
  const ERROR_UPDATE: int := 2

  /** ARG_t. */
  datatype Arg =
    | UnknownArg | Baudrate | Port | FlashFile | FisFile | Help | Version | FileName
    | DoSafeBoot | RamSafeBoot | UsbPort | Verbosity | Autobaud | Reset | EraseAll
    | EraseOnly | Training | FisOnly | ChipErase | NoFisMerging | UpdateRam | UsbAltMode

  /** CL_ARGUMENTS_t as a value; BOOL fields are bool, the unsigned int
      fields hold values below 2^32. */
  datatype Settings = Settings(
    binaryFileName: string, flashDefFileName: string, fisFileName: string,
    comPort: string, baudrate: nat, baudrateSafe: nat, baudrateUpd: nat,
    doSafeBoot: bool, doReset: bool, verbose: int, autobaud: bool,
    eraseWholeFlash: bool, eraseOnly: bool, trainingSequence: bool,
    fisOnly: bool, chipErase: bool, noFisMerging: bool, updateRam: nat,
    usbAltMode: bool)

  /** defaultargs. The port is the Windows device name \\.\COM1. */
  const Defaults: Settings := Settings(
    "", "", "flash.xml", "\\\\.\\COM1", 9600, 9600, 115200,
    true, true, 0, false, true, false, true, false, false, false, 0, false)

  /** knownArgs, in table order. */
  const KnownArgs: seq<(string, Arg)> := [
    ("-b", Baudrate), ("-p", Port), ("-f", FlashFile), ("-F", FisFile),
    ("-h", Help), ("-s", DoSafeBoot), ("-v", Verbosity), ("-R", Reset),
    ("-a", Autobaud), ("-e", EraseAll), ("-E", EraseOnly), ("-t", Training),
    ("--help", Help), ("--version", Version), ("--fis-only", FisOnly),
    ("-C", ChipErase), ("--no-fis", NoFisMerging), ("--up-ram", UpdateRam),
    ("--usb-alt", UsbAltMode)]

  /** Every table entry is an option string bound to a known argument. */
  lemma KnownArgsShape()
    ensures forall i :: 0 <= i < |KnownArgs| ==>
      KnownArgs[i].1 != UnknownArg && KnownArgs[i].1 != FileName &&
      |KnownArgs[i].0| >= 2 && KnownArgs[i].0[0] == '-'
  {
    forall i | 0 <= i < |KnownArgs|
      ensures KnownArgs[i].1 != UnknownArg && KnownArgs[i].1 != FileName
      ensures |KnownArgs[i].0| >= 2 && KnownArgs[i].0[0] == '-'
    {
      assert i in {0, 1, 2, 3, 4, 5, 6, 7, 8, 9, 10, 11, 12, 13, 14, 15, 16, 17, 18};
    }
  }

  // ---------------------------------------------------------------------
  // GetArgAssociation
  // ---------------------------------------------------------------------

  /** The argument of the first table entry from idx on whose string is arg. */
  function LookupFrom(arg: string, idx: nat): Arg
    requires idx <= |KnownArgs|
    decreases |KnownArgs| - idx
  {
    if idx == |KnownArgs| then UnknownArg
    else if KnownArgs[idx].0 == arg then KnownArgs[idx].1
    else LookupFrom(arg, idx + 1)
  }

  function Association(arg: string): Arg
  {
    LookupFrom(arg, 0)
  }

  /** The entry at i is the first one whose string is arg. */
  lemma {:induction false} LookupAt(arg: string, idx: nat, i: nat)
    requires idx <= i < |KnownArgs| && KnownArgs[i].0 == arg
    requires forall j :: idx <= j < i ==> KnownArgs[j].0 != arg
    ensures LookupFrom(arg, idx) == KnownArgs[i].1
    decreases i - idx
  {
    if idx < i {
      LookupAt(arg, idx + 1, i);
    }
  }

  /** GetArgAssociation: a linear search of the table for an exact match. */
  method GetArgAssociation(arg: string) returns (r: Arg)
    ensures r == Association(arg)
    ensures r == UnknownArg <==> forall i :: 0 <= i < |KnownArgs| ==> KnownArgs[i].0 != arg
    ensures r != UnknownArg ==>
      exists i :: 0 <= i < |KnownArgs| && KnownArgs[i] == (arg, r) &&
        forall j :: 0 <= j < i ==> KnownArgs[j].0 != arg
  {
    var idx := 0;
    while idx < |KnownArgs|
      invariant idx <= |KnownArgs|
      invariant LookupFrom(arg, idx) == Association(arg)
      invariant forall j :: 0 <= j < idx ==> KnownArgs[j].0 != arg
    {
      if KnownArgs[idx].0 == arg {
        return KnownArgs[idx].1;
      }
      idx := idx + 1;
    }
    return UnknownArg;
  }

  // ---------------------------------------------------------------------
  // SetArgument
  // ---------------------------------------------------------------------

  /** strncmp(s, p, |p|) == 0 for a NUL-free s: s begins with p. */
  predicate Prefixed(s: string, p: string)
  {
    |p| <= |s| && s[..|p|] == p
  }

  /** An Aardvark or Diolan I2C or SPI port, over which no training
      sequence is sent. */
  predicate BusPort(port: string)
  {
    Prefixed(port, "I2C") || Prefixed(port, "U2C") || Prefixed(port, "SPI") || Prefixed(port, "SPU")
  }

  /** An Aardvark or Diolan I2C port. */
  predicate I2cPort(port: string)
  {
    Prefixed(port, "I2C") || Prefixed(port, "U2C")
  }

  /** Conversion of a long to unsigned int: the value modulo 2^32. */
  function ToUInt(x: int): (r: nat)
    ensures r < U32_MOD && (0 <= x < U32_MOD ==> r == x)
  {
    x % U32_MOD
  }

  /** The three rates "-b" sets from "a", "a:b" or "a:b:c": the current,
      safeboot and update baud rates. */
  function BaudValues(value: string): (nat, nat, nat)
  {
    var a := ToUInt(Atol(value));
    match IndexOf(value, ':', 0)
    case None => (a, a, a)
    case Some(p) => var (b, c) := AfterColon(value[p + 1..]); (a, b, c)
  }

  /** The safeboot and update rates from the text after the first colon. */
  function AfterColon(rest: string): (nat, nat)
  {
    var b := ToUInt(Atol(rest));
    match IndexOf(rest, ':', 0)
    case None => (b, b)
    case Some(q) => (b, ToUInt(Atol(rest[q + 1..])))
  }

  /** The BAUDRATE case. */
  function Rates(s: Settings, value: string): Settings
  {
    var r := BaudValues(value);
    s.(baudrate := r.0, baudrateSafe := r.1, baudrateUpd := r.2)
  }

  /** The PORT case. */
  function SetPort(s: Settings, value: string): Settings
  {
    var named := s.(comPort := value);
    var quiet := if BusPort(value) then named.(trainingSequence := false) else named;
    if I2cPort(value) then
      quiet.(baudrate := BAUDRATE_DEFAULT_I2C, baudrateSafe := BAUDRATE_DEFAULT_I2C,
             baudrateUpd := BAUDRATE_DEFAULT_I2C)
    else quiet
  }

  /** What SetArgument leaves: the argument record, the static
      binaryFileGiven flag and the returned BOOL. */
  datatype Applied = Applied(args: Settings, given: bool, ok: bool)

  /** SetArgument(option, value, clargs) with binaryFileGiven == given. */
  function SetArg(s: Settings, given: bool, option: Arg, value: string): Applied
  {
    if option == Baudrate then Applied(Rates(s, value), given, true)
    else if option == Port then Applied(SetPort(s, value), given, true)
    else if option == Help then Applied(s, given, false)
    else if option == FileName then
      if !given then Applied(s.(binaryFileName := value), true, true) else Applied(s, given, true)
    else Applied(Field(s, option, value, Atoi(value)), given, true)
  }

  /** The cases of SetArgument that write one field, n being atoi(value):
      each field below is written by its own option only. The default case
      (UNKNOWN_ARG, VERSION, RAMSAFEBOOT, USBPORT) prints the usage and
      changes nothing. */
  function Field(s: Settings, option: Arg, value: string, n: int): Settings
  {
    s.(flashDefFileName := if option == FlashFile then value else s.flashDefFileName,
       fisFileName := if option == FisFile then value else s.fisFileName,
       doSafeBoot := if option == DoSafeBoot then n != 0 else s.doSafeBoot,
       verbose := if option == Verbosity then n else s.verbose,
       autobaud := if option == Autobaud then n != 0 else s.autobaud,
       doReset := if option == Reset then n != 0 else s.doReset,
       eraseWholeFlash := if option == EraseAll then true else s.eraseWholeFlash,
       eraseOnly := if option == EraseOnly then n != 0 else s.eraseOnly,
       trainingSequence :=
         if option != Training then s.trainingSequence
         else if BusPort(s.comPort) then false
         else n != 0,
       fisOnly := if option == FisOnly then n != 0 else s.fisOnly,
       chipErase := if option == ChipErase then n != 0 else s.chipErase,
       noFisMerging := if option == NoFisMerging then n != 0 else s.noFisMerging,
       updateRam := if option == UpdateRam then ToUInt(n) else s.updateRam,
       usbAltMode := if option == UsbAltMode then n != 0 else s.usbAltMode)
  }

  /** "-b a": all three rates are a. */
  lemma BaudValuesOne(a: nat)
    requires a < U32_MOD
    ensures BaudValues(Dec(a)) == (a, a, a)
  {
    var v := Dec(a);
    StrToLDecPrefix(a, []);
    assert v + [] == v;
    assert IndexOf(v, ':', 0) == None by {
      assert forall k :: 0 <= k < |v| ==> IsDigit(v[k]);
    }
  }

  /** "-b a:b": the safeboot and update rates are both b. */
  lemma BaudValuesTwo(a: nat, b: nat)
    requires a < U32_MOD && b < U32_MOD
    ensures BaudValues(Dec(a) + ":" + Dec(b)) == (a, b, b)
  {
    var da, db := Dec(a), Dec(b);
    StrToLDecPrefix(a, ":" + db);
    NextColon(da, db);
    AfterColonOne(b);
  }

  lemma AfterColonOne(b: nat)
    requires b < U32_MOD
    ensures AfterColon(Dec(b)) == (b, b)
  {
    var db := Dec(b);
    StrToLDecPrefix(b, []);
    assert db + [] == db;
    assert IndexOf(db, ':', 0) == None by {
      assert forall k :: 0 <= k < |db| ==> IsDigit(db[k]);
    }
  }

  /** "-b a:b:c": the rates are a, b and c. */
  lemma BaudValuesThree(a: nat, b: nat, c: nat)
    requires a < U32_MOD && b < U32_MOD && c < U32_MOD
    ensures BaudValues(Dec(a) + ":" + Dec(b) + ":" + Dec(c)) == (a, b, c)
  {
    var da, db, dc := Dec(a), Dec(b), Dec(c);
    var rest := db + ":" + dc;
    assert da + ":" + db + ":" + dc == da + ":" + rest;
    StrToLDecPrefix(a, ":" + rest);
    NextColon(da, rest);
    AfterColonTwo(b, c);
  }

  lemma AfterColonTwo(b: nat, c: nat)
    requires b < U32_MOD && c < U32_MOD
    ensures AfterColon(Dec(b) + ":" + Dec(c)) == (b, c)
  {
    var db, dc := Dec(b), Dec(c);
    StrToLDecPrefix(b, ":" + dc);
    NextColon(db, dc);
    StrToLDecPrefix(c, []);
    assert dc + [] == dc;
  }

  /** strchr finds the colon after a run of digits. */
  lemma NextColon(ds: string, rest: string)
    requires AllDigits(ds)
    ensures IndexOf(ds + ":" + rest, ':', 0) == Some(|ds|)
    ensures (ds + ":" + rest)[|ds| + 1..] == rest
    ensures ds + ":" + rest == ds + (":" + rest)
  {
    ColonFrom(ds, rest, 0);
    SuffixAfter(ds + ":", rest);
    Regroup(ds, rest);
  }

  lemma Regroup(ds: string, rest: string)
    ensures ds + ":" + rest == ds + (":" + rest)
  {
  }

  lemma {:induction false} ColonFrom(ds: string, rest: string, i: nat)
    requires AllDigits(ds) && i <= |ds|
    ensures IndexOf(ds + ":" + rest, ':', i) == Some(|ds|)
    decreases |ds| - i
  {
    var v := ds + ":" + rest;
    if i < |ds| {
      assert v[i] == ds[i];
      ColonFrom(ds, rest, i + 1);
    } else {
      assert v[i] == ':';
    }
  }

  lemma SuffixAfter(pre: string, rest: string)
    ensures (pre + rest)[|pre|..] == rest
  {
  }

  /** "-b" writes the three rates and nothing else. */
  lemma BaudrateRule(s: Settings, given: bool, value: string)
    ensures var r := SetArg(s, given, Baudrate, value);
      var (a, b, c) := BaudValues(value);
      r == Applied(s.(baudrate := a, baudrateSafe := b, baudrateUpd := c), given, true)
  {
    assert SetArg(s, given, Baudrate, value) == Applied(Rates(s, value), given, true);
  }

  /** "-p port": the port is stored; a bus port clears the training
      sequence, an I2C port also sets all three rates to 100000, and
      nothing else changes. */
  lemma PortRules(s: Settings, given: bool, port: string)
    ensures var r := SetArg(s, given, Port, port);
      var bus := |port| >= 3 && port[..3] in {"I2C", "U2C", "SPI", "SPU"};
      var i2c := |port| >= 3 && port[..3] in {"I2C", "U2C"};
      && r.given == given && r.ok
      && r.args.comPort == port
      && r.args.trainingSequence == (s.trainingSequence && !bus)
      && (i2c ==> r.args.baudrate == r.args.baudrateSafe == r.args.baudrateUpd == 100000)
      && (!i2c ==> (r.args.baudrate, r.args.baudrateSafe, r.args.baudrateUpd)
                   == (s.baudrate, s.baudrateSafe, s.baudrateUpd))
      && r.args.(comPort := s.comPort, trainingSequence := s.trainingSequence,
                 baudrate := s.baudrate, baudrateSafe := s.baudrateSafe,
                 baudrateUpd := s.baudrateUpd) == s
  {
    PortApplied(s, given, port);
    PortFields(s, port);
    PortPrefixes(port);
  }

  lemma PortApplied(s: Settings, given: bool, port: string)
    ensures SetArg(s, given, Port, port) == Applied(SetPort(s, port), given, true)
  {
  }

  /** The PORT case in terms of BusPort and I2cPort. */
  lemma PortFields(s: Settings, port: string)
    ensures var r := SetPort(s, port);
      && r.comPort == port
      && r.trainingSequence == (s.trainingSequence && !BusPort(port))
      && (I2cPort(port) ==> r.baudrate == r.baudrateSafe == r.baudrateUpd == 100000)
      && (!I2cPort(port) ==> (r.baudrate, r.baudrateSafe, r.baudrateUpd)
                             == (s.baudrate, s.baudrateSafe, s.baudrateUpd))
      && r.(comPort := s.comPort, trainingSequence := s.trainingSequence,
            baudrate := s.baudrate, baudrateSafe := s.baudrateSafe,
            baudrateUpd := s.baudrateUpd) == s
  {
    var i2c, bus := I2cPort(port), BusPort(port);
    PortCase(s, port, i2c, bus);
  }

  lemma PortCase(s: Settings, port: string, i2c: bool, bus: bool)
    requires i2c == I2cPort(port) && bus == BusPort(port)
    ensures SetPort(s, port) == s.(comPort := port,
      trainingSequence := s.trainingSequence && !bus,
      baudrate := if i2c then BAUDRATE_DEFAULT_I2C else s.baudrate,
      baudrateSafe := if i2c then BAUDRATE_DEFAULT_I2C else s.baudrateSafe,
      baudrateUpd := if i2c then BAUDRATE_DEFAULT_I2C else s.baudrateUpd)
  {
    if i2c {
      assert bus;
    }
  }

  /** BusPort and I2cPort in terms of the three-character prefix. */
  lemma PortPrefixes(port: string)
    ensures BusPort(port) <==> |port| >= 3 && port[..3] in {"I2C", "U2C", "SPI", "SPU"}
    ensures I2cPort(port) <==> |port| >= 3 && port[..3] in {"I2C", "U2C"}
  {
  }

  /** "-e value": whole-flash erase is set whatever the value. */
  lemma EraseAllAlways(s: Settings, given: bool, value: string)
    ensures SetArg(s, given, EraseAll, value) == Applied(s.(eraseWholeFlash := true), given, true)
  {
    assert SetArg(s, given, EraseAll, value) == Applied(Field(s, EraseAll, value, Atoi(value)), given, true);
  }

  /** "-t value": no training sequence on a bus port, otherwise the flag. */
  lemma TrainingRule(s: Settings, given: bool, value: string)
    ensures var r := SetArg(s, given, Training, value);
      r.args.trainingSequence == (!BusPort(s.comPort) && Atoi(value) != 0)
      && r.args == s.(trainingSequence := r.args.trainingSequence)
  {
    assert SetArg(s, given, Training, value) == Applied(Field(s, Training, value, Atoi(value)), given, true);
  }

  /** A standalone argument names the image only while none was given. */
  lemma FileNameRule(s: Settings, given: bool, value: string)
    ensures var r := SetArg(s, given, FileName, value);
      r.given && r.ok
      && r.args == (if given then s else s.(binaryFileName := value))
  {
  }

  /** SetArgument returns FALSE only for HELP, and only FILENAME sets the
      static flag. */
  lemma SetArgResult(s: Settings, given: bool, option: Arg, value: string)
    ensures SetArg(s, given, option, value).ok <==> option != Help
    ensures SetArg(s, given, option, value).given <==> given || option == FileName
  {
  }

  /** "-h" and "--help": nothing changes and the result is FALSE. */
  lemma HelpRule(s: Settings, given: bool, value: string)
    ensures SetArg(s, given, Help, value) == Applied(s, given, false)
  {
  }

  /** The options writing one field leave the rest to Field. */
  lemma FieldRule(s: Settings, given: bool, option: Arg, value: string)
    requires option !in {Baudrate, Port, Help, FileName}
    ensures SetArg(s, given, option, value) == Applied(Field(s, option, value, Atoi(value)), given, true)
  {
  }

  /** Once the flag is set, no option changes the image file name. */
  lemma SetArgKeepsName(s: Settings, option: Arg, value: string)
    ensures var r := SetArg(s, true, option, value);
      r.given && r.args.binaryFileName == s.binaryFileName
  {
    if option == Baudrate {
      BaudrateRule(s, true, value);
    } else if option == Port {
      PortRules(s, true, value);
    } else if option == Help {
      HelpRule(s, true, value);
    } else if option == FileName {
      FileNameRule(s, true, value);
    } else {
      FieldRule(s, true, option, value);
      FieldKeepsName(s, option, value, Atoi(value));
    }
  }

  lemma FieldKeepsName(s: Settings, option: Arg, value: string, n: int)
    ensures Field(s, option, value, n).binaryFileName == s.binaryFileName
  {
  }

  /** The whole flash is always erased, and no training sequence is
      configured for a bus port. */
  predicate Consistent(s: Settings)
  {
    s.eraseWholeFlash && (BusPort(s.comPort) ==> !s.trainingSequence)
  }

  lemma SetArgConsistent(s: Settings, given: bool, option: Arg, value: string)
    requires Consistent(s)
    ensures Consistent(SetArg(s, given, option, value).args)
  {
    if option == Baudrate {
      BaudrateRule(s, given, value);
    } else if option == Port {
      PortRules(s, given, value);
      PortPrefixes(value);
    } else if option == Help {
      HelpRule(s, given, value);
    } else if option == FileName {
      FileNameRule(s, given, value);
    } else {
      FieldRule(s, given, option, value);
      FieldConsistent(s, option, value, Atoi(value));
    }
  }

  lemma FieldConsistent(s: Settings, option: Arg, value: string, n: int)
    requires Consistent(s)
    ensures Consistent(Field(s, option, value, n))
  {
  }

  // ---------------------------------------------------------------------
  // ParseArguments
  // ---------------------------------------------------------------------

  /** The character at index i of a C string; index |s| is its NUL. */
  function CharAt(s: string, i: nat): char
  {
    if i < |s| then s[i] else '\0'
  }

  /** argv[arg][0] == '-' && argv[arg][1] != '\0'. */
  predicate IsOption(a: string)
  {
    CharAt(a, 0) == '-' && CharAt(a, 1) != '\0'
  }

  /** Options that end the parse with FALSE at once. */
  predicate Stops(option: Arg)
  {
    option == UnknownArg || option == Help || option == Version
  }

  /** The check after the loop: an erase-only run, a FIS-only run or a
      non-empty image file name. */
  predicate Enough(s: Settings)
  {
    s.eraseOnly || |s.binaryFileName| > 0 || s.fisOnly
  }

  /** What ParseArguments leaves: the returned BOOL, the argument record
      and the static binaryFileGiven flag. */
  datatype Parsed = Parsed(ok: bool, args: Settings, given: bool)

  /** The argument loop from index i with the pending option. */
  function ParseFrom(argv: seq<string>, i: nat, option: Arg, s: Settings, given: bool): Parsed
    decreases |argv| - i
  {
    if i >= |argv| then Parsed(Enough(s), s, given)
    else if IsOption(argv[i]) then
      var o := Association(argv[i]);
      if Stops(o) then Parsed(false, s, given)
      else ParseFrom(argv, i + 1, o, s, given)
    else if option != UnknownArg then
      var r := SetArg(s, given, option, argv[i]);
      ParseFrom(argv, i + 1, UnknownArg, r.args, r.given)
    else
      var r := SetArg(s, given, FileName, argv[i]);
      ParseFrom(argv, i + 1, UnknownArg, r.args, r.given)
  }

  /** ParseArguments(argc, argv, clargs), argv[0] being the program name. */
  function Parse(argv: seq<string>, given: bool): Parsed
  {
    ParseFrom(argv, 1, UnknownArg, Defaults, given)
  }

  predicate NoStopFrom(argv: seq<string>, i: nat)
  {
    forall k :: i <= k < |argv| && IsOption(argv[k]) ==> !Stops(Association(argv[k]))
  }

  lemma {:induction false} ParseFromOk(argv: seq<string>, i: nat, option: Arg, s: Settings, given: bool)
    ensures var r := ParseFrom(argv, i, option, s, given);
      r.ok <==> NoStopFrom(argv, i) && Enough(r.args)
    decreases |argv| - i
  {
    if i < |argv| {
      if IsOption(argv[i]) {
        if !Stops(Association(argv[i])) {
          ParseFromOk(argv, i + 1, Association(argv[i]), s, given);
        }
      } else if option != UnknownArg {
        var r := SetArg(s, given, option, argv[i]);
        ParseFromOk(argv, i + 1, UnknownArg, r.args, r.given);
      } else {
        var r := SetArg(s, given, FileName, argv[i]);
        ParseFromOk(argv, i + 1, UnknownArg, r.args, r.given);
      }
    }
  }

  /** ParseArguments returns TRUE exactly when no unknown, help or version
      option occurs and the run erases only, writes only the FIS or has an
      image file name. */
  lemma ParseOk(argv: seq<string>, given: bool)
    ensures var r := Parse(argv, given);
      r.ok <==> (forall k :: 1 <= k < |argv| && IsOption(argv[k]) ==> !Stops(Association(argv[k])))
                && (r.args.eraseOnly || r.args.fisOnly || |r.args.binaryFileName| > 0)
  {
    ParseFromOk(argv, 1, UnknownArg, Defaults, given);
  }

  lemma {:induction false} ParseFromConsistent(argv: seq<string>, i: nat, option: Arg, s: Settings, given: bool)
    requires Consistent(s)
    ensures Consistent(ParseFrom(argv, i, option, s, given).args)
    decreases |argv| - i
  {
    if i < |argv| {
      if IsOption(argv[i]) {
        if !Stops(Association(argv[i])) {
          ParseFromConsistent(argv, i + 1, Association(argv[i]), s, given);
        }
      } else {
        var o := if option != UnknownArg then option else FileName;
        var r := SetArg(s, given, o, argv[i]);
        SetArgConsistent(s, given, o, argv[i]);
        ParseFromConsistent(argv, i + 1, UnknownArg, r.args, r.given);
      }
    }
  }

  /** Whatever the arguments, the parsed record asks for the whole flash
      to be erased and for no training sequence over a bus port. */
  lemma ParseConsistent(argv: seq<string>, given: bool)
    ensures var r := Parse(argv, given).args;
      r.eraseWholeFlash && (BusPort(r.comPort) ==> !r.trainingSequence)
  {
    DefaultsConsistent();
    ParseFromConsistent(argv, 1, UnknownArg, Defaults, given);
  }

  /** The default port, a COM port, is no bus port. */
  lemma DefaultsConsistent()
    ensures Consistent(Defaults)
  {
    var port := Defaults.comPort;
    assert port[..3] == "\\\\.";
    PortPrefixes(port);
  }

  /** Once binaryFileGiven is set, the image file name never changes. */
  lemma {:induction false} FileNameFixed(argv: seq<string>, i: nat, option: Arg, s: Settings)
    ensures var r := ParseFrom(argv, i, option, s, true);
      r.given && r.args.binaryFileName == s.binaryFileName
    decreases |argv| - i
  {
    if i < |argv| {
      if IsOption(argv[i]) {
        if !Stops(Association(argv[i])) {
          FileNameFixed(argv, i + 1, Association(argv[i]), s);
        }
      } else {
        var o := if option != UnknownArg then option else FileName;
        var r := SetArg(s, true, o, argv[i]);
        SetArgKeepsName(s, o, argv[i]);
        FileNameFixed(argv, i + 1, UnknownArg, r.args);
      }
    }
  }

  /** In a first parse, a leading standalone argument is the image file
      name, whatever follows it. */
  lemma FirstStandaloneWins(argv: seq<string>)
    requires |argv| >= 2 && !IsOption(argv[1])
    ensures Parse(argv, false).args.binaryFileName == argv[1]
  {
    var r := SetArg(Defaults, false, FileName, argv[1]);
    FileNameFixed(argv, 2, UnknownArg, r.args);
  }

  /** A value after an option binds to it and clears the pending option. */
  lemma OptionValue(argv: seq<string>, i: nat, option: Arg, s: Settings, given: bool)
    requires i + 1 < |argv| && IsOption(argv[i]) && !IsOption(argv[i + 1])
    requires !Stops(Association(argv[i]))
    ensures var r := SetArg(s, given, Association(argv[i]), argv[i + 1]);
      ParseFrom(argv, i, option, s, given) == ParseFrom(argv, i + 2, UnknownArg, r.args, r.given)
  {
  }

  /** Without arguments the record holds the defaults, and the parse fails
      for want of an image file. */
  lemma NoArguments(exe: string, given: bool)
    ensures Parse([exe], given) == Parsed(false, Defaults, given)
  {
  }

  // ---------------------------------------------------------------------
  // The argument record and the parser
  // ---------------------------------------------------------------------

  /** CL_ARGUMENTS_t, the record SetArgument writes through its pointer;
      each write of one of its fields is an update of the held value. */
  class Arguments {
    var args: Settings

    /** A record holding s; main's uninitialised clArgs is given some s. */
    constructor (s: Settings)
      ensures args == s
    {
      args := s;
    }

    /** memcpy of a whole record. */
    method Load(s: Settings)
      modifies this
      ensures args == s
    {
      args := s;
    }
  }

  /** The program's parsing state: SetArgument's static binaryFileGiven. */
  class Parser {
    var binaryFileGiven: bool

    constructor ()
      ensures !binaryFileGiven
    {
      binaryFileGiven := false;
    }

    /** SetArgument: one option and its value into clargs. */
    method SetArgument(option: Arg, value: string, clargs: Arguments) returns (ok: bool)
      modifies this, clargs
      ensures Applied(clargs.args, binaryFileGiven, ok) ==
              SetArg(old(clargs.args), old(binaryFileGiven), option, value)
    {
      ok := true;
      match option {
        case Baudrate => SetRates(value, clargs);
        case Port => SetComPort(value, clargs);
        case Help =>
          ok := false;
        case FileName =>
          if !binaryFileGiven {
            clargs.args := clargs.args.(binaryFileName := value);
            binaryFileGiven := true;
          }
        case _ =>
          clargs.args := Field(clargs.args, option, value, Atoi(value));
      }
    }

    /** The BAUDRATE case. */
    method SetRates(value: string, clargs: Arguments)
      modifies clargs
      ensures clargs.args == Rates(old(clargs.args), value)
    {
      var baud := ToUInt(Atol(value));
      var safe, upd := baud, baud;
      var colon := IndexOf(value, ':', 0);
      if colon.Some? {
        var rest := value[colon.value + 1..];
        safe := ToUInt(Atol(rest));
        var second := IndexOf(rest, ':', 0);
        if second.Some? {
          upd := ToUInt(Atol(rest[second.value + 1..]));
        } else {
          upd := safe;
        }
      }
      assert (baud, safe, upd) == BaudValues(value);
      clargs.args := clargs.args.(baudrate := baud, baudrateSafe := safe, baudrateUpd := upd);
    }

    /** The PORT case. */
    method SetComPort(value: string, clargs: Arguments)
      modifies clargs
      ensures clargs.args == SetPort(old(clargs.args), value)
    {
      clargs.args := clargs.args.(comPort := value);
      if BusPort(clargs.args.comPort) {
        clargs.args := clargs.args.(trainingSequence := false);
      }
      if I2cPort(clargs.args.comPort) {
        clargs.args := clargs.args.(baudrate := BAUDRATE_DEFAULT_I2C);
        clargs.args := clargs.args.(baudrateSafe := BAUDRATE_DEFAULT_I2C);
        clargs.args := clargs.args.(baudrateUpd := BAUDRATE_DEFAULT_I2C);
      }
    }

    /** ParseArguments: start from the defaults and walk argv[1..]. */
    method ParseArguments(argv: seq<string>, clargs: Arguments) returns (ok: bool)
      modifies this, clargs
      ensures Parsed(ok, clargs.args, binaryFileGiven) == Parse(argv, old(binaryFileGiven))
    {
      var option := UnknownArg;
      clargs.Load(Defaults);
      var arg := 1;
      while arg < |argv|
        invariant 1 <= arg
        invariant ParseFrom(argv, arg, option, clargs.args, binaryFileGiven) == Parse(argv, old(binaryFileGiven))
        decreases |argv| - arg
      {
        var a := argv[arg];
        if CharAt(a, 0) == '-' && CharAt(a, 1) != '\0' {
          option := GetArgAssociation(a);
          if option == UnknownArg {
            return false;
          } else if option == Help {
            return false;
          } else if option == Version {
            return false;
          }
        } else {
          if option != UnknownArg {
            var accepted := SetArgument(option, a, clargs);
            option := UnknownArg;
          } else {
            var accepted := SetArgument(FileName, a, clargs);
          }
        }
        arg := arg + 1;
      }
      if !clargs.args.eraseOnly && |clargs.args.binaryFileName| == 0 && !clargs.args.fisOnly {
        return false;
      }
      return true;
    }

    /** main: exit status 1 when the arguments are refused, otherwise 0 or 2
        as the update (whose outcome is updateSucceeds) succeeds or fails. */
    method Run(argv: seq<string>, updateSucceeds: bool) returns (code: int)
      modifies this
      ensures var p := Parse(argv, old(binaryFileGiven));
        code == (if !p.ok then ERROR_ARGUMENTS else if updateSucceeds then SUCCESS else ERROR_UPDATE)
      ensures binaryFileGiven == Parse(argv, old(binaryFileGiven)).given
    {
      var clArgs := new Arguments(Defaults);
      var parsed := ParseArguments(argv, clArgs);
      if !parsed {
        return ERROR_ARGUMENTS;
      }
      var success := updateSucceeds;
      code := if success then SUCCESS else ERROR_UPDATE;
    }
  }
}
