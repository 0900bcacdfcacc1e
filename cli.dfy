/** The command line and the result of the program (parse_cmd and main): which
    command runs on which file, the line main adds after the walk, and the exit
    status. */
module Cli {
  import opened Posix
  import opened Walker
  import opened Scanning

  /** The word that names each command on the command line. */
  function CommandWord(cmd: Cmd): string
    requires cmd != CmdError
  {
    match cmd
    case CmdList => "list"
    case CmdOffset => "offset"
    case CmdSize => "size"
    case CmdUsed => "used"
    case CmdCount => "count"
  }

  /** parse_cmd: the command a word names, or CmdError for any other word. */
  function ParseCmd(word: string): (cmd: Cmd)
    ensures cmd != CmdError ==> CommandWord(cmd) == word
    ensures cmd == CmdError ==> forall c :: c != CmdError ==> CommandWord(c) != word
  {
    if word == "list" then CmdList
    else if word == "offset" then CmdOffset
    else if word == "size" then CmdSize
    else if word == "used" then CmdUsed
    else if word == "count" then CmdCount
    else CmdError
  }

  /** Every command is parsed back from its own word. */
  lemma ParseCmdOfCommandWord(cmd: Cmd)
    requires cmd != CmdError
    ensures ParseCmd(CommandWord(cmd)) == cmd
  {
  }

  /** What the arguments left after the options ask for. */
  datatype Invocation =
    | Usage                                 // no file named
    | BadCommand(word: string)              // a first word that is no command
    | Inspect(cmd: Cmd, filename: string)

  /** The positional rule of main: two or more words are a command and a file
      (any further words are ignored), a single word is a file to `list`, and
      no word at all is a usage error. */
  function ParsePositional(args: seq<string>): (inv: Invocation)
    ensures inv.Usage? <==> args == []
    ensures inv.BadCommand? <==> |args| >= 2 && ParseCmd(args[0]) == CmdError
    ensures inv.BadCommand? ==> inv.word == args[0]
    ensures inv.Inspect? ==> inv.cmd != CmdError
    ensures inv.Inspect? && |args| >= 2 ==> CommandWord(inv.cmd) == args[0] && inv.filename == args[1]
    ensures |args| == 1 ==> inv == Inspect(CmdList, args[0])
  {
    if |args| > 1 then
      var cmd := ParseCmd(args[0]);
      if cmd == CmdError then BadCommand(args[0]) else Inspect(cmd, args[1])
    else if |args| == 1 then Inspect(CmdList, args[0])
    else Usage
  }

  /** Naming a command with its word and a file, whatever follows, inspects
      that file with that command. */
  lemma ParsePositionalOfCommand(cmd: Cmd, filename: string, extra: seq<string>)
    requires cmd != CmdError
    ensures ParsePositional([CommandWord(cmd), filename] + extra) == Inspect(cmd, filename)
  {
    ParseCmdOfCommandWord(cmd);
    assert ([CommandWord(cmd), filename] + extra)[..2] == [CommandWord(cmd), filename];
  }

  /** The exit status of main for what the walk returned: success only when it
      found two segments or more, a filesystem and its meta image. */
  function ExitStatus(num: int): (e: int)
    ensures e == 0 || e == 1
    ensures e == 0 <==> num >= 2
  {
    if num >= 2 then 0 else 1
  }

  /** What main writes besides the walk's own lines: nothing, the count, the
      "Found" line of `list`, or one of its error messages. */
  datatype Notice =
    | Silent
    | CountLine(count: int)
    | FoundLine(found: int)
    | UsageText
    | InvalidOperationText(word: string)
    | OpenError
    | SearchError

  /** The observable result of one run: exit status, the walk's lines, main's notice. */
  datatype Outcome = Outcome(exit: int, out: seq<Emission>, notice: Notice)

  /** The end of main, after the walk returned w: the error message on a
      negative status, the count or the "Found" line, and the exit status. */
  function Finish(cmd: Cmd, filter: int, w: Walked): (o: Outcome)
    ensures o.exit == ExitStatus(w.status) && o.out == w.out
    ensures o.notice.CountLine? <==> w.status >= 0 && cmd == CmdCount
    ensures o.notice.FoundLine? <==> w.status >= 0 && cmd == CmdList && filter == 0
    ensures o.notice == SearchError <==> w.status < 0
    ensures o.notice.CountLine? ==> o.notice.count == w.status
    ensures o.notice.FoundLine? ==> o.notice.found == w.status
  {
    var notice :=
      if w.status < 0 then SearchError
      else if cmd == CmdCount then CountLine(w.status)
      else if cmd == CmdList && filter == 0 then FoundLine(w.status)
      else Silent;
    Outcome(ExitStatus(w.status), w.out, notice)
  }

  /** main after option parsing: args are the words after the options, filter
      and block what -n and -b set, and files the files that open, with what
      reading each of them yields. */
  function Run(args: seq<string>, filter: int, block: bool, files: map<string, Device>): (o: Outcome)
    ensures o.exit == 0 || o.exit == 1
    ensures !ParsePositional(args).Inspect? ==> o.exit == 1 && o.out == [] && !o.notice.CountLine?
    ensures args == [] ==> o == Outcome(1, [], UsageText)
    ensures |args| >= 2 && ParseCmd(args[0]) == CmdError ==> o == Outcome(1, [], InvalidOperationText(args[0]))
    ensures ParsePositional(args).Inspect? && ParsePositional(args).filename !in files ==> o == Outcome(1, [], OpenError)
  {
    match ParsePositional(args)
    case Usage => Outcome(1, [], UsageText)
    case BadCommand(word) => Outcome(1, [], InvalidOperationText(word))
    case Inspect(cmd, name) =>
      if name !in files then Outcome(1, [], OpenError)
      else Finish(cmd, filter, Walk(ImageOf(files[name]), 0, 1, cmd, filter, block))
  }

  /** main, opening the file and walking it through a file descriptor from
      offset 0 and index 1. */
  method RunMain(args: seq<string>, filter: int, block: bool, files: map<string, Device>) returns (o: Outcome)
    ensures o == Run(args, filter, block, files)
  {
    var inv := ParsePositional(args);
    match inv {
      case Usage =>
        o := Outcome(1, [], UsageText);
      case BadCommand(word) =>
        o := Outcome(1, [], InvalidOperationText(word));
      case Inspect(cmd, name) =>
        if name !in files {
          return Outcome(1, [], OpenError);
        }
        var fd := new FileDesc(files[name]);
        ImageOfShows(fd.dev);
        var num, out := ForEachSegment(fd, ImageOf(fd.dev), 0, 1, cmd, filter, block);
        o := Finish(cmd, filter, Walked(num, out));
    }
  }

  /** The exit status is 0 exactly when a command runs on a file that opens,
      the scan from its start ends at a position without the magic after two
      segments or more, and no filter was given to `count`. */
  lemma ExitZeroIff(args: seq<string>, filter: int, block: bool, files: map<string, Device>)
    ensures Run(args, filter, block, files).exit == 0 <==>
              ParsePositional(args).Inspect? && ParsePositional(args).filename in files &&
              ScanFrom(ImageOf(files[ParsePositional(args).filename]), 0, 1).stop == NoMoreSegments &&
              |ScanFrom(ImageOf(files[ParsePositional(args).filename]), 0, 1).segments| >= 2 &&
              !(ParsePositional(args).cmd == CmdCount && filter != 0)
  {
    var inv := ParsePositional(args);
    if inv.Inspect? && inv.filename in files {
      WalkIsReportOfScan(ImageOf(files[inv.filename]), 0, 1, inv.cmd, filter, block);
    }
  }

  /** `count` without -n on a file whose scan ends normally prints the number
      of segments and nothing else. */
  lemma CountPrintsSegments(filename: string, block: bool, files: map<string, Device>)
    requires filename in files
    requires ScanFrom(ImageOf(files[filename]), 0, 1).stop == NoMoreSegments
    ensures Run(["count", filename], 0, block, files) ==
              Outcome(ExitStatus(|ScanFrom(ImageOf(files[filename]), 0, 1).segments|), [],
                      CountLine(|ScanFrom(ImageOf(files[filename]), 0, 1).segments|))
  {
    ParsePositionalOfCommand(CmdCount, filename, []);
    assert [CommandWord(CmdCount), filename] + [] == ["count", filename];
    CountIsScan(ImageOf(files[filename]), 0, 1, 0, block);
  }

  /** A single word is a file listed as with `list`. */
  lemma ListIsDefault(filename: string, filter: int, block: bool, files: map<string, Device>)
    ensures Run([filename], filter, block, files) == Run(["list", filename], filter, block, files)
  {
    ParsePositionalOfCommand(CmdList, filename, []);
    assert [CommandWord(CmdList), filename] + [] == ["list", filename];
  }
}
