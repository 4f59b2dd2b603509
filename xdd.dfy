/** xdd's `main`: parse the arguments, print the usage line for `-h`, open the
    named file or use standard input, and dump the stream. */
module Xdd {
  import opened CType
  import opened ArgParse
  import opened Dump

  /** The `errno` value `fopen` sets for a file that does not exist. */
  const ENOENT: int := 2

  /** The line `-h` prints to standard output. */
  function Usage(prog: CString): string {
    "Usage: " + prog + " [FILENAME] ...\n"
  }

  /** `main(argc, argv)` with standard input holding `stdin` and `files` mapping
      every file that can be opened to its contents. Returns the exit status and
      what was written to standard output. */
  method Run(argv: seq<CString>, stdin: seq<Byte>, files: map<CString, seq<Byte>>)
    returns (status: int, stdout: string)
    ensures Parse(argv).Err? ==> status == 1 && stdout == ""
    ensures Parse(argv).Help? ==> |argv| >= 2 && status == 0 && stdout == Usage(argv[0])
    ensures Parse(argv).Ok? && Parse(argv).args.filename.None? ==>
              status == 0 && stdout == DumpText(stdin, Parse(argv).args.columns)
    ensures Parse(argv).Ok? && Parse(argv).args.filename.Some? && Parse(argv).args.filename.value in files ==>
              status == 0 && stdout == DumpText(files[Parse(argv).args.filename.value], Parse(argv).args.columns)
    ensures Parse(argv).Ok? && Parse(argv).args.filename.Some? && Parse(argv).args.filename.value !in files ==>
              status == ENOENT && stdout == ""
  {
    var outcome := ParseArgs(argv);
    var result := ReturnCode(outcome);
    if result > 0 {
      return result, "";
    } else if result < 0 {
      OnlyArgumentsStop(argv);
      return 0, Usage(argv[0]);
    }
    var args := outcome.args;
    var input := stdin;
    if args.filename.Some? {
      var filename := args.filename.value;
      if filename !in files {
        return ENOENT, "";
      }
      input := files[filename];
    }
    stdout := DumpStream(input, args.columns);
    status := 0;
  }
}
