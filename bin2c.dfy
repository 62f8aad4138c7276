/** The bin2c tool: check the arguments, then copy the bytes of one file to
    standard output as a C array initialiser.

    Standard output is the string each method returns (every `printf`
    appends to it). The file is its content, a sequence of bytes, together
    with `readable`, the number of one-byte reads that succeed before a read
    fails: a read succeeds at position p exactly when p < |content| and
    p < readable, so `readable >= |content|` is a file read without error. */
module Bin2C {
  import opened CArrayFormat

  /** Exit status when the argument count is wrong. */
  const UsageStatus: int := -1

  /** Exit status when the named file does not exist. */
  const MissingStatus: int := -2

  /** The exit status of `main` for `argc` arguments (the program name
      included) and the answer of the existence check on the path. */
  function ExitCode(argc: nat, pathExists: bool): (status: int)
    ensures status == UsageStatus <==> argc != 2
    ensures status == MissingStatus <==> argc == 2 && !pathExists
    ensures status == 0 <==> argc == 2 && pathExists
  {
    if argc != 2 then UsageStatus
    else if !pathExists then MissingStatus
    else 0
  }

  /** The usage text written for a wrong argument count: a `usage:` line,
      then the program name followed by ` fname`, indented by two spaces. */
  function UsageText(progName: string): (r: string)
    ensures |r| == 9 + |progName| + 7
    ensures r[..9] == "usage:\n  "
    ensures r[9..9 + |progName|] == progName
    ensures r[9 + |progName|..] == " fname\n"
  {
    "usage:\n" + "  " + progName + " fname\n"
  }

  /** The text written when the existence check fails. The name it prints
      is the program's (`argv[0]`), not the path's: the path is not an
      argument of this function. */
  function MissingText(progName: string): (r: string)
    ensures |r| == 5 + |progName| + 17
    ensures r[..5] == "file "
    ensures r[5..5 + |progName|] == progName
    ensures r[5 + |progName|..] == " doesn't exists!\n"
  {
    "file " + progName + " doesn't exists!\n"
  }

  /** How many bytes the read loop obtains from a file: all of them, unless
      a read fails first. */
  function Delivered(content: seq<Byte>, readable: nat): (n: nat)
    ensures n <= |content| && n <= readable
    ensures n == |content| || n == readable
  {
    if readable < |content| then readable else |content|
  }

  /** The emitting part of `main`: the opening token, one literal per byte
      read with a newline after every tenth, and the closing token. A failed
      read ends the loop like the end of the file does, and the closing
      token is still written. */
  method EmitArray(content: seq<Byte>, readable: nat) returns (out: string)
    ensures out == Render(content[..Delivered(content, readable)])
    ensures readable >= |content| ==> out == Render(content)
  {
    out := Opening;
    var n: nat := 0;       // literals written so far
    var pos: nat := 0;     // bytes consumed from the file
    var eof := false;      // the end-of-file indicator `feof` reports
    // `feof` is set only by the read that then breaks out of the loop, so
    // the guard is never false at the loop head: `break` is the only exit.
    while !eof
      invariant pos == n && n <= Delivered(content, readable)
      invariant !eof
      invariant out == Opening + Body(content[..n])
      decreases |content| - pos
    {
      // fread(&c, 1, 1, f)
      if !(pos < |content| && pos < readable) {
        eof := pos >= |content|;
        break;
      }
      var c := content[pos];
      pos := pos + 1;
      assert content[..n + 1][..n] == content[..n];
      out := out + Literal(c);
      n := n + 1;
      if n % PerLine == 0 {
        out := out + "\n";
      }
    }
    assert n == Delivered(content, readable);
    out := out + Closing;
    assert content[..|content|] == content;
  }

  /** The whole of `main`: its exit status and everything it writes to
      standard output. Only with exactly one path argument is the file
      examined, and only an existing file is read. */
  method Run(argc: nat, progName: string, pathExists: bool, content: seq<Byte>, readable: nat)
    returns (status: int, out: string)
    ensures status == ExitCode(argc, pathExists)
    ensures argc != 2 ==> out == UsageText(progName)
    ensures argc == 2 && !pathExists ==> out == MissingText(progName)
    ensures argc == 2 && pathExists ==>
              out == Render(content[..Delivered(content, readable)])
  {
    if argc != 2 {
      out := UsageText(progName);
      return UsageStatus, out;
    } else if !pathExists {
      out := MissingText(progName);
      return MissingStatus, out;
    } else {
      out := EmitArray(content, readable);
      return 0, out;
    }
  }
}
