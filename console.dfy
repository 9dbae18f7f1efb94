/** The I/O collaborators of the menu: an output stream and standard input. */
module Console {
  import opened Wrappers

  /** A writable file object (`sys.stderr`, `sys.stdout`), recorded as the
      sequence of strings written to it, one entry per `write` call. */
  class Stream {
    var writes: seq<string>

    constructor ()
      ensures writes == []
    {
      writes := [];
    }

    /** `stream.write(s)`. */
    method Write(s: string)
      modifies this
      ensures writes == old(writes) + [s]
    {
      writes := writes + [s];
    }
  }

  /** Standard input as the finite list of lines the user will type. */
  class Stdin {
    var pending: seq<string>

    constructor (lines: seq<string>)
      ensures pending == lines
    {
      pending := lines;
    }

    /** `raw_input()`: takes the next line; `None` when no line is left,
        where Python raises `EOFError`. */
    method ReadLine() returns (line: Option<string>)
      modifies this
      ensures old(pending) == [] ==> line == None && pending == []
      ensures old(pending) != [] ==> line == Some(old(pending)[0]) && pending == old(pending)[1..]
    {
      if pending == [] {
        line := None;
      } else {
        line := Some(pending[0]);
        pending := pending[1..];
      }
    }
  }
}
