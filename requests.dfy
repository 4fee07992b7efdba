/**
 * The request line of one connection (`processRequest`): the line is trimmed, split at its
 * first space into a command and an optional argument, and the command picks a handler by
 * exact, case-sensitive comparison with `quit`, `parse` and `tree`.
 */
module Requests {
  import opened Wrappers
  import opened JavaText

  /** A request after splitting: `command` is `pieces[0]`, `argument` is `pieces[1]` or null. */
  datatype Request = Request(command: string, argument: Option<string>)

  /**
   * Trim the line and split it at the first space. The command is the trimmed line up to
   * that space, and the argument is everything after it, kept verbatim; a trimmed line
   * without a space has no argument. When there is an argument, both pieces are non-empty,
   * because the trimmed line neither starts nor ends with a space.
   */
  function ParseLine(line: string): (r: Request)
    ensures NoSpace(r.command)
    ensures r.argument.None? <==> NoSpace(Trim(line))
    ensures r.argument.None? ==> r.command == Trim(line)
    ensures r.argument.Some? ==> Trim(line) == r.command + " " + r.argument.value
    ensures r.argument.Some? ==> r.command != [] && r.argument.value != []
    ensures AllTrimmable(line) ==> r == Request("", None)
  {
    var pieces := SplitAtFirstSpace(Trim(line));
    var r := Request(pieces[0], if |pieces| > 1 then Some(pieces[1]) else None);
    assert r.argument.Some? ==> Trim(line) == r.command + " " + r.argument.value;
    assert r.argument.Some? ==> r.command != [] && r.argument.value != [] by {
      if r.argument.Some? {
        var t := Trim(line);
        assert t[0] != ' ' && t[|t| - 1] != ' ';
      }
    }
    r
  }

  /** The request a client means when it sends `command` and, optionally, `argument`. */
  function Unparse(r: Request): string
  {
    match r.argument
    case None => r.command
    case Some(a) => r.command + " " + a
  }

  /** Parsing is the inverse of writing a request whose line needs no trimming. */
  lemma ParseUnparse(r: Request)
    requires NoSpace(r.command)
    requires r.argument.Some? ==> r.command != [] && r.argument.value != []
    requires Unparse(r) == [] || (!Trimmable(Unparse(r)[0]) && !Trimmable(Unparse(r)[|Unparse(r)| - 1]))
    ensures ParseLine(Unparse(r)) == r
  {
    var s := Unparse(r);
    assert s[0..0 + |s|] == s;
    TrimUnique(s, 0, s);
    match r.argument
    case None =>
      SplitWithoutSpace(s);
    case Some(a) =>
      SplitJoin(r.command, a);
  }

  /** Extra spaces after the first one stay inside the argument. */
  lemma ArgumentKeepsSpaces()
    ensures ParseLine("parse  a b") == Request("parse", Some(" a b"))
  {
    var r := Request("parse", Some(" a b"));
    assert Unparse(r) == "parse  a b";
    ParseUnparse(r);
  }

  /** The argument is not split any further. */
  lemma ArgumentNotResplit()
    ensures ParseLine("parse the cat sat") == Request("parse", Some("the cat sat"))
  {
    var r := Request("parse", Some("the cat sat"));
    assert Unparse(r) == "parse the cat sat";
    ParseUnparse(r);
  }

  /** Trimmable chars around a request line do not change the request. */
  lemma ParsePadded(pre: string, r: Request, post: string)
    requires AllTrimmable(pre) && AllTrimmable(post)
    requires NoSpace(r.command)
    requires r.argument.Some? ==> r.command != [] && r.argument.value != []
    requires Unparse(r) == [] || (!Trimmable(Unparse(r)[0]) && !Trimmable(Unparse(r)[|Unparse(r)| - 1]))
    ensures ParseLine(pre + Unparse(r) + post) == r
  {
    TrimPadded(pre, Unparse(r), post);
    ParseUnparse(r);
  }

  /** Tabs, NULs and other control chars around the line are trimmed too, not only spaces. */
  lemma ControlCharsTrimmed()
    ensures ParseLine("\t quit\0\t") == Request("quit", None)
  {
    var r := Request("quit", None);
    assert "\t " + Unparse(r) + "\0\t" == "\t quit\0\t";
    ParsePadded("\t ", r, "\0\t");
  }

  /** The handler `processRequest` calls for a command. */
  datatype Handler = QuitHandler | ParseHandler | TreeHandler | NoHandler

  /** `command.equals("quit")`, then `"parse"`, then `"tree"`; any other command falls through. */
  function HandlerFor(command: string): (h: Handler)
  {
    if command == "quit" then QuitHandler
    else if command == "parse" then ParseHandler
    else if command == "tree" then TreeHandler
    else NoHandler
  }

  /** Only the three exact, case-sensitive command words select a handler. */
  lemma DispatchIsExact(command: string)
    ensures HandlerFor(command) == QuitHandler <==> command == "quit"
    ensures HandlerFor(command) == ParseHandler <==> command == "parse"
    ensures HandlerFor(command) == TreeHandler <==> command == "tree"
    ensures HandlerFor(command) == NoHandler <==> command !in {"quit", "parse", "tree"}
  {
  }

  lemma DispatchIsCaseSensitive()
    ensures HandlerFor("QUIT") == NoHandler && HandlerFor("Parse") == NoHandler
    ensures HandlerFor("") == NoHandler
  {
  }
}
