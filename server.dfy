/**
 * The server object: it holds the parser and the `stillRunning` flag, answers one
 * request line per connection, and keeps accepting connections while the flag holds.
 */
module Server {
  import opened Wrappers
  import opened Requests
  import opened Responses

  /**
   * What `processRequest` writes for a line that was read (`None` is end of stream before
   * any line): nothing for end of stream, `quit` and any unknown command, otherwise the
   * handler's response.
   */
  function Respond<Tree>(e: Engine<Tree>, line: Option<string>): Response
  {
    match line
    case None => NoResponse
    case Some(l) =>
      var req := ParseLine(l);
      match HandlerFor(req.command)
      case QuitHandler => NoResponse
      case ParseHandler => ParseResponse(e, req.argument)
      case TreeHandler => TreeResponse(e, req.argument)
      case NoHandler => NoResponse
  }

  /** The line is a `quit` request, the only one that calls `handleQuit`. */
  predicate RequestsQuit(line: Option<string>)
  {
    line.Some? && ParseLine(line.value).command == "quit"
  }

  /**
   * A connection gets bytes back exactly when its line is `parse` or `tree` with an
   * argument that the engine parses; everything else is answered with silence.
   */
  lemma WrittenExactly<Tree>(e: Engine<Tree>, line: Option<string>)
    ensures Respond(e, line).Written() <==>
              line.Some? && ParseLine(line.value).argument.Some? &&
              var req := ParseLine(line.value);
              var a := req.argument.value;
              (req.command == "parse" && e.parseSentence(e.tokenize(a))) ||
              (req.command == "tree" && e.parseText(a).Some?)
    ensures !Respond(e, line).Written() ==> Respond(e, line) == NoResponse
  {
    if line.Some? {
      var req := ParseLine(line.value);
      DispatchIsExact(req.command);
    }
  }

  /** `quit` writes nothing, and neither does end of stream. */
  lemma QuitAndEndOfStreamAreSilent<Tree>(e: Engine<Tree>, line: Option<string>)
    requires line.None? || RequestsQuit(line)
    ensures Respond(e, line) == NoResponse && (line.None? ==> !RequestsQuit(line))
  {
  }

  /** `parse` and `tree` without an argument write nothing. */
  lemma MissingArgumentIsSilent<Tree>(e: Engine<Tree>, line: string)
    requires ParseLine(line).command in {"parse", "tree"}
    requires ParseLine(line).argument.None?
    ensures Respond(e, Some(line)) == NoResponse
  {
  }

  /** An unknown command, the empty command included, writes nothing and does not stop the server. */
  lemma UnknownCommandIsIgnored<Tree>(e: Engine<Tree>, line: string)
    requires ParseLine(line).command !in {"quit", "parse", "tree"}
    ensures Respond(e, Some(line)) == NoResponse && !RequestsQuit(Some(line))
  {
  }

  /** The line `ping hello` is one such command. */
  lemma PingIsIgnored<Tree>(e: Engine<Tree>)
    ensures Respond(e, Some("ping hello")) == NoResponse && !RequestsQuit(Some("ping hello"))
  {
    PingLine();
  }

  lemma PingLine()
    ensures ParseLine("ping hello") == Request("ping", Some("hello"))
  {
    var r := Request("ping", Some("hello"));
    assert Unparse(r) == "ping hello";
    ParseUnparse(r);
  }

  /** Which of the connections ask to quit. */
  function QuitFlags(clients: seq<Option<string>>): seq<bool>
  {
    seq(|clients|, k requires 0 <= k < |clients| => RequestsQuit(clients[k]))
  }

  /**
   * How many connections `listen` handles when it starts running, given which of them ask
   * to quit: all of them up to and including the first `quit`, or all when none does.
   */
  function HandledCount(quits: seq<bool>): (n: nat)
    ensures n <= |quits|
    ensures forall k :: 0 <= k < n - 1 ==> !quits[k]
    ensures n < |quits| ==> n > 0 && quits[n - 1]
    ensures quits != [] ==> n > 0
  {
    if quits == [] then 0
    else if quits[0] then 1
    else 1 + HandledCount(quits[1..])
  }

  /** The server stops at the first `quit`: no later connection is handled. */
  lemma {:induction false} NothingAfterQuit(quits: seq<bool>, q: nat)
    requires q < |quits| && quits[q]
    ensures HandledCount(quits) <= q + 1
    decreases q
  {
    if q > 0 && !quits[0] {
      NothingAfterQuit(quits[1..], q - 1);
    }
  }

  /** The contract of `HandledCount` determines it. */
  lemma HandledCountIs(quits: seq<bool>, n: nat)
    requires n <= |quits|
    requires forall k :: 0 <= k < n - 1 ==> !quits[k]
    requires n < |quits| ==> n > 0 && quits[n - 1]
    ensures HandledCount(quits) == n
  {
  }

  class ParserServer<!Tree> {
    const port: int
    const model: string
    const parser: Engine<Tree>
    var stillRunning: bool

    /** A new server is running; binding the socket and loading the model are not modelled. */
    constructor (port: int, model: string, parser: Engine<Tree>)
      ensures this.port == port && this.model == model && this.parser == parser
      ensures stillRunning
    {
      this.port := port;
      this.model := model;
      this.parser := parser;
      stillRunning := true;
    }

    /** `handleQuit`: tells the server to stop after this connection. */
    method HandleQuit()
      modifies this
      ensures !stillRunning
    {
      stillRunning := false;
    }

    /** `handleTree`: the serialized best tree of the argument, or nothing. */
    method HandleTree(arg: Option<string>) returns (out: Response)
      ensures out == TreeResponse(parser, arg)
    {
      if arg.None? {
        return NoResponse;
      }
      var tree := parser.parseText(arg.value);
      if tree.None? {
        return NoResponse;
      }
      out := Serialized(StreamHeader + parser.serialize(tree.value));
    }

    /**
     * `handleParse`: tokenize, parse, and print one block per k-best candidate followed
     * by the sentinel; nothing at all when there is no argument or no parse.
     */
    method HandleParse(arg: Option<string>) returns (out: Response)
      ensures out == ParseResponse(parser, arg)
    {
      if arg.None? {
        return NoResponse;
      }
      var sentence := parser.tokenize(arg.value);
      if !parser.parseSentence(sentence) {
        return NoResponse;
      }
      var trees := parser.kBest(sentence, KBestLimit);
      var text := "";
      for i := 0 to |trees|
        invariant text == Blocks(parser.render, trees[..i])
      {
        assert trees[..i + 1][..i] == trees[..i];
        text := text + parser.render(trees[i].tree);
        text := text + trees[i].score;
        text := text + RecordSeparator;
      }
      assert trees[..|trees|] == trees;
      text := text + Sentinel;
      out := Text(text);
    }

    /**
     * `processRequest` on the line read from one connection: dispatch on the command and
     * return what is written; only `quit` clears `stillRunning`.
     */
    method ProcessRequest(line: Option<string>) returns (out: Response)
      modifies this
      ensures out == Respond(parser, line)
      ensures stillRunning == (old(stillRunning) && !RequestsQuit(line))
    {
      if line.None? {
        return NoResponse;
      }
      var req := ParseLine(line.value);
      assert RequestsQuit(line) <==> req.command == "quit";
      if req.command == "quit" {
        HandleQuit();
        out := NoResponse;
      } else if req.command == "parse" {
        out := HandleParse(req.argument);
      } else if req.command == "tree" {
        out := HandleTree(req.argument);
      } else {
        assert HandlerFor(req.command) == NoHandler;
        out := NoResponse;
      }
    }

    /**
     * `listen`: handle the incoming connections one after another while `stillRunning`
     * holds. Started while running, it handles `HandledCount(clients)` of them and stops
     * running exactly when the last one it handled was `quit`.
     */
    method Listen(clients: seq<Option<string>>) returns (responses: seq<Response>)
      modifies this
      ensures !old(stillRunning) ==> responses == [] && !stillRunning
      ensures old(stillRunning) ==> |responses| == HandledCount(QuitFlags(clients))
      ensures responses == Served(parser, clients, |responses|)
      ensures stillRunning <==> old(stillRunning) && NoQuitAmong(QuitFlags(clients), |responses|)
    {
      ghost var quits := QuitFlags(clients);
      responses := [];
      var i := 0;
      while stillRunning && i < |clients|
        invariant 0 <= i <= |clients|
        invariant responses == Served(parser, clients, i)
        invariant stillRunning <==> old(stillRunning) && NoQuitAmong(quits, i)
        invariant !old(stillRunning) ==> i == 0
        invariant i > 0 ==> NoQuitAmong(quits, i - 1)
      {
        var r := ProcessRequest(clients[i]);
        assert quits[i] == RequestsQuit(clients[i]);
        NoQuitAmongStep(quits, i);
        responses := responses + [r];
        i := i + 1;
      }
      if old(stillRunning) {
        HandledCountIs(quits, i);
      }
    }
  }

  /** The responses to the first `n` connections, in order. */
  function Served<Tree>(e: Engine<Tree>, clients: seq<Option<string>>, n: nat): (rs: seq<Response>)
    requires n <= |clients|
    ensures |rs| == n
    ensures forall k :: 0 <= k < n ==> rs[k] == Respond(e, clients[k])
  {
    if n == 0 then [] else Served(e, clients, n - 1) + [Respond(e, clients[n - 1])]
  }

  /** None of the first `n` flags is set. */
  predicate NoQuitAmong(quits: seq<bool>, n: nat)
    requires n <= |quits|
  {
    forall k :: 0 <= k < n ==> !quits[k]
  }

  /** One more flag: none of the first `n + 1` is set exactly when none of the first `n` is and flag `n` is not. */
  lemma NoQuitAmongStep(quits: seq<bool>, n: nat)
    requires n < |quits|
    ensures NoQuitAmong(quits, n + 1) <==> NoQuitAmong(quits, n) && !quits[n]
  {
  }

  /** The line `quit` is the quit command. */
  lemma QuitLine()
    ensures ParseLine("quit") == Request("quit", None)
  {
    var r := Request("quit", None);
    assert Unparse(r) == "quit";
    ParseUnparse(r);
  }

  /** A client driving a fresh server: `quit` stops it, and the later `parse` is never served. */
  method QuitStopsListening<Tree>(e: Engine<Tree>) returns (responses: seq<Response>, running: bool)
    ensures responses == [NoResponse, NoResponse] && !running
  {
    var server := new ParserServer(4466, "model", e);
    var clients := [Some("ping hello"), Some("quit"), Some("parse a")];
    responses := server.Listen(clients);
    PingIsIgnored(e);
    QuitLine();
    var quits := QuitFlags(clients);
    assert quits[0] == false && quits[1] == true;
    NothingAfterQuit(quits, 1);
    assert |responses| == 2;
    assert !server.stillRunning;
    assert responses == [NoResponse, NoResponse];
    running := server.stillRunning;
  }
}
