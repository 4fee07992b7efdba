/**
 * What a connection writes back for `parse` and `tree`, over an opaque parsing engine.
 * The engine (tokenizer, parser query, k-best list, tree printer, single-tree parse and
 * object serialization) is a record of functions over an abstract tree type; the server
 * only frames what the engine returns.
 */
module Responses {
  import opened Wrappers

  newtype byte = x: int | 0 <= x < 256

  /** One k-best candidate: a tree and its score as `PrintWriter.print(double)` prints it. */
  datatype Scored<Tree> = Scored(tree: Tree, score: string)

  /** The engine's capabilities as the server uses them. */
  datatype Engine<!Tree> = Engine(
    /** The language pack's tokenizer applied to the argument (the words of the sentence). */
    tokenize: string -> seq<string>,
    /** `parserQuery().parse(sentence)`: whether the sentence has a parse. */
    parseSentence: seq<string> -> bool,
    /** `getKBestPCFGParses(k)` of the query that parsed the sentence, in the engine's order. */
    kBest: (seq<string>, nat) -> seq<Scored<Tree>>,
    /** `TreePrint("wordsAndTags,typedDependencies", "includePunctuationDependencies,collapsedDependencies")`. */
    render: Tree -> string,
    /** `LexicalizedParser.parse(String)`: the best tree of the raw text, or null. */
    parseText: string -> Option<Tree>,
    /** The bytes `ObjectOutputStream.writeObject` emits for a tree. */
    serialize: Tree -> seq<byte>)

  /** Everything one connection writes: nothing, text through the UTF-8 writer, or raw bytes. */
  datatype Response = NoResponse | Text(chars: string) | Serialized(bytes: seq<byte>) {

    /** At least one byte reaches the client. */
    predicate Written()
    {
      match this
      case NoResponse => false
      case Text(c) => c != []
      case Serialized(b) => b != []
    }
  }

  /** `handleParse` asks for at most this many candidates. */
  const KBestLimit: nat := 30

  /** Two blank lines end each candidate's block. */
  const RecordSeparator: string := "\n\n\n"

  /** A NUL and a newline end a successful `parse` response. */
  const Sentinel: string := "\0\n"

  /**
   * `ObjectOutputStream`'s constructor writes STREAM_MAGIC (0xACED) and STREAM_VERSION (5),
   * section 6.4.2 of the Java Object Serialization Specification.
   */
  const StreamHeader: seq<byte> := [0xAC, 0xED, 0x00, 0x05]

  /** The block printed for one candidate: its rendering, its score and the separator. */
  function Block<Tree>(render: Tree -> string, c: Scored<Tree>): (b: string)
    ensures |b| >= |RecordSeparator| && b[|b| - |RecordSeparator|..] == RecordSeparator
  {
    render(c.tree) + c.score + RecordSeparator
  }

  /** The blocks of all candidates, in order. */
  function Blocks<Tree>(render: Tree -> string, cs: seq<Scored<Tree>>): (b: string)
    ensures |b| >= 3 * |cs|
  {
    if cs == [] then "" else Blocks(render, cs[..|cs| - 1]) + Block(render, cs[|cs| - 1])
  }

  /** The text of a successful `parse`: every block, then the sentinel exactly once. */
  function KBestText<Tree>(render: Tree -> string, cs: seq<Scored<Tree>>): (t: string)
    ensures |t| >= |Sentinel| && t[|t| - |Sentinel|..] == Sentinel
  {
    Blocks(render, cs) + Sentinel
  }

  /**
   * `handleParse`: no argument, or a sentence the engine cannot parse, writes nothing at
   * all (in particular no sentinel); otherwise the k-best text of up to 30 candidates.
   */
  function ParseResponse<Tree>(e: Engine<Tree>, arg: Option<string>): (r: Response)
    ensures r.Written() <==> arg.Some? && e.parseSentence(e.tokenize(arg.value))
    ensures !r.Written() ==> r == NoResponse
    ensures r.Written() ==> r.Text? && |r.chars| >= 2 && r.chars[|r.chars| - 2..] == Sentinel
  {
    match arg
    case None => NoResponse
    case Some(a) =>
      var sentence := e.tokenize(a);
      if !e.parseSentence(sentence) then NoResponse
      else Text(KBestText(e.render, e.kBest(sentence, KBestLimit)))
  }

  /**
   * `handleTree`: no argument, or no tree, writes nothing; otherwise the serialization
   * stream of the tree, which starts with the stream header and is never empty.
   */
  function TreeResponse<Tree>(e: Engine<Tree>, arg: Option<string>): (r: Response)
    ensures r.Written() <==> arg.Some? && e.parseText(arg.value).Some?
    ensures !r.Written() ==> r == NoResponse
    ensures r.Written() ==> r.Serialized? && |r.bytes| >= 4 && r.bytes[..4] == StreamHeader
  {
    match arg
    case None => NoResponse
    case Some(a) =>
      match e.parseText(a)
      case None => NoResponse
      case Some(t) => Serialized(StreamHeader + e.serialize(t))
  }

  // ---------------------------------------------------------------- layout of the k-best text

  /** The last chars of a concatenation, when they all come from its second part. */
  lemma SuffixOfAppend(a: string, b: string, n: nat)
    requires n <= |b|
    ensures (a + b)[|a + b| - n..] == b[|b| - n..]
  {
  }

  /** A non-empty list of blocks ends with the separator of its last block. */
  lemma {:induction false} BlocksEndWithSeparator<Tree>(render: Tree -> string, cs: seq<Scored<Tree>>)
    requires cs != []
    ensures var b := Blocks(render, cs);
            |b| >= |RecordSeparator| && b[|b| - |RecordSeparator|..] == RecordSeparator
  {
    var front, last := Blocks(render, cs[..|cs| - 1]), Block(render, cs[|cs| - 1]);
    assert Blocks(render, cs) == front + last;
    SuffixOfAppend(front, last, |RecordSeparator|);
  }

  /** Blocks distribute over concatenation: candidates keep the engine's order. */
  lemma {:induction false} BlocksAppend<Tree>(render: Tree -> string, a: seq<Scored<Tree>>, b: seq<Scored<Tree>>)
    ensures Blocks(render, a + b) == Blocks(render, a) + Blocks(render, b)
    decreases |b|
  {
    if b != [] {
      var b', last := b[..|b| - 1], Block(render, b[|b| - 1]);
      var ab := a + b;
      assert ab[..|ab| - 1] == a + b' && ab[|ab| - 1] == b[|b| - 1];
      assert Blocks(render, ab) == Blocks(render, a + b') + last;
      BlocksAppend(render, a, b');
      assert Blocks(render, b) == Blocks(render, b') + last;
    } else {
      assert a + b == a;
    }
  }

  /** The k-th block of the text is exactly the block of the k-th candidate. */
  lemma BlockAt<Tree>(render: Tree -> string, cs: seq<Scored<Tree>>, k: nat)
    requires k < |cs|
    ensures var t := KBestText(render, cs);
            var start := |Blocks(render, cs[..k])|;
            start + |Block(render, cs[k])| <= |t| &&
            t[start..start + |Block(render, cs[k])|] == Block(render, cs[k])
  {
    var pre, blk := Blocks(render, cs[..k]), Block(render, cs[k]);
    assert cs[..k + 1][..k] == cs[..k];
    assert Blocks(render, cs[..k + 1]) == pre + blk;
    assert cs == cs[..k + 1] + cs[k + 1..];
    BlocksAppend(render, cs[..k + 1], cs[k + 1..]);
    var t := KBestText(render, cs);
    assert t == pre + blk + (Blocks(render, cs[k + 1..]) + Sentinel);
  }

  /** Two candidates give exactly two blocks, first the first, then the sentinel. */
  lemma TwoCandidates<Tree>(render: Tree -> string, c1: Scored<Tree>, c2: Scored<Tree>)
    ensures KBestText(render, [c1, c2]) == Block(render, c1) + Block(render, c2) + Sentinel
  {
    assert [c1, c2][..1] == [c1];
    assert [c1][..0] == [];
    assert Blocks(render, [c1]) == Block(render, c1);
  }

  // ---------------------------------------------------------------- the sentinel

  predicate NulFree(s: string)
  {
    '\0' !in s
  }

  /** No rendering and no score contains a NUL char. */
  predicate CandidatesNulFree<Tree>(render: Tree -> string, cs: seq<Scored<Tree>>)
  {
    forall i :: 0 <= i < |cs| ==> NulFree(render(cs[i].tree)) && NulFree(cs[i].score)
  }

  lemma {:induction false} BlocksNulFree<Tree>(render: Tree -> string, cs: seq<Scored<Tree>>)
    requires CandidatesNulFree(render, cs)
    ensures NulFree(Blocks(render, cs))
    decreases |cs|
  {
    if cs != [] {
      var c := cs[|cs| - 1];
      assert NulFree(render(c.tree)) && NulFree(c.score);
      BlocksNulFree(render, cs[..|cs| - 1]);
    }
  }

  /**
   * When no candidate contains a NUL, the only NUL of the text is the one of the final
   * sentinel: a reader that stops at the first NUL stops exactly at the end.
   */
  lemma SentinelOnlyAtEnd<Tree>(render: Tree -> string, cs: seq<Scored<Tree>>)
    requires CandidatesNulFree(render, cs)
    ensures var t := KBestText(render, cs);
            forall i :: 0 <= i < |t| ==> (t[i] == '\0' <==> i == |t| - 2)
  {
    var b := Blocks(render, cs);
    BlocksNulFree(render, cs);
    var t := KBestText(render, cs);
    forall i | 0 <= i < |t| ensures t[i] == '\0' <==> i == |t| - 2 {
      if i < |b| { assert t[i] == b[i]; }
    }
  }

  /** The sentinel starts at position `i` of `s`. */
  predicate SentinelAt(s: string, i: nat)
    requires i + 2 <= |s|
  {
    s[i] == '\0' && s[i + 1] == '\n'
  }

  /**
   * What a client reads: the text before the first sentinel, or `None` when the stream
   * closed without one (the signal that nothing was parsed).
   */
  function ReadUntilSentinel(s: string): (r: Option<string>)
    ensures r.Some? ==> |r.value| + 2 <= |s| && r.value == s[..|r.value|] && SentinelAt(s, |r.value|)
    ensures r.Some? ==> forall i :: 0 <= i < |r.value| ==> !SentinelAt(s, i)
    ensures r.None? ==> forall i :: 0 <= i < |s| - 1 ==> !SentinelAt(s, i)
  {
    if |s| < 2 then None
    else if SentinelAt(s, 0) then Some("")
    else
      var rest := ReadUntilSentinel(s[1..]);
      assert forall i :: 1 <= i < |s| - 1 ==> (SentinelAt(s, i) <==> SentinelAt(s[1..], i - 1));
      match rest
      case None => None
      case Some(p) => Some([s[0]] + p)
  }

  /**
   * The scenario of the silent returns of `handleParse`: a client that reads nothing sees no
   * answer, so a failed or silent `parse` cannot be mistaken for one.
   */
  lemma NothingWrittenReadsAsFailure()
    ensures ReadUntilSentinel("") == None
  {
  }

  /**
   * A client that stops at the first sentinel gets back exactly the blocks, provided no
   * candidate contains a NUL.
   */
  lemma ClientReadsBlocks<Tree>(render: Tree -> string, cs: seq<Scored<Tree>>)
    requires CandidatesNulFree(render, cs)
    ensures ReadUntilSentinel(KBestText(render, cs)) == Some(Blocks(render, cs))
  {
    var t := KBestText(render, cs);
    var b := Blocks(render, cs);
    SentinelOnlyAtEnd(render, cs);
    assert t[|b|] == '\0' && t[|b| + 1] == '\n';
    ReadFindsFirst(t, |b|);
  }

  /** The reader returns the prefix before the first NUL that starts a sentinel. */
  lemma {:induction false} ReadFindsFirst(s: string, n: nat)
    requires n + 2 <= |s| && SentinelAt(s, n)
    requires forall i :: 0 <= i < n ==> s[i] != '\0'
    ensures ReadUntilSentinel(s) == Some(s[..n])
    decreases n
  {
    if n > 0 {
      assert s[0] != '\0';
      ReadFindsFirst(s[1..], n - 1);
      assert [s[0]] + s[1..][..n - 1] == s[..n];
    }
  }

  // ---------------------------------------------------------------- the bound of 30

  /** The engine keeps its promise to return at most `k` candidates. */
  ghost predicate HonoursLimit<Tree>(e: Engine<Tree>)
  {
    forall ws, k :: |e.kBest(ws, k)| <= k
  }

  /**
   * A successful `parse` is the text of the engine's own k-best list, block by block in its
   * order, and that list has at most 30 candidates.
   */
  lemma AtMostThirtyBlocks<Tree>(e: Engine<Tree>, arg: Option<string>)
    requires HonoursLimit(e)
    ensures ParseResponse(e, arg).Written() ==>
              var cs := e.kBest(e.tokenize(arg.value), KBestLimit);
              |cs| <= KBestLimit && ParseResponse(e, arg).chars == KBestText(e.render, cs)
  {
  }
}
