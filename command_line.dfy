/**
 * The flag loop of `main`: arguments are read in pairs `(args[i], args[i + 1])`, the key
 * loses a leading `--` or else `-`, and is compared with `model` and `port` ignoring case.
 * Unknown keys are skipped, the last occurrence of a key wins, and an unpaired last flag
 * ends the process with status 2.
 */
module CommandLine {
  import opened Wrappers
  import opened JavaText

  const DefaultPort: int := 4466
  const ModelKey: string := "model"
  const PortKey: string := "port"

  /** `System.exit(2)` for an unpaired last flag. */
  const MissingValueStatus: int := 2

  /**
   * How startup goes: the settings the server is built with, the exit for an unpaired
   * flag, or the `NumberFormatException` that `Integer.valueOf` raises for a bad port.
   */
  datatype Startup = Settings(port: int, model: string) | MissingValue(flag: string) | BadPort(value: string)

  /**
   * The status `main` passes to `System.exit`, if it calls it: only for an unpaired flag.
   * A bad port ends in an uncaught exception instead, and the settings start the server.
   */
  function ExitStatus(outcome: Startup): Option<int>
  {
    match outcome
    case MissingValue(_) => Some(MissingValueStatus)
    case _ => None
  }

  /** The key of a flag: without a leading `--`, or failing that without a leading `-`. */
  function FlagKey(flag: string): string
  {
    if StartsWith(flag, "--") then flag[2..]
    else if StartsWith(flag, "-") then flag[1..]
    else flag
  }

  predicate KeyIs(flag: string, key: string)
  {
    EqualsIgnoreCase(FlagKey(flag), key)
  }

  /**
   * A key that does not itself start with a dash is matched by the bare word, by one dash
   * and the word, and by two dashes and the word, in any case, and by nothing else.
   */
  lemma Spellings(flag: string, key: string)
    requires key != [] && key[0] != '-'
    ensures KeyIs(flag, key) <==>
              EqualsIgnoreCase(flag, key) ||
              (|flag| >= 1 && flag[0] == '-' && EqualsIgnoreCase(flag[1..], key)) ||
              (|flag| >= 2 && flag[0] == '-' && flag[1] == '-' && EqualsIgnoreCase(flag[2..], key))
  {
    assert ToLowerAscii('-') == '-';
    assert ToLowerAscii(key[0]) != '-';
    if |flag| >= 2 && flag[0] == '-' && flag[1] == '-' {
      assert flag[..2] == "--";
      assert !EqualsIgnoreCase(flag[1..], key) by {
        if |flag[1..]| == |key| { assert ToLowerAscii(flag[1..][0]) == '-'; }
      }
    } else if |flag| >= 1 && flag[0] == '-' {
      assert flag[..1] == "-";
      assert !StartsWith(flag, "--");
    }
    if |flag| >= 1 && flag[0] == '-' {
      assert !EqualsIgnoreCase(flag, key) by {
        if |flag| == |key| { assert ToLowerAscii(flag[0]) == '-'; }
      }
    }
  }

  lemma SpellingExamples()
    ensures KeyIs("--port", PortKey) && KeyIs("-PORT", PortKey) && KeyIs("Model", ModelKey)
    ensures !KeyIs("---port", PortKey) && !KeyIs("ports", PortKey)
  {
    assert ToLowerAscii('P') == 'p' && ToLowerAscii('O') == 'o' && ToLowerAscii('R') == 'r' && ToLowerAscii('T') == 't';
    assert ToLowerAscii('M') == 'm';
    assert EqualsIgnoreCase("PORT", PortKey) && EqualsIgnoreCase("Model", ModelKey);
    Spellings("--port", PortKey);
    assert "-PORT"[1..] == "PORT";
    Spellings("-PORT", PortKey);
    Spellings("Model", ModelKey);
    assert "---port"[..2] == "--" && "---port"[2..] == "-port";
    assert ToLowerAscii('-') != ToLowerAscii('p');
  }

  // ---------------------------------------------------------------- pairs

  /** The flag of pair `j`. */
  function FlagAt(args: seq<string>, j: nat): string
    requires 2 * j + 1 < |args|
  {
    args[2 * j]
  }

  /** The value of pair `j`. */
  function ValueAt(args: seq<string>, j: nat): string
    requires 2 * j + 1 < |args|
  {
    args[2 * j + 1]
  }

  /** Pair `j` sets the port to something `Integer.valueOf` rejects. */
  predicate BadPortAt(args: seq<string>, j: nat)
    requires 2 * j + 1 < |args|
  {
    KeyIs(FlagAt(args, j), PortKey) && ParseInt(ValueAt(args, j)).None?
  }

  /** The last of the first `n` pairs whose flag has the given key. */
  function LastPair(args: seq<string>, key: string, n: nat): (r: Option<nat>)
    requires 2 * n <= |args|
    ensures r.Some? ==> r.value < n && KeyIs(FlagAt(args, r.value), key)
  {
    if n == 0 then None
    else if KeyIs(FlagAt(args, n - 1), key) then Some(n - 1)
    else LastPair(args, key, n - 1)
  }

  /** No pair after the one `LastPair` finds has the key, and `None` means no pair has it. */
  lemma {:induction false} LastPairIsLast(args: seq<string>, key: string, n: nat)
    requires 2 * n <= |args|
    ensures LastPair(args, key, n).Some? ==>
              forall j :: LastPair(args, key, n).value < j < n ==> !KeyIs(FlagAt(args, j), key)
    ensures LastPair(args, key, n).None? ==> forall j :: 0 <= j < n ==> !KeyIs(FlagAt(args, j), key)
  {
    if n > 0 && !KeyIs(FlagAt(args, n - 1), key) {
      LastPairIsLast(args, key, n - 1);
    }
  }

  /** The first complete pair, from pair `j` on, that sets a bad port. */
  function FirstBadPort(args: seq<string>, j: nat): (r: Option<nat>)
    ensures r.Some? ==> j <= r.value && 2 * r.value + 1 < |args| && BadPortAt(args, r.value)
    ensures r.Some? ==> forall k :: j <= k < r.value ==> !BadPortAt(args, k)
    ensures r.None? ==> forall k :: j <= k && 2 * k + 1 < |args| ==> !BadPortAt(args, k)
    decreases |args| - 2 * j
  {
    if 2 * j + 1 >= |args| then None
    else if BadPortAt(args, j) then Some(j)
    else FirstBadPort(args, j + 1)
  }

  /** The model after the first `n` pairs: the value of the last `model` pair, or the default. */
  function ModelSetting(args: seq<string>, n: nat, defaultModel: string): string
    requires 2 * n <= |args|
  {
    match LastPair(args, ModelKey, n)
    case None => defaultModel
    case Some(k) => ValueAt(args, k)
  }

  /** The port after the first `n` pairs, none of which sets a bad port. */
  function PortSetting(args: seq<string>, n: nat): int
    requires 2 * n <= |args|
    requires forall k :: 0 <= k < n ==> !BadPortAt(args, k)
  {
    match LastPair(args, PortKey, n)
    case None => DefaultPort
    case Some(k) => assert !BadPortAt(args, k); ParseInt(ValueAt(args, k)).value
  }

  /**
   * The outcome of the flag loop, stated without the loop: the first bad port among the
   * complete pairs fails; otherwise an odd count exits on the unpaired flag; otherwise the
   * last `model` and the last `port` win, with the defaults where there is none.
   */
  function Outcome(args: seq<string>, defaultModel: string): Startup
  {
    match FirstBadPort(args, 0)
    case Some(k) => BadPort(ValueAt(args, k))
    case None =>
      if |args| % 2 == 1 then MissingValue(args[|args| - 1])
      else Settings(PortSetting(args, |args| / 2), ModelSetting(args, |args| / 2, defaultModel))
  }

  /** One more pair with a good port: each setting takes that pair's value if its key matches. */
  lemma SettingsStep(args: seq<string>, n: nat, defaultModel: string)
    requires 2 * n + 1 < |args|
    requires forall k :: 0 <= k < n ==> !BadPortAt(args, k)
    requires !BadPortAt(args, n)
    ensures forall k :: 0 <= k < n + 1 ==> !BadPortAt(args, k)
    ensures ModelSetting(args, n + 1, defaultModel) ==
              if KeyIs(FlagAt(args, n), ModelKey) then ValueAt(args, n) else ModelSetting(args, n, defaultModel)
    ensures PortSetting(args, n + 1) ==
              if KeyIs(FlagAt(args, n), PortKey) then ParseInt(ValueAt(args, n)).value else PortSetting(args, n)
  {
  }

  /** The first bad port is the one before which every pair is good. */
  lemma FirstBadPortIs(args: seq<string>, k: nat)
    requires 2 * k + 1 < |args| && BadPortAt(args, k)
    requires forall j :: 0 <= j < k ==> !BadPortAt(args, j)
    ensures FirstBadPort(args, 0) == Some(k)
  {
  }

  /** The outcome is the first bad port when there is one. */
  lemma BadPortOutcome(args: seq<string>, defaultModel: string, k: nat)
    requires 2 * k + 1 < |args| && BadPortAt(args, k)
    requires forall j :: 0 <= j < k ==> !BadPortAt(args, j)
    ensures Outcome(args, defaultModel) == BadPort(ValueAt(args, k))
  {
    FirstBadPortIs(args, k);
  }

  /** Without a bad port among the pairs and with an even count, the settings are reached. */
  lemma OutcomeWithoutBadPort(args: seq<string>, defaultModel: string)
    requires |args| % 2 == 0
    requires forall k :: 0 <= k < |args| / 2 ==> !BadPortAt(args, k)
    ensures Outcome(args, defaultModel) ==
              Settings(PortSetting(args, |args| / 2), ModelSetting(args, |args| / 2, defaultModel))
  {
  }

  /** Settings are reached only from an even count without a bad port. */
  lemma OutcomeIsSettings(args: seq<string>, defaultModel: string)
    requires Outcome(args, defaultModel).Settings?
    ensures |args| % 2 == 0
    ensures forall k :: 0 <= k < |args| / 2 ==> !BadPortAt(args, k)
    ensures Outcome(args, defaultModel) ==
              Settings(PortSetting(args, |args| / 2), ModelSetting(args, |args| / 2, defaultModel))
  {
  }

  /**
   * `main`'s loop over `args`, with its two local settings; `LexicalizedParser.DEFAULT_PARSER_LOC`
   * is passed in as `defaultModel`.
   */
  method ParseFlags(args: array<string>, defaultModel: string) returns (outcome: Startup)
    ensures outcome == Outcome(args[..], defaultModel)
  {
    ghost var a := args[..];
    var port := DefaultPort;
    var model := defaultModel;
    var i := 0;
    ghost var n := 0;
    while i < args.Length
      invariant 0 <= i <= args.Length && i == 2 * n
      invariant forall k :: 0 <= k < n ==> !BadPortAt(a, k)
      invariant model == ModelSetting(a, n, defaultModel)
      invariant port == PortSetting(a, n)
    {
      if i + 1 >= args.Length {
        assert forall k :: 0 <= k && 2 * k + 1 < |a| ==> k < n;
        OddCountExits(a, defaultModel);
        assert args[i] == a[|a| - 1];
        return MissingValue(args[i]);
      }
      assert args[i] == FlagAt(a, n) && args[i + 1] == ValueAt(a, n);
      var key := FlagKey(args[i]);
      assert EqualsIgnoreCase(key, ModelKey) == KeyIs(FlagAt(a, n), ModelKey);
      assert EqualsIgnoreCase(key, PortKey) == KeyIs(FlagAt(a, n), PortKey);
      if EqualsIgnoreCase(key, ModelKey) {
        model := args[i + 1];
      } else if EqualsIgnoreCase(key, PortKey) {
        var value := ParseInt(args[i + 1]);
        if value.None? {
          BadPortOutcome(a, defaultModel, n);
          return BadPort(args[i + 1]);
        }
        port := value.value;
      }
      SettingsStep(a, n, defaultModel);
      i := i + 2;
      n := n + 1;
    }
    OutcomeWithoutBadPort(a, defaultModel);
    return Settings(port, model);
  }

  // ---------------------------------------------------------------- properties of the outcome

  /** Without flags the server uses port 4466 and the default model. */
  lemma NoFlags(defaultModel: string)
    ensures Outcome([], defaultModel) == Settings(DefaultPort, defaultModel)
  {
  }

  /** An unpaired last flag, after pairs that all succeed, exits with status 2. */
  lemma OddCountExits(args: seq<string>, defaultModel: string)
    requires |args| % 2 == 1
    requires forall k :: 0 <= k && 2 * k + 1 < |args| ==> !BadPortAt(args, k)
    ensures Outcome(args, defaultModel) == MissingValue(args[|args| - 1])
    ensures ExitStatus(Outcome(args, defaultModel)) == Some(2)
  {
  }

  /** Pairs already read are not affected by what follows them. */
  lemma {:induction false} LastPairPrefix(args: seq<string>, more: seq<string>, key: string, n: nat)
    requires 2 * n <= |args|
    ensures LastPair(args + more, key, n) == LastPair(args, key, n)
  {
    if n > 0 {
      assert FlagAt(args + more, n - 1) == FlagAt(args, n - 1);
      LastPairPrefix(args, more, key, n - 1);
    }
  }

  /** The first `n` pairs are the same when more arguments follow. */
  lemma PairsPrefix(args: seq<string>, more: seq<string>, n: nat)
    requires 2 * n <= |args|
    ensures forall k :: 0 <= k < n ==> FlagAt(args + more, k) == FlagAt(args, k) && ValueAt(args + more, k) == ValueAt(args, k)
    ensures forall k :: 0 <= k < n ==> BadPortAt(args + more, k) == BadPortAt(args, k)
  {
    forall k | 0 <= k < n
      ensures FlagAt(args + more, k) == FlagAt(args, k) && ValueAt(args + more, k) == ValueAt(args, k)
      ensures BadPortAt(args + more, k) == BadPortAt(args, k)
    {
    }
  }

  /** The settings after the pairs of `args` stay the same when more arguments follow. */
  lemma SettingsPrefix(args: seq<string>, more: seq<string>, n: nat, defaultModel: string)
    requires 2 * n <= |args|
    requires forall k :: 0 <= k < n ==> !BadPortAt(args, k)
    ensures forall k :: 0 <= k < n ==> !BadPortAt(args + more, k)
    ensures ModelSetting(args + more, n, defaultModel) == ModelSetting(args, n, defaultModel)
    ensures PortSetting(args + more, n) == PortSetting(args, n)
  {
    PairsPrefix(args, more, n);
    LastPairPrefix(args, more, ModelKey, n);
    LastPairPrefix(args, more, PortKey, n);
  }

  /** Appending a pair with a good port keeps every pair good. */
  lemma AppendedPairsGood(args: seq<string>, flag: string, value: string)
    requires |args| % 2 == 0
    requires forall k :: 0 <= k < |args| / 2 ==> !BadPortAt(args, k)
    requires KeyIs(flag, PortKey) ==> ParseInt(value).Some?
    ensures forall k :: 0 <= k < |args| / 2 + 1 ==> !BadPortAt(args + [flag, value], k)
  {
    var n := |args| / 2;
    PairsPrefix(args, [flag, value], n);
    assert FlagAt(args + [flag, value], n) == flag && ValueAt(args + [flag, value], n) == value;
  }

  /** The model after an appended pair: its value if its key is `model`, the earlier model otherwise. */
  lemma AppendedModel(args: seq<string>, defaultModel: string, flag: string, value: string)
    requires |args| % 2 == 0
    ensures ModelSetting(args + [flag, value], |args| / 2 + 1, defaultModel) ==
              if KeyIs(flag, ModelKey) then value else ModelSetting(args, |args| / 2, defaultModel)
  {
    var n := |args| / 2;
    LastPairPrefix(args, [flag, value], ModelKey, n);
    assert FlagAt(args + [flag, value], n) == flag && ValueAt(args + [flag, value], n) == value;
  }

  /** The port after an appended pair: its value if its key is `port`, the earlier port otherwise. */
  lemma AppendedPort(args: seq<string>, flag: string, value: string)
    requires |args| % 2 == 0
    requires forall k :: 0 <= k < |args| / 2 ==> !BadPortAt(args, k)
    requires forall k :: 0 <= k < |args| / 2 + 1 ==> !BadPortAt(args + [flag, value], k)
    requires KeyIs(flag, PortKey) ==> ParseInt(value).Some?
    ensures PortSetting(args + [flag, value], |args| / 2 + 1) ==
              if KeyIs(flag, PortKey) then ParseInt(value).value else PortSetting(args, |args| / 2)
  {
    var n := |args| / 2;
    SettingsPrefix(args, [flag, value], n, "");
    assert FlagAt(args + [flag, value], n) == flag && ValueAt(args + [flag, value], n) == value;
  }

  /**
   * Appending a pair with a good port to arguments that reach the settings: the pair's
   * value replaces the setting its key names, if any, and the other setting stays.
   */
  lemma AppendPair(args: seq<string>, defaultModel: string, flag: string, value: string)
    requires Outcome(args, defaultModel).Settings?
    requires KeyIs(flag, PortKey) ==> ParseInt(value).Some?
    ensures var before := Outcome(args, defaultModel);
            Outcome(args + [flag, value], defaultModel) ==
              Settings(if KeyIs(flag, PortKey) then ParseInt(value).value else before.port,
                       if KeyIs(flag, ModelKey) then value else before.model)
  {
    var args', n := args + [flag, value], |args| / 2;
    var before := Outcome(args, defaultModel);
    OutcomeIsSettings(args, defaultModel);
    AppendedPairsGood(args, flag, value);
    var port, model := PortSetting(args', n + 1), ModelSetting(args', n + 1, defaultModel);
    assert Outcome(args', defaultModel) == Settings(port, model) by {
      assert |args'| % 2 == 0 && |args'| / 2 == n + 1;
      OutcomeWithoutBadPort(args', defaultModel);
    }
    assert model == if KeyIs(flag, ModelKey) then value else before.model by {
      AppendedModel(args, defaultModel, flag, value);
    }
    assert port == if KeyIs(flag, PortKey) then ParseInt(value).value else before.port by {
      AppendedPort(args, flag, value);
    }
  }

  /** A later `model` pair overrides every earlier one and leaves the port alone. */
  lemma LastModelWins(args: seq<string>, defaultModel: string, flag: string, m: string)
    requires Outcome(args, defaultModel).Settings?
    requires KeyIs(flag, ModelKey)
    ensures Outcome(args + [flag, m], defaultModel) == Settings(Outcome(args, defaultModel).port, m)
  {
    assert !KeyIs(flag, PortKey);
    AppendPair(args, defaultModel, flag, m);
  }

  /** A later well-formed `port` pair overrides every earlier one and leaves the model alone. */
  lemma LastPortWins(args: seq<string>, defaultModel: string, flag: string, p: int)
    requires Outcome(args, defaultModel).Settings?
    requires KeyIs(flag, PortKey)
    requires IntMin <= p <= IntMax
    ensures Outcome(args + [flag, IntToString(p)], defaultModel) == Settings(p, Outcome(args, defaultModel).model)
  {
    ParseIntToString(p);
    assert !KeyIs(flag, ModelKey);
    AppendPair(args, defaultModel, flag, IntToString(p));
  }

  /** A pair whose key is neither `model` nor `port` changes nothing. */
  lemma UnknownKeyIgnored(args: seq<string>, defaultModel: string, flag: string, value: string)
    requires |args| % 2 == 0
    requires !KeyIs(flag, ModelKey) && !KeyIs(flag, PortKey)
    ensures Outcome(args + [flag, value], defaultModel) == Outcome(args, defaultModel)
  {
    var args' := args + [flag, value];
    match FirstBadPort(args, 0)
    case Some(k) =>
      PairsPrefix(args, [flag, value], k + 1);
      FirstBadPortIs(args', k);
    case None =>
      OutcomeWithoutBadPort(args, defaultModel);
      AppendPair(args, defaultModel, flag, value);
  }

  /** A `port` value that is not a number makes startup fail, whatever follows it. */
  lemma NonNumericPortFails(args: seq<string>, defaultModel: string, flag: string, value: string, rest: seq<string>)
    requires Outcome(args, defaultModel).Settings?
    requires KeyIs(flag, PortKey) && ParseInt(value).None?
    ensures Outcome(args + [flag, value] + rest, defaultModel) == BadPort(value)
  {
    var args' := args + [flag, value] + rest;
    OutcomeIsSettings(args, defaultModel);
    var n := |args| / 2;
    SettingsPrefix(args, [flag, value] + rest, n, defaultModel);
    assert args' == args + ([flag, value] + rest);
    assert FlagAt(args', n) == flag && ValueAt(args', n) == value;
    FirstBadPortIs(args', n);
  }
}
