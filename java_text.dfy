/**
 * The few `java.lang.String` and `java.lang.Integer` operations the server relies on,
 * written out with Java's semantics: `trim`, `split(" ", 2)`, `startsWith`, `substring`,
 * `equalsIgnoreCase` and `Integer.valueOf`. A Java string is a `seq<char>`.
 */
module JavaText {
  import opened Wrappers

  // ---------------------------------------------------------------- trim

  /** `String.trim` removes every leading and trailing char whose code is at most U+0020. */
  predicate Trimmable(c: char)
  {
    c <= ' '
  }

  predicate AllTrimmable(s: string)
  {
    forall i :: 0 <= i < |s| ==> Trimmable(s[i])
  }

  /** The number of chars `trim` removes at the front. */
  function LeadingCount(s: string): (k: nat)
    ensures k <= |s|
    ensures AllTrimmable(s[..k])
    ensures k < |s| ==> !Trimmable(s[k])
  {
    if s == [] || !Trimmable(s[0]) then 0 else 1 + LeadingCount(s[1..])
  }

  /** The number of chars `trim` removes at the back. */
  function TrailingCount(s: string): (k: nat)
    ensures k <= |s|
    ensures AllTrimmable(s[|s| - k..])
    ensures k < |s| ==> !Trimmable(s[|s| - 1 - k])
  {
    if s == [] || !Trimmable(s[|s| - 1]) then 0 else 1 + TrailingCount(s[..|s| - 1])
  }

  /**
   * `s.trim()`: the infix of `s` left after removing the control chars and spaces at both
   * ends. It starts where the leading run ends, everything after it is trimmable, and it
   * neither starts nor ends with a trimmable char.
   */
  function Trim(s: string): (r: string)
    ensures LeadingCount(s) + |r| <= |s|
    ensures r == s[LeadingCount(s)..LeadingCount(s) + |r|]
    ensures AllTrimmable(s[LeadingCount(s) + |r|..])
    ensures r == [] || (!Trimmable(r[0]) && !Trimmable(r[|r| - 1]))
    ensures r == [] <==> AllTrimmable(s)
  {
    var k := LeadingCount(s);
    var t := s[k..];
    var j := |t| - TrailingCount(t);
    var r := t[..j];
    assert r == s[k..k + j] && t[j..] == s[k + j..];
    assert r == [] ==> s == s[..k] + t[j..];
    r
  }

  /** The leading run ends at the first char that is not trimmable. */
  lemma {:induction false} LeadingCountIs(s: string, i: nat)
    requires i <= |s| && AllTrimmable(s[..i])
    requires i < |s| ==> !Trimmable(s[i])
    ensures LeadingCount(s) == i
    decreases i
  {
    if i > 0 {
      assert Trimmable(s[..i][0]);
      assert s[1..][..i - 1] == s[1..i];
      assert forall j :: 0 <= j < i - 1 ==> s[1..i][j] == s[..i][j + 1];
      LeadingCountIs(s[1..], i - 1);
    }
  }

  /** The trailing run starts after the last char that is not trimmable. */
  lemma {:induction false} TrailingCountIs(s: string, i: nat)
    requires i <= |s| && AllTrimmable(s[|s| - i..])
    requires i < |s| ==> !Trimmable(s[|s| - 1 - i])
    ensures TrailingCount(s) == i
    decreases i
  {
    if i > 0 {
      var s' := s[..|s| - 1];
      assert Trimmable(s[|s| - i..][i - 1]);
      var a, b := s'[|s'| - (i - 1)..], s[|s| - i..];
      assert forall j :: 0 <= j < i - 1 ==> a[j] == b[j];
      TrailingCountIs(s', i - 1);
    }
  }

  /** Trim removes exactly the trimmable runs at both ends: any infix of that shape is Trim(s). */
  lemma TrimUnique(s: string, i: nat, r: string)
    requires i + |r| <= |s| && r == s[i..i + |r|]
    requires AllTrimmable(s[..i]) && AllTrimmable(s[i + |r|..])
    requires r == [] || (!Trimmable(r[0]) && !Trimmable(r[|r| - 1]))
    ensures r == Trim(s)
  {
    if r == [] {
      assert AllTrimmable(s) by {
        forall j | 0 <= j < |s| ensures Trimmable(s[j]) {
          if j < i { assert s[j] == s[..i][j]; } else { assert s[j] == s[i..][j - i]; }
        }
      }
      assert s[..|s|] == s;
      LeadingCountIs(s, |s|);
    } else {
      assert s[i] == r[0];
      LeadingCountIs(s, i);
      var t := s[i..];
      var n := |t| - |r|;
      assert t[|t| - n..] == s[i + |r|..];
      assert t[|t| - 1 - n] == r[|r| - 1];
      TrailingCountIs(t, n);
      assert t[..|t| - n] == r;
    }
  }

  /** Trimmable runs added around an already trimmed string are all that Trim removes. */
  lemma TrimPadded(pre: string, u: string, post: string)
    requires AllTrimmable(pre) && AllTrimmable(post)
    requires u == [] || (!Trimmable(u[0]) && !Trimmable(u[|u| - 1]))
    ensures Trim(pre + u + post) == u && Trim(u) == u
  {
    var s := pre + u + post;
    assert s[|pre|..|pre| + |u|] == u && s[..|pre|] == pre && s[|pre| + |u|..] == post;
    TrimUnique(s, |pre|, u);
    assert u[0..0 + |u|] == u;
    TrimUnique(u, 0, u);
  }

  /** Trimming twice is trimming once. */
  lemma TrimIdempotent(s: string)
    ensures Trim(Trim(s)) == Trim(s)
  {
    var r := Trim(s);
    assert r[0..0 + |r|] == r;
    TrimUnique(r, 0, r);
  }

  // ---------------------------------------------------------------- split(" ", 2)

  predicate NoSpace(s: string)
  {
    forall i :: 0 <= i < |s| ==> s[i] != ' '
  }

  /** `s.indexOf(' ')`. */
  function IndexOfSpace(s: string): (r: Option<nat>)
    ensures r.Some? ==> r.value < |s| && s[r.value] == ' ' && NoSpace(s[..r.value])
    ensures r.None? ==> NoSpace(s)
  {
    if s == [] then None
    else if s[0] == ' ' then Some(0)
    else match IndexOfSpace(s[1..])
      case None => None
      case Some(k) => assert s[..k + 1] == [s[0]] + s[1..][..k]; Some(k + 1)
  }

  /**
   * `s.split(" ", 2)`: with a limit of two the pattern is applied once, so the result is
   * the text before the first space and, when there is a space at all, everything after
   * it (further spaces included). Without a space the result is `s` alone, also for the
   * empty string.
   */
  function SplitAtFirstSpace(s: string): (pieces: seq<string>)
    ensures 1 <= |pieces| <= 2
    ensures NoSpace(pieces[0])
    ensures |pieces| == 1 <==> NoSpace(s)
    ensures JoinWithSpace(pieces) == s
  {
    match IndexOfSpace(s)
    case None => [s]
    case Some(k) =>
      assert s == s[..k] + " " + s[k + 1..];
      [s[..k], s[k + 1..]]
  }

  /** `String.join(" ", pieces)`: the inverse of splitting at the first space. */
  function JoinWithSpace(pieces: seq<string>): string
  {
    if pieces == [] then ""
    else if |pieces| == 1 then pieces[0]
    else JoinWithSpace(pieces[..|pieces| - 1]) + " " + pieces[|pieces| - 1]
  }

  /** Splitting a command joined to its argument gives back the two pieces. */
  lemma SplitJoin(command: string, argument: string)
    requires NoSpace(command)
    ensures SplitAtFirstSpace(command + " " + argument) == [command, argument]
  {
    var s := command + " " + argument;
    assert s[|command|] == ' ';
    assert s[..|command|] == command;
    var k := IndexOfSpace(s).value;
    assert k == |command|;
    assert s[k + 1..] == argument;
  }

  /** A line without a space does not split at all. */
  lemma SplitWithoutSpace(s: string)
    requires NoSpace(s)
    ensures SplitAtFirstSpace(s) == [s]
  {
  }

  // ---------------------------------------------------------------- startsWith, equalsIgnoreCase

  /** `s.startsWith(prefix)`. */
  predicate StartsWith(s: string, prefix: string)
  {
    |prefix| <= |s| && s[..|prefix|] == prefix
  }

  /** Lower-casing of the ASCII letters. */
  function ToLowerAscii(c: char): char
  {
    if 'A' <= c <= 'Z' then (c as int + 32) as char else c
  }

  /** `a.equalsIgnoreCase(b)`: same length and the same char at every place up to case. */
  predicate EqualsIgnoreCase(a: string, b: string)
    ensures EqualsIgnoreCase(a, b) ==> |a| == |b|
  {
    |a| == |b| && (a == [] || (ToLowerAscii(a[0]) == ToLowerAscii(b[0]) && EqualsIgnoreCase(a[1..], b[1..])))
  }

  /** Char by char: the recursive definition compares every place. */
  lemma {:induction false} EqualsIgnoreCaseAt(a: string, b: string)
    requires |a| == |b|
    ensures EqualsIgnoreCase(a, b) <==> forall i :: 0 <= i < |a| ==> ToLowerAscii(a[i]) == ToLowerAscii(b[i])
  {
    if a != [] {
      EqualsIgnoreCaseAt(a[1..], b[1..]);
      assert forall i :: 1 <= i < |a| ==> a[1..][i - 1] == a[i] && b[1..][i - 1] == b[i];
    }
  }

  lemma EqualsIgnoreCaseExamples()
    ensures EqualsIgnoreCase("PoRt", "port")
    ensures !EqualsIgnoreCase("ports", "port")
  {
    assert ToLowerAscii('P') == 'p';
    assert ToLowerAscii('R') == 'r';
  }

  // ---------------------------------------------------------------- Integer.valueOf

  const IntMin: int := -0x8000_0000
  const IntMax: int := 0x7FFF_FFFF

  predicate IsDigit(c: char)
  {
    '0' <= c <= '9'
  }

  predicate AllDigits(s: string)
  {
    forall i :: 0 <= i < |s| ==> IsDigit(s[i])
  }

  /** The value of a string of decimal digits, most significant first. */
  function DigitsValue(s: string): nat
    requires AllDigits(s)
  {
    if s == [] then 0 else 10 * DigitsValue(s[..|s| - 1]) + (s[|s| - 1] as int - '0' as int)
  }

  /**
   * `Integer.valueOf(s)` in radix ten: an optional `-` or `+`, then at least one digit,
   * and a value that fits in 32 bits; anything else raises `NumberFormatException`,
   * modelled as `None`.
   */
  function ParseInt(s: string): (r: Option<int>)
    ensures r.Some? ==> IntMin <= r.value <= IntMax && s != []
  {
    if s == [] then None
    else
      var digits := if s[0] == '-' || s[0] == '+' then s[1..] else s;
      if digits == [] || !AllDigits(digits) then None
      else
        var v: int := if s[0] == '-' then -(DigitsValue(digits) as int) else DigitsValue(digits);
        if IntMin <= v <= IntMax then Some(v) else None
  }

  /**
   * A string `ParseInt` accepts is a sign or a digit followed by digits only, with at least
   * one digit; a leading `-` gives a value of at most zero, anything else one of at least zero.
   */
  lemma ParseIntAccepts(s: string)
    requires ParseInt(s).Some?
    ensures s[0] == '-' || s[0] == '+' || IsDigit(s[0])
    ensures forall i :: 1 <= i < |s| ==> IsDigit(s[i])
    ensures 2 <= |s| || IsDigit(s[0])
    ensures s[0] == '-' ==> ParseInt(s).value <= 0
    ensures s[0] != '-' ==> ParseInt(s).value >= 0
  {
    assert forall i :: 1 <= i < |s| ==> s[i] == s[1..][i - 1];
  }

  /** The empty string, a lone sign, and a non-digit after the first character are rejected. */
  lemma ParseIntRejects(s: string, i: nat)
    requires s == [] || s == "-" || s == "+" || (1 <= i < |s| && !IsDigit(s[i]))
    ensures ParseInt(s).None?
  {
    if ParseInt(s).Some? {
      ParseIntAccepts(s);
    }
  }

  /**
   * The value `Integer.valueOf` gives. Split the string into its sign (`-`, `+` or none) and
   * the rest `d`, which does not itself start with a sign: the result is `v` exactly when `d`
   * is a non-empty digit string, `v` is its value, negated after a `-`, and `v` fits in 32 bits.
   */
  lemma ParseIntValue(sign: string, d: string, v: int)
    requires sign == "" || sign == "-" || sign == "+"
    requires sign == "" ==> d == [] || (d[0] != '-' && d[0] != '+')
    ensures ParseInt(sign + d) == Some(v) <==>
              d != [] && AllDigits(d) && IntMin <= v <= IntMax &&
              v == (if sign == "-" then -(DigitsValue(d) as int) else DigitsValue(d) as int)
  {
    var s := sign + d;
    if sign != "" {
      assert s[0] == sign[0] && s[1..] == d;
    } else {
      assert s == d;
    }
  }

  /** Appending a digit multiplies the value by ten and adds the digit. */
  lemma DigitsValueAppend(s: string, c: char)
    requires AllDigits(s) && IsDigit(c)
    ensures AllDigits(s + [c]) && DigitsValue(s + [c]) == 10 * DigitsValue(s) + (c as int - '0' as int)
  {
    assert (s + [c])[..|s|] == s;
  }

  /** A leading `+` is accepted. */
  lemma ParseIntPlusSign()
    ensures ParseInt("+7") == Some(7)
  {
    assert "+7" == "+" + "7";
    ParseIntValue("+", "7", 7);
  }

  /** Leading zeros are accepted. */
  lemma ParseIntLeadingZeros()
    ensures ParseInt("007") == Some(7)
  {
    DigitsValueAppend("", '0');
    assert "" + ['0'] == "0";
    DigitsValueAppend("0", '0');
    assert "0" + ['0'] == "00";
    DigitsValueAppend("00", '7');
    assert "00" + ['7'] == "007";
    ParseIntValue("", "007", 7);
  }

  /** Steps towards the digits of the largest 32-bit value, three digits at a time. */
  lemma DigitsOf214()
    ensures AllDigits("214") && DigitsValue("214") == 214
  {
    DigitsValueAppend("", '2');
    assert "" + ['2'] == "2";
    DigitsValueAppend("2", '1');
    assert "2" + ['1'] == "21";
    DigitsValueAppend("21", '4');
    assert "21" + ['4'] == "214";
  }

  lemma DigitsOf214748()
    ensures AllDigits("214748") && DigitsValue("214748") == 214748
  {
    DigitsOf214();
    DigitsValueAppend("214", '7');
    assert "214" + ['7'] == "2147";
    DigitsValueAppend("2147", '4');
    assert "2147" + ['4'] == "21474";
    DigitsValueAppend("21474", '8');
    assert "21474" + ['8'] == "214748";
  }

  /** The digits of 214748364, the largest 32-bit value without its last digit. */
  lemma DigitsOfIntMaxPrefix()
    ensures AllDigits("214748364") && DigitsValue("214748364") == 214748364
  {
    DigitsOf214748();
    DigitsValueAppend("214748", '3');
    assert "214748" + ['3'] == "2147483";
    DigitsValueAppend("2147483", '6');
    assert "2147483" + ['6'] == "21474836";
    DigitsValueAppend("21474836", '4');
    assert "21474836" + ['4'] == "214748364";
  }

  /** The largest 32-bit value is accepted. */
  lemma ParseIntMax()
    ensures ParseInt("2147483647") == Some(IntMax)
  {
    DigitsOfIntMaxPrefix();
    DigitsValueAppend("214748364", '7');
    assert "214748364" + ['7'] == "2147483647";
    ParseIntValue("", "2147483647", IntMax);
  }

  /** The smallest 32-bit value is accepted. */
  lemma ParseIntMin()
    ensures ParseInt("-2147483648") == Some(IntMin)
  {
    DigitsOfIntMaxPrefix();
    DigitsValueAppend("214748364", '8');
    assert "214748364" + ['8'] == "2147483648";
    assert "-2147483648" == "-" + "2147483648";
    ParseIntValue("-", "2147483648", IntMin);
  }

  /** One past the largest 32-bit value raises `NumberFormatException`. */
  lemma ParseIntPastMax()
    ensures ParseInt("2147483648") == None
  {
    DigitsOfIntMaxPrefix();
    DigitsValueAppend("214748364", '8');
    assert "214748364" + ['8'] == "2147483648";
    ParseIntValue("", "2147483648", 2147483648);
  }

  /** The decimal digits of `n` without leading zeros (the digit part of `Integer.toString`). */
  function NatToDigits(n: nat): (s: string)
    ensures s != [] && AllDigits(s)
  {
    var d := ['0' + ((n % 10) as char)];
    if n < 10 then d else NatToDigits(n / 10) + d
  }

  /** `Integer.toString(n)`. */
  function IntToString(n: int): (s: string)
    ensures s != []
  {
    if n < 0 then "-" + NatToDigits(-n) else NatToDigits(n)
  }

  lemma {:induction false} DigitsRoundTrip(n: nat)
    ensures DigitsValue(NatToDigits(n)) == n
  {
    var s := NatToDigits(n);
    if n >= 10 {
      DigitsRoundTrip(n / 10);
      assert s[..|s| - 1] == NatToDigits(n / 10);
    }
  }

  /** `Integer.valueOf` reads back every 32-bit value `Integer.toString` prints. */
  lemma ParseIntToString(n: int)
    requires IntMin <= n <= IntMax
    ensures ParseInt(IntToString(n)) == Some(n)
  {
    if n < 0 {
      DigitsRoundTrip(-n);
      assert IntToString(n)[1..] == NatToDigits(-n);
    } else {
      DigitsRoundTrip(n);
    }
  }
}
