/**
 * The `port` resource type: how a resource title is split into name and
 * protocol, the protocol default, and the checks every parameter value
 * must pass before the resource is accepted.
 */
module PortType {
  import opened Wrappers
  import opened Text

  datatype Protocol = Tcp | Udp

  function ProtocolName(p: Protocol): string {
    match p
    case Tcp => "tcp"
    case Udp => "udp"
  }

  /** What a raised validation error is. */
  datatype Error =
    | PuppetError(message: string)
    | ArgumentError(message: string)
    | NoMethodError(methodName: string)
    | InvalidValue(value: string)

  /** The parameters a title pattern sets: always a name, a protocol only from the first pattern. */
  datatype TitleParams = TitleParams(name: string, protocol: Option<Protocol>)

  // ---------------------------------------------------------------------
  // Title patterns
  // ---------------------------------------------------------------------

  /** The protocol named by a `:tcp` or `:udp` ending, if the line has one. */
  function SuffixProtocol(line: string): (r: Option<Protocol>)
    ensures r.Some? ==> |line| >= 4 && line[|line| - 4..] == ":" + ProtocolName(r.value)
  {
    var n := |line|;
    if n >= 4 && line[n - 4] == ':' && line[n - 3] == 't' && line[n - 2] == 'c' && line[n - 1] == 'p' then Some(Tcp)
    else if n >= 4 && line[n - 4] == ':' && line[n - 3] == 'u' && line[n - 2] == 'd' && line[n - 1] == 'p' then Some(Udp)
    else None
  }

  /** Index of the first line that `^(.*?):(tcp|udp)$` matches (one ending in `:tcp` or `:udp`), or `|lines|`. */
  function FirstSuffixed(lines: seq<string>): (k: nat)
    ensures k <= |lines|
    ensures k < |lines| ==> SuffixProtocol(lines[k]).Some?
    ensures forall j :: 0 <= j < k ==> SuffixProtocol(lines[j]).None?
  {
    if lines == [] then 0
    else if SuffixProtocol(lines[0]).Some? then 0
    else 1 + FirstSuffixed(lines[1..])
  }

  /**
   * Ruby tries the two title patterns in order; `^` and `$` match at every
   * line start and end, so the first pattern splits the first line of the
   * title that ends in `:tcp` or `:udp` at that colon, and failing that
   * `^(.*)$` takes the first line whole and sets no protocol.
   */
  function SplitTitle(title: string): (r: TitleParams)
    ensures r.protocol.Some? ==>
              exists k ::
                && 0 <= k < |SplitOn(title, '\n')|
                && SplitOn(title, '\n')[k] == r.name + ":" + ProtocolName(r.protocol.value)
                && forall j :: 0 <= j < k ==> SuffixProtocol(SplitOn(title, '\n')[j]).None?
    ensures r.protocol.None? ==> r.name == SplitOn(title, '\n')[0]
    ensures r.protocol.None? ==>
              forall k :: 0 <= k < |SplitOn(title, '\n')| ==> SuffixProtocol(SplitOn(title, '\n')[k]).None?
  {
    var lines := SplitOn(title, '\n');
    var k := FirstSuffixed(lines);
    if k < |lines| then
      var line := lines[k];
      var p := SuffixProtocol(line).value;
      assert line == line[..|line| - 4] + ":" + ProtocolName(p);
      TitleParams(line[..|line| - 4], Some(p))
    else TitleParams(lines[0], None)
  }

  /** The protocol a resource ends up with: the title's, else the default `tcp`. */
  function EffectiveProtocol(tp: TitleParams): Protocol {
    tp.protocol.GetOr(Tcp)
  }

  lemma SplitOnWithout(s: string, c: char)
    requires forall i :: 0 <= i < |s| ==> s[i] != c
    ensures SplitOn(s, c) == [s]
  {
  }

  lemma {:induction false} SuffixedLine(name: string, p: Protocol)
    ensures SuffixProtocol(name + ":" + ProtocolName(p)) == Some(p)
    ensures (name + ":" + ProtocolName(p))[..|name|] == name
    ensures (forall i :: 0 <= i < |name| ==> name[i] != '\n') ==>
              forall i :: 0 <= i < |name + ":" + ProtocolName(p)| ==> (name + ":" + ProtocolName(p))[i] != '\n'
  {
    var line := name + ":" + ProtocolName(p);
    var n := |line|;
    assert line[n - 4..] == ":" + ProtocolName(p);
    assert line[n - 4] == ':' && line[n - 3..] == ProtocolName(p);
  }

  /** A one-line title ending in `:tcp`/`:udp` splits at its final colon into name and protocol. */
  lemma {:induction false} TitleWithProtocol(name: string, p: Protocol)
    requires forall i :: 0 <= i < |name| ==> name[i] != '\n'
    ensures SplitTitle(name + ":" + ProtocolName(p)) == TitleParams(name, Some(p))
    ensures EffectiveProtocol(SplitTitle(name + ":" + ProtocolName(p))) == p
  {
    var title := name + ":" + ProtocolName(p);
    SuffixedLine(name, p);
    SplitOnWithout(title, '\n');
    assert FirstSuffixed([title]) == 0;
  }

  /** Any other one-line title is the name, whole, and the protocol defaults to `tcp`. */
  lemma {:induction false} TitleWithoutProtocol(title: string)
    requires forall i :: 0 <= i < |title| ==> title[i] != '\n'
    requires SuffixProtocol(title).None?
    ensures SplitTitle(title) == TitleParams(title, None)
    ensures EffectiveProtocol(SplitTitle(title)) == Tcp
  {
    SplitOnWithout(title, '\n');
  }

  /** The line anchors at work: in a two-line title whose first line has no protocol ending, the second line is split. */
  lemma {:induction false} SecondLineTitle(first: string, name: string, p: Protocol)
    requires forall i :: 0 <= i < |first| ==> first[i] != '\n'
    requires forall i :: 0 <= i < |name| ==> name[i] != '\n'
    requires SuffixProtocol(first).None?
    ensures SplitTitle(first + "\n" + name + ":" + ProtocolName(p)) == TitleParams(name, Some(p))
  {
    var second := name + ":" + ProtocolName(p);
    var title := first + "\n" + name + ":" + ProtocolName(p);
    SuffixedLine(name, p);
    assert title == first + ['\n'] + second;
    SplitOnCons(first, second, '\n');
    SplitOnWithout(second, '\n');
    SecondOfTwoLines(title, [first, second], name, p);
  }

  lemma SecondOfTwoLines(title: string, lines: seq<string>, name: string, p: Protocol)
    requires SplitOn(title, '\n') == lines && |lines| == 2
    requires SuffixProtocol(lines[0]).None?
    requires lines[1] == name + ":" + ProtocolName(p) && SuffixProtocol(lines[1]) == Some(p)
    requires lines[1][..|name|] == name
    ensures SplitTitle(title) == TitleParams(name, Some(p))
  {
    assert FirstSuffixed(lines) == 1 by {
      assert lines[1..] == [lines[1]];
    }
  }

  // ---------------------------------------------------------------------
  // Parameter validation
  // ---------------------------------------------------------------------

  /**
   * `name` validation as written: the missing comma makes Ruby call a
   * method `Puppet.Error`, which does not exist, so a name with whitespace
   * is rejected with a NoMethodError rather than a Puppet::Error.
   */
  function ValidateNameAsWritten(value: string): (r: Outcome<Error>)
    ensures r.Pass? <==> !HasSpace(value)
    ensures r.Fail? ==> r.error == NoMethodError("Error")
  {
    if HasSpace(value) then Fail(NoMethodError("Error")) else Pass
  }

  /** `name` validation as evidently intended: whitespace raises a Puppet::Error with its message. */
  function ValidateName(value: string): (r: Outcome<Error>)
    ensures r.Pass? <==> !HasSpace(value)
    ensures r.Fail? ==> r.error.PuppetError?
  {
    if HasSpace(value) then Fail(PuppetError("Portname cannot have whitespaces in them")) else Pass
  }

  /** The two agree on which names pass; only the error raised differs. */
  lemma NameErrorFinding()
    ensures ValidateNameAsWritten("tel net") == Fail(NoMethodError("Error"))
    ensures ValidateName("tel net") == Fail(PuppetError("Portname cannot have whitespaces in them"))
  {
    assert IsSpace("tel net"[3]);
  }

  /** `newvalues :tcp, :udp`: only those two values are accepted. */
  function ValidateProtocol(value: string): (r: Result<Protocol, Error>)
    ensures r.Ok? <==> value == "tcp" || value == "udp"
    ensures r.Ok? ==> ProtocolName(r.value) == value
    ensures r.Err? ==> r.error == InvalidValue(value)
  {
    if value == "tcp" then Ok(Tcp)
    else if value == "udp" then Ok(Udp)
    else Err(InvalidValue(value))
  }

  function DigitValue(c: char): nat
    requires IsDigit(c)
  {
    c as int - '0' as int
  }

  /** The value of a string of decimal digits. */
  function Decimal(s: string): nat
    requires AllDigits(s)
  {
    if s == [] then 0 else Decimal(s[..|s| - 1]) * 10 + DigitValue(s[|s| - 1])
  }

  predicate AllOctal(s: string) {
    forall i :: 0 <= i < |s| ==> '0' <= s[i] <= '7'
  }

  /** The value of a string of octal digits. */
  function Octal(s: string): nat
    requires AllOctal(s)
  {
    if s == [] then 0 else Octal(s[..|s| - 1]) * 8 + (s[|s| - 1] as int - '0' as int)
  }

  /**
   * Ruby's `Integer(s)` on a non-empty string of decimal digits: a leading
   * `0` followed by more digits makes it octal, and then an `8` or `9` is
   * an ArgumentError.
   */
  function RubyInteger(s: string): Result<nat, Error>
    requires s != [] && AllDigits(s)
  {
    if |s| > 1 && s[0] == '0' then
      if AllOctal(s[1..]) then Ok(Octal(s[1..]))
      else Err(ArgumentError("invalid value for Integer(): \"" + s + "\""))
    else Ok(Decimal(s))
  }

  /** `number` validation as written: all digits, then `Integer(value)` in `0...2**16`. */
  function ValidateNumberAsWritten(value: string): (r: Outcome<Error>)
    ensures r.Pass? <==> (value != [] && AllDigits(value) && RubyInteger(value).Ok? &&
      RubyInteger(value).value < 0x1_0000)
  {
    if value == [] || !AllDigits(value) then Fail(PuppetError("number has to be numeric, not " + value))
    else match RubyInteger(value)
      case Err(e) => Fail(e)
      case Ok(n) => if n < 0x1_0000 then Pass else Fail(PuppetError("number " + value + " out of range"))
  }

  /** `number` validation as evidently intended: a decimal numeral whose value lies in 0..65535. */
  function ValidateNumber(value: string): (r: Outcome<Error>)
    ensures r.Pass? <==> value != [] && AllDigits(value) && Decimal(value) < 0x1_0000
  {
    if value == [] || !AllDigits(value) then Fail(PuppetError("number has to be numeric, not " + value))
    else if Decimal(value) < 0x1_0000 then Pass
    else Fail(PuppetError("number " + value + " out of range"))
  }

  /** The shortest decimal numeral of `n`. */
  function DecimalString(n: nat): (r: string)
    ensures r != [] && AllDigits(r)
    ensures |r| > 1 ==> r[0] != '0'
  {
    var d := ['0' + (n % 10) as char];
    if n < 10 then d else DecimalString(n / 10) + d
  }

  lemma {:induction false} DecimalOfDecimalString(n: nat)
    ensures Decimal(DecimalString(n)) == n
  {
    var d := ['0' + (n % 10) as char];
    if n >= 10 {
      var s := DecimalString(n / 10) + d;
      assert s[..|s| - 1] == DecimalString(n / 10);
      DecimalOfDecimalString(n / 10);
    }
  }

  /** Every port number 0..65535, written in decimal, is accepted, and nothing larger is. */
  lemma {:induction false} NumberAcceptsExactlyThePortRange(n: nat)
    ensures ValidateNumber(DecimalString(n)).Pass? <==> n < 0x1_0000
    ensures ValidateNumberAsWritten(DecimalString(n)).Pass? <==> n < 0x1_0000
  {
    DecimalOfDecimalString(n);
    var s := DecimalString(n);
    if |s| > 1 {
      assert s[0] != '0';
    } else {
      assert s[..|s| - 1] == [];
      if s[0] == '0' { assert AllOctal(s[1..]); }
    }
  }

  /** The as-written check and the intended one disagree only on numerals with a leading zero. */
  lemma {:induction false} NumberChecksAgreeWithoutLeadingZero(value: string)
    requires |value| <= 1 || value[0] != '0'
    ensures ValidateNumberAsWritten(value).Pass? <==> ValidateNumber(value).Pass?
  {
    if value != [] && AllDigits(value) && |value| == 1 && value[0] == '0' {
      assert value[..0] == [];
      assert value[1..] == [];
    }
  }

  /** A leading zero reads as octal: `0100000` passes as 32768 though its decimal value is out of range. */
  lemma OctalNumberFinding()
    ensures ValidateNumberAsWritten("0100000").Pass? && ValidateNumber("0100000").Fail?
  {
    var big := "0100000";
    assert AllDigits(big);
    assert big[1..] == "100000";
    assert AllOctal(big[1..]);
    OctalValue();
    DecimalValue();
  }

  lemma OctalValue()
    ensures Octal("100000") == 32768
  {
    assert "100000"[..5] == "10000";
    assert "10000"[..4] == "1000";
    assert "1000"[..3] == "100";
    assert "100"[..2] == "10";
    assert "10"[..1] == "1";
    assert "1"[..0] == "";
  }

  lemma DecimalValue()
    ensures Decimal("0100000") == 100000
  {
    assert "0100000"[..6] == "010000";
    assert "010000"[..5] == "01000";
    assert "01000"[..4] == "0100";
    assert "0100"[..3] == "010";
    assert "010"[..2] == "01";
    assert "01"[..1] == "0";
    assert "0"[..0] == "";
  }

  /** A leading zero followed by a digit that is not octal is rejected, though `08` is the number 8. */
  lemma OctalDigitFinding()
    ensures ValidateNumberAsWritten("08").Fail? && ValidateNumber("08").Pass?
  {
    var small := "08";
    assert AllDigits(small);
    assert small[1..][0] == '8';
    assert !AllOctal(small[1..]);
    assert Decimal(small) == 8 by {
      assert small[..1] == "0";
      assert "0"[..0] == "";
    }
  }

  /** `port_aliases` validation: every alias is checked, and one with whitespace is rejected. */
  function ValidateAliases(aliases: seq<string>): (r: Outcome<Error>)
    ensures r.Pass? <==> forall k :: 0 <= k < |aliases| ==> !HasSpace(aliases[k])
  {
    if aliases == [] then Pass
    else if HasSpace(aliases[0]) then Fail(PuppetError("Aliases cannot have whitespaces in them"))
    else
      var r := ValidateAliases(aliases[1..]);
      assert forall k :: 1 <= k < |aliases| ==> aliases[k] == aliases[1..][k - 1];
      r
  }

  /** The value an ordered, inclusive list property compares: the aliases joined by one space. */
  function AliasesShould(aliases: seq<string>): string {
    Join(aliases, " ")
  }

  /** Whitespace for Ruby's `split(" ")`: the regexp `\s` characters and also vertical tab. */
  predicate IsFieldSpace(c: char) {
    IsSpace(c) || c == '\U{000B}'
  }

  /** Length of the run of characters before the first field separator. */
  function FieldLength(s: string): (n: nat)
    ensures n <= |s|
    ensures forall i :: 0 <= i < n ==> !IsFieldSpace(s[i])
    ensures n < |s| ==> IsFieldSpace(s[n])
  {
    if s == [] || IsFieldSpace(s[0]) then 0 else 1 + FieldLength(s[1..])
  }

  /**
   * Ruby's `value.split(" ")`, with which a list property reads the current
   * aliases back: the maximal runs of non-whitespace, empty fields dropped.
   */
  function SplitFields(s: string): (r: seq<string>)
    ensures forall k :: 0 <= k < |r| ==> r[k] != [] && forall i :: 0 <= i < |r[k]| ==> !IsFieldSpace(r[k][i])
    decreases |s|
  {
    if s == [] then []
    else if IsFieldSpace(s[0]) then SplitFields(s[1..])
    else
      var n := FieldLength(s);
      [s[..n]] + SplitFields(s[n..])
  }

  lemma {:induction false} FieldLengthOf(w: string, t: string)
    requires forall i :: 0 <= i < |w| ==> !IsFieldSpace(w[i])
    requires t == [] || IsFieldSpace(t[0])
    ensures FieldLength(w + t) == |w|
    decreases |w|
  {
    if w != [] {
      assert (w + t)[1..] == w[1..] + t;
      FieldLengthOf(w[1..], t);
    } else {
      assert w + t == t;
    }
  }

  /** A field followed by a separator or the end is split off whole. */
  lemma SplitFieldsField(w: string, t: string)
    requires w != [] && forall i :: 0 <= i < |w| ==> !IsFieldSpace(w[i])
    requires t == [] || IsFieldSpace(t[0])
    ensures SplitFields(w + t) == [w] + SplitFields(t)
  {
    FieldLengthOf(w, t);
    assert (w + t)[..|w|] == w;
    assert (w + t)[|w|..] == t;
  }

  /** An alias the split reads back as itself: non-empty and free of field separators. */
  predicate Readable(alias: string) {
    alias != [] && forall i :: 0 <= i < |alias| ==> !IsFieldSpace(alias[i])
  }

  /** Non-empty aliases without whitespace or vertical tab are read back from the joined value, in order. */
  lemma {:induction false} AliasesRoundTrip(aliases: seq<string>)
    requires forall k :: 0 <= k < |aliases| ==> Readable(aliases[k])
    ensures SplitFields(AliasesShould(aliases)) == aliases
    decreases |aliases|
  {
    if |aliases| == 1 {
      SplitFieldsField(aliases[0], []);
      assert aliases[0] + [] == aliases[0];
    } else if |aliases| > 1 {
      var rest := Join(aliases[1..], " ");
      assert AliasesShould(aliases) == aliases[0] + (" " + rest);
      SplitFieldsField(aliases[0], " " + rest);
      assert (" " + rest)[1..] == rest;
      AliasesRoundTrip(aliases[1..]);
      assert aliases == [aliases[0]] + aliases[1..];
    }
  }

  /** An alias `ValidateAliases` accepts, if non-empty and free of vertical tabs, is read back whole. */
  lemma ValidAliasReadable(alias: string)
    requires ValidateAliases([alias]).Pass?
    requires alias != [] && forall i :: 0 <= i < |alias| ==> alias[i] != '\U{000B}'
    ensures Readable(alias)
  {
    assert !HasSpace([alias][0]);
    forall i | 0 <= i < |alias| ensures !IsFieldSpace(alias[i]) {
      assert !IsSpace(alias[i]);
    }
  }

  /** An empty alias passes validation but is dropped when the value is read back. */
  lemma EmptyAliasLost()
    ensures ValidateAliases(["a", ""]).Pass?
    ensures SplitFields(AliasesShould(["a", ""])) == ["a"]
  {
    assert AliasesShould(["a", ""]) == "a" + " ";
    SplitFieldsField("a", " ");
    assert " "[1..] == [];
    assert SplitFields(" ") == [];
    assert ["a"] + [] == ["a"];
  }

  /** A vertical tab passes the `\s` check but splits the alias when the value is read back. */
  lemma VerticalTabSplits()
    ensures ValidateAliases(["a\U{000B}b"]).Pass?
    ensures SplitFields(AliasesShould(["a\U{000B}b"])) == ["a", "b"]
  {
    assert !HasSpace("a\U{000B}b") by {
      forall i | 0 <= i < 3 ensures !IsSpace("a\U{000B}b"[i]) { }
    }
    assert AliasesShould(["a\U{000B}b"]) == "a" + "\U{000B}b";
    SplitFieldsField("a", "\U{000B}b");
    assert "\U{000B}b"[1..] == "b";
    SplitFieldsField("b", []);
    assert "b" + [] == "b";
  }
}
