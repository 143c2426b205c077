/**
 * The `parsed` provider of the `port` type: one line of a services(5) file
 * (`/etc/services`) read into a record hash, the hash written back as a
 * line, and a record matched to the resource that manages it.
 */
module PortParsed {
  import opened Wrappers
  import opened Text
  import PortType

  type Error = PortType.Error

  /** A value in a record hash: `nil`, a string, or a symbol. */
  datatype Value = Nil | Str(s: string) | Sym(s: string)

  /** The symbol `:absent`, which the file-parsing framework stores for an empty capture. */
  const Absent: Value := Sym("absent")

  datatype Key = NameKey | NumberKey | ProtocolKey | AliasesKey | DescriptionKey

  /** A record hash; a key that is not in the map reads as `nil`. */
  type Hash = map<Key, Value>

  function Get(h: Hash, k: Key): Value {
    if k in h then h[k] else Nil
  }

  /** A line of the file: the framework splits the file at line feeds. */
  predicate IsLine(s: string) {
    forall i :: 0 <= i < |s| ==> s[i] != '\n'
  }

  // ---------------------------------------------------------------------
  // Character runs
  // ---------------------------------------------------------------------

  predicate IsNonSpace(c: char) {
    !IsSpace(c)
  }

  predicate IsNotHash(c: char) {
    c != '#'
  }

  /** `n` ends the longest run of characters in the class that starts at `k`. */
  predicate RunEnds(s: string, k: nat, n: nat, inClass: char -> bool) {
    && k <= n <= |s|
    && (forall i {:trigger inClass(s[i])} :: k <= i < n ==> inClass(s[i]))
    && (n < |s| ==> !inClass(s[n]))
  }

  /** `m` starts the longest run of characters in the class that ends at `j` and starts no earlier than `lo`. */
  predicate RunStarts(s: string, lo: nat, j: nat, m: nat, inClass: char -> bool) {
    && lo <= m <= j <= |s|
    && (forall i {:trigger inClass(s[i])} :: m <= i < j ==> inClass(s[i]))
    && (m > lo ==> !inClass(s[m - 1]))
  }

  /** End of the longest run of characters in the class that starts at `k`. */
  function RunFrom(s: string, k: nat, inClass: char -> bool): (n: nat)
    requires k <= |s|
    ensures k <= n <= |s|
    decreases |s| - k
  {
    if k == |s| || !inClass(s[k]) then k else RunFrom(s, k + 1, inClass)
  }

  /** The run holds only characters of the class, and stops at one outside it or at the end. */
  lemma {:induction false} RunFromEnds(s: string, k: nat, inClass: char -> bool)
    requires k <= |s|
    ensures RunEnds(s, k, RunFrom(s, k, inClass), inClass)
    decreases |s| - k
  {
    if k < |s| && inClass(s[k]) {
      RunFromEnds(s, k + 1, inClass);
    }
  }

  /** Start of the longest run of characters in the class that ends at `j` and starts no earlier than `lo`. */
  function RunBack(s: string, lo: nat, j: nat, inClass: char -> bool): (n: nat)
    requires lo <= j <= |s|
    ensures lo <= n <= j
    decreases j
  {
    if j == lo || !inClass(s[j - 1]) then j else RunBack(s, lo, j - 1, inClass)
  }

  lemma {:induction false} RunBackEnds(s: string, lo: nat, j: nat, inClass: char -> bool)
    requires lo <= j <= |s|
    ensures RunStarts(s, lo, j, RunBack(s, lo, j, inClass), inClass)
    decreases j
  {
    if lo < j && inClass(s[j - 1]) {
      RunBackEnds(s, lo, j - 1, inClass);
    }
  }

  /** A run is determined by where it stops. */
  lemma {:induction false} RunFromAt(s: string, k: nat, m: nat, inClass: char -> bool)
    requires RunEnds(s, k, m, inClass)
    ensures RunFrom(s, k, inClass) == m
    decreases m - k
  {
    if k < m {
      RunFromAt(s, k + 1, m, inClass);
    }
  }

  lemma {:induction false} RunBackAt(s: string, lo: nat, j: nat, m: nat, inClass: char -> bool)
    requires RunStarts(s, lo, j, m, inClass)
    ensures RunBack(s, lo, j, inClass) == m
    decreases j - m
  {
    if m < j {
      RunBackAt(s, lo, j - 1, m, inClass);
    }
  }

  /** Length of the longest prefix of `s` whose characters are all in the class. */
  function Run(s: string, inClass: char -> bool): (n: nat)
    ensures n <= |s|
    ensures forall i :: 0 <= i < n ==> inClass(s[i])
    ensures n < |s| ==> !inClass(s[n])
  {
    RunFromEnds(s, 0, inClass);
    RunFrom(s, 0, inClass)
  }

  /** `s` with its leading whitespace removed. */
  function StripLeft(s: string): (r: string)
    ensures r == [] || !IsSpace(r[0])
  {
    s[Run(s, IsSpace)..]
  }

  // ---------------------------------------------------------------------
  // gsub(/\s+/, ' ')
  // ---------------------------------------------------------------------

  /** Every whitespace character is a plain space and none follows another. */
  ghost predicate SingleSpaced(s: string) {
    && (forall i :: 0 <= i < |s| && IsSpace(s[i]) ==> s[i] == ' ')
    && (forall i, j :: 0 <= i && j == i + 1 && j < |s| ==> !(IsSpace(s[i]) && IsSpace(s[j])))
  }

  /** The characters of `s` that are not whitespace, in order. */
  function Words(s: string): string {
    if s == [] then [] else (if IsSpace(s[0]) then [] else [s[0]]) + Words(s[1..])
  }

  /** `s.gsub(/\s+/, ' ')`: every run of whitespace becomes one space. */
  function Collapse(s: string): (r: string)
    ensures SingleSpaced(r)
    ensures r == [] <==> s == []
    ensures s != [] ==> (IsSpace(r[0]) <==> IsSpace(s[0]))
    decreases |s|
  {
    if s == [] then []
    else if IsSpace(s[0]) then
      var t := Collapse(s[Run(s, IsSpace)..]);
      assert (" " + t)[1..] == t;
      " " + t
    else
      var t := Collapse(s[1..]);
      assert ([s[0]] + t)[1..] == t;
      [s[0]] + t
  }

  lemma {:induction false} WordsSkipsSpace(s: string, m: nat)
    requires m <= |s|
    requires forall i :: 0 <= i < m ==> IsSpace(s[i])
    ensures Words(s) == Words(s[m..])
  {
    if m > 0 {
      assert s[1..][m - 1..] == s[m..];
      WordsSkipsSpace(s[1..], m - 1);
    }
  }

  /** The substitution keeps every other character, in order. */
  lemma {:induction false} CollapseKeepsWords(s: string)
    ensures Words(Collapse(s)) == Words(s)
    decreases |s|
  {
    if s != [] {
      if IsSpace(s[0]) {
        var m := Run(s, IsSpace);
        var t := Collapse(s[m..]);
        WordsSkipsSpace(s, m);
        CollapseKeepsWords(s[m..]);
        assert (" " + t)[1..] == t;
      } else {
        var t := Collapse(s[1..]);
        CollapseKeepsWords(s[1..]);
        assert ([s[0]] + t)[1..] == t;
      }
    }
  }

  /** The substitution ends in a space exactly when the text ends in whitespace. */
  lemma {:induction false} CollapseLast(s: string)
    requires s != []
    ensures IsSpace(Collapse(s)[|Collapse(s)| - 1]) <==> IsSpace(s[|s| - 1])
    decreases |s|
  {
    var r := Collapse(s);
    if IsSpace(s[0]) {
      var m := Run(s, IsSpace);
      var t := Collapse(s[m..]);
      assert r == " " + t;
      if m < |s| {
        CollapseLast(s[m..]);
        assert s[m..][|s[m..]| - 1] == s[|s| - 1];
        assert t != [] && r[|r| - 1] == t[|t| - 1];
      } else {
        assert t == [] && r == " ";
        assert IsSpace(s[|s| - 1]);
      }
    } else {
      var t := Collapse(s[1..]);
      assert r == [s[0]] + t;
      if |s| > 1 {
        CollapseLast(s[1..]);
        assert s[1..][|s[1..]| - 1] == s[|s| - 1];
        assert t != [] && r[|r| - 1] == t[|t| - 1];
      } else {
        assert t == [] && r == [s[0]];
      }
    }
  }

  /** A character that is not whitespace is in the substituted text exactly when it was in the text. */
  lemma {:induction false} WordsHas(s: string, c: char)
    requires !IsSpace(c)
    ensures (exists i :: 0 <= i < |s| && s[i] == c) <==> (exists i :: 0 <= i < |Words(s)| && Words(s)[i] == c)
  {
    if s != [] {
      WordsHas(s[1..], c);
      var w := (if IsSpace(s[0]) then [] else [s[0]]);
      assert Words(s) == w + Words(s[1..]);
      if exists i :: 0 <= i < |s| && s[i] == c {
        var i :| 0 <= i < |s| && s[i] == c;
        if i > 0 {
          assert s[1..][i - 1] == c;
          var k :| 0 <= k < |Words(s[1..])| && Words(s[1..])[k] == c;
          assert Words(s)[|w| + k] == c;
        } else {
          assert Words(s)[0] == c;
        }
      }
      if exists i :: 0 <= i < |Words(s)| && Words(s)[i] == c {
        var i :| 0 <= i < |Words(s)| && Words(s)[i] == c;
        if i < |w| {
          assert s[0] == c;
        } else {
          assert Words(s[1..])[i - |w|] == c;
          var k :| 0 <= k < |s[1..]| && s[1..][k] == c;
          assert s[k + 1] == c;
        }
      }
    }
  }

  lemma CollapseNoHash(s: string)
    requires forall i :: 0 <= i < |s| ==> s[i] != '#'
    ensures forall i :: 0 <= i < |Collapse(s)| ==> Collapse(s)[i] != '#'
  {
    CollapseKeepsWords(s);
    WordsHas(s, '#');
    WordsHas(Collapse(s), '#');
  }

  /** Text already single-spaced is left as it is, so the substitution is idempotent. */
  lemma {:induction false} CollapseKeepsSingleSpaced(s: string)
    requires SingleSpaced(s)
    ensures Collapse(s) == s
    decreases |s|
  {
    if s != [] {
      if IsSpace(s[0]) {
        assert |s| > 1 ==> !IsSpace(s[1]);
        assert Run(s, IsSpace) == 1 by {
          if |s| > 1 { assert s[1..] != [] && !IsSpace(s[1..][0]); }
        }
      }
      assert SingleSpaced(s[1..]) by {
        forall i, j | 0 <= i && j == i + 1 && j < |s[1..]| ensures !(IsSpace(s[1..][i]) && IsSpace(s[1..][j])) {
          assert s[1..][i] == s[i + 1] && s[1..][j] == s[j + 1];
        }
      }
      CollapseKeepsSingleSpaced(s[1..]);
    }
  }

  lemma CollapseIdempotent(s: string)
    ensures Collapse(Collapse(s)) == Collapse(s)
  {
    CollapseKeepsSingleSpaced(Collapse(s));
  }

  // ---------------------------------------------------------------------
  // The line grammar
  // ---------------------------------------------------------------------

  /** `text_line :comment, :match => /^\s*#/`. */
  predicate IsComment(line: string) {
    var w := Run(line, IsSpace);
    w < |line| && line[w] == '#'
  }

  /** `text_line :blank, :match => /^\s*$/`. */
  predicate IsBlank(line: string) {
    Run(line, IsSpace) == |line|
  }

  /** The five groups of the record pattern; the description group takes part only after a `#`. */
  datatype Captures = Captures(name: string, number: string, protocol: string, aliases: string, description: Option<string>)

  /** `s` holds no whitespace. */
  predicate NoSpace(s: string) {
    forall i :: 0 <= i < |s| ==> !IsSpace(s[i])
  }

  predicate NoHash(s: string) {
    forall i :: 0 <= i < |s| ==> s[i] != '#'
  }

  /** The text the alias group takes: no `#`, and no whitespace at either end. */
  predicate Trimmed(s: string) {
    NoHash(s) && (s != [] ==> !IsSpace(s[0]) && !IsSpace(s[|s| - 1]))
  }

  lemma SliceInClass(s: string, lo: nat, hi: nat, inClass: char -> bool)
    requires lo <= hi <= |s|
    requires forall i :: lo <= i < hi ==> inClass(s[i])
    ensures forall i :: 0 <= i < hi - lo ==> inClass(s[lo..hi][i])
  {
    forall i | 0 <= i < hi - lo ensures inClass(s[lo..hi][i]) {
      assert s[lo..hi][i] == s[lo + i];
    }
  }

  lemma TrimmedSlice(s: string, lo: nat, hi: nat)
    requires lo <= hi <= |s|
    requires forall i :: 0 <= i < hi - lo ==> IsNotHash(s[lo..hi][i])
    requires lo < hi ==> !IsSpace(s[lo]) && !IsSpace(s[hi - 1])
    ensures Trimmed(s[lo..hi])
  {
  }

  /**
   * Where the groups of `^(\S*)\s+(\d*)\/(\S*)\s*(.*?)?\s*(?:#\s*(.*))?$`
   * fall in a line: the name is `[0, nameEnd)`, the number
   * `[numberStart, slash)`, the protocol `[slash + 1, protocolEnd)`, the
   * aliases `[aliasStart, aliasEnd)`, and `hash` is the first `#` after
   * the protocol (the length of the line when there is none).
   */
  datatype Spans = Spans(nameEnd: nat, numberStart: nat, slash: nat, protocolEnd: nat,
                         aliasStart: nat, aliasEnd: nat, hash: nat)

  predicate InClass(s: string, lo: nat, hi: nat, inClass: char -> bool)
    requires lo <= hi <= |s|
  {
    forall i {:trigger inClass(s[i])} :: lo <= i < hi ==> inClass(s[i])
  }

  /** The positions the pattern's groups take in `line`, and what is known of the text between them. */
  predicate WellSpanned(line: string, sp: Spans) {
    && sp.nameEnd < sp.numberStart <= sp.slash < sp.protocolEnd
    && sp.protocolEnd <= sp.aliasStart <= sp.aliasEnd <= sp.hash <= |line|
    && sp.slash < |line| && line[sp.slash] == '/'
    && InClass(line, 0, sp.nameEnd, IsNonSpace)
    && InClass(line, sp.numberStart, sp.slash, IsDigit)
    && InClass(line, sp.slash + 1, sp.protocolEnd, IsNonSpace)
    && InClass(line, sp.aliasStart, sp.hash, IsNotHash)
    && (sp.aliasStart < sp.aliasEnd ==> !IsSpace(line[sp.aliasStart]) && !IsSpace(line[sp.aliasEnd - 1]))
    && (sp.hash < |line| ==> line[sp.hash] == '#')
  }

  /**
   * Each greedy group takes its longest run, since giving characters back
   * never lets the next token match: the name up to the first whitespace,
   * at least one whitespace, the digits, a required `/`, the protocol up to
   * the next whitespace, and the whitespace after it. The lazy alias group
   * stops where only whitespace is left before the first `#` (or before the
   * end of the line).
   */
  function MatchSpans(line: string): Option<Spans> {
    var a := RunFrom(line, 0, IsNonSpace);
    var b := RunFrom(line, a, IsSpace);
    if b == a then None
    else
      var c := RunFrom(line, b, IsDigit);
      if c == |line| || line[c] != '/' then None
      else
        var d := RunFrom(line, c + 1, IsNonSpace);
        var e := RunFrom(line, d, IsSpace);
        var h := RunFrom(line, e, IsNotHash);
        Some(Spans(a, b, c, d, e, RunBack(line, e, h, IsSpace), h))
  }

  /** Whatever spans the pattern finds are well placed. */
  lemma MatchSpansWellSpanned(line: string)
    ensures MatchSpans(line).Some? ==> WellSpanned(line, MatchSpans(line).value)
  {
    var a := RunFrom(line, 0, IsNonSpace);
    var b := RunFrom(line, a, IsSpace);
    if b != a {
      var c := RunFrom(line, b, IsDigit);
      if c < |line| && line[c] == '/' {
        var d := RunFrom(line, c + 1, IsNonSpace);
        var e := RunFrom(line, d, IsSpace);
        var h := RunFrom(line, e, IsNotHash);
        RunFromEnds(line, 0, IsNonSpace);
        RunFromEnds(line, a, IsSpace);
        RunFromEnds(line, b, IsDigit);
        RunFromEnds(line, c + 1, IsNonSpace);
        RunFromEnds(line, d, IsSpace);
        RunFromEnds(line, e, IsNotHash);
        RunBackEnds(line, e, h, IsSpace);
        SpansFromRuns(line, a, b, c, d, e, RunBack(line, e, h, IsSpace), h);
      }
    }
  }

  /** What follows position `k` of the line, its leading whitespace dropped and its trailing whitespace kept. */
  function DescriptionAfter(line: string, k: nat): (e: string)
    requires k <= |line|
    ensures e == [] || !IsSpace(e[0])
    ensures |e| <= |line| && e == line[|line| - |e|..]
  {
    RunFromEnds(line, k, IsSpace);
    line[RunFrom(line, k, IsSpace)..]
  }

  /**
   * The captures at those positions; the description group takes part only
   * when there is a `#`, and holds what follows it without its leading
   * whitespace, trailing whitespace kept.
   */
  function CapturesAt(line: string, sp: Spans): Captures
    requires WellSpanned(line, sp)
  {
    var description := if sp.hash < |line| then Some(DescriptionAfter(line, sp.hash + 1)) else None;
    Captures(line[..sp.nameEnd], line[sp.numberStart..sp.slash], line[sp.slash + 1..sp.protocolEnd],
             line[sp.aliasStart..sp.aliasEnd], description)
  }

  /** The captures at well-placed spans keep to the pattern's classes, and the name and description stay at the ends of the line. */
  lemma CapturesAtClasses(line: string, sp: Spans, c: Captures)
    requires WellSpanned(line, sp) && c == CapturesAt(line, sp)
    ensures NoSpace(c.name) && AllDigits(c.number) && NoSpace(c.protocol) && Trimmed(c.aliases)
    ensures c.description.Some? ==> c.description.value == [] || !IsSpace(c.description.value[0])
    ensures |c.name| <= |line| && c.name == line[..|c.name|]
    ensures c.description.Some? ==>
              |c.description.value| <= |line| && c.description.value == line[|line| - |c.description.value|..]
  {
    SliceInClass(line, 0, sp.nameEnd, IsNonSpace);
    SliceInClass(line, sp.numberStart, sp.slash, IsDigit);
    SliceInClass(line, sp.slash + 1, sp.protocolEnd, IsNonSpace);
    SliceInClass(line, sp.aliasStart, sp.aliasEnd, IsNotHash);
    TrimmedSlice(line, sp.aliasStart, sp.aliasEnd);
  }

  /** `^(\S*)\s+(\d*)\/(\S*)\s*(.*?)?\s*(?:#\s*(.*))?$` on one line. */
  function MatchRecord(line: string): Option<Captures> {
    MatchSpansWellSpanned(line);
    match MatchSpans(line)
    case None => None
    case Some(sp) => Some(CapturesAt(line, sp))
  }

  /**
   * What a match captures: a name without whitespace at the start of the
   * line, digits, a protocol without whitespace, aliases trimmed and
   * without `#`, and a description at the end of the line that does not
   * start with whitespace.
   */
  lemma MatchRecordClasses(line: string, c: Captures)
    requires MatchRecord(line) == Some(c)
    ensures NoSpace(c.name) && AllDigits(c.number) && NoSpace(c.protocol) && Trimmed(c.aliases)
    ensures c.description.Some? ==> c.description.value == [] || !IsSpace(c.description.value[0])
    ensures |c.name| <= |line| && c.name == line[..|c.name|]
    ensures c.description.Some? ==>
              |c.description.value| <= |line| && c.description.value == line[|line| - |c.description.value|..]
  {
    MatchSpansWellSpanned(line);
    CapturesAtClasses(line, MatchSpans(line).value, c);
  }

  /** The framework's reading of a capture: an empty one is `:absent`. */
  function Capture(s: string): (v: Value)
    ensures v == Absent <==> s == []
  {
    if s == [] then Absent else Str(s)
  }

  /** The record hash before `post_parse`: a group that took no part is `nil`. */
  function CapturedHash(c: Captures): Hash {
    map[NameKey := Capture(c.name), NumberKey := Capture(c.number), ProtocolKey := Capture(c.protocol),
        AliasesKey := Capture(c.aliases),
        DescriptionKey := if c.description.Some? then Capture(c.description.value) else Nil]
  }

  /**
   * The first two statements of `post_parse`: a string protocol is interned
   * and a missing or `:absent` description becomes `''`. This is the state
   * the hash is left in when the aliases step then raises.
   */
  function Prepared(h: Hash): (r: Hash)
    ensures r.Keys == h.Keys + {DescriptionKey}
    ensures Get(r, ProtocolKey) == if Get(h, ProtocolKey).Str? then Sym(Get(h, ProtocolKey).s) else Get(h, ProtocolKey)
    ensures Get(r, DescriptionKey) ==
            (if Get(h, DescriptionKey) == Nil || Get(h, DescriptionKey) == Absent then Str("") else Get(h, DescriptionKey))
    ensures Get(r, NameKey) == Get(h, NameKey) && Get(r, NumberKey) == Get(h, NumberKey)
    ensures Get(r, AliasesKey) == Get(h, AliasesKey)
  {
    var protocol := Get(h, ProtocolKey);
    var h1 := if protocol.Str? then h[ProtocolKey := Sym(protocol.s)] else h;
    var description := Get(h1, DescriptionKey);
    if description == Nil || description == Absent then h1[DescriptionKey := Str("")] else h1[DescriptionKey := description]
  }

  /**
   * What `post_parse` does to a record hash: the protocol is interned (an
   * empty capture is the symbol `:absent`, and a Symbol has no `intern`, so
   * that raises), a missing description becomes `''`, and each whitespace
   * run in the aliases becomes one space (a Symbol has no `gsub!`, so
   * aliases other than `:absent` that are a symbol raise).
   */
  function PostParsed(h: Hash): (r: Result<Hash, Error>)
    ensures r.Err? <==> Get(h, ProtocolKey).Sym? || (Get(h, AliasesKey).Sym? && Get(h, AliasesKey) != Absent)
    ensures r.Ok? ==> r.value.Keys == h.Keys + {DescriptionKey}
    ensures r.Ok? && Get(h, ProtocolKey).Str? ==> Get(r.value, ProtocolKey) == Sym(Get(h, ProtocolKey).s)
    ensures r.Ok? && Get(h, AliasesKey).Str? ==> Get(r.value, AliasesKey) == Str(Collapse(Get(h, AliasesKey).s))
    ensures r.Ok? && (Get(h, AliasesKey) == Nil || Get(h, AliasesKey) == Absent) ==>
      Get(r.value, AliasesKey) == Get(h, AliasesKey)
    ensures r.Ok? ==> Get(r.value, DescriptionKey) ==
                      (if Get(h, DescriptionKey) == Nil || Get(h, DescriptionKey) == Absent then Str("") else Get(h, DescriptionKey))
    ensures r.Ok? ==> Get(r.value, NameKey) == Get(h, NameKey) && Get(r.value, NumberKey) == Get(h, NumberKey)
  {
    if Get(h, ProtocolKey).Sym? then Err(PortType.NoMethodError("intern"))
    else
      var h2 := Prepared(h);
      var aliases := Get(h2, AliasesKey);
      if aliases == Nil || aliases == Absent then Ok(h2)
      else if aliases.Sym? then Err(PortType.NoMethodError("gsub!"))
      else Ok(h2[AliasesKey := Str(Collapse(aliases.s))])
  }

  /** How the framework reads one line of the file. */
  datatype ParsedLine = Comment | Blank | Record(hash: Hash) | NoMatch | Failed(error: Error)

  /** The text lines are tried first, in order; then the record pattern and `post_parse`. */
  function ParseLine(line: string): ParsedLine
    requires IsLine(line)
  {
    if IsComment(line) then Comment
    else if IsBlank(line) then Blank
    else match MatchRecord(line)
      case None => NoMatch
      case Some(c) =>
        match PostParsed(CapturedHash(c))
        case Ok(h) => Record(h)
        case Err(e) => Failed(e)
  }

  // ---------------------------------------------------------------------
  // Writing a record
  // ---------------------------------------------------------------------

  /** `#{v}` */
  function Render(v: Value): string {
    match v
    case Nil => ""
    case Str(s) => s
    case Sym(s) => s
  }

  /** Neither `nil` nor `:absent`. */
  predicate Present(v: Value) {
    v != Nil && v != Absent
  }

  function KeyName(k: Key): string {
    match k
    case NameKey => "name"
    case NumberKey => "number"
    case ProtocolKey => "protocol"
    case AliasesKey => "port_aliases"
    case DescriptionKey => "description"
  }

  function MissingKeyError(k: Key): Error {
    PortType.PuppetError(KeyName(k) + " is a required attribute for port")
  }

  /**
   * The line `to_line` writes: name, number and protocol are required; the
   * aliases follow after a tab when present, the description after a tab and
   * `# ` when not empty. A description key holding `nil` raises (`nil` has no
   * `empty?`).
   */
  function Line(h: Hash): (r: Result<string, Error>)
    ensures r.Ok? <==> Present(Get(h, NameKey)) && Present(Get(h, NumberKey)) && Present(Get(h, ProtocolKey)) &&
                       !(DescriptionKey in h && h[DescriptionKey] == Nil)
    ensures r.Err? && !Present(Get(h, NameKey)) ==> r.error == MissingKeyError(NameKey)
  {
    if !Present(Get(h, NameKey)) then Err(MissingKeyError(NameKey))
    else if !Present(Get(h, NumberKey)) then Err(MissingKeyError(NumberKey))
    else if !Present(Get(h, ProtocolKey)) then Err(MissingKeyError(ProtocolKey))
    else
      var head := Render(h[NameKey]) + "\t" + Render(h[NumberKey]) + "/" + Render(h[ProtocolKey]);
      var withAliases := if AliasesKey in h && Present(h[AliasesKey]) then head + "\t" + Render(h[AliasesKey]) else head;
      if DescriptionKey !in h then Ok(withAliases)
      else if h[DescriptionKey] == Nil then Err(PortType.NoMethodError("empty?"))
      else if Render(h[DescriptionKey]) == "" then Ok(withAliases)
      else Ok(withAliases + "\t# " + Render(h[DescriptionKey]))
  }

  /** The hash the provider holds for one record; `post_parse` and `to_line` work on it. */
  class RecordHash {
    var fields: Hash

    constructor (fields: Hash)
      ensures this.fields == fields
    {
      this.fields := fields;
    }

    /**
     * `post_parse`: changes the hash in place, statement by statement. A raise
     * on the protocol comes before any change; a raise on the aliases comes
     * after the protocol and the description have been updated.
     */
    method PostParse() returns (r: Outcome<Error>)
      modifies this
      ensures PostParsed(old(fields)).Ok? ==> r.Pass? && fields == PostParsed(old(fields)).value
      ensures PostParsed(old(fields)).Err? ==> r == Fail(PostParsed(old(fields)).error)
      ensures Get(old(fields), ProtocolKey).Sym? ==> fields == old(fields)
      ensures PostParsed(old(fields)).Err? && !Get(old(fields), ProtocolKey).Sym? ==> fields == Prepared(old(fields))
    {
      var protocol := Get(fields, ProtocolKey);
      if protocol.Sym? {
        return Fail(PortType.NoMethodError("intern"));
      }
      if protocol.Str? {
        fields := fields[ProtocolKey := Sym(protocol.s)];
      }
      var description := Get(fields, DescriptionKey);
      if description == Nil || description == Absent {
        fields := fields[DescriptionKey := Str("")];
      } else {
        fields := fields[DescriptionKey := description];
      }
      var aliases := Get(fields, AliasesKey);
      if aliases == Nil || aliases == Absent {
        return Pass;
      }
      if aliases.Sym? {
        return Fail(PortType.NoMethodError("gsub!"));
      }
      fields := fields[AliasesKey := Str(Collapse(aliases.s))];
      r := Pass;
    }

    /** `to_line`: checks the required keys, then builds the line by appending. */
    method ToLine() returns (r: Result<string, Error>)
      ensures r == Line(fields)
    {
      var keys := [NameKey, NumberKey, ProtocolKey];
      var i := 0;
      while i < |keys|
        invariant 0 <= i <= |keys|
        invariant i >= 1 ==> Present(Get(fields, NameKey))
        invariant i >= 2 ==> Present(Get(fields, NumberKey))
        invariant i >= 3 ==> Present(Get(fields, ProtocolKey))
      {
        if !Present(Get(fields, keys[i])) {
          return Err(MissingKeyError(keys[i]));
        }
        i := i + 1;
      }
      var str := Render(fields[NameKey]) + "\t" + Render(fields[NumberKey]) + "/" + Render(fields[ProtocolKey]);
      if AliasesKey in fields && Present(fields[AliasesKey]) {
        str := str + "\t" + Render(fields[AliasesKey]);
      }
      if DescriptionKey in fields {
        if fields[DescriptionKey] == Nil {
          return Err(PortType.NoMethodError("empty?"));
        }
        if Render(fields[DescriptionKey]) != "" {
          str := str + "\t# " + Render(fields[DescriptionKey]);
        }
      }
      r := Ok(str);
    }
  }

  // ---------------------------------------------------------------------
  // Reading back what is written
  // ---------------------------------------------------------------------

  /**
   * The hashes `post_parse` leaves and `to_line` writes without loss: all
   * five keys; a name without whitespace that does not start a comment; a
   * number of digits; a protocol symbol other than `:absent`; aliases
   * `:absent` or single-spaced and trimmed; a one-line description that is
   * empty or starts with a non-space.
   */
  ghost predicate CanonicalRecord(h: Hash) {
    && h.Keys == {NameKey, NumberKey, ProtocolKey, AliasesKey, DescriptionKey}
    && h[NameKey].Str? && h[NameKey].s != [] && NoSpace(h[NameKey].s) && h[NameKey].s[0] != '#'
    && h[NumberKey].Str? && h[NumberKey].s != [] && AllDigits(h[NumberKey].s)
    && h[ProtocolKey].Sym? && h[ProtocolKey].s != [] && NoSpace(h[ProtocolKey].s) && h[ProtocolKey] != Absent
    && (|| h[AliasesKey] == Absent
        || (h[AliasesKey].Str? && h[AliasesKey].s != [] && SingleSpaced(h[AliasesKey].s) && Trimmed(h[AliasesKey].s)))
    && h[DescriptionKey].Str? && IsLine(h[DescriptionKey].s)
    && (h[DescriptionKey].s == [] || !IsSpace(h[DescriptionKey].s[0]))
  }

  /** A run in the second half of a concatenation is the run in that half, shifted. */
  lemma RunEndsShift(x: string, y: string, j: nat, n: nat, inClass: char -> bool)
    requires RunEnds(y, j, n, inClass)
    ensures RunEnds(x + y, |x| + j, |x| + n, inClass)
  {
    forall i | |x| + j <= i < |x| + n
      ensures inClass((x + y)[i])
    {
      assert (x + y)[i] == y[i - |x|];
    }
    if n < |y| {
      assert (x + y)[|x| + n] == y[n];
    }
  }

  lemma RunStartsShift(x: string, y: string, lo: nat, j: nat, m: nat, inClass: char -> bool)
    requires RunStarts(y, lo, j, m, inClass)
    ensures RunStarts(x + y, |x| + lo, |x| + j, |x| + m, inClass)
  {
    forall i | |x| + m <= i < |x| + j
      ensures inClass((x + y)[i])
    {
      assert (x + y)[i] == y[i - |x|];
    }
    if m > lo {
      assert (x + y)[|x| + m - 1] == y[m - 1];
    }
  }

  lemma SliceShift(x: string, y: string, i: nat, j: nat)
    requires i <= j <= |y|
    ensures (x + y)[|x| + i..|x| + j] == y[i..j]
  {
  }

  /** A run from the start that covers exactly the first part of a concatenation. */
  lemma RunPrefix(y: string, z: string, inClass: char -> bool)
    requires forall i :: 0 <= i < |y| ==> inClass(y[i])
    requires z == [] || !inClass(z[0])
    ensures RunEnds(y + z, 0, |y|, inClass)
    ensures (y + z)[..|y|] == y
  {
  }

  /** A run that covers exactly the middle part `y` of `x + (y + z)`. */
  lemma TokenSpan(x: string, y: string, z: string, inClass: char -> bool)
    requires forall i :: 0 <= i < |y| ==> inClass(y[i])
    requires z == [] || !inClass(z[0])
    ensures RunEnds(x + (y + z), |x|, |x| + |y|, inClass)
    ensures (x + (y + z))[|x|..|x| + |y|] == y
  {
    RunPrefix(y, z, inClass);
    RunEndsShift(x, y + z, 0, |y|, inClass);
    SliceShift(x, y + z, 0, |y|);
  }

  /** The line `to_line` writes from its parts, built as `to_line` builds it. */
  function WrittenLine(n: string, d: string, p: string, a: string, e: string): string {
    var head := n + "\t" + d + "/" + p;
    var withAliases := if a != [] then head + "\t" + a else head;
    if e == [] then withAliases else withAliases + "\t# " + e
  }

  /** What follows the protocol in a written line. */
  function WrittenRest(a: string, e: string): string {
    (if a != [] then "\t" + a else "") + (if e == [] then "" else "\t# " + e)
  }

  lemma WrittenLineParts(n: string, d: string, p: string, a: string, e: string)
    ensures WrittenLine(n, d, p, a, e) == n + "\t" + d + "/" + p + WrittenRest(a, e)
  {
    var head := n + "\t" + d + "/" + p;
    if a == [] {
      assert head + "" == head;
    }
    if e == [] {
      assert (if a != [] then "\t" + a else "") + "" == (if a != [] then "\t" + a else "");
    }
  }

  /** The name run of a written line. */
  lemma NameSpan(line: string, n: string, d: string, p: string, r: string)
    requires line == n + "\t" + d + "/" + p + r
    requires NoSpace(n)
    ensures RunEnds(line, 0, |n|, IsNonSpace) && line[..|n|] == n
  {
    assert line == n + ("\t" + (d + "/" + p + r));
    RunPrefix(n, "\t" + (d + "/" + p + r), IsNonSpace);
  }

  /** The whitespace run after the name of a written line. */
  lemma GapSpan(line: string, n: string, d: string, p: string, r: string)
    requires line == n + "\t" + d + "/" + p + r
    requires AllDigits(d) && d != []
    ensures RunEnds(line, |n|, |n| + 1, IsSpace)
  {
    assert line == n + ("\t" + (d + "/" + p + r));
    TokenSpan(n, "\t", d + "/" + p + r, IsSpace);
  }

  /** The number run of a written line, and the slash after it. */
  lemma NumberSpan(line: string, n: string, d: string, p: string, r: string)
    requires line == n + "\t" + d + "/" + p + r
    requires AllDigits(d)
    ensures RunEnds(line, |n| + 1, |n| + 1 + |d|, IsDigit) && line[|n| + 1..|n| + 1 + |d|] == d
    ensures line[|n| + 1 + |d|] == '/'
  {
    assert line == (n + "\t") + (d + ("/" + p + r));
    TokenSpan(n + "\t", d, "/" + p + r, IsDigit);
  }

  /** The protocol run of a written line. */
  lemma ProtocolSpan(line: string, n: string, d: string, p: string, r: string)
    requires line == n + "\t" + d + "/" + p + r
    requires NoSpace(p)
    requires r == [] || IsSpace(r[0])
    ensures RunEnds(line, |n| + 2 + |d|, |n| + 2 + |d| + |p|, IsNonSpace)
    ensures line[|n| + 2 + |d|..|n| + 2 + |d| + |p|] == p
  {
    assert line == (n + "\t" + d + "/") + (p + r);
    TokenSpan(n + "\t" + d + "/", p, r, IsNonSpace);
  }

  /** The text after the protocol of a written line with neither aliases nor description. */
  lemma RestSpansEmpty(r: string)
    requires r == []
    ensures RunEnds(r, 0, 0, IsSpace) && RunEnds(r, 0, 0, IsNotHash) && RunStarts(r, 0, 0, 0, IsSpace)
  {
  }

  /** ... with a description only: `\t# e`. */
  lemma RestSpansDescription(r: string, e: string)
    requires e == [] || !IsSpace(e[0])
    requires r == "\t# " + e
    ensures RunEnds(r, 0, 1, IsSpace) && RunEnds(r, 1, 1, IsNotHash) && RunStarts(r, 1, 1, 1, IsSpace)
    ensures RunEnds(r, 2, 3, IsSpace) && r[3..] == e
  {
  }

  /** ... with aliases only: `\ta`. */
  lemma RestSpansAliases(r: string, a: string)
    requires Trimmed(a) && a != []
    requires r == "\t" + a
    ensures RunEnds(r, 0, 1, IsSpace) && RunEnds(r, 1, |r|, IsNotHash) && RunStarts(r, 1, |r|, |r|, IsSpace)
    ensures r[1..] == a
  {
    assert forall i :: 1 <= i < |r| ==> r[i] == a[i - 1];
  }

  /** ... with both: `\ta\t# e`. */
  lemma RestSpansBoth(r: string, a: string, e: string, h: nat)
    requires Trimmed(a) && a != []
    requires e == [] || !IsSpace(e[0])
    requires r == ("\t" + a) + ("\t# " + e) && h == |a| + 2
    ensures RunEnds(r, 0, 1, IsSpace) && RunEnds(r, 1, h, IsNotHash) && RunStarts(r, 1, h, h - 1, IsSpace)
    ensures r[1..h - 1] == a
    ensures RunEnds(r, h + 1, h + 2, IsSpace) && r[h + 2..] == e
  {
    var x := "\t" + a;
    var y := "\t# " + e;
    assert forall i :: 1 <= i < |x| ==> r[i] == a[i - 1];
    assert r[1..h - 1] == x[1..];
    RestSpansDescription(y, e);
    RunEndsShift(x, y, 2, 3, IsSpace);
    assert r[h + 2..] == y[3..];
  }

  /** Where the alias and description groups fall in the text after the protocol of a written line. */
  lemma RestSpans(r: string, a: string, e: string, s: nat, h: nat)
    requires Trimmed(a)
    requires e == [] || !IsSpace(e[0])
    requires r == WrittenRest(a, e)
    requires s == if a == [] && e == [] then 0 else 1
    requires h == if e == [] then |r| else s + |a| + (if a == [] then 0 else 1)
    ensures RunEnds(r, 0, s, IsSpace)
    ensures RunEnds(r, s, h, IsNotHash)
    ensures RunStarts(r, s, h, s + |a|, IsSpace)
    ensures r[s..s + |a|] == a
    ensures h < |r| <==> e != []
    ensures h < |r| ==> RunEnds(r, h + 1, h + 2, IsSpace) && r[h + 2..] == e
  {
    if a == [] && e == [] {
      RestSpansEmpty(r);
    } else if a == [] {
      RestSpansDescription(r, e);
    } else if e == [] {
      RestSpansAliases(r, a);
    } else {
      RestSpansBoth(r, a, e, h);
    }
  }

  /** The same runs, found in the whole line. */
  lemma RestRunsInLine(line: string, head: string, r: string, a: string, e: string, m: nat, s: nat, h: nat)
    requires line == head + r && m == |head|
    requires Trimmed(a)
    requires e == [] || !IsSpace(e[0])
    requires r == WrittenRest(a, e)
    requires s == if a == [] && e == [] then 0 else 1
    requires h == if e == [] then |r| else s + |a| + (if a == [] then 0 else 1)
    ensures RestRuns(line, m, m + s, m + s + |a|, m + h)
  {
    RestSpans(r, a, e, s, h);
    RunEndsShift(head, r, 0, s, IsSpace);
    RunEndsShift(head, r, s, h, IsNotHash);
    RunStartsShift(head, r, s, h, s + |a|, IsSpace);
  }

  /** The alias and description texts, found in the whole line. */
  lemma RestSlicesInLine(line: string, head: string, r: string, a: string, e: string, m: nat, s: nat, h: nat)
    requires line == head + r && m == |head|
    requires Trimmed(a)
    requires e == [] || !IsSpace(e[0])
    requires r == WrittenRest(a, e)
    requires s == if a == [] && e == [] then 0 else 1
    requires h == if e == [] then |r| else s + |a| + (if a == [] then 0 else 1)
    ensures RestParts(line, a, e, m, s, h)
  {
    RestSpans(r, a, e, s, h);
    SliceShift(head, r, s, s + |a|);
    if e != [] {
      RunEndsShift(head, r, h + 1, h + 2, IsSpace);
      SliceShift(head, r, h + 2, |r|);
    }
  }

  /**
   * The runs the record pattern's first tokens take in `line`: a name up
   * to `a`, whitespace up to `b`, digits up to the slash at `c`, and a
   * protocol up to `d`.
   */
  predicate HeadRuns(line: string, a: nat, b: nat, c: nat, d: nat) {
    && RunEnds(line, 0, a, IsNonSpace)
    && RunEnds(line, a, b, IsSpace) && b != a
    && RunEnds(line, b, c, IsDigit) && c < |line| && line[c] == '/'
    && RunEnds(line, c + 1, d, IsNonSpace)
  }

  /** The runs after the protocol: whitespace up to `e`, text without `#` up to `h`, whose trailing whitespace starts at `k`. */
  predicate RestRuns(line: string, d: nat, e: nat, k: nat, h: nat) {
    && RunEnds(line, d, e, IsSpace)
    && RunEnds(line, e, h, IsNotHash)
    && RunStarts(line, e, h, k, IsSpace)
  }

  /** The name, number and protocol texts between the first runs. */
  predicate HeadParts(line: string, n: string, d: string, p: string, m: nat) {
    && |n| + 1 + |d| + 1 <= m <= |line|
    && line[..|n|] == n
    && line[|n| + 1..|n| + 1 + |d|] == d
    && line[|n| + 1 + |d| + 1..m] == p
  }

  /** The alias text after the protocol, and the description after the `#` and one whitespace. */
  predicate RestParts(line: string, a: string, e: string, m: nat, s: nat, h: nat) {
    && m + s + |a| <= |line|
    && line[m + s..m + s + |a|] == a
    && (m + h < |line| <==> e != [])
    && (m + h < |line| ==> RunEnds(line, m + h + 1, m + h + 2, IsSpace) && line[m + h + 2..] == e)
  }

  lemma RestStart(a: string, e: string)
    ensures WrittenRest(a, e) == [] || WrittenRest(a, e)[0] == '\t'
  {
  }

  /** The runs of the name, number and protocol of a written line. */
  lemma WrittenHeadRuns(line: string, head: string, r: string, n: string, d: string, p: string, m: nat)
    requires NoSpace(n) && AllDigits(d) && d != [] && NoSpace(p)
    requires head == n + "\t" + d + "/" + p && m == |head|
    requires line == head + r && (r == [] || r[0] == '\t')
    ensures HeadRuns(line, |n|, |n| + 1, |n| + 1 + |d|, m)
    ensures HeadParts(line, n, d, p, m)
  {
    NameSpan(line, n, d, p, r);
    GapSpan(line, n, d, p, r);
    NumberSpan(line, n, d, p, r);
    ProtocolSpan(line, n, d, p, r);
  }

  /** The pattern's spans of a line whose runs end at known places. */
  lemma SpansFromRuns(line: string, a: nat, b: nat, c: nat, d: nat, e: nat, k: nat, h: nat)
    requires HeadRuns(line, a, b, c, d) && RestRuns(line, d, e, k, h)
    ensures MatchSpans(line) == Some(Spans(a, b, c, d, e, k, h))
    ensures WellSpanned(line, Spans(a, b, c, d, e, k, h))
  {
    RunFromAt(line, 0, a, IsNonSpace);
    RunFromAt(line, a, b, IsSpace);
    RunFromAt(line, b, c, IsDigit);
    RunFromAt(line, c + 1, d, IsNonSpace);
    RunFromAt(line, d, e, IsSpace);
    RunFromAt(line, e, h, IsNotHash);
    RunBackAt(line, e, h, k, IsSpace);
  }

  /** The captures at spans whose texts are known. */
  lemma CapturesAtParts(line: string, n: string, d: string, p: string, a: string, e: string, m: nat, s: nat, h: nat)
    requires WellSpanned(line, Spans(|n|, |n| + 1, |n| + 1 + |d|, m, m + s, m + s + |a|, m + h))
    requires HeadParts(line, n, d, p, m) && RestParts(line, a, e, m, s, h)
    ensures CapturesAt(line, Spans(|n|, |n| + 1, |n| + 1 + |d|, m, m + s, m + s + |a|, m + h))
            == Captures(n, d, p, a, if e == [] then None else Some(e))
  {
    if m + h < |line| {
      RunFromAt(line, m + h + 1, m + h + 2, IsSpace);
    }
  }

  /** The captures of a line whose runs end where the parts of a record end. */
  lemma MatchFromRuns(line: string, n: string, d: string, p: string, a: string, e: string, m: nat, s: nat, h: nat)
    requires HeadRuns(line, |n|, |n| + 1, |n| + 1 + |d|, m) && RestRuns(line, m, m + s, m + s + |a|, m + h)
    requires HeadParts(line, n, d, p, m) && RestParts(line, a, e, m, s, h)
    ensures MatchRecord(line) == Some(Captures(n, d, p, a, if e == [] then None else Some(e)))
  {
    var sp := Spans(|n|, |n| + 1, |n| + 1 + |d|, m, m + s, m + s + |a|, m + h);
    SpansFromRuns(line, |n|, |n| + 1, |n| + 1 + |d|, m, m + s, m + s + |a|, m + h);
    assert MatchSpans(line) == Some(sp) && WellSpanned(line, sp);
    CapturesAtParts(line, n, d, p, a, e, m, s, h);
    assert CapturesAt(line, sp) == Captures(n, d, p, a, if e == [] then None else Some(e));
    assert MatchRecord(line) == Some(CapturesAt(line, sp));
  }

  /** The captures of a written line are its parts. */
  lemma MatchWrittenLine(n: string, d: string, p: string, a: string, e: string)
    requires NoSpace(n) && AllDigits(d) && d != [] && NoSpace(p)
    requires Trimmed(a)
    requires e == [] || !IsSpace(e[0])
    ensures MatchRecord(WrittenLine(n, d, p, a, e)) == Some(Captures(n, d, p, a, if e == [] then None else Some(e)))
  {
    var head := n + "\t" + d + "/" + p;
    var r := WrittenRest(a, e);
    var line := head + r;
    WrittenLineParts(n, d, p, a, e);
    var m := |head|;
    var s := if a == [] && e == [] then 0 else 1;
    var h := if e == [] then |r| else s + |a| + (if a == [] then 0 else 1);
    RestStart(a, e);
    WrittenHeadRuns(line, head, r, n, d, p, m);
    RestRunsInLine(line, head, r, a, e, m, s, h);
    RestSlicesInLine(line, head, r, a, e, m, s, h);
    MatchFromRuns(line, n, d, p, a, e, m, s, h);
  }

  /** The hash a line's captures give after `post_parse`, when it does not raise. */
  function ReadHash(c: Captures): Hash {
    map[NameKey := Capture(c.name), NumberKey := Capture(c.number), ProtocolKey := Sym(c.protocol),
        AliasesKey := Capture(if c.aliases == [] then [] else Collapse(c.aliases)),
        DescriptionKey := if c.description.Some? then Str(c.description.value) else Str("")]
  }

  /** `post_parse` on a line's captures raises exactly when the protocol group is empty. */
  lemma PostParsedCaptures(c: Captures)
    ensures PostParsed(CapturedHash(c)).Ok? <==> c.protocol != []
    ensures c.protocol != [] ==> PostParsed(CapturedHash(c)).value == ReadHash(c)
  {
  }

  /** A matched line that is neither a comment nor blank is read as the record of its captures. */
  lemma ParseMatchedLine(line: string, c: Captures)
    requires IsLine(line) && !IsComment(line) && !IsBlank(line)
    requires MatchRecord(line) == Some(c) && c.protocol != []
    ensures ParseLine(line) == Record(ReadHash(c))
  {
    PostParsedCaptures(c);
  }

  /** The line `to_line` writes for a canonical record, from its parts. */
  lemma CanonicalLine(h: Hash, n: string, d: string, p: string, a: string, e: string)
    requires CanonicalRecord(h)
    requires n == h[NameKey].s && d == h[NumberKey].s && p == h[ProtocolKey].s
    requires a == (if h[AliasesKey] == Absent then "" else h[AliasesKey].s) && e == h[DescriptionKey].s
    ensures Line(h) == Ok(WrittenLine(n, d, p, a, e))
  {
  }

  /** The text after the protocol holds no line break when the aliases and description hold none. */
  lemma RestIsLine(a: string, e: string)
    requires SingleSpaced(a) && IsLine(e)
    ensures IsLine(WrittenRest(a, e))
  {
    assert IsLine(a) by {
      forall i | 0 <= i < |a|
        ensures a[i] != '\n'
      {
        if IsSpace(a[i]) {
          assert a[i] == ' ';
        }
      }
    }
  }

  /** A written line whose name starts with neither whitespace nor `#` is one record line. */
  lemma WrittenLineShape(line: string, n: string, d: string, p: string, r: string)
    requires line == n + "\t" + d + "/" + p + r
    requires n != [] && NoSpace(n) && n[0] != '#' && AllDigits(d) && NoSpace(p) && IsLine(r)
    ensures IsLine(line) && !IsComment(line) && !IsBlank(line)
  {
    assert line[0] == n[0];
    RunFromAt(line, 0, 0, IsSpace);
  }

  /** Reading back the parts of a canonical record gives the record. */
  lemma ReadHashCanonical(h: Hash, n: string, d: string, p: string, a: string, e: string)
    requires CanonicalRecord(h)
    requires n == h[NameKey].s && d == h[NumberKey].s && p == h[ProtocolKey].s
    requires a == (if h[AliasesKey] == Absent then "" else h[AliasesKey].s) && e == h[DescriptionKey].s
    ensures ReadHash(Captures(n, d, p, a, if e == [] then None else Some(e))) == h
  {
    var r := ReadHash(Captures(n, d, p, a, if e == [] then None else Some(e)));
    assert r[NameKey] == h[NameKey] && r[NumberKey] == h[NumberKey] && r[ProtocolKey] == h[ProtocolKey] by {
    }
    assert r[DescriptionKey] == h[DescriptionKey] by {
    }
    assert r[AliasesKey] == h[AliasesKey] by {
      if a != [] {
        CollapseKeepsSingleSpaced(a);
      }
    }
    HashesAgree(r, h);
  }

  /** Two record hashes with the five keys that agree key by key are equal. */
  lemma HashesAgree(r: Hash, h: Hash)
    requires r.Keys == {NameKey, NumberKey, ProtocolKey, AliasesKey, DescriptionKey} == h.Keys
    requires r[NameKey] == h[NameKey] && r[NumberKey] == h[NumberKey] && r[ProtocolKey] == h[ProtocolKey]
    requires r[AliasesKey] == h[AliasesKey] && r[DescriptionKey] == h[DescriptionKey]
    ensures r == h
  {
    forall k | k in r ensures r[k] == h[k] {
      match k
      case NameKey =>
      case NumberKey =>
      case ProtocolKey =>
      case AliasesKey =>
      case DescriptionKey =>
    }
  }

  /** A canonical record is written as a line and read back as the same record. */
  lemma WrittenRecordReadsBack(h: Hash)
    requires CanonicalRecord(h)
    ensures Line(h).Ok? && IsLine(Line(h).value)
    ensures ParseLine(Line(h).value) == Record(h)
  {
    var n, d, p := h[NameKey].s, h[NumberKey].s, h[ProtocolKey].s;
    var a := if h[AliasesKey] == Absent then "" else h[AliasesKey].s;
    var e := h[DescriptionKey].s;
    var line := WrittenLine(n, d, p, a, e);
    CanonicalLine(h, n, d, p, a, e);
    WrittenLineParts(n, d, p, a, e);
    RestIsLine(a, e);
    WrittenLineShape(line, n, d, p, WrittenRest(a, e));
    MatchWrittenLine(n, d, p, a, e);
    var c := Captures(n, d, p, a, if e == [] then None else Some(e));
    ParseMatchedLine(line, c);
    ReadHashCanonical(h, n, d, p, a, e);
  }

  /** What the captures of a record line are known to satisfy besides the pattern's own classes. */
  lemma MatchedCaptures(line: string, c: Captures)
    requires IsLine(line) && !IsComment(line) && MatchRecord(line) == Some(c)
    ensures c.name != [] ==> c.name[0] != '#'
    ensures c.description.Some? ==> IsLine(c.description.value)
  {
    MatchRecordClasses(line, c);
    if c.name != [] {
      RunFromAt(line, 0, 0, IsSpace);
    }
    if c.description.Some? {
      var e := c.description.value;
      assert forall i :: 0 <= i < |e| ==> e[i] == line[|line| - |e| + i];
    }
  }

  /** Captures that `post_parse` and `to_line` both accept read as a canonical record. */
  lemma CapturesCanonical(c: Captures, h: Hash)
    requires NoSpace(c.name) && AllDigits(c.number) && NoSpace(c.protocol) && Trimmed(c.aliases)
    requires c.description.Some? ==> c.description.value == [] || !IsSpace(c.description.value[0])
    requires c.description.Some? ==> IsLine(c.description.value)
    requires c.name != [] ==> c.name[0] != '#'
    requires c.protocol != []
    requires h == ReadHash(c) && Line(h).Ok?
    ensures CanonicalRecord(h)
  {
    if c.aliases != [] {
      CollapseNoHash(c.aliases);
      CollapseLast(c.aliases);
    }
  }

  /** The record of a matched line is canonical when `to_line` accepts it. */
  lemma MatchedRecordCanonical(line: string, c: Captures, h: Hash)
    requires IsLine(line) && !IsComment(line)
    requires MatchRecord(line) == Some(c) && c.protocol != []
    requires h == ReadHash(c) && Line(h).Ok?
    ensures CanonicalRecord(h)
  {
    MatchRecordClasses(line, c);
    MatchedCaptures(line, c);
    CapturesCanonical(c, h);
  }

  /**
   * A record read from a line and written again reads back unchanged: the
   * provider's files reach a fixed point after one rewrite.
   */
  lemma ReadRecordIsCanonical(line: string, h: Hash)
    requires IsLine(line)
    requires ParseLine(line) == Record(h)
    requires Line(h).Ok?
    ensures CanonicalRecord(h)
    ensures IsLine(Line(h).value)
    ensures ParseLine(Line(h).value) == Record(h)
  {
    var c := MatchRecord(line).value;
    PostParsedCaptures(c);
    MatchedRecordCanonical(line, c, h);
    WrittenRecordReadsBack(h);
  }

  /**
   * A name the type accepts can still be lost: a name starting with `#`
   * is written at the start of the line, which then reads back as a comment.
   */
  lemma HashNameReadsAsComment(h: Hash)
    requires Present(Get(h, NameKey)) && Present(Get(h, NumberKey)) && Present(Get(h, ProtocolKey))
    requires Get(h, NameKey).Str? && Get(h, NameKey).s != [] && Get(h, NameKey).s[0] == '#'
    requires Line(h).Ok?
    ensures IsLine(Line(h).value) ==> ParseLine(Line(h).value) == Comment
  {
    var line := Line(h).value;
    assert line[0] == '#';
    assert Run(line, IsSpace) == 0;
  }

  // ---------------------------------------------------------------------
  // Matching records to resources
  // ---------------------------------------------------------------------

  /** What `match` returns: `false`, the managing resource, or `nil`. */
  datatype MatchResult<R> = NoIdentity | Managed(resource: R) | Unmanaged

  /** `self.match(record, resources)`: resources are keyed by `[name, protocol]`. */
  function Match<R>(record: Hash, resources: map<(Value, Value), R>): (r: MatchResult<R>)
    ensures r.NoIdentity? <==> Get(record, NameKey) == Nil || Get(record, ProtocolKey) == Nil
    ensures r.Managed? <==> !r.NoIdentity? && (Get(record, NameKey), Get(record, ProtocolKey)) in resources
    ensures r.Managed? ==> r.resource == resources[(Get(record, NameKey), Get(record, ProtocolKey))]
  {
    var name := Get(record, NameKey);
    var protocol := Get(record, ProtocolKey);
    if name == Nil || protocol == Nil then NoIdentity
    else if (name, protocol) in resources then Managed(resources[(name, protocol)])
    else Unmanaged
  }
}
