/**
 * `Puppet::TransObject`: a resource in transport form, a type and a title
 * with a table of parameters, plus tags.
 */
module Transportable {
  import opened Wrappers
  import opened Text

  /** A parameter value: a plain value shown through its text, or an array of them. */
  datatype Value = Scalar(text: string) | List(items: seq<string>)

  /**
   * The parameter table: a Ruby Hash, whose keys keep the order in which
   * they were first stored.
   */
  datatype Table = Table(keys: seq<string>, values: map<string, Value>)

  /** The keys are distinct and are exactly the mapped ones. */
  ghost predicate Valid(t: Table) {
    (forall i, j :: 0 <= i < j < |t.keys| ==> t.keys[i] != t.keys[j]) &&
    (forall k :: k in t.values <==> k in t.keys)
  }

  /** Ruby's `h[k]`: nil when the key is absent. */
  function Lookup(t: Table, k: string): Option<Value> {
    if k in t.values then Some(t.values[k]) else None
  }

  /** Ruby's `h[k] = v`: a new key goes last, an existing key keeps its place. */
  function Put(t: Table, k: string, v: Value): Table {
    Table(if k in t.values then t.keys else t.keys + [k], t.values[k := v])
  }

  /** `s` without `k`. */
  function RemoveKey(s: seq<string>, k: string): (r: seq<string>)
    ensures forall x :: x in r <==> x in s && x != k
    ensures |r| <= |s|
  {
    if s == [] then []
    else if s[0] == k then RemoveKey(s[1..], k)
    else [s[0]] + RemoveKey(s[1..], k)
  }

  /** Ruby's `h.delete(k)`: the table without `k`. */
  function Without(t: Table, k: string): Table {
    Table(RemoveKey(t.keys, k), t.values - {k})
  }

  /** Ruby's `h.length`. */
  function Size(t: Table): nat {
    |t.keys|
  }

  /** The pairs `each` yields, in key order. */
  function Pairs(t: Table): (r: seq<(string, Value)>)
    requires Valid(t)
    ensures |r| == |t.keys|
  {
    seq(|t.keys|, i requires 0 <= i < |t.keys| => (t.keys[i], t.values[t.keys[i]]))
  }

  lemma PutValid(t: Table, k: string, v: Value)
    requires Valid(t)
    ensures Valid(Put(t, k, v))
  {
  }

  /** Storing then reading a key gives the stored value; every other key reads as before. */
  lemma LookupPut(t: Table, k: string, v: Value, j: string)
    ensures Lookup(Put(t, k, v), j) == if j == k then Some(v) else Lookup(t, j)
  {
  }

  /** Storing grows the table by one exactly when the key is new. */
  lemma SizePut(t: Table, k: string, v: Value)
    ensures Size(Put(t, k, v)) == if Lookup(t, k).None? then Size(t) + 1 else Size(t)
  {
  }

  lemma {:induction false} RemoveKeyDistinct(s: seq<string>, k: string)
    requires forall i, j :: 0 <= i < j < |s| ==> s[i] != s[j]
    ensures forall i, j :: 0 <= i < j < |RemoveKey(s, k)| ==> RemoveKey(s, k)[i] != RemoveKey(s, k)[j]
    ensures |RemoveKey(s, k)| == if k in s then |s| - 1 else |s|
  {
    if s != [] {
      RemoveKeyDistinct(s[1..], k);
      if s[0] == k {
        assert k !in s[1..] by {
          forall i | 0 <= i < |s[1..]| ensures s[1..][i] != k {
            assert s[1..][i] == s[i + 1];
          }
        }
      } else {
        var r := RemoveKey(s[1..], k);
        assert s[0] !in s[1..] by {
          forall i | 0 <= i < |s[1..]| ensures s[1..][i] != s[0] {
            assert s[1..][i] == s[i + 1];
          }
        }
        assert s[0] !in r;
        assert k in s <==> k in s[1..] by {
          assert s == [s[0]] + s[1..];
        }
        forall i, j | 0 <= i < j < |[s[0]] + r| ensures ([s[0]] + r)[i] != ([s[0]] + r)[j] {
          if i == 0 {
            assert ([s[0]] + r)[j] == r[j - 1];
          }
        }
      }
    }
  }

  /** Deleting a key reads it as absent afterwards, keeps the table well formed and shrinks it by one exactly when the key was there. */
  lemma WithoutValid(t: Table, k: string)
    requires Valid(t)
    ensures Valid(Without(t, k))
    ensures Lookup(Without(t, k), k).None?
    ensures forall j :: j != k ==> Lookup(Without(t, k), j) == Lookup(t, j)
    ensures Size(Without(t, k)) == if Lookup(t, k).None? then Size(t) else Size(t) - 1
  {
    RemoveKeyDistinct(t.keys, k);
  }

  lemma {:induction false} DistinctCard(s: seq<string>)
    requires forall i, j :: 0 <= i < j < |s| ==> s[i] != s[j]
    ensures |set x | x in s| == |s|
  {
    if s != [] {
      var rest := s[1..];
      assert forall i, j :: 0 <= i < j < |rest| ==> rest[i] != rest[j] by {
        forall i, j | 0 <= i < j < |rest| ensures rest[i] != rest[j] {
          assert rest[i] == s[i + 1] && rest[j] == s[j + 1];
        }
      }
      DistinctCard(rest);
      assert s[0] !in rest by {
        forall i | 0 <= i < |rest| ensures rest[i] != s[0] {
          assert rest[i] == s[i + 1];
        }
      }
      KeySetCons(s);
    }
  }

  lemma KeySetCons(s: seq<string>)
    requires s != []
    ensures (set x | x in s) == {s[0]} + (set x | x in s[1..])
  {
    assert s == [s[0]] + s[1..];
  }

  /** A table's length is the number of keys it maps. */
  lemma SizeIsCount(t: Table)
    requires Valid(t)
    ensures Size(t) == |t.values.Keys|
  {
    DistinctCard(t.keys);
    assert t.values.Keys == set x | x in t.keys;
  }

  /** A table is empty exactly when it maps no key. */
  lemma EmptyIffNoKeys(t: Table)
    requires Valid(t)
    ensures Size(t) == 0 <==> t.values == map[]
  {
    if t.keys != [] {
      assert t.keys[0] in t.values;
    }
  }

  /** `each` yields exactly the stored pairs, every key once. */
  lemma PairsExact(t: Table, k: string, v: Value)
    requires Valid(t)
    ensures (k, v) in Pairs(t) <==> Lookup(t, k) == Some(v)
    ensures forall i, j :: 0 <= i < j < |Pairs(t)| ==> Pairs(t)[i].0 != Pairs(t)[j].0
  {
    if Lookup(t, k) == Some(v) {
      var i :| 0 <= i < |t.keys| && t.keys[i] == k;
      assert Pairs(t)[i] == (k, v);
    }
  }

  /** ASCII `A`-`Z` to `a`-`z`: Ruby's `String#downcase` leaves every other character alone. */
  function LowerChar(c: char): char {
    if 'A' <= c <= 'Z' then (c as int + 32) as char else c
  }

  function Downcase(s: string): (r: string)
    ensures |r| == |s|
    ensures forall i :: 0 <= i < |s| ==> r[i] == LowerChar(s[i])
  {
    if s == [] then [] else [LowerChar(s[0])] + Downcase(s[1..])
  }

  /** A downcased string has no capital letter, and downcasing it again changes nothing. */
  lemma DowncaseLower(s: string)
    ensures forall i :: 0 <= i < |s| ==> !('A' <= Downcase(s)[i] <= 'Z')
    ensures Downcase(Downcase(s)) == Downcase(s)
  {
  }

  /** The manifest line of one parameter. */
  function ParamLine(p: string, v: Value): string {
    match v
    case Scalar(text) => "    " + p + " => '" + text + "'"
    case List(items) => "    " + p + " => ['" + Join(items, "','") + "']"
  }

  function ParamLines(pairs: seq<(string, Value)>): (r: seq<string>)
    ensures |r| == |pairs|
    ensures forall i :: 0 <= i < |pairs| ==> r[i] == ParamLine(pairs[i].0, pairs[i].1)
  {
    if pairs == [] then [] else [ParamLine(pairs[0].0, pairs[0].1)] + ParamLines(pairs[1..])
  }

  /** The header line of a manifest, without its line feed. */
  function Header(typ: string, name: string): string {
    typ + " { '" + name + "':"
  }

  /** `to_manifest`'s text for a type, a title and the parameter pairs in order. */
  function Manifest(typ: string, name: string, pairs: seq<(string, Value)>): string {
    Header(typ, name) + "\n" + Join(ParamLines(pairs), ",\n") + "\n}"
  }

  /** The lines as they appear in the manifest: every one but the last ends with a comma. */
  function Commaed(lines: seq<string>): (r: seq<string>)
    ensures |r| == |lines|
  {
    if |lines| <= 1 then lines else [lines[0] + ","] + Commaed(lines[1..])
  }

  lemma {:induction false} JoinCommaed(lines: seq<string>)
    requires |lines| >= 1
    ensures Join(lines, ",\n") == Join(Commaed(lines), "\n")
  {
    if |lines| > 1 {
      JoinCommaed(lines[1..]);
      AppendAssoc(lines[0], ",", "\n" + Join(Commaed(lines[1..]), "\n"));
    }
  }

  predicate NoNewline(s: string) {
    forall i :: 0 <= i < |s| ==> s[i] != '\n'
  }

  lemma {:induction false} JoinNoNewline(parts: seq<string>, sep: string)
    requires NoNewline(sep)
    requires forall k :: 0 <= k < |parts| ==> NoNewline(parts[k])
    ensures NoNewline(Join(parts, sep))
  {
    if |parts| > 1 {
      JoinNoNewline(parts[1..], sep);
    }
  }

  /** What every manifest line is made from: no parameter name, value or title spans lines. */
  predicate OneLineValue(v: Value) {
    match v
    case Scalar(text) => NoNewline(text)
    case List(items) => forall k :: 0 <= k < |items| ==> NoNewline(items[k])
  }

  lemma ParamLineNoNewline(p: string, v: Value)
    requires NoNewline(p) && OneLineValue(v)
    ensures NoNewline(ParamLine(p, v))
  {
    if v.List? {
      JoinNoNewline(v.items, "','");
    }
  }

  /** The manifest's middle lines: one per parameter, or a single empty line when there is none. */
  function BodyLines(lines: seq<string>): seq<string> {
    if lines == [] then [""] else Commaed(lines)
  }

  lemma {:induction false} JoinSnoc(parts: seq<string>, last: string, sep: string)
    requires |parts| >= 1
    ensures Join(parts + [last], sep) == Join(parts, sep) + sep + last
  {
    if |parts| == 1 {
      assert (parts + [last])[1..] == [last];
    } else {
      assert (parts + [last])[1..] == parts[1..] + [last];
      JoinSnoc(parts[1..], last, sep);
    }
  }

  /** No line of `lines` holds a line feed. */
  predicate AllOneLine(lines: seq<string>) {
    forall k :: 0 <= k < |lines| ==> NoNewline(lines[k])
  }

  lemma AllOneLineAppend(a: seq<string>, b: seq<string>)
    requires AllOneLine(a) && AllOneLine(b)
    ensures AllOneLine(a + b)
  {
    forall k | 0 <= k < |a + b| ensures NoNewline((a + b)[k]) {
      if k < |a| {
        assert (a + b)[k] == a[k];
      } else {
        assert (a + b)[k] == b[k - |a|];
      }
    }
  }

  lemma {:induction false} CommaedNoNewline(lines: seq<string>)
    requires AllOneLine(lines)
    ensures AllOneLine(Commaed(lines))
  {
    if |lines| > 1 {
      assert AllOneLine(lines[1..]) by {
        forall k | 0 <= k < |lines[1..]| ensures NoNewline(lines[1..][k]) {
          assert lines[1..][k] == lines[k + 1];
        }
      }
      CommaedNoNewline(lines[1..]);
      assert NoNewline(lines[0] + ",");
      AllOneLineAppend([lines[0] + ","], Commaed(lines[1..]));
    }
  }

  /**
   * When nothing in it spans lines, a manifest reads back line by line as
   * the header, one line per parameter in order (each but the last with a
   * trailing comma) and the closing brace.
   */
  lemma ManifestLines(typ: string, name: string, pairs: seq<(string, Value)>)
    requires NoNewline(typ) && NoNewline(name)
    requires forall i :: 0 <= i < |pairs| ==> NoNewline(pairs[i].0) && OneLineValue(pairs[i].1)
    ensures SplitOn(Manifest(typ, name, pairs), '\n') == [Header(typ, name)] + BodyLines(ParamLines(pairs)) + ["}"]
  {
    var parts := [Header(typ, name)] + BodyLines(ParamLines(pairs)) + ["}"];
    assert Manifest(typ, name, pairs) == Join(parts, "\n") by {
      ManifestJoin(typ, name, pairs);
    }
    assert SplitOn(Join(parts, "\n"), '\n') == parts by {
      HeaderOneLine(typ, name);
      BodyOneLine(pairs);
      ManifestSplit(Header(typ, name), BodyLines(ParamLines(pairs)));
    }
  }

  lemma NoNewlineAppend(a: string, b: string)
    requires NoNewline(a) && NoNewline(b)
    ensures NoNewline(a + b)
  {
    forall i | 0 <= i < |a + b| ensures (a + b)[i] != '\n' {
      if i < |a| {
        assert (a + b)[i] == a[i];
      } else {
        assert (a + b)[i] == b[i - |a|];
      }
    }
  }

  lemma HeaderOneLine(typ: string, name: string)
    requires NoNewline(typ) && NoNewline(name)
    ensures NoNewline(Header(typ, name))
  {
    var open, close := " { '", "':";
    assert NoNewline(open) && NoNewline(close);
    NoNewlineAppend(typ, open);
    NoNewlineAppend(typ + open, name);
    NoNewlineAppend(typ + open + name, close);
  }

  lemma BodyOneLine(pairs: seq<(string, Value)>)
    requires forall i :: 0 <= i < |pairs| ==> NoNewline(pairs[i].0) && OneLineValue(pairs[i].1)
    ensures AllOneLine(BodyLines(ParamLines(pairs)))
  {
    var lines := ParamLines(pairs);
    forall k | 0 <= k < |lines| ensures NoNewline(lines[k]) {
      ParamLineNoNewline(pairs[k].0, pairs[k].1);
    }
    CommaedNoNewline(lines);
  }

  /** A manifest is its header, its middle lines and the closing brace joined by line feeds. */
  lemma ManifestJoin(typ: string, name: string, pairs: seq<(string, Value)>)
    ensures Manifest(typ, name, pairs) == Join([Header(typ, name)] + BodyLines(ParamLines(pairs)) + ["}"], "\n")
  {
    var lines := ParamLines(pairs);
    var h := Header(typ, name);
    var body := BodyLines(lines);
    if lines != [] {
      JoinCommaed(lines);
    }
    assert Join(lines, ",\n") == Join(body, "\n");
    JoinSnoc([h] + body, "}", "\n");
    assert ([h] + body)[1..] == body;
    assert Join([h] + body, "\n") == h + "\n" + Join(body, "\n");
  }

  lemma ManifestSplit(h: string, body: seq<string>)
    requires NoNewline(h)
    requires AllOneLine(body)
    ensures SplitOn(Join([h] + body + ["}"], "\n"), '\n') == [h] + body + ["}"]
  {
    var parts := [h] + body + ["}"];
    assert AllOneLine([h]) by {
      assert [h][0] == h;
    }
    assert AllOneLine(["}"]) by {
      assert ["}"][0] == "}";
    }
    AllOneLineAppend([h], body);
    AllOneLineAppend([h] + body, ["}"]);
    assert forall k, i :: 0 <= k < |parts| && 0 <= i < |parts[k]| ==> parts[k][i] != '\n' by {
      forall k, i | 0 <= k < |parts| && 0 <= i < |parts[k]| ensures parts[k][i] != '\n' {
        assert NoNewline(parts[k]);
      }
    }
    SplitJoin(parts, '\n');
  }

  /** A Ruby Hash object holding a parameter table, as TransObject keeps one. */
  class ParamHash {
    var table: Table

    constructor()
      ensures table == Table([], map[])
    {
      table := Table([], map[]);
    }

    /** `h[k] = v`. */
    method Store(k: string, v: Value)
      modifies this
      ensures table == Put(old(table), k, v)
    {
      table := Put(table, k, v);
    }

    /** `h.delete(k)`: the removed value, or nil. */
    method Delete(k: string) returns (r: Option<Value>)
      modifies this
      ensures r == Lookup(old(table), k)
      ensures table == Without(old(table), k)
    {
      r := Lookup(table, k);
      table := Without(table, k);
    }

    /** `h.dup`: a new hash with the same contents, not shared with this one. */
    method Dup() returns (h: ParamHash)
      ensures fresh(h)
      ensures h.table == table
    {
      h := new ParamHash();
      h.table := table;
    }
  }

  class TransObject {
    var typ: string
    var name: string
    var tags: seq<string>
    const params: ParamHash

    /** `TransObject.new(name, type)`: the type lowercased, no parameters, no tags. */
    constructor(name: string, typ: string)
      ensures this.typ == Downcase(typ) && this.name == name
      ensures fresh(params) && params.table == Table([], map[]) && Valid(params.table)
      ensures tags == []
    {
      this.typ := Downcase(typ);
      this.name := name;
      params := new ParamHash();
      tags := [];
    }

    /** `obj[k] = v`, handed to the parameter table. */
    method Store(k: string, v: Value)
      requires Valid(params.table)
      modifies params
      ensures params.table == Put(old(params.table), k, v)
      ensures Valid(params.table)
    {
      PutValid(params.table, k, v);
      params.Store(k, v);
    }

    /** `obj.delete(k)`, handed to the parameter table. */
    method Delete(k: string) returns (r: Option<Value>)
      requires Valid(params.table)
      modifies params
      ensures r == Lookup(old(params.table), k)
      ensures params.table == Without(old(params.table), k)
      ensures Valid(params.table)
    {
      WithoutValid(params.table, k);
      r := params.Delete(k);
    }

    /** `obj[k]`. */
    function Get(k: string): Option<Value>
      reads params
    {
      Lookup(params.table, k)
    }

    /** `obj.has_key?(k)`, and `include?`, which is the same Hash method. */
    predicate HasKey(k: string)
      reads params
    {
      k in params.table.values
    }

    /** `obj.length`. */
    function Length(): nat
      reads params
    {
      Size(params.table)
    }

    /** `obj.empty?`. */
    predicate IsEmpty()
      reads params
    {
      params.table.keys == []
    }

    /** The pairs `each` yields, in order. */
    function Each(): seq<(string, Value)>
      requires Valid(params.table)
      reads params
    {
      Pairs(params.table)
    }

    /** `longname`: the type and the title joined by `--`. */
    function Longname(): string
      reads this
    {
      typ + "--" + name
    }

    /** `to_hash`: a copy of the parameter table that later stores on either side do not reach. */
    method ToHash() returns (h: ParamHash)
      ensures fresh(h)
      ensures h.table == params.table
    {
      h := params.Dup();
    }

    /** `to_manifest`. */
    function ToManifest(): string
      requires Valid(params.table)
      reads this, params
    {
      Manifest(typ, name, Pairs(params.table))
    }
  }

  /** A type without a dash can be read back off a long name: it runs up to the first dash, and the title follows the `--`. */
  lemma LongnameSplits(o: TransObject)
    requires NoDash(o.typ)
    ensures IndexOf(o.Longname(), '-') == |o.typ|
    ensures o.Longname()[..|o.typ|] == o.typ && o.Longname()[|o.typ| + 2..] == o.name
  {
    IndexOfAfter(o.typ, "--" + o.name, '-');
    assert o.Longname() == o.typ + ("--" + o.name);
  }

  predicate NoDash(s: string) {
    forall i :: 0 <= i < |s| ==> s[i] != '-'
  }
}
