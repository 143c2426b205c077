/**
 * Shell completion for the `puppet` command: given the words typed so far,
 * the candidate words and the prefix the shell should match them against.
 */
module BashCompletion {
  import opened Wrappers
  import opened Text

  /** A face as completion sees it: its name, its actions and its option names. */
  datatype Face = Face(name: string, actions: seq<string>, options: seq<string>)

  /**
   * What the running Puppet knows: its faces, the legacy applications
   * listed by the `help` face, and the names of its settings.
   */
  datatype Env = Env(faces: seq<Face>, legacy: seq<string>, settings: seq<string>)

  /** The pair returned to the shell; `pattern` is `None` where Ruby would return nil. */
  datatype Completion = Completion(choices: seq<string>, pattern: Option<string>)

  function FaceNames(faces: seq<Face>): (r: seq<string>)
    ensures |r| == |faces|
    ensures forall i :: 0 <= i < |faces| ==> r[i] == faces[i].name
  {
    if faces == [] then [] else [faces[0].name] + FaceNames(faces[1..])
  }

  /** The face registered under `name`; the first one if several share it. */
  function FindFace(faces: seq<Face>, name: string): (f: Face)
    requires name in FaceNames(faces)
    ensures f in faces && f.name == name
  {
    if faces[0].name == name then faces[0] else FindFace(faces[1..], name)
  }

  /** Each option name with `--` in front of it. */
  function Flags(names: seq<string>): (r: seq<string>)
    ensures |r| == |names|
    ensures forall i :: 0 <= i < |names| ==> r[i] == "--" + names[i]
  {
    if names == [] then [] else ["--" + names[0]] + Flags(names[1..])
  }

  /** Ruby's `args.last`: nil for an empty list. */
  function Last(args: seq<string>): (r: Option<string>)
    ensures r.None? <==> args == []
    ensures r.Some? ==> r.value == args[|args| - 1]
  {
    if args == [] then None else Some(args[|args| - 1])
  }

  /** The words a face completes to: its actions and its `--`-prefixed options. */
  function FaceWords(f: Face): seq<string> {
    f.actions + Flags(f.options)
  }

  /**
   * The four-way case split once the subcommand has been taken off the
   * arguments: `rest` holds the words after it. The setting names take no
   * part, as the line that would add them is commented out.
   */
  function Complete(env: Env, sub: string, rest: seq<string>): (r: Completion)
    ensures r.pattern.Some?
    ensures sub in FaceNames(env.faces) ==>
      Sorted(r.choices) && multiset(r.choices) == multiset(FaceWords(FindFace(env.faces, sub)))
    ensures sub !in FaceNames(env.faces) && rest == [] && sub !in env.legacy ==>
      Sorted(r.choices) && multiset(r.choices) == multiset(FaceNames(env.faces) + env.legacy)
    ensures sub !in FaceNames(env.faces) && (rest != [] || sub in env.legacy) ==> r.choices == []
    ensures (sub in FaceNames(env.faces) || sub in env.legacy) ==> r.pattern == Some(Last(rest).GetOr(""))
    ensures sub !in FaceNames(env.faces) && sub !in env.legacy ==>
      r.pattern == if rest == [] then Some(sub) else Last(rest)
  {
    if sub in FaceNames(env.faces) then
      Completion(Sort(FaceWords(FindFace(env.faces, sub))), Some(Last(rest).GetOr("")))
    else if sub in env.legacy then
      Completion([], Some(Last(rest).GetOr("")))
    else if rest == [] then
      Completion(Sort(FaceNames(env.faces) + env.legacy), Some(sub))
    else
      Completion([], Last(rest))
  }

  /** The argument list the caller passes in, which `Choices` shifts in place. */
  class ArgList {
    var items: seq<string>

    constructor(items: seq<string>)
      ensures this.items == items
    {
      this.items := items;
    }

    /** Ruby's `Array#shift`: removes and returns the first word, nil when there is none. */
    method Shift() returns (first: Option<string>)
      modifies this
      ensures old(items) == [] ==> first.None? && items == []
      ensures old(items) != [] ==> first == Some(old(items)[0]) && items == old(items)[1..]
    {
      if items == [] {
        first := None;
      } else {
        first := Some(items[0]);
        items := items[1..];
      }
    }
  }

  /** The subcommand `Choices` takes from a word list: its first word, or `""`. */
  function Subcommand(args: seq<string>): string {
    if args == [] then "" else args[0]
  }

  /** The words left after the subcommand has been shifted off. */
  function AfterSubcommand(args: seq<string>): seq<string> {
    if args == [] then [] else args[1..]
  }

  /** `Puppet::BashCompletion.choices(args)`: shifts the subcommand off `args`, then completes. */
  method Choices(env: Env, args: ArgList) returns (r: Completion)
    modifies args
    ensures args.items == AfterSubcommand(old(args.items))
    ensures r == Complete(env, Subcommand(old(args.items)), args.items)
  {
    var first := args.Shift();
    var sub := first.GetOr("");
    r := Complete(env, sub, args.items);
  }

  /** What `Choices` computes from the whole word list, before shifting. */
  function ChoicesOf(env: Env, args: seq<string>): Completion {
    Complete(env, Subcommand(args), AfterSubcommand(args))
  }

  /** With nothing typed, every face and legacy application is offered and the pattern is empty. */
  lemma NothingTyped(env: Env)
    requires "" !in FaceNames(env.faces) && "" !in env.legacy
    ensures Sorted(ChoicesOf(env, []).choices)
    ensures multiset(ChoicesOf(env, []).choices) == multiset(FaceNames(env.faces) + env.legacy)
    ensures ChoicesOf(env, []).pattern == Some("")
  {
  }

  /** A name that is both a face and a legacy application completes as the face. */
  lemma FacePrecedence(env: Env, sub: string, rest: seq<string>)
    requires sub in FaceNames(env.faces) && sub in env.legacy
    ensures Complete(env, sub, rest) == Complete(env.(legacy := []), sub, rest)
    ensures Complete(env, sub, rest).choices == Sort(FaceWords(FindFace(env.faces, sub)))
  {
  }

  /** The setting names never change the answer. */
  lemma SettingsIgnored(env: Env, settings: seq<string>, args: seq<string>)
    ensures ChoicesOf(env.(settings := settings), args) == ChoicesOf(env, args)
  {
  }

  /** Every face choice is one of the face's actions or one of its options with `--` in front. */
  lemma FaceChoicesFromFace(env: Env, sub: string, rest: seq<string>, w: string)
    requires sub in FaceNames(env.faces)
    requires w in Complete(env, sub, rest).choices
    ensures w in FindFace(env.faces, sub).actions || exists o :: o in FindFace(env.faces, sub).options && w == "--" + o
  {
    var f := FindFace(env.faces, sub);
    var ws := Sort(FaceWords(f));
    assert Complete(env, sub, rest).choices == ws;
    assert multiset(ws) == multiset(FaceWords(f));
    assert w in multiset(FaceWords(f));
    if w !in f.actions {
      FlagFrom(f.options, w);
    }
  }

  lemma FlagFrom(names: seq<string>, w: string)
    requires w in Flags(names)
    ensures exists o :: o in names && w == "--" + o
  {
    var i :| 0 <= i < |names| && Flags(names)[i] == w;
    assert names[i] in names;
  }

  /** The pattern handed to the shell is one of the words typed, or the empty string. */
  lemma PatternIsTyped(env: Env, args: seq<string>)
    ensures ChoicesOf(env, args).pattern.value == "" || ChoicesOf(env, args).pattern.value in args
  {
    var rest := AfterSubcommand(args);
    if rest != [] {
      assert rest[|rest| - 1] == args[|args| - 1];
    }
  }
}
