# Puppet: port resources, module listing, shell completion, transport objects and the installer's dependency table

A Dafny model of six small parts of Puppet, each proved against what its
code promises:

- **The `port` resource type** (`wrappers.dfy`, `text.dfy`, `port_type.dfy`).
  - Title patterns split a title such as `telnet:tcp` into a name and a protocol. The protocol defaults to `tcp`.
  - Validators cover the port name, the protocol, the port number and the aliases.
  - Ruby's regular expressions are read as written: `\s` is space, tab, line feed, carriage return or form feed, and `^`/`$` are line anchors.
- **The `parsed` port provider** (`port_parsed.dfy`).
  - How one line of a services file is read: comment and blank lines, then the record pattern, then `post_parse`.
  - How `to_line` writes a record back.
  - A record read from a file and written again reads back unchanged.
  - `self.match`, which finds the resource managing a record by its name and protocol.
- **`puppet module list` on the console** (`module_list.dfy`).
  - `print` renders one module's line.
  - `tree_print` and the tree loop render the dependency trees. They delete the modules already shown and cut dependency cycles.
  - The flat listing, the blank line that flags unmet dependencies, and the rendering over all module paths.
  - The output string is modelled as the sequence of pieces appended to it; the text is their concatenation.
- **Shell completion** (`bash_completion.dfy`): `Puppet::BashCompletion.choices`.
  - It shifts the subcommand off the argument list in place.
  - It then picks the candidate words and the pattern to match them against.
- **`Puppet::TransObject`** (`transportable.dfy`).
  - A type, a title and a parameter hash with tags.
  - The hash methods it hands on to that hash.
  - `longname`, `to_hash` (a copy) and `to_manifest`.
- **`Installer#local_deps`** (`installer.dfy`).
  - The table of installed module versions and reverse dependencies, built by two nested loops.
  - The loops are proved equal to a fold.
  - The fold is proved equal to definitions read straight off the releases.

Objects whose state the code changes in place are classes:
- `RecordHash` (the record hash that `post_parse` edits);
- `Renderer` (the output and the list of modules left to print);
- `ArgList` (the argument array `choices` shifts);
- `ParamHash` and `TransObject`.

Each state-changing method states its new state through a function of the old one. The properties are proved about those functions.

## Model

| member | source | states |
|---|---|---|
| PortType.SplitTitle | lib/puppet/type/port.rb:7-27 | The two title patterns are tried in order over the title's lines. A protocol is set only when some line is `name:tcp` or `name:udp`; the line split is the first such line, and the name is that line without the suffix. Otherwise the name is the first line and no line ends in a protocol. |
| PortType.TitleWithProtocol | lib/puppet/type/port.rb:14-19 | A one-line title `name:tcp`/`name:udp` gives exactly that name and protocol. |
| PortType.TitleWithoutProtocol | lib/puppet/type/port.rb:22-25 | Any other one-line title is the name, whole, and the protocol then defaults to `tcp` (line 53). |
| PortType.SecondLineTitle | lib/puppet/type/port.rb:14 | Because `^`/`$` are line anchors, a two-line title whose first line has no protocol suffix is split at its second line. |
| PortType.ValidateProtocol | lib/puppet/type/port.rb:51 | Exactly `tcp` and `udp` are accepted; anything else is an invalid value. |
| PortType.ValidateNameAsWritten | lib/puppet/type/port.rb:35-37 | A name is rejected exactly when it contains whitespace, and the error raised is a NoMethodError (see Findings). |
| PortType.ValidateName | lib/puppet/type/port.rb:35-37 | The intended check: rejected exactly when the name contains whitespace, with a Puppet::Error. |
| PortType.NameErrorFinding | lib/puppet/type/port.rb:36 | `tel net` fails with NoMethodError as written and with Puppet::Error as intended. |
| PortType.ValidateNumberAsWritten | lib/puppet/type/port.rb:62-65 | A number passes exactly when it is all digits and `Integer(value)` succeeds (octal after a leading zero) and lies below 2**16. |
| PortType.ValidateNumber | lib/puppet/type/port.rb:62-65 | The intended check: passes exactly when the value is a non-empty decimal numeral whose value is below 65536. |
| PortType.NumberAcceptsExactlyThePortRange | lib/puppet/type/port.rb:62-65 | Each n written in decimal is accepted by both checks exactly when n <= 65535. |
| PortType.NumberChecksAgreeWithoutLeadingZero | lib/puppet/type/port.rb:63-64 | Without a leading zero the written and the intended checks accept the same values. |
| PortType.OctalNumberFinding | lib/puppet/type/port.rb:64 | `0100000` passes as written (octal 32768) but is out of range as a decimal number. |
| PortType.OctalDigitFinding | lib/puppet/type/port.rb:64 | `08` fails as written (not octal) though it is the port 8. |
| PortType.ValidateAliases | lib/puppet/type/port.rb:84-86 | The aliases pass exactly when none contains whitespace. |
| PortType.AliasesRoundTrip | lib/puppet/type/port.rb:76-82 | Non-empty aliases free of whitespace and vertical tab, joined by the delimiter `" "`, are read back by `split(" ")` as the same aliases, in order. |
| PortType.ValidAliasReadable | lib/puppet/type/port.rb:84-86 | An alias that validation accepts, if non-empty and free of vertical tab, is one that reads back whole. |
| PortType.EmptyAliasLost | lib/puppet/type/port.rb:76-86 | The aliases `["a", ""]` pass validation, but reading back their joined value gives only `["a"]`. |
| PortType.VerticalTabSplits | lib/puppet/type/port.rb:76-86 | An alias holding a vertical tab passes the `\s` check but reads back as two aliases. |
| PortParsed.Collapse | lib/puppet/provider/port/parsed.rb:24 | The substituted aliases are single-spaced, are empty only when the input is, and start with whitespace exactly when the input does. |
| PortParsed.CollapseKeepsWords | lib/puppet/provider/port/parsed.rb:24 | The substitution keeps every non-whitespace character, in order. |
| PortParsed.CollapseIdempotent | lib/puppet/provider/port/parsed.rb:24 | Substituting twice equals substituting once. |
| PortParsed.MatchSpansWellSpanned | lib/puppet/provider/port/parsed.rb:19 | The group positions found by the record pattern are well placed in the line. |
| PortParsed.MatchRecordClasses | lib/puppet/provider/port/parsed.rb:19 | A match captures a name without whitespace at the start of the line, digits, a protocol without whitespace, trimmed aliases, and a description at the end that does not start with whitespace. |
| PortParsed.PostParsed | lib/puppet/provider/port/parsed.rb:20-26 | `post_parse` raises exactly when the protocol is a symbol (`:absent` has no `intern`) or the aliases are a symbol other than `:absent`. Otherwise it interns the protocol, collapses the aliases' whitespace and leaves nil or `:absent` aliases alone, turns a nil or `:absent` description into `''`, and leaves the name and number alone. |
| PortParsed.PostParsedCaptures | lib/puppet/provider/port/parsed.rb:20-22 | On a line's captures, `post_parse` raises exactly when the protocol group is empty. |
| PortParsed.Prepared | lib/puppet/provider/port/parsed.rb:21-22 | The first two statements intern a string protocol and turn a nil or `:absent` description into `''`, leaving the name, number and aliases alone. |
| PortParsed.RecordHash.PostParse | lib/puppet/provider/port/parsed.rb:20-26 | The in-place edit leaves the hash `PostParsed` gives. A raise on a symbol protocol leaves it unchanged. A raise on symbol aliases comes after the protocol and description updates, so it leaves `Prepared` of the old hash. |
| PortParsed.Line | lib/puppet/provider/port/parsed.rb:27-40 | `to_line` succeeds exactly when name, number and protocol are present and the description key does not hold nil. A missing name is reported first. |
| PortParsed.RecordHash.ToLine | lib/puppet/provider/port/parsed.rb:27-40 | The required-key loop and the appends give exactly `Line` of the hash. |
| PortParsed.ParseMatchedLine | lib/puppet/provider/port/parsed.rb:14-26 | A line that is neither comment nor blank and matches is read as the record of its captures. |
| PortParsed.WrittenRecordReadsBack | lib/puppet/provider/port/parsed.rb:14-40 | A canonical record is written as one line that reads back as the same record. |
| PortParsed.ReadRecordIsCanonical | lib/puppet/provider/port/parsed.rb:14-40 | A record read from a line, if `to_line` accepts it, is written as a line that reads back unchanged. |
| PortParsed.MatchedRecordCanonical | lib/puppet/provider/port/parsed.rb:19-26 | The record of a matched, non-comment line that `to_line` accepts is canonical. |
| PortParsed.HashNameReadsAsComment | lib/puppet/provider/port/parsed.rb:14 | A record whose name starts with `#` is written as a line that reads back as a comment. |
| PortParsed.Match | lib/puppet/provider/port/parsed.rb:53-60 | `match` is `false` exactly when the name or the protocol is nil. Otherwise it is the resource under `[name, protocol]`, or nil when there is none. |
| ModuleList.PrintIndent | lib/puppet/face/module/list.rb:115-119 | A module's line at level n is 2n spaces followed by its unindented line. |
| ModuleList.PrintUnmet | lib/puppet/face/module/list.rb:118-119 | An unsatisfied dependency puts `UNMET DEPENDENCY ` right before the name and changes nothing else. |
| ModuleList.PrintIsOneLine | lib/puppet/face/module/list.rb:119 | When the name and version hold no line break, a module's line holds exactly one line break, at its end. |
| ModuleList.TreeShape | lib/puppet/face/module/list.rb:98-112 | A tree starts with its root's line at the given level, and every later line is indented at least one level deeper. |
| ModuleList.DepsShape | lib/puppet/face/module/list.rb:101-112 | Everything the loop over the dependencies appends is indented one level deeper. |
| ModuleList.RankStep | lib/puppet/face/module/list.rb:109-111 | Adding the current module to the ancestors lowers the rank (the number of modules outside the ancestors) of every dependency not among them, except the module itself, whose rank stays. So the recursion ends, even on cycles. |
| ModuleList.DirectDepsDeleted | lib/puppet/face/module/list.rb:101-109 | Every direct dependency is deleted from the modules left to print, whether or not it is descended into. |
| ModuleList.RemoveElems | lib/puppet/face/module/list.rb:108 | Deleting keeps exactly the modules not deleted. |
| ModuleList.RemoveRemove | lib/puppet/face/module/list.rb:108 | Two rounds of deletion equal one deletion of both sets. |
| ModuleList.Renderer.TreePrint | lib/puppet/face/module/list.rb:98-113 | `tree_print` appends exactly the module's tree and deletes from the list left to print exactly the modules that tree meets. |
| ModuleList.Renderer.VisitDep | lib/puppet/face/module/list.rb:101-112 | One turn of the dependency loop deletes the dependency and, unless it is an ancestor, prints its tree one level deeper. |
| ModuleList.SortByRequiredSorted | lib/puppet/face/module/list.rb:78 | The sort is a permutation of the modules, in ascending number of requirers. |
| ModuleList.RemoveKeepsSorted | lib/puppet/face/module/list.rb:78-85 | Deleting modules keeps the list in that order. |
| ModuleList.RootsAscend | lib/puppet/face/module/list.rb:78-85 | The roots of the trees come out in ascending number of requirers. |
| ModuleList.RootsNotDeleted | lib/puppet/face/module/list.rb:80-85 | No root is a module that an earlier root's tree deleted. |
| ModuleList.RootsCover | lib/puppet/face/module/list.rb:80-85 | Every module under a path is printed as a root or deleted by some root's tree. |
| ModuleList.ForestIsTrees | lib/puppet/face/module/list.rb:80-85 | Tree mode prints exactly the trees of its roots, in the order they are shifted. |
| ModuleList.Renderer.PrintTree | lib/puppet/face/module/list.rb:78-85 | The tree loop appends the forest of the sorted modules and empties the list left to print. |
| ModuleList.Renderer.PrintFlat | lib/puppet/face/module/list.rb:87-89 | Flat mode appends each module's unindented line, in order. |
| ModuleList.FlatLineCount | lib/puppet/face/module/list.rb:87-89 | When the names and versions hold no line break, a flat listing has exactly one line break per module. |
| ModuleList.FlatSection | lib/puppet/face/module/list.rb:73-89 | In flat mode a path's section is its header line followed by one line per module, in order. |
| ModuleList.Renderer.PrintPath | lib/puppet/face/module/list.rb:72-91 | One path appends its header line and then its modules, as a tree or flat. |
| ModuleList.DependencyErrors | lib/puppet/face/module/list.rb:61-68 | The scan reports an error exactly when some module of the environment has an unsatisfied dependency. |
| ModuleList.LeadingBlankLine | lib/puppet/face/module/list.rb:61-73 | The output starts with a blank line exactly when some dependency is unmet, and the first path's name follows it. |
| ModuleList.NoPathsRendered | lib/puppet/face/module/list.rb:61-91 | With no module path, the output is a single blank line when some dependency is unmet, and empty otherwise. |
| ModuleList.Renderer.RenderConsole | lib/puppet/face/module/list.rb:55-94 | The console rendering appends the optional blank line and every path's section, and returns their concatenation. |
| BashCompletion.ArgList.Shift | lib/puppet/bash_completion.rb:5 | `shift` removes and returns the first word, or nil on an empty list. |
| BashCompletion.Complete | lib/puppet/bash_completion.rb:9-26 | The pattern is never nil. A face gives the sorted permutation of its actions and `--` options, with the pattern being the last remaining word or `''`. A legacy application gives no choices and the same pattern. An unknown name with nothing after it gives the sorted faces and legacy applications, with the name as the pattern. Otherwise there are no choices, and the pattern is the last word. |
| BashCompletion.Choices | lib/puppet/bash_completion.rb:4-31 | `choices` leaves the caller's list without its first word and completes from the subcommand (`''` when none) and the rest. |
| BashCompletion.FacePrecedence | lib/puppet/bash_completion.rb:13-19 | A name that is both a face and a legacy application completes as the face. |
| BashCompletion.SettingsIgnored | lib/puppet/bash_completion.rb:11-28 | The setting names never change the result. |
| BashCompletion.NothingTyped | lib/puppet/bash_completion.rb:5-23 | With no words typed, and no face or legacy application named `''`, all faces and legacy applications are offered, sorted, with an empty pattern. |
| BashCompletion.FaceChoicesFromFace | lib/puppet/bash_completion.rb:15-17 | Every choice for a face is one of its actions or one of its options prefixed with `--`. |
| BashCompletion.PatternIsTyped | lib/puppet/bash_completion.rb:18-25 | The pattern is always one of the words typed, or empty. |
| Transportable.TransObject.constructor | lib/puppet/transportable.rb:25-30 | A new object has its type lowercased, the given name, a fresh empty parameter hash and no tags. |
| Transportable.DowncaseLower | lib/puppet/transportable.rb:26 | A lowercased type has no capital letter, and lowercasing again changes nothing. |
| Transportable.LongnameSplits | lib/puppet/transportable.rb:32-34 | When the type holds no dash, `longname` reads back as the type up to the first dash and the name after `--`. |
| Transportable.TransObject.Store | lib/puppet/transportable.rb:15-19 | `[]=` stores into the object's own hash and keeps it well formed. |
| Transportable.LookupPut | lib/puppet/transportable.rb:15-19 | After `[]=`, `[]` on the same key gives the stored value, and every other key reads as before. |
| Transportable.SizePut | lib/puppet/transportable.rb:15-19 | `[]=` grows `length` by one exactly when the key is new. |
| Transportable.TransObject.Delete | lib/puppet/transportable.rb:15-19 | `delete` returns the removed value or nil, and keeps the hash well formed. |
| Transportable.WithoutValid | lib/puppet/transportable.rb:15-19 | After `delete` the key reads as absent, every other key reads as before, and `length` drops by one exactly when the key was there. |
| Transportable.SizeIsCount | lib/puppet/transportable.rb:15-19 | `length` is the number of keys mapped. |
| Transportable.EmptyIffNoKeys | lib/puppet/transportable.rb:15-19 | `empty?` holds exactly when no key is mapped. |
| Transportable.PairsExact | lib/puppet/transportable.rb:21-23 | `each` yields exactly the stored pairs, each key once. |
| Transportable.TransObject.ToHash | lib/puppet/transportable.rb:57-59 | `to_hash` returns a fresh hash with the same contents. Storing into it cannot reach the object's own hash. |
| Transportable.ManifestLines | lib/puppet/transportable.rb:65-75 | When nothing spans lines, `to_manifest` splits into lines as the header, one line per parameter in order (each but the last ending in a comma; `'v'`, or `['a','b']` for arrays) or one empty line when there are none, and `}`. |
| Installer.LocalDeps | lib/puppet/module_tool/applications/installer.rb:82-98 | The nested loops build exactly the fold `LocalDepsOf` over the releases. |
| Installer.AddDeps | lib/puppet/module_tool/applications/installer.rb:90-95 | The inner loop appends one requirement per dependency to its dashed key. |
| Installer.DashNameNoSlash | lib/puppet/module_tool/applications/installer.rb:91 | A dependency key holds no `/`, and dashing it again changes nothing. |
| Installer.AddDependenciesAt | lib/puppet/module_tool/applications/installer.rb:90-95 | A release's dependencies add a key only for their dashed names, never touch `:versions`, and append their requirements to the key's `:required_by`, in order. |
| Installer.LocalDepsAt | lib/puppet/module_tool/applications/installer.rb:84-97 | A key is present exactly when a release or a dependency names it. Its `:versions` are the versions of the releases with that name, in order, and absent when no release has it. Its `:required_by` exists and lists every requirement on it, in order. |
| Installer.ReleaseRecorded | lib/puppet/module_tool/applications/installer.rb:85-88 | Every release's version, nil included, is recorded under its name, whose `:required_by` exists. |
| Installer.MissingVersion | lib/puppet/module_tool/applications/installer.rb:87-94 | A module without a version has nil pushed into its `:versions`, and its dependencies record it under the label `"<name>@"`. |
| Installer.DependencyOnlyKey | lib/puppet/module_tool/applications/installer.rb:92-93 | A key named only by dependencies has `:required_by` and no `:versions`. |
| Installer.DependencyKeyPresent | lib/puppet/module_tool/applications/installer.rb:91-94 | Every dependency's dashed name is a key of the table. |
| Installer.RequiredByTotal | lib/puppet/module_tool/applications/installer.rb:84-96 | Over any listing of the keys, each once, the `:required_by` entries number exactly the dependencies declared by all releases. |

## Left out

- The model follows Ruby 1.9:
  - a Hash keeps its keys in insertion order, which `each` and `to_manifest` rely on;
  - `Symbol#empty?` exists, so `to_line` can test a symbol description;
  - `\s` does not match vertical tab.
  Ruby 1.8 differs in each of these and is not modelled.
- Puppet::Property::OrderedList, which joins the aliases with the delimiter and reads the current value back with `split(delimiter)`, is not part of this model. `PortType.SplitFields` states what that split does.
- PortParsed.MissingKeyError: the message keeps only its first part, `<key> is a required attribute for port`. The tail, `but not included in`, followed by `hash.inspect`, is left out because Ruby's `inspect` rendering of a hash is not modelled.
- Facter's choice of the services file, the ParsedFile framework's file reading, writing and prefetching, and the `target` default: they rely on code not part of this model. The framework's reading of an empty capture as `:absent` is modelled (`PortParsed.Capture`).
- Ruby's regular-expression engine. The record pattern is analysed into an explicit tokenizer over the characters of one line.
- PortType.ValidateNumberAsWritten: treats the value as one line. Ruby's `^[0-9]+$` also lets through text with a line break around a line of digits, and that case is not modelled.
- The `description` and `target` properties and `ensurable`: they carry no checks.
- ModuleList: modules are known by their position in the environment, not as Puppet::Module objects.
  - Their names, versions, forge names, unmet flags, dependencies and requirer counts are given fields.
  - How Puppet::Module computes them is not part of this model.
- ModuleList.SortByRequiredSorted: Ruby's `sort_by` is not stable. The model sorts by insertion, which is one admissible order, and states only that the result is sorted and a permutation.
- The messages written to standard error for each unmet dependency, and the reading of `Puppet[:modulepath]` and the environment: I/O and global configuration.
- The faces, actions, options, legacy applications and settings that completion reads: they are given as plain lists, not looked up.
- TransObject's `ref`, `to_component`, `to_resource`, `to_ral`, `to_s` and `to_yaml_properties`: they build Puppet::Resource and Puppet::Type objects, which are not part of this model. The `file`, `line` and `catalog` accessors are plain attributes.
- TransObject's delegated `<<`: Ruby's Hash has no `<<` method, so calling it always raises NoMethodError. It is not modelled as an operation.
- Transportable.Value: a parameter value is text or an array of texts. Other Ruby objects rendered through `to_s`, and nested arrays, are not modelled.
- Transportable.Downcase: lowercases ASCII letters only, as `String#downcase` does in Ruby 1.9.
- Installer.Release: a module is given as its metadata name, an optional version and a list of dependencies, each with a name and an optional requirement.
  - A module without a version is modelled (`Installer.MissingVersion`).
  - A version that is not text, such as the number `1.09`, is not modelled. Ruby would store it as it is and interpolate its `to_s` into the label.
  - A module whose `dependencies` is nil is not modelled. There `mod.dependencies.each` raises NoMethodError, so `local_deps` fails.
  - A dependency without a `'name'` is not modelled. There `gsub` on nil raises NoMethodError.
  - How Puppet::Module reads these fields from its metadata is not part of this model.
- Installer.LocalDeps: the table is a map, so the insertion order of its outer keys is not modelled. The order within `:versions` and `:required_by` is.
- The rest of the installer (HTTP reads, PSON parsing, unpacking, the remote dependency walk): network and file I/O.

## Findings

| source | as written | input that shows it | evidently intended | confidence | as-written member | corrected member |
|---|---|---|---|---|---|---|
| lib/puppet/type/port.rb:64 | `Integer(value)` reads a numeral with a leading zero as octal | `0100000` is accepted as 32768 | the decimal value must lie in 0..65535, so `0100000` is rejected | not executed | PortType.OctalNumberFinding | PortType.NumberAcceptsExactlyThePortRange |
| lib/puppet/type/port.rb:64 | a leading zero followed by `8` or `9` makes `Integer` raise ArgumentError | `08` is rejected | `08` is the port 8 and is accepted | not executed | PortType.OctalDigitFinding | PortType.ValidateNumber |
| lib/puppet/type/port.rb:36 | without a comma, `Puppet::Error "..."` calls a method `Error` on `Puppet`, which does not exist | `tel net` raises NoMethodError | a Puppet::Error with the message about whitespace | not executed | PortType.NameErrorFinding | PortType.ValidateName |
