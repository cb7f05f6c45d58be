# get_build_number_from_pubspec, modelled in Dafny

This project models the fastlane plugin action `get_build_number_from_pubspec`.
The action looks for `pubspec.yaml` in the working directory and loads it as
YAML. It reads the `version` entry (normally `MAJOR.MINOR.PATCH+BUILD`) and
takes `version.split('+').last` as the build number. It then stores that
value in the run-wide `lane_context` hash under `PUBSPEC_BUILD_NUMBER`, and
the value of that store is also what the action returns. Each failure
detected earlier ends the lane with a user error and leaves the context
untouched.

The project has two modules:

- `RubyString` (`ruby_string.dfy`) models Ruby's `String#split` with a
  one-character pattern and no limit, plus `Array#last`. `Fields` cuts the
  string at every separator. `DropTrailingEmpty` removes the trailing empty
  fields, as Ruby does. `Split` is the two together, and `Last` returns
  `None` where Ruby returns `nil`. `Fields` and `Join` are proved inverse to
  each other. `LastFieldAt`, `LastFieldSome` and `LastFieldNone`
  characterise `Last(Split(s, sep))` directly on the string: it is the last
  non-empty, separator-free stretch of `s`, and it is `nil` exactly when `s`
  consists only of separators.
- `PubspecAction` (`pubspec_action.dfy`) models the action itself.
  `Extract` is a pure function that gives the outcome of one run. `Run` is
  the imperative method on a `LaneContext` object, whose `values` map stands
  for `lane_context`. `Run` is proved to return `Extract`'s outcome and to
  leave the context equal to `Published(old context, outcome)`. The lemmas
  state the guards, the shape of the build number, the upsert and
  idempotence.

Run inputs that are I/O in the source are parameters:

- `dir` stands for `Dir.pwd`. It is used only to build the missing-file
  message.
- `fileExists` stands for `Pathname#exist?`.
- `doc` stands for what `YAML.load_file` returns.

Notes on the code's behaviour:

- An empty `version` is truthy in Ruby, so it passes the guard at line 18.
  Its split is `[]`, so `.last` is `nil`. The run therefore fails only at
  line 23, with the same "Build number not found in pubspec.yaml" message.
- `""` reaches the guard at line 23, and so does any version made only of
  `+` characters (`"+"`, `"+++"`).
- Ruby's split drops trailing empty fields. So `"1.2.3+"` gives `"1.2.3"`
  and `"1+2++"` gives `"2"`.

## Model

| member | source | states |
|---|---|---|
| `RubyString.Fields` | actions/get_build_number_from_pubspec.rb:22 | splitting on `+` always gives at least one field (before trailing empty fields are dropped) |
| `RubyString.DropTrailingEmpty` | actions/get_build_number_from_pubspec.rb:22 | the result is the prefix ending in a non-empty field, or is empty; everything the split drops after it is an empty field |
| `RubyString.Split` | actions/get_build_number_from_pubspec.rb:22 | `split('+')` yields fields without `+` and never ends in an empty field; its last field is pinned down by `LastFieldAt`, `LastFieldNone` and `LastFieldSome` |
| `RubyString.LastOfAppend` | actions/get_build_number_from_pubspec.rb:22 | `.last` is `nil` on the empty array, and gives back the element appended last |
| `RubyString.FieldsHaveNoSep` | actions/get_build_number_from_pubspec.rb:22 | no field of the split contains the separator |
| `RubyString.JoinFields` | actions/get_build_number_from_pubspec.rb:22 | joining the fields with the separator rebuilds the string |
| `RubyString.FieldsJoin` | actions/get_build_number_from_pubspec.rb:22 | splitting a join of separator-free fields gives those fields back |
| `RubyString.FieldsOfNoSep` | actions/get_build_number_from_pubspec.rb:22 | a string without the separator is a single field |
| `RubyString.FieldsConcat` | actions/get_build_number_from_pubspec.rb:22 | cutting at one separator concatenates the fields of the two sides |
| `RubyString.FieldsOfAllSep` | actions/get_build_number_from_pubspec.rb:22 | a run of n separators has n + 1 fields, all empty |
| `RubyString.DropTrailingEmptyUnique` | actions/get_build_number_from_pubspec.rb:22 | dropping trailing empty fields keeps exactly the part that ends in a non-empty field |
| `RubyString.LastFieldAt` | actions/get_build_number_from_pubspec.rb:22 | if `s[i..j]` starts `s` or follows a separator, holds no separator and is followed only by separators, then `split.last` is `s[i..j]` |
| `RubyString.LastFieldNone` | actions/get_build_number_from_pubspec.rb:22-23 | `split.last` is `nil` if and only if the string is empty or consists only of separators |
| `RubyString.LastFieldSome` | actions/get_build_number_from_pubspec.rb:22 | a non-`nil` `split.last` is the last non-empty, separator-free stretch of the string, found at some `s[i..j]` |
| `RubyString.LastFieldExists` | actions/get_build_number_from_pubspec.rb:22 | a string with a character other than the separator has a last non-empty field |
| `PubspecAction.LookupOfUpdate` | actions/get_build_number_from_pubspec.rb:18 | `Hash#[]` gives `nil` on an empty hash; after a store, the stored key reads back its value and every other key reads as before |
| `PubspecAction.VersionOf` | actions/get_build_number_from_pubspec.rb:17-18 | on a mapping, `doc['version']` is the entry; on a top-level string, it is `"version"` if that text occurs in the string and `nil` otherwise |
| `PubspecAction.Occurs` | actions/get_build_number_from_pubspec.rb:18 | the substring search inside `String#[]` succeeds exactly when the word occurs at some position |
| `PubspecAction.Truthy` | actions/get_build_number_from_pubspec.rb:18 | only `nil` and `false` are falsy; every string, `""` included, and every other value is truthy |
| `PubspecAction.ManifestPath` | actions/get_build_number_from_pubspec.rb:12 | the path is the directory followed by `pubspec.yaml`; a `/` is inserted exactly when the directory does not already end in one, so `"/"` gives `"/pubspec.yaml"` |
| `PubspecAction.FileNotFoundMessage` | actions/get_build_number_from_pubspec.rb:14 | the missing-file message differs from the build-number message |
| `PubspecAction.FileNotFoundNamesPath` | actions/get_build_number_from_pubspec.rb:12-14 | the missing-file message ends with the path that was looked at |
| `PubspecAction.BuildNumberOf` | actions/get_build_number_from_pubspec.rb:22 | a build number is non-empty and holds no `+`; `BuildNumberShape`, `BuildNumberAt` and `NoBuildNumberIff` locate it in the version and say when there is none |
| `PubspecAction.Extract` | actions/get_build_number_from_pubspec.rb:13-25 | a missing file gives the file-not-found user error; a document that cannot be indexed raises; a `nil` or `false` version gives the build-number user error; a truthy version that is not a string raises (`NoMethodError` for `split`); success implies every guard passed with a string version |
| `PubspecAction.Published` | actions/get_build_number_from_pubspec.rb:27 | on success, the key `PUBSPEC_BUILD_NUMBER` holds the build number, the key set gains only that key, and every other entry is kept; on failure, the context is unchanged |
| `PubspecAction.LaneContext.constructor` | actions/get_build_number_from_pubspec.rb:27 | a fresh lane context is empty |
| `PubspecAction.Run` | actions/get_build_number_from_pubspec.rb:8-28 | the guards in source order, then the store; the result is `Extract`'s outcome and the new context is the old one updated by `Published` |
| `PubspecAction.BuildNumberShape` | actions/get_build_number_from_pubspec.rb:22-25 | a build number is non-empty, holds no `+`, is a substring `version[i..j]` that starts the version or follows a `+`, and only `+` characters follow it |
| `PubspecAction.BuildNumberAt` | actions/get_build_number_from_pubspec.rb:22 | conversely, that last `+`-free stretch of the version is its build number |
| `PubspecAction.NoBuildNumberIff` | actions/get_build_number_from_pubspec.rb:22-23 | there is no build number if and only if the version is empty or consists only of `+` characters |
| `PubspecAction.PlainVersion` | actions/get_build_number_from_pubspec.rb:22 | a non-empty version without `+` is itself the build number |
| `PubspecAction.ExampleSemverWithBuild` | actions/get_build_number_from_pubspec.rb:22 | `"1.2.3+45"` gives `"45"` |
| `PubspecAction.ExampleNoPlus` | actions/get_build_number_from_pubspec.rb:22 | `"1.2.3"` gives `"1.2.3"` |
| `PubspecAction.ExampleTrailingPlus` | actions/get_build_number_from_pubspec.rb:22 | `"1.2.3+"` gives `"1.2.3"` |
| `PubspecAction.ExampleTrailingPluses` | actions/get_build_number_from_pubspec.rb:22 | `"1+2++"` gives `"2"` |
| `PubspecAction.ExampleEmpty` | actions/get_build_number_from_pubspec.rb:22-23 | `""` gives no build number |
| `PubspecAction.ExampleOnlyPlus` | actions/get_build_number_from_pubspec.rb:22-23 | `"+"` gives no build number |
| `PubspecAction.ExampleEndToEnd` | actions/get_build_number_from_pubspec.rb:17-27 | the manifest `name: app`, `version: 2.0.0+77` gives `"77"`, and the context then holds `"77"` at the key |
| `PubspecAction.RunSucceedsIff` | actions/get_build_number_from_pubspec.rb:13-27 | a run succeeds with `b` if and only if the file exists, `version` is a string, and `b` is that string's last `+`-free stretch |
| `PubspecAction.EmptySplitFails` | actions/get_build_number_from_pubspec.rb:18-25 | an empty or all-`+` string version passes the first guard and fails the second with "Build number not found in pubspec.yaml" |
| `PubspecAction.StringVersionSucceeds` | actions/get_build_number_from_pubspec.rb:18-27 | a string version with any character other than `+` always gives a successful run |
| `PubspecAction.ExampleTextDocument` | actions/get_build_number_from_pubspec.rb:17-27 | a YAML document that is just the string `version` gives the build number `"version"` |
| `PubspecAction.FailureLeavesContext` | actions/get_build_number_from_pubspec.rb:13-25 | a run that does not succeed leaves the lane context as it was (a corollary of `Published`'s failure clause, stated for a whole run) |
| `PubspecAction.RunIdempotent` | actions/get_build_number_from_pubspec.rb:27 | publishing the same run's outcome twice leaves the same context as publishing it once |

## Left out

- File system access (`Dir.pwd`, `File.join`, `Pathname#exist?`, lines 12-13) is I/O. The working directory and the existence of the file are inputs.
- `ManifestPath` models `File.join` only for a directory as `Dir.pwd` returns it: an absolute path that ends in `/` only when it is the root. Other `File.join` cases with several slashes at the junction are not modelled.
- `YAML.load_file` (line 17) is a foreign library. Its result is an input `Document`. A parser exception, an empty document and any top-level value that cannot be indexed by a string all become `Unindexable`, which leads to `Uncaught`. Which exception Ruby raises is not modelled.
- The source's lane context key is the Symbol `:PUBSPEC_BUILD_NUMBER`, and the model uses the String `"PUBSPEC_BUILD_NUMBER"`. In Ruby, a String key with the same text is a different key and would not be overwritten; in the model it would be.
- `Document` has no case for an indexable top-level value that is neither a Hash nor a String. For example, Psych loads `:version` as a Symbol, and `:version['version']` is `"version"`. Such documents are not modelled.
- A non-string `version` (a number, `true`, a list) has no `split` and raises `NoMethodError`. It is modelled only as `Other`, leading to `Uncaught`.
- Ruby's string encodings are left out. Strings are sequences of characters, and the `ArgumentError` that `split` raises on invalid byte sequences is not modelled.
- `UI.user_error!` is framework plumbing. It is modelled as the `UserError(message)` outcome, which returns before the store at line 27.
- The `Action` base class and the global `Actions.lane_context` are replaced by a `LaneContext` object that is passed to `Run`. Its values are strings, because this action stores only strings.
- The documentation hooks at lines 34-58 (`description`, `available_options`, `output`, `return_value`, `authors`, `is_supported?`) are constant metadata for the host framework. They have no behaviour to prove and are not modelled.
