# transfer.js of xstate-plantuml, modelled in Dafny

The repository's core is `transfer(extensions, source, persist)`. It walks an
extension→descriptor record in the record's iteration order and turns each
descriptor into a value:

- a function is called with `(source, extension)`;
- `true` stands for the source itself;
- anything else is used as a literal.

If a `persist` callback is given, the engine hands it the string form of the
value and stores what it resolves to. Otherwise it stores the value as it is.
Two factories produce callbacks for it:

- `persistToFileSystem` writes `<pathAndName>.<extension>` and resolves to
  that location;
- `plantuml` pipes the source through a PlantUML command line (`-t<extension>`
  appended) and resolves to its standard output.

Two builders, `plantuml.DOCKER` and `plantuml.JAVA`, make the base command line.

The model is functional:

- Callbacks are function-typed parameters that return `Result<JsValue, Error>`.
- A settled promise is a `Result`.
- The process spawn (`execa.command`) and the file write (`fs.writeFileSync`)
  are injected functions from a request record to a `Result`.
- `PLANTUML_VERSION` is an optional parameter.

Every run also returns the calls it made to the callbacks, in order (`Traced.calls`).
That is the record a test double keeps. It lets the contracts say "called
exactly once", "in entry order" and "never evaluated".

Modules, one per concern:

- `Wrappers`: `Option` and `Result`.
- `Js`: JavaScript strings and booleans, `Error`, and the template-literal string form.
- `Text`: substring and prefix/suffix reading, and the decimal form of an
  integer together with a parser that reads it back.
- `TransferEngine`: the descriptor dispatch, the loop, and a reference
  description of a run, entry by entry.
- `FileSystem`: `persistToFileSystem`.
- `Plantuml`: the render callback, its error messages with readers that
  recover the exit code and the command from them, and the command builders.
- `Scenarios`: the cases the repository's test suite and example runner fix.

Without `persist`, line 107 stores the resolved value unchanged. Only the
value handed to `persist` is turned into a string (`ValuesKeptWithoutPersist`).

Two points where the source's JSDoc types and its behaviour part, and the
model follows the behaviour:

- The typedef `Extension = boolean | ExtensionCallback` (`src/transfer.js:14`,
  `src/transfer.d.ts:18`) leaves out strings. Line 105 still handles any
  other value as a literal, and the tests pass the string `VALUE`
  (`src/__tests__/transfer.js:33`, `:67`). The model keeps string literals as
  `Value(Str(_))`.
- The JSDoc of `ExtensionCallback` (`src/transfer.js:5`, and
  `src/transfer.d.ts:76`) says a transform resolves to a string. The test at
  `src/__tests__/transfer.js:39` uses a transform that resolves to `false`, so
  transforms resolve to any `JsValue`.

## Model

| member | source | states |
|---|---|---|
| TransferEngine.Resolve | src/transfer.js:99-106 | a function descriptor is called once, with `(source, extension)`, and its settlement is the value; `true` yields the source; any other value, `false` included, is the value unchanged; only a function descriptor makes a call |
| TransferEngine.Store | src/transfer.js:107 | without `persist` the value is stored unchanged and nothing is called; with `persist` it is called once with the key and the value's string form, and what it settles to is what is stored |
| TransferEngine.TransferSucceedsIff | src/transfer.js:96-110 | `transfer` resolves if and only if every entry gets through resolving and storing |
| TransferEngine.TransferResult | src/transfer.js:96-109 | a resolved result has exactly the input's keys, in input order, one entry per descriptor, each valued by its own entry's step; the calls are every entry's calls, one entry after the other |
| TransferEngine.TransferFails | src/transfer.js:98-108 | a rejection comes from the first failing entry and carries its error; every earlier entry got through; only calls of entries up to the failing one were made |
| TransferEngine.AbortIgnoresLaterEntries | src/transfer.js:98-108 | once a prefix of the record rejects, appending entries changes neither the outcome nor the calls: later entries are never evaluated |
| TransferEngine.TransformCalledOnce | src/transfer.js:100-101 | in a resolved run over distinct keys, each function descriptor was called exactly once with `(source, extension)` |
| TransferEngine.PersistCalledOnce | src/transfer.js:107 | with `persist`, each entry's string form was persisted exactly once under its key, and the result for the key is exactly what `persist` resolved to |
| TransferEngine.ValuesKeptWithoutPersist | src/transfer.js:105-107 | without `persist`, each key holds its resolved value unchanged, not stringified, and only transform calls are made |
| TransferEngine.LiteralsOnly | src/transfer.js:102-105 | a record of only `true` and literals, without `persist`, always resolves, makes no calls, maps `true` keys to the source and the others to their literal |
| Js.Stringify | src/transfer.js:107 | the string handed to `persist` is a string value's own text, and `"true"` or `"false"` for the boolean `true` or `false` |
| Text.DecimalRoundTrip | src/transfer.js:49 | the decimal form of any integer, which is what `${exitCode}` gives for codes below 10^21 in magnitude, reads back as that integer |
| FileSystem.Location | src/transfer.js:26 | the location is `pathAndName` and `.` followed by exactly the extension, which can be read back from it |
| FileSystem.LocationInjective | src/transfer.js:26 | under one base path, different extensions never get the same location string |
| FileSystem.WriteFor | src/transfer.js:26-27 | the write goes to the extension's location, with the whole value as data, encoded as `utf8` |
| FileSystem.Persist | src/transfer.js:24-29 | the callback resolves if and only if the write succeeds, to that write's location; a failing write's error is passed on unchanged |
| FileSystem.TransferToFiles | src/transfer.js:24-29 | a resolved `transfer` with `persistToFileSystem` reports, for every key, its own location string; over distinct keys all the location strings differ |
| Plantuml.FormatCommand | src/transfer.js:45 | the full command is the base command followed by ` -t`, and then exactly the extension |
| Plantuml.RenderRequest | src/transfer.js:45-48 | the process gets that command, with the source as standard input and standard error piped |
| Plantuml.ExitCodeMessageReadsBack | src/transfer.js:49 | the non-zero-exit message identifies the exit code and the command, and is never read as an empty-output message |
| Plantuml.EmptyOutputMessageReadsBack | src/transfer.js:50 | the empty-output message identifies the command, and is never read as a non-zero-exit message |
| Plantuml.ExitCodeMessageNamesCode | src/transfer.js:49 | the non-zero-exit message contains the words `exit code` followed by the code's decimal form |
| Plantuml.EmptyOutputMessageSaysEmpty | src/transfer.js:50 | the empty-output message contains the words `empty output` |
| Plantuml.CheckOutput | src/transfer.js:46-51 | a failed process call is passed on unchanged; a non-zero exit is an error that names the code and the command, and it is checked before the output; an absent or empty output is an error that names the command; otherwise the result is the output |
| Plantuml.Render | src/transfer.js:44-52 | the callback resolves if and only if the process ran the formatted command on the source, exited 0 and printed something; it resolves to exactly that output; a failed process call is passed on |
| Plantuml.DefaultImage | src/transfer.js:68 | the default image is `karfau/plantuml:` followed by `PLANTUML_VERSION` when it is set and not empty, and by `latest` otherwise |
| Plantuml.DockerCommand | src/transfer.js:68-69 | the Docker command wraps exactly the given image, or the default image when none is given, between `docker run --rm -i ` and ` -pipe -nometadata` |
| Plantuml.JavaCommand | src/transfer.js:83 | the Java command wraps exactly the given jar, or `plantuml.jar` when none is given, between `java -jar ` and ` -pipe -nometadata` |
| Scenarios.WithoutPersist | src/__tests__/transfer.js:50-71 | `{puml: true}` gives `{puml: "PLANTUML"}`; a lower-casing function is called with `("PLANTUML", "lower")` and gives `{lower: "plantuml"}`; `{wat: "VALUE"}` gives `{wat: "VALUE"}` |
| Scenarios.PersistReceivesValues | src/__tests__/transfer.js:8-36 | `persist` gets `("puml", "PLANTUML")`, `("lower", "plantuml")` and `("wat", "VALUE")` respectively |
| Scenarios.WithPersist | src/__tests__/transfer.js:38-47 | `{abc: "VALUE", def: true, ghi: () => false}` with a `persist` that returns the extension gives `{abc: "abc", def: "def", ghi: "ghi"}`; `persist` gets `"false"` for `ghi`; the calls come in entry order |
| Scenarios.PersistToDirectory | src/__tests__/transfer.js:74-94 | `persistToFileSystem("DIRECTORY/NAME")("ext", "VALUE")` writes `DIRECTORY/NAME.ext` as `utf8` and resolves to that path |
| Scenarios.PlantumlRequest | src/__tests__/transfer.js:102-111 | the process is asked to run `plantuml cmd -tsvg` with the source as input and standard error piped |
| Scenarios.PlantumlOutput | src/__tests__/transfer.js:113-119 | the callback resolves to the process's output |
| Scenarios.PlantumlEmptyOutput | src/__tests__/transfer.js:121-135 | empty and absent output both reject with a message containing "empty output" |
| Scenarios.PlantumlExitCode | src/__tests__/transfer.js:137-143 | exit code 123 rejects with a message containing "exit code 123", although there was output |
| Scenarios.PlantumlProcessFails | src/__tests__/transfer.js:145-151 | a failing process call rejects with that same error |
| Scenarios.DefaultDockerCommand | src/transfer.js:68-69 | with no image, the command is `docker run --rm -i karfau/plantuml:latest -pipe -nometadata`; an empty `PLANTUML_VERSION` counts as unset; a set version picks the image tag |
| Scenarios.DefaultJavaCommand | src/transfer.js:83 | with no jar, the command is `java -jar plantuml.jar -pipe -nometadata` |
| Scenarios.RenderThroughTransfer | test-transfer.js:8-25 | rendering through `transfer` without `persist` stores the process output under `svg`; with `persistToFileSystem` the record holds the two file locations |

## Left out

- The file write and the process spawn are I/O. They are injected functions, so only the arguments they get and how their results are read are modelled. So is the `fs`/`execa` injection seam.
- Promises and `await` are modelled as sequential evaluation to a `Result`. Callbacks are pure functions. Any side effect beyond the call itself is outside the model, and so is a hung process or write.
- `process.env.PLANTUML_VERSION` is an `Option<string>` parameter, not read from an environment.
- A `Buffer` on standard output is not modelled; standard output is absent or a string. In JavaScript an empty `Buffer` is truthy, so it would get past the empty-output check at line 50 and resolve to `""`.
- A process result with an undefined exit code is not modelled: exit codes are integers.
- Text.Decimal: exit codes are unbounded integers written in plain decimal. JavaScript writes a number of magnitude 10^21 or more in exponent form (`1e+21`) and holds integers above 2^53 inexactly; neither is modelled. Process exit codes lie far below both bounds.
- Literal descriptors and callback results are strings or booleans only. Numbers, objects, `null` and `undefined` are not modelled, and neither is their `${…}` string form.
- The record is given as the sequence `Object.entries` yields. JavaScript's ordering of integer-like keys ahead of the other keys, and the special `__proto__` key, are not modelled.
- TransferEngine.TransformCalledOnce and TransferEngine.PersistCalledOnce assume distinct keys. A JavaScript object always has distinct keys; a sequence with repeated keys is not a record the source can receive.
- FileSystem.LocationInjective and FileSystem.TransferToFiles speak of location strings, not files. How the file system maps paths to files is not modelled: on a case-insensitive file system `x.svg` and `x.SVG` are one file, so a later write overwrites an earlier one although both locations are reported.
- `src/transfer.d.ts` holds declarations only. The file reads in `test-transfer.js` are I/O, and only its `transfer` flow is modelled.
