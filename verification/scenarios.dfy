/** The behaviour the repository's own test suite and example runner pin
    down, stated over the model. */
module Scenarios {
  import opened Wrappers
  import opened Js
  import Text
  import opened TransferEngine
  import FileSystem
  import Plantuml

  const Source: string := "PLANTUML"
  const Literal: string := "VALUE"

  /** The extension the `plantuml` tests render to. Their last four tests
      call the callback as `it(EXT, PLANTUML)`, with the two arguments in
      the other order than the first; the scenarios keep that order. */
  const Ext: string := "svg"

  /** `String.prototype.toLowerCase` on ASCII text. */
  function Lower(s: string): (r: string)
    ensures |r| == |s|
    ensures forall i :: 0 <= i < |s| ==> (r[i] == s[i] <==> !('A' <= s[i] <= 'Z'))
  {
    seq(|s|, i requires 0 <= i < |s| => if 'A' <= s[i] <= 'Z' then (s[i] as int + 32) as char else s[i])
  }

  /** The test transform `async (input) => input.toLowerCase()`. */
  function LowerCase(): ExtensionCallback {
    (input, extension) => Success(Str(Lower(input)))
  }

  /** The test transform `async () => false`. */
  function AlwaysFalse(): ExtensionCallback {
    (input, extension) => Success(Bool(false))
  }

  /** The test persist callback that resolves to the extension it was given. */
  function EchoExtension(): PersistCallback {
    (extension, value) => Success(Str(extension))
  }

  /** The test persist callback that resolves to `directory/NAME.<extension>`. */
  function DirectoryMock(): PersistCallback {
    (extension, value) => Success(Str("directory/NAME." + extension))
  }

  lemma LowerSource()
    ensures Lower(Source) == "plantuml"
  {
  }

  /** A record of one entry settles as that entry's step does. */
  lemma OneEntry(entry: (string, Extension), source: string, persist: Option<PersistCallback>)
    ensures var step := Step(source, entry, persist);
            Transfer([entry], source, persist)
            == if step.outcome.Failure? then Traced(Failure(step.outcome.error), step.calls)
               else Traced(Success([(entry.0, step.outcome.value)]), step.calls)
  {
    assert [entry][1..] == [];
    var step := Step(source, entry, persist);
    var none := Transfer([], source, persist);
    assert none == Traced(Success([]), []);
    assert step.calls + [] == step.calls;
    if step.outcome.Success? {
      assert Transfer([entry], source, persist) == Then(entry.0, step, none);
      assert [(entry.0, step.outcome.value)] + [] == [(entry.0, step.outcome.value)];
    }
  }

  /** Without `persist`: `true` maps the key to the source, a function is
      called with `(source, extension)` and its value kept, and any other
      value is kept as it is. */
  lemma WithoutPersist()
    ensures Transfer([("puml", Passthrough)], Source, None)
         == Traced(Success([("puml", Str(Source))]), [])
    ensures Transfer([("lower", Callback(LowerCase()))], Source, None)
         == Traced(Success([("lower", Str("plantuml"))]), [Invoked(Source, "lower")])
    ensures Transfer([("wat", Value(Str(Literal)))], Source, None)
         == Traced(Success([("wat", Str(Literal))]), [])
  {
    OneEntry(("puml", Passthrough), Source, None);
    LowerSource();
    OneEntry(("lower", Callback(LowerCase())), Source, None);
    OneEntry(("wat", Value(Str(Literal))), Source, None);
  }

  /** With `persist`: it receives the string form of each value, in entry
      order, and the result holds what it resolved to. */
  lemma WithPersist()
    ensures Transfer([("abc", Value(Str(Literal))), ("def", Passthrough), ("ghi", Callback(AlwaysFalse()))],
                     Source, Some(EchoExtension()))
         == Traced(Success([("abc", Str("abc")), ("def", Str("def")), ("ghi", Str("ghi"))]),
                   [Persisted("abc", Literal), Persisted("def", Source), Invoked(Source, "ghi"), Persisted("ghi", "false")])
  {
    var e := [("abc", Value(Str(Literal))), ("def", Passthrough), ("ghi", Callback(AlwaysFalse()))];
    var p := Some(EchoExtension());
    OneEntry(("ghi", Callback(AlwaysFalse())), Source, p);
    assert e[1..][1..] == [("ghi", Callback(AlwaysFalse()))];
    var last := Transfer(e[1..][1..], Source, p);
    assert last == Traced(Success([("ghi", Str("ghi"))]), [Invoked(Source, "ghi"), Persisted("ghi", "false")]);
    var middle := Transfer(e[1..], Source, p);
    assert middle == Then("def", Step(Source, e[1], p), last);
    assert Step(Source, e[1], p) == Traced(Success(Str("def")), [Persisted("def", Source)]);
    assert [Persisted("def", Source)] + [Invoked(Source, "ghi"), Persisted("ghi", "false")]
        == [Persisted("def", Source), Invoked(Source, "ghi"), Persisted("ghi", "false")];
    assert [("def", Str("def"))] + [("ghi", Str("ghi"))] == [("def", Str("def")), ("ghi", Str("ghi"))];
    assert middle == Traced(Success([("def", Str("def")), ("ghi", Str("ghi"))]),
                            [Persisted("def", Source), Invoked(Source, "ghi"), Persisted("ghi", "false")]);
    assert Step(Source, e[0], p) == Traced(Success(Str("abc")), [Persisted("abc", Literal)]);
    assert Transfer(e, Source, p) == Then("abc", Step(Source, e[0], p), middle);
    assert [Persisted("abc", Literal)] + [Persisted("def", Source), Invoked(Source, "ghi"), Persisted("ghi", "false")]
        == [Persisted("abc", Literal), Persisted("def", Source), Invoked(Source, "ghi"), Persisted("ghi", "false")];
    assert [("abc", Str("abc"))] + [("def", Str("def")), ("ghi", Str("ghi"))]
        == [("abc", Str("abc")), ("def", Str("def")), ("ghi", Str("ghi"))];
  }

  /** With `persist`, it is called with the key and the string form of the
      value, whatever kind of descriptor produced it. */
  lemma PersistReceivesValues()
    ensures Transfer([("puml", Passthrough)], Source, Some(DirectoryMock())).calls
         == [Persisted("puml", Source)]
    ensures Transfer([("lower", Callback(LowerCase()))], Source, Some(DirectoryMock())).calls
         == [Invoked(Source, "lower"), Persisted("lower", "plantuml")]
    ensures Transfer([("wat", Value(Str(Literal)))], Source, Some(DirectoryMock())).calls
         == [Persisted("wat", Literal)]
  {
    OneEntry(("puml", Passthrough), Source, Some(DirectoryMock()));
    LowerSource();
    OneEntry(("lower", Callback(LowerCase())), Source, Some(DirectoryMock()));
    OneEntry(("wat", Value(Str(Literal))), Source, Some(DirectoryMock()));
  }

  /** `persistToFileSystem("DIRECTORY/NAME", fs)("ext", VALUE)` writes
      `DIRECTORY/NAME.ext` as UTF-8 and resolves to that location. */
  lemma PersistToDirectory(write: FileSystem.WriteFile)
    requires write(FileSystem.WriteRequest("DIRECTORY/NAME.ext", Literal, "utf8")).Success?
    ensures FileSystem.WriteFor("DIRECTORY/NAME", "ext", Literal)
         == FileSystem.WriteRequest("DIRECTORY/NAME.ext", Literal, "utf8")
    ensures FileSystem.Persist("DIRECTORY/NAME", write, "ext", Literal) == Success(Str("DIRECTORY/NAME.ext"))
  {
  }

  /** A process stub that settles with `run` whatever it is asked. */
  function Stub(run: Result<Plantuml.ProcessOutput, Error>): Plantuml.Execa {
    request => run
  }

  /** The `plantuml` callback hands the process `<command> -t<extension>`,
      with the source as input and standard error piped. */
  lemma PlantumlRequest()
    ensures Plantuml.RenderRequest("plantuml cmd", Source, Ext)
         == Plantuml.CommandRequest("plantuml cmd -tsvg", Source, "pipe")
  {
  }

  /** The `plantuml` callback resolves to the output of a successful run. */
  lemma PlantumlOutput(cmd: string)
    ensures Plantuml.Render(cmd, Stub(Success(Plantuml.ProcessOutput(0, Some(Literal)))), Ext, Source)
         == Success(Str(Literal))
  {
  }

  /** The `plantuml` callback rejects an empty or absent output with an
      "empty output" error. */
  lemma PlantumlEmptyOutput(cmd: string)
    ensures var r := Plantuml.Render(cmd, Stub(Success(Plantuml.ProcessOutput(0, Some("")))), Ext, Source);
            r.Failure? && Text.Contains(r.error.message, "empty output")
    ensures var r := Plantuml.Render(cmd, Stub(Success(Plantuml.ProcessOutput(0, None))), Ext, Source);
            r.Failure? && Text.Contains(r.error.message, "empty output")
  {
    Plantuml.EmptyOutputMessageSaysEmpty(Plantuml.FormatCommand(cmd, Source));
  }

  /** The `plantuml` callback rejects exit code 123 with an error that says
      "exit code 123", even though there was output. */
  lemma PlantumlExitCode(cmd: string)
    ensures var r := Plantuml.Render(cmd, Stub(Success(Plantuml.ProcessOutput(123, Some("WAT")))), Ext, Source);
            r.Failure? && Text.Contains(r.error.message, "exit code 123")
  {
    var full := Plantuml.FormatCommand(cmd, Source);
    ExitCode123();
    Plantuml.ExitCodeMessageNamesCode(123, full);
  }

  lemma ExitCode123()
    ensures Plantuml.ExitCodeWords + Text.Decimal(123) == "exit code 123"
  {
    DecimalOf123();
  }

  lemma DecimalOf123()
    ensures Text.Decimal(123) == "123"
  {
    assert Text.DigitChar(1) == '1' && Text.DigitChar(2) == '2' && Text.DigitChar(3) == '3';
    assert Text.Digits(1) == ['1'];
    assert Text.Digits(12) == ['1'] + ['2'];
    assert Text.Digits(123) == ['1', '2'] + ['3'];
  }

  /** The `plantuml` callback passes on a failure to run the process. */
  lemma PlantumlProcessFails(cmd: string)
    ensures Plantuml.Render(cmd, Stub(Failure(Error("from test"))), Ext, Source) == Failure(Error("from test"))
  {
  }

  /** The default Docker command runs `karfau/plantuml:latest`, also when
      `PLANTUML_VERSION` is empty, and the version's image when it is set. */
  lemma DefaultDockerCommand()
    ensures Plantuml.DockerCommand(None, None)
         == "docker run --rm -i " + "karfau/plantuml:latest" + " -pipe -nometadata"
    ensures Plantuml.DockerCommand(None, Some("")) == Plantuml.DockerCommand(None, None)
    ensures Plantuml.DockerCommand(None, Some("1.2020.2"))
         == "docker run --rm -i " + "karfau/plantuml:1.2020.2" + " -pipe -nometadata"
  {
    assert Plantuml.DefaultImage(None) == "karfau/plantuml:latest";
    assert Plantuml.DefaultImage(Some("")) == "karfau/plantuml:latest";
    assert Plantuml.DefaultImage(Some("1.2020.2")) == "karfau/plantuml:1.2020.2";
  }

  /** The default Java command runs `plantuml.jar`. */
  lemma DefaultJavaCommand()
    ensures Plantuml.JavaCommand(None) == "java -jar " + "plantuml.jar" + " -pipe -nometadata"
  {
  }

  /** The example runner's flow: rendering a diagram through `transfer`
      without `persist` yields the process output under the key, and with
      `persistToFileSystem` yields the file locations instead. */
  lemma RenderThroughTransfer(command: string, execa: Plantuml.Execa, puml: string, svg: string,
                              base: string, write: FileSystem.WriteFile)
    requires execa(Plantuml.RenderRequest(command, puml, "svg")) == Success(Plantuml.ProcessOutput(0, Some(svg)))
    requires svg != ""
    requires forall request :: write(request).Success?
    ensures Transfer([("svg", Callback(Plantuml.Plantuml(command, execa)))], puml, None).outcome
         == Success([("svg", Str(svg))])
    ensures Transfer([("puml", Passthrough), ("svg", Callback(Plantuml.Plantuml(command, execa)))],
                     puml, Some(FileSystem.PersistToFileSystem(base, write))).outcome
         == Success([("puml", Str(base + ".puml")), ("svg", Str(base + ".svg"))])
  {
    var render := Callback(Plantuml.Plantuml(command, execa));
    assert Step(puml, ("svg", render), None).outcome == Success(Str(svg));
    OneEntry(("svg", render), puml, None);
    var persist := Some(FileSystem.PersistToFileSystem(base, write));
    var e := [("puml", Passthrough), ("svg", render)];
    assert e[1..] == [("svg", render)];
    assert Step(puml, ("svg", render), persist).outcome == Success(Str(base + ".svg")) by {
      assert write(FileSystem.WriteFor(base, "svg", svg)).Success?;
      assert FileSystem.Location(base, "svg") == base + ".svg";
      assert FileSystem.Persist(base, write, "svg", svg) == Success(Str(base + ".svg"));
      assert Stringify(Str(svg)) == svg;
    }
    OneEntry(("svg", render), puml, persist);
    assert Step(puml, e[0], persist).outcome == Success(Str(base + ".puml")) by {
      assert write(FileSystem.WriteFor(base, "puml", puml)).Success?;
      assert FileSystem.Location(base, "puml") == base + ".puml";
      assert FileSystem.Persist(base, write, "puml", puml) == Success(Str(base + ".puml"));
    }
    assert Transfer(e[1..], puml, persist).outcome == Success([("svg", Str(base + ".svg"))]);
    assert Transfer(e, puml, persist) == Then("puml", Step(puml, e[0], persist), Transfer(e[1..], puml, persist));
    assert [("puml", Str(base + ".puml"))] + [("svg", Str(base + ".svg"))]
        == [("puml", Str(base + ".puml")), ("svg", Str(base + ".svg"))];
  }
}
