/** `plantuml`: an extension callback that renders diagram source by piping
    it through a PlantUML command line, plus the two builders of that
    command line (Docker image or local jar). */
module Plantuml {
  import opened Wrappers
  import opened Js
  import Text
  import TransferEngine

  /** The arguments of one `execa.command(cmd, {input, stderr})` call. */
  datatype CommandRequest = CommandRequest(command: string, input: string, stderr: string)

  /** What the finished process reports: its exit code and its standard
      output, which may be absent. */
  datatype ProcessOutput = ProcessOutput(exitCode: int, stdout: Option<string>)

  /** The injected `execa.command`: rejects when the process cannot be run. */
  type Execa = CommandRequest -> Result<ProcessOutput, Error>

  /** Standard error is captured on its own and never inspected. */
  const Pipe: string := "pipe"

  const FormatFlag: string := " -t"
  const ExitCodeOpening: string := "plantuml command had "
  const ExitCodeWords: string := "exit code "
  const ExitCodePrefix: string := ExitCodeOpening + ExitCodeWords
  const ExitCodeInfix: string := ": '"
  const EmptyOutputOpening: string := "plantum command has "
  const EmptyOutputWords: string := "empty output"
  const EmptyOutputPrefix: string := EmptyOutputOpening + EmptyOutputWords + ExitCodeInfix
  const Quote: string := "'"

  // ---------------------------------------------------------------------------
  // The command line of one rendering.

  /** The full command: the base command followed by `-t<extension>`. */
  function FormatCommand(command: string, extension: string): (cmd: string)
    ensures Text.Between(cmd, command + FormatFlag, "") == Some(extension)
  {
    var cmd := command + FormatFlag + extension;
    Text.BetweenOf(command + FormatFlag, extension, "");
    assert cmd + "" == cmd;
    cmd
  }

  /** The process call made to render `source` as `extension`. */
  function RenderRequest(command: string, source: string, extension: string): (req: CommandRequest)
    ensures Text.Between(req.command, command + FormatFlag, "") == Some(extension)
    ensures req.input == source && req.stderr == Pipe
  {
    CommandRequest(FormatCommand(command, extension), source, Pipe)
  }

  // ---------------------------------------------------------------------------
  // Error messages, and the readers that show they identify their cause.

  /** The message of a non-zero exit. */
  function ExitCodeMessage(code: int, cmd: string): string {
    ExitCodePrefix + Text.Decimal(code) + ExitCodeInfix + cmd + Quote
  }

  /** The message of an empty output (the source spells it "plantum"). */
  function EmptyOutputMessage(cmd: string): string {
    EmptyOutputPrefix + cmd + Quote
  }

  /** Reads the exit code and the command back out of a message. */
  function ReadExitCodeMessage(message: string): Option<(int, string)> {
    match Text.Between(message, ExitCodePrefix, Quote)
    case None => None
    case Some(body) =>
      var (number, rest) := Text.SplitDecimal(body);
      if number == [] || number == "-" then None
      else match Text.Between(rest, ExitCodeInfix, "")
        case None => None
        case Some(cmd) => Some((Text.ParseDecimal(number), cmd))
  }

  /** Reads the command back out of an empty-output message. */
  function ReadEmptyOutputMessage(message: string): Option<string> {
    Text.Between(message, EmptyOutputPrefix, Quote)
  }

  /** A non-zero-exit message names its exit code and command, and is not an
      empty-output message. */
  lemma ExitCodeMessageReadsBack(code: int, cmd: string)
    ensures ReadExitCodeMessage(ExitCodeMessage(code, cmd)) == Some((code, cmd))
    ensures ReadEmptyOutputMessage(ExitCodeMessage(code, cmd)) == None
  {
    var rest := ExitCodeInfix + cmd;
    ExitCodeMessageBody(code, cmd);
    Text.SplitDecimalOf(code, rest);
    DecimalIsNumber(code);
    ExitCodeMessageCommand(cmd);
    Text.DecimalRoundTrip(code);
    ExitCodeMessageIsNotEmptyOutput(code, cmd);
  }

  /** Between its opening words and its closing quote, a non-zero-exit
      message holds the exit code followed by the quoted command. */
  lemma ExitCodeMessageBody(code: int, cmd: string)
    ensures Text.Between(ExitCodeMessage(code, cmd), ExitCodePrefix, Quote)
         == Some(Text.Decimal(code) + (ExitCodeInfix + cmd))
  {
    var number := Text.Decimal(code);
    Text.AppendAssoc(ExitCodePrefix + number, ExitCodeInfix, cmd);
    Text.AppendAssoc(ExitCodePrefix, number, ExitCodeInfix + cmd);
    Text.BetweenOf(ExitCodePrefix, number + (ExitCodeInfix + cmd), Quote);
  }

  /** After the exit code, the command follows the `: '` separator. */
  lemma ExitCodeMessageCommand(cmd: string)
    ensures Text.Between(ExitCodeInfix + cmd, ExitCodeInfix, "") == Some(cmd)
  {
    Text.BetweenOf(ExitCodeInfix, cmd, "");
    assert ExitCodeInfix + cmd + "" == ExitCodeInfix + cmd;
  }

  /** The two messages part at their eighth character ("plantuml" against
      "plantum "). */
  lemma ExitCodeMessageIsNotEmptyOutput(code: int, cmd: string)
    ensures ReadEmptyOutputMessage(ExitCodeMessage(code, cmd)) == None
  {
    var message := ExitCodeMessage(code, cmd);
    assert message[..|ExitCodePrefix|] == ExitCodePrefix;
    assert message[7] != EmptyOutputPrefix[7];
  }

  /** A non-zero-exit message contains the words "exit code" followed by the
      code, as the repository's tests look for. */
  lemma ExitCodeMessageNamesCode(code: int, cmd: string)
    ensures Text.Contains(ExitCodeMessage(code, cmd), ExitCodeWords + Text.Decimal(code))
  {
    var number := Text.Decimal(code);
    var words := ExitCodeWords + number;
    Text.AppendAssoc(ExitCodeOpening, ExitCodeWords, number);
    Text.ContainsEnd(ExitCodeOpening, words);
    Text.ContainsExtended(ExitCodePrefix + number, ExitCodeInfix, words);
    Text.ContainsExtended(ExitCodePrefix + number + ExitCodeInfix, cmd, words);
    Text.ContainsExtended(ExitCodePrefix + number + ExitCodeInfix + cmd, Quote, words);
  }

  /** An empty-output message contains the words "empty output". */
  lemma EmptyOutputMessageSaysEmpty(cmd: string)
    ensures Text.Contains(EmptyOutputMessage(cmd), EmptyOutputWords)
  {
    Text.ContainsEnd(EmptyOutputOpening, EmptyOutputWords);
    Text.ContainsExtended(EmptyOutputOpening + EmptyOutputWords, ExitCodeInfix, EmptyOutputWords);
    Text.ContainsExtended(EmptyOutputPrefix, cmd, EmptyOutputWords);
    Text.ContainsExtended(EmptyOutputPrefix + cmd, Quote, EmptyOutputWords);
  }

  /** The decimal form of an integer holds at least one digit. */
  lemma DecimalIsNumber(code: int)
    ensures Text.Decimal(code) != [] && Text.Decimal(code) != "-"
  {
    if code < 0 {
      assert |Text.Decimal(code)| == 1 + |Text.Digits(-code)|;
    }
  }

  /** An empty-output message names its command, and is not a non-zero-exit
      message. */
  lemma EmptyOutputMessageReadsBack(cmd: string)
    ensures ReadEmptyOutputMessage(EmptyOutputMessage(cmd)) == Some(cmd)
    ensures ReadExitCodeMessage(EmptyOutputMessage(cmd)) == None
  {
    Text.BetweenOf(EmptyOutputPrefix, cmd, Quote);
    assert EmptyOutputMessage(cmd)[7] != ExitCodePrefix[7];
  }

  // ---------------------------------------------------------------------------
  // The callback.

  /** How the callback settles once the process call for `cmd` has settled:
      a rejected call is passed on as it is; a non-zero exit is an error
      naming the code and the command, checked before anything else; an
      absent or empty output is an error naming the command; otherwise the
      output is the rendering. */
  function CheckOutput(cmd: string, run: Result<ProcessOutput, Error>): (r: Result<JsValue, Error>)
    ensures run.Failure? ==> r == Failure(run.error)
    ensures run.Success? && run.value.exitCode != 0 ==>
              r.Failure? && ReadExitCodeMessage(r.error.message) == Some((run.value.exitCode, cmd))
    ensures run.Success? && run.value.exitCode == 0 && run.value.stdout in {None, Some("")} ==>
              r.Failure? && ReadEmptyOutputMessage(r.error.message) == Some(cmd)
    ensures r.Success? <==>
              run.Success? && run.value.exitCode == 0 && run.value.stdout.Some? && run.value.stdout.value != ""
    ensures r.Success? ==> r.value == Str(run.value.stdout.value)
  {
    match run
    case Failure(e) => Failure(e)
    case Success(out) =>
      if out.exitCode != 0 then
        ExitCodeMessageReadsBack(out.exitCode, cmd);
        Failure(Error(ExitCodeMessage(out.exitCode, cmd)))
      else if out.stdout.None? || out.stdout.value == "" then
        EmptyOutputMessageReadsBack(cmd);
        Failure(Error(EmptyOutputMessage(cmd)))
      else Success(Str(out.stdout.value))
  }

  /** The callback `plantuml(command, execa)` applied to `(source, extension)`:
      it resolves exactly to the non-empty output of a process that ran
      `command -t<extension>` on `source` and exited with 0. */
  function Render(command: string, execa: Execa, source: string, extension: string): (r: Result<JsValue, Error>)
    ensures var run := execa(RenderRequest(command, source, extension));
            r.Success? <==>
              run.Success? && run.value.exitCode == 0 && run.value.stdout.Some? && run.value.stdout.value != ""
    ensures var run := execa(RenderRequest(command, source, extension));
            r.Success? ==> r.value == Str(run.value.stdout.value)
    ensures var run := execa(RenderRequest(command, source, extension));
            run.Failure? ==> r == Failure(run.error)
  {
    var request := RenderRequest(command, source, extension);
    CheckOutput(request.command, execa(request))
  }

  /** `plantuml(command, execa)`. */
  function Plantuml(command: string, execa: Execa): TransferEngine.ExtensionCallback {
    (source, extension) => Render(command, execa, source, extension)
  }

  // ---------------------------------------------------------------------------
  // The base commands.

  const DockerPrefix: string := "docker run --rm -i "
  const JavaPrefix: string := "java -jar "
  const PipeOptions: string := " -pipe -nometadata"
  const DefaultJar: string := "plantuml.jar"

  /** `karfau/plantuml:<tag>`, the tag being `PLANTUML_VERSION` when set and
      not empty, and `latest` otherwise. */
  function DefaultImage(version: Option<string>): (image: string)
    ensures Text.Between(image, "karfau/plantuml:", "")
            == Some(if version.None? || version.value == "" then "latest" else version.value)
  {
    var tag := if version.None? || version.value == "" then "latest" else version.value;
    Text.BetweenOf("karfau/plantuml:", tag, "");
    assert "karfau/plantuml:" + tag + "" == "karfau/plantuml:" + tag;
    "karfau/plantuml:" + tag
  }

  /** `plantuml.DOCKER(image)`: runs the given image, or the default one when
      no image is given, in one-shot piping mode. */
  function DockerCommand(image: Option<string>, version: Option<string>): (cmd: string)
    ensures Text.Between(cmd, DockerPrefix, PipeOptions) == Some(image.GetOr(DefaultImage(version)))
  {
    Text.BetweenOf(DockerPrefix, image.GetOr(DefaultImage(version)), PipeOptions);
    DockerPrefix + image.GetOr(DefaultImage(version)) + PipeOptions
  }

  /** `plantuml.JAVA(pathToJar)`: runs the given jar, or `plantuml.jar` in the
      working directory, in one-shot piping mode. */
  function JavaCommand(pathToJar: Option<string>): (cmd: string)
    ensures Text.Between(cmd, JavaPrefix, PipeOptions) == Some(pathToJar.GetOr(DefaultJar))
  {
    Text.BetweenOf(JavaPrefix, pathToJar.GetOr(DefaultJar), PipeOptions);
    JavaPrefix + pathToJar.GetOr(DefaultJar) + PipeOptions
  }
}
