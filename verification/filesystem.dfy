/** `persistToFileSystem`: a persist callback that writes each value to a
    file named after a base path and the extension, and reports where. */
module FileSystem {
  import opened Wrappers
  import opened Js
  import Text
  import TransferEngine

  /** The arguments of one `fs.writeFileSync(path, data, {encoding})` call. */
  datatype WriteRequest = WriteRequest(path: string, data: string, encoding: string)

  /** The injected `fs.writeFileSync`: returns normally or throws. */
  type WriteFile = WriteRequest -> Result<(), Error>

  const Utf8: string := "utf8"

  /** Where the value for `extension` goes: `pathAndName.extension`. */
  function Location(pathAndName: string, extension: string): (location: string)
    ensures Text.Between(location, pathAndName + ".", "") == Some(extension)
  {
    var location := pathAndName + "." + extension;
    Text.BetweenOf(pathAndName + ".", extension, "");
    assert location + "" == location;
    location
  }

  /** Under one base path, different extensions never share a location string. */
  lemma LocationInjective(pathAndName: string, e1: string, e2: string)
    requires e1 != e2
    ensures Location(pathAndName, e1) != Location(pathAndName, e2)
  {
  }

  /** The write the callback performs for `(extension, value)`. */
  function WriteFor(pathAndName: string, extension: string, value: string): (req: WriteRequest)
    ensures Text.Between(req.path, pathAndName + ".", "") == Some(extension)
    ensures req.data == value && req.encoding == Utf8
  {
    WriteRequest(Location(pathAndName, extension), value, Utf8)
  }

  /** The callback `persistToFileSystem(pathAndName, fs)` applied to
      `(extension, value)`: it writes the whole value to the location and
      resolves to the location, or rejects with the write's own error. */
  function Persist(pathAndName: string, write: WriteFile, extension: string, value: string): (r: Result<JsValue, Error>)
    ensures var w := write(WriteFor(pathAndName, extension, value));
            && (r.Success? <==> w.Success?)
            && (r.Failure? ==> r.error == w.error)
    ensures r.Success? ==> r.value.Str? && r.value.s == WriteFor(pathAndName, extension, value).path
  {
    var location := Location(pathAndName, extension);
    match write(WriteRequest(location, value, Utf8))
    case Failure(e) => Failure(e)
    case Success(_) => Success(Str(location))
  }

  /** `persistToFileSystem(pathAndName, fs)`. */
  function PersistToFileSystem(pathAndName: string, write: WriteFile): TransferEngine.PersistCallback {
    (extension, value) => Persist(pathAndName, write, extension, value)
  }

  /** A resolved `transfer` that persists to the file system reports, for
      every key, the location its value was written to; over distinct keys
      those location strings are pairwise distinct. */
  lemma TransferToFiles(extensions: seq<(string, TransferEngine.Extension)>, source: string,
                        pathAndName: string, write: WriteFile)
    requires TransferEngine.DistinctKeys(extensions)
    requires TransferEngine.Transfer(extensions, source, Some(PersistToFileSystem(pathAndName, write))).outcome.Success?
    ensures var r := TransferEngine.Transfer(extensions, source, Some(PersistToFileSystem(pathAndName, write))).outcome.value;
            && |r| == |extensions|
            && (forall i :: 0 <= i < |r| ==> r[i] == (extensions[i].0, Str(Location(pathAndName, extensions[i].0))))
            && (forall i, j :: 0 <= i < j < |r| ==> r[i].1 != r[j].1)
  {
    var persist := PersistToFileSystem(pathAndName, write);
    var r := TransferEngine.Transfer(extensions, source, Some(persist)).outcome.value;
    forall i | 0 <= i < |extensions|
      ensures |r| == |extensions| && r[i] == (extensions[i].0, Str(Location(pathAndName, extensions[i].0)))
    {
      TransferEngine.PersistCalledOnce(extensions, source, persist, i);
    }
    forall i, j | 0 <= i < j < |r|
      ensures r[i].1 != r[j].1
    {
      LocationInjective(pathAndName, extensions[i].0, extensions[j].0);
    }
  }
}
