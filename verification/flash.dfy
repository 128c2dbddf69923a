/**
 * The flash file system and the JSON objects the clock keeps in it, as the
 * store in SPIFFS.cpp sees them.  The volume is abstract: a mounted flag, a
 * map from path to file content, the number of open handles and the number
 * of `end()` calls.  Whether `begin()` and `open()` succeed on the device is
 * not decided here; the caller passes it in (`Io`).
 *
 * A file holds either a JSON object or text that does not parse as one.
 * `printTo` stores the object itself and `parseObject` hands it back, so
 * the codec is ideal by construction: the JSON text syntax is not modelled.
 */
module Flash {
  import opened Arduino

  /** A JSON scalar as ArduinoJson keeps it: text, an integer or a boolean. */
  datatype Value = Str(s: string) | Int(i: int) | Bool(b: bool)

  /** A flat JSON object: key to value. */
  type JsonObject = map<string, Value>

  /** What a file holds: a JSON object, or text that is not one (an empty file, say). */
  datatype Content = Json(obj: JsonObject) | Malformed

  /** An open file; `File` tests false when `open` failed, which is `None` here. */
  datatype File = File(path: string)

  /** What the device does on this call: whether `begin()` mounts and whether `open()` succeeds. */
  datatype Io = Io(mountOk: bool, openOk: bool)

  class Volume {
    var mounted: bool
    var files: map<string, Content>
    /** Handles opened and not yet closed. */
    var openHandles: nat
    /** How many times `end()` has been called. */
    var ends: nat

    constructor(files: map<string, Content>)
      ensures !mounted && this.files == files && openHandles == 0 && ends == 0
    {
      mounted := false;
      this.files := files;
      openHandles := 0;
      ends := 0;
    }

    /** `SPIFFS.begin()`: true when the volume is (or already was) mounted. */
    method Begin(io: Io) returns (ok: bool)
      modifies this
      ensures ok == (old(mounted) || io.mountOk) && mounted == ok
      ensures files == old(files) && openHandles == old(openHandles) && ends == old(ends)
    {
      ok := mounted || io.mountOk;
      mounted := ok;
    }

    /** `SPIFFS.end()`: unmounts. */
    method End()
      modifies this
      ensures !mounted && ends == old(ends) + 1
      ensures files == old(files) && openHandles == old(openHandles)
    {
      mounted := false;
      ends := ends + 1;
    }

    /** `SPIFFS.exists(path)` */
    method Exists(path: string) returns (b: bool)
      ensures b == (mounted && path in files)
    {
      b := mounted && path in files;
    }

    /** `SPIFFS.open(path, "r")`: a handle on an existing file of the mounted volume. */
    method OpenRead(path: string, io: Io) returns (f: Option<File>)
      modifies this
      ensures f == (if mounted && path in files && io.openOk then Some(File(path)) else None)
      ensures openHandles == old(openHandles) + (if f.Some? then 1 else 0)
      ensures mounted == old(mounted) && files == old(files) && ends == old(ends)
    {
      if mounted && path in files && io.openOk {
        f := Some(File(path));
        openHandles := openHandles + 1;
      } else {
        f := None;
      }
    }

    /** `SPIFFS.open(path, "w")`: creates the file, or truncates it to nothing. */
    method OpenWrite(path: string, io: Io) returns (f: Option<File>)
      modifies this
      ensures f == (if mounted && io.openOk then Some(File(path)) else None)
      ensures files == if f.Some? then old(files)[path := Malformed] else old(files)
      ensures openHandles == old(openHandles) + (if f.Some? then 1 else 0)
      ensures mounted == old(mounted) && ends == old(ends)
    {
      if mounted && io.openOk {
        f := Some(File(path));
        files := files[path := Malformed];
        openHandles := openHandles + 1;
      } else {
        f := None;
      }
    }

    /** `readBytes` then `parseObject`: the object the file holds, if it holds one. */
    method ReadObject(f: File) returns (obj: Option<JsonObject>)
      ensures obj == if f.path in files && files[f.path].Json? then Some(files[f.path].obj) else None
    {
      if f.path in files && files[f.path].Json? {
        obj := Some(files[f.path].obj);
      } else {
        obj := None;
      }
    }

    /** `json.printTo(file)`: the file now holds `obj`. */
    method PrintTo(f: File, obj: JsonObject)
      modifies this
      ensures files == old(files)[f.path := Json(obj)]
      ensures mounted == old(mounted) && openHandles == old(openHandles) && ends == old(ends)
    {
      files := files[f.path := Json(obj)];
    }

    /** `file.close()`; closing a handle whose `open` failed does nothing. */
    method Close(f: Option<File>)
      modifies this
      ensures openHandles == if f.Some? && old(openHandles) > 0 then old(openHandles) - 1 else old(openHandles)
      ensures mounted == old(mounted) && files == old(files) && ends == old(ends)
    {
      if f.Some? && openHandles > 0 {
        openHandles := openHandles - 1;
      }
    }
  }
}
