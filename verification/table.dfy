/**
 * Building the table of encoded templates (embedded.go:30-68): one entry
 * for a single template file, or one entry per template in a directory
 * listing; any failed read stops the run.
 */
module Table {
  import opened Wrappers
  import opened Base64
  import opened Names

  /**
   * What the generator can see of the filesystem: the files it can open and
   * read in full, with their bytes, and the directories it can list, with
   * the names of their immediate entries in the order the listing gives them.
   */
  datatype FileSystem = FileSystem(files: map<string, seq<byte>>, dirs: map<string, seq<string>>)

  /** The fatal errors of a run; each ends the process before anything is written. */
  datatype Error =
    | UsageError               // no input path was given
    | ReadDirError(dir: string)    // the input directory could not be listed
    | ReadFileError(path: string)  // a template file could not be opened or read

  /** Template name to its base64 text. */
  type EncodedTable = map<string, string>

  /** The path under which a directory entry is opened. */
  function EntryPath(dir: string, name: string): string {
    dir + "/" + name
  }

  /** The names of a listing that pass the selection filter. */
  function SelectedNames(names: seq<string>): set<string> {
    set n | n in names && IsTemplateName(n)
  }

  /** Every selected entry of the listing can be opened and read. */
  predicate AllSelectedReadable(fs: FileSystem, dir: string, names: seq<string>) {
    forall n :: n in names && IsTemplateName(n) ==> EntryPath(dir, n) in fs.files
  }

  /** The first selected entry, in listing order, whose read fails; None when every read succeeds. */
  function FirstUnreadable(fs: FileSystem, dir: string, names: seq<string>): (r: Option<string>)
    ensures r.None? <==> AllSelectedReadable(fs, dir, names)
    ensures r.Some? ==>
              exists i :: 0 <= i < |names| && names[i] == r.value &&
                          IsTemplateName(r.value) && EntryPath(dir, r.value) !in fs.files &&
                          AllSelectedReadable(fs, dir, names[..i])
    decreases |names|
  {
    if names == [] then None
    else if IsTemplateName(names[0]) && EntryPath(dir, names[0]) !in fs.files then
      assert names[..0] == [];
      Some(names[0])
    else
      var r := FirstUnreadable(fs, dir, names[1..]);
      assert names == [names[0]] + names[1..];
      if r.Some? then
        var i :| 0 <= i < |names[1..]| && names[1..][i] == r.value && AllSelectedReadable(fs, dir, names[1..][..i]);
        assert names[..i + 1] == [names[0]] + names[1..][..i];
        r
      else
        r
  }

  /**
   * The table the directory loop builds from a listing, entry by entry in
   * listing order: a selected entry is inserted under its bare name, every
   * other entry is skipped.
   */
  function DirTable(fs: FileSystem, dir: string, names: seq<string>): (t: EncodedTable)
    requires AllSelectedReadable(fs, dir, names)
    ensures t.Keys == SelectedNames(names)
    ensures forall k :: k in t ==> EntryPath(dir, k) in fs.files && t[k] == Encode(fs.files[EntryPath(dir, k)])
    decreases |names|
  {
    if names == [] then map[]
    else
      var init, last := names[..|names| - 1], names[|names| - 1];
      assert names == init + [last];
      var t := DirTable(fs, dir, init);
      if IsTemplateName(last) then t[last := Encode(fs.files[EntryPath(dir, last)])] else t
  }

  /**
   * The outcome of building the table for `input`: single-file mode when the
   * input itself is a template name, directory mode otherwise.
   */
  function TableSpec(input: string, fs: FileSystem): Result<EncodedTable, Error> {
    if IsTemplateName(input) then
      if input in fs.files then Success(map[input := Encode(fs.files[input])])
      else Failure(ReadFileError(input))
    else if input !in fs.dirs then Failure(ReadDirError(input))
    else
      match FirstUnreadable(fs, input, fs.dirs[input])
      case Some(n) => Failure(ReadFileError(EntryPath(input, n)))
      case None => Success(DirTable(fs, input, fs.dirs[input]))
  }

  /** Single-file mode: the one template is read and stored under the path exactly as it was opened. */
  method BuildTableSingle(input: string, fs: FileSystem) returns (r: Result<EncodedTable, Error>)
    requires IsTemplateName(input)
    ensures r == TableSpec(input, fs)
  {
    var encoded: EncodedTable := map[];
    if input !in fs.files {
      return Failure(ReadFileError(input));
    }
    var b := fs.files[input];
    encoded := encoded[input := Encode(b)];
    return Success(encoded);
  }

  /**
   * Directory mode: lists the directory, then walks the listing, reading each
   * selected entry and inserting it under its bare name; the first failed
   * read ends the walk with an error and the partial table is dropped.
   */
  method BuildTableDir(input: string, fs: FileSystem) returns (r: Result<EncodedTable, Error>)
    requires !IsTemplateName(input)
    ensures r == TableSpec(input, fs)
  {
    if input !in fs.dirs {
      return Failure(ReadDirError(input));
    }
    var files := fs.dirs[input];
    var encoded: EncodedTable := map[];
    for i := 0 to |files|
      invariant AllSelectedReadable(fs, input, files[..i])
      invariant encoded == DirTable(fs, input, files[..i])
    {
      var name := files[i];
      assert files[..i + 1] == files[..i] + [name];
      if IsTemplateName(name) {
        var path := EntryPath(input, name);
        if path !in fs.files {
          FirstUnreadableAt(fs, input, files, i);
          return Failure(ReadFileError(path));
        }
        var b := fs.files[path];
        encoded := encoded[name := Encode(b)];
      }
    }
    assert files[..|files|] == files;
    return Success(encoded);
  }

  /** When every entry before position i reads and entry i is a selected entry that does not, entry i is the first failure. */
  lemma {:induction false} FirstUnreadableAt(fs: FileSystem, dir: string, names: seq<string>, i: nat)
    requires i < |names| && AllSelectedReadable(fs, dir, names[..i])
    requires IsTemplateName(names[i]) && EntryPath(dir, names[i]) !in fs.files
    ensures FirstUnreadable(fs, dir, names) == Some(names[i])
    decreases i
  {
    if i > 0 {
      assert names[0] in names[..i];
      assert names[1..][..i - 1] == names[1..i];
      assert forall n :: n in names[1..i] ==> n in names[..i];
      FirstUnreadableAt(fs, dir, names[1..], i - 1);
    }
  }

  /** The file a table key was read from: the input itself in single-file mode, the entry under the input directory otherwise. */
  function SourcePath(input: string, key: string): string {
    if IsTemplateName(input) then input else EntryPath(input, key)
  }

  /** A table is built exactly when every read the run attempts succeeds. */
  lemma TableSucceedsIff(input: string, fs: FileSystem)
    ensures TableSpec(input, fs).Success? <==>
              if IsTemplateName(input) then input in fs.files
              else input in fs.dirs && AllSelectedReadable(fs, input, fs.dirs[input])
  {
  }

  /**
   * Directory mode: the keys are exactly the bare names of the listed
   * entries that pass the filter; an entry that does not pass never gives a key.
   */
  lemma DirTableKeys(input: string, fs: FileSystem)
    requires !IsTemplateName(input) && TableSpec(input, fs).Success?
    ensures input in fs.dirs
    ensures TableSpec(input, fs).value.Keys == SelectedNames(fs.dirs[input])
    ensures forall n :: n in fs.dirs[input] && !IsTemplateName(n) ==> n !in TableSpec(input, fs).value
  {
  }

  /** Single-file mode: a readable template gives a table of one entry, keyed by the input path as opened. */
  lemma SingleTableKey(input: string, fs: FileSystem)
    requires IsTemplateName(input) && input in fs.files
    ensures TableSpec(input, fs).Success?
    ensures TableSpec(input, fs).value.Keys == {input}
    ensures |TableSpec(input, fs).value| == 1
  {
  }

  /**
   * Every table value decodes back to the exact bytes of the file its key was
   * read from, and has the length 4 * ceil(n / 3) of a base64 text of n bytes.
   */
  lemma TableRoundTrip(input: string, fs: FileSystem)
    requires TableSpec(input, fs).Success?
    ensures var t := TableSpec(input, fs).value;
            forall k :: k in t ==>
              && SourcePath(input, k) in fs.files
              && Decode(t[k]) == Some(fs.files[SourcePath(input, k)])
              && |t[k]| == 4 * ((|fs.files[SourcePath(input, k)]| + 2) / 3)
  {
    var t := TableSpec(input, fs).value;
    forall k | k in t
      ensures SourcePath(input, k) in fs.files && Decode(t[k]) == Some(fs.files[SourcePath(input, k)])
    {
      DecodeEncode(fs.files[SourcePath(input, k)]);
    }
  }

  /** Every table value is base64 text: alphabet characters and padding only, so never a double quote. */
  lemma TableValuesAreBase64(input: string, fs: FileSystem)
    requires TableSpec(input, fs).Success?
    ensures var t := TableSpec(input, fs).value;
            forall k :: k in t ==> forall i :: 0 <= i < |t[k]| ==> IsAlphabetChar(t[k][i]) || t[k][i] == Pad
  {
  }

  /**
   * Directory mode, listing read: the run fails exactly when some selected
   * entry cannot be read, and the error names the first such entry in
   * listing order.
   */
  lemma DirFailureNamesFirstUnreadable(input: string, fs: FileSystem)
    requires !IsTemplateName(input) && input in fs.dirs
    requires !AllSelectedReadable(fs, input, fs.dirs[input])
    ensures TableSpec(input, fs).Failure?
    ensures var names := fs.dirs[input];
            exists i :: 0 <= i < |names| && IsTemplateName(names[i]) &&
                        EntryPath(input, names[i]) !in fs.files &&
                        AllSelectedReadable(fs, input, names[..i]) &&
                        TableSpec(input, fs).error == ReadFileError(EntryPath(input, names[i]))
  {
  }
}
