/**
 mkinitrd at work: it opens the files, lays out the entries, and copies the data in chunks whose
 sizes it does not choose.
 */
module ImageWriter {
  import opened Basics
  import opened RamDisk

  const BUFFER_BYTES: nat := 4096

  /** An open file: its bytes, and how far it has been read. */
  class Stream {
    const content: seq<Byte>
    var position: nat

    constructor (content: seq<Byte>)
      ensures this.content == content && position == 0
    {
      this.content, position := content, 0;
    }

    /** fread: some bytes, at most `most`, and none only at the end of the file. */
    method Read(most: nat) returns (chunk: seq<Byte>)
      requires most > 0 && position <= |content|
      modifies this
      ensures position == old(position) + |chunk| <= |content|
      ensures chunk == content[old(position)..position] && |chunk| <= most
      ensures chunk == [] <==> old(position) == |content|
    {
      var n: nat := 0;
      if position < |content| {
        n :| 1 <= n <= most && position + n <= |content|;
      }
      chunk := content[position..position + n];
      position := position + n;
    }
  }

  /** fopen. */
  method Open(input: Input) returns (file: Stream?)
    ensures file == null <==> input.content.None?
    ensures file != null ==> fresh(file) && file.content == input.content.value && file.position == 0
  {
    if input.content.None? { return null; }
    file := new Stream(input.content.value);
  }

  /** mkinitrd_filesize: go to the end of the file and back. */
  method MeasureFile(file: Stream?) returns (size: nat)
    modifies if file == null then {} else {file}
    ensures size == if file == null then 0 else FileSize(Some(file.content))
    ensures file != null ==> file.position == 0
  {
    if file == null { return 0; }
    file.position := |file.content|;
    size := file.position;
    file.position := 0;
    if size > UINT32_MAX { return 0; }
  }

  datatype Entry = Entry(name: seq<Byte>, size: nat, offset: nat)

  /** The entry of file i. */
  function Planned(inputs: seq<Input>, i: nat): Entry
    requires i < |inputs|
  {
    Entry(BaseName(inputs[i].path), FileSize(inputs[i].content), Start(inputs, i))
  }

  /** The files opened so far, each at its start. */
  ghost predicate Opened(inputs: seq<Input>, files: seq<Stream>)
    reads files
  {
    && |files| <= |inputs|
    && (forall j | 0 <= j < |files| ::
          inputs[j].content == Some(files[j].content) && files[j].position == 0)
    && forall j, k | 0 <= j < k < |files| :: files[j] != files[k]
  }

  /** The entries of the first files are planned. */
  ghost predicate LaidOut(inputs: seq<Input>, entries: seq<Entry>) {
    |entries| <= |inputs| && forall j | 0 <= j < |entries| :: entries[j] == Planned(inputs, j)
  }

  /** The search for an earlier file of the same name. */
  method HasName(ghost inputs: seq<Input>, entries: seq<Entry>, name: seq<Byte>) returns (found: bool)
    requires LaidOut(inputs, entries) && |entries| < |inputs| && name == BaseName(inputs[|entries|].path)
    ensures found == Clashes(inputs, |entries|)
  {
    for j := 0 to |entries|
      invariant forall k | 0 <= k < j :: BaseName(inputs[k].path) != name
    {
      if name == entries[j].name { return true; }
    }
    return false;
  }

  /** The body of the first loop of mkinitrd: open and measure the next file and lay out its entry. */
  method SurveyFile(inputs: seq<Input>, entries: seq<Entry>, offset: nat)
      returns (error: Option<Error>, entry: Entry, file: Stream?)
    requires LaidOut(inputs, entries) && |entries| < |inputs| && offset == Start(inputs, |entries|)
    ensures error == ErrorAt(inputs, |entries|)
    ensures error.None? ==> entry == Planned(inputs, |entries|)
    ensures error.None? ==> file != null && fresh(file) && file.position == 0
    ensures error.None? ==> inputs[|entries|].content == Some(file.content)
  {
    entry := Entry([], 0, 0);
    var name := BaseName(inputs[|entries|].path);
    file := Open(inputs[|entries|]);
    var found := HasName(inputs, entries, name);
    if found { return Some(SameName), entry, file; }
    if file == null { return Some(CannotOpen), entry, file; }
    var size := MeasureFile(file);
    entry := Entry(name, size, offset % 0x1_0000_0000);
    if offset > UINT32_MAX { return Some(TooBig), entry, file; }
    if size == 0 { return Some(EmptyOrTooBig), entry, file; }
    error := None;
  }

  lemma {:induction false} OneMore(inputs: seq<Input>, entries: seq<Entry>, entry: Entry)
    requires LaidOut(inputs, entries) && |entries| < |inputs| && entry == Planned(inputs, |entries|)
    ensures LaidOut(inputs, entries + [entry]) && Start(inputs, |entries|) + entry.size == Start(inputs, |entries| + 1)
  {
  }

  lemma {:induction false} OneMoreOpened(inputs: seq<Input>, files: seq<Stream>, file: Stream)
    requires Opened(inputs, files) && |files| < |inputs| && file !in files && file.position == 0
    requires inputs[|files|].content == Some(file.content)
    ensures Opened(inputs, files + [file])
  {
  }

  /** The first loop of mkinitrd: lay out every file, or stop at the first error. */
  method Survey(inputs: seq<Input>) returns (error: Option<Error>, entries: seq<Entry>, files: seq<Stream>)
    ensures error == FirstError(inputs, 0)
    ensures error.None? ==> |entries| == |inputs| && LaidOut(inputs, entries)
    ensures error.None? ==> |files| == |inputs| && Opened(inputs, files)
    ensures forall i | 0 <= i < |files| :: fresh(files[i])
  {
    entries, files := [], [];
    var offset := HEADER_BYTES + ENTRY_BYTES * |inputs|;
    for i := 0 to |inputs|
      invariant FirstError(inputs, 0) == FirstError(inputs, i)
      invariant offset == Start(inputs, i)
      invariant |entries| == i && LaidOut(inputs, entries)
      invariant |files| == i && Opened(inputs, files)
      invariant forall j | 0 <= j < i :: fresh(files[j])
    {
      var error, entry, file := SurveyFile(inputs, entries, offset);
      if error.Some? { return error, entries, files; }
      OneMore(inputs, entries, entry);
      OneMoreOpened(inputs, files, file);
      entries := entries + [entry];
      files := files + [file];
      offset := offset + entry.size;
    }
    return None, entries, files;
  }

  /** The write of the entry table. */
  method WriteTable(ghost inputs: seq<Input>, entries: seq<Entry>) returns (out: seq<Byte>)
    requires |entries| == |inputs| && LaidOut(inputs, entries)
    ensures out == Table(inputs, |inputs|)
  {
    out := [];
    for i := 0 to |entries|
      invariant out == Table(inputs, i)
    {
      out := out + EntryBytes(entries[i].name, entries[i].size, entries[i].offset);
    }
  }

  /** The inner loop of the copy: append a whole file, chunk by chunk. */
  method CopyFile(file: Stream, out: seq<Byte>) returns (longer: seq<Byte>)
    requires file.position == 0
    modifies file
    ensures longer == out + file.content
  {
    longer := out;
    var chunk := file.Read(BUFFER_BYTES);
    while chunk != []
      invariant file.position <= |file.content| && |chunk| <= file.position
      invariant chunk == [] <==> file.position - |chunk| == |file.content|
      invariant chunk == file.content[file.position - |chunk|..file.position]
      invariant longer == out + file.content[..file.position - |chunk|]
      decreases |file.content| - file.position + |chunk|
    {
      longer := longer + chunk;
      chunk := file.Read(BUFFER_BYTES);
    }
    assert file.content[..|file.content|] == file.content;
  }

  /** The last loop of mkinitrd: append the data of every file. */
  method WriteData(ghost inputs: seq<Input>, files: seq<Stream>, front: seq<Byte>) returns (out: seq<Byte>)
    requires |files| == |inputs| && Opened(inputs, files)
    modifies files
    ensures out == front + Data(inputs, |inputs|)
  {
    out := front;
    for i := 0 to |files|
      invariant forall j | i <= j < |files| :: files[j].position == 0
      invariant out == front + Data(inputs, i)
    {
      assert inputs[i].content == Some(files[i].content);
      out := CopyFile(files[i], out);
    }
  }

  /** mkinitrd from the file list on: the first error, or the image.  A name that is copied past its field but
      not past its entry is cut off, because the size and the offset are stored over it. */
  method MakeImage(inputs: seq<Input>) returns (r: Result<seq<Byte>>)
    requires forall i | 0 <= i < |inputs| ::
      0 !in BaseName(inputs[i].path) && |BaseName(inputs[i].path)| < ENTRY_BYTES
    ensures r == Encode(inputs)
  {
    if inputs == [] { return Err(NoInput); }
    var error, entries, files := Survey(inputs);
    if error.Some? { return Err(error.value); }
    var table := WriteTable(inputs, entries);
    var out := WriteData(inputs, files, U32(SIGNATURE) + U32(|inputs|) + table);
    return Ok(out);
  }
}
