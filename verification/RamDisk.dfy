/**
 The RAM disk image: what mkinitrd accepts, the image it writes, and how the image is read.
 */
module RamDisk {
  import opened Basics

  const SIGNATURE: nat := 0x44525358
  const UINT32_MAX: nat := 0xFFFF_FFFF

  const HEADER_BYTES: nat := 8
  const NAME_BYTES: nat := 256
  const ENTRY_BYTES: nat := 264

  const SLASH: Byte := 47

  /** An input file: its path, and its bytes if it can be opened. */
  datatype Input = Input(path: seq<Byte>, content: Option<seq<Byte>>)

  datatype Error = NoInput | SameName | CannotOpen | TooBig | EmptyOrTooBig

  datatype Result<+T> = Ok(value: T) | Err(error: Error)

  // ---------------------------------------------------------------- names and sizes

  /** Where the text after the last '/' among the first n characters starts. */
  function AfterLastSlash(path: seq<Byte>, n: nat): (k: nat)
    requires n <= |path|
    ensures k <= n && (k > 0 ==> path[k - 1] == SLASH)
    ensures forall h | k <= h < n :: path[h] != SLASH
  {
    if n == 0 || path[n - 1] == SLASH then n else AfterLastSlash(path, n - 1)
  }

  /** mkinitrd_filename: what follows the last '/', or the whole path. */
  function BaseName(path: seq<Byte>): seq<Byte> {
    path[AfterLastSlash(path, |path|)..]
  }

  /** A name is what a path ends with, holds no '/', and is the whole path or stands behind a '/'; there is exactly
      one such name. */
  lemma BaseNameIff(path: seq<Byte>, name: seq<Byte>)
    ensures name == BaseName(path) <==>
      && |name| <= |path| && path[|path| - |name|..] == name
      && SLASH !in name && (|name| < |path| ==> path[|path| - |name| - 1] == SLASH)
  {
    var k, d := AfterLastSlash(path, |path|), |path| - |name|;
    if 0 <= d < k && path[d..] == name {
      assert name[k - 1 - d] == SLASH;
    }
  }

  /** Directories do not matter: the name is the same whatever is put before a '/'. */
  lemma BaseNameIgnoresDirectory(directory: seq<Byte>, path: seq<Byte>)
    ensures BaseName(directory + [SLASH] + path) == BaseName(path)
  {
    var whole, d := directory + [SLASH] + path, |directory| + 1;
    var k, k' := AfterLastSlash(path, |path|), AfterLastSlash(whole, |whole|);
    assert whole[d - 1] == SLASH && forall h | 0 <= h < |path| :: whole[d + h] == path[h];
    assert k' == d + k;
    assert whole[d + k..] == path[k..];
  }

  /** mkinitrd_filesize: 0 if the file could not be opened or is too big. */
  function FileSize(content: Option<seq<Byte>>): nat {
    if content.None? || |content.value| > UINT32_MAX then 0 else |content.value|
  }

  // ---------------------------------------------------------------- acceptance

  /** Where the data of file i starts. */
  function Start(files: seq<Input>, i: nat): nat
    requires i <= |files|
  {
    if i == 0 then HEADER_BYTES + ENTRY_BYTES * |files| else Start(files, i - 1) + FileSize(files[i - 1].content)
  }

  /** An earlier file has the same base name. */
  predicate Clashes(files: seq<Input>, i: nat)
    requires i < |files|
  {
    exists j | 0 <= j < i :: BaseName(files[j].path) == BaseName(files[i].path)
  }

  /** What stops mkinitrd at file i, if anything: the tests in the order of the source. */
  function ErrorAt(files: seq<Input>, i: nat): Option<Error>
    requires i < |files|
  {
    if Clashes(files, i) then Some(SameName)
    else if files[i].content.None? then Some(CannotOpen)
    else if Start(files, i) > UINT32_MAX then Some(TooBig)
    else if FileSize(files[i].content) == 0 then Some(EmptyOrTooBig)
    else None
  }

  /** The first error from file i on. */
  function FirstError(files: seq<Input>, i: nat): Option<Error>
    requires i <= |files|
    decreases |files| - i
  {
    if i == |files| then None
    else if ErrorAt(files, i).Some? then ErrorAt(files, i)
    else FirstError(files, i + 1)
  }

  /** File i can be read, is not empty, and has a size and a start that fit in 32 bits. */
  predicate Addressable(files: seq<Input>, i: nat)
    requires i < |files|
  {
    files[i].content.Some? && 1 <= |files[i].content.value| <= UINT32_MAX && Start(files, i) <= UINT32_MAX
  }

  /** What a user may ask for. */
  predicate Acceptable(files: seq<Input>) {
    && files != []
    && (forall i, j | 0 <= j < i < |files| :: BaseName(files[j].path) != BaseName(files[i].path))
    && (forall i | 0 <= i < |files| :: Addressable(files, i))
  }

  lemma {:induction false} NoErrorFrom(files: seq<Input>, i: nat)
    requires i <= |files|
    ensures FirstError(files, i).None? <==> forall k | i <= k < |files| :: ErrorAt(files, k).None?
    decreases |files| - i
  {
    if i < |files| { NoErrorFrom(files, i + 1); }
  }

  /** Nothing is wrong with file i. */
  predicate Fine(files: seq<Input>, i: nat)
    requires i < |files|
  {
    !Clashes(files, i) && Addressable(files, i)
  }

  lemma FineIffNoError(files: seq<Input>, i: nat)
    requires i < |files|
    ensures ErrorAt(files, i).None? <==> Fine(files, i)
  {
  }

  lemma AcceptableIffFine(files: seq<Input>)
    ensures Acceptable(files) <==> files != [] && forall i | 0 <= i < |files| :: Fine(files, i)
  {
    if forall i | 0 <= i < |files| :: Fine(files, i) {
      forall i, j | 0 <= j < i < |files| ensures BaseName(files[j].path) != BaseName(files[i].path) {
        assert Fine(files, i) && !Clashes(files, i);
      }
      forall i | 0 <= i < |files| ensures Addressable(files, i) {
        assert Fine(files, i);
      }
    }
    if Acceptable(files) {
      forall i | 0 <= i < |files| ensures Fine(files, i) {
        assert Addressable(files, i);
      }
    }
  }

  /** mkinitrd writes an image exactly for the acceptable file lists. */
  lemma AcceptedIff(files: seq<Input>)
    ensures Encode(files).Ok? <==> Acceptable(files)
  {
    NoErrorFrom(files, 0);
    AcceptableIffFine(files);
    forall i | 0 <= i < |files| ensures ErrorAt(files, i).None? <==> Fine(files, i) { FineIffNoError(files, i); }
  }

  /** File i is the first one from k on that anything stops mkinitrd at, and it stops with e. */
  predicate StopsAt(files: seq<Input>, k: nat, i: nat, e: Error) {
    k <= i < |files| && ErrorAt(files, i) == Some(e) && forall j | k <= j < i :: ErrorAt(files, j).None?
  }

  /** mkinitrd refuses a list with an error exactly when there is no file, or that error is what stops it at the
      first file that anything stops it at. */
  lemma RefusedIff(files: seq<Input>, e: Error)
    ensures Encode(files) == Err(e) <==> (files == [] && e == NoInput) || exists i: nat :: StopsAt(files, 0, i, e)
  {
    FirstErrorIs(files, 0, e);
  }

  lemma StopsHereOrLater(files: seq<Input>, k: nat, i: nat, e: Error)
    requires k < |files|
    ensures StopsAt(files, k, i, e) <==>
      if ErrorAt(files, k).None? then StopsAt(files, k + 1, i, e) else i == k && ErrorAt(files, k) == Some(e)
  {
  }

  lemma {:induction false} FirstErrorIs(files: seq<Input>, k: nat, e: Error)
    requires k <= |files|
    ensures FirstError(files, k) == Some(e) <==> exists i: nat :: StopsAt(files, k, i, e)
    decreases |files| - k
  {
    if k < |files| && ErrorAt(files, k).None? {
      var next := k + 1;
      FirstErrorIs(files, next, e);
      forall i: nat ensures StopsAt(files, k, i, e) <==> StopsAt(files, next, i, e) {
        StopsHereOrLater(files, k, i, e);
      }
      if i: nat :| StopsAt(files, next, i, e) { assert StopsAt(files, k, i, e); }
    } else if k < |files| {
      forall i: nat ensures StopsAt(files, k, i, e) <==> i == k && ErrorAt(files, k) == Some(e) {
        StopsHereOrLater(files, k, i, e);
      }
      assert StopsAt(files, k, k, e) <==> ErrorAt(files, k) == Some(e);
    }
  }

  /** Which error it is: an earlier file of the same name counts before a file that cannot be opened, that before
      a start that does not fit in 32 bits, and that before a size of 0 or above 2^32 - 1. */
  lemma {:induction false} ErrorAtIs(files: seq<Input>, i: nat)
    requires i < |files|
    ensures var named, readable, fits := Clashes(files, i), files[i].content.Some?, Start(files, i) < 0x1_0000_0000;
      && (ErrorAt(files, i) == Some(SameName) <==> named)
      && (ErrorAt(files, i) == Some(CannotOpen) <==> !named && !readable)
      && (ErrorAt(files, i) == Some(TooBig) <==> !named && readable && !fits)
      && (ErrorAt(files, i) == Some(EmptyOrTooBig) <==>
            !named && readable && fits && !(1 <= |files[i].content.value| < 0x1_0000_0000))
      && ErrorAt(files, i) != Some(NoInput)
  {
  }

  // ---------------------------------------------------------------- the image

  /** The four bytes of a value cast to 32 bits, lowest first. */
  function U32(v: nat): (b: seq<Byte>)
    ensures |b| == 4 && b[0] == v % 0x100
  {
    [v % 0x100, v / 0x100 % 0x100, v / 0x100 / 0x100 % 0x100, v / 0x100 / 0x100 / 0x100 % 0x100]
  }

  /** The name field: the name, and zero from there on. */
  function NameField(name: seq<Byte>): (b: seq<Byte>)
    ensures |b| == NAME_BYTES
  {
    seq(NAME_BYTES, k requires 0 <= k < NAME_BYTES => if k < |name| then name[k] else 0)
  }

  function EntryBytes(name: seq<Byte>, size: nat, offset: nat): (b: seq<Byte>)
    ensures |b| == ENTRY_BYTES
  {
    NameField(name) + U32(size) + U32(offset)
  }

  /** The entry of file i. */
  function FileEntry(files: seq<Input>, i: nat): (b: seq<Byte>)
    requires i < |files|
    ensures |b| == ENTRY_BYTES
  {
    EntryBytes(BaseName(files[i].path), FileSize(files[i].content), Start(files, i))
  }

  /** The first m entries. */
  function Table(files: seq<Input>, m: nat): (b: seq<Byte>)
    requires m <= |files|
    ensures |b| == ENTRY_BYTES * m
  {
    if m == 0 then [] else Table(files, m - 1) + FileEntry(files, m - 1)
  }

  function Bytes(content: Option<seq<Byte>>): seq<Byte> {
    if content.None? then [] else content.value
  }

  /** The data of the first m files. */
  function Data(files: seq<Input>, m: nat): seq<Byte>
    requires m <= |files|
  {
    if m == 0 then [] else Data(files, m - 1) + Bytes(files[m - 1].content)
  }

  function Header(files: seq<Input>): (b: seq<Byte>)
    ensures |b| == HEADER_BYTES
  {
    U32(SIGNATURE) + U32(|files|)
  }

  function Image(files: seq<Input>): seq<Byte> {
    Header(files) + Table(files, |files|) + Data(files, |files|)
  }

  /** What mkinitrd does: the first error, or the image. */
  function Encode(files: seq<Input>): Result<seq<Byte>> {
    if files == [] then Err(NoInput)
    else
      match FirstError(files, 0)
      case Some(e) => Err(e)
      case None => Ok(Image(files))
  }

  // ---------------------------------------------------------------- reading an image

  datatype NamedFile = NamedFile(name: seq<Byte>, content: seq<Byte>)

  function ReadU32(b: seq<Byte>, p: nat): nat
    requires p + 4 <= |b|
  {
    b[p] as nat + 0x100 * (b[p + 1] as nat + 0x100 * (b[p + 2] as nat + 0x100 * b[p + 3] as nat))
  }

  /** The C string at p. */
  function ReadString(b: seq<Byte>, p: nat): Option<seq<Byte>> {
    if p <= |b| && FirstZero(b, p) < |b| then Some(b[p..FirstZero(b, p)]) else None
  }

  function ReadFile(image: seq<Byte>, i: nat): Option<NamedFile> {
    var p := HEADER_BYTES + ENTRY_BYTES * i;
    if p + ENTRY_BYTES > |image| || ReadString(image, p).None? then None
    else
      var size, offset := ReadU32(image, p + NAME_BYTES), ReadU32(image, p + NAME_BYTES + 4);
      if offset + size > |image| then None
      else Some(NamedFile(ReadString(image, p).value, image[offset..offset + size]))
  }

  /** The first n files. */
  function ReadFiles(image: seq<Byte>, n: nat): Option<seq<NamedFile>> {
    if n == 0 then Some([])
    else
      var first, last := ReadFiles(image, n - 1), ReadFile(image, n - 1);
      if first.None? || last.None? then None else Some(first.value + [last.value])
  }

  function Decode(image: seq<Byte>): Option<seq<NamedFile>> {
    if |image| < HEADER_BYTES || ReadU32(image, 0) != SIGNATURE then None
    else ReadFiles(image, ReadU32(image, 4))
  }

  // ---------------------------------------------------------------- round trip

  lemma LowByte(v: nat)
    ensures v == v % 0x100 + 0x100 * (v / 0x100)
  {
  }

  lemma LowWord(v: nat, low: nat, high: nat)
    requires v == low + 0x1_0000_0000 * high && low < 0x1_0000_0000
    ensures v % 0x1_0000_0000 == low
  {
  }

  /** A 32-bit cast loses what does not fit. */
  lemma CastThenRead(v: nat)
    ensures ReadU32(U32(v), 0) == v % 0x1_0000_0000
  {
    var q := v / 0x100;
    var r := q / 0x100;
    var t := r / 0x100;
    var low := v % 0x100 + 0x100 * (q % 0x100 + 0x100 * (r % 0x100 + 0x100 * (t % 0x100)));
    assert ReadU32(U32(v), 0) == low;
    LowByte(v);
    LowByte(q);
    LowByte(r);
    LowByte(t);
    LowWord(v, low, t / 0x100);
  }

  /** Extents tile the image from the end of the table to its last byte. */
  lemma {:induction false} DataLength(files: seq<Input>, m: nat)
    requires Acceptable(files) && m <= |files|
    ensures HEADER_BYTES + ENTRY_BYTES * |files| + |Data(files, m)| == Start(files, m)
  {
    if m > 0 {
      var k := m - 1;
      DataLength(files, k);
      assert Addressable(files, k);
    }
  }

  lemma CastIsExactIff(v: nat)
    ensures ReadU32(U32(v), 0) == v <==> v <= UINT32_MAX
  {
    CastThenRead(v);
  }

  /** The data of the files follows the table without gap or overlap up to the last byte of the image;
      no sum passes 64 bits. */
  lemma {:induction false} ExtentsTile(files: seq<Input>, i: nat)
    requires Acceptable(files) && i < |files|
    ensures Start(files, 0) == HEADER_BYTES + ENTRY_BYTES * |files|
    ensures Start(files, i + 1) == Start(files, i) + |Bytes(files[i].content)|
    ensures Start(files, |files|) == |Image(files)| < 2 * 0x1_0000_0000
  {
    DataLength(files, |files|);
    var last := |files| - 1;
    assert Addressable(files, i) && Addressable(files, last);
    assert Start(files, last + 1) == Start(files, last) + FileSize(files[last].content);
  }

  /** Offsets, sizes and the file count survive the cast to 32 bits. */
  lemma {:induction false} CastsAreLossless(files: seq<Input>, i: nat)
    requires Acceptable(files) && i < |files|
    ensures ReadU32(U32(Start(files, i)), 0) == Start(files, i)
    ensures ReadU32(U32(FileSize(files[i].content)), 0) == |Bytes(files[i].content)|
    ensures ReadU32(U32(|files|), 0) == |files|
  {
    assert Addressable(files, i) && Addressable(files, 0);
    CastIsExactIff(Start(files, i));
    CastIsExactIff(FileSize(files[i].content));
    CastIsExactIff(|files|);
  }

  /** Names are NUL-terminated strings that fit the name field with their NUL. */
  predicate NamesFit(files: seq<Input>) {
    forall i | 0 <= i < |files| :: 0 !in BaseName(files[i].path) && |BaseName(files[i].path)| < NAME_BYTES
  }

  /** The image holds these bytes from p on. */
  predicate HasAt(image: seq<Byte>, p: nat, b: seq<Byte>) {
    p + |b| <= |image| && forall k {:trigger b[k]} | 0 <= k < |b| :: image[p + k] == b[k]
  }

  lemma HasAtSlice(image: seq<Byte>, p: nat, b: seq<Byte>)
    requires HasAt(image, p, b)
    ensures image[p..p + |b|] == b
  {
  }

  lemma HasAtPart(image: seq<Byte>, p: nat, b: seq<Byte>, lo: nat, part: seq<Byte>)
    requires HasAt(image, p, b) && HasAt(b, lo, part)
    ensures HasAt(image, p + lo, part)
  {
    forall k | 0 <= k < |part| ensures image[p + lo + k] == part[k] {
      assert b[lo + k] == part[k];
    }
  }

  lemma {:induction false} TableHas(files: seq<Input>, m: nat, i: nat)
    requires i < m <= |files|
    ensures HasAt(Table(files, m), ENTRY_BYTES * i, FileEntry(files, i))
  {
    var last, p, e := m - 1, ENTRY_BYTES * i, FileEntry(files, i);
    if i < last { TableHas(files, last, i); }
    forall k | 0 <= k < |e| ensures Table(files, m)[p + k] == e[k] {
      if i < last { assert Table(files, last)[p + k] == e[k]; }
    }
  }

  lemma {:induction false} DataHas(files: seq<Input>, m: nat, i: nat)
    requires i < m <= |files|
    ensures HasAt(Data(files, m), |Data(files, i)|, Bytes(files[i].content))
  {
    var last, p, c := m - 1, |Data(files, i)|, Bytes(files[i].content);
    if i < last { DataHas(files, last, i); }
    forall k | 0 <= k < |c| ensures Data(files, m)[p + k] == c[k] {
      if i < last { assert Data(files, last)[p + k] == c[k]; }
    }
  }

  lemma ConcatParts(a: seq<Byte>, b: seq<Byte>, c: seq<Byte>, d: seq<Byte>)
    ensures HasAt(a + b + c + d, 0, a) && HasAt(a + b + c + d, |a|, b)
    ensures HasAt(a + b + c + d, |a + b|, c) && HasAt(a + b + c + d, |a + b + c|, d)
  {
  }

  lemma SignatureBytes()
    ensures U32(SIGNATURE) == [0x58, 0x53, 0x52, 0x44]
  {
  }

  /** The image starts with the bytes 58 53 52 44 (hexadecimal). */
  lemma ImageStart(files: seq<Input>)
    ensures HasAt(Image(files), 0, [0x58, 0x53, 0x52, 0x44])
  {
    ImageIsImage(files);
    SignatureBytes();
  }

  /** Its entries are 264 bytes long from byte 8 on, and begin with 256 bytes for the name: its characters, then
      zeros. */
  lemma ImageHasName(files: seq<Input>, i: nat, k: nat)
    requires i < |files| && k < 256
    ensures var p, name := 8 + 264 * i + k, BaseName(files[i].path);
      p < |Image(files)| && Image(files)[p] == if k < |name| then name[k] else 0
  {
    var name := BaseName(files[i].path);
    var image, e := Image(files), FileEntry(files, i);
    ImageIsImage(files);
    ImageHasEntry(image, files, i);
    assert image[HEADER_BYTES + ENTRY_BYTES * i + k] == e[k] == NameField(name)[k];
  }

  /** The bytes of the image are where a reader looks for them. */
  predicate IsImage(image: seq<Byte>, files: seq<Input>) {
    && HasAt(image, 0, U32(SIGNATURE)) && HasAt(image, 4, U32(|files|))
    && HasAt(image, HEADER_BYTES, Table(files, |files|))
    && HasAt(image, HEADER_BYTES + ENTRY_BYTES * |files|, Data(files, |files|))
  }

  lemma {:induction false} ImageIsImage(files: seq<Input>)
    ensures IsImage(Image(files), files)
  {
    ConcatParts(U32(SIGNATURE), U32(|files|), Table(files, |files|), Data(files, |files|));
  }

  /** The entry of file i is where a reader looks for it. */
  lemma {:induction false} ImageHasEntry(image: seq<Byte>, files: seq<Input>, i: nat)
    requires IsImage(image, files) && i < |files|
    ensures HasAt(image, HEADER_BYTES + ENTRY_BYTES * i, FileEntry(files, i))
  {
    TableHas(files, |files|, i);
    HasAtPart(image, HEADER_BYTES, Table(files, |files|), ENTRY_BYTES * i, FileEntry(files, i));
  }

  /** The data of file i is where its entry says. */
  lemma {:induction false} ImageHasData(image: seq<Byte>, files: seq<Input>, i: nat)
    requires IsImage(image, files) && Acceptable(files) && i < |files|
    ensures files[i].content.Some? && HasAt(image, Start(files, i), files[i].content.value)
  {
    assert Addressable(files, i);
    var end, p := HEADER_BYTES + ENTRY_BYTES * |files|, |Data(files, i)|;
    DataHas(files, |files|, i);
    DataLength(files, i);
    HasAtPart(image, end, Data(files, |files|), p, Bytes(files[i].content));
  }

  /** A name that fits its field is read back from it, whatever follows. */
  lemma ReadNameBack(image: seq<Byte>, p: nat, name: seq<Byte>)
    requires HasAt(image, p, NameField(name)) && 0 !in name && |name| < NAME_BYTES
    ensures ReadString(image, p) == Some(name)
  {
    var field := NameField(name);
    assert field[|name|] == 0 && image[p + |name|] == field[|name|];
    forall h | p <= h < p + |name| ensures image[h] == name[h - p] && image[h] != 0 {
      assert field[h - p] == name[h - p] && name[h - p] in name;
    }
    var q := FirstZero(image, p);
    assert q == p + |name|;
    assert image[p..q] == name;
  }

  /** The name field gives a name back exactly when the name leaves room for its NUL. */
  lemma NameFitsIff(name: seq<Byte>)
    requires 0 !in name
    ensures ReadString(NameField(name), 0) == Some(name) <==> |name| < NAME_BYTES
  {
    var field := NameField(name);
    if |name| < NAME_BYTES {
      ReadNameBack(field, 0, name);
    } else {
      forall k | 0 <= k < NAME_BYTES ensures field[k] != 0 { assert name[k] in name; }
    }
  }

  lemma ReadU32Back(image: seq<Byte>, p: nat, v: nat)
    requires HasAt(image, p, U32(v)) && v <= UINT32_MAX
    ensures ReadU32(image, p) == v
  {
    var u := U32(v);
    assert image[p] == u[0] && image[p + 1] == u[1] && image[p + 2] == u[2] && image[p + 3] == u[3];
    CastIsExactIff(v);
  }

  /** The fields of an entry are where the layout puts them. */
  lemma EntryFields(image: seq<Byte>, p: nat, name: seq<Byte>, size: nat, offset: nat)
    requires HasAt(image, p, EntryBytes(name, size, offset))
    ensures HasAt(image, p, NameField(name))
    ensures HasAt(image, p + NAME_BYTES, U32(size)) && HasAt(image, p + NAME_BYTES + 4, U32(offset))
  {
    var e := EntryBytes(name, size, offset);
    forall k | 0 <= k < NAME_BYTES ensures image[p + k] == NameField(name)[k] {
      assert e[k] == NameField(name)[k];
    }
    forall k | 0 <= k < 4
      ensures image[p + NAME_BYTES + k] == U32(size)[k] && image[p + NAME_BYTES + 4 + k] == U32(offset)[k]
    {
      assert e[NAME_BYTES + k] == U32(size)[k] && e[NAME_BYTES + 4 + k] == U32(offset)[k];
    }
  }

  /** Behind its name an entry has the size and the offset, both cast to 32 bits. */
  lemma {:induction false} ImageHasExtent(files: seq<Input>, i: nat)
    requires i < |files|
    ensures HasAt(Image(files), 8 + 264 * i + 256, U32(FileSize(files[i].content)))
    ensures HasAt(Image(files), 8 + 264 * i + 260, U32(Start(files, i)))
  {
    var image, p := Image(files), HEADER_BYTES + ENTRY_BYTES * i;
    ImageIsImage(files);
    ImageHasEntry(image, files, i);
    EntryFields(image, p, BaseName(files[i].path), FileSize(files[i].content), Start(files, i));
  }

  /** Reading an entry and following it to the data. */
  lemma ReadFileBack(image: seq<Byte>, i: nat, name: seq<Byte>, content: seq<Byte>, offset: nat)
    requires var p := HEADER_BYTES + ENTRY_BYTES * i;
      HasAt(image, p, NameField(name)) && HasAt(image, p + NAME_BYTES, U32(|content|))
      && HasAt(image, p + NAME_BYTES + 4, U32(offset))
    requires HasAt(image, offset, content)
    requires 0 !in name && |name| < NAME_BYTES && |content| <= UINT32_MAX && offset <= UINT32_MAX
    ensures ReadFile(image, i) == Some(NamedFile(name, content))
  {
    var p := HEADER_BYTES + ENTRY_BYTES * i;
    ReadNameBack(image, p, name);
    ReadU32Back(image, p + NAME_BYTES, |content|);
    ReadU32Back(image, p + NAME_BYTES + 4, offset);
    HasAtSlice(image, offset, content);
  }

  /** What a reader should get: the base names and the bytes. */
  function Originals(files: seq<Input>, n: nat): seq<NamedFile>
    requires n <= |files|
  {
    if n == 0 then []
    else Originals(files, n - 1) + [NamedFile(BaseName(files[n - 1].path), Bytes(files[n - 1].content))]
  }

  lemma {:induction false} ReadBack(image: seq<Byte>, files: seq<Input>, i: nat)
    requires IsImage(image, files) && Acceptable(files) && NamesFit(files) && i < |files|
    ensures ReadFile(image, i) == Some(NamedFile(BaseName(files[i].path), Bytes(files[i].content)))
  {
    var name, c := BaseName(files[i].path), Bytes(files[i].content);
    assert Addressable(files, i);
    ImageHasEntry(image, files, i);
    EntryFields(image, HEADER_BYTES + ENTRY_BYTES * i, name, |c|, Start(files, i));
    ImageHasData(image, files, i);
    ReadFileBack(image, i, name, c, Start(files, i));
  }

  lemma {:induction false} ReadOneMore(image: seq<Byte>, files: seq<Input>, n: nat)
    requires IsImage(image, files) && Acceptable(files) && NamesFit(files) && n < |files|
    requires ReadFiles(image, n) == Some(Originals(files, n))
    ensures ReadFiles(image, n + 1) == Some(Originals(files, n + 1))
  {
    ReadBack(image, files, n);
  }

  lemma {:induction false} ReadFilesBack(image: seq<Byte>, files: seq<Input>, n: nat)
    requires IsImage(image, files) && Acceptable(files) && NamesFit(files) && n <= |files|
    ensures ReadFiles(image, n) == Some(Originals(files, n))
  {
    if n > 0 {
      var m := n - 1;
      ReadFilesBack(image, files, m);
      ReadOneMore(image, files, m);
    }
  }

  lemma {:induction false} ReadHeaderBack(image: seq<Byte>, files: seq<Input>)
    requires IsImage(image, files) && Acceptable(files)
    ensures |image| >= HEADER_BYTES && ReadU32(image, 0) == SIGNATURE && ReadU32(image, 4) == |files|
  {
    assert Addressable(files, 0);
    ReadU32Back(image, 0, SIGNATURE);
    ReadU32Back(image, 4, |files|);
  }

  /** Reading the image of an accepted file list gives back its base names and bytes. */
  lemma {:induction false} RoundTrip(files: seq<Input>)
    requires Encode(files).Ok? && NamesFit(files)
    ensures Decode(Encode(files).value) == Some(Originals(files, |files|))
  {
    AcceptedIff(files);
    var image := Encode(files).value;
    ImageIsImage(files);
    ReadHeaderBack(image, files);
    ReadFilesBack(image, files, |files|);
  }
}
