/**
 The RAM file system: the image that tools/mkramfs writes and the reader in system/ramfs.c. The image
 is a 32-byte header, a 32-byte header per file, and page-aligned file data. Reading back any name
 from a written image is proved to give that file's bytes.
 */
module RamFs {
  import opened Machine
  import opened ByteOrder

  const MAGIC: nat := 0x0101CA75
  const VERSION: nat := 10

  // ---------------------------------------------------------------------------------------
  // The image
  // ---------------------------------------------------------------------------------------

  datatype File = File(name: seq<byte>, data: seq<byte>)

  /** How many pages `n` bytes take. */
  function Pages(n: nat): (p: nat)
    ensures n <= PAGE_SIZE * p < n + PAGE_SIZE
  {
    (n + PAGE_SIZE - 1) / PAGE_SIZE
  }

  function PageUp(n: nat): (m: nat)
    ensures n <= m
  {
    PAGE_SIZE * Pages(n)
  }

  function HeadersEnd(count: nat): nat {
    32 + 32 * count
  }

  /** The page on which the data of file `i` starts. */
  function StartPage(files: seq<File>, i: nat): (p: nat)
    requires i <= |files|
    ensures HeadersEnd(|files|) <= PAGE_SIZE * p
  {
    if i == 0 then Pages(HeadersEnd(|files|)) else StartPage(files, i - 1) + Pages(|files[i - 1].data|)
  }

  function DataStart(files: seq<File>, i: nat): nat
    requires i <= |files|
  {
    PAGE_SIZE * StartPage(files, i)
  }

  /** What strncpy leaves in a zeroed 16-byte field. */
  function NameField(name: seq<byte>): (b: seq<byte>)
    ensures |b| == 16
  {
    var kept := if |name| <= 15 then name else name[..15];
    kept + Zeros(16 - |kept|)
  }

  function HeadBytes(size: nat, count: nat): (b: seq<byte>)
    ensures |b| == 32
  {
    Encode(MAGIC, INT) + Encode(VERSION, INT) + Encode(size, LONG) + Encode(count, LONG) + Zeros(8)
  }

  /** The header of file `i`; its first field counts from the header itself. */
  function FileHeader(files: seq<File>, i: nat): (b: seq<byte>)
    requires i < |files|
    ensures |b| == 32
  {
    Encode(DataStart(files, i) - HeadersEnd(i), LONG) + Encode(|files[i].data|, LONG) + NameField(files[i].name)
  }

  function FileHeaders(files: seq<File>, n: nat): (b: seq<byte>)
    requires n <= |files|
    ensures |b| == 32 * n
  {
    if n == 0 then [] else FileHeaders(files, n - 1) + FileHeader(files, n - 1)
  }

  function Padded(data: seq<byte>): (b: seq<byte>)
    ensures |b| == PageUp(|data|)
  {
    data + Zeros(PageUp(|data|) - |data|)
  }

  function AllData(files: seq<File>, n: nat): (b: seq<byte>)
    requires n <= |files|
  {
    if n == 0 then [] else AllData(files, n - 1) + Padded(files[n - 1].data)
  }

  lemma {:induction false} AllDataEnds(files: seq<File>, n: nat)
    requires n <= |files|
    ensures DataStart(files, 0) + |AllData(files, n)| == DataStart(files, n)
  {
    if n > 0 { AllDataEnds(files, n - 1); }
  }

  function Image(files: seq<File>): (b: seq<byte>)
    ensures |b| == DataStart(files, |files|)
  {
    AllDataEnds(files, |files|);
    Front(files) + AllData(files, |files|)
  }

  lemma {:induction false} FileHeaderAt(files: seq<File>, n: nat, i: nat)
    requires i < n <= |files|
    ensures FileHeaders(files, n)[32 * i..32 * i + 32] == FileHeader(files, i)
  {
    var before := FileHeaders(files, n - 1);
    if i < n - 1 {
      FileHeaderAt(files, n - 1, i);
      assert FileHeaders(files, n)[32 * i..32 * i + 32] == before[32 * i..32 * i + 32];
    }
  }

  lemma {:induction false} StartAligned(files: seq<File>, i: nat)
    requires i <= |files|
    ensures DataStart(files, i) % PAGE_SIZE == 0
  {
    WholePages(StartPage(files, i));
  }

  lemma {:induction false} WholePages(k: nat)
    ensures (PAGE_SIZE * k) % PAGE_SIZE == 0
  {
  }

  lemma {:induction false} StartsGrow(files: seq<File>, i: nat, n: nat)
    requires i <= n <= |files|
    ensures HeadersEnd(|files|) <= DataStart(files, i) <= DataStart(files, n)
    ensures i < n ==> DataStart(files, i) + |files[i].data| <= DataStart(files, i + 1) <= DataStart(files, n)
  {
    if i < n { StartsGrow(files, i, n - 1); }
  }

  lemma {:induction false} PaddedKeeps(data: seq<byte>)
    ensures Padded(data)[..|data|] == data
  {
  }

  lemma {:induction false} LastData(files: seq<File>, i: nat)
    requires i < |files|
    ensures var p := |AllData(files, i)|;
      p + |files[i].data| <= |AllData(files, i + 1)| && AllData(files, i + 1)[p..p + |files[i].data|] == files[i].data
  {
    var p, data := |AllData(files, i)|, files[i].data;
    PaddedKeeps(data);
    SliceRight(AllData(files, i), Padded(data), p, p + |data|);
  }

  lemma {:induction false} DataAt(files: seq<File>, n: nat, i: nat)
    requires i < n <= |files|
    ensures var p := |AllData(files, i)|;
      p + |files[i].data| <= |AllData(files, n)| && AllData(files, n)[p..p + |files[i].data|] == files[i].data
  {
    if i < n - 1 {
      DataAt(files, n - 1, i);
      var p := |AllData(files, i)|;
      SliceLeft(AllData(files, n - 1), Padded(files[n - 1].data), p, p + |files[i].data|);
    } else {
      LastData(files, i);
    }
  }

  /** The bytes before the file data. */
  function Front(files: seq<File>): (b: seq<byte>)
    ensures |b| == DataStart(files, 0)
  {
    var n := |files|;
    HeadBytes(DataStart(files, n), n) + FileHeaders(files, n) + Zeros(DataStart(files, 0) - HeadersEnd(n))
  }

  lemma {:induction false} HeaderInImage(files: seq<File>, i: nat)
    requires i < |files|
    ensures HeadersEnd(i + 1) <= |Image(files)|
    ensures Image(files)[HeadersEnd(i)..HeadersEnd(i + 1)] == FileHeader(files, i)
  {
    var n := |files|;
    var head, headers := HeadBytes(DataStart(files, n), n), FileHeaders(files, n);
    var pad := Zeros(DataStart(files, 0) - HeadersEnd(n));
    var lo, hi := HeadersEnd(i), HeadersEnd(i + 1);
    SliceLeft(head + headers + pad, AllData(files, n), lo, hi);
    SliceLeft(head + headers, pad, lo, hi);
    SliceRight(head, headers, lo, hi);
    FileHeaderAt(files, n, i);
  }

  lemma {:induction false} DataInImage(files: seq<File>, i: nat)
    requires i < |files|
    ensures DataStart(files, i) + |files[i].data| <= |Image(files)|
    ensures Image(files)[DataStart(files, i)..DataStart(files, i) + |files[i].data|] == files[i].data
  {
    DataAt(files, |files|, i);
    AllDataEnds(files, i);
    Behind(Front(files), AllData(files, |files|), |AllData(files, i)|, files[i].data);
  }

  // ---------------------------------------------------------------------------------------
  // Reading
  // ---------------------------------------------------------------------------------------

  /** is_valid_ramfs; an empty sequence stands for a null pointer. */
  predicate IsValid(mem: seq<byte>)
    requires mem != [] ==> |mem| >= 32
  {
    mem != [] && Decode(mem[0..4]) == MAGIC && Decode(mem[4..8]) == VERSION
  }

  function Size(mem: seq<byte>): nat
    requires |mem| >= 32
  {
    Decode(mem[8..16])
  }

  function Count(mem: seq<byte>): nat
    requires |mem| >= 32
  {
    Decode(mem[16..24])
  }

  /** Character `i` of a C string. */
  function CharAt(s: seq<byte>, i: nat): byte {
    if i < |s| then s[i] else 0
  }

  /** `strncmp(name, mem + pos, 24) == 0`, from character `i` on; it may read past the 16-byte name field. */
  predicate SameFrom(name: seq<byte>, mem: seq<byte>, pos: nat, i: nat)
    decreases 24 - i
  {
    if i >= 24 then true
    else if CharAt(name, i) != CharAt(mem, pos + i) then false
    else CharAt(name, i) == 0 || SameFrom(name, mem, pos, i + 1)
  }

  /** The test for one file header at `at`. */
  predicate HeaderMatches(mem: seq<byte>, at: nat, name: seq<byte>)
    requires at + 32 <= |mem|
  {
    mem[at + 16] != 0 && SameFrom(name, mem, at + 16, 0)
  }

  /** The memory holds all the headers it claims to have. */
  predicate Readable(mem: seq<byte>) {
    mem != [] ==> |mem| >= 32 && (IsValid(mem) ==> |mem| >= HeadersEnd(Count(mem)))
  }

  /** The header of the first file with that name is at `r`. */
  ghost predicate FirstMatch(mem: seq<byte>, name: seq<byte>, r: Option<nat>)
    requires Readable(mem)
  {
    if mem == [] || !IsValid(mem) then r == None
    else match r
      case None => forall i :: 0 <= i < Count(mem) ==> !HeaderMatches(mem, HeadersEnd(i), name)
      case Some(at) => exists i: nat :: i < Count(mem) && at == HeadersEnd(i) && MatchesFirst(mem, name, i)
  }

  ghost predicate MatchesFirst(mem: seq<byte>, name: seq<byte>, i: nat)
    requires HeadersEnd(i + 1) <= |mem|
  {
    HeaderMatches(mem, HeadersEnd(i), name) && forall j :: 0 <= j < i ==> !HeaderMatches(mem, HeadersEnd(j), name)
  }

  /** ramfs_find_file. */
  method FindFile(mem: seq<byte>, name: seq<byte>) returns (r: Option<nat>)
    requires Readable(mem)
    ensures FirstMatch(mem, name, r)
  {
    if mem == [] || !IsValid(mem) {
      return None;
    }
    var current := 32;
    for i := 0 to Count(mem)
      invariant current == HeadersEnd(i)
      invariant forall j :: 0 <= j < i ==> !HeaderMatches(mem, HeadersEnd(j), name)
    {
      if mem[current + 16] != 0 && SameFrom(name, mem, current + 16, 0) {
        assert MatchesFirst(mem, name, i);
        return Some(current);
      }
      current := current + 32;
    }
    r := None;
  }

  /** ramfs_file_open of the header at `at`: where the data starts. */
  function Open(mem: seq<byte>, at: nat): Option<nat>
    requires at + 32 <= |mem|
  {
    var start, length := Decode(mem[at..at + 8]), Decode(mem[at + 8..at + 16]);
    if length == 0 || start == 0 then None else Some(at + start)
  }

  function Length(mem: seq<byte>, at: nat): nat
    requires at + 32 <= |mem|
  {
    Decode(mem[at + 8..at + 16])
  }

  // ---------------------------------------------------------------------------------------
  // Round trip
  // ---------------------------------------------------------------------------------------

  predicate Text(name: seq<byte>) {
    forall i :: 0 <= i < |name| ==> name[i] != 0
  }

  /** What mkramfs accepts: names of at most 15 characters, and an image whose size is a 64-bit number. */
  ghost predicate Acceptable(files: seq<File>) {
    && (forall i :: 0 <= i < |files| ==> Text(files[i].name) && |files[i].name| <= 15)
    && DataStart(files, |files|) < TWO_64
  }

  /** A stored name matches exactly the same name, whatever follows its field. */
  lemma {:induction false} FieldMatches(name: seq<byte>, stored: seq<byte>, mem: seq<byte>, pos: nat, i: nat)
    requires Text(name) && Text(stored) && |stored| <= 15
    requires pos + 16 <= |mem| && mem[pos..pos + 16] == NameField(stored)
    requires i <= |name| && i <= |stored| && name[..i] == stored[..i]
    ensures SameFrom(name, mem, pos, i) <==> name == stored
    decreases |stored| - i
  {
    assert CharAt(mem, pos + i) == mem[pos..pos + 16][i] == NameField(stored)[i];
    if i < |stored| && i < |name| && name[i] == stored[i] {
      assert name[..i + 1] == name[..i] + [name[i]] && stored[..i + 1] == stored[..i] + [stored[i]];
      FieldMatches(name, stored, mem, pos, i + 1);
    } else {
      assert name == stored ==> i == |stored|;
      assert i == |stored| == |name| ==> name[..i] == name && stored[..i] == stored;
    }
  }

  lemma {:induction false} HeadSlices(size: nat, count: nat, rest: seq<byte>)
    ensures var mem := HeadBytes(size, count) + rest;
      && mem[0..4] == Encode(MAGIC, INT) && mem[4..8] == Encode(VERSION, INT)
      && mem[8..16] == Encode(size, LONG) && mem[16..24] == Encode(count, LONG)
  {
  }

  lemma {:induction false} HeadDecodes(size: nat, count: nat, rest: seq<byte>)
    requires size < TWO_64 && count < TWO_64
    ensures var mem := HeadBytes(size, count) + rest; IsValid(mem) && Size(mem) == size && Count(mem) == count
  {
    HeadSlices(size, count, rest);
    Limits();
    DecodeEncode(MAGIC, INT);
    DecodeEncode(VERSION, INT);
    DecodeEncode(size, LONG);
    DecodeEncode(count, LONG);
  }

  /** The written image validates, and its header tells its size and the number of files. */
  lemma {:induction false} HeadReads(files: seq<File>)
    requires Acceptable(files)
    ensures var mem := Image(files); |mem| >= 32 && IsValid(mem) && Size(mem) == |mem| && Count(mem) == |files|
    ensures Decode(Image(files)[8..16]) == |Image(files)| && Decode(Image(files)[16..24]) == |files|
  {
    var n := |files|;
    var headers, pad := FileHeaders(files, n), Zeros(DataStart(files, 0) - HeadersEnd(n));
    var head := HeadBytes(DataStart(files, n), n);
    StartsGrow(files, 0, n);
    HeadDecodes(DataStart(files, n), n, headers + (pad + AllData(files, n)));
    Assoc(head + headers, pad, AllData(files, n));
    Assoc(head, headers, pad + AllData(files, n));
  }

  lemma {:induction false} HeaderSlices(start: nat, length: nat, name: seq<byte>)
    ensures var b := Encode(start, LONG) + Encode(length, LONG) + NameField(name);
      b[0..8] == Encode(start, LONG) && b[8..16] == Encode(length, LONG) && b[16..32] == NameField(name)
  {
  }

  /** A header found at `at` decodes to what was encoded in it. */
  lemma {:induction false} HeaderDecodes(mem: seq<byte>, at: nat, start: nat, length: nat, name: seq<byte>)
    requires at + 32 <= |mem| && mem[at..at + 32] == Encode(start, LONG) + Encode(length, LONG) + NameField(name)
    requires start < TWO_64 && length < TWO_64
    ensures mem[at + 16..at + 32] == NameField(name)
    ensures Decode(mem[at..at + 8]) == start && Decode(mem[at + 8..at + 16]) == length
  {
    HeaderSlices(start, length, name);
    SubSlice(mem, at, at + 32, 0, 8);
    SubSlice(mem, at, at + 32, 8, 16);
    SubSlice(mem, at, at + 32, 16, 32);
    Limits();
    DecodeEncode(start, LONG);
    DecodeEncode(length, LONG);
  }

  /** The fields of a written file header, read back. */
  lemma {:induction false} HeaderReads(files: seq<File>, i: nat)
    requires Acceptable(files) && i < |files|
    ensures HeadersEnd(i) == 32 + 32 * i
    ensures var mem, at := Image(files), HeadersEnd(i);
      && at + 32 <= |mem| && mem[at + 16..at + 32] == NameField(files[i].name)
      && Decode(mem[at..at + 8]) == DataStart(files, i) - at && Decode(mem[at + 8..at + 16]) == |files[i].data|
  {
    HeaderInImage(files, i);
    StartsGrow(files, i, |files|);
    HeaderReadsIn(files, i, Image(files));
  }

  lemma {:induction false} HeaderReadsIn(files: seq<File>, i: nat, mem: seq<byte>)
    requires i < |files| && HeadersEnd(i) + 32 <= |mem|
    requires mem[HeadersEnd(i)..HeadersEnd(i) + 32] == FileHeader(files, i)
    requires DataStart(files, i) + |files[i].data| < TWO_64
    ensures var at := HeadersEnd(i);
      && mem[at + 16..at + 32] == NameField(files[i].name)
      && Decode(mem[at..at + 8]) == DataStart(files, i) - at && Decode(mem[at + 8..at + 16]) == |files[i].data|
  {
    HeaderDecodes(mem, HeadersEnd(i), DataStart(files, i) - HeadersEnd(i), |files[i].data|, files[i].name);
  }

  lemma {:induction false} NameMatches(mem: seq<byte>, at: nat, stored: seq<byte>, name: seq<byte>)
    requires at + 32 <= |mem| && mem[at + 16..at + 32] == NameField(stored)
    requires Text(name) && Text(stored) && |stored| <= 15
    ensures HeaderMatches(mem, at, name) <==> name != [] && stored == name
  {
    FieldMatches(name, stored, mem, at + 16, 0);
    assert mem[at + 16] == mem[at + 16..at + 32][0] == NameField(stored)[0];
  }

  /** `mem` reads as an image of `files`: its header, every file header, and every file's data where `at` says. */
  ghost predicate ReadsAs(files: seq<File>, mem: seq<byte>) {
    && |mem| >= HeadersEnd(|files|) && IsValid(mem) && Size(mem) == |mem| && Count(mem) == |files|
    && forall i :: 0 <= i < |files| ==> FileReads(files, i, mem)
  }

  ghost predicate FileReads(files: seq<File>, i: nat, mem: seq<byte>)
    requires i < |files| && |mem| >= HeadersEnd(|files|)
  {
    var at, p, data := HeadersEnd(i), DataStart(files, i), files[i].data;
    && Text(files[i].name) && |files[i].name| <= 15 && mem[at + 16..at + 32] == NameField(files[i].name)
    && at < p && Decode(mem[at..at + 8]) == p - at && Decode(mem[at + 8..at + 16]) == |data|
    && p + |data| <= |mem| && mem[p..p + |data|] == data
  }

  lemma {:induction false} FileInImage(files: seq<File>, i: nat)
    requires Acceptable(files) && i < |files|
    ensures |Image(files)| >= HeadersEnd(|files|) && FileReads(files, i, Image(files))
  {
    HeaderReads(files, i);
    DataInImage(files, i);
    StartsGrow(files, i, |files|);
  }

  /** What is written reads as the files it was written from. */
  lemma {:induction false} ImageReads(files: seq<File>)
    requires Acceptable(files)
    ensures ReadsAs(files, Image(files))
  {
    HeadReads(files);
    StartsGrow(files, 0, |files|);
    forall i | 0 <= i < |files| ensures FileReads(files, i, Image(files)) { FileInImage(files, i); }
  }

  /** The first file of that name, or the number of files. */
  function IndexOf(files: seq<File>, name: seq<byte>): (i: nat)
    ensures i <= |files| && (i < |files| ==> files[i].name == name)
    ensures forall j :: 0 <= j < i ==> files[j].name != name
  {
    if files == [] || files[0].name == name then 0 else 1 + IndexOf(files[1..], name)
  }

  /**
   Finding a name in a written image: the header of the first file so called, or nothing when there is
   none. The empty name is never found.
   */
  lemma {:induction false} FindReads(files: seq<File>, mem: seq<byte>, name: seq<byte>, r: Option<nat>)
    requires ReadsAs(files, mem) && Text(name)
    ensures Readable(mem)
    ensures FirstMatch(mem, name, r) <==>
      r == if name != [] && IndexOf(files, name) < |files| then Some(HeadersEnd(IndexOf(files, name))) else None
  {
    var k := IndexOf(files, name);
    forall i | 0 <= i < |files|
      ensures HeaderMatches(mem, HeadersEnd(i), name) <==> name != [] && files[i].name == name
    {
      assert FileReads(files, i, mem);
      NameMatches(mem, HeadersEnd(i), files[i].name, name);
    }
    if name != [] && k < |files| {
      assert MatchesFirst(mem, name, k);
      assert FirstMatch(mem, name, Some(HeadersEnd(k)));
    }
  }

  /** Opening file `i` of a written image gives exactly its bytes; an empty file does not open. */
  lemma {:induction false} OpenReads(files: seq<File>, mem: seq<byte>, i: nat)
    requires ReadsAs(files, mem) && i < |files|
    ensures Length(mem, HeadersEnd(i)) == |files[i].data|
    ensures Open(mem, HeadersEnd(i)) == if files[i].data == [] then None else Some(DataStart(files, i))
    ensures DataStart(files, i) + |files[i].data| <= |mem|
    ensures mem[DataStart(files, i)..DataStart(files, i) + |files[i].data|] == files[i].data
  {
    assert FileReads(files, i, mem);
  }

  /** Every data area is page-aligned, behind the headers, and inside an image of a whole number of pages. */
  lemma {:induction false} Layout(files: seq<File>, i: nat)
    requires i < |files|
    ensures HeadersEnd(|files|) <= DataStart(files, i) && DataStart(files, i) % PAGE_SIZE == 0
    ensures DataStart(files, i) + |files[i].data| <= |Image(files)| && |Image(files)| % PAGE_SIZE == 0
  {
    StartsGrow(files, i, |files|);
    StartAligned(files, i);
    StartAligned(files, |files|);
  }

  /** The data areas of two files do not meet. */
  lemma {:induction false} DataApart(files: seq<File>, i: nat, j: nat)
    requires i < |files| && j < |files| && i != j
    ensures DataStart(files, i) + |files[i].data| <= DataStart(files, j)
      || DataStart(files, j) + |files[j].data| <= DataStart(files, i)
  {
    if i < j {
      StartsGrow(files, i, j);
    } else {
      StartsGrow(files, j, i);
    }
  }

  /** The eight bytes that make an image: the magic number and version 10, lowest byte first. */
  predicate HasMagic(mem: seq<byte>)
    requires |mem| >= 8
  {
    && mem[0] == 0x75 && mem[1] == 0xCA && mem[2] == 0x01 && mem[3] == 0x01
    && mem[4] == 10 && mem[5] == 0 && mem[6] == 0 && mem[7] == 0
  }

  /** The bytes of the two numbers. */
  lemma {:induction false} MagicBytes()
    ensures Encode(MAGIC, INT) == [0x75, 0xCA, 0x01, 0x01] && Encode(VERSION, INT) == [10, 0, 0, 0]
  {
    assert Encode(0x01, 1) == [0x01] && Encode(0x0101, 2) == [0x01, 0x01] && Encode(0x0101CA, 3) == [0xCA, 0x01, 0x01];
    assert Encode(0, 1) == [0] && Encode(0, 2) == [0, 0] && Encode(0, 3) == [0, 0, 0];
  }

  lemma {:induction false} FieldIs(b: seq<byte>, x: nat)
    requires x < Limit(|b|)
    ensures Decode(b) == x <==> b == Encode(x, |b|)
  {
    DecodeEncode(x, |b|);
    EncodeDecode(b);
  }

  /** An image is valid exactly with these bytes, whatever follows. */
  lemma {:induction false} ValidExactly(mem: seq<byte>)
    requires |mem| >= 32
    ensures IsValid(mem) <==> HasMagic(mem)
  {
    Limits();
    MagicBytes();
    FieldIs(mem[0..4], MAGIC);
    FieldIs(mem[4..8], VERSION);
    assert mem[0..4] == [mem[0], mem[1], mem[2], mem[3]] && mem[4..8] == [mem[4], mem[5], mem[6], mem[7]];
  }

  /** Anything else is refused by every reader. */
  lemma {:induction false} InvalidRefused(mem: seq<byte>, name: seq<byte>, r: Option<nat>)
    requires (mem == [] || (|mem| >= 32 && !HasMagic(mem))) && Readable(mem)
    ensures RamfsSize(mem) == -1 && RamfsFileCount(mem) == -1 && (FirstMatch(mem, name, r) <==> r == None)
  {
    if mem != [] { ValidExactly(mem); }
  }

  /** What C makes of a 64-bit value that is returned as an int. */
  function ToInt(x: nat): int {
    var low := x % TWO_32;
    if low < 0x8000_0000 then low else low - TWO_32
  }

  /** ramfs_size and ramfs_file_count. */
  function RamfsSize(mem: seq<byte>): int
    requires mem != [] ==> |mem| >= 32
  {
    if IsValid(mem) then ToInt(Size(mem)) else -1
  }

  function RamfsFileCount(mem: seq<byte>): int
    requires mem != [] ==> |mem| >= 32
  {
    if IsValid(mem) then ToInt(Count(mem)) else -1
  }

  /** Of a written image they tell the truth exactly below 2^31. */
  lemma {:induction false} SizeReadsExactly(files: seq<File>)
    requires Acceptable(files)
    ensures |Image(files)| >= 32
    ensures RamfsSize(Image(files)) == |Image(files)| <==> |Image(files)| < 0x8000_0000
    ensures RamfsFileCount(Image(files)) == |files| <==> |files| < 0x8000_0000
  {
    HeadReads(files);
    ToIntExactly(|Image(files)|);
    ToIntExactly(|files|);
  }

  /** One file of 2 GiB: the size that is returned is not that of the image. */
  lemma LargeImageMisreads()
    ensures var files := [File([65], Zeros(0x8000_0000))];
      Acceptable(files) && |Image(files)| >= 32 && RamfsSize(Image(files)) != |Image(files)|
  {
    var files := [File([65], Zeros(0x8000_0000))];
    assert StartPage(files, 0) == 1 && StartPage(files, 1) == 0x8_0001;
    Layout(files, 0);
    SizeReadsExactly(files);
  }

  lemma ToIntExactly(x: nat)
    ensures ToInt(x) == x <==> x < 0x8000_0000
  {
  }

  // ---------------------------------------------------------------------------------------
  // Writing
  // ---------------------------------------------------------------------------------------

  function Patched(out: seq<byte>, at: nat, b: seq<byte>): (r: seq<byte>)
    requires at + |b| <= |out|
    ensures |r| == |out|
  {
    out[..at] + b + out[at + |b|..]
  }

  /** The copy loop for one file: its bytes, a buffer at a time. */
  method CopyData(out: seq<byte>, data: seq<byte>) returns (r: seq<byte>)
    ensures r == out + data
  {
    r := out;
    var done := 0;
    while done < |data|
      invariant done <= |data| && r == out + data[..done]
    {
      var n := if |data| - done < PAGE_SIZE then |data| - done else PAGE_SIZE;
      r := r + data[done..done + n];
      assert data[..done] + data[done..done + n] == data[..done + n];
      done := done + n;
    }
    assert data[..done] == data;
  }

  /** The loop that adds one zero byte at a time. */
  method Pad(out: seq<byte>, n: nat) returns (r: seq<byte>)
    ensures r == out + Zeros(n)
  {
    r := out;
    for j := 0 to n
      invariant r == out + Zeros(j)
    {
      r := r + [0];
    }
  }

  lemma {:induction false} PatchMiddle(a: seq<byte>, x: seq<byte>, b: seq<byte>, y: seq<byte>)
    requires |x| == |y|
    ensures Patched(a + x + b, |a|, y) == a + y + b
  {
  }

  /** The two patches turn the place-holders into the image. */
  lemma {:induction false} PatchesGive(size: nat, n: nat, blank: seq<byte>, headers: seq<byte>, rest: seq<byte>)
    requires |blank| == |headers|
    ensures Patched(Patched(HeadBytes(0, n) + blank + rest, 32, headers), 8, Encode(size, LONG)) ==
      HeadBytes(size, n) + headers + rest
  {
    PatchMiddle(HeadBytes(0, n), blank, rest, headers);
    var a, b := Encode(MAGIC, INT) + Encode(VERSION, INT), Encode(n, LONG) + Zeros(8) + headers + rest;
    PatchMiddle(a, Encode(0, LONG), b, Encode(size, LONG));
    assert HeadBytes(0, n) + headers + rest == a + Encode(0, LONG) + b;
    assert HeadBytes(size, n) + headers + rest == a + Encode(size, LONG) + b;
  }

  /** Padding from a page-aligned offset fills the file's last page. */
  lemma {:induction false} PadAmount(page: nat, length: nat)
    ensures (PAGE_SIZE - (PAGE_SIZE * page + length) % PAGE_SIZE) % PAGE_SIZE == PageUp(length) - length
  {
  }

  /** The data of one file and the padding after it. */
  method AppendFile(out: seq<byte>, data: seq<byte>, offset: nat, ghost page: nat) returns (r: seq<byte>, next: nat)
    requires offset == PAGE_SIZE * page
    ensures r == out + Padded(data) && next == offset + PageUp(|data|)
  {
    PadAmount(page, |data|);
    r := CopyData(out, data);
    next := offset + |data|;
    var pad := (PAGE_SIZE - next % PAGE_SIZE) % PAGE_SIZE;
    r := Pad(r, pad);
    next := next + pad;
  }

  /** The place-holders, before anything is patched. */
  function Blank(files: seq<File>): (b: seq<byte>)
    ensures |b| == DataStart(files, 0)
  {
    HeadBytes(0, |files|) + Zeros(32 * |files|) + Zeros(DataStart(files, 0) - HeadersEnd(|files|))
  }

  lemma {:induction false} BlankSize(files: seq<File>)
    ensures |Blank(files) + AllData(files, |files|)| == DataStart(files, |files|) >= HeadersEnd(|files|)
  {
    AllDataEnds(files, |files|);
    StartsGrow(files, 0, |files|);
  }

  lemma {:induction false} PatchesGiveAll(
    size: nat, n: nat, blank: seq<byte>, headers: seq<byte>, pad: seq<byte>, data: seq<byte>)
    requires |blank| == |headers|
    ensures Patched(Patched(HeadBytes(0, n) + blank + pad + data, 32, headers), 8, Encode(size, LONG)) ==
      HeadBytes(size, n) + headers + pad + data
  {
    PatchesGive(size, n, blank, headers, pad + data);
    Assoc(HeadBytes(0, n) + blank, pad, data);
    Assoc(HeadBytes(size, n) + headers, pad, data);
  }

  lemma {:induction false} PatchedImage(files: seq<File>, size: nat)
    requires size == DataStart(files, |files|)
    ensures var n := |files|; var out := Blank(files) + AllData(files, n);
      && |out| == size >= HeadersEnd(n)
      && Patched(Patched(out, 32, FileHeaders(files, n)), 8, Encode(size, LONG)) == Image(files)
  {
    var n := |files|;
    BlankSize(files);
    var pad, data := Zeros(DataStart(files, 0) - HeadersEnd(n)), AllData(files, n);
    PatchesGiveAll(size, n, Zeros(32 * n), FileHeaders(files, n), pad, data);
  }

  /** A whole number of pages is not rounded up. */
  lemma {:induction false} WholePagesStay(k: nat)
    ensures PageUp(PAGE_SIZE * k) == PAGE_SIZE * k
  {
  }

  /** write_filesystem: place-holder headers, padded data, then the real headers and the size patched in. */
  method WriteFilesystem(files: seq<File>) returns (out: seq<byte>)
    ensures out == Image(files)
  {
    var headers;
    out, headers := WriteData(files);
    ghost var size := DataStart(files, |files|);
    PatchedImage(files, size);
    WholePagesStay(StartPage(files, |files|));
    out := Patched(out, 32, headers);
    out := Patched(out, 8, Encode(PageUp(|out|), LONG));
  }

  /** Fills in the header of file `i`. */
  method MakeHeader(files: seq<File>, i: nat, offset: nat) returns (header: seq<byte>)
    requires i < |files| && offset == DataStart(files, i)
    ensures header == FileHeader(files, i)
  {
    var start := offset - (32 + i * 32);
    header := Encode(start, LONG) + Encode(|files[i].data|, LONG) + NameField(files[i].name);
  }

  /** The first pass of write_filesystem. */
  method WriteData(files: seq<File>) returns (out: seq<byte>, headers: seq<byte>)
    ensures out == Blank(files) + AllData(files, |files|) && headers == FileHeaders(files, |files|)
  {
    var n := |files|;
    var offset := PageUp(32 + n * 32);
    out := Pad(HeadBytes(0, n) + Zeros(32 * n), offset - (32 + n * 32));
    assert out == Blank(files);
    headers := [];
    for i := 0 to n
      invariant offset == DataStart(files, i) && headers == FileHeaders(files, i)
      invariant out == Blank(files) + AllData(files, i)
    {
      var header := MakeHeader(files, i, offset);
      headers := headers + header;
      Assoc(Blank(files), AllData(files, i), Padded(files[i].data));
      out, offset := AppendFile(out, files[i].data, offset, StartPage(files, i));
    }
  }

  /** The bytes of the file whose header is at `at`, through ramfs_file_open. */
  function Fetch(mem: seq<byte>, at: nat): Option<seq<byte>>
    requires at + 32 <= |mem|
  {
    match Open(mem, at)
    case None => None
    case Some(p) => if p + Length(mem, at) <= |mem| then Some(mem[p..p + Length(mem, at)]) else None
  }

  lemma {:induction false} FetchReads(files: seq<File>, mem: seq<byte>, i: nat)
    requires ReadsAs(files, mem) && i < |files|
    ensures Fetch(mem, HeadersEnd(i)) == if files[i].data == [] then None else Some(files[i].data)
  {
    OpenReads(files, mem, i);
  }

  /** Writing an image and reading one name back gives the first file so called, if it has any data. */
  method WriteThenRead(files: seq<File>, name: seq<byte>) returns (data: Option<seq<byte>>)
    requires Acceptable(files) && Text(name)
    ensures var k := IndexOf(files, name);
      data == if name != [] && k < |files| && files[k].data != [] then Some(files[k].data) else None
  {
    var image := WriteFilesystem(files);
    ImageReads(files);
    data := ReadBack(files, image, name);
  }

  /** Find, then open, then read the bytes. */
  method ReadBack(ghost files: seq<File>, mem: seq<byte>, name: seq<byte>) returns (data: Option<seq<byte>>)
    requires ReadsAs(files, mem) && Text(name)
    ensures var k := IndexOf(files, name);
      data == if name != [] && k < |files| && files[k].data != [] then Some(files[k].data) else None
  {
    FindReads(files, mem, name, None);
    var header := FindFile(mem, name);
    FindReads(files, mem, name, header);
    if header == None {
      return None;
    }
    FetchReads(files, mem, IndexOf(files, name));
    data := Fetch(mem, header.value);
  }
}
