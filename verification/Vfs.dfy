/** Bounded parsing of PSF2 filesystem layers and their assembly. */
module Vfs {
  import opened Machine
  import opened Wrappers
  import opened LittleEndian
  import opened VfsTree

  const NAME_BYTES := 36
  const ENTRY_BYTES := 48
  const SPEC_MAX_PATH_BYTES := 255

  datatype VfsLimits = VfsLimits(
    maxDepth: nat, maxEntries: nat, maxPathBytes: nat, maxBlocks: nat, maxFileBytes: nat, maxBlockBytes: nat,
    maxAggregateBytes: nat)

  /** What parsing consumes: table entries, compressed blocks and file bytes. */
  datatype Usage = Usage(entries: nat, blocks: nat, bytes: nat) {
    function Plus(u: Usage): Usage { Usage(entries + u.entries, blocks + u.blocks, bytes + u.bytes) }

    predicate Within(limits: VfsLimits)
    {
      entries <= limits.maxEntries && blocks <= limits.maxBlocks && bytes <= limits.maxAggregateBytes
    }
  }

  const NO_USAGE := Usage(0, 0, 0)

  datatype VfsError =
    | WrongVersion | Truncated | InvalidName | InvalidEntry | OffsetOrder | LimitExceeded | InvalidZlib
    | BlockSizeMismatch
    | InvalidPath | NotFound | IsDirectory

  /** Contents of a complete zlib stream without trailing data, or `None`. */
  type Inflate = Data -> Option<Data>

  function ReadU32(input: seq<u8>, offset: nat): (r: Option<u32>)
    ensures r.Some? <==> offset + 4 <= |input|
  {
    if offset + 4 <= |input| then Some(U32At(input, offset)) else None
  }

  // ----- Names

  function Lower(b: u8): u8
  {
    if 0x41 <= b <= 0x5a then b + 0x20 else b
  }

  function LowerAll(s: seq<u8>): (r: seq<u8>)
    ensures |r| == |s| && forall k :: 0 <= k < |s| ==> r[k] == Lower(s[k])
  {
    seq(|s|, k requires 0 <= k < |s| => Lower(s[k]))
  }

  /** The alphabet in both cases, and every other byte as it is. */
  lemma LowerLetters(k: nat, b: u8)
    ensures k < 26 ==> Lower("ABCDEFGHIJKLMNOPQRSTUVWXYZ"[k] as int) == "abcdefghijklmnopqrstuvwxyz"[k] as int
    ensures !('A' as int <= b <= 'Z' as int) ==> Lower(b) == b
  {
  }

  predicate NameByte(b: u8) { 32 <= b <= 126 && b != 0x2f && b != 0x5c && b != 0x3a }

  /** Names hold anything from blank to tilde but the two separators and the colon. */
  lemma NameCharacters(b: u8)
    ensures NameByte(b) <==> ' ' <= b as char <= '~' && b as char !in "/\\:"
  {
  }

  function FirstZero(s: seq<u8>): (n: nat)
    ensures n <= |s| && forall k :: 0 <= k < n ==> s[k] != 0
    ensures n < |s| ==> s[n] == 0
  {
    if s == [] || s[0] == 0 then 0 else 1 + FirstZero(s[1..])
  }

  /** A zero-padded name, in lower case. */
  function ParseName(raw: seq<u8>): (r: Result<Name, VfsError>)
    ensures r.Ok? ==> ValidName(r.value) && |r.value| <= |raw|
    ensures r.Ok? ==> forall k :: 0 <= k < |r.value| ==> NameByte(r.value[k]) && Lower(r.value[k]) == r.value[k]
    ensures r.Ok? ==> LowerAll(raw[..|r.value|]) == r.value && forall k :: 0 <= k < |r.value| ==> NameByte(raw[k])
    ensures r.Ok? ==> forall k :: |r.value| <= k < |raw| ==> raw[k] == 0
  {
    var length := FirstZero(raw);
    if length == 0 || exists k :: length <= k < |raw| && raw[k] != 0 then Err(InvalidName)
    else if exists k :: 0 <= k < length && !NameByte(raw[k]) then Err(InvalidName)
    else Ok(LowerAll(raw[..length]))
  }

  /** Every nonempty run of name bytes is accepted, in lower case and without its padding. */
  lemma PaddedName(name: seq<u8>, padding: nat)
    requires name != [] && forall k :: 0 <= k < |name| ==> NameByte(name[k])
    ensures ParseName(name + seq(padding, _ => 0)) == Ok(LowerAll(name))
  {
    var raw := name + seq(padding, _ => 0);
    FirstZeroIs(name, seq(padding, _ => 0));
    assert raw[..|name|] == name;
  }

  lemma {:induction false} FirstZeroIs(name: seq<u8>, zeros: seq<u8>)
    requires (forall k :: 0 <= k < |name| ==> name[k] != 0) && forall k :: 0 <= k < |zeros| ==> zeros[k] == 0
    ensures FirstZero(name + zeros) == |name|
  {
    if name == [] {
      assert name + zeros == zeros;
    } else {
      FirstZeroIs(name[1..], zeros);
      assert (name + zeros)[1..] == name[1..] + zeros;
    }
  }

  // ----- What the bytes say

  /** A directory entry as decoded: an empty file, a file with contents, or a directory with its entries. */
  datatype Entry =
    | EmptyFile(name: Name)
    | FileEntry(name: Name, data: Data, blockSize: u32)
    | DirectoryEntry(name: Name, children: seq<Entry>)

  /** Offset of the `k`-th compressed block behind the size table. */
  function BlockStart(input: seq<u8>, offset: nat, count: nat, k: nat): nat
    requires offset + 4 * k <= |input|
  {
    if k == 0 then offset + 4 * count else BlockStart(input, offset, count, k - 1) + U32At(input, offset + 4 * (k - 1))
  }

  function Flatten(pieces: seq<Data>): Data
  {
    if pieces == [] then [] else Flatten(pieces[..|pieces| - 1]) + pieces[|pieces| - 1]
  }

  /** Block `k` inflates to `piece`. */
  ghost predicate BlockIs(input: seq<u8>, offset: nat, count: nat, k: nat, piece: Data, inflate: Inflate)
    requires offset + 4 * (k + 1) <= |input|
  {
    var from, to := BlockStart(input, offset, count, k), BlockStart(input, offset, count, k + 1);
    from <= to <= |input| && inflate(input[from..to]) == Some(piece)
  }

  /** The pieces are the inflated blocks, each full except possibly the last. */
  ghost predicate PiecesAt(input: seq<u8>, offset: nat, count: nat, size: nat, blockSize: nat, pieces: seq<Data>,
                           inflate: Inflate)
  {
    && |pieces| <= count && offset + 4 * count <= |input|
    && forall k :: 0 <= k < |pieces| ==>
                     && |pieces[k]| == Min(blockSize, size - |Flatten(pieces[..k])|)
                     && BlockIs(input, offset, count, k, pieces[k], inflate)
  }

  ghost predicate FileAt(input: seq<u8>, offset: nat, size: nat, blockSize: nat, data: Data, inflate: Inflate)
    requires blockSize > 0
  {
    && |data| == size
    && exists pieces :: |pieces| == BlockCount(size, blockSize)
                        && PiecesAt(input, offset, |pieces|, size, blockSize, pieces, inflate)
                        && Flatten(pieces) == data
  }

  function BlockCount(size: nat, blockSize: nat): nat
    requires blockSize > 0
  {
    if size == 0 then 0 else if size <= blockSize then 1 else 1 + BlockCount(size - blockSize, blockSize)
  }

  ghost predicate DirectoryAt(input: seq<u8>, offset: nat, entries: seq<Entry>, inflate: Inflate)
    decreases entries, 1
  {
    && offset + 4 + ENTRY_BYTES * |entries| <= |input| && U32At(input, offset) == |entries|
    && forall k :: 0 <= k < |entries| ==> EntryAt(input, offset + 4 + ENTRY_BYTES * k, entries[k], inflate)
  }

  ghost predicate EntryAt(input: seq<u8>, at: nat, e: Entry, inflate: Inflate)
    decreases e, 0
  {
    && at + ENTRY_BYTES <= |input| && ParseName(input[at..at + NAME_BYTES]) == Ok(e.name)
    && var child, size, blockSize := U32At(input, at + 36), U32At(input, at + 40), U32At(input, at + 44);
    match e
    case EmptyFile(_) => child == 0 && size == 0 && blockSize == 0
    case DirectoryEntry(_, children) =>
      at < child && size == 0 && blockSize == 0 && DirectoryAt(input, child, children, inflate)
    case FileEntry(_, data, stored) =>
      at < child && size > 0 && blockSize > 0 && stored == blockSize
      && FileAt(input, child, size, blockSize, data, inflate)
  }

  // ----- Bytes as a writer lays them out

  function Zeros(n: nat): (s: seq<u8>)
    ensures |s| == n
  {
    seq(n, _ => 0)
  }

  predicate FieldName(name: Name) { 0 < |name| <= 36 && forall k :: 0 <= k < |name| ==> NameByte(name[k]) }

  /** The name padded to 36 bytes, then the offset of what it refers to, its size and its block size. */
  function EntryBytes(name: Name, child: u32, size: u32, blockSize: u32): (s: seq<u8>)
    requires |name| <= 36
    ensures |s| == 48
  {
    name + Zeros(36 - |name|) + EncodeAll([child, size, blockSize])
  }

  datatype Field = Field(name: Name, child: u32, size: u32, blockSize: u32)

  /** What the numbers of an entry at `at` make of it. */
  ghost predicate Says(f: Field, at: nat, e: Entry, input: seq<u8>, inflate: Inflate)
  {
    && e.name == LowerAll(f.name)
    && match e
       case EmptyFile(_) => f.child == 0 && f.size == 0 && f.blockSize == 0
       case DirectoryEntry(_, children) =>
         at < f.child && f.size == 0 && f.blockSize == 0 && DirectoryAt(input, f.child, children, inflate)
       case FileEntry(_, data, stored) =>
         at < f.child && f.size > 0 && stored == f.blockSize > 0
         && FileAt(input, f.child, f.size, f.blockSize, data, inflate)
  }

  /** Such bytes are the entry: an empty file, a directory or a file as the three numbers say. */
  lemma EntryWritten(before: seq<u8>, name: Name, child: u32, size: u32, blockSize: u32, after: seq<u8>, e: Entry,
                     inflate: Inflate)
    requires FieldName(name)
    ensures var input := before + EntryBytes(name, child, size, blockSize) + after;
            EntryAt(input, |before|, e, inflate) <==>
            Says(Field(name, child, size, blockSize), |before|, e, input, inflate)
  {
    hide EntryBytes, U32At, ParseName, DirectoryAt, FileAt, FieldName;
    EntryFields(before, name, child, size, blockSize, after);
  }

  lemma EntryFields(before: seq<u8>, name: Name, child: u32, size: u32, blockSize: u32, after: seq<u8>)
    requires FieldName(name)
    ensures var input, at := before + EntryBytes(name, child, size, blockSize) + after, |before|;
            && at + 48 <= |input| && ParseName(input[at..at + 36]) == Ok(LowerAll(name))
            && U32At(input, at + 36) == child && U32At(input, at + 40) == size && U32At(input, at + 44) == blockSize
  {
    hide EncodeAll, U32At, ParseName;
    var field, words := name + Zeros(36 - |name|), [child, size, blockSize];
    var input := before + EntryBytes(name, child, size, blockSize) + after;
    assert input == (before + field) + EncodeAll(words) + after;
    EncodedAt(before + field, words, after, 0);
    EncodedAt(before + field, words, after, 1);
    EncodedAt(before + field, words, after, 2);
    assert input[|before|..|before| + 36] == field;
    PaddedName(name, 36 - |name|);
    assert Zeros(36 - |name|) == seq(36 - |name|, _ => 0);
  }

  /** The number of entries and the entries one after the other. */
  function DirectoryBytes(fields: seq<Field>): seq<u8>
    requires |fields| < U32_LIMIT && forall k :: 0 <= k < |fields| ==> |fields[k].name| <= 36
  {
    EncodeU32(|fields|) + EntriesBytes(fields)
  }

  function EntriesBytes(fields: seq<Field>): (s: seq<u8>)
    requires forall k :: 0 <= k < |fields| ==> |fields[k].name| <= 36
    ensures |s| == 48 * |fields|
  {
    if fields == [] then []
    else
      var f := fields[0];
      EntryBytes(f.name, f.child, f.size, f.blockSize) + EntriesBytes(fields[1..])
  }

  lemma {:induction false} EntriesSplit(fields: seq<Field>, k: nat)
    requires (forall j :: 0 <= j < |fields| ==> |fields[j].name| <= 36) && k <= |fields|
    ensures EntriesBytes(fields) == EntriesBytes(fields[..k]) + EntriesBytes(fields[k..])
    decreases k
  {
    hide EntryBytes;
    if k > 0 {
      EntriesSplit(fields[1..], k - 1);
      assert fields[..k][1..] == fields[1..][..k - 1] && fields[1..][k - 1..] == fields[k..];
    }
  }

  /** Such bytes are a directory of entries if each of them is what its numbers say. */
  lemma DirectoryWritten(before: seq<u8>, fields: seq<Field>, after: seq<u8>, entries: seq<Entry>, inflate: Inflate)
    requires |fields| == |entries| < U32_LIMIT
    requires forall k :: 0 <= k < |fields| ==> |fields[k].name| <= 36 && FieldName(fields[k].name)
    requires forall k :: 0 <= k < |entries| ==>
               Says(fields[k], |before| + 4 + 48 * k, entries[k], before + DirectoryBytes(fields) + after, inflate)
    ensures DirectoryAt(before + DirectoryBytes(fields) + after, |before|, entries, inflate)
  {
    hide EntryAt, Says, U32At, DirectoryBytes;
    CountWritten(before, fields, after);
    forall k | 0 <= k < |fields|
      ensures EntryAt(before + DirectoryBytes(fields) + after, |before| + 4 + 48 * k, entries[k], inflate)
    {
      var f := fields[k];
      var front, back := EntryPlace(before, fields, after, k);
      EntryWritten(front, f.name, f.child, f.size, f.blockSize, back, entries[k], inflate);
    }
  }

  lemma CountWritten(before: seq<u8>, fields: seq<Field>, after: seq<u8>)
    requires |fields| < U32_LIMIT && forall k :: 0 <= k < |fields| ==> |fields[k].name| <= 36
    ensures var input := before + DirectoryBytes(fields) + after;
            |before| + 4 + 48 * |fields| <= |input| && U32At(input, |before|) == |fields|
  {
    hide EntriesBytes, EncodeU32, U32At;
    var n, rest := |fields|, EntriesBytes(fields) + after;
    assert before + DirectoryBytes(fields) + after == before + EncodeU32(n) + rest;
    ReadBack(before, n, rest);
  }

  lemma EntryPlace(before: seq<u8>, fields: seq<Field>, after: seq<u8>, k: nat) returns (front: seq<u8>, back: seq<u8>)
    requires |fields| < U32_LIMIT && (forall j :: 0 <= j < |fields| ==> |fields[j].name| <= 36) && k < |fields|
    ensures var f := fields[k];
            before + DirectoryBytes(fields) + after == front + EntryBytes(f.name, f.child, f.size, f.blockSize) + back
    ensures |front| == |before| + 4 + 48 * k
  {
    hide EntryBytes, EncodeU32;
    EntriesSplit(fields, k);
    assert fields[k..][0] == fields[k] && fields[k..][1..] == fields[k + 1..];
    front := before + EncodeU32(|fields|) + EntriesBytes(fields[..k]);
    back := EntriesBytes(fields[k + 1..]) + after;
  }

  function Lengths(blocks: seq<Data>): (words: seq<u32>)
    requires forall k :: 0 <= k < |blocks| ==> |blocks[k]| < U32_LIMIT
    ensures |words| == |blocks| && forall k :: 0 <= k < |words| ==> words[k] == |blocks[k]|
  {
    seq(|blocks|, k requires 0 <= k < |blocks| => |blocks[k]|)
  }

  /** A table of compressed lengths, and the blocks one after the other. */
  function FileBytes(blocks: seq<Data>): seq<u8>
    requires forall k :: 0 <= k < |blocks| ==> |blocks[k]| < U32_LIMIT
  {
    EncodeAll(Lengths(blocks)) + Flatten(blocks)
  }

  /** Full pieces, but for the last, which may be shorter. */
  ghost predicate Cut(pieces: seq<Data>, blockSize: nat)
  {
    && (forall k :: 0 <= k < |pieces| ==> 0 < |pieces[k]| <= blockSize)
    && forall k :: 0 <= k < |pieces| - 1 ==> |pieces[k]| == blockSize
  }

  /** Such bytes are a file with the joined pieces as contents. */
  lemma FileWritten(before: seq<u8>, blocks: seq<Data>, pieces: seq<Data>, blockSize: nat, after: seq<u8>,
                    inflate: Inflate)
    requires |pieces| == |blocks| && Cut(pieces, blockSize) && blockSize > 0
    requires forall k :: 0 <= k < |blocks| ==> |blocks[k]| < U32_LIMIT && inflate(blocks[k]) == Some(pieces[k])
    ensures FileAt(before + FileBytes(blocks) + after, |before|, |Flatten(pieces)|, blockSize, Flatten(pieces), inflate)
  {
    hide Flatten, BlockStart;
    var input, n := before + FileBytes(blocks) + after, |blocks|;
    CutCount(pieces, blockSize);
    forall k | 0 <= k < n
      ensures |pieces[k]| == Min(blockSize, |Flatten(pieces)| - |Flatten(pieces[..k])|)
      ensures BlockIs(input, |before|, n, k, pieces[k], inflate)
    {
      PieceLength(pieces, k, blockSize);
      StartsAt(before, blocks, after, k);
      StartsAt(before, blocks, after, k + 1);
      BlockThere(before, blocks, after, k);
    }
    assert PiecesAt(input, |before|, n, |Flatten(pieces)|, blockSize, pieces, inflate);
  }

  lemma {:induction false} CutCount(pieces: seq<Data>, blockSize: nat)
    requires Cut(pieces, blockSize) && blockSize > 0
    ensures BlockCount(|Flatten(pieces)|, blockSize) == |pieces|
  {
    if |pieces| == 1 {
      OnePieceFlat(pieces[0]);
      assert pieces == [pieces[0]];
    } else if |pieces| > 1 {
      CutCount(pieces[1..], blockSize);
      FlattenSplits(pieces, 1);
      OnePieceFlat(pieces[0]);
      assert pieces[..1] == [pieces[0]];
      assert |Flatten(pieces[1..])| > 0 by {
        var rest := pieces[1..];
        assert |rest[|rest| - 1]| > 0;
      }
    }
  }

  lemma OnePieceFlat(piece: Data)
    ensures Flatten([piece]) == piece
  {
    assert [piece][..0] == [] && [] + piece == piece;
  }

  lemma {:induction false} FlattenSplits(pieces: seq<Data>, k: nat)
    requires k <= |pieces|
    ensures Flatten(pieces) == Flatten(pieces[..k]) + Flatten(pieces[k..])
    decreases |pieces|
  {
    if k == |pieces| {
      assert pieces[..k] == pieces && pieces[k..] == [];
    } else {
      var init := pieces[..|pieces| - 1];
      FlattenSplits(init, k);
      assert init[..k] == pieces[..k] && pieces[k..][..|pieces| - k - 1] == init[k..];
    }
  }

  lemma PieceLength(pieces: seq<Data>, k: nat, blockSize: nat)
    requires Cut(pieces, blockSize) && k < |pieces|
    ensures |pieces[k]| == Min(blockSize, |Flatten(pieces)| - |Flatten(pieces[..k])|)
  {
    FlattenSplits(pieces, k);
    var rest := pieces[k..];
    FlattenSplits(rest, 1);
    OnePieceFlat(pieces[k]);
    assert rest[..1] == [pieces[k]];
    if k == |pieces| - 1 {
      assert rest[1..] == [];
    }
  }

  /** Block `k` starts behind the table and the blocks before it. */
  lemma {:induction false} StartsAt(before: seq<u8>, blocks: seq<Data>, after: seq<u8>, k: nat)
    requires (forall j :: 0 <= j < |blocks| ==> |blocks[j]| < U32_LIMIT) && k <= |blocks|
    ensures |before| + 4 * |blocks| <= |before + FileBytes(blocks) + after|
    ensures BlockStart(before + FileBytes(blocks) + after, |before|, |blocks|, k)
            == |before| + 4 * |blocks| + |Flatten(blocks[..k])|
  {
    hide EncodeAll, U32At;
    var input := before + FileBytes(blocks) + after;
    if k > 0 {
      StartsAt(before, blocks, after, k - 1);
      assert input == before + EncodeAll(Lengths(blocks)) + (Flatten(blocks) + after);
      EncodedAt(before, Lengths(blocks), Flatten(blocks) + after, k - 1);
      assert blocks[..k][..k - 1] == blocks[..k - 1];
    }
  }

  lemma BlockThere(before: seq<u8>, blocks: seq<Data>, after: seq<u8>, k: nat)
    requires (forall j :: 0 <= j < |blocks| ==> |blocks[j]| < U32_LIMIT) && k < |blocks|
    ensures var input, at := before + FileBytes(blocks) + after, |before| + 4 * |blocks|;
            var from, to := at + |Flatten(blocks[..k])|, at + |Flatten(blocks[..k + 1])|;
            from <= to <= |input| && input[from..to] == blocks[k]
  {
    FlattenSplits(blocks, k + 1);
    assert blocks[..k + 1][..k] == blocks[..k];
    var input := before + FileBytes(blocks) + after;
    var a, z := Flatten(blocks[..k]), Flatten(blocks[k + 1..]);
    var table := EncodeAll(Lengths(blocks));
    assert Flatten(blocks) == a + blocks[k] + z;
    assert input == (before + table + a) + blocks[k] + (z + after);
  }

  /** What decoding a list of entries under `parent` does to a tree, in order. */
  function InsertEntries(t: Tree, parent: Path, entries: seq<Entry>): Tree
    decreases entries, 1
  {
    if entries == [] then t
    else InsertEntry(InsertEntries(t, parent, entries[..|entries| - 1]), parent, entries[|entries| - 1])
  }

  function InsertEntry(t: Tree, parent: Path, e: Entry): Tree
    decreases e, 0
  {
    var path := parent + [e.name];
    match e
    case EmptyFile(_) => InsertFile(t, path, [])
    case FileEntry(_, data, _) => InsertFile(t, path, data)
    case DirectoryEntry(_, children) => InsertEntries(InsertDirectory(t, path), path, children)
  }

  /** What a list of entries consumes in all, directories' own entries included. */
  function UsageOf(entries: seq<Entry>): Usage
    decreases entries, 1
  {
    if entries == [] then NO_USAGE
    else UsageOf(entries[..|entries| - 1]).Plus(Usage(1, 0, 0)).Plus(EntryUsage(entries[|entries| - 1]))
  }

  /** What an entry consumes beyond itself. */
  function EntryUsage(e: Entry): Usage
    decreases e, 0
  {
    match e
    case EmptyFile(_) => NO_USAGE
    case FileEntry(_, data, blockSize) =>
      if blockSize == 0 then NO_USAGE else Usage(0, BlockCount(|data|, blockSize), |data|)
    case DirectoryEntry(_, children) => UsageOf(children)
  }

  /** One more entry decoded. */
  lemma InsertOne(t: Tree, parent: Path, entries: seq<Entry>, e: Entry)
    ensures InsertEntries(t, parent, entries + [e]) == InsertEntry(InsertEntries(t, parent, entries), parent, e)
    ensures UsageOf(entries + [e]) == UsageOf(entries).Plus(Usage(1, 0, 0)).Plus(EntryUsage(e))
  {
  }

  // ----- The bytes determine the entries

  /** There is at most one way to cut a file into inflated blocks, */
  lemma {:induction false} SamePieces(input: seq<u8>, offset: nat, size: nat, blockSize: nat, a: seq<Data>,
                                      b: seq<Data>, k: nat, inflate: Inflate)
    requires |a| == |b| && k <= |a|
    requires PiecesAt(input, offset, |a|, size, blockSize, a, inflate)
             && PiecesAt(input, offset, |b|, size, blockSize, b, inflate)
    ensures a[..k] == b[..k]
  {
    hide BlockStart, Flatten;
    if k > 0 {
      SamePieces(input, offset, size, blockSize, a, b, k - 1, inflate);
      assert BlockIs(input, offset, |a|, k - 1, a[k - 1], inflate)
             && BlockIs(input, offset, |b|, k - 1, b[k - 1], inflate);
      assert a[..k] == a[..k - 1] + [a[k - 1]] && b[..k] == b[..k - 1] + [b[k - 1]];
    }
  }

  lemma SameFile(input: seq<u8>, offset: nat, size: nat, blockSize: nat, a: Data, b: Data, inflate: Inflate)
    requires blockSize > 0
    requires FileAt(input, offset, size, blockSize, a, inflate) && FileAt(input, offset, size, blockSize, b, inflate)
    ensures a == b
  {
    hide PiecesAt, Flatten, BlockCount;
    var x :| |x| == BlockCount(size, blockSize) && PiecesAt(input, offset, |x|, size, blockSize, x, inflate)
             && Flatten(x) == a;
    var y :| |y| == BlockCount(size, blockSize) && PiecesAt(input, offset, |y|, size, blockSize, y, inflate)
             && Flatten(y) == b;
    SamePieces(input, offset, size, blockSize, x, y, |x|, inflate);
    assert x[..|x|] == x && y[..|y|] == y;
  }

  /** and one list of entries a directory can hold. */
  lemma {:induction false} SameDirectory(input: seq<u8>, offset: nat, a: seq<Entry>, b: seq<Entry>, inflate: Inflate)
    requires DirectoryAt(input, offset, a, inflate) && DirectoryAt(input, offset, b, inflate)
    ensures a == b
    decreases a, 1
  {
    hide EntryAt;
    forall k | 0 <= k < |a|
      ensures a[k] == b[k]
    {
      SameEntry(input, offset + 4 + ENTRY_BYTES * k, a[k], b[k], inflate);
    }
  }

  lemma {:induction false} SameEntry(input: seq<u8>, at: nat, a: Entry, b: Entry, inflate: Inflate)
    requires EntryAt(input, at, a, inflate) && EntryAt(input, at, b, inflate)
    ensures a == b
    decreases a, 0
  {
    hide ParseName, DirectoryAt, FileAt, U32At;
    var child, size, blockSize := U32At(input, at + 36), U32At(input, at + 40), U32At(input, at + 44);
    match a {
      case EmptyFile(_) =>
      case DirectoryEntry(_, children) => SameDirectory(input, child, children, b.children, inflate);
      case FileEntry(_, data, _) => SameFile(input, child, size, blockSize, data, b.data, inflate);
    }
  }

  /** A part of a list consumes no more than the whole. */
  lemma {:induction false} PrefixUsage(entries: seq<Entry>, k: nat)
    requires k <= |entries|
    ensures UsageOf(entries[..k]).entries + |entries| - k <= UsageOf(entries).entries
    ensures UsageOf(entries[..k]).blocks <= UsageOf(entries).blocks
            && UsageOf(entries[..k]).bytes <= UsageOf(entries).bytes
  {
    if k < |entries| {
      PrefixUsage(entries[..|entries| - 1], k);
      assert entries[..|entries| - 1][..k] == entries[..k];
    } else {
      assert entries[..k] == entries;
    }
  }

  /** Entries of a directory stay below it: the tree stays a tree and nothing elsewhere changes. */
  lemma {:induction false} EntriesStayBelow(t: Tree, parent: Path, entries: seq<Entry>)
    requires t.Ok() && parent in t.directories
    ensures InsertEntries(t, parent, entries).Ok() && parent in InsertEntries(t, parent, entries).directories
    ensures forall p :: !Under(p, parent) ==> InsertEntries(t, parent, entries).At(p) == t.At(p)
    decreases entries, 1
  {
    if entries != [] {
      var init, e := entries[..|entries| - 1], entries[|entries| - 1];
      EntriesStayBelow(t, parent, init);
      EntryStaysBelow(InsertEntries(t, parent, init), parent, e);
    }
  }

  lemma {:induction false} EntryStaysBelow(t: Tree, parent: Path, e: Entry)
    requires t.Ok() && parent in t.directories
    ensures InsertEntry(t, parent, e).Ok() && parent in InsertEntry(t, parent, e).directories
    ensures forall p :: !Under(p, parent) ==> InsertEntry(t, parent, e).At(p) == t.At(p)
    decreases e, 0
  {
    hide Tree.Ok;
    var path := parent + [e.name];
    BelowParent(parent, e.name);
    match e {
      case EmptyFile(_) => FileBelow(t, parent, path, []);
      case FileEntry(_, data, _) => FileBelow(t, parent, path, data);
      case DirectoryEntry(_, children) =>
        DirectoryBelow(t, parent, path);
        EntriesStayBelow(InsertDirectory(t, path), path, children);
        assert forall p :: Under(p, path) ==> Under(p, parent);
    }
  }

  lemma BelowParent(parent: Path, name: Name)
    ensures (parent + [name])[..|parent|] == parent && parent < parent + [name] && parent + [name] != []
    ensures forall p :: AtOrUnder(p, parent + [name]) ==> Under(p, parent)
  {
  }

  lemma FileBelow(t: Tree, parent: Path, path: Path, data: Data)
    requires t.Ok() && parent in t.directories && parent < path && |path| == |parent| + 1
    ensures InsertFile(t, path, data).Ok() && parent in InsertFile(t, path, data).directories
    ensures forall p :: !Under(p, parent) ==> InsertFile(t, path, data).At(p) == t.At(p)
  {
    assert path[..|path| - 1] == parent;
    InsertFileOk(t, path, data);
  }

  lemma DirectoryBelow(t: Tree, parent: Path, path: Path)
    requires t.Ok() && parent in t.directories && parent < path && |path| == |parent| + 1
    ensures InsertDirectory(t, path).Ok() && parent in InsertDirectory(t, path).directories
    ensures path in InsertDirectory(t, path).directories
    ensures forall p :: !Under(p, parent) ==> InsertDirectory(t, path).At(p) == t.At(p)
  {
    assert path[..|path| - 1] == parent;
    InsertDirectoryOk(t, path);
  }
}
