/**
 * The decisions the mount's FUSE callbacks make over the file tree: the
 * attributes reported by `lookup` and `getattr`, the access-mode checks of
 * `open`, the byte range `read` returns, the entries and cookies `readdir`
 * adds, and the check on the transactions-per-second argument.
 */
module Cli {
  import opened Wrappers
  import opened Text
  import opened Fuse
  import opened Children
  import CwlLib

  /** The errno values the callbacks reply with (Linux numbering). */
  const ENOENT: nat := 2
  const EACCES: nat := 13
  const EINVAL: nat := 22

  /** Integer widths the callbacks receive or convert to (a 64-bit target). */
  const I64Min: int := -0x8000_0000_0000_0000
  const I64Max: int := 0x7FFF_FFFF_FFFF_FFFF
  const U32Limit: nat := 0x1_0000_0000
  const UsizeLimit: nat := 0x1_0000_0000_0000_0000

  predicate IsI64(v: int) {
    I64Min <= v <= I64Max
  }

  // ---------------------------------------------------------------------------
  // Attributes (`lookup` and `getattr`)

  datatype Kind = DirectoryKind | RegularFileKind

  datatype FileAttr = FileAttr(ino: nat, size: nat, blocks: nat, kind: Kind, perm: nat,
                               nlink: nat, uid: nat, gid: nat, rdev: nat, flags: nat, blksize: nat)

  /** The size every log file claims: `i32::MAX`, since the real size is only known after fetching. */
  const FileSize: nat := 0x7FFF_FFFF

  /** Permission bits `0o777`. */
  const Perm: nat := 511

  function KindOf(t: FileType): Kind {
    if t == Directory then DirectoryKind else RegularFileKind
  }

  /** The attribute table shared by `lookup` and `getattr`. */
  function Attr(file: File, uid: nat, gid: nat): (a: FileAttr)
    ensures a.ino == file.inode && a.uid == uid && a.gid == gid
    ensures a.kind == DirectoryKind <==> file.fileType == Directory
    ensures file.fileType == Directory ==> a.size == 0 && a.blocks == 0 && a.nlink == 2
    ensures file.fileType.TimeFile? ==> a.size == 2147483647 && a.blocks == 1 && a.nlink == 1
    ensures a.perm == 0x1FF && a.blksize == 512 && a.rdev == 0 && a.flags == 0
  {
    match file.fileType
    case Directory => FileAttr(file.inode, 0, 0, DirectoryKind, Perm, 2, uid, gid, 0, 0, 512)
    case TimeFile(_) => FileAttr(file.inode, FileSize, 1, RegularFileKind, Perm, 1, uid, gid, 0, 0, 512)
  }

  /** `lookup`: the attributes of the child `name` of directory inode `parent`, else ENOENT. */
  function Lookup(tree: FileTree, parent: nat, name: string, uid: nat, gid: nat): (r: Result<FileAttr, nat>)
    reads tree
    requires tree.Consistent()
    ensures r.Success? <==> 1 <= parent < tree.currentInode
                            && Get(tree.sm[parent - 1].children, name).Some?
    ensures r.Failure? ==> r.error == ENOENT
    ensures r.Success? ==> var k := Get(tree.sm[parent - 1].children, name).value;
                           k < |tree.sm| && r.value == Attr(tree.sm[k], uid, gid)
                           && r.value.ino == k + 1
  {
    var child := tree.GetChildForInode(parent, name);
    if child.None? then Failure(ENOENT)
    else Success(Attr(child.value.file, uid, gid))
  }

  /** `getattr`: the attributes of inode `ino`, else ENOENT. */
  function GetAttr(tree: FileTree, ino: nat, uid: nat, gid: nat): (r: Result<FileAttr, nat>)
    reads tree
    requires tree.Consistent()
    ensures r.Success? <==> 1 <= ino < tree.currentInode
    ensures r.Failure? ==> r.error == ENOENT
    ensures r.Success? ==> r.value == Attr(tree.sm[ino - 1], uid, gid) && r.value.ino == ino
  {
    var file := tree.GetFileByInode(ino);
    if file.None? then Failure(ENOENT)
    else Success(Attr(file.value.file, uid, gid))
  }

  /** What `lookup` reports for a name is what `getattr` then reports for the inode it gave. */
  lemma LookupAgreesWithGetAttr(tree: FileTree, parent: nat, name: string, uid: nat, gid: nat)
    requires tree.Consistent()
    requires Lookup(tree, parent, name, uid, gid).Success?
    ensures GetAttr(tree, Lookup(tree, parent, name, uid, gid).value.ino, uid, gid) == Lookup(tree, parent, name, uid, gid)
  {
    var k := Get(tree.sm[parent - 1].children, name).value;
    assert k < |tree.sm|;
  }

  // ---------------------------------------------------------------------------
  // `open`

  /** Open flags, as `i32` bit patterns. */
  const O_ACCMODE: bv32 := 3
  const O_RDONLY: bv32 := 0
  const O_WRONLY: bv32 := 1
  const O_RDWR: bv32 := 2
  const O_TRUNC: bv32 := 0x200
  const FMODE_EXEC: bv32 := 0x20

  /** Access-check bits. */
  const X_OK: bv32 := 1
  const W_OK: bv32 := 2
  const R_OK: bv32 := 4

  /** `FOPEN_DIRECT_IO`, and the mount's fixed choice to use it. */
  const FOPEN_DIRECT_IO: bv32 := 1
  const DirectIo: bool := true

  /** The one file handle every successful open returns. */
  const FileHandle: nat := 10

  datatype Access = Access(mask: bv32, read: bool, write: bool)

  /**
   * The access-mode classification of `open`: exactly one mode must be given,
   * and a read-only open that asks to truncate is refused.
   */
  function AccessOf(flags: bv32): (r: Result<Access, nat>)
    ensures r.Failure? <==> flags & O_ACCMODE == 3 || (flags & O_ACCMODE == O_RDONLY && flags & O_TRUNC != 0)
    ensures r.Failure? ==> (r.error == EINVAL <==> flags & O_ACCMODE == 3)
                           && (r.error == EACCES <==> flags & O_ACCMODE != 3)
    ensures r.Success? ==> r.value.read == (flags & O_ACCMODE != O_WRONLY)
                           && r.value.write == (flags & O_ACCMODE != O_RDONLY)
    ensures r.Success? && flags & O_ACCMODE == O_RDONLY ==>
              r.value.mask == (if flags & FMODE_EXEC != 0 then X_OK else R_OK)
  {
    var mode := flags & O_ACCMODE;
    if mode == O_RDONLY then
      if flags & O_TRUNC != 0 then Failure(EACCES)
      else if flags & FMODE_EXEC != 0 then Success(Access(X_OK, true, false))
      else Success(Access(R_OK, true, false))
    else if mode == O_WRONLY then Success(Access(W_OK, false, true))
    else if mode == O_RDWR then Success(Access(R_OK | W_OK, true, true))
    else Failure(EINVAL)
  }

  predicate IsLogFile(tree: FileTree, inode: nat)
    reads tree
    requires tree.Consistent()
  {
    tree.GetFileByInode(inode).Some? && tree.GetFileByInode(inode).value.file.fileType.TimeFile?
  }

  datatype OpenReply = Opened(fh: nat, openFlags: bv32) | OpenFailed(errno: nat)

  /**
   * `open`: the mode is checked first; then only an existing log file opens,
   * with handle 10 and direct I/O, whatever mode was asked for.
   */
  function Open(tree: FileTree, inode: nat, flags: bv32): (r: OpenReply)
    reads tree
    requires tree.Consistent()
    ensures r.Opened? <==> AccessOf(flags).Success? && IsLogFile(tree, inode)
    ensures r.Opened? ==> r == Opened(10, FOPEN_DIRECT_IO)
    ensures AccessOf(flags).Failure? ==> r == OpenFailed(AccessOf(flags).error)
    ensures AccessOf(flags).Success? && !IsLogFile(tree, inode) ==> r == OpenFailed(EACCES)
  {
    match AccessOf(flags)
    case Failure(errno) => OpenFailed(errno)
    case Success(_) =>
      match tree.GetFileByInode(inode)
      case Some(file) =>
        if file.file.fileType.TimeFile? then Opened(FileHandle, if DirectIo then FOPEN_DIRECT_IO else 0)
        else OpenFailed(EACCES)
      case None => OpenFailed(EACCES)
  }

  /** Write-only and read-write opens of a log file are granted like read-only ones. */
  lemma {:induction false} OpenForWriteGranted(tree: FileTree, inode: nat, flags: bv32)
    requires tree.Consistent() && IsLogFile(tree, inode)
    requires flags & O_ACCMODE == O_WRONLY || flags & O_ACCMODE == O_RDWR
    ensures Open(tree, inode, flags) == Opened(FileHandle, FOPEN_DIRECT_IO)
    ensures AccessOf(flags).value.write
  {
    assert AccessOf(flags).Success?;
  }

  // ---------------------------------------------------------------------------
  // `read`

  /** `offset as usize` for an `i64`: a negative offset wraps to a huge one. */
  function OffsetAsUsize(offset: int): (n: nat)
    requires IsI64(offset)
    ensures n < UsizeLimit
    ensures offset >= 0 ==> n == offset
    ensures offset < 0 ==> n >= UsizeLimit / 2
    ensures offset < 0 ==> n == UsizeLimit + offset
    ensures n % UsizeLimit == offset % UsizeLimit
  {
    if offset < 0 then offset + UsizeLimit else offset
  }

  function SaturatingSub(a: nat, b: nat): nat {
    if a >= b then a - b else 0
  }

  /**
   * The read size as the source computes it: the remaining length is cast to
   * `u32` (keeping its low 32 bits) before the minimum with `size` is taken.
   */
  function ReadSizeAsWritten(len: nat, offset: int, size: nat): (n: nat)
    requires IsI64(offset)
    ensures n <= size && n < U32Limit
    ensures 0 <= offset <= len && len - offset < U32Limit ==> n == CwlLib.Min(size, len - offset)
    ensures len < U32Limit && len <= I64Max ==> n == ReadSize(len, offset, size)
  {
    CwlLib.Min(size, SaturatingSub(len, OffsetAsUsize(offset)) % U32Limit)
  }

  /** A 4 GiB response read from its start with a one-byte request comes back empty. */
  lemma ReadSizeTruncates()
    ensures ReadSizeAsWritten(U32Limit, 0, 1) == 0
    ensures ReadSize(U32Limit, 0, 1) == 1
  {
  }

  /**
   * The intended read size: at most `size` bytes, no more than remain after
   * `offset`, and nothing when the offset is negative or at or past the end.
   */
  function ReadSize(len: nat, offset: int, size: nat): (n: nat)
    requires IsI64(offset) && len <= I64Max
    ensures n <= size
    ensures 0 <= offset <= len ==> n == CwlLib.Min(size, len - offset)
    ensures offset < 0 || offset >= len ==> n == 0
  {
    CwlLib.Min(size, SaturatingSub(len, OffsetAsUsize(offset)))
  }

  /** The bytes a read of `size` at `offset` returns. */
  function ReadRange(content: seq<byte>, offset: int, size: nat): (r: seq<byte>)
    requires IsI64(offset) && |content| <= I64Max
    ensures |r| == ReadSize(|content|, offset, size)
    ensures r != [] ==> 0 <= offset && offset + |r| <= |content| && r == content[offset..offset + |r|]
  {
    var n := ReadSize(|content|, offset, size);
    if n == 0 then [] else content[offset..offset + n]
  }

  /** Two reads back to back, the first one full, return what one read of both sizes does. */
  lemma {:induction false} ReadsCompose(content: seq<byte>, offset: int, a: nat, b: nat)
    requires IsI64(offset) && IsI64(offset + a) && |content| <= I64Max
    requires 0 <= offset && offset + a <= |content|
    ensures ReadRange(content, offset, a) + ReadRange(content, offset + a, b) == ReadRange(content, offset, a + b)
  {
    var first := ReadRange(content, offset, a);
    var second := ReadRange(content, offset + a, b);
    var both := ReadRange(content, offset, a + b);
    assert |first| == a;
    assert first == content[offset..offset + a];
    assert |both| == a + |second|;
    if second == [] {
      assert both == first;
    } else {
      assert second == content[offset + a..offset + a + |second|];
      assert both == content[offset..offset + a + |second|];
      assert content[offset..offset + a + |second|] == first + second;
    }
  }

  /** A read from the start with room for everything returns the whole response. */
  lemma ReadWhole(content: seq<byte>, size: nat)
    requires |content| <= I64Max && |content| <= size
    ensures ReadRange(content, 0, size) == content
  {
    if content != [] {
      assert ReadRange(content, 0, size) == content[0..|content|];
    }
  }

  /** Fills a fresh buffer of `n` bytes from `content` starting at `offset` (`read_exact`). */
  method ReadExact(content: seq<byte>, offset: nat, n: nat) returns (data: seq<byte>)
    requires offset + n <= |content|
    ensures data == content[offset..offset + n]
  {
    var buffer := new byte[n];
    var i := 0;
    while i < n
      invariant 0 <= i <= n
      invariant buffer[..i] == content[offset..offset + i]
    {
      buffer[i] := content[offset + i];
      i := i + 1;
    }
    data := buffer[..];
  }

  datatype ReadReply = Data(bytes: seq<byte>) | ReadFailed(errno: nat)

  /**
   * `read`: ENOENT for an unknown inode or a directory; for a log file, the
   * requested range of the display bytes for its time bounds, which
   * `logsFor` stands for.
   */
  method Read(tree: FileTree, ino: nat, offset: int, size: nat, logsFor: TimeBounds -> seq<byte>)
    returns (r: ReadReply)
    requires tree.Consistent() && IsI64(offset) && size < U32Limit
    requires IsLogFile(tree, ino) ==> |logsFor(tree.GetFileByInode(ino).value.file.fileType.bounds)| <= I64Max
    ensures !IsLogFile(tree, ino) ==> r == ReadFailed(ENOENT)
    ensures IsLogFile(tree, ino) ==>
              r == Data(ReadRange(logsFor(tree.GetFileByInode(ino).value.file.fileType.bounds), offset, size))
  {
    var file := tree.GetFileByInode(ino);
    if file.None? {
      return ReadFailed(ENOENT);
    }
    match file.value.file.fileType
    case Directory =>
      return ReadFailed(ENOENT);
    case TimeFile(bounds) =>
      var res := logsFor(bounds);
      var readSize := ReadSize(|res|, offset, size);
      if readSize == 0 {
        return Data([]);
      }
      var data := ReadExact(res, offset, readSize);
      return Data(data);
  }

  // ---------------------------------------------------------------------------
  // `readdir`

  datatype DirListing = DirListing(inode: nat, kind: Kind, name: string)

  /** An entry as added to the reply, with the cookie of the entry after it. */
  datatype Added = Added(inode: nat, cookie: nat, kind: Kind, name: string)

  function Listing(f: FileWithFileKey): DirListing {
    DirListing(f.file.inode, KindOf(f.file.fileType), f.file.name)
  }

  function Listings(files: seq<FileWithFileKey>): (r: seq<DirListing>)
    ensures |r| == |files| && forall i :: 0 <= i < |r| ==> r[i] == Listing(files[i])
  {
    seq(|files|, i requires 0 <= i < |files| => Listing(files[i]))
  }

  /** What `readdir` offers for `dir`: `.` and `..`, both naming the parent for `ls`, then the children. */
  function DirEntries(tree: FileTree, dir: FileKey): (r: seq<DirListing>)
    reads tree
    requires tree.Valid() && dir < |tree.sm|
    ensures |r| == 2 + |tree.sm[dir].children|
    ensures var p := tree.GetParentForLs(dir).file.inode;
            r[0] == DirListing(p, DirectoryKind, ".") && r[1] == DirListing(p, DirectoryKind, "..")
    ensures forall i :: 2 <= i < |r| ==> r[i] == Listing(tree.ListDirectory(dir)[i - 2])
  {
    var p := tree.GetParentForLs(dir).file.inode;
    [DirListing(p, DirectoryKind, "."), DirListing(p, DirectoryKind, "..")] + Listings(tree.ListDirectory(dir))
  }

  /** Entry `k` as added: its cookie is `k + 1`, the offset to resume after it. */
  function AddedAt(entries: seq<DirListing>, k: nat): Added
    requires k < |entries|
  {
    Added(entries[k].inode, k + 1, entries[k].kind, entries[k].name)
  }

  /**
   * The entries added from index `i` on after `acc`: each in turn until the
   * end, or until the reply reports it full (`full` says whether adding the
   * entry after those already added reports full; that entry is not added).
   */
  function Page(entries: seq<DirListing>, i: nat, full: (seq<Added>, Added) -> bool, acc: seq<Added>): seq<Added>
    decreases |entries| - i
  {
    if i >= |entries| then acc
    else if full(acc, AddedAt(entries, i)) then acc
    else Page(entries, i + 1, full, acc + [AddedAt(entries, i)])
  }

  /**
   * A page is `acc` followed by a contiguous run of entries from `i`, each
   * with its own cookie, and it stops short only at an entry the reply
   * reported full for.
   */
  lemma {:induction false} PageContiguous(entries: seq<DirListing>, i: nat, full: (seq<Added>, Added) -> bool, acc: seq<Added>)
    ensures var r := Page(entries, i, full, acc);
            && |acc| <= |r| <= |acc| + SaturatingSub(|entries|, i)
            && r[..|acc|] == acc
            && (forall j :: |acc| <= j < |r| ==> r[j] == AddedAt(entries, i + j - |acc|))
            && (|r| < |acc| + SaturatingSub(|entries|, i) ==> full(r, AddedAt(entries, i + |r| - |acc|)))
    decreases |entries| - i
  {
    if i < |entries| && !full(acc, AddedAt(entries, i)) {
      var acc1 := acc + [AddedAt(entries, i)];
      PageContiguous(entries, i + 1, full, acc1);
      var r := Page(entries, i, full, acc);
      assert r[..|acc1|] == acc1;
      assert r[..|acc|] == acc1[..|acc|] == acc;
    }
  }

  /** When the reply never fills up, every entry from `i` on is added. */
  lemma PageComplete(entries: seq<DirListing>, i: nat, full: (seq<Added>, Added) -> bool)
    requires i <= |entries|
    requires forall acc, a :: !full(acc, a)
    ensures |Page(entries, i, full, [])| == |entries| - i
  {
    PageContiguous(entries, i, full, []);
  }

  /**
   * Resuming at the last cookie continues the listing with no entry lost or
   * repeated: two pages in a row are one contiguous run.
   */
  lemma ReaddirResumes(entries: seq<DirListing>, start: nat, full: (seq<Added>, Added) -> bool)
    requires start <= |entries|
    ensures var first := Page(entries, start, full, []);
            var second := Page(entries, start + |first|, full, []);
            |first| + |second| <= |entries| - start
            && forall j :: 0 <= j < |first| + |second| ==> (first + second)[j] == AddedAt(entries, start + j)
  {
    var first := Page(entries, start, full, []);
    PageContiguous(entries, start, full, []);
    PageContiguous(entries, start + |first|, full, []);
  }

  /** The loop of `readdir`: from index `skip` on, add entries until the reply reports full. */
  method AddEntries(entries: seq<DirListing>, skip: nat, full: (seq<Added>, Added) -> bool) returns (added: seq<Added>)
    ensures added == Page(entries, skip, full, [])
  {
    added := [];
    var i := skip;
    while i < |entries|
      invariant skip <= i
      invariant Page(entries, skip, full, []) == Page(entries, i, full, added)
      decreases |entries| - i
    {
      var entry := AddedAt(entries, i);
      if full(added, entry) {
        break;
      }
      added := added + [entry];
      i := i + 1;
    }
  }

  datatype ReaddirReply = Listed(entries: seq<Added>) | ReaddirFailed(errno: nat)

  /**
   * `readdir`: ENOENT for an unknown inode; otherwise `.`, `..` and the
   * children, skipping the first `offset` (as `usize`) and adding until the
   * reply is full.
   */
  method Readdir(tree: FileTree, ino: nat, offset: int, full: (seq<Added>, Added) -> bool) returns (r: ReaddirReply)
    requires tree.Valid() && IsI64(offset)
    ensures tree.GetFileByInode(ino).None? ==> r == ReaddirFailed(ENOENT)
    ensures tree.GetFileByInode(ino).Some? ==>
              r == Listed(Page(DirEntries(tree, tree.GetFileByInode(ino).value.fileKey), OffsetAsUsize(offset), full, []))
  {
    var directory := tree.GetFileByInode(ino);
    if directory.None? {
      return ReaddirFailed(ENOENT);
    }
    var dir := directory.value.fileKey;
    var entries := Listings(tree.ListDirectory(dir));
    var parentInode := tree.GetParentForLs(dir).file.inode;
    entries := [DirListing(parentInode, DirectoryKind, "..")] + entries;
    entries := [DirListing(parentInode, DirectoryKind, ".")] + entries;
    assert entries == DirEntries(tree, dir);
    var added := AddEntries(entries, OffsetAsUsize(offset), full);
    return Listed(added);
  }

  // ---------------------------------------------------------------------------
  // `is_valid_tps`

  function AllDigits(s: string): (r: bool)
    ensures r <==> forall i :: 0 <= i < |s| ==> IsDigit(s[i])
  {
    if s == [] then true else IsDigit(s[0]) && AllDigits(s[1..])
  }

  /**
   * `str::parse::<usize>`: an optional `+`, then one or more ASCII digits
   * whose value fits in 64 bits.
   */
  function ParseUsize(s: string): (r: Option<nat>)
    ensures r.Some? ==> r.value <= CwlLib.UsizeMax
  {
    var digits := if |s| > 0 && s[0] == '+' then s[1..] else s;
    if digits == [] then None
    else if !AllDigits(digits) then None
    else
      var v := DecimalValue(digits);
      if v > CwlLib.UsizeMax then None else Some(v)
  }

  const ZeroTpsMessage: string := "Zero is not a valid transactions per second value"

  function NotPositiveMessage(v: string): string {
    v + " isn't a valid transactions per second value because not a positive integer"
  }

  /** `is_valid_tps`: the value must parse as a `usize` and not be zero. */
  function IsValidTps(v: string): (r: Result<(), string>)
    ensures r.Success? <==> ParseUsize(v).Some? && ParseUsize(v).value != 0
    ensures ParseUsize(v) == Some(0) ==> r.error == ZeroTpsMessage
    ensures ParseUsize(v).None? ==>
              r.error == NotPositiveMessage(v)
  {
    match ParseUsize(v)
    case Some(value) =>
      if value == 0 then Failure(ZeroTpsMessage) else Success(())
    case None => Failure(NotPositiveMessage(v))
  }

  /** The optional sign in front of the digits. */
  function Sign(plus: bool): string {
    if plus then "+" else ""
  }

  /**
   * A decimal rendering, with or without `+` and with any number of leading
   * zeros, parses back to its value exactly when it fits.
   */
  lemma ParseUsizeRoundTrip(n: nat, plus: bool, zeros: nat)
    ensures ParseUsize(Sign(plus) + (Zeros(zeros) + NatToDecimal(n)))
            == (if n <= CwlLib.UsizeMax then Some(n) else None)
  {
    var body := Zeros(zeros) + NatToDecimal(n);
    var s := Sign(plus) + body;
    var digits := if |s| > 0 && s[0] == '+' then s[1..] else s;
    assert digits == body;
    DecimalValueZerosPrefix(zeros, NatToDecimal(n));
    DecimalValueOfNatToDecimal(n);
  }

  /** Every text that parses has that form: a sign, zeros, then the decimal rendering of the value. */
  lemma ParseUsizeSound(s: string)
    requires ParseUsize(s).Some?
    ensures exists plus: bool, zeros: nat :: s == Sign(plus) + (Zeros(zeros) + NatToDecimal(ParseUsize(s).value))
  {
    var plus := |s| > 0 && s[0] == '+';
    var digits := if plus then s[1..] else s;
    assert s == Sign(plus) + digits;
    DigitsAreZerosThenDecimal(digits);
    assert s == Sign(plus) + (Zeros(LeadingZeros(digits)) + NatToDecimal(ParseUsize(s).value));
  }

  /** Exactly the values 1 through `usize::MAX`, written in decimal, are valid. */
  lemma TpsAcceptsPositive(n: nat)
    ensures IsValidTps(NatToDecimal(n)).Success? <==> 1 <= n <= CwlLib.UsizeMax
  {
    ParseUsizeRoundTrip(n, false, 0);
    assert Sign(false) + (Zeros(0) + NatToDecimal(n)) == NatToDecimal(n);
  }

  /** A leading minus sign is never accepted. */
  lemma TpsRejectsMinus(v: string)
    requires |v| > 0 && v[0] == '-'
    ensures IsValidTps(v) == Failure(NotPositiveMessage(v))
  {
    assert v[0] != '+' && !IsDigit(v[0]);
    assert !AllDigits(v);
  }
}
