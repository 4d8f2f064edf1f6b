/**
 * The time-partition file tree of `src/fuse/src/lib.rs`: an arena of nodes (the
 * slot map), an inode counter and an inode-to-key index, with every directory
 * keeping its children as an ordered map from name to key; and the eager
 * construction of the year/month/day/minute tree for a time range.
 *
 * The slot map is never asked to remove a node, so it behaves as an append-only
 * vector and a node's key is its slot index.
 */
module Fuse {
  import opened Wrappers
  import opened Text
  import opened Children
  import opened Calendar

  type FileKey = nat

  /** Inclusive bounds of a minute file, in nanoseconds since the epoch. */
  datatype TimeBounds = TimeBounds(startTime: int, endTime: int)

  datatype FileType = Directory | TimeFile(bounds: TimeBounds)

  datatype File = File(inode: nat, name: string, fileType: FileType, parent: Option<FileKey>, children: seq<Entry>)
  {
    /** `File::is_root`: the node has no parent. */
    predicate IsRoot() {
      parent.None?
    }
  }

  datatype FileWithFileKey = FileWithFileKey(file: File, fileKey: FileKey)

  // ---------------------------------------------------------------------------
  // Shape of the arena

  /**
   * Node `k` sits below its parent (which was created before it) under its own
   * name, and its children map is ordered and names later nodes that point back.
   */
  ghost predicate NodeOk(s: seq<File>, k: nat)
    requires k < |s|
  {
    && (s[k].parent.Some? ==>
          s[k].parent.value < k && Get(s[s[k].parent.value].children, s[k].name) == Some(k))
    && Sorted(s[k].children)
    && forall i :: 0 <= i < |s[k].children| ==>
         var c := s[k].children[i].key;
         k < c < |s| && s[c].parent == Some(k) && s[c].name == s[k].children[i].name
  }

  /** Node `k` carries inode `k + 1` and has the shape above. */
  ghost predicate WellFormed(s: seq<File>) {
    && (forall k :: 0 <= k < |s| ==> s[k].inode == k + 1)
    && (forall k {:trigger NodeOk(s, k)} :: 0 <= k < |s| ==> NodeOk(s, k))
  }

  /** `File::is_root`: in a well-formed arena, exactly the nodes no directory lists as a child. */
  lemma IsRootIffUnlisted(s: seq<File>, k: nat)
    requires WellFormed(s) && k < |s|
    ensures s[k].IsRoot() <==>
      forall p, i :: 0 <= p < |s| && 0 <= i < |s[p].children| ==> s[p].children[i].key != k
  {
    assert NodeOk(s, k);
    if !s[k].IsRoot() {
      var q := s[k].parent.value;
      var i :| 0 <= i < |s[q].children| && s[q].children[i] == Entry(s[k].name, k);
    } else {
      forall p, i | 0 <= p < |s| && 0 <= i < |s[p].children| ensures s[p].children[i].key != k {
        assert NodeOk(s, p);
      }
    }
  }

  /** The key `_create_file` returns early with: an existing child of that name. */
  function ExistingChild(s: seq<File>, name: string, parent: Option<FileKey>): Option<FileKey>
    requires parent.Some? ==> parent.value < |s|
  {
    if parent.Some? then Get(s[parent.value].children, name) else None
  }

  /** The slot map after a fresh creation: one node appended, the parent's children extended. */
  ghost function AddNode(s: seq<File>, name: string, fileType: FileType, parent: Option<FileKey>): seq<File>
    requires parent.Some? ==> parent.value < |s|
  {
    var key := |s|;
    var s1 := s + [File(key + 1, name, fileType, parent, [])];
    if parent.Some? then
      s1[parent.value := s1[parent.value].(children := Insert(s[parent.value].children, name, key))]
    else s1
  }

  lemma AddNodeWellFormed(s: seq<File>, name: string, fileType: FileType, parent: Option<FileKey>)
    requires WellFormed(s)
    requires parent.Some? ==> parent.value < |s|
    requires ExistingChild(s, name, parent).None?
    ensures WellFormed(AddNode(s, name, fileType, parent))
  {
    var t := AddNode(s, name, fileType, parent);
    forall k | 0 <= k < |t| ensures NodeOk(t, k) {
      AddNodeKeepsNode(s, name, fileType, parent, k);
    }
  }

  /** Where the arena after a fresh creation differs from the one before. */
  lemma AddNodeAt(s: seq<File>, name: string, fileType: FileType, parent: Option<FileKey>)
    requires parent.Some? ==> parent.value < |s|
    ensures var t := AddNode(s, name, fileType, parent);
      && |t| == |s| + 1
      && t[|s|] == File(|s| + 1, name, fileType, parent, [])
      && (forall j :: 0 <= j < |s| && parent != Some(j) ==> t[j] == s[j])
      && (parent.Some? ==> t[parent.value] == s[parent.value].(children := Insert(s[parent.value].children, name, |s|)))
  {
  }

  /** One node of the arena after a fresh creation keeps its shape. */
  lemma AddNodeKeepsNode(s: seq<File>, name: string, fileType: FileType, parent: Option<FileKey>, k: nat)
    requires WellFormed(s)
    requires parent.Some? ==> parent.value < |s|
    requires ExistingChild(s, name, parent).None?
    requires k <= |s|
    ensures NodeOk(AddNode(s, name, fileType, parent), k)
  {
    AddNodeAt(s, name, fileType, parent);
    var t := AddNode(s, name, fileType, parent);
    var key := |s|;
    if k == key {
      if parent.Some? {
        assert NodeOk(s, parent.value);
        GetAfterInsert(s[parent.value].children, name, key, name);
      }
    } else if parent == Some(k) {
      NewChildKeepsParent(s, t, name, key, k);
    } else {
      OtherNodeKept(s, t, name, key, parent, k);
    }
  }

  lemma NewChildKeepsParent(s: seq<File>, t: seq<File>, name: string, key: nat, k: nat)
    requires WellFormed(s) && k < |s| == key && |t| == |s| + 1
    requires Get(s[k].children, name).None?
    requires forall j :: 0 <= j < |s| && j != k ==> t[j] == s[j]
    requires t[k] == s[k].(children := Insert(s[k].children, name, key))
    requires t[key].parent == Some(k) && t[key].name == name
    ensures NodeOk(t, k)
  {
    assert NodeOk(s, k);
    if s[k].parent.Some? {
      assert NodeOk(s, s[k].parent.value);
    }
    InsertSorted(s[k].children, name, key);
    InsertEntries(s[k].children, name, key);
    forall i | 0 <= i < |t[k].children|
      ensures var c := t[k].children[i].key;
        k < c < |t| && t[c].parent == Some(k) && t[c].name == t[k].children[i].name
    {
      var e := t[k].children[i];
      assert e in s[k].children || e == Entry(name, key);
      if e != Entry(name, key) {
        var j :| 0 <= j < |s[k].children| && s[k].children[j] == e;
      }
    }
  }

  lemma OtherNodeKept(s: seq<File>, t: seq<File>, name: string, key: nat, parent: Option<FileKey>, k: nat)
    requires WellFormed(s) && k < |s| == key && |t| == |s| + 1
    requires parent != Some(k)
    requires parent.Some? ==> parent.value < |s| && Get(s[parent.value].children, name).None?
    requires forall j :: 0 <= j < |s| && parent != Some(j) ==> t[j] == s[j]
    requires parent.Some? ==> t[parent.value] == s[parent.value].(children := Insert(s[parent.value].children, name, key))
    ensures NodeOk(t, k)
  {
    assert NodeOk(s, k);
    assert t[k] == s[k];
    if s[k].parent.Some? {
      var q := s[k].parent.value;
      assert NodeOk(s, q);
      if parent == Some(q) {
        GetAfterInsert(s[q].children, name, key, s[k].name);
      }
    }
    forall i | 0 <= i < |t[k].children|
      ensures var c := t[k].children[i].key;
        k < c < |t| && t[c].parent == Some(k) && t[c].name == t[k].children[i].name
    {
      var c := s[k].children[i].key;
      assert t[c].parent == s[c].parent && t[c].name == s[c].name;
    }
  }

  // ---------------------------------------------------------------------------
  // The tree

  class FileTree {
    var sm: seq<File>
    var root: Option<FileKey>
    var currentInode: nat
    var inodeToFileKey: map<nat, FileKey>

    /** Everything but the root: what holds while `new` is still creating the root. */
    ghost predicate Consistent()
      reads this
    {
      && WellFormed(sm)
      && currentInode == |sm| + 1
      && (forall i :: i in inodeToFileKey <==> 1 <= i <= |sm|)
      && (forall i :: i in inodeToFileKey ==> inodeToFileKey[i] == i - 1)
    }

    ghost predicate Valid()
      reads this
    {
      && Consistent()
      && root == Some(0)
      && |sm| >= 1
      && sm[0].IsRoot() && sm[0].name == "" && sm[0].fileType == Directory
    }

    /** `FileTree::new`: a tree holding only the root directory, inode 1. */
    constructor (expectedNumberOfFiles: nat)
      ensures Valid()
      ensures sm == [File(1, "", Directory, None, [])]
      ensures currentInode == 2 && inodeToFileKey == map[1 := 0]
    {
      sm := [];
      root := None;
      currentInode := 1;
      inodeToFileKey := map[];
      new;
      var rootKey := CreateDirectory("", None);
      root := Some(rootKey);
    }

    /**
     * `FileTree::_create_file`. Creating a name that already exists under the
     * parent returns the existing key and changes nothing; otherwise a node with
     * the next inode is appended, indexed, and entered in the parent's children.
     */
    method CreateFileNode(name: string, fileType: FileType, parent: Option<FileKey>) returns (key: FileKey)
      requires Consistent()
      requires parent.Some? ==> parent.value < |sm|
      modifies this
      ensures Consistent() && root == old(root)
      ensures old(Valid()) ==> Valid()
      ensures ExistingChild(old(sm), name, parent).Some? ==>
        && key == ExistingChild(old(sm), name, parent).value
        && sm == old(sm) && currentInode == old(currentInode) && inodeToFileKey == old(inodeToFileKey)
      ensures ExistingChild(old(sm), name, parent).None? ==>
        && key == old(|sm|) && |sm| == old(|sm|) + 1
        && sm[key] == File(old(currentInode), name, fileType, parent, [])
        && (forall k :: 0 <= k < old(|sm|) && parent != Some(k) ==> sm[k] == old(sm[k]))
        && (parent.Some? ==>
              sm[parent.value] == old(sm[parent.value]).(children := Insert(old(sm[parent.value].children), name, key)))
        && currentInode == old(currentInode) + 1
        && inodeToFileKey == old(inodeToFileKey)[old(currentInode) := key]
    {
      if parent.Some? {
        var existing := Get(sm[parent.value].children, name);
        if existing.Some? {
          return existing.value;
        }
      }
      key := |sm|;
      sm := sm + [File(currentInode, name, fileType, parent, [])];
      inodeToFileKey := inodeToFileKey[currentInode := key];
      currentInode := currentInode + 1;
      if parent.Some? {
        var p := parent.value;
        sm := sm[p := sm[p].(children := Insert(sm[p].children, name, key))];
      }
      AddNodeWellFormed(old(sm), name, fileType, parent);
      assert sm == AddNode(old(sm), name, fileType, parent);
    }

    /** `FileTree::create_file`: a minute file with its time bounds. */
    method CreateFile(name: string, timeBounds: TimeBounds, parent: Option<FileKey>) returns (key: FileKey)
      requires Consistent()
      requires parent.Some? ==> parent.value < |sm|
      modifies this
      ensures Consistent() && root == old(root)
      ensures old(Valid()) ==> Valid()
      ensures ExistingChild(old(sm), name, parent).Some? ==>
        && key == ExistingChild(old(sm), name, parent).value
        && sm == old(sm) && currentInode == old(currentInode) && inodeToFileKey == old(inodeToFileKey)
      ensures ExistingChild(old(sm), name, parent).None? ==>
        && key == old(|sm|) && |sm| == old(|sm|) + 1
        && sm[key] == File(old(currentInode), name, TimeFile(timeBounds), parent, [])
        && (forall k :: 0 <= k < old(|sm|) && parent != Some(k) ==> sm[k] == old(sm[k]))
        && (parent.Some? ==>
              sm[parent.value] == old(sm[parent.value]).(children := Insert(old(sm[parent.value].children), name, key)))
        && currentInode == old(currentInode) + 1
        && inodeToFileKey == old(inodeToFileKey)[old(currentInode) := key]
    {
      key := CreateFileNode(name, TimeFile(timeBounds), parent);
    }

    /** `FileTree::create_directory`. */
    method CreateDirectory(name: string, parent: Option<FileKey>) returns (key: FileKey)
      requires Consistent()
      requires parent.Some? ==> parent.value < |sm|
      modifies this
      ensures Consistent() && root == old(root)
      ensures old(Valid()) ==> Valid()
      ensures ExistingChild(old(sm), name, parent).Some? ==>
        && key == ExistingChild(old(sm), name, parent).value
        && sm == old(sm) && currentInode == old(currentInode) && inodeToFileKey == old(inodeToFileKey)
      ensures ExistingChild(old(sm), name, parent).None? ==>
        && key == old(|sm|) && |sm| == old(|sm|) + 1
        && sm[key] == File(old(currentInode), name, Directory, parent, [])
        && (forall k :: 0 <= k < old(|sm|) && parent != Some(k) ==> sm[k] == old(sm[k]))
        && (parent.Some? ==>
              sm[parent.value] == old(sm[parent.value]).(children := Insert(old(sm[parent.value].children), name, key)))
        && currentInode == old(currentInode) + 1
        && inodeToFileKey == old(inodeToFileKey)[old(currentInode) := key]
    {
      key := CreateFileNode(name, Directory, parent);
    }

    /** `FileTree::get_root`. */
    function GetRoot(): (r: Option<FileKey>)
      reads this
      requires Valid()
      ensures r.Some? && r.value < |sm| && sm[r.value].IsRoot() && sm[r.value].inode == 1
    {
      root
    }

    /** `FileTree::get_file_by_inode`: found exactly for the inodes handed out so far. */
    function GetFileByInode(inode: nat): (r: Option<FileWithFileKey>)
      reads this
      requires Consistent()
      ensures r.Some? <==> 1 <= inode < currentInode
      ensures r.Some? ==> r.value.fileKey < |sm| && r.value.file == sm[r.value.fileKey] && r.value.file.inode == inode
    {
      if inode in inodeToFileKey then
        var k := inodeToFileKey[inode];
        Some(FileWithFileKey(sm[k], k))
      else None
    }

    /** `FileTree::get_child_for_inode`. */
    function GetChildForInode(parent: nat, filename: string): (r: Option<FileWithFileKey>)
      reads this
      requires Consistent()
      ensures r.None? <==>
        GetFileByInode(parent).None? || Get(GetFileByInode(parent).value.file.children, filename).None?
      ensures r.Some? ==>
        && r.value.fileKey < |sm| && r.value.file == sm[r.value.fileKey]
        && r.value.file.name == filename
        && r.value.file.parent == Some(GetFileByInode(parent).value.fileKey)
    {
      var directory := GetFileByInode(parent);
      if directory.None? then None
      else
        match Get(directory.value.file.children, filename)
        case Some(child) =>
          assert NodeOk(sm, directory.value.fileKey);
          Some(FileWithFileKey(sm[child], child))
        case None => None
    }

    /** `FileTree::list_directory`: the children, in ascending name order. */
    function ListDirectory(directory: FileKey): (r: seq<FileWithFileKey>)
      reads this
      requires Consistent() && directory < |sm|
      ensures |r| == |sm[directory].children|
      ensures forall i :: 0 <= i < |r| ==>
        && r[i].fileKey == sm[directory].children[i].key
        && r[i].fileKey < |sm| && r[i].file == sm[r[i].fileKey]
        && r[i].file.parent == Some(directory)
      ensures forall i, j :: 0 <= i < j < |r| ==> Less(r[i].file.name, r[j].file.name)
    {
      assert NodeOk(sm, directory);
      Resolve(sm, sm[directory].children)
    }

    /** `FileTree::list_root`. */
    function ListRoot(): (r: seq<FileWithFileKey>)
      reads this
      requires Valid()
      ensures r == ListDirectory(0)
    {
      ListDirectory(root.value)
    }

    /** `FileTree::get_parent_for_ls`: the parent, or the root for a node without one. */
    function GetParentForLs(file: FileKey): (r: FileWithFileKey)
      reads this
      requires Valid() && file < |sm|
      ensures r.fileKey < |sm| && r.file == sm[r.fileKey]
      ensures sm[file].parent.Some? ==> Get(r.file.children, sm[file].name) == Some(file)
      ensures sm[file].parent.None? ==> r.file.IsRoot() && r.file.inode == 1
    {
      assert NodeOk(sm, file);
      match sm[file].parent
      case Some(p) => FileWithFileKey(sm[p], p)
      case None => FileWithFileKey(sm[root.value], root.value)
    }
  }

  /** The nodes a children map names, in its order. */
  function Resolve(s: seq<File>, c: seq<Entry>): (r: seq<FileWithFileKey>)
    requires forall i :: 0 <= i < |c| ==> c[i].key < |s|
    ensures |r| == |c|
    ensures forall i :: 0 <= i < |r| ==> r[i] == FileWithFileKey(s[c[i].key], c[i].key)
  {
    if c == [] then [] else [FileWithFileKey(s[c[0].key], c[0].key)] + Resolve(s, c[1..])
  }

  /** Inodes are unique and every allocated inode is below the counter. */
  lemma InodesUnique(tree: FileTree)
    requires tree.Consistent()
    ensures forall i, j :: 0 <= i < j < |tree.sm| ==> tree.sm[i].inode != tree.sm[j].inode
    ensures forall k :: 0 <= k < |tree.sm| ==> tree.sm[k].inode < tree.currentInode
  {
  }

  /**
   * A name appears in a directory's listing exactly when looking it up under that
   * directory finds it, and the lookup finds the very node the listing shows.
   */
  lemma ListingAgreesWithLookup(tree: FileTree, inode: nat, name: string)
    requires tree.Consistent()
    requires tree.GetFileByInode(inode).Some?
    ensures var dir := tree.GetFileByInode(inode).value.fileKey;
      (exists i :: 0 <= i < |tree.ListDirectory(dir)| && tree.ListDirectory(dir)[i].file.name == name)
      <==> tree.GetChildForInode(inode, name).Some?
    ensures var dir := tree.GetFileByInode(inode).value.fileKey;
      forall i :: 0 <= i < |tree.ListDirectory(dir)| && tree.ListDirectory(dir)[i].file.name == name ==>
        tree.GetChildForInode(inode, name) == Some(tree.ListDirectory(dir)[i])
  {
    var dir := tree.GetFileByInode(inode).value.fileKey;
    var listing := tree.ListDirectory(dir);
    assert NodeOk(tree.sm, dir);
    var c := tree.sm[dir].children;
    forall i | 0 <= i < |listing| && listing[i].file.name == name
      ensures tree.GetChildForInode(inode, name) == Some(listing[i])
    {
      assert c[i].name == name;
      GetFindsEntry(c, i);
    }
    if tree.GetChildForInode(inode, name).Some? {
      var k := Get(c, name).value;
      var i :| 0 <= i < |c| && c[i] == Entry(name, k);
      assert listing[i].file.name == name;
    }
  }
}
