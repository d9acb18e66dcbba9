/** Parsing layers into trees and assembling the filesystem, within limits over all layers. */
module VfsBuilder {
  import opened Machine
  import opened Wrappers
  import opened LittleEndian
  import opened VfsTree
  import opened Vfs

  class Layer {
    var files: map<Path, Data>
    var directories: set<Path>

    constructor ()
      ensures View() == Tree(map[], {})
    {
      files, directories := map[], {};
    }

    ghost function View(): Tree
      reads this
    {
      Tree(files, directories)
    }

    /** `retain` drops the path and everything below it. */
    method RemoveSubtree(path: Path)
      modifies this
      ensures View() == VfsTree.RemoveSubtree(old(View()), path)
    {
      files := map p | p in files && !AtOrUnder(p, path) :: files[p];
      directories := set p | p in directories && !AtOrUnder(p, path);
    }

    method InsertFile(path: Path, data: Data)
      modifies this
      ensures View() == VfsTree.InsertFile(old(View()), path, data)
    {
      RemoveSubtree(path);
      files := files[path := data];
    }

    method InsertDirectory(path: Path)
      modifies this
      ensures View() == VfsTree.InsertDirectory(old(View()), path)
    {
      files := files - {path};
      directories := directories + {path};
    }
  }

  class Builder {
    const limits: VfsLimits
    const inflate: Inflate
    var entries: nat
    var blocks: nat
    var aggregateBytes: nat
    const tree: Layer

    constructor (limits: VfsLimits, inflate: Inflate)
      ensures fresh(tree) && this.limits == limits && this.inflate == inflate
      ensures tree.View() == Tree(map[], {[]}) && WithinLimits() && Spent() == NO_USAGE
    {
      this.limits, this.inflate := limits, inflate;
      entries, blocks, aggregateBytes := 0, 0, 0;
      var root := new Layer();
      tree := root;
      new;
      tree.directories := {[]};
    }

    function Spent(): Usage
      reads this
    {
      Usage(entries, blocks, aggregateBytes)
    }

    predicate WithinLimits()
      reads this
    {
      Spent().Within(limits)
    }

    method ChargeEntries(count: nat) returns (r: Result<(), VfsError>)
      requires WithinLimits()
      modifies this`entries
      ensures r.Ok? ==> WithinLimits() && entries == old(entries) + count
      ensures r.Ok? <==> old(entries) + count <= limits.maxEntries
    {
      entries := entries + count;
      return if entries > limits.maxEntries then Err(LimitExceeded) else Ok(());
    }

    /** Decompresses a file block by block; an accepted file has exactly its declared size. */
    method ParseFile(input: seq<u8>, offset: nat, size: nat, blockSize: nat) returns (r: Result<Data, VfsError>)
      requires WithinLimits() && size > 0 && blockSize > 0
      modifies this`aggregateBytes, this`blocks
      ensures r.Ok? ==> |r.value| == size && FileAt(input, offset, size, blockSize, r.value, inflate)
      ensures r.Ok? ==> WithinLimits() && Spent() == old(Spent()).Plus(Usage(0, BlockCount(size, blockSize), size))
      ensures r.Ok? <==>
              && size <= limits.maxFileBytes && blockSize <= limits.maxBlockBytes
              && old(Spent()).Plus(Usage(0, BlockCount(size, blockSize), size)).Within(limits)
              && exists data :: FileAt(input, offset, size, blockSize, data, inflate)
    {
      hide FileAt, BlockCount;
      if size > limits.maxFileBytes || blockSize > limits.maxBlockBytes {
        return Err(LimitExceeded);
      }
      aggregateBytes := aggregateBytes + size;
      if aggregateBytes > limits.maxAggregateBytes {
        return Err(LimitExceeded);
      }
      var count := BlockCount(size, blockSize);
      blocks := blocks + count;
      if blocks > limits.maxBlocks {
        return Err(LimitExceeded);
      }
      ghost var hope: Option<seq<Data>> := None;
      if data :| FileAt(input, offset, size, blockSize, data, inflate) {
        var pieces := PiecesOf(input, offset, size, blockSize, data, inflate);
        hope := Some(pieces);
      }
      if offset + 4 * count > |input| {
        return Err(Truncated);
      }
      r := ReadBlocks(input, offset, count, size, blockSize, hope);
    }

    method ReadBlocks(input: seq<u8>, offset: nat, count: nat, size: nat, blockSize: nat, ghost hope: Option<seq<Data>>)
      returns (r: Result<Data, VfsError>)
      requires size > 0 && blockSize > 0 && count == BlockCount(size, blockSize) && offset + 4 * count <= |input|
      ensures r.Ok? ==> |r.value| == size && FileAt(input, offset, size, blockSize, r.value, inflate)
      ensures (&& hope.Some? && |hope.value| == count
               && PiecesAt(input, offset, count, size, blockSize, hope.value, inflate)) ==> r.Ok?
    {
      hide PiecesAt, BlockIs, BlockStart, BlockCount, Flatten, U32At;
      var output: Data := [];
      ghost var pieces: seq<Data> := [];
      ghost var hoped := hope.Some? && |hope.value| == count
                         && PiecesAt(input, offset, count, size, blockSize, hope.value, inflate);
      var compressedOffset := offset + 4 * count;
      NoPieces(input, offset, count, size, blockSize, inflate);
      for block := 0 to count
        invariant |pieces| == block && Flatten(pieces) == output && |output| <= size
        invariant PiecesAt(input, offset, count, size, blockSize, pieces, inflate)
        invariant compressedOffset == BlockStart(input, offset, count, block) <= |input|
        invariant count - block == BlockCount(size - |output|, blockSize)
        invariant hoped ==> pieces == hope.value[..block]
      {
        BlocksLeft(size - |output|, blockSize);
        NextBlock(input, offset, count, block);
        if hoped {
          PieceThere(input, offset, count, size, blockSize, hope.value, block, inflate);
        }
        var compressedSize := ReadU32(input, offset + block * 4).value;
        var compressedEnd := compressedOffset + compressedSize;
        if compressedEnd > |input| {
          return Err(Truncated);
        }
        var expected := Min(blockSize, size - |output|);
        var inflated := inflate(input[compressedOffset..compressedEnd]);
        if inflated.None? {
          return Err(InvalidZlib);
        }
        if |inflated.value| != expected {
          return Err(BlockSizeMismatch);
        }
        OnePiece(input, offset, count, size, blockSize, pieces, inflated.value, inflate);
        output := output + inflated.value;
        pieces := pieces + [inflated.value];
        compressedOffset := compressedEnd;
      }
      BlocksLeft(size - |output|, blockSize);
      FileFound(input, offset, size, blockSize, pieces, inflate);
      return Ok(output);
    }

    /** These entries are what the table at `offset` holds, and the limits leave room for them. */
    ghost predicate Expected(list: seq<Entry>, input: seq<u8>, offset: nat, parent: Path, depth: nat)
      reads this
    {
      && depth <= limits.maxDepth && DirectoryAt(input, offset, list, inflate)
      && (forall k :: 0 <= k < |list| ==> Bounded(limits, list[k], parent, depth))
      && Spent().Plus(UsageOf(list)).Within(limits)
    }

    /** Parses a directory table into `layer`; every child lies further on in the input. */
    method ParseDirectory(input: seq<u8>, offset: nat, parent: Path, depth: nat, layer: Layer,
                          ghost hope: Option<seq<Entry>>)
      returns (r: Result<(), VfsError>, ghost list: seq<Entry>)
      requires WithinLimits() && Rooted(layer.View(), parent).Ok()
      modifies this`entries, this`blocks, this`aggregateBytes, layer
      ensures r.Ok? ==> DirectoryAt(input, offset, list, inflate)
      ensures r.Ok? ==> layer.View() == InsertEntries(Rooted(old(layer.View()), parent), parent, list)
      ensures r.Ok? ==> depth <= limits.maxDepth && forall k :: 0 <= k < |list| ==>
                Bounded(limits, list[k], parent, depth)
      ensures r.Ok? ==> WithinLimits() && Spent() == old(Spent()).Plus(UsageOf(list))
      ensures hope.Some? && old(Expected(hope.value, input, offset, parent, depth)) ==> r.Ok?
      decreases |input| - offset, 0
    {
      hide Tree.Ok, EntryAt, Bounded, InsertEntry, UsageOf;
      list := [];
      ghost var hoped := hope.Some? && Expected(hope.value, input, offset, parent, depth);
      if hoped {
        PrefixUsage(hope.value, 0);
      }
      if depth > limits.maxDepth {
        return Err(LimitExceeded), list;
      }
      var count := ReadU32(input, offset);
      if count.None? {
        return Err(Truncated), list;
      }
      var charged := ChargeEntries(count.value);
      if charged.Err? {
        return charged, list;
      }
      var tableStart := offset + 4;
      if tableStart + ENTRY_BYTES * count.value > |input| {
        return Err(Truncated), list;
      }
      layer.directories := layer.directories + {parent};
      r, list := ParseTable(input, tableStart, count.value, parent, depth, layer, if hoped then hope else None);
    }

    /** These entries are what the table holds, with their number charged already. */
    ghost predicate ExpectedTable(list: seq<Entry>, input: seq<u8>, tableStart: nat, parent: Path, depth: nat)
      reads this
    {
      && (forall k :: 0 <= k < |list| ==> EntryAt(input, tableStart + ENTRY_BYTES * k, list[k], inflate))
      && (forall k :: 0 <= k < |list| ==> Bounded(limits, list[k], parent, depth))
      && entries + UsageOf(list).entries <= limits.maxEntries + |list|
      && blocks + UsageOf(list).blocks <= limits.maxBlocks
      && aggregateBytes + UsageOf(list).bytes <= limits.maxAggregateBytes
    }

    /** Parses the entries of one directory table in order. */
    method ParseTable(input: seq<u8>, tableStart: nat, count: nat, parent: Path, depth: nat, layer: Layer,
                      ghost hope: Option<seq<Entry>>)
      returns (r: Result<(), VfsError>, ghost list: seq<Entry>)
      requires WithinLimits() && layer.View().Ok() && parent in layer.View().directories
      requires tableStart + ENTRY_BYTES * count <= |input|
      modifies this`entries, this`blocks, this`aggregateBytes, layer
      ensures r.Ok? ==> |list| == count && layer.View() == InsertEntries(old(layer.View()), parent, list)
      ensures r.Ok? ==> forall k :: 0 <= k < count ==> EntryAt(input, tableStart + ENTRY_BYTES * k, list[k], inflate)
      ensures r.Ok? ==> forall k :: 0 <= k < count ==> Bounded(limits, list[k], parent, depth)
      ensures r.Ok? ==> WithinLimits() && Spent().Plus(Usage(count, 0, 0)) == old(Spent()).Plus(UsageOf(list))
      ensures hope.Some? && |hope.value| == count ==>
                (old(ExpectedTable(hope.value, input, tableStart, parent, depth)) ==> r.Ok?)
      decreases |input| - tableStart, 1
    {
      hide Tree.Ok, EntryAt, Bounded, InsertEntry, InsertEntries, EntryUsage, UsageOf, Tree.At;
      list := [];
      ghost var hoped := hope.Some? && |hope.value| == count
                         && ExpectedTable(hope.value, input, tableStart, parent, depth);
      NothingUsed(layer.View(), parent);
      for index := 0 to count
        invariant WithinLimits() && |list| == index
        invariant layer.View() == InsertEntries(old(layer.View()), parent, list)
        invariant Spent().Plus(Usage(index, 0, 0)) == old(Spent()).Plus(UsageOf(list))
        invariant forall k :: 0 <= k < index ==> EntryAt(input, tableStart + ENTRY_BYTES * k, list[k], inflate)
        invariant forall k :: 0 <= k < index ==> Bounded(limits, list[k], parent, depth)
        invariant hoped ==> list == hope.value[..index]
      {
        EntriesStayBelow(old(layer.View()), parent, list);
        if hoped {
          NextUsage(hope.value, index);
        }
        var at := tableStart + ENTRY_BYTES * index;
        var parsed, e := ParseEntry(input, at, parent, depth, layer, if hoped then Some(hope.value[index]) else None);
        if parsed.Err? {
          return parsed, list;
        }
        if hoped {
          SameEntry(input, at, e, hope.value[index], inflate);
        }
        InsertOne(old(layer.View()), parent, list, e);
        list := list + [e];
      }
      return Ok(()), list;
    }

    /** Parses one 48-byte entry and what it refers to. */
    method ParseEntry(input: seq<u8>, at: nat, parent: Path, depth: nat, layer: Layer, ghost hope: Option<Entry>)
      returns (r: Result<(), VfsError>, ghost e: Entry)
      requires at + ENTRY_BYTES <= |input|
      requires WithinLimits() && layer.View().Ok() && parent in layer.View().directories
      modifies this`entries, this`blocks, this`aggregateBytes, layer
      ensures r.Ok? ==> EntryAt(input, at, e, inflate) && Bounded(limits, e, parent, depth)
      ensures r.Ok? ==> layer.View() == InsertEntry(old(layer.View()), parent, e)
      ensures r.Ok? ==> WithinLimits() && Spent() == old(Spent()).Plus(EntryUsage(e))
      ensures (&& hope.Some? && EntryAt(input, at, hope.value, inflate) && Bounded(limits, hope.value, parent, depth)
               && old(Spent()).Plus(EntryUsage(hope.value)).Within(limits)) ==> r.Ok?
      decreases |input| - at, 0
    {
      hide Tree.Ok, DirectoryAt, FileAt, InsertEntries, ParseName, UsageOf, BlockCount;
      e := EmptyFile([]);
      var name := ParseName(input[at..at + NAME_BYTES]);
      if name.Err? {
        return Err(name.error), e;
      }
      var path := parent + [name.value];
      if |Joined(path)| > Min(limits.maxPathBytes, SPEC_MAX_PATH_BYTES) {
        return Err(LimitExceeded), e;
      }
      var childOffset := U32At(input, at + 36);
      var size, blockSize := U32At(input, at + 40), U32At(input, at + 44);
      if childOffset == 0 && size == 0 && blockSize == 0 {
        layer.InsertFile(path, []);
        e := EmptyFile(name.value);
      } else if size == 0 && blockSize == 0 {
        if childOffset <= at {
          return Err(OffsetOrder), e;
        }
        DirectoryReady(layer.View(), parent, name.value);
        layer.InsertDirectory(path);
        var parsed, children := ParseDirectory(input, childOffset, path, depth + 1, layer, ChildrenOf(hope));
        if parsed.Err? {
          return parsed, e;
        }
        e := DirectoryEntry(name.value, children);
      } else if childOffset != 0 && size != 0 && blockSize != 0 {
        if childOffset <= at {
          return Err(OffsetOrder), e;
        }
        if hope.Some? && hope.value.FileEntry? && EntryAt(input, at, hope.value, inflate) {
          FileSize(input, childOffset, size, blockSize, hope.value.data, inflate);
        }
        var data := ParseFile(input, childOffset, size, blockSize);
        if data.Err? {
          return Err(data.error), e;
        }
        layer.InsertFile(path, data.value);
        e := FileEntry(name.value, data.value, blockSize);
      } else {
        return Err(InvalidEntry), e;
      }
      return Ok(()), e;
    }

    /** Applies a parsed layer: its directories first, then its files, each replacing what is in its way. */
    method Apply(layer: Layer)
      requires tree.View().Ok() && layer.View().Ok() && layer != tree
      modifies tree
      ensures tree.View().Ok()
      ensures forall p :: tree.View().At(p) == OverlayAt(old(tree.View()).At(p), layer.View(), p)
    {
      hide Tree.Ok, DirectoriesMerged, FilesMerged;
      ghost var base := tree.View();
      MergeDirectories(layer.directories);
      MergeFiles(layer);
      Merged(base, layer.View(), tree.View());
    }

    method MergeDirectories(all: set<Path>)
      modifies tree
      ensures tree.View() == DirectoriesMerged(old(tree.View()), all)
    {
      var directories := all;
      while directories != {}
        invariant directories <= all
        invariant tree.View() == DirectoriesMerged(old(tree.View()), all - directories)
        decreases directories
      {
        var directory :| directory in directories;
        if directory != [] {
          tree.files := tree.files - {directory};
          tree.directories := tree.directories + {directory};
        }
        RootStays(old(tree.View()), all - directories, directory);
        assert all - (directories - {directory}) == (all - directories) + {directory};
        directories := directories - {directory};
      }
      assert all - {} == all;
    }

    method MergeFiles(layer: Layer)
      requires layer.View().Ok() && layer != tree
      modifies tree
      ensures FilesMerged(old(tree.View()), layer.View(), layer.files.Keys, tree.View())
    {
      hide Tree.Ok, FilesMerged;
      var paths := layer.files.Keys;
      NoFilesMerged(tree.View(), layer.View());
      assert layer.files.Keys - paths == {};
      while paths != {}
        invariant paths <= layer.files.Keys
        invariant FilesMerged(old(tree.View()), layer.View(), layer.files.Keys - paths, tree.View())
        decreases paths
      {
        var path :| path in paths;
        MergeFile(old(tree.View()), layer.View(), layer.files.Keys - paths, tree.View(), path);
        tree.InsertFile(path, layer.files[path]);
        assert layer.files.Keys - (paths - {path}) == (layer.files.Keys - paths) + {path};
        paths := paths - {path};
      }
      assert layer.files.Keys - {} == layer.files.Keys;
    }
  }

  /** Applying a layer again changes nothing. */
  method ApplyTwice(builder: Builder, layer: Layer) returns (ghost once: Tree)
    requires builder.tree.View().Ok() && layer.View().Ok() && layer != builder.tree
    modifies builder.tree
    ensures builder.tree.View() == once && once.Ok()
    ensures forall p :: once.At(p) == OverlayAt(old(builder.tree.View()).At(p), layer.View(), p)
  {
    hide Tree.Ok;
    builder.Apply(layer);
    once := builder.tree.View();
    builder.Apply(layer);
    SameNodes(once, builder.tree.View());
  }

  /** The tree with the given directories entered and files in their place dropped; the root stays as it is. */
  function DirectoriesMerged(t: Tree, directories: set<Path>): Tree
  {
    Tree(t.files - (directories - {[]}), t.directories + (directories - {[]}))
  }

  lemma RootStays(t: Tree, directories: set<Path>, d: Path)
    ensures d == [] ==> DirectoriesMerged(t, directories + {d}) == DirectoriesMerged(t, directories)
    ensures d != [] ==> DirectoriesMerged(t, directories + {d}) ==
                        Tree(DirectoriesMerged(t, directories).files - {d},
                             DirectoriesMerged(t, directories).directories + {d})
  {
  }

  ghost predicate Shadowed(done: set<Path>, p: Path) { exists f :: f in done && AtOrUnder(p, f) }

  /** The files in `done` have been written over `t`. */
  ghost predicate FilesMerged(t: Tree, top: Tree, done: set<Path>, now: Tree)
  {
    && done <= top.files.Keys
    && (forall p :: p in now.files <==> p in done || (p in t.files && !Shadowed(done, p)))
    && (forall p :: p in now.files ==> now.files[p] == if p in done then top.files[p] else t.files[p])
    && (forall p :: p in now.directories <==> p in t.directories && !Shadowed(done, p))
  }

  lemma NoFilesMerged(t: Tree, top: Tree)
    ensures FilesMerged(t, top, {}, t)
  {
  }

  lemma ShadowGrows(done: set<Path>, path: Path, p: Path)
    ensures Shadowed(done + {path}, p) <==> Shadowed(done, p) || AtOrUnder(p, path)
  {
  }

  lemma MergeFile(t: Tree, top: Tree, done: set<Path>, now: Tree, path: Path)
    requires top.Ok() && FilesMerged(t, top, done, now) && path in top.files && path !in done
    ensures FilesMerged(t, top, done + {path}, VfsTree.InsertFile(now, path, top.files[path]))
  {
    hide Tree.Ok, AtOrUnder, Shadowed;
    forall p
      ensures Shadowed(done + {path}, p) <==> Shadowed(done, p) || AtOrUnder(p, path)
    {
      ShadowGrows(done, path, p);
    }
    forall p | p in done
      ensures !AtOrUnder(p, path)
    {
      FilesApart(top, p, path);
    }
    UnderItself(path);
  }

  lemma UnderItself(path: Path)
    ensures AtOrUnder(path, path)
  {
  }

  /** No file of a tree lies below another. */
  lemma FilesApart(t: Tree, p: Path, q: Path)
    requires t.Ok() && p in t.files && q in t.files && p != q
    ensures !AtOrUnder(p, q)
  {
    if q <= p {
      AncestorsAreDirectories(t, p, q);
    }
  }

  /** After both passes the nodes are those of the overlay, and the result is a tree. */
  lemma Merged(base: Tree, top: Tree, now: Tree)
    requires base.Ok() && top.Ok()
    requires FilesMerged(DirectoriesMerged(base, top.directories), top, top.files.Keys, now)
    ensures forall p :: now.At(p) == OverlayAt(base.At(p), top, p)
    ensures now.Ok()
  {
    hide Tree.Ok;
    forall p
      ensures now.At(p) == OverlayAt(base.At(p), top, p)
    {
      MergedAt(base, top, now, p);
    }
    MergedDisjoint(base, top, now);
    OverlayOk(base, top, now);
  }

  lemma MergedDisjoint(base: Tree, top: Tree, now: Tree)
    requires base.Ok() && top.Ok()
    requires FilesMerged(DirectoriesMerged(base, top.directories), top, top.files.Keys, now)
    ensures forall p :: p in now.directories ==> p !in now.files
  {
  }

  lemma MergedAt(base: Tree, top: Tree, now: Tree, p: Path)
    requires base.Ok() && top.Ok()
    requires FilesMerged(DirectoriesMerged(base, top.directories), top, top.files.Keys, now)
    ensures now.At(p) == OverlayAt(base.At(p), top, p)
  {
    hide Tree.Ok;
    RootIsDirectory(base);
    RootIsDirectory(top);
    if f :| f in top.files && AtOrUnder(p, f) && f != p {
      assert f < p;
      assert Covered(top, p);
      if p in top.files || p in top.directories {
        AncestorsAreDirectories(top, p, f);
      }
    }
    if p in top.directories {
      Exclusive(top, p);
    }
    if Covered(top, p) {
      var f :| f in top.files && f < p;
      assert AtOrUnder(p, f);
    }
  }

  lemma RootIsDirectory(t: Tree)
    requires t.Ok()
    ensures [] in t.directories && [] !in t.files
  {
  }

  lemma Exclusive(t: Tree, p: Path)
    requires t.Ok() && p in t.directories
    ensures p !in t.files
  {
  }

  lemma OverlayOk(base: Tree, top: Tree, now: Tree)
    requires base.Ok() && top.Ok()
    requires forall p :: now.At(p) == OverlayAt(base.At(p), top, p)
    requires forall p :: p in now.directories ==> p !in now.files
    ensures now.Ok()
  {
    assert now.At([]) == OverlayAt(base.At([]), top, []);
    forall p | (p in now.files || p in now.directories) && p != []
      ensures p[..|p| - 1] in now.directories
    {
      var parent := p[..|p| - 1];
      assert now.At(p) == OverlayAt(base.At(p), top, p) && now.At(parent) == OverlayAt(base.At(parent), top, parent);
      if f :| f in top.files && f < parent {
        assert f < p;
      }
    }
  }

  /** The tree with `parent` entered as a directory: where parsing that directory starts. */
  function Rooted(t: Tree, parent: Path): Tree
  {
    t.(directories := t.directories + {parent})
  }

  /** Paths, nesting, files and blocks stay within the limits. */
  ghost predicate Bounded(limits: VfsLimits, e: Entry, parent: Path, depth: nat)
    decreases e
  {
    var path := parent + [e.name];
    && |Joined(path)| <= Min(limits.maxPathBytes, SPEC_MAX_PATH_BYTES)
    && (e.FileEntry? ==> |e.data| <= limits.maxFileBytes && e.blockSize <= limits.maxBlockBytes)
    && (e.DirectoryEntry? ==>
          depth + 1 <= limits.maxDepth
          && forall k :: 0 <= k < |e.children| ==> Bounded(limits, e.children[k], path, depth + 1))
  }

  lemma DirectoryReady(t: Tree, parent: Path, name: Name)
    requires t.Ok() && parent in t.directories
    ensures InsertDirectory(t, parent + [name]).Ok()
    ensures Rooted(InsertDirectory(t, parent + [name]), parent + [name]) == InsertDirectory(t, parent + [name])
  {
  }

  ghost function ChildrenOf(e: Option<Entry>): Option<seq<Entry>>
  {
    if e.Some? && e.value.DirectoryEntry? then Some(e.value.children) else None
  }

  lemma FileSize(input: seq<u8>, offset: nat, size: nat, blockSize: nat, data: Data, inflate: Inflate)
    requires blockSize > 0 && FileAt(input, offset, size, blockSize, data, inflate)
    ensures |data| == size
  {
  }

  lemma NothingUsed(t: Tree, parent: Path)
    ensures InsertEntries(t, parent, []) == t && UsageOf([]) == NO_USAGE
  {
  }

  /** The next entry of a list fits if the whole list does. */
  lemma NextUsage(list: seq<Entry>, k: nat)
    requires k < |list|
    ensures var so_far := UsageOf(list[..k]).Plus(EntryUsage(list[k]));
            && so_far.entries + |list| - k <= UsageOf(list).entries
            && so_far.blocks <= UsageOf(list).blocks && so_far.bytes <= UsageOf(list).bytes
    ensures list[..k + 1] == list[..k] + [list[k]]
  {
    hide EntryUsage, UsageOf, InsertEntries, InsertEntry;
    PrefixUsage(list, k + 1);
    assert list[..k + 1] == list[..k] + [list[k]];
    InsertOne(Tree(map[], {}), [], list[..k], list[k]);
  }

  lemma PiecesOf(input: seq<u8>, offset: nat, size: nat, blockSize: nat, data: Data, inflate: Inflate)
    returns (pieces: seq<Data>)
    requires blockSize > 0 && FileAt(input, offset, size, blockSize, data, inflate)
    ensures |pieces| == BlockCount(size, blockSize)
            && PiecesAt(input, offset, |pieces|, size, blockSize, pieces, inflate)
    ensures offset + 4 * |pieces| <= |input|
  {
    hide BlockCount;
    pieces :| |pieces| == BlockCount(size, blockSize)
              && PiecesAt(input, offset, |pieces|, size, blockSize, pieces, inflate) && Flatten(pieces) == data;
  }

  /** What a complete list of pieces says of the next block. */
  lemma PieceThere(input: seq<u8>, offset: nat, count: nat, size: nat, blockSize: nat, pieces: seq<Data>, k: nat,
                   inflate: Inflate)
    requires PiecesAt(input, offset, count, size, blockSize, pieces, inflate) && k < |pieces| == count
    ensures var from := BlockStart(input, offset, count, k);
            var to := from + U32At(input, offset + 4 * k);
            && to <= |input| && inflate(input[from..to]) == Some(pieces[k])
    ensures |pieces[k]| == Min(blockSize, size - |Flatten(pieces[..k])|)
    ensures pieces[..k + 1] == pieces[..k] + [pieces[k]]
  {
    hide Flatten;
    assert BlockIs(input, offset, count, k, pieces[k], inflate);
  }

  lemma BlocksLeft(size: nat, blockSize: nat)
    requires blockSize > 0
    ensures BlockCount(size, blockSize) == 0 <==> size == 0
    ensures size > 0 ==> BlockCount(size, blockSize) == 1 + BlockCount(size - Min(blockSize, size), blockSize)
  {
  }

  lemma NextBlock(input: seq<u8>, offset: nat, count: nat, k: nat)
    requires offset + 4 * (k + 1) <= |input|
    ensures BlockStart(input, offset, count, k + 1)
              == BlockStart(input, offset, count, k) + U32At(input, offset + 4 * k)
  {
  }

  lemma FileFound(input: seq<u8>, offset: nat, size: nat, blockSize: nat, pieces: seq<Data>, inflate: Inflate)
    requires blockSize > 0 && |pieces| == BlockCount(size, blockSize) && |Flatten(pieces)| == size
    requires PiecesAt(input, offset, |pieces|, size, blockSize, pieces, inflate)
    ensures FileAt(input, offset, size, blockSize, Flatten(pieces), inflate)
  {
    hide PiecesAt, BlockCount, Flatten;
  }

  lemma NoPieces(input: seq<u8>, offset: nat, count: nat, size: nat, blockSize: nat, inflate: Inflate)
    requires offset + 4 * count <= |input|
    ensures PiecesAt(input, offset, count, size, blockSize, [], inflate)
    ensures BlockStart(input, offset, count, 0) == offset + 4 * count && Flatten([]) == []
  {
  }

  lemma OnePiece(input: seq<u8>, offset: nat, count: nat, size: nat, blockSize: nat, pieces: seq<Data>, piece: Data,
                 inflate: Inflate)
    requires PiecesAt(input, offset, count, size, blockSize, pieces, inflate) && |pieces| < count
    requires |piece| == Min(blockSize, size - |Flatten(pieces)|)
    requires var k := |pieces|;
             var from := BlockStart(input, offset, count, k);
             var to := from + U32At(input, offset + 4 * k);
             to <= |input| && inflate(input[from..to]) == Some(piece)
    ensures PiecesAt(input, offset, count, size, blockSize, pieces + [piece], inflate)
    ensures Flatten(pieces + [piece]) == Flatten(pieces) + piece
  {
    hide BlockIs, BlockStart, Flatten;
    var all := pieces + [piece];
    FlattenOne(pieces, piece);
    PieceIs(input, offset, count, |pieces|, piece, inflate);
    forall k | 0 <= k < |all|
      ensures |all[k]| == Min(blockSize, size - |Flatten(all[..k])|)
              && BlockIs(input, offset, count, k, all[k], inflate)
    {
      if k < |pieces| {
        assert all[k] == pieces[k] && all[..k] == pieces[..k];
      } else {
        assert all[..k] == pieces;
      }
    }
  }

  lemma FlattenOne(pieces: seq<Data>, piece: Data)
    ensures Flatten(pieces + [piece]) == Flatten(pieces) + piece
  {
  }

  lemma PieceIs(input: seq<u8>, offset: nat, count: nat, k: nat, piece: Data, inflate: Inflate)
    requires offset + 4 * (k + 1) <= |input|
    requires var from := BlockStart(input, offset, count, k);
             var to := from + U32At(input, offset + 4 * k);
             to <= |input| && inflate(input[from..to]) == Some(piece)
    ensures BlockIs(input, offset, count, k, piece, inflate)
  {
  }
}
