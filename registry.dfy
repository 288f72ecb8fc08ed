/** The registry loader (`retrieveServices`, build/discoverable.js:44-105):
    a recursive walk that collects every leaf directory under the registry
    path, turns each leaf's path into a DNS-SD service identifier and reads
    the leaf's optional `tags.json`. */
module Registry {
  import opened Common

  /** What reading `<leaf>/tags.json` and parsing it as JSON produces. */
  datatype TagsFile =
    | Missing                   // the read fails with ENOENT
    | Unreadable                // the read fails with any other code
    | Unparsable                // JSON.parse throws
    | NotAnArray                // parses, but not to an array
    | TagArray(tags: seq<string>)

  /** A directory of the registry tree, as `readdir` and `stat` see it.
      `Unlistable` is a path whose `readdir` fails (the registry root
      included, when the path does not exist). */
  datatype Node = Directory(entries: seq<Entry>, tagsFile: TagsFile) | Unlistable

  /** One name returned by `readdir`, with what `stat` says of it. */
  datatype Entry = Entry(name: string, kind: Kind)
  datatype Kind = SubDirectory(node: Node) | NonDirectory | StatFailed

  /** A leaf directory found by the walk: its path below the registry root,
      as the components that `_.split(path, '/')` and `shift()` produce
      (lines 73-74), and the outcome of reading its tags file. */
  datatype Leaf = Leaf(path: seq<string>, tagsFile: TagsFile)

  /** A catalog entry, as pushed at lines 97-100. */
  datatype ServiceEntry = ServiceEntry(service: string, tags: seq<string>)

  /** The entries `stat` reports as directories, in listing order
      (`foundDirectories`, lines 49-57). */
  function Subdirectories(entries: seq<Entry>): (r: seq<Entry>)
    ensures forall e :: e in r ==> e in entries && e.kind.SubDirectory?
    ensures forall e :: e in entries && e.kind.SubDirectory? ==> e in r
  {
    if entries == [] then []
    else (if entries[0].kind.SubDirectory? then [entries[0]] else []) + Subdirectories(entries[1..])
  }

  predicate StatsSucceed(entries: seq<Entry>)
  {
    forall k :: 0 <= k < |entries| ==> !entries[k].kind.StatFailed?
  }

  /** A directory that the walk treats as a service definition. */
  predicate IsLeafDirectory(node: Node)
  {
    node.Directory? && forall k :: 0 <= k < |node.entries| ==> !node.entries[k].kind.SubDirectory?
  }

  /** The leaves below `node`, each with `path` prefixed (`scanDirectory`,
      lines 47-67): the walk fails when any `readdir` or `stat` does. */
  function Scan(node: Node, path: seq<string>): (r: Result<seq<Leaf>>)
    ensures r.Failure? ==> r.error == ReadFailed
    ensures r.Success? ==> r.value != [] && forall l :: l in r.value ==> path <= l.path
    decreases node, 1
  {
    match node
    case Unlistable => Failure(ReadFailed)
    case Directory(entries, tagsFile) =>
      if !StatsSucceed(entries) then Failure(ReadFailed)
      else
        var subs := Subdirectories(entries);
        if |subs| == 0 then Success([Leaf(path, tagsFile)])
        else ScanChildren(node, subs, path)
  }

  /** The leaves below each of `subs`, subdirectories of `parent`, in order. */
  function ScanChildren(parent: Node, subs: seq<Entry>, path: seq<string>): (r: Result<seq<Leaf>>)
    requires parent.Directory?
    requires forall e :: e in subs ==> e in parent.entries && e.kind.SubDirectory?
    ensures r.Failure? ==> r.error == ReadFailed
    ensures r.Success? ==> (subs != [] ==> r.value != []) && forall l :: l in r.value ==> path < l.path
    decreases parent, 0, |subs|
  {
    if subs == [] then Success([])
    else
      assert subs[0] in parent.entries;
      match Scan(subs[0].kind.node, path + [subs[0].name])
      case Failure(err) => Failure(err)
      case Success(first) =>
        match ScanChildren(parent, subs[1..], path)
        case Failure(err) => Failure(err)
        case Success(rest) => Success(first + rest)
  }

  /** `node` is reached from `root` by following the subdirectories named by `rel`. */
  ghost predicate Reachable(root: Node, rel: seq<string>, node: Node)
    decreases |rel|
  {
    if rel == [] then node == root
    else
      root.Directory? &&
      exists e :: e in root.entries && e.name == rel[0] && e.kind.SubDirectory? && Reachable(e.kind.node, rel[1..], node)
  }

  /** `leaf` is a leaf directory reached from `node` by the part of its path
      after `path`, and carries that directory's tags file. */
  ghost predicate LeafBelow(node: Node, path: seq<string>, leaf: Leaf)
  {
    exists rel, target :: leaf.path == path + rel && Reachable(node, rel, target)
                          && IsLeafDirectory(target) && target.tagsFile == leaf.tagsFile
  }

  /** Every leaf the walk reports is a leaf directory reached by its path,
      carrying that directory's tags file: inner directories and
      non-directory entries contribute nothing. */
  lemma {:induction false} ScanSound(node: Node, path: seq<string>, leaf: Leaf)
    requires Scan(node, path).Success? && leaf in Scan(node, path).value
    ensures LeafBelow(node, path, leaf)
    decreases node, 1
  {
    var subs := Subdirectories(node.entries);
    if |subs| == 0 {
      assert leaf == Leaf(path, node.tagsFile);
      assert IsLeafDirectory(node) by {
        forall k | 0 <= k < |node.entries| ensures !node.entries[k].kind.SubDirectory? {
          assert node.entries[k] in node.entries;
        }
      }
      assert leaf.path == path + [] && Reachable(node, [], node);
    } else {
      ScanChildrenSound(node, subs, path, leaf);
    }
  }

  lemma {:induction false} ScanChildrenSound(parent: Node, subs: seq<Entry>, path: seq<string>, leaf: Leaf)
    requires parent.Directory?
    requires forall e :: e in subs ==> e in parent.entries && e.kind.SubDirectory?
    requires ScanChildren(parent, subs, path).Success? && leaf in ScanChildren(parent, subs, path).value
    ensures LeafBelow(parent, path, leaf)
    decreases parent, 0, |subs|
  {
    var e := subs[0];
    assert e in parent.entries;
    var first := Scan(e.kind.node, path + [e.name]).value;
    var rest := ScanChildren(parent, subs[1..], path).value;
    assert ScanChildren(parent, subs, path).value == first + rest;
    if leaf in first {
      ScanSound(e.kind.node, path + [e.name], leaf);
      BelowSubdirectory(parent, e, path, leaf);
    } else {
      ScanChildrenSound(parent, subs[1..], path, leaf);
    }
  }

  /** A leaf below the subdirectory `e` of `parent` is below `parent`. */
  lemma BelowSubdirectory(parent: Node, e: Entry, path: seq<string>, leaf: Leaf)
    requires parent.Directory? && e in parent.entries && e.kind.SubDirectory?
    requires LeafBelow(e.kind.node, path + [e.name], leaf)
    ensures LeafBelow(parent, path, leaf)
  {
    var rel, target :| leaf.path == path + [e.name] + rel && Reachable(e.kind.node, rel, target)
                        && IsLeafDirectory(target) && target.tagsFile == leaf.tagsFile;
    ReachableStep(parent, e, rel, target);
    assert leaf.path == path + ([e.name] + rel);
  }

  /** A path below a subdirectory, prefixed with its name, is a path below the parent. */
  lemma ReachableStep(parent: Node, e: Entry, rel: seq<string>, target: Node)
    requires parent.Directory? && e in parent.entries && e.kind.SubDirectory?
    requires Reachable(e.kind.node, rel, target)
    ensures Reachable(parent, [e.name] + rel, target)
  {
    var full := [e.name] + rel;
    assert full[0] == e.name && full[1..] == rel;
  }

  /** Every leaf directory reachable from `node` is reported by a successful walk. */
  lemma {:induction false} ScanComplete(node: Node, path: seq<string>, rel: seq<string>, target: Node)
    requires Scan(node, path).Success?
    requires Reachable(node, rel, target) && IsLeafDirectory(target)
    ensures Leaf(path + rel, target.tagsFile) in Scan(node, path).value
    decreases node, 1
  {
    if rel == [] {
      assert path + rel == path;
    } else {
      var e :| e in node.entries && e.name == rel[0] && e.kind.SubDirectory? && Reachable(e.kind.node, rel[1..], target);
      var subs := Subdirectories(node.entries);
      assert e in subs;
      assert Scan(node, path) == ScanChildren(node, subs, path);
      PathSplit(path, rel);
      ScanChildrenComplete(node, subs, path, e, rel[1..], target);
    }
  }

  /** A non-empty relative path is its first component followed by the rest. */
  lemma PathSplit(path: seq<string>, rel: seq<string>)
    requires rel != []
    ensures path + [rel[0]] + rel[1..] == path + rel
  {
    assert [rel[0]] + rel[1..] == rel;
  }

  lemma {:induction false} ScanChildrenComplete(parent: Node, subs: seq<Entry>, path: seq<string>,
                                                e: Entry, rel: seq<string>, target: Node)
    requires parent.Directory?
    requires forall x :: x in subs ==> x in parent.entries && x.kind.SubDirectory?
    requires ScanChildren(parent, subs, path).Success?
    requires e in subs && Reachable(e.kind.node, rel, target) && IsLeafDirectory(target)
    ensures Leaf(path + [e.name] + rel, target.tagsFile) in ScanChildren(parent, subs, path).value
    decreases parent, 0, |subs|
  {
    assert subs[0] in parent.entries;
    if subs[0] == e {
      ScanComplete(e.kind.node, path + [e.name], rel, target);
    } else {
      ScanChildrenComplete(parent, subs[1..], path, e, rel, target);
    }
  }

  /** `components[i]` as JavaScript concatenates it: "undefined" past the end. */
  function Component(components: seq<string>, i: nat): string
  {
    if i < |components| then components[i] else "undefined"
  }

  /** `"_" + subtype + "._sub."`, the part line 79 adds for a three-level path. */
  function SubtypePrefix(subtype: string): string
  {
    "_" + subtype + "._sub."
  }

  /** `"_" + type + "._" + protocol` (line 82). */
  function TypeAndProtocol(serviceType: string, protocol: string): string
  {
    "_" + serviceType + "._" + protocol
  }

  /** The service identifier built from a leaf path (lines 76-82). The guard
      at line 75 (`length >= 2 || length <= 3`) holds for every length, so
      every leaf gets one: three components give `_a._sub._b._c`, any other
      number gives `_a._b` from the first two. */
  function ServiceName(components: seq<string>): (r: string)
    ensures |r| >= 3 && r[0] == '_'
    ensures |components| > 3 ==> r == ServiceName(components[..2])
    ensures |components| < 2 ==> |r| >= 11 && r[|r| - 11..] == "._undefined"
    decreases |components|
  {
    if |components| == 3 then SubtypePrefix(components[0]) + TypeAndProtocol(components[1], components[2])
    else TypeAndProtocol(Component(components, 0), Component(components, 1))
  }

  /** The tags a leaf's tags file supplies; `None` when the file makes the
      load fail (lines 83-95). */
  function TagsOf(tagsFile: TagsFile): (r: Option<seq<string>>)
    ensures r.None? <==> tagsFile.Unreadable? || tagsFile.Unparsable? || tagsFile.NotAnArray?
    ensures r.Some? ==> r.value == (if tagsFile.TagArray? then tagsFile.tags else [])
  {
    match tagsFile
    case Missing => Some([])
    case TagArray(tags) => Some(tags)
    case _ => None
  }

  /** The catalog entry one leaf contributes (lines 72-101). */
  function LeafEntry(leaf: Leaf): (r: Result<ServiceEntry>)
    ensures r.Success? <==> leaf.tagsFile.Missing? || leaf.tagsFile.TagArray?
    ensures r.Failure? ==> r.error == TagsIncorrect(ServiceName(leaf.path))
    ensures r.Success? ==>
      r.value.service == ServiceName(leaf.path)
      && r.value.tags == (if leaf.tagsFile.TagArray? then leaf.tagsFile.tags else [])
  {
    match TagsOf(leaf.tagsFile)
    case None => Failure(TagsIncorrect(ServiceName(leaf.path)))
    case Some(tags) => Success(ServiceEntry(ServiceName(leaf.path), tags))
  }

  /** The catalog built from the leaves in order (lines 69-103). */
  function BuildCatalog(leaves: seq<Leaf>): (r: Result<seq<ServiceEntry>>)
    ensures r.Failure? ==> r.error.TagsIncorrect?
    ensures r.Success? ==> |r.value| == |leaves|
  {
    if leaves == [] then Success([])
    else
      match LeafEntry(leaves[0])
      case Failure(err) => Failure(err)
      case Success(entry) => Prefixed([entry], BuildCatalog(leaves[1..]))
  }

  /** One entry per leaf, in leaf order, whose identifier is built from the
      leaf's path and whose tags are `[]` for a missing tags file and the
      array for a JSON array; otherwise the load fails naming the first leaf
      whose tags file is unreadable, unparsable or not an array. */
  lemma {:induction false} BuildCatalogEntries(leaves: seq<Leaf>)
    ensures BuildCatalog(leaves).Success? <==> forall k :: 0 <= k < |leaves| ==> TagsOf(leaves[k].tagsFile).Some?
    ensures BuildCatalog(leaves).Success? ==>
      var catalog := BuildCatalog(leaves).value;
      |catalog| == |leaves| &&
      forall k :: 0 <= k < |leaves| ==>
        catalog[k] == ServiceEntry(ServiceName(leaves[k].path), TagsOf(leaves[k].tagsFile).value)
    ensures BuildCatalog(leaves).Failure? ==>
      exists k :: 0 <= k < |leaves| && TagsOf(leaves[k].tagsFile).None?
        && (forall j :: 0 <= j < k ==> TagsOf(leaves[j].tagsFile).Some?)
        && BuildCatalog(leaves).error == TagsIncorrect(ServiceName(leaves[k].path))
  {
    if leaves != [] {
      BuildCatalogEntries(leaves[1..]);
      if TagsOf(leaves[0].tagsFile).Some? && BuildCatalog(leaves[1..]).Failure? {
        var k :| 0 <= k < |leaves[1..]| && TagsOf(leaves[1..][k].tagsFile).None?
          && (forall j :: 0 <= j < k ==> TagsOf(leaves[1..][j].tagsFile).Some?)
          && BuildCatalog(leaves[1..]).error == TagsIncorrect(ServiceName(leaves[1..][k].path));
        assert TagsOf(leaves[k + 1].tagsFile).None?;
      }
      if BuildCatalog(leaves).Success? {
        assert forall k :: 1 <= k < |leaves| ==> leaves[k] == leaves[1..][k - 1];
      }
    }
  }

  /** The whole load: walk from the registry root, then build the catalog. */
  function LoadRegistry(root: Node): (r: Result<seq<ServiceEntry>>)
    ensures root.Unlistable? ==> r == Failure(ReadFailed)
    ensures r.Failure? ==> r.error == ReadFailed || r.error.TagsIncorrect?
  {
    match Scan(root, [])
    case Failure(err) => Failure(err)
    case Success(leaves) => BuildCatalog(leaves)
  }

  lemma {:induction false} SubdirectoriesAppend(a: seq<Entry>, b: seq<Entry>)
    ensures Subdirectories(a + b) == Subdirectories(a) + Subdirectories(b)
  {
    if a == [] {
      assert a + b == b;
    } else {
      assert (a + b)[1..] == a[1..] + b;
      SubdirectoriesAppend(a[1..], b);
    }
  }

  /** Extending a listing's prefix by one entry. */
  lemma ListingStep(entries: seq<Entry>, i: nat)
    requires i < |entries|
    ensures Subdirectories(entries[..i + 1]) ==
      Subdirectories(entries[..i]) + (if entries[i].kind.SubDirectory? then [entries[i]] else [])
    ensures StatsSucceed(entries[..i + 1]) <==> StatsSucceed(entries[..i]) && !entries[i].kind.StatFailed?
    ensures entries[i].kind.StatFailed? ==> !StatsSucceed(entries)
  {
    assert entries[..i + 1] == entries[..i] + [entries[i]];
    SubdirectoriesAppend(entries[..i], [entries[i]]);
  }

  /** The `stat` pass over a listing (lines 51-57): the entries that are
      directories, or `None` when some `stat` fails. */
  method CollectDirectories(entries: seq<Entry>) returns (r: Option<seq<Entry>>)
    ensures r == if StatsSucceed(entries) then Some(Subdirectories(entries)) else None
  {
    var foundDirectories: seq<Entry> := [];
    var i := 0;
    while i < |entries|
      invariant 0 <= i <= |entries|
      invariant foundDirectories == Subdirectories(entries[..i])
      invariant StatsSucceed(entries[..i])
    {
      ListingStep(entries, i);
      match entries[i].kind {
        case StatFailed =>
          return None;
        case SubDirectory(_) =>
          foundDirectories := foundDirectories + [entries[i]];
        case NonDirectory =>
      }
      i := i + 1;
    }
    assert entries[..i] == entries;
    return Some(foundDirectories);
  }

  /** `scanDirectory(parentPath, localPath)`: lists `node`, collects the
      subdirectories, then pushes `localPath` onto `foundPaths` when there
      are none, or walks each of them. */
  method ScanDirectory(node: Node, localPath: seq<string>, foundPaths: seq<Leaf>) returns (r: Result<seq<Leaf>>)
    ensures r == Prefixed(foundPaths, Scan(node, localPath))
    decreases node, 1
  {
    match node {
      case Unlistable =>
        return Failure(ReadFailed);
      case Directory(entries, tagsFile) =>
        var foundDirectories := CollectDirectories(entries);
        if foundDirectories.None? {
          return Failure(ReadFailed);
        }
        if |foundDirectories.value| == 0 {
          return Success(foundPaths + [Leaf(localPath, tagsFile)]);
        }
        r := ScanEach(node, foundDirectories.value, localPath, foundPaths);
    }
  }

  /** The walk into each found directory in turn (lines 62-64). */
  method ScanEach(parent: Node, subs: seq<Entry>, localPath: seq<string>, foundPaths: seq<Leaf>)
    returns (r: Result<seq<Leaf>>)
    requires parent.Directory?
    requires forall e :: e in subs ==> e in parent.entries && e.kind.SubDirectory?
    ensures r == Prefixed(foundPaths, ScanChildren(parent, subs, localPath))
    decreases parent, 0
  {
    var found := foundPaths;
    var j := 0;
    while j < |subs|
      invariant 0 <= j <= |subs|
      invariant Prefixed(found, ScanChildren(parent, subs[j..], localPath))
             == Prefixed(foundPaths, ScanChildren(parent, subs, localPath))
    {
      var e := subs[j];
      assert e in subs;
      assert subs[j..][1..] == subs[j + 1..];
      var sub := ScanDirectory(e.kind.node, localPath + [e.name], found);
      if sub.Failure? {
        return Failure(sub.error);
      }
      PrefixedConcat(found, sub.value[|found|..], ScanChildren(parent, subs[j + 1..], localPath));
      found := sub.value;
      j := j + 1;
    }
    assert found + [] == found;
    return Success(found);
  }

  lemma PrefixedConcat<T>(a: seq<T>, b: seq<T>, r: Result<seq<T>>)
    ensures Prefixed(a, Prefixed(b, r)) == Prefixed(a + b, r)
  {
    if r.Success? {
      assert a + (b + r.value) == a + b + r.value;
    }
  }

  /** The body of the loop at lines 71-102 for one found path: the
      identifier, then the tags file. */
  method DefineService(leaf: Leaf) returns (r: Result<ServiceEntry>)
    ensures r == LeafEntry(leaf)
  {
    var components := leaf.path;
    var service := "";
    var tags: seq<string> := [];
    if |components| == 3 {
      service := "_" + components[0] + "._sub.";
      components := components[1..];
    }
    service := service + "_" + Component(components, 0) + "._" + Component(components, 1);
    assert service == ServiceName(leaf.path) by {
      var tail := "_" + Component(components, 0) + "._" + Component(components, 1);
      assert tail == TypeAndProtocol(Component(components, 0), Component(components, 1));
      if |leaf.path| != 3 {
        assert service == "" + tail == tail;
      }
    }
    match leaf.tagsFile {
      case Missing =>
      case TagArray(json) =>
        tags := json;
      case _ =>
        return Failure(TagsIncorrect(service));
    }
    return Success(ServiceEntry(service, tags));
  }

  /** `retrieveServices` over the tree at the registry path. */
  method RetrieveServices(root: Node) returns (r: Result<seq<ServiceEntry>>)
    ensures r == LoadRegistry(root)
  {
    var walk := ScanDirectory(root, [], []);
    if walk.Failure? {
      return Failure(walk.error);
    }
    var foundPaths := walk.value;
    var services: seq<ServiceEntry> := [];
    var i := 0;
    assert foundPaths[0..] == foundPaths;
    assert BuildCatalog(foundPaths).Success? ==> [] + BuildCatalog(foundPaths).value == BuildCatalog(foundPaths).value;
    while i < |foundPaths|
      invariant 0 <= i <= |foundPaths|
      invariant Prefixed(services, BuildCatalog(foundPaths[i..])) == BuildCatalog(foundPaths)
    {
      assert foundPaths[i..][1..] == foundPaths[i + 1..];
      var entry := DefineService(foundPaths[i]);
      if entry.Failure? {
        return Failure(entry.error);
      }
      PrefixedConcat(services, [entry.value], BuildCatalog(foundPaths[i + 1..]));
      services := services + [entry.value];
      i := i + 1;
    }
    assert foundPaths[i..] == [] && services + [] == services;
    return Success(services);
  }
}
