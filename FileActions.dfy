/** `getDirectoryContents` of `lib/file-actions.ts`: the tree of directories,
    documents and images below a directory, as the file browser shows it.
    The file system is given as a value: a directory is `readable` when
    `fs.access` and `fs.readdir` succeed on it, and a file's `stat` is `None`
    when `fs.stat` fails on it. */
module FileActions {
  import opened Util
  import opened Paths
  import opened Config

  datatype Stat = Stat(size: nat, mtime: int)

  /** An entry of `fs.readdir(dirPath, { withFileTypes: true })`. */
  datatype FsEntry =
    | FileEntry(name: string, stat: Option<Stat>)
    | DirEntry(name: string, readable: bool, entries: seq<FsEntry>)

  /** The `type` of a `FileNode`. */
  datatype NodeType = File | Directory | Image

  datatype FileNode =
    | DirectoryNode(name: string, path: string, children: seq<FileNode>)
    | FileLeaf(name: string, path: string, leafType: NodeType, size: nat, mtime: int)
  {
    function Type(): NodeType
    {
      if DirectoryNode? then Directory else leafType
    }
  }

  const PastedImage: string := "Pasted image"

  /** The type a file is listed with: a document by its lower-cased
      extension; otherwise an image by extension or by the name of a pasted
      image; otherwise it is not listed. */
  function Classify(name: string, types: FileTypes): Option<NodeType>
  {
    var ext := LowerAscii(Extname(name));
    if ext in types.documents then Some(File)
    else if ext in types.images || Contains(name, PastedImage) then Some(Image)
    else None
  }

  /** What the loop body does with one entry. */
  datatype Step = Skip | Emit(node: FileNode) | Abort

  /** A subdirectory always yields a node, with no children when it cannot
      be read; a file whose `stat` fails aborts the listing (the `stat` call
      comes before the classification); an unsupported file is skipped. */
  function EntryStep(dirPath: string, e: FsEntry, types: FileTypes, order: Order): Step
    decreases e, 0
  {
    var entryPath := Join(dirPath, e.name);
    match e
    case DirEntry(name, readable, entries) =>
      (match DirectoryContents(entryPath, readable, entries, types, order)
       case Success(children) => Emit(DirectoryNode(name, entryPath, children))
       case Failure(_) => Emit(DirectoryNode(name, entryPath, [])))
    case FileEntry(name, stat) =>
      if stat.None? then Abort
      else match Classify(name, types)
        case Some(t) => Emit(FileLeaf(name, entryPath, t, stat.value.size, stat.value.mtime))
        case None => Skip
  }

  /** The nodes of a listing, in listing order; `None` once an entry aborts. */
  function EntriesNodes(dirPath: string, es: seq<FsEntry>, types: FileTypes, order: Order): Option<seq<FileNode>>
    decreases es, 1
  {
    if es == [] then Some([])
    else match EntriesNodes(dirPath, es[..|es| - 1], types, order)
      case None => None
      case Some(ns) =>
        match EntryStep(dirPath, es[|es| - 1], types, order)
        case Abort => None
        case Skip => Some(ns)
        case Emit(n) => Some(ns + [n])
  }

  /** `getDirectoryContents`: the listed nodes, sorted by `order`; any
      failure is rethrown with the directory's path. */
  function DirectoryContents(dirPath: string, readable: bool, entries: seq<FsEntry>, types: FileTypes, order: Order)
    : Result<seq<FileNode>>
    decreases entries, 2
  {
    var failure := Failure("Failed to read directory: " + dirPath);
    if !readable then failure
    else match EntriesNodes(dirPath, entries, types, order)
      case None => failure
      case Some(ns) => Success(SortBy(ns, order))
  }

  /** The loop of `getDirectoryContents`, pushing one node per listed entry
      and recursing into subdirectories, then the sort. `types` is what
      `getConfig` gives for the supported file types, `names` stands for
      `localeCompare`; the sort uses the comparator as written. */
  method GetDirectoryContents(dirPath: string, readable: bool, entries: seq<FsEntry>, types: FileTypes, names: NameCompare)
    returns (r: Result<seq<FileNode>>)
    ensures r == DirectoryContents(dirPath, readable, entries, types, AsWritten(names))
    decreases entries, 2
  {
    if !readable {
      return Failure("Failed to read directory: " + dirPath);
    }
    var result: seq<FileNode> := [];
    for k := 0 to |entries|
      invariant EntriesNodes(dirPath, entries[..k], types, AsWritten(names)) == Some(result)
    {
      var entry := entries[k];
      EntriesNodesStep(dirPath, entries, k, types, AsWritten(names));
      var entryPath := Join(dirPath, entry.name);
      if entry.DirEntry? {
        var children := GetDirectoryContents(entryPath, entry.readable, entry.entries, types, names);
        if children.Success? {
          result := result + [DirectoryNode(entry.name, entryPath, children.value)];
        } else {
          result := result + [DirectoryNode(entry.name, entryPath, [])];
        }
      } else {
        if entry.stat.None? {
          AbortPersists(dirPath, entries, k + 1, types, AsWritten(names));
          return Failure("Failed to read directory: " + dirPath);
        }
        var t := Classify(entry.name, types);
        if t.Some? {
          result := result + [FileLeaf(entry.name, entryPath, t.value, entry.stat.value.size, entry.stat.value.mtime)];
        }
      }
    }
    assert entries[..|entries|] == entries;
    return Success(SortBy(result, AsWritten(names)));
  }

  /** Once a prefix of the listing aborts, the whole listing does. */
  lemma {:induction false} AbortPersists(dirPath: string, es: seq<FsEntry>, k: nat, types: FileTypes, order: Order)
    requires k <= |es| && EntriesNodes(dirPath, es[..k], types, order).None?
    ensures EntriesNodes(dirPath, es, types, order).None?
    decreases |es| - k
  {
    if k < |es| {
      assert es[..k + 1][..k] == es[..k];
      AbortPersists(dirPath, es, k + 1, types, order);
    } else {
      assert es[..k] == es;
    }
  }

  /** One more entry of the listing. */
  lemma EntriesNodesStep(dirPath: string, es: seq<FsEntry>, k: nat, types: FileTypes, order: Order)
    requires k < |es|
    ensures EntriesNodes(dirPath, es[..k + 1], types, order) ==
              match EntriesNodes(dirPath, es[..k], types, order)
              case None => None
              case Some(ns) =>
                match EntryStep(dirPath, es[k], types, order)
                case Abort => None
                case Skip => Some(ns)
                case Emit(n) => Some(ns + [n])
  {
    assert es[..k + 1][..k] == es[..k];
  }

  // ---------------------------------------------------------------------
  // What the listing holds

  /** The entries that yield a node: every subdirectory, and the files that
      classify. */
  predicate Listed(e: FsEntry, types: FileTypes)
  {
    e.DirEntry? || Classify(e.name, types).Some?
  }

  function ListedEntries(es: seq<FsEntry>, types: FileTypes): (r: seq<FsEntry>)
    ensures |r| <= |es|
  {
    if es == [] then []
    else ListedEntries(es[..|es| - 1], types) + (if Listed(es[|es| - 1], types) then [es[|es| - 1]] else [])
  }

  /** A node describes the entry it was made for: same name, the path of
      the entry below the directory, and the type its kind and
      classification give it. */
  predicate Describes(dirPath: string, n: FileNode, e: FsEntry, types: FileTypes)
  {
    && n.name == e.name
    && n.path == Join(dirPath, e.name)
    && (e.DirEntry? <==> n.DirectoryNode?)
    && (e.FileEntry? ==> e.stat.Some? && n.size == e.stat.value.size && n.mtime == e.stat.value.mtime
                         && Classify(e.name, types) == Some(n.leafType))
  }

  /** A file whose `stat` fails. */
  predicate Unstattable(e: FsEntry)
  {
    e.FileEntry? && e.stat.None?
  }

  lemma EntryStepShape(dirPath: string, e: FsEntry, types: FileTypes, order: Order)
    ensures EntryStep(dirPath, e, types, order).Abort? <==> Unstattable(e)
    ensures EntryStep(dirPath, e, types, order).Emit? <==> !Unstattable(e) && Listed(e, types)
    ensures EntryStep(dirPath, e, types, order).Emit? ==> Describes(dirPath, EntryStep(dirPath, e, types, order).node, e, types)
  {
  }

  /** A subdirectory's node holds the subdirectory's own listing, or no
      children when that listing fails. */
  lemma SubdirectoryListing(dirPath: string, e: FsEntry, types: FileTypes, order: Order)
    requires e.DirEntry?
    ensures var sub := DirectoryContents(Join(dirPath, e.name), e.readable, e.entries, types, order);
            EntryStep(dirPath, e, types, order).node.children == (if sub.Success? then sub.value else [])
  {
  }

  /** The listing fails exactly when some file cannot be `stat`ed. */
  lemma {:induction false} EntriesNodesAbort(dirPath: string, es: seq<FsEntry>, types: FileTypes, order: Order)
    ensures EntriesNodes(dirPath, es, types, order).None? <==> exists e :: e in es && Unstattable(e)
  {
    if es != [] {
      var init, last := es[..|es| - 1], es[|es| - 1];
      EntriesNodesAbort(dirPath, init, types, order);
      EntryStepShape(dirPath, last, types, order);
      assert es == init + [last];
      assert forall e :: e in es <==> e in init || e == last;
    }
  }

  /** Otherwise it holds one node per listed entry, in listing order, each
      describing its entry: the skipped entries are exactly the files that
      do not classify. */
  lemma {:induction false} EntriesNodesDescribe(dirPath: string, es: seq<FsEntry>, types: FileTypes, order: Order)
    requires EntriesNodes(dirPath, es, types, order).Some?
    ensures var ns, ls := EntriesNodes(dirPath, es, types, order).value, ListedEntries(es, types);
            |ns| == |ls| && forall i :: 0 <= i < |ns| ==> Describes(dirPath, ns[i], ls[i], types)
  {
    if es != [] {
      var init, last := es[..|es| - 1], es[|es| - 1];
      EntriesNodesDescribe(dirPath, init, types, order);
      EntryStepShape(dirPath, last, types, order);
      var ns0, ls0 := EntriesNodes(dirPath, init, types, order).value, ListedEntries(init, types);
      var ns, ls := EntriesNodes(dirPath, es, types, order).value, ListedEntries(es, types);
      assert ls == ls0 + (if Listed(last, types) then [last] else []);
      if EntryStep(dirPath, last, types, order).Emit? {
        assert ns == ns0 + [EntryStep(dirPath, last, types, order).node] && ls == ls0 + [last];
        forall i | 0 <= i < |ns| ensures Describes(dirPath, ns[i], ls[i], types) {
          if i < |ns0| {
            assert ns[i] == ns0[i] && ls[i] == ls0[i];
          }
        }
      } else {
        assert EntryStep(dirPath, last, types, order).Skip? && !Listed(last, types);
      }
    }
  }

  /** Every entry that is listed is a subdirectory or a classified file; a
      subdirectory is listed even when it cannot be read. */
  lemma {:induction false} ListedEntriesMembers(es: seq<FsEntry>, types: FileTypes)
    ensures forall e :: e in ListedEntries(es, types) <==> e in es && Listed(e, types)
  {
    if es != [] {
      ListedEntriesMembers(es[..|es| - 1], types);
      assert es == es[..|es| - 1] + [es[|es| - 1]];
    }
  }

  /** A subdirectory that cannot be read still appears, as a directory node
      with no children. */
  lemma UnreadableSubdirectory(dirPath: string, name: string, es: seq<FsEntry>, types: FileTypes, order: Order)
    ensures EntryStep(dirPath, DirEntry(name, false, es), types, order) == Emit(DirectoryNode(name, Join(dirPath, name), []))
  {
  }

  /** Documents are checked before images: an extension in both lists gives
      a document. A pasted image needs no image extension, but a name whose
      extension is a document's is a document even so. */
  lemma ClassifyRules(name: string, types: FileTypes)
    ensures var ext := LowerAscii(Extname(name));
            && (ext in types.documents ==> Classify(name, types) == Some(File))
            && (ext !in types.documents && (ext in types.images || Contains(name, PastedImage)) ==>
                  Classify(name, types) == Some(Image))
            && (Classify(name, types).None? <==>
                  ext !in types.documents && ext !in types.images && !Contains(name, PastedImage))
  {
  }

  /** With the default settings, a pasted image without an extension is an
      image... */
  lemma PastedImageExample()
    ensures Classify("Pasted image 1", DefaultConfig.supportedFileTypes) == Some(Image)
  {
    var p := "Pasted image 1";
    PastedImageNoExtension();
    assert LowerAscii("") == "";
    assert "" !in DefaultConfig.supportedFileTypes.documents;
    assert Contains(p, PastedImage) by {
      assert OccursAt(p, PastedImage, 0);
    }
  }

  lemma PastedImageNoExtension()
    ensures Extname("Pasted image 1") == ""
  {
    var p := "Pasted image 1";
    assert LastIndex(p, '.') == -1 by {
      assert forall i :: 0 <= i < |p| ==> p[i] != '.';
    }
    assert LastIndex(p, '/') == -1 by {
      assert forall i :: 0 <= i < |p| ==> p[i] != '/';
    }
  }

  /** ... and a PDF is a document. */
  lemma PdfExample()
    ensures Classify("a.pdf", DefaultConfig.supportedFileTypes) == Some(File)
  {
    PdfExtension();
    assert DefaultConfig.supportedFileTypes.documents[2] == ".pdf";
  }

  lemma PdfExtension()
    ensures LowerAscii(Extname("a.pdf")) == ".pdf"
  {
    PlainPdfExtension();
    LowerPdf();
  }

  lemma LowerPdf()
    ensures LowerAscii(".pdf") == ".pdf"
  {
    LowerAsciiIdentity(".pdf");
  }

  lemma PlainPdfExtension()
    ensures Extname("a.pdf") == ".pdf"
  {
    ExtnameOfPlainName("a.pdf", 1);
  }

  // ---------------------------------------------------------------------
  // The sort

  /** A comparison function, negative when its first argument goes first. */
  type NameCompare = (string, string) -> int

  /** A comparison function on nodes, as `result.sort` takes it. */
  type Order = (FileNode, FileNode) -> int

  /** A comparator `sort` can rely on: any two values are ordered one way or
      the other, and "goes no later than" is transitive. */
  ghost predicate TotalPreorder<T(!new)>(cmp: (T, T) -> int)
  {
    && (forall x, y :: cmp(x, y) <= 0 || cmp(y, x) <= 0)
    && (forall x, y, z :: cmp(x, y) <= 0 && cmp(y, z) <= 0 ==> cmp(x, z) <= 0)
  }

  ghost predicate SortedBy<T>(s: seq<T>, cmp: (T, T) -> int)
  {
    forall i, j :: 0 <= i < j < |s| ==> cmp(s[i], s[j]) <= 0
  }

  /** `Array.prototype.sort` as the stable sort it is: each element is
      inserted after every earlier element that does not compare greater. */
  function SortBy<T>(s: seq<T>, cmp: (T, T) -> int): (r: seq<T>)
    ensures multiset(r) == multiset(s)
  {
    if s == [] then []
    else
      assert s == s[..|s| - 1] + [s[|s| - 1]];
      Insert(s[|s| - 1], SortBy(s[..|s| - 1], cmp), cmp)
  }

  function Insert<T>(x: T, s: seq<T>, cmp: (T, T) -> int): (r: seq<T>)
    ensures multiset(r) == multiset(s) + multiset{x}
  {
    if s == [] then [x]
    else if cmp(s[|s| - 1], x) > 0 then
      assert s == s[..|s| - 1] + [s[|s| - 1]];
      Insert(x, s[..|s| - 1], cmp) + [s[|s| - 1]]
    else s + [x]
  }

  lemma {:induction false} InsertSorted<T(!new)>(x: T, s: seq<T>, cmp: (T, T) -> int)
    requires TotalPreorder(cmp) && SortedBy(s, cmp)
    ensures SortedBy(Insert(x, s, cmp), cmp)
  {
    if s != [] {
      var init, last := s[..|s| - 1], s[|s| - 1];
      LastIsGreatest(s, cmp);
      if cmp(last, x) > 0 {
        var t := Insert(x, init, cmp);
        InsertSorted(x, init, cmp);
        InsertMembers(x, init, cmp);
        assert cmp(x, last) <= 0;
        AppendSorted(t, last, cmp);
      } else {
        forall e | e in s ensures cmp(e, x) <= 0 {
          assert cmp(e, last) <= 0;
        }
        AppendSorted(s, x, cmp);
      }
    }
  }

  lemma InsertMembers<T>(x: T, s: seq<T>, cmp: (T, T) -> int)
    ensures forall e :: e in Insert(x, s, cmp) ==> e == x || e in s
  {
    var t := Insert(x, s, cmp);
    forall e | e in t ensures e == x || e in s {
      assert e in multiset(t);
    }
  }

  /** The last element of a sorted sequence is no earlier than any other. */
  lemma LastIsGreatest<T(!new)>(s: seq<T>, cmp: (T, T) -> int)
    requires TotalPreorder(cmp) && SortedBy(s, cmp) && s != []
    ensures forall e :: e in s ==> cmp(e, s[|s| - 1]) <= 0
  {
    forall e | e in s ensures cmp(e, s[|s| - 1]) <= 0 {
      var i :| 0 <= i < |s| && s[i] == e;
      if i == |s| - 1 {
        assert cmp(e, e) <= 0 || cmp(e, e) <= 0;
      }
    }
  }

  lemma AppendSorted<T>(s: seq<T>, y: T, cmp: (T, T) -> int)
    requires SortedBy(s, cmp) && forall e :: e in s ==> cmp(e, y) <= 0
    ensures SortedBy(s + [y], cmp)
  {
    forall i, j | 0 <= i < j < |s| + 1 ensures cmp((s + [y])[i], (s + [y])[j]) <= 0 {
      if j == |s| {
        assert s[i] in s;
      }
    }
  }

  /** Under a comparator `sort` can rely on, the result is in order. */
  lemma {:induction false} SortBySorted<T(!new)>(s: seq<T>, cmp: (T, T) -> int)
    requires TotalPreorder(cmp)
    ensures SortedBy(SortBy(s, cmp), cmp)
  {
    if s != [] {
      SortBySorted(s[..|s| - 1], cmp);
      InsertSorted(s[|s| - 1], SortBy(s[..|s| - 1], cmp), cmp);
    }
  }

  /** The comparator passed to `result.sort` as written: same type by name,
      a directory before anything else, and otherwise equal. */
  function CompareNodes(a: FileNode, b: FileNode, names: NameCompare): int
  {
    if a.Type() == b.Type() then names(a.name, b.name)
    else if a.Type() == Directory then -1
    else if b.Type() == Directory then 1
    else 0
  }

  function AsWritten(names: NameCompare): Order
  {
    (a, b) => CompareNodes(a, b, names)
  }

  /** The three rules of the comparator as written: a directory goes before
      a document or an image; two nodes of one type compare by name; a
      document and an image compare equal. */
  lemma CompareNodesRules(a: FileNode, b: FileNode, names: NameCompare)
    ensures a.Type() == Directory && b.Type() != Directory ==>
              CompareNodes(a, b, names) < 0 && CompareNodes(b, a, names) > 0
    ensures a.Type() == b.Type() ==> CompareNodes(a, b, names) == names(a.name, b.name)
    ensures a.Type() != b.Type() && a.Type() != Directory && b.Type() != Directory ==>
              CompareNodes(a, b, names) == 0 && CompareNodes(b, a, names) == 0
  {
  }

  /** A document and an image compare equal whatever their names, so even
      under a name order with "a.md" before "b.md" the comparator is not one
      `sort` can rely on: "b.md" ~ "c.png" ~ "a.md", yet "b.md" > "a.md". */
  lemma CompareNodesInconsistent(names: NameCompare)
    requires names("b.md", "a.md") > 0
    ensures !TotalPreorder(AsWritten(names))
  {
    var b := FileLeaf("b.md", "b.md", File, 0, 0);
    var c := FileLeaf("c.png", "c.png", Image, 0, 0);
    var a := FileLeaf("a.md", "a.md", File, 0, 0);
    var cmp := AsWritten(names);
    assert cmp(b, c) <= 0 && cmp(c, a) <= 0 && cmp(b, a) > 0;
  }

  /** The comparator as evidently intended ("directories first, then
      files"): directories before documents and images, and within each of
      the two groups by name. */
  function CompareListing(a: FileNode, b: FileNode, names: NameCompare): int
  {
    if a.DirectoryNode? == b.DirectoryNode? then names(a.name, b.name)
    else if a.DirectoryNode? then -1
    else 1
  }

  function Listing(names: NameCompare): Order
  {
    (a, b) => CompareListing(a, b, names)
  }

  /** A name order `sort` can rely on gives a listing order it can rely on. */
  lemma ListingTotalPreorder(names: NameCompare)
    requires TotalPreorder(names)
    ensures TotalPreorder(Listing(names))
  {
    var cmp := Listing(names);
    forall x, y ensures cmp(x, y) <= 0 || cmp(y, x) <= 0 {
      assert cmp(x, y) == CompareListing(x, y, names);
    }
    forall x, y, z | cmp(x, y) <= 0 && cmp(y, z) <= 0 ensures cmp(x, z) <= 0 {
      assert cmp(x, y) == CompareListing(x, y, names);
    }
  }

  /** A directory comes before anything else; two directories, or two nodes
      that are not directories, compare by name. */
  lemma CompareListingRules(a: FileNode, b: FileNode, names: NameCompare)
    ensures a.DirectoryNode? && !b.DirectoryNode? ==>
              CompareListing(a, b, names) < 0 && CompareListing(b, a, names) > 0
    ensures a.DirectoryNode? == b.DirectoryNode? ==> CompareListing(a, b, names) == names(a.name, b.name)
  {
  }

  /** Whatever the comparator, a successful listing holds exactly the listed
      nodes, rearranged. */
  lemma DirectoryContentsPermutes(dirPath: string, readable: bool, entries: seq<FsEntry>, types: FileTypes,
                                  order: Order)
    requires DirectoryContents(dirPath, readable, entries, types, order).Success?
    ensures var ns := EntriesNodes(dirPath, entries, types, order);
            && ns.Some?
            && multiset(DirectoryContents(dirPath, readable, entries, types, order).value) == multiset(ns.value)
  {
  }

  /** The listing as evidently intended, sorted with `CompareListing`: the
      listed nodes, rearranged, with all directories first and each group in
      name order. */
  lemma CorrectedListingSorted(dirPath: string, readable: bool, entries: seq<FsEntry>, types: FileTypes,
                               names: NameCompare)
    requires TotalPreorder(names)
    requires DirectoryContents(dirPath, readable, entries, types, Listing(names)).Success?
    ensures var ns := EntriesNodes(dirPath, entries, types, Listing(names));
            var r := DirectoryContents(dirPath, readable, entries, types, Listing(names)).value;
            && ns.Some?
            && multiset(r) == multiset(ns.value)
            && (forall i, j :: 0 <= i < j < |r| && r[j].DirectoryNode? ==> r[i].DirectoryNode?)
            && (forall i, j :: 0 <= i < j < |r| && r[i].DirectoryNode? == r[j].DirectoryNode? ==>
                  names(r[i].name, r[j].name) <= 0)
  {
    var ns := EntriesNodes(dirPath, entries, types, Listing(names)).value;
    ListingTotalPreorder(names);
    SortBySorted(ns, Listing(names));
    var r := SortBy(ns, Listing(names));
    forall i, j | 0 <= i < j < |r| ensures CompareListing(r[i], r[j], names) <= 0 {
      assert Listing(names)(r[i], r[j]) <= 0;
    }
  }
}
