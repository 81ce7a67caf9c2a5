/** The notes file commands of `src-tauri/src/commands/notes/fs.rs`: where
    the notes root lives, which path a new note, folder or renamed item
    gets, and the tree of the notes root with directories listed first and
    names in order. The file system itself is a parameter: the set of paths
    that exist, the tree under the root, and the error each operation would
    report. */
module NotesFs {
  import opened Basics
  import opened UnixPath

  const NotesDirName: string := "NorunosNotes"

  // -------------------------------------------------------- the notes root

  /** `get_notes_dir`: `$HOME/Documents/NorunosNotes` when `HOME` is set,
      else the relative `NorunosNotes`. */
  function NotesDir(home: Option<string>): (r: string)
    ensures home.None? ==> r == NotesDirName
    ensures home == Some("") ==> r == "Documents/NorunosNotes"
    ensures home.Some? && home.value != "" && home.value[|home.value| - 1] != '/' ==>
              r == home.value + "/Documents/NorunosNotes"
    ensures home.Some? && home.value != "" && home.value[|home.value| - 1] == '/' ==>
              r == home.value + "Documents/NorunosNotes"
  {
    match home
    case Some(h) => Join(Join(h, "Documents"), NotesDirName)
    case None => NotesDirName
  }

  /** Under a home directory the notes root is the `NorunosNotes` entry of
      `Documents`, and `parent` gives `Documents` back. */
  lemma NotesDirUnderHome(h: string)
    requires h != "" && h[|h| - 1] != '/'
    ensures Settled(NotesDir(Some(h)))
    ensures Parent(NotesDir(Some(h))) == Some(Join(h, "Documents"))
  {
    var docs := Join(h, "Documents");
    SettledJoin(docs, NotesDirName);
    SettledJoin(h, "Documents");
    ParentOfSettledJoin(docs, NotesDirName);
  }

  /** What the commands are given of the outside world. */
  datatype Env = Env(
    home: Option<string>,          // `std::env::var("HOME")`
    existing: set<string>,         // the paths for which `exists()` holds
    createDirError: Option<string>, // what `create_dir_all` of the root reports
    opError: Option<string>)       // what the command's own write, create or rename reports

  /** `ensure_notes_dir`: the root, created when it does not exist yet. */
  function EnsureNotesDir(env: Env): (r: Result<string, string>)
    ensures r.Ok? <==> NotesDir(env.home) in env.existing || env.createDirError.None?
    ensures r.Ok? ==> r.value == NotesDir(env.home)
    ensures r.Err? ==> r.error == env.createDirError.value
  {
    var path := NotesDir(env.home);
    if path !in env.existing && env.createDirError.Some? then Err(env.createDirError.value)
    else Ok(path)
  }

  /** The directory `create_note` and `create_folder` work in: the notes
      root for an empty `parent_path`, else `parent_path` as given. */
  function TargetDir(parentPath: string, env: Env): (r: Result<string, string>)
    ensures parentPath != "" ==> r == Ok(parentPath)
    ensures parentPath == "" ==> r == EnsureNotesDir(env)
  {
    if parentPath == "" then EnsureNotesDir(env) else Ok(parentPath)
  }

  // ------------------------------------------------------ creating and renaming

  /** The path of a new note: `dir` joined with `name`, whose extension is
      set to `md` unless the name already ends in `.md`. */
  function NotePath(dir: string, name: string): string {
    var filePath := Join(dir, name);
    if EndsWith(name, ".md") then filePath else SetExtension(filePath, "md")
  }

  /** `create_note`. */
  function CreateNote(parentPath: string, name: string, env: Env): (r: Result<string, string>)
    ensures TargetDir(parentPath, env).Err? ==> r == Err(TargetDir(parentPath, env).error)
    ensures TargetDir(parentPath, env).Ok? && NotePath(TargetDir(parentPath, env).value, name) in env.existing ==>
              r == Err("File already exists")
    ensures r.Ok? <==> TargetDir(parentPath, env).Ok?
                       && NotePath(TargetDir(parentPath, env).value, name) !in env.existing
                       && env.opError.None?
    ensures r.Ok? ==> r.value == NotePath(TargetDir(parentPath, env).value, name)
  {
    match TargetDir(parentPath, env)
    case Err(e) => Err(e)
    case Ok(dir) =>
      var filePath := NotePath(dir, name);
      if filePath in env.existing then Err("File already exists")
      else if env.opError.Some? then Err(env.opError.value)
      else Ok(filePath)
  }

  /** `create_folder`. */
  function CreateFolder(parentPath: string, name: string, env: Env): (r: Result<string, string>)
    ensures TargetDir(parentPath, env).Err? ==> r == Err(TargetDir(parentPath, env).error)
    ensures TargetDir(parentPath, env).Ok? && Join(TargetDir(parentPath, env).value, name) in env.existing ==>
              r == Err("Folder already exists")
    ensures r.Ok? <==> TargetDir(parentPath, env).Ok?
                       && Join(TargetDir(parentPath, env).value, name) !in env.existing
                       && env.opError.None?
    ensures r.Ok? ==> r.value == Join(TargetDir(parentPath, env).value, name)
  {
    match TargetDir(parentPath, env)
    case Err(e) => Err(e)
    case Ok(dir) =>
      var folderPath := Join(dir, name);
      if folderPath in env.existing then Err("Folder already exists")
      else if env.opError.Some? then Err(env.opError.value)
      else Ok(folderPath)
  }

  /** The name a note named `name` is stored under. */
  function NoteName(name: string): string {
    if EndsWith(name, ".md") then name else Stem(name) + ".md"
  }

  /** The stored name is an ordinary name ending in `.md`. */
  lemma NoteNameShape(name: string)
    requires PlainName(name)
    ensures PlainName(NoteName(name)) && EndsWith(NoteName(name), ".md")
  {
    if !EndsWith(name, ".md") {
      var stem := Stem(name);
      var n := stem + ".md";
      assert forall i :: 0 <= i < |stem| ==> n[i] == name[i];
      assert n[|n| - 3..] == ".md";
    }
  }

  /** A note named by an ordinary name is the entry `NoteName(name)` of
      `dir`: a name ending in `.md` is kept, any other has its extension
      replaced by `.md`. */
  lemma NotePathOfName(dir: string, name: string)
    requires dir != "" && dir[|dir| - 1] != '/' && PlainName(name)
    ensures NotePath(dir, name) == Join(dir, NoteName(name))
  {
    if !EndsWith(name, ".md") {
      SetExtensionOfJoin(dir, name, "md");
      AppendMd(Stem(name));
    }
  }

  lemma AppendMd(x: string)
    ensures x + "." + "md" == x + ".md"
  {
    assert "." + "md" == ".md";
    assert x + "." + "md" == x + ("." + "md");
  }

  /** The new note lies in the directory it was created in. */
  lemma NoteInDirectory(dir: string, name: string)
    requires Settled(dir) && PlainName(name)
    ensures Parent(NotePath(dir, name)) == Some(dir)
  {
    NotePathOfName(dir, name);
    NoteNameShape(name);
    ParentOfSettledJoin(dir, NoteName(name));
  }

  /** Every note created this way has a name ending in `.md`. */
  lemma CreatedNoteIsMarkdown(parentPath: string, name: string, env: Env)
    requires CreateNote(parentPath, name, env).Ok?
    requires var d := TargetDir(parentPath, env).value; d != "" && d[|d| - 1] != '/'
    requires PlainName(name)
    ensures EndsWith(CreateNote(parentPath, name, env).value, ".md")
  {
    var dir := TargetDir(parentPath, env).value;
    NotePathOfName(dir, name);
    NoteNameShape(name);
    var n := NoteName(name);
    var p := Join(dir, n);
    assert p == dir + "/" + n;
    assert p[|p| - 3..] == n[|n| - 3..];
  }

  lemma StemOfTxt()
    ensures Stem("a.txt") == "a"
  {
    assert LastDot("a.txt") == Some(1) by {
      assert "a.txt"[..4] == "a.tx" && "a.tx"[..3] == "a.t" && "a.t"[..2] == "a.";
    }
  }

  lemma NoteNameOfTxt()
    ensures PlainName("a.txt") && NoteName("a.txt") == "a.md"
  {
    assert !EndsWith("a.txt", ".md") by { assert "a.txt"[2..] == "txt"; }
    StemOfTxt();
  }

  lemma NoteNameOfMd()
    ensures PlainName("b.md") && NoteName("b.md") == "b.md"
  {
    assert "b.md"[1..] == ".md";
  }

  /** `a.txt` becomes `a.md`; `b.md` stays as it is. */
  lemma NoteNameExamples(dir: string)
    requires dir != "" && dir[|dir| - 1] != '/'
    ensures NotePath(dir, "a.txt") == dir + "/" + "a.md"
    ensures NotePath(dir, "b.md") == dir + "/" + "b.md"
  {
    NotePathOfTxt(dir);
    NotePathOfMd(dir);
  }

  lemma NotePathOfTxt(dir: string)
    requires dir != "" && dir[|dir| - 1] != '/'
    ensures NotePath(dir, "a.txt") == dir + "/" + "a.md"
  {
    NoteNameOfTxt();
    NotePathOfName(dir, "a.txt");
    assert Join(dir, "a.md") == dir + "/" + "a.md";
  }

  lemma NotePathOfMd(dir: string)
    requires dir != "" && dir[|dir| - 1] != '/'
    ensures NotePath(dir, "b.md") == dir + "/" + "b.md"
  {
    NoteNameOfMd();
    NotePathOfName(dir, "b.md");
    assert Join(dir, "b.md") == dir + "/" + "b.md";
  }

  /** `rename_item`: the old path's parent joined with the new name, or
      `"Invalid path"` when the old path has no parent. */
  function RenameItem(path: string, newName: string, env: Env): (r: Result<string, string>)
    ensures Parent(path).None? ==> r == Err("Invalid path")
    ensures r.Ok? <==> Parent(path).Some? && env.opError.None?
    ensures r.Ok? ==> r.value == Join(Parent(path).value, newName)
  {
    match Parent(path)
    case None => Err("Invalid path")
    case Some(parent) =>
      var newPath := Join(parent, newName);
      if env.opError.Some? then Err(env.opError.value) else Ok(newPath)
  }

  /** Renaming an entry of a settled directory keeps it in that directory. */
  lemma RenameStaysInDirectory(dir: string, oldName: string, newName: string, env: Env)
    requires Settled(dir) && PlainName(oldName) && env.opError.None?
    ensures RenameItem(Join(dir, oldName), newName, env) == Ok(Join(dir, newName))
  {
    ParentOfSettledJoin(dir, oldName);
  }

  /** The empty path and the root cannot be renamed. */
  lemma RenameWithoutParent(newName: string, env: Env)
    ensures RenameItem("", newName, env) == Err("Invalid path")
    ensures RenameItem("/", newName, env) == Err("Invalid path")
  {
    NoParent();
  }

  // ------------------------------------------------------------ the notes tree

  /** What `read_dir` finds: files, and directories with their entries. */
  datatype FsEntry = FsFile(name: string) | FsDir(name: string, entries: seq<FsEntry>)

  /** `FileNode`: `children` is the sorted listing of a directory. */
  datatype FileNode = FileNode(name: string, path: string, isDir: bool, children: Option<seq<FileNode>>)

  /** Code-point order on names, which is the byte order Rust's `String`
      comparison uses on UTF-8. */
  predicate NameLe(a: string, b: string)
    decreases |a|
  {
    a == [] || (b != [] && (a[0] < b[0] || (a[0] == b[0] && NameLe(a[1..], b[1..]))))
  }

  lemma {:induction false} NameLeTotal(a: string, b: string)
    ensures NameLe(a, b) || NameLe(b, a)
    decreases |a|
  {
    if a != [] && b != [] && a[0] == b[0] {
      NameLeTotal(a[1..], b[1..]);
    }
  }

  lemma {:induction false} NameLeTrans(a: string, b: string, c: string)
    requires NameLe(a, b) && NameLe(b, c)
    ensures NameLe(a, c)
    decreases |a|
  {
    if a != [] && a[0] == b[0] && b[0] == c[0] {
      NameLeTrans(a[1..], b[1..], c[1..]);
    }
  }

  lemma {:induction false} NameLeAntisymmetric(a: string, b: string)
    requires NameLe(a, b) && NameLe(b, a)
    ensures a == b
    decreases |a|
  {
    if a != [] {
      NameLeAntisymmetric(a[1..], b[1..]);
      assert a == [a[0]] + a[1..] && b == [b[0]] + b[1..];
    }
  }

  /** The `sort_by` comparator does not put `a` after `b`: directories
      before files, and by name within each kind. */
  predicate NodeLe(a: FileNode, b: FileNode) {
    if a.isDir == b.isDir then NameLe(a.name, b.name) else a.isDir
  }

  lemma NodeLeTotal(a: FileNode, b: FileNode)
    ensures NodeLe(a, b) || NodeLe(b, a)
  {
    NameLeTotal(a.name, b.name);
  }

  lemma NodeLeTrans(a: FileNode, b: FileNode, c: FileNode)
    requires NodeLe(a, b) && NodeLe(b, c)
    ensures NodeLe(a, c)
  {
    if a.isDir == b.isDir == c.isDir {
      NameLeTrans(a.name, b.name, c.name);
    }
  }

  predicate SortedNodes(s: seq<FileNode>) {
    forall i, j :: 0 <= i < j < |s| ==> NodeLe(s[i], s[j])
  }

  /** Inserts `x` after every element of `sorted` that does not come after it. */
  function InsertNode(sorted: seq<FileNode>, x: FileNode): seq<FileNode>
    decreases |sorted|
  {
    if sorted == [] then [x]
    else if NodeLe(sorted[|sorted| - 1], x) then sorted + [x]
    else InsertNode(sorted[..|sorted| - 1], x) + [sorted[|sorted| - 1]]
  }

  /** `nodes.sort_by(...)`: the library's stable sort under the comparator. */
  function SortNodes(s: seq<FileNode>): seq<FileNode>
    decreases |s|
  {
    if s == [] then []
    else InsertNode(SortNodes(s[..|s| - 1]), s[|s| - 1])
  }

  /** Inserting adds exactly `x`. */
  lemma {:induction false} InsertNodePerm(sorted: seq<FileNode>, x: FileNode)
    ensures multiset(InsertNode(sorted, x)) == multiset(sorted) + multiset{x}
    decreases |sorted|
  {
    if sorted != [] {
      var n := |sorted| - 1;
      assert sorted == sorted[..n] + [sorted[n]];
      if !NodeLe(sorted[n], x) {
        InsertNodePerm(sorted[..n], x);
      }
    }
  }

  lemma SortedNodesSnoc(s: seq<FileNode>, y: FileNode)
    requires SortedNodes(s)
    requires forall i :: 0 <= i < |s| ==> NodeLe(s[i], y)
    ensures SortedNodes(s + [y])
  {
    var r := s + [y];
    forall i, j | 0 <= i < j < |r| ensures NodeLe(r[i], r[j]) {
      if j < |s| {
        assert r[i] == s[i] && r[j] == s[j];
      } else {
        assert r[i] == s[i] && r[j] == y;
      }
    }
  }

  lemma SortedNodesPrefix(s: seq<FileNode>, n: nat)
    requires SortedNodes(s) && n <= |s|
    ensures SortedNodes(s[..n])
  {
    var p := s[..n];
    forall i, j | 0 <= i < j < |p| ensures NodeLe(p[i], p[j]) {
      assert p[i] == s[i] && p[j] == s[j];
    }
  }

  /** A node that does not come before the last one goes at the end. */
  lemma SnocAfterLast(sorted: seq<FileNode>, x: FileNode)
    requires SortedNodes(sorted) && sorted != [] && NodeLe(sorted[|sorted| - 1], x)
    ensures SortedNodes(sorted + [x])
  {
    var n := |sorted| - 1;
    forall i | 0 <= i < |sorted| ensures NodeLe(sorted[i], x) {
      if i < n {
        NodeLeTrans(sorted[i], sorted[n], x);
      }
    }
    SortedNodesSnoc(sorted, x);
  }

  /** A permutation of the first n nodes plus `x` stays below node n when
      `x` does. */
  lemma BelowLast(sorted: seq<FileNode>, ins: seq<FileNode>, x: FileNode)
    requires SortedNodes(sorted) && sorted != []
    requires NodeLe(x, sorted[|sorted| - 1])
    requires multiset(ins) == multiset(sorted[..|sorted| - 1]) + multiset{x}
    ensures forall i :: 0 <= i < |ins| ==> NodeLe(ins[i], sorted[|sorted| - 1])
  {
    var n := |sorted| - 1;
    var init := sorted[..n];
    forall i | 0 <= i < |ins| ensures NodeLe(ins[i], sorted[n]) {
      assert ins[i] in multiset(ins);
      if ins[i] != x {
        assert ins[i] in multiset(init);
        var j :| 0 <= j < n && init[j] == ins[i];
        assert sorted[j] == init[j];
      }
    }
  }

  lemma {:induction false} InsertNodeSorted(sorted: seq<FileNode>, x: FileNode)
    requires SortedNodes(sorted)
    ensures SortedNodes(InsertNode(sorted, x))
    ensures multiset(InsertNode(sorted, x)) == multiset(sorted) + multiset{x}
    decreases |sorted|
  {
    InsertNodePerm(sorted, x);
    if sorted != [] {
      var n := |sorted| - 1;
      var init, last := sorted[..n], sorted[n];
      if NodeLe(last, x) {
        assert InsertNode(sorted, x) == sorted + [x];
        SnocAfterLast(sorted, x);
      } else {
        var ins := InsertNode(init, x);
        assert InsertNode(sorted, x) == ins + [last];
        NodeLeTotal(last, x);
        SortedNodesPrefix(sorted, n);
        InsertNodeSorted(init, x);
        BelowLast(sorted, ins, x);
        SortedNodesSnoc(ins, last);
      }
    }
  }

  /** The sort gives a sorted permutation of its input. */
  lemma {:induction false} SortNodesCorrect(s: seq<FileNode>)
    ensures SortedNodes(SortNodes(s))
    ensures multiset(SortNodes(s)) == multiset(s)
    decreases |s|
  {
    if s != [] {
      var n := |s| - 1;
      assert s == s[..n] + [s[n]];
      SortNodesCorrect(s[..n]);
      InsertNodeSorted(SortNodes(s[..n]), s[n]);
    }
  }

  /** In sorted order every directory comes before every file, and entries
      of one kind have ascending names. */
  lemma SortedDirsFirst(s: seq<FileNode>)
    requires SortedNodes(s)
    ensures forall i, j :: 0 <= i < j < |s| && s[j].isDir ==> s[i].isDir
    ensures forall i, j :: 0 <= i < j < |s| && s[i].isDir == s[j].isDir ==> NameLe(s[i].name, s[j].name)
  {
  }

  /** The node for entry `e` of directory `dir`. */
  function EntryNode(dir: string, e: FsEntry): (n: FileNode)
    ensures n.name == e.name && n.path == Join(dir, e.name) && n.isDir == e.FsDir?
    ensures n.children.Some? <==> e.FsDir?
    decreases e, 2
  {
    match e
    case FsFile(name) => FileNode(name, Join(dir, name), false, None)
    case FsDir(name, entries) => FileNode(name, Join(dir, name), true, Some(ReadTree(Join(dir, name), entries)))
  }

  /** The nodes of `entries` in the order `read_dir` yields them. */
  function EntryNodes(dir: string, entries: seq<FsEntry>): (r: seq<FileNode>)
    ensures |r| == |entries|
    ensures forall i :: 0 <= i < |entries| ==> r[i] == EntryNode(dir, entries[i])
    decreases entries, 0
  {
    if entries == [] then []
    else EntryNodes(dir, entries[..|entries| - 1]) + [EntryNode(dir, entries[|entries| - 1])]
  }

  /** `read_dir_recursive` of `dir`: its nodes, sorted. */
  function ReadTree(dir: string, entries: seq<FsEntry>): seq<FileNode>
    decreases entries, 1
  {
    SortNodes(EntryNodes(dir, entries))
  }

  /** One more entry adds its node at the end. */
  lemma EntryNodesSnoc(dir: string, entries: seq<FsEntry>, i: nat)
    requires i < |entries|
    ensures EntryNodes(dir, entries[..i + 1]) == EntryNodes(dir, entries[..i]) + [EntryNode(dir, entries[i])]
  {
    assert entries[..i + 1][..i] == entries[..i];
  }

  /** `read_dir_recursive`: one node per entry, directories read
      recursively, then the list sorted. */
  method ReadDirRecursive(path: string, entries: seq<FsEntry>) returns (nodes: seq<FileNode>)
    ensures nodes == ReadTree(path, entries)
    decreases entries, 1
  {
    var acc: seq<FileNode> := [];
    var i := 0;
    while i < |entries|
      invariant 0 <= i <= |entries|
      invariant acc == EntryNodes(path, entries[..i])
    {
      var entry := entries[i];
      var entryPath := Join(path, entry.name);
      var isDir := entry.FsDir?;
      var children: Option<seq<FileNode>> := None;
      if isDir {
        var sub := ReadDirRecursive(entryPath, entry.entries);
        children := Some(sub);
      }
      assert FileNode(entry.name, entryPath, isDir, children) == EntryNode(path, entry);
      EntryNodesSnoc(path, entries, i);
      acc := acc + [FileNode(entry.name, entryPath, isDir, children)];
      i := i + 1;
    }
    assert entries[..i] == entries;
    nodes := SortNodes(acc);
  }

  /** A listing holds one node per entry, at the entry's path, directories
      first and by name within each kind. */
  lemma ReadTreeListing(dir: string, entries: seq<FsEntry>)
    ensures var r := ReadTree(dir, entries);
            multiset(r) == multiset(EntryNodes(dir, entries))
            && |r| == |entries|
            && (forall i, j :: 0 <= i < j < |r| && r[j].isDir ==> r[i].isDir)
            && (forall i, j :: 0 <= i < j < |r| && r[i].isDir == r[j].isDir ==> NameLe(r[i].name, r[j].name))
            && (forall n :: n in r <==> exists e :: e in entries && n == EntryNode(dir, e))
  {
    var s := EntryNodes(dir, entries);
    var r := ReadTree(dir, entries);
    SortNodesCorrect(s);
    SortedDirsFirst(r);
    assert |multiset(r)| == |multiset(s)|;
    forall n ensures n in r <==> exists e :: e in entries && n == EntryNode(dir, e) {
      assert n in r <==> n in multiset(r);
      assert n in s <==> n in multiset(s);
      if n in s {
        var i :| 0 <= i < |s| && s[i] == n;
        assert entries[i] in entries;
      }
      if exists e :: e in entries && n == EntryNode(dir, e) {
        var e :| e in entries && n == EntryNode(dir, e);
        var i :| 0 <= i < |entries| && entries[i] == e;
        assert s[i] == n;
      }
    }
  }

  /** `get_notes_tree`: the listing of the notes root, once it exists. */
  method GetNotesTree(env: Env, root: seq<FsEntry>) returns (r: Result<seq<FileNode>, string>)
    ensures EnsureNotesDir(env).Err? ==> r == Err(EnsureNotesDir(env).error)
    ensures EnsureNotesDir(env).Ok? ==> r == Ok(ReadTree(NotesDir(env.home), root))
  {
    var dir := EnsureNotesDir(env);
    if dir.Err? {
      return Err(dir.error);
    }
    var nodes := ReadDirRecursive(dir.value, root);
    return Ok(nodes);
  }
}
