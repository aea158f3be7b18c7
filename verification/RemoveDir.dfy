/**
 * Removing a directory with everything in it, with a stack of directories still to be visited
 * (source/io/fs/Dir.cpp). Paths are sequences of names. The operations in `faulty` fail; the
 * listing of a directory is a snapshot in any order.
 */
module RemoveDir {
  import opened Sequences

  type Path = seq<string>

  datatype Kind = Directory | Other      // whatever is not a directory is unlinked

  type Tree = map<Path, Kind>

  datatype Op = Open(path: Path) | Unlinking(path: Path) | Removing(path: Path)

  datatype Outcome = Success | Failure(at: Path)

  predicate IsDirectory(t: Tree, p: Path) { p in t && t[p] == Directory }

  predicate IsChild(d: Path, p: Path) { |p| == |d| + 1 && d <= p }

  /** Everything lies in a directory, up to the root of the tree. */
  ghost predicate IsTree(t: Tree) {
    forall p :: p in t && p != [] ==> IsDirectory(t, p[..|p| - 1])
  }

  function Children(t: Tree, d: Path): set<Path> { set p | p in t && IsChild(d, p) }

  /** Every directory at or below `root`. */
  function DirectoriesUnder(t: Tree, root: Path): set<Path> { set p | p in t && t[p] == Directory && root <= p }

  class FileSystem {
    var tree: Tree
    const faulty: set<Op>

    method OpenDir(d: Path) returns (ok: bool)
      ensures ok <==> IsDirectory(tree, d) && Open(d) !in faulty
    {
      ok := d in tree && tree[d] == Directory && Open(d) !in faulty;
    }

    /** The children of `d`, each once, in any order. */
    method ReadDir(d: Path) returns (listing: seq<Path>)
      ensures forall p :: p in listing <==> p in Children(tree, d)
      ensures Distinct(listing)
    {
      listing := [];
      var left := Children(tree, d);
      while left != {}
        invariant forall p :: p in Children(tree, d) <==> p in left || p in listing
        invariant forall p :: p in listing ==> p !in left
        invariant forall i, j :: 0 <= i < j < |listing| ==> listing[i] != listing[j]
        decreases left
      {
        var p :| p in left;
        listing := listing + [p];
        left := left - {p};
      }
    }

    method Unlink(p: Path) returns (ok: bool)
      modifies this
      ensures ok <==> old(p in tree && tree[p] == Other) && Unlinking(p) !in faulty
      ensures tree == if ok then old(tree) - {p} else old(tree)
    {
      ok := p in tree && tree[p] == Other && Unlinking(p) !in faulty;
      if ok { tree := tree - {p}; }
    }

    method RmDir(d: Path) returns (ok: bool)
      modifies this
      ensures ok <==> old(IsDirectory(tree, d) && Children(tree, d) == {}) && Removing(d) !in faulty
      ensures tree == if ok then old(tree) - {d} else old(tree)
    {
      ok := d in tree && tree[d] == Directory && Children(tree, d) == {} && Removing(d) !in faulty;
      if ok { tree := tree - {d}; }
    }
  }

  datatype Entry = Entry(path: Path, processed: bool)

  // ---------- one visit ----------

  function Unprocessed(paths: seq<Path>): (r: seq<Entry>)
    ensures |r| == |paths| && forall i :: 0 <= i < |r| ==> r[i] == Entry(paths[i], false)
  {
    seq(|paths|, i requires 0 <= i < |paths| => Entry(paths[i], false))
  }

  /** Something at `p` that cannot be removed. */
  predicate Blocked(t: Tree, faulty: set<Op>, p: Path) {
    p in t && if t[p] == Directory then Open(p) in faulty || Removing(p) in faulty else Unlinking(p) in faulty
  }

  ghost predicate NothingBlocked(t: Tree, faulty: set<Op>, root: Path) {
    forall p :: p in t && root <= p ==> !Blocked(t, faulty, p)
  }

  /** From `was` to `t` only files directly in `d` have gone, none of them faulty. */
  ghost predicate OnlyFilesWent(was: Tree, t: Tree, d: Path, faulty: set<Op>) {
    && (forall p :: p in t ==> p in was && t[p] == was[p])
    && (forall p :: p in was && p !in t ==> IsChild(d, p) && was[p] == Other && Unlinking(p) !in faulty)
  }

  lemma FileGoes(was: Tree, t: Tree, d: Path, faulty: set<Op>, p: Path)
    requires IsTree(t) && OnlyFilesWent(was, t, d, faulty) && p in t && t[p] == Other && IsChild(d, p)
    requires Unlinking(p) !in faulty
    ensures IsTree(t - {p}) && OnlyFilesWent(was, t - {p}, d, faulty)
  {
  }

  lemma DirectoryStays(was: Tree, t: Tree, d: Path, faulty: set<Op>)
    requires OnlyFilesWent(was, t, d, faulty) && IsDirectory(was, d)
    ensures IsDirectory(t, d)
    ensures forall p :: p in Children(t, d) ==> p in Children(was, d)
  {
  }

  /** The listing of `d`, `i` of its entries handled: files gone, directories in `pushed`. */
  ghost predicate Handled(t: Tree, listing: seq<Path>, i: nat, pushed: seq<Path>)
    requires i <= |listing|
  {
    && (forall k :: i <= k < |listing| ==> listing[k] in t && listing[k] !in pushed)
    && (forall k :: 0 <= k < i ==> (listing[k] in t <==> listing[k] in pushed))
    && (forall p :: p in pushed ==> p in t && t[p] == Directory)
    && Distinct(pushed)
  }

  lemma HandleNext(t: Tree, listing: seq<Path>, i: nat, pushed: seq<Path>)
    requires i < |listing| && Distinct(listing) && Handled(t, listing, i, pushed)
    ensures t[listing[i]] == Directory ==> Handled(t, listing, i + 1, pushed + [listing[i]])
    ensures t[listing[i]] != Directory ==> Handled(t - {listing[i]}, listing, i + 1, pushed)
  {
    var p, t' := listing[i], t - {listing[i]};
    if t[p] == Directory {
      var more := pushed + [p];
      assert forall x :: x in more <==> x in pushed || x == p;
    } else {
      assert forall x :: x in t' <==> x in t && x != p;
    }
  }

  lemma AllHandled(was: Tree, t: Tree, d: Path, listing: seq<Path>, pushed: seq<Path>)
    requires Handled(t, listing, |listing|, pushed)
    requires forall p :: p in listing <==> p in Children(was, d)
    requires forall p :: p in Children(t, d) ==> p in Children(was, d)
    requires forall p :: p in pushed ==> p in listing
    ensures forall p :: p in pushed <==> p in Children(t, d)
  {
    forall p | p in Children(t, d) ensures p in pushed {
      assert p in listing;
    }
  }

  /** Visits the directory on top of the stack: files go, directories are pushed. */
  method RemoveDirEntry(fs: FileSystem, work: seq<Entry>)
    returns (stack: seq<Entry>, r: Outcome, ghost pushed: seq<Path>)
    requires work != [] && IsTree(fs.tree)
    modifies fs
    ensures var d := work[|work| - 1].path;
      && IsTree(fs.tree) && OnlyFilesWent(old(fs.tree), fs.tree, d, fs.faulty)
      && (r.Success? ==>
           IsDirectory(fs.tree, d) && Open(d) !in fs.faulty
           && stack == work[..|work| - 1] + [Entry(d, true)] + Unprocessed(pushed)
           && Distinct(pushed) && (forall p :: p in pushed <==> p in Children(fs.tree, d))
           && (forall p :: p in pushed ==> fs.tree[p] == Directory))
      && (r.Failure? ==>
           d <= r.at && (Blocked(old(fs.tree), fs.faulty, r.at) || (r.at == d && !IsDirectory(old(fs.tree), d))))
  {
    hide IsTree, OnlyFilesWent, Handled, Distinct;
    var d := work[|work| - 1].path;
    stack, pushed := work[..|work| - 1] + [Entry(d, true)], [];
    NothingWent(fs.tree, d, fs.faulty);
    var isOpen := fs.OpenDir(d);
    if !isOpen {
      return stack, Failure(d), pushed;
    }
    var listing := fs.ReadDir(d);
    ghost var before, was := stack, fs.tree;
    NothingHandled(fs.tree, d, listing);
    for i := 0 to |listing|
      invariant IsTree(fs.tree) && OnlyFilesWent(was, fs.tree, d, fs.faulty) && Handled(fs.tree, listing, i, pushed)
      invariant forall p :: p in pushed ==> p in listing
      invariant stack == before + Unprocessed(pushed)
    {
      var p := listing[i];
      assert p in listing;
      HandleNext(fs.tree, listing, i, pushed);
      HandledHas(fs.tree, listing, i, pushed);
      if fs.tree[p] != Directory {
        if Unlinking(p) !in fs.faulty { FileGoes(was, fs.tree, d, fs.faulty, p); }
        var ok := fs.Unlink(p);
        if !ok {
          WentHad(was, fs.tree, d, fs.faulty, p);
          return stack, Failure(p), pushed;
        }
      } else {
        stack := stack + [Entry(p, false)];
        pushed := pushed + [p];
      }
    }
    DirectoryStays(was, fs.tree, d, fs.faulty);
    AllHandled(was, fs.tree, d, listing, pushed);
    HandledDone(fs.tree, listing, pushed);
    return stack, Success, pushed;
  }

  lemma WentHad(was: Tree, t: Tree, d: Path, faulty: set<Op>, p: Path)
    requires OnlyFilesWent(was, t, d, faulty) && p in t
    ensures p in was && was[p] == t[p]
  {
  }

  lemma NothingWent(t: Tree, d: Path, faulty: set<Op>)
    ensures OnlyFilesWent(t, t, d, faulty)
  {
  }

  lemma NothingHandled(t: Tree, d: Path, listing: seq<Path>)
    requires forall p :: p in listing <==> p in Children(t, d)
    ensures Handled(t, listing, 0, [])
  {
    forall k | 0 <= k < |listing| ensures listing[k] in t {
      assert listing[k] in listing;
    }
  }

  lemma HandledHas(t: Tree, listing: seq<Path>, i: nat, pushed: seq<Path>)
    requires i < |listing| && Handled(t, listing, i, pushed)
    ensures listing[i] in t
  {
  }

  lemma HandledDone(t: Tree, listing: seq<Path>, pushed: seq<Path>)
    requires Handled(t, listing, |listing|, pushed)
    ensures Distinct(pushed) && forall p :: p in pushed ==> p in t && t[p] == Directory
  {
  }

  // ---------- the stack ----------

  ghost predicate HasParentBelow(work: seq<Entry>, i: nat)
    requires i < |work|
  {
    exists j :: 0 <= j < i && work[j].processed && IsChild(work[j].path, work[i].path)
  }

  ghost predicate IsAbove(work: seq<Entry>, i: nat, c: Path) {
    exists j :: i < j < |work| && work[j].path == c
  }

  /**
   * The root at the bottom, directories only, none twice; every other one has its parent below it,
   * processed; and every directory left in a processed one stands above it.
   */
  ghost predicate StackOk(t: Tree, root: Path, work: seq<Entry>) {
    && (work != [] ==> work[0].path == root)
    && (forall i :: 0 <= i < |work| ==> IsDirectory(t, work[i].path) && root <= work[i].path)
    && (forall i, j :: 0 <= i < j < |work| ==> work[i].path != work[j].path)
    && (forall i :: 0 < i < |work| ==> HasParentBelow(work, i))
    && (forall i, c :: 0 <= i < |work| && work[i].processed && IsDirectory(t, c) && IsChild(work[i].path, c) ==>
          IsAbove(work, i, c))
  }

  /** The directories no visit has processed yet. */
  ghost function ToProcess(t: Tree, root: Path, work: seq<Entry>): set<Path> {
    set p | p in DirectoriesUnder(t, root) && Entry(p, true) !in work
  }

  lemma FilesDoNotMatter(was: Tree, t: Tree, d: Path, faulty: set<Op>, root: Path, work: seq<Entry>)
    requires OnlyFilesWent(was, t, d, faulty) && StackOk(was, root, work)
    ensures StackOk(t, root, work) && DirectoriesUnder(t, root) == DirectoriesUnder(was, root)
  {
    assert forall p :: IsDirectory(t, p) <==> IsDirectory(was, p);
  }

  /** The stack after a visit of the directory on top of it. */
  ghost predicate IsPushed(t: Tree, work: seq<Entry>, pushed: seq<Path>, stack: seq<Entry>) {
    && work != [] && pushed != [] && Distinct(pushed)
    && (forall p :: p in pushed <==> p in Children(t, work[|work| - 1].path))
    && (forall p :: p in pushed ==> t[p] == Directory)
    && |stack| == |work| + |pushed|
    && (forall i :: 0 <= i < |work| - 1 ==> stack[i] == work[i])
    && stack[|work| - 1] == Entry(work[|work| - 1].path, true)
    && (forall i :: |work| <= i < |stack| ==> stack[i] == Entry(pushed[i - |work|], false))
  }

  lemma PushedParents(t: Tree, root: Path, work: seq<Entry>, pushed: seq<Path>, stack: seq<Entry>, i: nat)
    requires StackOk(t, root, work) && IsPushed(t, work, pushed, stack) && 0 < i < |stack|
    ensures HasParentBelow(stack, i)
  {
    var n := |work|;
    if i < n {
      assert HasParentBelow(work, i);
      var j :| 0 <= j < i && work[j].processed && IsChild(work[j].path, work[i].path);
      assert stack[j].processed && IsChild(stack[j].path, stack[i].path);
    } else {
      assert stack[i].path == pushed[i - n] && pushed[i - n] in pushed;
      assert stack[n - 1].processed && IsChild(stack[n - 1].path, stack[i].path);
    }
  }

  lemma PushedAbove(t: Tree, root: Path, work: seq<Entry>, pushed: seq<Path>, stack: seq<Entry>, i: nat, c: Path)
    requires StackOk(t, root, work) && IsPushed(t, work, pushed, stack)
    requires i < |stack| && stack[i].processed && IsDirectory(t, c) && IsChild(stack[i].path, c)
    ensures IsAbove(stack, i, c)
  {
    var n := |work|;
    if i < n - 1 {
      assert IsAbove(work, i, c);
      var j :| i < j < n && work[j].path == c;
      assert stack[j].path == c;
    } else {
      assert c in Children(t, work[n - 1].path);
      assert c in pushed;
      var j :| 0 <= j < |pushed| && pushed[j] == c;
      assert stack[n + j].path == c;
    }
  }

  lemma PushedOnce(t: Tree, root: Path, work: seq<Entry>, pushed: seq<Path>, stack: seq<Entry>, i: nat, j: nat)
    requires StackOk(t, root, work) && IsPushed(t, work, pushed, stack) && i < j < |stack|
    requires !work[|work| - 1].processed
    ensures stack[i].path != stack[j].path
  {
    var n := |work|;
    if j >= n {
      assert stack[j].path == pushed[j - n] && pushed[j - n] in pushed;
      ChildNotYetThere(t, root, work, stack[j].path);
      if i >= n { assert stack[i].path == pushed[i - n]; }
    }
  }

  /** A visit that pushes something: the top was not processed before, and the stack stays in order. */
  lemma PushKeepsStack(t: Tree, root: Path, work: seq<Entry>, pushed: seq<Path>, stack: seq<Entry>)
    requires StackOk(t, root, work) && work != [] && pushed != [] && Distinct(pushed)
    requires var d := work[|work| - 1].path;
      && (forall p :: p in pushed <==> p in Children(t, d)) && (forall p :: p in pushed ==> t[p] == Directory)
      && stack == work[..|work| - 1] + [Entry(d, true)] + Unprocessed(pushed)
    ensures StackOk(t, root, stack)
    ensures ToProcess(t, root, stack) < ToProcess(t, root, work)
  {
    hide ToProcess, HasParentBelow, IsAbove;
    assert IsPushed(t, work, pushed, stack);
    assert pushed[0] in pushed;
    TopUnprocessed(t, root, work, pushed[0]);
    forall i | 0 < i < |stack| ensures HasParentBelow(stack, i) { PushedParents(t, root, work, pushed, stack, i); }
    forall i, c | 0 <= i < |stack| && stack[i].processed && IsDirectory(t, c) && IsChild(stack[i].path, c)
      ensures IsAbove(stack, i, c)
    {
      PushedAbove(t, root, work, pushed, stack, i, c);
    }
    forall i, j | 0 <= i < j < |stack| ensures stack[i].path != stack[j].path {
      PushedOnce(t, root, work, pushed, stack, i, j);
    }
    PushedUnder(t, root, work, pushed, stack);
    PushProcesses(t, root, work, pushed, stack);
  }

  lemma PushedUnder(t: Tree, root: Path, work: seq<Entry>, pushed: seq<Path>, stack: seq<Entry>)
    requires StackOk(t, root, work) && IsPushed(t, work, pushed, stack)
    ensures stack[0].path == root
    ensures forall i :: 0 <= i < |stack| ==> IsDirectory(t, stack[i].path) && root <= stack[i].path
  {
    var n := |work|;
    forall i | 0 <= i < |stack| ensures IsDirectory(t, stack[i].path) && root <= stack[i].path {
      if i >= n {
        assert stack[i].path == pushed[i - n] && pushed[i - n] in pushed;
        assert root <= work[n - 1].path <= stack[i].path;
      }
    }
  }

  lemma PushProcesses(t: Tree, root: Path, work: seq<Entry>, pushed: seq<Path>, stack: seq<Entry>)
    requires StackOk(t, root, work) && work != [] && !work[|work| - 1].processed
    requires stack == work[..|work| - 1] + [Entry(work[|work| - 1].path, true)] + Unprocessed(pushed)
    ensures ToProcess(t, root, stack) < ToProcess(t, root, work)
  {
    var n := |work|;
    var d := work[n - 1].path;
    forall e | e in work && e.processed ensures e in stack {
      var i :| 0 <= i < n && work[i] == e;
      assert stack[i] == e;
    }
    NotProcessedTwice(t, root, work);
    assert d in ToProcess(t, root, work);
    assert Entry(d, true) == stack[n - 1];
  }

  lemma TopUnprocessed(t: Tree, root: Path, work: seq<Entry>, c: Path)
    requires StackOk(t, root, work) && work != [] && IsDirectory(t, c) && IsChild(work[|work| - 1].path, c)
    ensures !work[|work| - 1].processed
  {
    assert work[|work| - 1].processed ==> IsAbove(work, |work| - 1, c);
  }

  lemma NotProcessedTwice(t: Tree, root: Path, work: seq<Entry>)
    requires StackOk(t, root, work) && work != [] && !work[|work| - 1].processed
    ensures Entry(work[|work| - 1].path, true) !in work
  {
  }

  lemma ChildNotYetThere(t: Tree, root: Path, work: seq<Entry>, c: Path)
    requires StackOk(t, root, work) && work != [] && !work[|work| - 1].processed && IsChild(work[|work| - 1].path, c)
    ensures forall j :: 0 <= j < |work| ==> work[j].path != c
  {
    forall j | 0 <= j < |work| ensures work[j].path != c {
      if j > 0 {
        assert HasParentBelow(work, j);
        var k :| 0 <= k < j && work[k].processed && IsChild(work[k].path, work[j].path);
        assert work[k].path == work[j].path[..|work[j].path| - 1];
        assert work[|work| - 1].path == c[..|c| - 1];
      }
    }
  }

  lemma EmptyDirectoryGoes(t: Tree, d: Path)
    requires IsTree(t) && Children(t, d) == {}
    ensures IsTree(t - {d})
  {
    var t' := t - {d};
    forall p | p in t' && p != [] ensures IsDirectory(t', p[..|p| - 1]) {
      assert p !in Children(t, d);
      assert p[..|p| - 1] == d ==> IsChild(d, p);
    }
  }

  /** The top directory, empty, goes from the tree and from the stack. */
  lemma PopKeepsStack(t: Tree, root: Path, work: seq<Entry>, d: Path, t': Tree, stack: seq<Entry>)
    requires StackOk(t, root, work) && work != [] && d == work[|work| - 1].path
    requires t' == t - {d} && stack == work[..|work| - 1]
    ensures StackOk(t', root, stack)
    ensures DirectoriesUnder(t', root) < DirectoriesUnder(t, root)
  {
    var n := |work|;
    forall i | 0 < i < |stack| ensures HasParentBelow(stack, i) {
      assert HasParentBelow(work, i);
      var j :| 0 <= j < i && work[j].processed && IsChild(work[j].path, work[i].path);
      assert stack[j].processed && IsChild(stack[j].path, stack[i].path);
    }
    forall i, c | 0 <= i < |stack| && stack[i].processed && IsDirectory(t', c) && IsChild(stack[i].path, c)
      ensures IsAbove(stack, i, c)
    {
      assert IsDirectory(t, c) && IsAbove(work, i, c);
      var j :| i < j < n && work[j].path == c;
      assert stack[j].path == c;
    }
    assert d in DirectoriesUnder(t, root) && d !in DirectoriesUnder(t', root);
  }

  // ---------- the whole removal ----------

  lemma {:induction false} AncestorsExist(t: Tree, p: Path, a: Path)
    requires IsTree(t) && p in t && a <= p
    ensures a in t
    decreases |p|
  {
    if a != p {
      assert a == p[..|a|] == p[..|p| - 1][..|a|];
      AncestorsExist(t, p[..|p| - 1], a);
    }
  }

  /**
   * What has gone since `was`: only things at or below `root` that can go; `log` lists the
   * directories, children first.
   */
  ghost predicate Progress(was: Tree, t: Tree, root: Path, faulty: set<Op>, log: seq<Path>) {
    && (forall p :: p in t ==> p in was && t[p] == was[p])
    && (forall p :: p in was && p !in t ==> root <= p && !Blocked(was, faulty, p) && (was[p] == Directory ==> p in log))
    && (forall p :: p in log ==> IsDirectory(was, p) && p !in t)
    && (forall i, j :: 0 <= i < j < |log| ==> !(log[i] <= log[j]))
  }

  lemma FilesProgress(was: Tree, mid: Tree, t: Tree, root: Path, d: Path, faulty: set<Op>, log: seq<Path>)
    requires Progress(was, mid, root, faulty, log) && OnlyFilesWent(mid, t, d, faulty) && root <= d
    ensures Progress(was, t, root, faulty, log)
  {
    forall p | p in was && p !in t ensures root <= p && !Blocked(was, faulty, p) && (was[p] == Directory ==> p in log) {
      if p in mid { assert IsChild(d, p) && root <= d <= p; }
    }
  }

  /** While `d` is there, what it lies in is there too, and so is not logged yet. */
  lemma NothingAboveIsLogged(was: Tree, t: Tree, root: Path, d: Path, faulty: set<Op>, log: seq<Path>)
    requires IsTree(t) && Progress(was, t, root, faulty, log) && d in t
    ensures forall p :: p in log ==> !(p <= d)
  {
    hide IsTree;
    forall p | p in log ensures !(p <= d) {
      if p <= d { AncestorsExist(t, d, p); }
    }
  }

  lemma DirectoryProgress(was: Tree, t: Tree, root: Path, d: Path, faulty: set<Op>, log: seq<Path>)
    requires IsTree(t) && Progress(was, t, root, faulty, log) && IsDirectory(t, d) && root <= d
    requires Open(d) !in faulty && Removing(d) !in faulty
    ensures Progress(was, t - {d}, root, faulty, log + [d])
  {
    hide IsTree;
    NothingAboveIsLogged(was, t, root, d, faulty, log);
    var log', t' := log + [d], t - {d};
    forall i, j | 0 <= i < j < |log'| ensures !(log'[i] <= log'[j]) {
      assert log'[i] == log[i] && log[i] in log;
      if j < |log| { assert log'[j] == log[j]; } else { assert log'[j] == d; }
    }
    forall p | p in log' ensures IsDirectory(was, p) && p !in t' {
      assert p in log || p == d;
    }
  }

  lemma NothingBelowStays(t: Tree, root: Path)
    requires IsTree(t) && root !in t
    ensures forall p :: p in t ==> !(root <= p)
  {
    hide IsTree;
    forall p | p in t ensures !(root <= p) {
      if root <= p { AncestorsExist(t, p, root); }
    }
  }

  lemma AllGone(was: Tree, t: Tree, root: Path, faulty: set<Op>, log: seq<Path>)
    requires IsTree(t) && Progress(was, t, root, faulty, log) && root !in t
    ensures forall p :: p in was ==> (p in t <==> !(root <= p))
    ensures forall p :: p in log <==> p in DirectoriesUnder(was, root)
    ensures forall p :: p in was && root <= p ==> !Blocked(was, faulty, p)
  {
    hide IsTree, Blocked;
    NothingBelowStays(t, root);
  }

  /** What holds at the start of every pass; a root that is no directory does not survive the first. */
  ghost predicate PassInv(was: Tree, t: Tree, root: Path, faulty: set<Op>, work: seq<Entry>, log: seq<Path>) {
    && IsTree(t) && Progress(was, t, root, faulty, log)
    && (if IsDirectory(was, root) then StackOk(t, root, work) && (work == [] ==> root !in t)
        else work == [Entry(root, false)] && t == was)
  }

  lemma FirstPass(was: Tree, root: Path, faulty: set<Op>)
    requires IsTree(was)
    ensures PassInv(was, was, root, faulty, [Entry(root, false)], [])
  {
  }

  lemma AfterVisit(was: Tree, mid: Tree, t: Tree, root: Path, d: Path, faulty: set<Op>, work: seq<Entry>,
                   log: seq<Path>)
    requires PassInv(was, mid, root, faulty, work, log) && work != [] && d == work[|work| - 1].path
    requires OnlyFilesWent(mid, t, d, faulty)
    ensures root <= d && Progress(was, t, root, faulty, log)
    ensures IsDirectory(t, d) ==> IsDirectory(was, root) && StackOk(t, root, work)
    ensures IsDirectory(t, d) ==> DirectoriesUnder(t, root) == DirectoriesUnder(mid, root)
    ensures IsDirectory(t, d) ==> ToProcess(t, root, work) == ToProcess(mid, root, work)
  {
    FilesProgress(was, mid, t, root, d, faulty, log);
    if IsDirectory(was, root) { FilesDoNotMatter(mid, t, d, faulty, root, work); }
  }

  lemma FailedVisit(was: Tree, mid: Tree, root: Path, d: Path, faulty: set<Op>, work: seq<Entry>, log: seq<Path>,
                    at: Path)
    requires PassInv(was, mid, root, faulty, work, log) && work != [] && d == work[|work| - 1].path && d <= at
    requires Blocked(mid, faulty, at) || (at == d && !IsDirectory(mid, d))
    ensures root <= at && (Blocked(was, faulty, at) || (at == root && !IsDirectory(was, root)))
  {
  }

  lemma AfterPop(was: Tree, t: Tree, root: Path, d: Path, faulty: set<Op>, work: seq<Entry>, log: seq<Path>)
    requires IsTree(t) && Progress(was, t, root, faulty, log) && StackOk(t, root, work) && IsDirectory(was, root)
    requires work != [] && d == work[|work| - 1].path && Children(t, d) == {} && Open(d) !in faulty
    requires Removing(d) !in faulty
    ensures PassInv(was, t - {d}, root, faulty, work[..|work| - 1], log + [d])
    ensures DirectoriesUnder(t - {d}, root) < DirectoriesUnder(t, root)
  {
    DirectoryProgress(was, t, root, d, faulty, log);
    EmptyDirectoryGoes(t, d);
    PopKeepsStack(t, root, work, d, t - {d}, work[..|work| - 1]);
  }

  /** One pass: a visit, and the removal of the visited directory if the visit pushed nothing. */
  method Pass(fs: FileSystem, root: Path, work: seq<Entry>, done: seq<Path>, ghost was: Tree)
    returns (stack: seq<Entry>, log: seq<Path>, r: Outcome)
    requires PassInv(was, fs.tree, root, fs.faulty, work, done) && work != []
    modifies fs
    ensures IsTree(fs.tree) && Progress(was, fs.tree, root, fs.faulty, log)
    ensures r.Success? ==> PassInv(was, fs.tree, root, fs.faulty, stack, log)
    ensures r.Success? ==> (
      || DirectoriesUnder(fs.tree, root) < DirectoriesUnder(old(fs.tree), root)
      || (DirectoriesUnder(fs.tree, root) == DirectoriesUnder(old(fs.tree), root)
          && ToProcess(fs.tree, root, stack) < ToProcess(old(fs.tree), root, work)))
    ensures r.Failure? ==>
      root <= r.at && (Blocked(was, fs.faulty, r.at) || (r.at == root && !IsDirectory(was, root)))
  {
    hide OnlyFilesWent, StackOk, Progress, Distinct, ToProcess, DirectoriesUnder, IsTree;
    log := done;
    ghost var mid, d := fs.tree, work[|work| - 1].path;
    ghost var pushed;
    stack, r, pushed := RemoveDirEntry(fs, work);
    AfterVisit(was, mid, fs.tree, root, d, fs.faulty, work, log);
    if r.Failure? {
      FailedVisit(was, mid, root, d, fs.faulty, work, log, r.at);
      return;
    }
    var last := stack[|stack| - 1];
    if last.processed {
      assert pushed == [];
      assert stack == work[..|work| - 1] + [last] && last.path == d;
      assert Children(fs.tree, d) == {};
      if Removing(d) !in fs.faulty { AfterPop(was, fs.tree, root, d, fs.faulty, work, log); }
      var ok := fs.RmDir(last.path);
      if !ok {
        TreeHad(was, fs.tree, root, fs.faulty, log, d);
        return stack, log, Failure(last.path);
      }
      log := log + [last.path];
      stack := stack[..|stack| - 1];
      assert stack == work[..|work| - 1];
    } else {
      PushKeepsStack(fs.tree, root, work, pushed, stack);
    }
  }

  lemma TreeHad(was: Tree, t: Tree, root: Path, faulty: set<Op>, log: seq<Path>, p: Path)
    requires Progress(was, t, root, faulty, log) && p in t
    ensures p in was && was[p] == t[p]
  {
  }

  /**
   * Removes `root` and everything in it. It succeeds exactly if `root` is a directory and nothing
   * in it is blocked; then all of it is gone, and `log` lists each of its directories once, none
   * before one inside it. Otherwise it says what could not be removed. Whatever happens, nothing
   * outside `root` is touched.
   */
  method RemoveDirectory(fs: FileSystem, root: Path) returns (r: Outcome, log: seq<Path>)
    requires IsTree(fs.tree)
    modifies fs
    ensures IsTree(fs.tree) && Progress(old(fs.tree), fs.tree, root, fs.faulty, log)
    ensures r.Success? <==> IsDirectory(old(fs.tree), root) && NothingBlocked(old(fs.tree), fs.faulty, root)
    ensures r.Success? ==> forall p :: p in old(fs.tree) ==> (p in fs.tree <==> !(root <= p))
    ensures r.Success? ==> forall p :: p in log <==> p in DirectoriesUnder(old(fs.tree), root)
    ensures r.Failure? ==>
      root <= r.at && (Blocked(old(fs.tree), fs.faulty, r.at) || (r.at == root && !IsDirectory(old(fs.tree), root)))
  {
    hide StackOk, Progress, ToProcess, DirectoriesUnder, IsTree, Blocked;
    ghost var was := fs.tree;
    var work := [Entry(root, false)];
    log := [];
    FirstPass(was, root, fs.faulty);
    while work != []
      invariant PassInv(was, fs.tree, root, fs.faulty, work, log)
      decreases DirectoriesUnder(fs.tree, root), ToProcess(fs.tree, root, work)
    {
      work, log, r := Pass(fs, root, work, log, was);
      if r.Failure? {
        BlockedExists(was, fs.faulty, r.at);
        return;
      }
    }
    AllGone(was, fs.tree, root, fs.faulty, log);
    r := Success;
  }

  lemma BlockedExists(t: Tree, faulty: set<Op>, p: Path)
    ensures Blocked(t, faulty, p) ==> p in t
  {
  }
}
