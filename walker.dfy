/**
 * The breadth-first walkers behind `find`: `find_file_by_name` and
 * `find_directory_by_name`. `Walk` is the walk as a function of the frontier;
 * the two methods are the loops of the source, proved to compute `Search`.
 */
module Walker {
  import opened Wrappers
  import opened FileTree

  /** `-type f` (or anything else) versus `-type d`. */
  datatype Mode = FileMode | DirectoryMode

  datatype FindError =
    | ReadDirFailed(dir: Path)         // `dir.read_dir()?`
    | EntryFailed(dir: Path)           // `entry?` while listing `dir`
    | NotFound(mode: Mode, query: string)

  /** The name test: an empty query matches every name, otherwise only an equal one. */
  predicate NameMatches(query: string, name: string) {
    query == [] || query == name
  }

  /** Whether an entry goes into the result: file mode tests every entry, directory mode only directories. */
  predicate Eligible(mode: Mode, query: string, c: Located) {
    match c.node
    case File(name) => mode == FileMode && NameMatches(query, name)
    case Dir(name, _, _) => NameMatches(query, name)
    case Unreadable => false
  }

  /** The entries of `s` that pass the test, in order. */
  function Selected(mode: Mode, query: string, s: seq<Located>): (r: seq<Located>)
    ensures forall i | 0 <= i < |r| :: Eligible(mode, query, r[i])
    ensures forall x :: x in r <==> x in s && Eligible(mode, query, x)
  {
    if s == [] then []
    else (if Eligible(mode, query, s[0]) then [s[0]] else []) + Selected(mode, query, s[1..])
  }

  lemma {:induction false} SelectedAppend(mode: Mode, query: string, a: seq<Located>, b: seq<Located>)
    ensures Selected(mode, query, a + b) == Selected(mode, query, a) + Selected(mode, query, b)
  {
    if a == [] {
      assert a + b == b;
    } else {
      assert (a + b)[1..] == a[1..] + b;
      SelectedAppend(mode, query, a[1..], b);
    }
  }

  lemma SelectedOne(mode: Mode, query: string, c: Located)
    ensures Selected(mode, query, [c]) == if Eligible(mode, query, c) then [c] else []
  {
    assert [c][1..] == [];
  }

  /**
   * Taking entry `k` of a listing extends the pushed directories and the
   * collected entries by that entry alone, as the loop body does.
   */
  lemma EntryStep(mode: Mode, query: string, dir: Path, es: seq<Node>, k: nat, rest: seq<Located>, found0: seq<Located>)
    requires k < |es| && NoUnreadable(es[..k]) && !es[k].Unreadable?
    ensures NoUnreadable(es[..k + 1])
    ensures var c := Located(dir + [es[k].name], es[k]);
      && rest + DirsOnly(Children(dir, es[..k + 1]))
         == rest + DirsOnly(Children(dir, es[..k])) + (if c.node.Dir? then [c] else [])
      && found0 + Selected(mode, query, Children(dir, es[..k + 1]))
         == found0 + Selected(mode, query, Children(dir, es[..k])) + (if Eligible(mode, query, c) then [c] else [])
  {
    var c := Located(dir + [es[k].name], es[k]);
    ChildrenSnoc(dir, es, k);
    DirsOnlyAppend(Children(dir, es[..k]), [c]);
    SelectedAppend(mode, query, Children(dir, es[..k]), [c]);
    SelectedOne(mode, query, c);
    DirsOnlyOne(c);
  }

  /** What `dir.read_dir()` yields, read to the end: the entries, or the first failure. */
  function Listing(dir: Located): (r: Result<seq<Located>, FindError>)
    ensures r.Ok? <==> dir.node.Dir? && dir.node.readable && NoUnreadable(dir.node.entries)
    ensures r.Ok? ==> r.value == Children(dir.path, dir.node.entries)
  {
    match dir.node
    case Dir(_, true, es) =>
      if NoUnreadable(es) then Ok(Children(dir.path, es)) else Err(EntryFailed(dir.path))
    case _ => Err(ReadDirFailed(dir.path))
  }

  /** Expanding the head of the frontier leaves a frontier of smaller total size. */
  lemma QueueShrinks(q: seq<Located>, cs: seq<Located>)
    requires q != [] && Listing(q[0]) == Ok(cs)
    ensures SizeAll(q[1..] + DirsOnly(cs)) < SizeAll(q)
  {
    SizeOfChildren(q[0].path, q[0].node.entries);
    DirsOnlySize(cs);
    SizeAllAppend(q[1..], DirsOnly(cs));
  }

  /** Prefixes a success with already collected results; an error stays as it is. */
  function Prepend(found: seq<Located>, w: Result<seq<Located>, FindError>): Result<seq<Located>, FindError> {
    match w
    case Ok(rest) => Ok(found + rest)
    case Err(e) => Err(e)
  }

  lemma PrependNothing(w: Result<seq<Located>, FindError>)
    ensures Prepend([], w) == w
  {
    if w.Ok? {
      assert [] + w.value == w.value;
    }
  }

  /**
   * The walk from frontier `q`: pop the front directory, list it, collect its
   * eligible entries, push its directory entries at the back; the first failing
   * listing aborts the whole walk.
   */
  function Walk(mode: Mode, query: string, q: seq<Located>): (r: Result<seq<Located>, FindError>)
    ensures r.Ok? ==> forall i | 0 <= i < |r.value| :: Eligible(mode, query, r.value[i])
    decreases SizeAll(q)
  {
    if q == [] then Ok([])
    else
      match Listing(q[0])
      case Err(e) => Err(e)
      case Ok(cs) =>
        QueueShrinks(q, cs);
        Prepend(Selected(mode, query, cs), Walk(mode, query, q[1..] + DirsOnly(cs)))
  }

  /** The directories the walk dequeues, in order (the last one is the failing one, if any). */
  function Visited(q: seq<Located>): seq<Located>
    decreases SizeAll(q)
  {
    if q == [] then []
    else
      match Listing(q[0])
      case Err(_) => [q[0]]
      case Ok(cs) =>
        QueueShrinks(q, cs);
        [q[0]] + Visited(q[1..] + DirsOnly(cs))
  }

  /** One step of the walk and of its dequeue order when the front listing fails. */
  lemma StepFails(mode: Mode, query: string, q: seq<Located>)
    requires q != [] && Listing(q[0]).Err?
    ensures Walk(mode, query, q) == Err(Listing(q[0]).error)
    ensures Visited(q) == [q[0]]
  {
  }

  /** One step of the walk and of its dequeue order when the front listing succeeds. */
  lemma StepSucceeds(mode: Mode, query: string, q: seq<Located>, cs: seq<Located>)
    requires q != [] && Listing(q[0]) == Ok(cs)
    ensures Walk(mode, query, q) == Prepend(Selected(mode, query, cs), Walk(mode, query, q[1..] + DirsOnly(cs)))
    ensures Visited(q) == [q[0]] + Visited(q[1..] + DirsOnly(cs))
  {
  }

  lemma PrependTwice(a: seq<Located>, b: seq<Located>, w: Result<seq<Located>, FindError>)
    ensures Prepend(a, Prepend(b, w)) == Prepend(a + b, w)
  {
    if w.Ok? {
      assert a + (b + w.value) == (a + b) + w.value;
    }
  }

  /**
   * After the whole listing of the front directory has been taken, the loop's
   * view of the walk (collected so far, then the walk of the new frontier) is
   * the one it had before, and the frontier has become smaller.
   */
  lemma DirectoryDone(mode: Mode, query: string, before: seq<Located>, found0: seq<Located>, dequeued0: seq<Located>)
    requires before != [] && Listing(before[0]).Ok?
    ensures var cs := Listing(before[0]).value;
      var after := before[1..] + DirsOnly(cs);
      && SizeAll(after) < SizeAll(before)
      && Prepend(found0, Walk(mode, query, before))
         == Prepend(found0 + Selected(mode, query, cs), Walk(mode, query, after))
      && dequeued0 + Visited(before) == (dequeued0 + [before[0]]) + Visited(after)
  {
    var cs := Listing(before[0]).value;
    QueueShrinks(before, cs);
    StepSucceeds(mode, query, before, cs);
    PrependTwice(found0, Selected(mode, query, cs), Walk(mode, query, before[1..] + DirsOnly(cs)));
  }

  /** The reported paths of collected entries. */
  function PathsOf(s: seq<Located>): seq<Path>
  {
    seq(|s|, i requires 0 <= i < |s| => s[i].path)
  }

  lemma PathsOfSnoc(s: seq<Located>, x: Located)
    ensures PathsOf(s + [x]) == PathsOf(s) + [x.path]
  {
  }

  /** The frontier a search starts from: the start path itself. */
  function Start(start: string, root: Node): seq<Located> {
    [Located([start], root)]
  }

  /** The outcome of a search: an I/O error, `NotFound` for an empty result, or the paths. */
  function Search(mode: Mode, query: string, start: string, root: Node): Result<seq<Path>, FindError> {
    match Walk(mode, query, Start(start, root))
    case Err(e) => Err(e)
    case Ok(found) => if found == [] then Err(NotFound(mode, query)) else Ok(PathsOf(found))
  }

  /** `find_file_by_name`: every entry of every listed directory is name-tested. */
  method FindFileByName(query: string, start: string, root: Node)
    returns (r: Result<seq<Path>, FindError>, ghost dequeued: seq<Located>)
    ensures r == Search(FileMode, query, start, root)
    ensures dequeued == Visited(Start(start, root))
  {
    var dirs := Start(start, root);
    var result: seq<Path> := [];
    ghost var found: seq<Located> := [];
    dequeued := [];
    PrependNothing(Walk(FileMode, query, dirs));
    while dirs != []
      invariant result == PathsOf(found)
      invariant Walk(FileMode, query, Start(start, root)) == Prepend(found, Walk(FileMode, query, dirs))
      invariant Visited(Start(start, root)) == dequeued + Visited(dirs)
      decreases SizeAll(dirs)
    {
      ghost var before, dequeued0 := dirs, dequeued;
      var dir := dirs[0];
      dirs := dirs[1..];
      dequeued := dequeued + [dir];
      if !(dir.node.Dir? && dir.node.readable) {
        StepFails(FileMode, query, before);
        r := Err(ReadDirFailed(dir.path));
        return;
      }
      var es := dir.node.entries;
      ghost var found0 := found;
      assert Children(dir.path, es[..0]) == [];
      assert dirs + [] == dirs && found + [] == found;
      for k := 0 to |es|
        invariant NoUnreadable(es[..k])
        invariant dirs == before[1..] + DirsOnly(Children(dir.path, es[..k]))
        invariant found == found0 + Selected(FileMode, query, Children(dir.path, es[..k]))
        invariant result == PathsOf(found)
      {
        var entry := es[k];
        if entry.Unreadable? {
          StepFails(FileMode, query, before);
          r := Err(EntryFailed(dir.path));
          return;
        }
        var path := dir.path + [entry.name];
        EntryStep(FileMode, query, dir.path, es, k, before[1..], found0);
        if entry.Dir? {
          dirs := dirs + [Located(path, entry)];
        }
        if NameMatches(query, entry.name) {
          PathsOfSnoc(found, Located(path, entry));
          result := result + [path];
          found := found + [Located(path, entry)];
        }
      }
      assert es[..|es|] == es;
      DirectoryDone(FileMode, query, before, found0, dequeued0);
    }
    assert found + [] == found;
    if result == [] {
      r := Err(NotFound(FileMode, query));
    } else {
      r := Ok(result);
    }
  }

  /** `find_directory_by_name`: only directory entries are name-tested; every one is still pushed. */
  method FindDirectoryByName(query: string, start: string, root: Node)
    returns (r: Result<seq<Path>, FindError>, ghost dequeued: seq<Located>)
    ensures r == Search(DirectoryMode, query, start, root)
    ensures dequeued == Visited(Start(start, root))
  {
    var dirs := Start(start, root);
    var result: seq<Path> := [];
    ghost var found: seq<Located> := [];
    dequeued := [];
    PrependNothing(Walk(DirectoryMode, query, dirs));
    while dirs != []
      invariant result == PathsOf(found)
      invariant Walk(DirectoryMode, query, Start(start, root)) == Prepend(found, Walk(DirectoryMode, query, dirs))
      invariant Visited(Start(start, root)) == dequeued + Visited(dirs)
      decreases SizeAll(dirs)
    {
      ghost var before, dequeued0 := dirs, dequeued;
      var dir := dirs[0];
      dirs := dirs[1..];
      dequeued := dequeued + [dir];
      if !(dir.node.Dir? && dir.node.readable) {
        StepFails(DirectoryMode, query, before);
        r := Err(ReadDirFailed(dir.path));
        return;
      }
      var es := dir.node.entries;
      ghost var found0 := found;
      assert Children(dir.path, es[..0]) == [];
      assert dirs + [] == dirs && found + [] == found;
      for k := 0 to |es|
        invariant NoUnreadable(es[..k])
        invariant dirs == before[1..] + DirsOnly(Children(dir.path, es[..k]))
        invariant found == found0 + Selected(DirectoryMode, query, Children(dir.path, es[..k]))
        invariant result == PathsOf(found)
      {
        var entry := es[k];
        if entry.Unreadable? {
          StepFails(DirectoryMode, query, before);
          r := Err(EntryFailed(dir.path));
          return;
        }
        var path := dir.path + [entry.name];
        EntryStep(DirectoryMode, query, dir.path, es, k, before[1..], found0);
        if entry.Dir? {
          if NameMatches(query, entry.name) {
            PathsOfSnoc(found, Located(path, entry));
            result := result + [path];
            found := found + [Located(path, entry)];
          }
          dirs := dirs + [Located(path, entry)];
        }
      }
      assert es[..|es|] == es;
      DirectoryDone(DirectoryMode, query, before, found0, dequeued0);
    }
    assert found + [] == found;
    if result == [] {
      r := Err(NotFound(DirectoryMode, query));
    } else {
      r := Ok(result);
    }
  }
}
