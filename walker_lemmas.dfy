/**
 * What the breadth-first walk computes, stated against independent references:
 * `Healthy` for when it fails, the depth-first enumeration `Entries` for what it
 * finds, path depths for the order, and the two modes against each other.
 */
module WalkerProperties {
  import opened Wrappers
  import opened FileTree
  import opened Walker

  // ------------------------------------------------------------ helpers

  predicate AllExpandable(q: seq<Located>) {
    forall i | 0 <= i < |q| :: Expandable(q[i])
  }

  predicate NoUnreadableNode(s: seq<Located>) {
    forall i | 0 <= i < |s| :: !s[i].node.Unreadable?
  }

  /** The name test keeps each eligible entry as often as it occurs, and drops every other one. */
  lemma {:induction false} SelectedCount(mode: Mode, query: string, s: seq<Located>, x: Located)
    ensures multiset(Selected(mode, query, s))[x] == if Eligible(mode, query, x) then multiset(s)[x] else 0
  {
    if s != [] {
      SelectedCount(mode, query, s[1..], x);
      assert s == [s[0]] + s[1..];
      var head := if Eligible(mode, query, s[0]) then [s[0]] else [];
      assert multiset(Selected(mode, query, s)) == multiset(head) + multiset(Selected(mode, query, s[1..]));
    }
  }

  lemma {:induction false} DirsOnlyMembers(s: seq<Located>)
    ensures forall x | x in DirsOnly(s) :: x in s && x.node.Dir?
  {
    if s != [] {
      DirsOnlyMembers(s[1..]);
    }
  }

  lemma ChildrenShape(dir: Path, es: seq<Node>)
    requires NoUnreadable(es)
    ensures forall x | x in Children(dir, es) ::
      && |x.path| == |dir| + 1 && !x.node.Unreadable?
      && x.path[|x.path| - 1] == x.node.name
  {
  }

  /** With no unreadable node among them, exactly the directories of a frontier must be expandable for all of it to be. */
  lemma {:induction false} DirsOnlyExpandable(s: seq<Located>)
    requires NoUnreadableNode(s)
    ensures AllExpandable(DirsOnly(s)) <==> forall i | 0 <= i < |s| :: Healthy(s[i].node)
  {
    if s != [] {
      DirsOnlyExpandable(s[1..]);
      var head := if s[0].node.Dir? then [s[0]] else [];
      assert DirsOnly(s) == head + DirsOnly(s[1..]);
      if AllExpandable(DirsOnly(s)) {
        assert AllExpandable(DirsOnly(s[1..])) by {
          forall i | 0 <= i < |DirsOnly(s[1..])| ensures Expandable(DirsOnly(s[1..])[i]) {
            assert DirsOnly(s[1..])[i] == DirsOnly(s)[i + |head|];
          }
        }
        forall i | 0 <= i < |s| ensures Healthy(s[i].node) {
          if i == 0 {
            if s[0].node.Dir? {
              assert DirsOnly(s)[0] == s[0];
            }
          } else {
            assert s[i] == s[1..][i - 1];
          }
        }
      }
    }
  }

  lemma AllExpandableAppend(a: seq<Located>, b: seq<Located>)
    ensures AllExpandable(a + b) <==> AllExpandable(a) && AllExpandable(b)
  {
    if AllExpandable(a) && AllExpandable(b) {
      forall i | 0 <= i < |a + b| ensures Expandable((a + b)[i]) {
        if i >= |a| {
          assert (a + b)[i] == b[i - |a|];
        }
      }
    }
    if AllExpandable(a + b) {
      forall i | 0 <= i < |a| ensures Expandable(a[i]) {
        assert (a + b)[i] == a[i];
      }
      forall i | 0 <= i < |b| ensures Expandable(b[i]) {
        assert (a + b)[i + |a|] == b[i];
      }
    }
  }

  // ----------------------------------------------------------- outcome

  /**
   * The walk succeeds exactly when every directory on the frontier can be read
   * and so can everything below it; otherwise it fails with an I/O error and
   * never with `NotFound`.
   */
  lemma {:induction false} WalkSucceedsIff(mode: Mode, query: string, q: seq<Located>)
    ensures Walk(mode, query, q).Ok? <==> AllExpandable(q)
    ensures Walk(mode, query, q).Err? ==> !Walk(mode, query, q).error.NotFound?
    decreases SizeAll(q)
  {
    if q != [] {
      match Listing(q[0])
      case Err(e) =>
        StepFails(mode, query, q);
        var n := q[0].node;
        if n.Dir? && n.readable {
          var i :| 0 <= i < |n.entries| && n.entries[i].Unreadable?;
          assert !Healthy(n.entries[i]);
        }
        assert !Expandable(q[0]);
      case Ok(cs) =>
        var next := q[1..] + DirsOnly(cs);
        var w, wn := Walk(mode, query, q), Walk(mode, query, next);
        assert (w.Ok? <==> wn.Ok?) && (w.Err? ==> w.error == wn.error) by {
          StepSucceeds(mode, query, q, cs);
        }
        QueueShrinks(q, cs);
        WalkSucceedsIff(mode, query, next);
        assert AllExpandable(q) <==> AllExpandable(next) by {
          AllExpandableAppend(q[1..], DirsOnly(cs));
          AllExpandableAppend([q[0]], q[1..]);
          assert [q[0]] + q[1..] == q;
          ChildrenShape(q[0].path, q[0].node.entries);
          DirsOnlyExpandable(cs);
          var es := q[0].node.entries;
          assert forall i | 0 <= i < |cs| :: cs[i].node == es[i];
        }
    }
  }

  // ----------------------------------------------------------- coverage

  lemma {:induction false} ListingCovers(mode: Mode, query: string, dir: Path, es: seq<Node>)
    requires NoUnreadable(es)
    ensures multiset(Selected(mode, query, EntriesOf(dir, es)))
         == multiset(Selected(mode, query, Children(dir, es)))
          + multiset(Selected(mode, query, EntriesAll(Children(dir, es))))
    decreases |es|
  {
    if es != [] {
      var c := Located(dir + [es[0].name], es[0]);
      var cs := Children(dir, es);
      ChildrenTail(dir, es);
      assert cs[1..] == Children(dir, es[1..]);
      assert NoUnreadable(es[1..]) by {
        assert forall i | 0 <= i < |es[1..]| :: es[1..][i] == es[i + 1];
      }
      ListingCovers(mode, query, dir, es[1..]);
      assert EntriesOf(dir, es) == [c] + Entries(c) + EntriesOf(dir, es[1..]);
      assert EntriesAll(cs) == Entries(c) + EntriesAll(cs[1..]);
      SelectedAppend(mode, query, [c] + Entries(c), EntriesOf(dir, es[1..]));
      SelectedAppend(mode, query, [c], Entries(c));
      SelectedAppend(mode, query, [c], cs[1..]);
      SelectedAppend(mode, query, Entries(c), EntriesAll(cs[1..]));
      assert cs == [c] + cs[1..];
    }
  }

  /**
   * What the walk collects is, occurrence for occurrence, what lies below the
   * frontier and passes the test: every match at every depth, each once.
   */
  lemma {:induction false} WalkCovers(mode: Mode, query: string, q: seq<Located>)
    ensures Walk(mode, query, q).Ok? ==>
      multiset(Walk(mode, query, q).value) == multiset(Selected(mode, query, EntriesAll(q)))
    decreases SizeAll(q)
  {
    if q != [] && Listing(q[0]).Ok? {
      var cs := Listing(q[0]).value;
      var next := q[1..] + DirsOnly(cs);
      assert Walk(mode, query, q) == Prepend(Selected(mode, query, cs), Walk(mode, query, next)) by {
        StepSucceeds(mode, query, q, cs);
      }
      QueueShrinks(q, cs);
      WalkCovers(mode, query, next);
      assert multiset(Selected(mode, query, EntriesAll(q)))
          == multiset(Selected(mode, query, cs)) + multiset(Selected(mode, query, EntriesAll(next))) by {
        EntriesAllAppend(q[1..], DirsOnly(cs));
        EntriesAllDirsOnly(cs);
        SelectedAppend(mode, query, EntriesAll(q[1..]), EntriesAll(cs));
        ListingCovers(mode, query, q[0].path, q[0].node.entries);
        assert EntriesAll(q) == Entries(q[0]) + EntriesAll(q[1..]);
        SelectedAppend(mode, query, Entries(q[0]), EntriesAll(q[1..]));
      }
    }
  }

  // ------------------------------------------------------------- order

  function Depth(x: Located): nat {
    |x.path|
  }

  predicate DepthSorted(s: seq<Located>) {
    forall i, j | 0 <= i < j < |s| :: Depth(s[i]) <= Depth(s[j])
  }

  /** The frontier after expanding its front still spans at most two adjacent, sorted levels. */
  lemma NextFrontierDepths(q: seq<Located>, pushed: seq<Located>, d: nat)
    requires q != [] && DepthSorted(q)
    requires forall i | 0 <= i < |q| :: d <= Depth(q[i]) <= d + 1
    requires forall x | x in pushed :: Depth(x) == Depth(q[0]) + 1
    ensures DepthSorted(q[1..] + pushed)
    ensures forall i | 0 <= i < |q[1..] + pushed| :: Depth(q[0]) <= Depth((q[1..] + pushed)[i]) <= Depth(q[0]) + 1
  {
    var next := q[1..] + pushed;
    forall i, j | 0 <= i < j < |next| ensures Depth(next[i]) <= Depth(next[j]) {
      if j < |q| - 1 {
        assert next[i] == q[i + 1] && next[j] == q[j + 1];
      } else if i < |q| - 1 {
        assert next[i] == q[i + 1] && next[j] in pushed;
      } else {
        assert next[i] in pushed && next[j] in pushed;
      }
    }
    forall i | 0 <= i < |next| ensures Depth(q[0]) <= Depth(next[i]) <= Depth(q[0]) + 1 {
      if i < |q| - 1 {
        assert next[i] == q[i + 1];
      } else {
        assert next[i] in pushed;
      }
    }
  }

  /** One level's worth of results followed by deeper, sorted results is sorted. */
  lemma SortedAfterLevel(found: seq<Located>, rest: seq<Located>, e: nat)
    requires forall x | x in found :: Depth(x) == e
    requires DepthSorted(rest) && forall i | 0 <= i < |rest| :: e <= Depth(rest[i])
    ensures DepthSorted(found + rest)
    ensures forall i | 0 <= i < |found + rest| :: e <= Depth((found + rest)[i])
  {
    var all := found + rest;
    forall i, j | 0 <= i < j < |all| ensures Depth(all[i]) <= Depth(all[j]) {
      if j < |found| {
        assert all[i] in found && all[j] in found;
      } else if i < |found| {
        assert all[i] in found && all[j] == rest[j - |found|];
      } else {
        assert all[i] == rest[i - |found|] && all[j] == rest[j - |found|];
      }
    }
    forall i | 0 <= i < |all| ensures e <= Depth(all[i]) {
      if i < |found| {
        assert all[i] in found;
      } else {
        assert all[i] == rest[i - |found|];
      }
    }
  }

  /**
   * A frontier whose depths are sorted and span at most two adjacent levels
   * yields results sorted by depth, all strictly deeper than the frontier.
   */
  lemma {:induction false} WalkDepths(mode: Mode, query: string, q: seq<Located>, d: nat)
    requires DepthSorted(q)
    requires forall i | 0 <= i < |q| :: d <= Depth(q[i]) <= d + 1
    ensures Walk(mode, query, q).Ok? ==>
      && DepthSorted(Walk(mode, query, q).value)
      && forall i | 0 <= i < |Walk(mode, query, q).value| :: d + 1 <= Depth(Walk(mode, query, q).value[i])
    decreases SizeAll(q)
  {
    if q != [] && Listing(q[0]).Ok? {
      var cs := Listing(q[0]).value;
      QueueShrinks(q, cs);
      StepSucceeds(mode, query, q, cs);
      var next := q[1..] + DirsOnly(cs);
      ChildrenShape(q[0].path, q[0].node.entries);
      DirsOnlyMembers(cs);
      NextFrontierDepths(q, DirsOnly(cs), d);
      WalkDepths(mode, query, next, Depth(q[0]));
      if Walk(mode, query, next).Ok? {
        SortedAfterLevel(Selected(mode, query, cs), Walk(mode, query, next).value, Depth(q[0]) + 1);
      }
    }
  }

  /** Every result is a child path `dir.join(name)` whose last component is the entry's own name. */
  lemma {:induction false} WalkNames(mode: Mode, query: string, q: seq<Located>)
    ensures Walk(mode, query, q).Ok? ==> forall x | x in Walk(mode, query, q).value ::
      && |x.path| > 0 && !x.node.Unreadable?
      && x.path[|x.path| - 1] == x.node.name
      && Eligible(mode, query, x)
    decreases SizeAll(q)
  {
    if q != [] && Listing(q[0]).Ok? {
      var cs := Listing(q[0]).value;
      QueueShrinks(q, cs);
      StepSucceeds(mode, query, q, cs);
      WalkNames(mode, query, q[1..] + DirsOnly(cs));
      ChildrenShape(q[0].path, q[0].node.entries);
    }
  }

  // ------------------------------------------------------- the two modes

  function KeepDirs(w: Result<seq<Located>, FindError>): Result<seq<Located>, FindError> {
    match w
    case Ok(v) => Ok(DirsOnly(v))
    case Err(e) => Err(e)
  }

  lemma {:induction false} SelectedModes(query: string, s: seq<Located>)
    ensures Selected(DirectoryMode, query, s) == DirsOnly(Selected(FileMode, query, s))
  {
    if s != [] {
      SelectedModes(query, s[1..]);
      var head := if Eligible(FileMode, query, s[0]) then [s[0]] else [];
      DirsOnlyAppend(head, Selected(FileMode, query, s[1..]));
      DirsOnlyOne(s[0]);
    }
  }

  /**
   * Directory mode walks exactly the same directories as file mode, fails in
   * the same way, and collects exactly file mode's directories, in the same order.
   */
  lemma {:induction false} ModesAgree(query: string, q: seq<Located>)
    ensures Walk(DirectoryMode, query, q) == KeepDirs(Walk(FileMode, query, q))
    decreases SizeAll(q)
  {
    if q != [] {
      match Listing(q[0])
      case Err(_) =>
        StepFails(DirectoryMode, query, q);
        StepFails(FileMode, query, q);
      case Ok(cs) =>
        QueueShrinks(q, cs);
        StepSucceeds(DirectoryMode, query, q, cs);
        StepSucceeds(FileMode, query, q, cs);
        var next := q[1..] + DirsOnly(cs);
        ModesAgree(query, next);
        SelectedModes(query, cs);
        if Walk(FileMode, query, next).Ok? {
          DirsOnlyAppend(Selected(FileMode, query, cs), Walk(FileMode, query, next).value);
        }
    }
  }

  /** The results of a query, read off a walk that collects everything. */
  function Filter(mode: Mode, query: string, w: Result<seq<Located>, FindError>): Result<seq<Located>, FindError> {
    match w
    case Ok(v) => Ok(Selected(mode, query, v))
    case Err(e) => Err(e)
  }

  /**
   * A query's results come in discovery order: they are exactly the entries
   * of the collect-everything walk that pass the test, in the same order, and
   * the query fails exactly when that walk fails, with the same error.
   */
  lemma {:induction false} ResultsInDiscoveryOrder(mode: Mode, query: string, q: seq<Located>)
    ensures Walk(mode, query, q) == Filter(mode, query, Walk(FileMode, [], q))
    decreases SizeAll(q)
  {
    if q != [] {
      match Listing(q[0])
      case Err(_) =>
        StepFails(mode, query, q);
        StepFails(FileMode, [], q);
      case Ok(cs) =>
        QueueShrinks(q, cs);
        StepSucceeds(mode, query, q, cs);
        StepSucceeds(FileMode, [], q, cs);
        var next := q[1..] + DirsOnly(cs);
        ResultsInDiscoveryOrder(mode, query, next);
        ChildrenShape(q[0].path, q[0].node.entries);
        SelectedEverything(cs);
        if Walk(FileMode, [], next).Ok? {
          SelectedAppend(mode, query, cs, Walk(FileMode, [], next).value);
        }
    }
  }

  // ------------------------------------------------------- dequeue order

  lemma {:induction false} SelectedEverything(s: seq<Located>)
    requires NoUnreadableNode(s)
    ensures Selected(FileMode, [], s) == s
    ensures Selected(DirectoryMode, [], s) == DirsOnly(s)
  {
    if s != [] {
      assert NoUnreadableNode(s[1..]) by {
        forall i | 0 <= i < |s[1..]| ensures !s[1..][i].node.Unreadable? {
          assert s[1..][i] == s[i + 1];
        }
      }
      SelectedEverything(s[1..]);
      assert [s[0]] + s[1..] == s;
    }
  }

  lemma Regroup(h: Located, t: seq<Located>, b: seq<Located>, c: seq<Located>)
    ensures [h] + (t + b + c) == ([h] + t) + (b + c)
  {
  }

  /**
   * The directories are dequeued in discovery order: first the initial
   * frontier, then every directory entry in the order the file-mode walk with
   * an empty query reports it.
   */
  lemma {:induction false} VisitedInDiscoveryOrder(q: seq<Located>)
    ensures Walk(FileMode, [], q).Ok? ==> Visited(q) == q + DirsOnly(Walk(FileMode, [], q).value)
    decreases SizeAll(q)
  {
    if q != [] && Listing(q[0]).Ok? {
      var cs := Listing(q[0]).value;
      var next := q[1..] + DirsOnly(cs);
      assert Walk(FileMode, [], q) == Prepend(cs, Walk(FileMode, [], next))
          && Visited(q) == [q[0]] + Visited(next) by {
        StepSucceeds(FileMode, [], q, cs);
        ChildrenShape(q[0].path, q[0].node.entries);
        SelectedEverything(cs);
      }
      QueueShrinks(q, cs);
      VisitedInDiscoveryOrder(next);
      if Walk(FileMode, [], next).Ok? {
        var rest := Walk(FileMode, [], next).value;
        DirsOnlyAppend(cs, rest);
        calc {
          Visited(q);
          [q[0]] + Visited(next);
          [q[0]] + (q[1..] + DirsOnly(cs) + DirsOnly(rest));
          { Regroup(q[0], q[1..], DirsOnly(cs), DirsOnly(rest)); assert [q[0]] + q[1..] == q; }
          q + (DirsOnly(cs) + DirsOnly(rest));
          q + DirsOnly(Walk(FileMode, [], q).value);
        }
      }
    }
  }

  lemma {:induction false} EntriesClean(loc: Located)
    ensures NoUnreadableNode(Entries(loc))
    decreases Size(loc.node), 0
  {
    if loc.node.Dir? {
      EntriesOfClean(loc.path, loc.node.entries);
    }
  }

  lemma {:induction false} EntriesOfClean(dir: Path, es: seq<Node>)
    ensures NoUnreadableNode(EntriesOf(dir, es))
    decreases SizeOf(es), 1
  {
    if es != [] {
      assert Size(es[0]) > 0;
      EntriesOfClean(dir, es[1..]);
      if !es[0].Unreadable? {
        var c := Located(dir + [es[0].name], es[0]);
        EntriesClean(c);
        var s := [c] + Entries(c) + EntriesOf(dir, es[1..]);
        forall i | 0 <= i < |s| ensures !s[i].node.Unreadable? {
          if i == 0 {
          } else if i <= |Entries(c)| {
            assert s[i] == Entries(c)[i - 1];
          } else {
            assert s[i] == EntriesOf(dir, es[1..])[i - 1 - |Entries(c)|];
          }
        }
      }
    }
  }

  lemma {:induction false} EntriesAllClean(q: seq<Located>)
    ensures NoUnreadableNode(EntriesAll(q))
  {
    if q != [] {
      EntriesClean(q[0]);
      EntriesAllClean(q[1..]);
      var a: seq<Located>, b: seq<Located> := Entries(q[0]), EntriesAll(q[1..]);
      forall i | 0 <= i < |a + b| ensures !(a + b)[i].node.Unreadable? {
        if i >= |a| {
          assert (a + b)[i] == b[i - |a|];
        }
      }
    }
  }

  /**
   * On a tree that can be read throughout, each directory is dequeued exactly
   * once: the dequeued multiset is the frontier plus every directory below it.
   */
  lemma EachDirectoryOnce(q: seq<Located>)
    requires AllExpandable(q)
    ensures multiset(Visited(q)) == multiset(q) + multiset(DirsOnly(EntriesAll(q)))
  {
    WalkSucceedsIff(FileMode, [], q);
    VisitedInDiscoveryOrder(q);
    ModesAgree([], q);
    WalkSucceedsIff(DirectoryMode, [], q);
    WalkCovers(DirectoryMode, [], q);
    EntriesAllClean(q);
    SelectedEverything(EntriesAll(q));
  }

  // ------------------------------------------------------------ failure

  /**
   * The walk fails exactly when the last directory it dequeues cannot be
   * listed, and then with that listing's error; every directory dequeued
   * before it was listed completely.
   */
  lemma {:induction false} FailureIsLastVisited(mode: Mode, query: string, q: seq<Located>)
    ensures var v := Visited(q);
      && (Walk(mode, query, q).Err? <==> v != [] && Listing(v[|v| - 1]).Err?)
      && (Walk(mode, query, q).Err? ==> Walk(mode, query, q).error == Listing(v[|v| - 1]).error)
      && forall i | 0 <= i < |v| - 1 :: Listing(v[i]).Ok?
    decreases SizeAll(q)
  {
    if q != [] {
      match Listing(q[0])
      case Err(_) =>
        StepFails(mode, query, q);
      case Ok(cs) =>
        var next := q[1..] + DirsOnly(cs);
        assert Walk(mode, query, q) == Prepend(Selected(mode, query, cs), Walk(mode, query, next))
            && Visited(q) == [q[0]] + Visited(next) by {
          StepSucceeds(mode, query, q, cs);
        }
        QueueShrinks(q, cs);
        FailureIsLastVisited(mode, query, next);
        var v := Visited(q);
        forall i | 0 <= i < |v| - 1 ensures Listing(v[i]).Ok? {
          if i > 0 {
            assert v[i] == Visited(next)[i - 1];
          }
        }
        if Visited(next) != [] {
          assert v[|v| - 1] == Visited(next)[|Visited(next)| - 1];
        }
    }
  }

  // ---------------------------------------------------- search outcome

  /** Removing the entry at `k` removes one copy of it. */
  lemma RemoveAt(b: seq<Located>, k: nat)
    requires k < |b|
    ensures multiset(b[..k] + b[k + 1..]) == multiset(b) - multiset{b[k]}
  {
    assert b == b[..k] + [b[k]] + b[k + 1..];
  }

  /** Removing the entry at `k` removes one copy of its path. */
  lemma PathsOfRemoveAt(b: seq<Located>, k: nat)
    requires k < |b|
    ensures multiset(PathsOf(b)) == multiset{b[k].path} + multiset(PathsOf(b[..k] + b[k + 1..]))
  {
    var l := PathsOf(b[..k]);
    var r := PathsOf(b[k + 1..]);
    assert PathsOf(b) == l + [b[k].path] + r;
    assert PathsOf(b[..k] + b[k + 1..]) == l + r;
  }

  lemma PathsOfMultisetStep(a: seq<Located>, b: seq<Located>, k: nat)
    requires a != [] && k < |b| && b[k] == a[0]
    requires multiset(PathsOf(a[1..])) == multiset(PathsOf(b[..k] + b[k + 1..]))
    ensures multiset(PathsOf(a)) == multiset(PathsOf(b))
  {
    var p := a[0].path;
    assert multiset(PathsOf(a)) == multiset{p} + multiset(PathsOf(a[1..])) by {
      var t := PathsOf(a[1..]);
      assert PathsOf(a) == [p] + t;
      assert multiset([p] + t) == multiset([p]) + multiset(t);
    }
    assert multiset(PathsOf(b)) == multiset{p} + multiset(PathsOf(b[..k] + b[k + 1..])) by {
      PathsOfRemoveAt(b, k);
    }
  }

  /** Reordering the entries reorders their paths the same way. */
  lemma {:induction false} PathsOfMultiset(a: seq<Located>, b: seq<Located>)
    requires multiset(a) == multiset(b)
    ensures multiset(PathsOf(a)) == multiset(PathsOf(b))
    decreases |a|
  {
    if a == [] {
      assert |b| == |multiset(b)| == 0;
    } else {
      assert a[0] in b by {
        assert a[0] in multiset(a);
      }
      var k :| 0 <= k < |b| && b[k] == a[0];
      assert multiset(a[1..]) == multiset(b[..k] + b[k + 1..]) by {
        assert a == [a[0]] + a[1..];
        assert multiset(a) == multiset{a[0]} + multiset(a[1..]);
        RemoveAt(b, k);
      }
      PathsOfMultiset(a[1..], b[..k] + b[k + 1..]);
      PathsOfMultisetStep(a, b, k);
    }
  }

  /** The entries below the start path that the search is after. */
  function Matches(mode: Mode, query: string, start: string, root: Node): seq<Located> {
    Selected(mode, query, Entries(Located([start], root)))
  }

  /**
   * The outcome contract of `find_file_by_name` / `find_directory_by_name`:
   * an I/O error exactly when part of the tree cannot be read, `NotFound`
   * exactly when the walk completes and nothing matches, and otherwise a
   * non-empty list holding each matching entry's path once per occurrence.
   */
  lemma SearchOutcome(mode: Mode, query: string, start: string, root: Node)
    ensures var r := Search(mode, query, start, root);
      var loc := Located([start], root);
      var m := Matches(mode, query, start, root);
      && (r.Ok? ==> |r.value| > 0 && multiset(r.value) == multiset(PathsOf(m)))
      && (r.Ok? <==> Expandable(loc) && m != [])
      && (r == Err(NotFound(mode, query)) <==> Expandable(loc) && m == [])
      && (r.Err? && !r.error.NotFound? <==> !Expandable(loc))
  {
    var q := Start(start, root);
    WalkSucceedsIff(mode, query, q);
    WalkCovers(mode, query, q);
    assert EntriesAll(q) == Entries(q[0]) + EntriesAll([]);
    assert EntriesAll(q) == Entries(Located([start], root));
    assert AllExpandable(q) <==> Expandable(q[0]);
    var w := Walk(mode, query, q);
    if w.Ok? {
      PathsOfMultiset(w.value, Matches(mode, query, start, root));
      assert w.value == [] <==> |multiset(w.value)| == 0;
    }
  }

  /** A name that occurs exactly once below the start path is found at that one path, whatever its depth. */
  lemma SearchSingleMatch(mode: Mode, query: string, start: string, root: Node, x: Located)
    requires Expandable(Located([start], root))
    requires Matches(mode, query, start, root) == [x]
    ensures Search(mode, query, start, root) == Ok([x.path])
  {
    SearchOutcome(mode, query, start, root);
    var r := Search(mode, query, start, root).value;
    assert PathsOf([x]) == [x.path];
    assert multiset(r) == multiset([x.path]);
    assert |r| == |multiset(r)| == 1;
    assert r[0] in multiset(r);
    assert r == [r[0]];
  }

  lemma {:induction false} SelectedNone(mode: Mode, query: string, s: seq<Located>)
    requires forall x | x in s :: !Eligible(mode, query, x)
    ensures Selected(mode, query, s) == []
  {
    if s != [] {
      assert s[0] in s;
      assert forall x | x in s[1..] :: x in s;
      SelectedNone(mode, query, s[1..]);
    }
  }

  /** A name that no eligible entry below a readable start path carries is reported as not found. */
  lemma AbsentNameNotFound(mode: Mode, query: string, start: string, root: Node)
    requires query != [] && Expandable(Located([start], root))
    requires forall x | x in Entries(Located([start], root)) && !x.node.Unreadable? && (mode == FileMode || x.node.Dir?) ::
      x.node.name != query
    ensures Search(mode, query, start, root) == Err(NotFound(mode, query))
  {
    SearchOutcome(mode, query, start, root);
    SelectedNone(mode, query, Entries(Located([start], root)));
  }

  /**
   * With an empty query, file mode reports every entry below the start path
   * and directory mode every directory below it (when the tree can be read).
   */
  lemma SearchEverything(start: string, root: Node)
    ensures Search(FileMode, [], start, root).Ok? ==>
      multiset(Search(FileMode, [], start, root).value) == multiset(PathsOf(Entries(Located([start], root))))
    ensures Search(DirectoryMode, [], start, root).Ok? ==>
      multiset(Search(DirectoryMode, [], start, root).value) == multiset(PathsOf(DirsOnly(Entries(Located([start], root)))))
  {
    SearchOutcome(FileMode, [], start, root);
    SearchOutcome(DirectoryMode, [], start, root);
    EntriesClean(Located([start], root));
    SelectedEverything(Entries(Located([start], root)));
  }

  /**
   * The reported paths come out breadth first (never a shallower one after a
   * deeper one), each lies strictly below the start path, and with a
   * non-empty query each ends in exactly the queried name.
   */
  lemma SearchOrderAndNames(mode: Mode, query: string, start: string, root: Node)
    ensures var r := Search(mode, query, start, root);
      r.Ok? ==>
        && (forall i, j | 0 <= i < j < |r.value| :: |r.value[i]| <= |r.value[j]|)
        && (forall i | 0 <= i < |r.value| :: |r.value[i]| >= 2 && r.value[i][0] == start)
        && (query != [] ==> forall i | 0 <= i < |r.value| :: r.value[i][|r.value[i]| - 1] == query)
  {
    var q := Start(start, root);
    WalkDepths(mode, query, q, 1);
    WalkNames(mode, query, q);
    WalkPrefix(mode, query, q, start);
    var w := Walk(mode, query, q);
    if w.Ok? && w.value != [] {
      var v := w.value;
      var ps := PathsOf(v);
      assert Search(mode, query, start, root).value == ps;
      forall i | 0 <= i < |ps| ensures |ps[i]| >= 2 && ps[i][0] == start {
        assert v[i] in v;
      }
      forall i | 0 <= i < |ps| ensures query != [] ==> ps[i][|ps[i]| - 1] == query {
        assert v[i] in v;
      }
    }
  }

  /** Every path the walk reports extends the start path. */
  lemma {:induction false} WalkPrefix(mode: Mode, query: string, q: seq<Located>, start: string)
    requires forall i | 0 <= i < |q| :: |q[i].path| > 0 && q[i].path[0] == start
    ensures Walk(mode, query, q).Ok? ==>
      forall x | x in Walk(mode, query, q).value :: |x.path| > 0 && x.path[0] == start
    decreases SizeAll(q)
  {
    if q != [] && Listing(q[0]).Ok? {
      var cs := Listing(q[0]).value;
      QueueShrinks(q, cs);
      StepSucceeds(mode, query, q, cs);
      var next := q[1..] + DirsOnly(cs);
      assert forall x | x in cs :: |x.path| > 0 && x.path[0] == start;
      DirsOnlyMembers(cs);
      forall i | 0 <= i < |next| ensures |next[i].path| > 0 && next[i].path[0] == start {
        if i < |q| - 1 {
          assert next[i] == q[i + 1];
        } else {
          assert next[i] in DirsOnly(cs);
        }
      }
      WalkPrefix(mode, query, next, start);
    }
  }

  // ------------------------------------------------------- a worked case

  const ExampleSub := Dir("sub", true, [File("a.txt"), File("b.txt")])
  const ExampleRoot := Dir("root", true, [File("a.txt"), ExampleSub])

  /** The test and the enqueueing on a two-entry listing, entry by entry. */
  lemma PairSelected(mode: Mode, query: string, x: Located, y: Located)
    ensures Selected(mode, query, [x, y])
         == (if Eligible(mode, query, x) then [x] else []) + (if Eligible(mode, query, y) then [y] else [])
    ensures DirsOnly([x, y]) == (if x.node.Dir? then [x] else []) + (if y.node.Dir? then [y] else [])
  {
    assert [x] + [y] == [x, y];
    SelectedAppend(mode, query, [x], [y]);
    SelectedOne(mode, query, x);
    SelectedOne(mode, query, y);
    DirsOnlyAppend([x], [y]);
    DirsOnlyOne(x);
    DirsOnlyOne(y);
  }

  lemma ExampleSubLevel()
    ensures Walk(FileMode, "a.txt", [Located(["root", "sub"], ExampleSub)])
         == Ok([Located(["root", "sub", "a.txt"], File("a.txt"))])
  {
    var s1 := Located(["root", "sub"], ExampleSub);
    var a2 := Located(["root", "sub", "a.txt"], File("a.txt"));
    var b2 := Located(["root", "sub", "b.txt"], File("b.txt"));
    assert Listing(s1) == Ok([a2, b2]) by {
      assert ["root", "sub"] + ["a.txt"] == ["root", "sub", "a.txt"];
      assert ["root", "sub"] + ["b.txt"] == ["root", "sub", "b.txt"];
      assert Children(["root", "sub"], ExampleSub.entries) == [a2, b2];
    }
    assert Selected(FileMode, "a.txt", [a2, b2]) == [a2] && DirsOnly([a2, b2]) == [] by {
      PairSelected(FileMode, "a.txt", a2, b2);
    }
    StepSucceeds(FileMode, "a.txt", [s1], [a2, b2]);
    assert [s1][1..] + DirsOnly([a2, b2]) == [];
    assert [a2] + [] == [a2];
  }

  /** Listing the example root yields `a.txt` and `sub`; only `a.txt` is selected, only `sub` is enqueued. */
  lemma ExampleTopLevel()
    ensures Listing(Located(["root"], ExampleRoot))
         == Ok([Located(["root", "a.txt"], File("a.txt")), Located(["root", "sub"], ExampleSub)])
    ensures DirsOnly([Located(["root", "a.txt"], File("a.txt")), Located(["root", "sub"], ExampleSub)])
         == [Located(["root", "sub"], ExampleSub)]
    ensures Selected(FileMode, "a.txt", [Located(["root", "a.txt"], File("a.txt")), Located(["root", "sub"], ExampleSub)])
         == [Located(["root", "a.txt"], File("a.txt"))]
  {
    var a1 := Located(["root", "a.txt"], File("a.txt"));
    var s1 := Located(["root", "sub"], ExampleSub);
    assert Children(["root"], ExampleRoot.entries) == [a1, s1] by {
      assert ["root"] + ["a.txt"] == ["root", "a.txt"] && ["root"] + ["sub"] == ["root", "sub"];
    }
    PairSelected(FileMode, "a.txt", a1, s1);
  }

  /**
   * `root/{a.txt, sub/{a.txt, b.txt}}`, file mode, name `a.txt`: the match at
   * the top level comes first, then the one found when `sub` is dequeued.
   */
  lemma ExampleWalk()
    ensures Walk(FileMode, "a.txt", Start("root", ExampleRoot))
         == Ok([Located(["root", "a.txt"], File("a.txt")), Located(["root", "sub", "a.txt"], File("a.txt"))])
  {
    var top := Located(["root"], ExampleRoot);
    var a1 := Located(["root", "a.txt"], File("a.txt"));
    var s1 := Located(["root", "sub"], ExampleSub);
    var a2 := Located(["root", "sub", "a.txt"], File("a.txt"));
    assert Start("root", ExampleRoot) == [top];
    ExampleTopLevel();
    StepSucceeds(FileMode, "a.txt", [top], [a1, s1]);
    assert [top][1..] + DirsOnly([a1, s1]) == [s1];
    ExampleSubLevel();
    assert [a1] + [a2] == [a1, a2];
  }

  /** `find root -name a.txt` over the example reports both files, shallowest first. */
  lemma TwoLevelExample()
    ensures Search(FileMode, "a.txt", "root", ExampleRoot) == Ok([["root", "a.txt"], ["root", "sub", "a.txt"]])
  {
    var a1 := Located(["root", "a.txt"], File("a.txt"));
    var a2 := Located(["root", "sub", "a.txt"], File("a.txt"));
    ExampleWalk();
    assert PathsOf([a1, a2]) == [a1.path, a2.path];
  }

  /** Directory mode finds nothing named `a.txt` in the example, since both are files. */
  lemma DirectoryModeExample()
    ensures Search(DirectoryMode, "a.txt", "root", ExampleRoot) == Err(NotFound(DirectoryMode, "a.txt"))
  {
    var a1 := Located(["root", "a.txt"], File("a.txt"));
    var a2 := Located(["root", "sub", "a.txt"], File("a.txt"));
    ExampleWalk();
    ModesAgree("a.txt", Start("root", ExampleRoot));
    assert DirsOnly([a1, a2]) == [] by {
      DirsOnlyAppend([a1], [a2]);
      DirsOnlyOne(a1);
      DirsOnlyOne(a2);
      assert [a1] + [a2] == [a1, a2];
    }
  }
}
