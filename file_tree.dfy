/**
 * The file system below the start path of a `find`, as a finite tree.
 * A directory that `read_dir` refuses is a `Dir` with `readable == false`;
 * an entry whose read fails while a listing is iterated (or a start path that
 * does not exist) is `Unreadable`. Being a datatype, the tree is finite and
 * acyclic: symbolic-link cycles and concurrent changes are not represented.
 */
module FileTree {

  /** A path: the start string followed by one base name per level. */
  type Path = seq<string>

  datatype Node =
    | File(name: string)
    | Dir(name: string, readable: bool, entries: seq<Node>)
    | Unreadable

  /** A node together with the path under which the walk reaches it. */
  datatype Located = Located(path: Path, node: Node)

  // ---------------------------------------------------------------- sizes

  function Size(n: Node): nat {
    match n
    case Dir(_, _, es) => 1 + SizeOf(es)
    case _ => 1
  }

  function SizeOf(es: seq<Node>): nat {
    if es == [] then 0 else Size(es[0]) + SizeOf(es[1..])
  }

  /** Total size of a frontier: the measure that makes the walk terminate. */
  function SizeAll(q: seq<Located>): nat {
    if q == [] then 0 else Size(q[0].node) + SizeAll(q[1..])
  }

  lemma {:induction false} SizeAllAppend(a: seq<Located>, b: seq<Located>)
    ensures SizeAll(a + b) == SizeAll(a) + SizeAll(b)
  {
    if a != [] {
      assert (a + b)[1..] == a[1..] + b;
      SizeAllAppend(a[1..], b);
    } else {
      assert a + b == b;
    }
  }

  // ------------------------------------------------------------- listings

  /** No entry of the listing fails to be read. */
  predicate NoUnreadable(es: seq<Node>) {
    forall i | 0 <= i < |es| :: !es[i].Unreadable?
  }

  /** The entries of a listing under the directory path `dir`: `dir.join(name)`. */
  function Children(dir: Path, es: seq<Node>): (cs: seq<Located>)
    requires NoUnreadable(es)
  {
    seq(|es|, i requires 0 <= i < |es| => Located(dir + [es[i].name], es[i]))
  }

  lemma ChildrenTail(dir: Path, es: seq<Node>)
    requires NoUnreadable(es) && es != []
    ensures Children(dir, es) == [Located(dir + [es[0].name], es[0])] + Children(dir, es[1..])
  {
  }

  lemma ChildrenSnoc(dir: Path, es: seq<Node>, k: nat)
    requires k < |es| && NoUnreadable(es[..k]) && !es[k].Unreadable?
    ensures NoUnreadable(es[..k + 1])
    ensures Children(dir, es[..k + 1]) == Children(dir, es[..k]) + [Located(dir + [es[k].name], es[k])]
  {
    assert forall i | 0 <= i < k :: es[..k][i] == es[..k + 1][i];
  }

  lemma {:induction false} SizeOfChildren(dir: Path, es: seq<Node>)
    requires NoUnreadable(es)
    ensures SizeAll(Children(dir, es)) == SizeOf(es)
  {
    if es != [] {
      ChildrenTail(dir, es);
      assert Children(dir, es)[1..] == Children(dir, es[1..]);
      SizeOfChildren(dir, es[1..]);
    }
  }

  /** The directories of a listing, in listing order (those pushed on the frontier). */
  function DirsOnly(s: seq<Located>): seq<Located> {
    if s == [] then []
    else (if s[0].node.Dir? then [s[0]] else []) + DirsOnly(s[1..])
  }

  lemma {:induction false} DirsOnlyAppend(a: seq<Located>, b: seq<Located>)
    ensures DirsOnly(a + b) == DirsOnly(a) + DirsOnly(b)
  {
    if a == [] {
      assert a + b == b;
    } else {
      assert (a + b)[1..] == a[1..] + b;
      DirsOnlyAppend(a[1..], b);
    }
  }

  lemma DirsOnlyOne(c: Located)
    ensures DirsOnly([c]) == if c.node.Dir? then [c] else []
  {
    assert [c][1..] == [];
  }

  lemma {:induction false} DirsOnlySize(s: seq<Located>)
    ensures SizeAll(DirsOnly(s)) <= SizeAll(s)
  {
    if s != [] {
      DirsOnlySize(s[1..]);
      SizeAllAppend(if s[0].node.Dir? then [s[0]] else [], DirsOnly(s[1..]));
    }
  }

  // ----------------------------------------------------------- references

  /** Every directory below is readable and every entry below can be read. */
  predicate Healthy(n: Node) {
    match n
    case File(_) => true
    case Unreadable => false
    case Dir(_, readable, es) => readable && forall i | 0 <= i < |es| :: Healthy(es[i])
  }

  /** `read_dir` on this path succeeds, and so does everything below it. */
  predicate Expandable(loc: Located) {
    loc.node.Dir? && Healthy(loc.node)
  }

  /**
   * Every entry below `loc`, in depth-first pre-order (an entry, then what is
   * below it, then its later siblings). Unreadable entries have no name and are
   * skipped. This is the reference the breadth-first walk is compared with.
   */
  function Entries(loc: Located): seq<Located>
    decreases Size(loc.node), 0
  {
    match loc.node
    case Dir(_, _, es) => EntriesOf(loc.path, es)
    case _ => []
  }

  function EntriesOf(dir: Path, es: seq<Node>): seq<Located>
    decreases SizeOf(es), 1
  {
    if es == [] then []
    else if es[0].Unreadable? then
      assert Size(es[0]) == 1;
      EntriesOf(dir, es[1..])
    else
      var c := Located(dir + [es[0].name], es[0]);
      [c] + Entries(c) + EntriesOf(dir, es[1..])
  }

  /** The entries below every element of a frontier. */
  function EntriesAll(q: seq<Located>): seq<Located> {
    if q == [] then [] else Entries(q[0]) + EntriesAll(q[1..])
  }

  lemma {:induction false} EntriesAllAppend(a: seq<Located>, b: seq<Located>)
    ensures EntriesAll(a + b) == EntriesAll(a) + EntriesAll(b)
  {
    if a == [] {
      assert a + b == b;
    } else {
      assert (a + b)[1..] == a[1..] + b;
      EntriesAllAppend(a[1..], b);
    }
  }

  /** Files have nothing below them, so dropping them from a frontier changes no entry set. */
  lemma {:induction false} EntriesAllDirsOnly(s: seq<Located>)
    ensures EntriesAll(DirsOnly(s)) == EntriesAll(s)
  {
    if s != [] {
      EntriesAllDirsOnly(s[1..]);
      EntriesAllAppend(if s[0].node.Dir? then [s[0]] else [], DirsOnly(s[1..]));
    }
  }
}
