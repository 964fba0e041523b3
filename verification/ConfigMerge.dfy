/** Deep merge of configuration files: the value of a merged tree at every path, and the
    in-place merge of mutable maps that shares sub-maps with the files it has read. */
module ConfigMerge {

  // ---------- merging as values ----------

  /** A decoded file: scalars and lists are leaves, mappings are branches. */
  datatype Tree = Leaf(value: string) | Branch(kids: map<string, Tree>)

  type Path = seq<string>

  /** What a file says about a path: nothing, a non-map at a proper prefix of it, or a value. */
  datatype Verdict = Silent | Blocked | Value(value: string) | Section

  function Look(t: Tree, p: Path): Verdict {
    if p == [] then (match t case Leaf(v) => Value(v) case Branch(_) => Section)
    else match t
      case Leaf(_) => Blocked
      case Branch(kids) => if p[0] in kids then Look(kids[p[0]], p[1..]) else Silent
  }

  /** What a reader of the merged configuration finds at a path. */
  datatype Found = Nothing | Scalar(value: string) | Map

  function Reading(v: Verdict): Found {
    match v
    case Silent => Nothing
    case Blocked => Nothing
    case Value(s) => Scalar(s)
    case Section => Map
  }

  function Merge(d: Tree, s: Tree): Tree
    decreases s
  {
    if d.Branch? && s.Branch? then
      Branch(map k | k in d.kids.Keys + s.kids.Keys ::
        if k !in s.kids then d.kids[k]
        else if k !in d.kids then s.kids[k]
        else Merge(d.kids[k], s.kids[k]))
    else s
  }

  function Fold(files: seq<Tree>): Tree {
    if files == [] then Branch(map[]) else Merge(Fold(files[..|files| - 1]), files[|files| - 1])
  }

  /** A later file decides every path it speaks about and leaves all others as they were. */
  lemma {:induction false} MergeLooks(d: Tree, s: Tree, p: Path)
    requires p == [] ==> d.Branch? && s.Branch?
    ensures Look(s, p) != Silent ==> Reading(Look(Merge(d, s), p)) == Reading(Look(s, p))
    ensures Look(s, p) == Silent ==> Reading(Look(Merge(d, s), p)) == Reading(Look(d, p))
    decreases p
  {
    if p != [] && d.Branch? && s.Branch? {
      var k := p[0];
      if k in d.kids && k in s.kids && p[1..] != [] {
        MergeLooks(d.kids[k], s.kids[k], p[1..]);
      }
    }
  }

  lemma {:induction false} FoldIsBranch(files: seq<Tree>)
    requires forall i :: 0 <= i < |files| ==> files[i].Branch?
    ensures Fold(files).Branch?
  {
    if files != [] {
      FoldIsBranch(files[..|files| - 1]);
    }
  }

  /** The last file that sets `p`, or sets a prefix of `p` to a non-map, decides what is found
      there. */
  lemma {:induction false} LastFileWins(files: seq<Tree>, p: Path, i: nat)
    requires forall j :: 0 <= j < |files| ==> files[j].Branch?
    requires i < |files| && Look(files[i], p) != Silent
    requires forall j :: i < j < |files| ==> Look(files[j], p) == Silent
    ensures Reading(Look(Fold(files), p)) == Reading(Look(files[i], p))
    decreases |files|
  {
    var n := |files| - 1;
    FoldIsBranch(files[..n]);
    MergeLooks(Fold(files[..n]), files[n], p);
    if i < n {
      LastFileWins(files[..n], p, i);
    }
  }

  /** A path no file speaks about holds nothing. */
  lemma {:induction false} NoFileSpeaks(files: seq<Tree>, p: Path)
    requires forall j :: 0 <= j < |files| ==> files[j].Branch? && Look(files[j], p) == Silent
    requires p != []
    ensures Reading(Look(Fold(files), p)) == Nothing
    decreases |files|
  {
    if files != [] {
      var n := |files| - 1;
      FoldIsBranch(files[..n]);
      NoFileSpeaks(files[..n], p);
      MergeLooks(Fold(files[..n]), files[n], p);
    }
  }

  // ---------- merging in place ----------

  datatype Entry = Plain(value: string) | Sub(node: Node)

  /** The maps an entry leads to. */
  ghost function Reach(e: Entry): set<object>
    reads if e.Sub? then {e.node} else {}
  {
    if e.Sub? then e.node.Repr else {}
  }

  /** An entry that leads to a tree of maps. */
  ghost predicate Sound(e: Entry)
    reads if e.Sub? then {e.node} else {}, Reach(e)
    decreases Reach(e), 1
  {
    e.Sub? ==> e.node in e.node.Repr && e.node.Valid()
  }

  ghost function TreeOf(e: Entry): Tree
    requires Sound(e)
    reads if e.Sub? then {e.node} else {}, Reach(e)
    decreases Reach(e), 1
  {
    match e
    case Plain(v) => Leaf(v)
    case Sub(n) => Branch(n.Kids())
  }

  /** A mutable map of the decoded configuration. */
  class Node {
    var entries: map<string, Entry>
    ghost var Repr: set<object>

    constructor ()
      ensures entries == map[] && Repr == {this} && Valid() && Kids() == map[]
    {
      entries, Repr := map[], {this};
    }

    /** The maps reachable from here form a tree. */
    ghost predicate Valid()
      reads this, Repr
      decreases Repr, 0
    {
      this in Repr &&
      (forall k :: k in entries && entries[k].Sub? ==> entries[k].node in Repr) &&
      (forall k :: k in entries ==> Owned(entries[k]) && Sound(entries[k])) &&
      forall j, k :: j in entries && k in entries && j != k ==> Reach(entries[j]) !! Reach(entries[k])
    }

    ghost predicate Owned(e: Entry)
      reads this, if e.Sub? then {e.node} else {}
    {
      this in Repr && (e.Sub? ==> e.node in Repr && e.node.Repr <= Repr && this !in e.node.Repr)
    }

    /** The tree below this map. */
    ghost function Kids(): map<string, Tree>
      reads this, Repr
      requires Valid()
      decreases Repr, 0
    {
      map k | k in entries :: TreeOf(entries[k])
    }

    /** `m[k] = e`, with the reachable maps of `e` now shared. */
    method Put(k: string, e: Entry)
      requires Valid() && Sound(e) && Reach(e) !! Repr
      modifies this
      ensures Valid() && entries == old(entries)[k := e]
      ensures Repr == old(Repr) + Reach(e)
      ensures forall j :: j in entries && j != k ==> Reach(entries[j]) == old(Reach(entries[j]))
      ensures Kids() == old(Kids()[k := TreeOf(e)])
    {
      ghost var es, m := entries, Kids()[k := TreeOf(e)];
      entries := entries[k := e];
      Repr := Repr + Reach(e);
      assert Owned(e) && Sound(e) && TreeOf(e) == m[k];
      forall j | j in es && j != k
        ensures Owned(es[j]) && Sound(es[j]) && TreeOf(es[j]) == m[j]
        ensures Reach(es[j]) == old(Reach(es[j])) && Reach(es[j]) !! Reach(e)
      {
        assert old(Owned(es[j]) && Sound(es[j]) && TreeOf(es[j]) == m[j]);
      }
      assert forall i, j :: i in entries && j in entries && i != j ==> Reach(entries[i]) !! Reach(entries[j]);
      Rebuilt(m);
    }

    lemma Rebuilt(m: map<string, Tree>)
      requires this in Repr && entries.Keys == m.Keys
      requires forall k :: k in entries ==> Owned(entries[k]) && Sound(entries[k]) && TreeOf(entries[k]) == m[k]
      requires forall i, j :: i in entries && j in entries && i != j ==> Reach(entries[i]) !! Reach(entries[j])
      ensures Valid() && Kids() == m
    {
      assert forall k :: k in entries && entries[k].Sub? ==> Owned(entries[k]);
    }
  }

  /** The merge while the keys in `left` are still to come. */
  function Partial(d: map<string, Tree>, s: map<string, Tree>, left: set<string>): map<string, Tree> {
    map k | k in d.Keys + (s.Keys - left) ::
      if k !in s || k in left then d[k]
      else if k !in d then s[k]
      else Merge(d[k], s[k])
  }

  lemma PartialStep(d: map<string, Tree>, s: map<string, Tree>, left: set<string>, k: string)
    requires k in left && left <= s.Keys
    ensures k in Partial(d, s, left) <==> k in d
    ensures k in d ==> Partial(d, s, left)[k] == d[k]
    ensures Partial(d, s, left - {k}) == Partial(d, s, left)[k := if k in d then Merge(d[k], s[k]) else s[k]]
  {
  }

  lemma PartialEnds(d: map<string, Tree>, s: map<string, Tree>)
    ensures Partial(d, s, s.Keys) == d
    ensures Merge(Branch(d), Branch(s)) == Branch(Partial(d, s, {}))
  {
    assert Merge(Branch(d), Branch(s)).kids == Partial(d, s, {});
  }

  /** What the loop over the keys of `src` keeps; `own` is what `dst` could reach at the start. */
  ghost predicate Merging(dst: Node, src: Node, left: set<string>, own: set<object>)
    reads dst, src, src.Repr, dst.Repr
    requires dst.Valid() && src.Valid()
  {
    left <= src.entries.Keys && dst in own && own !! src.Repr && dst.Repr <= own + src.Repr &&
    (forall k :: k in left ==> Reach(src.entries[k]) !! dst.Repr) &&
    (forall k :: k in left && k in dst.entries ==> Reach(dst.entries[k]) <= own)
  }

  /** Two maps meet at key `k`: merge below it. */
  method MergeChild(dst: Node, k: string, src: Node)
    requires dst.Valid() && src.Valid() && dst.Repr !! src.Repr
    requires k in dst.entries && dst.entries[k].Sub?
    modifies dst`Repr, dst.entries[k].node.Repr
    ensures dst.Valid() && dst.entries == old(dst.entries)
    ensures dst.Repr == old(dst.Repr) + src.Repr
    ensures forall j :: j in dst.entries && j != k ==> Reach(dst.entries[j]) == old(Reach(dst.entries[j]))
    ensures dst.Kids() == old(dst.Kids()[k := Merge(TreeOf(dst.entries[k]), Branch(src.Kids()))])
    decreases src.Repr, 1
  {
    ghost var es := dst.entries;
    var child := dst.entries[k].node;
    ghost var m := dst.Kids()[k := Merge(TreeOf(es[k]), Branch(src.Kids()))];
    assert dst.Owned(es[k]) && Sound(es[k]);
    DeepMerge(child, src);
    dst.Repr := dst.Repr + src.Repr;
    forall j | j in es && j != k
      ensures dst.Owned(es[j]) && Sound(es[j]) && TreeOf(es[j]) == m[j]
      ensures Reach(es[j]) == old(Reach(es[j])) && Reach(es[j]) !! child.Repr
    {
      assert old(dst.Owned(es[j]) && Sound(es[j]) && Reach(es[j]) !! Reach(es[k]));
    }
    assert dst.Owned(es[k]) && Sound(es[k]) && TreeOf(es[k]) == m[k];
    assert forall i, j :: i in es && j in es && i != j ==> Reach(es[i]) !! Reach(es[j]);
    dst.Rebuilt(m);
  }

  lemma MergingNext(dst: Node, src: Node, left: set<string>, own: set<object>, k: string, R: set<object>)
    requires dst.Valid() && src.Valid() && k in left && left <= src.entries.Keys
    requires dst in own && own !! src.Repr && R <= own + src.Repr
    requires dst.Repr == R + Reach(src.entries[k])
    requires forall j :: j in left ==> Reach(src.entries[j]) !! R
    requires forall j :: j in left - {k} && j in dst.entries ==> Reach(dst.entries[j]) <= own
    ensures Merging(dst, src, left - {k}, own)
  {
    assert src.Owned(src.entries[k]);
    assert forall j :: j in left - {k} ==> Reach(src.entries[j]) !! Reach(src.entries[k]);
  }

  /** One key of the loop in `deepMergeMaps` where `dst` takes the entry of `src`. */
  method TakeKey(dst: Node, src: Node, k: string, ghost left: set<string>, ghost own: set<object>)
    requires dst.Valid() && src.Valid() && Merging(dst, src, left, own) && k in left
    modifies dst
    ensures dst.Valid() && src.Valid() && src.Kids() == old(src.Kids())
    ensures Merging(dst, src, left - {k}, own)
    ensures dst.Kids() == old(dst.Kids()[k := src.Kids()[k]])
  {
    var sv := src.entries[k];
    ghost var R := dst.Repr;
    assert src.Owned(sv) && Sound(sv) && src.Kids()[k] == TreeOf(sv) && dst !in src.Repr;
    label before:
    dst.Put(k, sv);
    assert src.Valid() && src.Kids() == old@before(src.Kids());
    assert forall j :: j in left ==> Reach(src.entries[j]) == old@before(Reach(src.entries[j]));
    MergingNext(dst, src, left, own, k, R);
  }

  /** One key of the loop where two maps meet. */
  method DescendKey(dst: Node, src: Node, k: string, ghost left: set<string>, ghost own: set<object>)
    requires dst.Valid() && src.Valid() && Merging(dst, src, left, own) && k in left
    requires src.entries[k].Sub? && k in dst.entries && dst.entries[k].Sub?
    modifies dst, Reach(dst.entries[k])
    ensures dst.Valid() && src.Valid() && src.Kids() == old(src.Kids())
    ensures Merging(dst, src, left - {k}, own)
    ensures dst.Kids() == old(dst.Kids()[k := Merge(dst.Kids()[k], src.Kids()[k])])
    decreases src.Repr, 0, 0
  {
    var sv, dv := src.entries[k], dst.entries[k];
    ghost var R := dst.Repr;
    assert src.Owned(sv) && Sound(sv) && src.Kids()[k] == TreeOf(sv);
    assert Reach(dv) <= own && dst.Kids()[k] == TreeOf(dv);
    label before:
    MergeChild(dst, k, sv.node);
    assert src.Valid() && src.Kids() == old@before(src.Kids());
    assert forall j :: j in left ==> Reach(src.entries[j]) == old@before(Reach(src.entries[j]));
    MergingNext(dst, src, left, own, k, R);
  }

  /** `deepMergeMaps`: the keys of `src` come in any order. */
  method DeepMerge(dst: Node, src: Node)
    requires dst.Valid() && src.Valid() && dst.Repr !! src.Repr
    modifies dst.Repr
    ensures dst.Valid() && dst.Repr <= old(dst.Repr) + src.Repr
    ensures Branch(dst.Kids()) == old(Merge(Branch(dst.Kids()), Branch(src.Kids())))
    decreases src.Repr, 0, 1
  {
    ghost var d, s, own := dst.Kids(), src.Kids(), dst.Repr;
    PartialEnds(d, s);
    var left := src.entries.Keys;
    while left != {}
      invariant dst.Valid() && src.Valid() && src.Kids() == s && Merging(dst, src, left, own)
      invariant dst.Kids() == Partial(d, s, left)
      decreases left
    {
      var k :| k in left;
      PartialStep(d, s, left, k);
      if k !in dst.entries {
        TakeKey(dst, src, k, left, own);
      } else if src.entries[k].Sub? && dst.entries[k].Sub? {
        DescendKey(dst, src, k, left, own);
      } else {
        NotBothMaps(dst, src, k);
        TakeKey(dst, src, k, left, own);
      }
      left := left - {k};
    }
  }

  lemma NotBothMaps(dst: Node, src: Node, k: string)
    requires dst.Valid() && src.Valid() && k in dst.entries && k in src.entries
    requires !(dst.entries[k].Sub? && src.entries[k].Sub?)
    ensures Merge(dst.Kids()[k], src.Kids()[k]) == src.Kids()[k]
  {
    assert dst.Kids()[k] == TreeOf(dst.entries[k]) && src.Kids()[k] == TreeOf(src.entries[k]);
  }

  // ---------- the configuration directory ----------

  /** All maps reachable from the files. */
  ghost function AllMaps(files: seq<Node>): (r: set<object>)
    reads files
    ensures forall i :: 0 <= i < |files| ==> files[i].Repr <= r
  {
    if files == [] then {} else AllMaps(files[..|files| - 1]) + files[|files| - 1].Repr
  }

  /** The files are trees of their own, apart from each other. */
  ghost predicate Separate(files: seq<Node>)
    reads files, AllMaps(files)
  {
    (forall i :: 0 <= i < |files| ==> files[i].Valid()) &&
    forall i, j :: 0 <= i < |files| && 0 <= j < |files| && i != j ==> files[i].Repr !! files[j].Repr
  }

  ghost function Trees(files: seq<Node>): (ts: seq<Tree>)
    reads files, AllMaps(files)
    requires Separate(files)
    ensures |ts| == |files|
    ensures forall i :: 0 <= i < |files| ==> ts[i] == Branch(files[i].Kids())
  {
    seq(|files|, i requires 0 <= i < |files| && files[i].Valid() reads files, AllMaps(files) => Branch(files[i].Kids()))
  }

  /** The files from `n` on are still as they were read. */
  ghost predicate Unread(files: seq<Node>, n: nat, ts: seq<Tree>, reprs: seq<set<object>>, used: set<object>)
    reads files, AllMaps(files)
    requires |ts| == |files| == |reprs|
  {
    forall i :: n <= i < |files| ==>
      files[i].Repr == reprs[i] && files[i].Valid() && Branch(files[i].Kids()) == ts[i] && reprs[i] !! used
  }

  method MergeNext(merged: Node, files: seq<Node>, n: nat, ghost ts: seq<Tree>, ghost reprs: seq<set<object>>)
    requires n < |files| == |ts| == |reprs| && merged.Valid() && Unread(files, n, ts, reprs, merged.Repr)
    requires forall i :: n < i < |files| ==> reprs[i] !! reprs[n]
    modifies merged.Repr
    ensures merged.Valid() && merged.Repr <= old(merged.Repr) + reprs[n]
    ensures Branch(merged.Kids()) == Merge(Branch(old(merged.Kids())), ts[n])
    ensures Unread(files, n + 1, ts, reprs, merged.Repr)
  {
    DeepMerge(merged, files[n]);
  }

  /** Files in sorted order, each merged into what the earlier ones gave. */
  method MergeFiles(files: seq<Node>) returns (merged: Node)
    requires Separate(files)
    modifies AllMaps(files)
    ensures merged.Valid() && Branch(merged.Kids()) == Fold(old(Trees(files)))
  {
    ghost var ts, all := Trees(files), AllMaps(files);
    ghost var reprs := seq(|files|, i requires 0 <= i < |files| reads files => files[i].Repr);
    merged := new Node();
    assert Unread(files, 0, ts, reprs, merged.Repr);
    var n := 0;
    while n < |files|
      invariant 0 <= n <= |files| && merged.Valid() && fresh(merged) && merged.Repr <= {merged} + all
      invariant Branch(merged.Kids()) == Fold(ts[..n])
      invariant Unread(files, n, ts, reprs, merged.Repr)
    {
      assert ts[..n + 1][..n] == ts[..n];
      MergeNext(merged, files, n, ts, reprs);
      n := n + 1;
    }
    assert ts[..n] == ts;
  }
}
