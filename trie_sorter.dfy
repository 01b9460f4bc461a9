/**
  TernaryTrieSort.java as heap objects: `Node` vertices whose links and `entries` are
  reassigned in place, and the sorter object holding the root, the input strings, the
  output array `sortedIndices` and the `count`/`wordLen` fields. Every vertex carries a
  ghost `model` (its subtrie as a `TrieModel.Tree`) and a ghost footprint `Repr`; the
  methods are proved to act on the models exactly as the functions of TrieModel say.
 */
module TrieSorter {
  import opened TrieModel

  class Node {
    var character: char
    var left: Node?
    var mid: Node?
    var right: Node?
    /** The Java `int[] entries`: the empty sequence stands for null. */
    var entries: seq<nat>

    ghost var model: Tree
    ghost var Repr: set<Node>

    /** The links form a tree (three disjoint subtries) and `model` is the value of this subtrie. */
    ghost predicate Valid()
      reads this, Repr
      decreases Repr
    {
      && this in Repr
      && (left != null ==> left in Repr && left.Repr <= Repr && this !in left.Repr && left.Valid())
      && (mid != null ==> mid in Repr && mid.Repr <= Repr && this !in mid.Repr && mid.Valid())
      && (right != null ==> right in Repr && right.Repr <= Repr && this !in right.Repr && right.Valid())
      && (left != null && mid != null ==> left.Repr !! mid.Repr)
      && (left != null && right != null ==> left.Repr !! right.Repr)
      && (mid != null && right != null ==> mid.Repr !! right.Repr)
      && model == Vertex(character, ModelOf(left), ModelOf(mid), ModelOf(right), entries)
    }

    constructor (character: char)
      ensures Valid() && Repr == {this}
      ensures this.character == character && left == null && mid == null && right == null && entries == []
      ensures model == Vertex(character, Nil, Nil, Nil, [])
    {
      this.character := character;
      left, mid, right := null, null, null;
      entries := [];
      model := Vertex(character, Nil, Nil, Nil, []);
      Repr := {this};
    }

    /** `add`: append `index` after the entries already parked here; a null array becomes `[index]`. */
    method Add(index: nat)
      requires Valid()
      modifies this
      ensures Valid() && Repr == old(Repr)
      ensures entries == old(entries) + [index]
      ensures old(entries) == [] ==> entries == [index]
      ensures character == old(character) && left == old(left) && mid == old(mid) && right == old(right)
      ensures model == old(model).(entries := old(entries) + [index])
    {
      if entries == [] {
        entries := [index];
      } else {
        entries := entries + [index];
      }
      model := model.(entries := entries);
    }
  }

  ghost function ModelOf(n: Node?): Tree
    reads n
  {
    if n == null then Nil else n.model
  }

  ghost function Foot(n: Node?): set<Node>
    reads n
  {
    if n == null then {} else n.Repr
  }

  /** The zero-filled tail of a fresh Java `int[]`. */
  function Zeros(n: nat): (z: seq<int>)
    ensures |z| == n && forall k :: 0 <= k < n ==> z[k] == 0
  {
    seq(n, _ => 0)
  }

  /** Array contents `a` after `x` is written into it slot by slot from slot `c` on. */
  function Written(a: seq<int>, c: nat, x: seq<int>): (w: seq<int>)
    requires c + |x| <= |a|
    ensures |w| == |a|
    decreases |x|
  {
    if x == [] then a else Written(a[c := x[0]], c + 1, x[1..])
  }

  /** Slot by slot: the written slots hold `x` and every other slot keeps its value. */
  lemma {:induction false} WrittenAt(a: seq<int>, c: nat, x: seq<int>)
    requires c + |x| <= |a|
    ensures forall k :: 0 <= k < |a| ==> Written(a, c, x)[k] == if c <= k < c + |x| then x[k - c] else a[k]
    decreases |x|
  {
    if x != [] {
      WrittenAt(a[c := x[0]], c + 1, x[1..]);
    }
  }

  /** Writing `x` from the front of a zero-filled array leaves the zeros after it. */
  lemma WrittenFront(n: nat, x: seq<int>)
    requires |x| <= n
    ensures Written(Zeros(n), 0, x) == x + Zeros(n - |x|)
  {
    WrittenAt(Zeros(n), 0, x);
  }

  /** Writing `x` and then `y` right after it is writing `x + y`. */
  lemma {:induction false} WrittenTwice(a: seq<int>, c: nat, x: seq<int>, y: seq<int>)
    requires c + |x| + |y| <= |a|
    ensures Written(Written(a, c, x), c + |x|, y) == Written(a, c, x + y)
    decreases |x|
  {
    if x == [] {
      assert x + y == y;
    } else {
      assert (x + y)[0] == x[0] && (x + y)[1..] == x[1..] + y;
      WrittenTwice(a[c := x[0]], c + 1, x[1..], y);
    }
  }

  class TernaryTrieSort {
    var root: Node?
    const list: seq<string>
    var sortedIndices: array<int>
    var count: nat
    var wordLen: nat
    /** The exception that escaped the Java constructor, if any. */
    var fault: Option<Fault>

    ghost var Repr: set<Node>

    ghost predicate Valid()
      reads this, Repr
    {
      if root == null then Repr == {} else root in Repr && root.Repr == Repr && root.Valid()
    }

    /**
      The constructor: insert every index in turn with `wordLen` set to its string's
      length, then collect. An exception from `getCharAt` ends the constructor; it is
      recorded in `fault` and nothing is collected.
     */
    constructor (list: seq<string>)
      ensures this.list == list
      ensures Build(list, |list|).Err? ==> fault == Some(Build(list, |list|).fault)
      ensures Build(list, |list|).Ok? ==>
        && fault == None && Valid()
        && ModelOf(root) == Build(list, |list|).value
        && count == |InOrder(ModelOf(root))| <= |list|
        && sortedIndices.Length == |list|
        && sortedIndices[..] == InOrder(ModelOf(root)) + Zeros(|list| - count)
    {
      this.list := list;
      root := null;
      sortedIndices := new int[0];
      count := 0;
      wordLen := 0;
      fault := None;
      Repr := {};
      new;
      fault := PutAll();
      if fault == None {
        SortedIndicesDistinct(list);
        GetSorted();
      }
    }

    /** The constructor's `for` loop: `put` every index in turn, stopping at the first exception. */
    method PutAll() returns (f: Option<Fault>)
      requires Valid() && root == null
      modifies this`root, this`Repr, this`wordLen
      ensures f.Some? ==> Build(list, |list|) == Err(f.value)
      ensures f.None? ==> Valid() && Build(list, |list|) == Ok(ModelOf(root))
    {
      var index := 0;
      f := None;
      while index < |list|
        invariant 0 <= index <= |list|
        invariant fresh(Repr) && Valid() && f == None
        invariant Build(list, index) == Ok(ModelOf(root))
      {
        wordLen := |list[index]|;
        ghost var t := ModelOf(root);
        InRangeWeaken(t, index, |list|);
        f := Put(index);
        if f.Some? {
          assert Build(list, index + 1) == Insert(list, wordLen, t, index, 0, 0);
          BuildFaultPersists(list, index + 1, |list|);
          return;
        }
        assert Build(list, index + 1) == Insert(list, wordLen, t, index, 0, 0);
        index := index + 1;
      }
    }

    /** `put(int)`: insert string `index` from the root. */
    method Put(index: nat) returns (fault: Option<Fault>)
      requires Valid() && index < |list| && InRange(ModelOf(root), |list|)
      modifies this`root, this`Repr, Repr
      ensures fault.Some? ==> root == old(root) && Insert(list, wordLen, old(ModelOf(root)), index, 0, 0) == Err(fault.value)
      ensures fault.None? ==> Valid() && Insert(list, wordLen, old(ModelOf(root)), index, 0, 0) == Ok(ModelOf(root))
      ensures fault.None? ==> fresh(Repr - old(Repr))
    {
      var r;
      r, fault := PutNode(root, index, 0, 0);
      if fault.None? {
        root := r;
        Repr := r.Repr;
      }
    }

    /**
      `put(Node, int, int, int)`: returns the same vertex it was given (or a fresh one for
      a null link) having acted on the subtrie as `Insert` says. The three branches that
      recurse into a link are the methods `PutLeft`, `PutRight` and `PutMid`.
     */
    method PutNode(node: Node?, index: nat, depth: nat, limiter: nat) returns (r: Node?, fault: Option<Fault>)
      requires node != null ==> node.Valid()
      requires index < |list| && InRange(ModelOf(node), |list|)
      modifies Foot(node)
      ensures fault.Some? ==> Insert(list, wordLen, old(ModelOf(node)), index, depth, limiter) == Err(fault.value)
      ensures fault.None? ==>
        && r != null && r.Valid()
        && Insert(list, wordLen, old(ModelOf(node)), index, depth, limiter) == Ok(r.model)
        && fresh(r.Repr - old(Foot(node)))
      ensures fault.None? && node != null ==> r == node
      decreases Foot(node), 1
    {
      var c := CharAt(list, index, depth);
      if c.Err? {
        return node, Some(c.fault);
      }
      var ch := c.value;
      if node == null {
        r := new Node(ch);
        return r, None;
      }
      if ch < node.character {
        fault := PutLeft(node, index, depth);
      } else if ch > node.character {
        fault := PutRight(node, index, depth);
      } else if node.entries != [] && depth < wordLen - 1 {
        fault := ExtendMid(node, depth + 1);
      } else if (limiter > 0 && node.mid == null) || depth == wordLen - 1 {
        node.Add(index);
        fault := None;
      } else {
        fault := PutMid(node, index, depth, limiter);
      }
      return node, fault;
    }

    /** The branch `node.left = put(node.left, index, depth, 0)`. */
    method PutLeft(node: Node, index: nat, depth: nat) returns (fault: Option<Fault>)
      requires node.Valid() && index < |list| && InRange(node.model, |list|)
      modifies node.Repr
      ensures fault.Some? ==> Insert(list, wordLen, old(node.model).left, index, depth, 0) == Err(fault.value)
      ensures fault.None? ==>
        && node.Valid() && fresh(node.Repr - old(node.Repr))
        && Insert(list, wordLen, old(node.model).left, index, depth, 0) == Ok(node.model.left)
        && node.model == old(node.model).(left := node.model.left)
      decreases node.Repr, 0
    {
      var l;
      l, fault := PutNode(node.left, index, depth, 0);
      if fault.None? {
        node.left, node.Repr, node.model := l, node.Repr + l.Repr, node.model.(left := l.model);
      }
    }

    /** The branch `node.mid = extend(node, depth + 1)`. */
    method ExtendMid(node: Node, depth: nat) returns (fault: Option<Fault>)
      requires node.Valid() && |node.entries| > 0 && node.entries[0] < |list|
      modifies node
      ensures fault.Some? ==> Extension(list, old(node.model), depth) == Err(fault.value)
      ensures fault.None? ==>
        && node.Valid() && fresh(node.Repr - old(node.Repr))
        && Extension(list, old(node.model), depth).Ok?
        && var (p, x) := Extension(list, old(node.model), depth).value; node.model == p.(mid := x)
    {
      var x;
      x, fault := Extend(node, depth);
      if fault.None? {
        node.mid, node.Repr, node.model := x, node.Repr + x.Repr, node.model.(mid := x.model, entries := []);
      }
    }

    /** The branch `node.right = put(node.right, index, depth, 0)`. */
    method PutRight(node: Node, index: nat, depth: nat) returns (fault: Option<Fault>)
      requires node.Valid() && index < |list| && InRange(node.model, |list|)
      modifies node.Repr
      ensures fault.Some? ==> Insert(list, wordLen, old(node.model).right, index, depth, 0) == Err(fault.value)
      ensures fault.None? ==>
        && node.Valid() && fresh(node.Repr - old(node.Repr))
        && Insert(list, wordLen, old(node.model).right, index, depth, 0) == Ok(node.model.right)
        && node.model == old(node.model).(right := node.model.right)
      decreases node.Repr, 0
    {
      var rt;
      rt, fault := PutNode(node.right, index, depth, 0);
      if fault.None? {
        node.right, node.Repr, node.model := rt, node.Repr + rt.Repr, node.model.(right := rt.model);
      }
    }

    /** The branch `node.mid = put(node.mid, index, depth + 1, limiter + 1)`. */
    method PutMid(node: Node, index: nat, depth: nat, limiter: nat) returns (fault: Option<Fault>)
      requires node.Valid() && index < |list| && InRange(node.model, |list|)
      modifies node.Repr
      ensures fault.Some? ==> Insert(list, wordLen, old(node.model).mid, index, depth + 1, limiter + 1) == Err(fault.value)
      ensures fault.None? ==>
        && node.Valid() && fresh(node.Repr - old(node.Repr))
        && Insert(list, wordLen, old(node.model).mid, index, depth + 1, limiter + 1) == Ok(node.model.mid)
        && node.model == old(node.model).(mid := node.model.mid)
      decreases node.Repr, 0
    {
      var m;
      m, fault := PutNode(node.mid, index, depth + 1, limiter + 1);
      if fault.None? {
        node.mid, node.Repr, node.model := m, node.Repr + m.Repr, node.model.(mid := m.model);
      }
    }

    /**
      `extend(parent, depth)`: a fresh vertex keyed by character `depth` of the parent's
      first entry takes over the parent's entries, and the parent's entries become null.
      The character is read before anything changes, so a fault leaves the parent as it was.
     */
    method Extend(parent: Node, depth: nat) returns (extension: Node?, fault: Option<Fault>)
      requires |parent.entries| > 0 && parent.entries[0] < |list|
      modifies parent`entries
      ensures fault.Some? <==> |list[old(parent.entries)[0]]| <= depth
      ensures fault.Some? ==> fault.value == CharOutOfRange(old(parent.entries)[0], depth) && parent.entries == old(parent.entries)
      ensures fault.None? ==>
        && extension != null && fresh(extension) && extension.Valid() && extension.Repr == {extension}
        && extension.character == list[old(parent.entries)[0]][depth]
        && extension.entries == old(parent.entries)
        && extension.left == null && extension.mid == null && extension.right == null
        && extension.model == Vertex(extension.character, Nil, Nil, Nil, extension.entries)
        && parent.entries == []
    {
      var c := CharAt(list, parent.entries[0], depth);
      if c.Err? {
        return null, Some(c.fault);
      }
      extension := new Node(c.value);
      extension.entries := parent.entries;
      extension.model := extension.model.(entries := parent.entries);
      parent.entries := [];
      fault := None;
    }

    /**
      `getSorted`: a zero-filled array with one slot per string, filled from the front, in
      the order `collect` visits the vertices, with `count` advanced past the last index.
     */
    method GetSorted()
      requires Valid() && |InOrder(ModelOf(root))| <= |list|
      modifies this`sortedIndices, this`count
      ensures Valid() && ModelOf(root) == old(ModelOf(root))
      ensures fresh(sortedIndices) && sortedIndices.Length == |list|
      ensures count == |InOrder(ModelOf(root))| <= |list|
      ensures sortedIndices[..] == InOrder(ModelOf(root)) + Zeros(|list| - count)
    {
      sortedIndices := new int[|list|](_ => 0);
      assert sortedIndices[..] == Zeros(|list|);
      count := 0;
      var order := Collect(root);
      CollectEntries(order);
      WrittenFront(|list|, order);
    }

    /**
      `collect(node)`: the indices of the subtrie in the order `collect` appends them
      (left subtrie, the vertex's own entries, mid subtrie, right subtrie).
     */
    method Collect(node: Node?) returns (order: seq<nat>)
      requires node != null ==> node.Valid()
      ensures order == InOrder(ModelOf(node))
      decreases Foot(node)
    {
      if node == null {
        return [];
      }
      var l := Collect(node.left);
      var m := Collect(node.mid);
      var r := Collect(node.right);
      order := l + node.entries + m + r;
    }

    /**
      The writes of `collect`: the collected indices go into `sortedIndices` slot by slot
      from `count` on, advancing `count` past each one, as the `for` loop of `collect` does.
     */
    method CollectEntries(es: seq<nat>)
      requires count + |es| <= sortedIndices.Length
      modifies this`count, sortedIndices
      ensures count == old(count) + |es|
      ensures sortedIndices[..] == Written(old(sortedIndices[..]), old(count), es)
    {
      var i := 0;
      while i < |es|
        invariant 0 <= i <= |es| && count == old(count) + i
        invariant sortedIndices[..] == Written(old(sortedIndices[..]), old(count), es[..i])
      {
        ghost var before := sortedIndices[..];
        sortedIndices[count] := es[i];
        assert sortedIndices[..] == Written(before, count, [es[i]]);
        WrittenTwice(old(sortedIndices[..]), old(count), es[..i], [es[i]]);
        assert es[..i + 1] == es[..i] + [es[i]];
        count := count + 1;
        i := i + 1;
      }
      assert es[..i] == es;
    }
  }
}
