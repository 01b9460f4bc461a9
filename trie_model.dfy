/**
  The value-level semantics of the character-lazy ternary trie of TernaryTrieSort.java.

  A trie is a `Tree`: a `Vertex` holds the character it stands for at its depth, the
  three links `left`/`right` (other characters at the same depth) and `mid` (the next
  depth) and the indices parked at it. The Java field `entries` is either null or a
  non-empty array; the empty sequence stands for null here.

  `Insert` is `put(Node, int, int, int)`, `Extension` is `extend`, `InOrder` is the
  order in which `collect` writes `sortedIndices`, and `Build` is the insertion loop of
  the constructor. The heap classes in module TrieSorter are proved against these.
 */
module TrieModel {

  /** The IllegalArgumentException thrown by `getCharAt`: position `pos` of string `index` was read. */
  datatype Fault = CharOutOfRange(index: nat, pos: nat)

  datatype Result<T> = Ok(value: T) | Err(fault: Fault)

  datatype Option<T> = None | Some(value: T)

  datatype Tree =
    | Nil
    | Vertex(character: char, left: Tree, mid: Tree, right: Tree, entries: seq<nat>)

  /** `getCharAt`: character `pos` of string `index`, or the fault when the string is too short. */
  function CharAt(list: seq<string>, index: nat, pos: nat): (r: Result<char>)
    requires index < |list|
    ensures r.Ok? <==> pos < |list[index]|
    ensures r.Ok? ==> r.value == list[index][pos]
    ensures r.Err? ==> r.fault == CharOutOfRange(index, pos)
  {
    if pos < |list[index]| then Ok(list[index][pos]) else Err(CharOutOfRange(index, pos))
  }

  /** Every index parked anywhere in `t`, with multiplicity, regardless of order. */
  function Stored(t: Tree): multiset<nat> {
    match t
    case Nil => multiset{}
    case Vertex(_, l, m, r, e) => Stored(l) + multiset(e) + Stored(m) + Stored(r)
  }

  /** Every stored index names a string of a collection of `n` strings. */
  predicate InRange(t: Tree, n: nat) {
    match t
    case Nil => true
    case Vertex(_, l, m, r, e) =>
      InRange(l, n) && (forall k :: 0 <= k < |e| ==> e[k] < n) && InRange(m, n) && InRange(r, n)
  }

  /** No index is stored twice. */
  predicate NoDuplicates(t: Tree) {
    forall e :: e in Stored(t) ==> Stored(t)[e] <= 1
  }

  /** The characters of the vertices reachable from `t` through `left`/`right` links only, i.e. at one depth. */
  function Level(t: Tree): set<char> {
    match t
    case Nil => {}
    case Vertex(c, l, _, r, _) => Level(l) + {c} + Level(r)
  }

  /** Binary-search-tree order at every depth: `left` holds smaller, `right` larger characters. */
  predicate Ordered(t: Tree) {
    match t
    case Nil => true
    case Vertex(c, l, m, r, _) =>
      (forall x :: x in Level(l) ==> x < c) &&
      (forall x :: x in Level(r) ==> c < x) &&
      Ordered(l) && Ordered(m) && Ordered(r)
  }

  /** The number of depths the trie spans: a `mid` link goes one depth down. */
  function Height(t: Tree): nat {
    match t
    case Nil => 0
    case Vertex(_, l, m, r, _) => Max(Max(Height(l), 1 + Height(m)), Height(r))
  }

  function Max(a: nat, b: nat): nat {
    if a < b then b else a
  }

  /**
    `extend(parent, depth)`: a fresh vertex keyed by character `depth` of the parent's
    first entry, holding the parent's entries, and the parent with its entries cleared.
   */
  function Extension(list: seq<string>, parent: Tree, depth: nat): (r: Result<(Tree, Tree)>)
    requires parent.Vertex? && |parent.entries| > 0 && parent.entries[0] < |list|
    ensures r.Ok? <==> depth < |list[parent.entries[0]]|
    ensures r.Err? ==> r.fault == CharOutOfRange(parent.entries[0], depth)
    ensures r.Ok? ==> var (p, x) := r.value;
      && x == Vertex(list[parent.entries[0]][depth], Nil, Nil, Nil, parent.entries)
      && p == parent.(entries := [])
      && Stored(p) + Stored(x) == Stored(parent)
  {
    match CharAt(list, parent.entries[0], depth)
    case Err(f) => Err(f)
    case Ok(c) => Ok((parent.(entries := []), Vertex(c, Nil, Nil, Nil, parent.entries)))
  }

  /**
    `put(node, index, depth, limiter)` with `wordLen` the length of the string being
    inserted, exactly as written: a vertex created for a null link does not record
    `index`, and the extension branch neither places `index` nor keeps the old `mid`.
   */
  function Insert(list: seq<string>, wordLen: nat, t: Tree, index: nat, depth: nat, limiter: nat): (r: Result<Tree>)
    requires index < |list| && InRange(t, |list|)
    ensures r.Ok? ==> r.value.Vertex?
    decreases t
  {
    match CharAt(list, index, depth)
    case Err(f) => Err(f)
    case Ok(ch) =>
      if t.Nil? then
        Ok(Vertex(ch, Nil, Nil, Nil, []))
      else if ch < t.character then
        match Insert(list, wordLen, t.left, index, depth, 0)
        case Err(f) => Err(f)
        case Ok(l) => Ok(t.(left := l))
      else if ch > t.character then
        match Insert(list, wordLen, t.right, index, depth, 0)
        case Err(f) => Err(f)
        case Ok(r) => Ok(t.(right := r))
      else if |t.entries| > 0 && depth < wordLen - 1 then
        match Extension(list, t, depth + 1)
        case Err(f) => Err(f)
        case Ok((p, x)) => Ok(p.(mid := x))
      else if (limiter > 0 && t.mid.Nil?) || depth == wordLen - 1 then
        Ok(t.(entries := t.entries + [index]))
      else
        match Insert(list, wordLen, t.mid, index, depth + 1, limiter + 1)
        case Err(f) => Err(f)
        case Ok(m) => Ok(t.(mid := m))
  }

  /** The constructor's loop: strings `0 .. n-1` inserted in turn from an empty trie, each with its own length as `wordLen`. */
  function Build(list: seq<string>, n: nat): (r: Result<Tree>)
    requires n <= |list|
    ensures r.Ok? ==> InRange(r.value, n)
  {
    if n == 0 then Ok(Nil)
    else
      match Build(list, n - 1)
      case Err(f) => Err(f)
      case Ok(t) =>
        InRangeWeaken(t, n - 1, n);
        InsertInRange(list, |list[n - 1]|, t, n - 1, 0, 0, n);
        Insert(list, |list[n - 1]|, t, n - 1, 0, 0)
  }

  /** The order of `collect`: `left`, then the vertex's entries as stored, then `mid`, then `right`. */
  function InOrder(t: Tree): seq<nat> {
    match t
    case Nil => []
    case Vertex(_, l, m, r, e) => InOrder(l) + e + InOrder(m) + InOrder(r)
  }

  // ---------------------------------------------------------------------------
  // Properties of one insertion

  /** A bound on the stored indices holds for every larger bound too. */
  lemma {:induction false} InRangeWeaken(t: Tree, n: nat, m: nat)
    requires InRange(t, n) && n <= m
    ensures InRange(t, m)
  {
    if t.Vertex? {
      InRangeWeaken(t.left, n, m);
      InRangeWeaken(t.mid, n, m);
      InRangeWeaken(t.right, n, m);
    }
  }

  /** The structural bound speaks of every stored index. */
  lemma {:induction false} InRangeStored(t: Tree, n: nat)
    requires InRange(t, n)
    ensures forall e :: e in Stored(t) ==> e < n
  {
    if t.Vertex? {
      InRangeStored(t.left, n);
      InRangeStored(t.mid, n);
      InRangeStored(t.right, n);
      assert forall e :: e in multiset(t.entries) ==> e < n by {
        forall e | e in multiset(t.entries) ensures e < n {
          var k :| 0 <= k < |t.entries| && t.entries[k] == e;
        }
      }
    }
  }

  /** When the inserted index is below `n`, insertion keeps every stored index below `n`. */
  lemma {:induction false} InsertInRange(list: seq<string>, wordLen: nat, t: Tree, index: nat, depth: nat, limiter: nat, n: nat)
    requires index < n <= |list| && InRange(t, n)
    ensures InRange(t, |list|)
    ensures var r := Insert(list, wordLen, t, index, depth, limiter);
      r.Ok? ==> InRange(r.value, n)
    decreases t
  {
    InRangeWeaken(t, n, |list|);
    if t.Vertex? && depth < |list[index]| {
      var ch := list[index][depth];
      if ch < t.character {
        InsertInRange(list, wordLen, t.left, index, depth, 0, n);
      } else if ch > t.character {
        InsertInRange(list, wordLen, t.right, index, depth, 0, n);
      } else if |t.entries| > 0 && depth < wordLen - 1 {
      } else if (limiter > 0 && t.mid.Nil?) || depth == wordLen - 1 {
        var e := t.entries + [index];
        assert forall k :: 0 <= k < |e| ==> e[k] < n;
      } else {
        InsertInRange(list, wordLen, t.mid, index, depth + 1, limiter + 1, n);
      }
    }
  }

  /**
    Insertion parks `index` at most once and moves, never copies, the entries it touches:
    what is stored afterwards is contained in what was stored before plus `index`.
   */
  lemma {:induction false} InsertStored(list: seq<string>, wordLen: nat, t: Tree, index: nat, depth: nat, limiter: nat)
    requires index < |list| && InRange(t, |list|)
    requires Insert(list, wordLen, t, index, depth, limiter).Ok?
    ensures Stored(Insert(list, wordLen, t, index, depth, limiter).value) <= Stored(t) + multiset{index}
    decreases t
  {
    var ch := list[index][depth];
    if t.Vertex? {
      if ch < t.character {
        InsertStored(list, wordLen, t.left, index, depth, 0);
      } else if ch > t.character {
        InsertStored(list, wordLen, t.right, index, depth, 0);
      } else if |t.entries| > 0 && depth < wordLen - 1 {
      } else if (limiter > 0 && t.mid.Nil?) || depth == wordLen - 1 {
      } else {
        InsertStored(list, wordLen, t.mid, index, depth + 1, limiter + 1);
      }
    }
  }

  /** Insertion adds the inserted string's character at `depth` to the level it enters, and nothing else. */
  lemma {:induction false} InsertLevel(list: seq<string>, wordLen: nat, t: Tree, index: nat, depth: nat, limiter: nat)
    requires index < |list| && InRange(t, |list|)
    requires Insert(list, wordLen, t, index, depth, limiter).Ok?
    ensures depth < |list[index]|
    ensures Level(Insert(list, wordLen, t, index, depth, limiter).value) == Level(t) + {list[index][depth]}
    decreases t
  {
    var ch := list[index][depth];
    if t.Vertex? {
      if ch < t.character {
        InsertLevel(list, wordLen, t.left, index, depth, 0);
      } else if ch > t.character {
        InsertLevel(list, wordLen, t.right, index, depth, 0);
      }
    }
  }

  /** Insertion keeps the binary-search-tree order at every depth. */
  lemma {:induction false} InsertOrdered(list: seq<string>, wordLen: nat, t: Tree, index: nat, depth: nat, limiter: nat)
    requires index < |list| && InRange(t, |list|) && Ordered(t)
    requires Insert(list, wordLen, t, index, depth, limiter).Ok?
    ensures Ordered(Insert(list, wordLen, t, index, depth, limiter).value)
    decreases t
  {
    var ch := list[index][depth];
    InsertLevel(list, wordLen, t, index, depth, limiter);
    if t.Vertex? {
      if ch < t.character {
        InsertOrdered(list, wordLen, t.left, index, depth, 0);
        InsertLevel(list, wordLen, t.left, index, depth, 0);
      } else if ch > t.character {
        InsertOrdered(list, wordLen, t.right, index, depth, 0);
        InsertLevel(list, wordLen, t.right, index, depth, 0);
      } else if |t.entries| > 0 && depth < wordLen - 1 {
      } else if (limiter > 0 && t.mid.Nil?) || depth == wordLen - 1 {
      } else {
        InsertOrdered(list, wordLen, t.mid, index, depth + 1, limiter + 1);
      }
    }
  }

  /**
    Insertion alters the trie along one search path only: the vertex keeps its character,
    and exactly one of `left`, `right`, or the pair `mid`/`entries` may differ.
    A null link becomes a vertex that holds no entry and no children.
   */
  lemma InsertOnePath(list: seq<string>, wordLen: nat, t: Tree, index: nat, depth: nat, limiter: nat)
    requires index < |list| && InRange(t, |list|)
    requires Insert(list, wordLen, t, index, depth, limiter).Ok?
    ensures var r := Insert(list, wordLen, t, index, depth, limiter).value;
      && r.Vertex?
      && (t.Nil? ==> r == Vertex(list[index][depth], Nil, Nil, Nil, []))
      && (t.Vertex? ==>
            && r.character == t.character
            && (r.left != t.left ==> r.right == t.right && r.mid == t.mid && r.entries == t.entries)
            && (r.right != t.right ==> r.left == t.left && r.mid == t.mid && r.entries == t.entries)
            && (r.mid != t.mid || r.entries != t.entries ==> r.left == t.left && r.right == t.right))
  {
  }

  /**
    Inserting string `index` with `wordLen` its own length never reads past its end:
    the recursion only descends a `mid` link while `depth < wordLen - 1`, so a fault
    can only come from `extend` reading a different, shorter string.
   */
  lemma {:induction false} InsertDepthSafe(list: seq<string>, t: Tree, index: nat, depth: nat, limiter: nat)
    requires index < |list| && InRange(t, |list|)
    requires depth < |list[index]|
    ensures var r := Insert(list, |list[index]|, t, index, depth, limiter);
      r.Err? ==> r.fault.index != index
    decreases t
  {
    var w := |list[index]|;
    var ch := list[index][depth];
    if t.Vertex? {
      if ch < t.character {
        InsertDepthSafe(list, t.left, index, depth, 0);
      } else if ch > t.character {
        InsertDepthSafe(list, t.right, index, depth, 0);
      } else if |t.entries| > 0 && depth < w - 1 {
      } else if (limiter > 0 && t.mid.Nil?) || depth == w - 1 {
      } else {
        InsertDepthSafe(list, t.mid, index, depth + 1, limiter + 1);
      }
    }
  }

  /** When every string has the same length `w`, an insertion at a depth below `w` never faults. */
  lemma {:induction false} InsertTotal(list: seq<string>, w: nat, t: Tree, index: nat, depth: nat, limiter: nat)
    requires forall i :: 0 <= i < |list| ==> |list[i]| == w
    requires index < |list| && InRange(t, |list|) && depth < w
    ensures Insert(list, w, t, index, depth, limiter).Ok?
    decreases t
  {
    var ch := list[index][depth];
    if t.Vertex? {
      if ch < t.character {
        InsertTotal(list, w, t.left, index, depth, 0);
      } else if ch > t.character {
        InsertTotal(list, w, t.right, index, depth, 0);
      } else if |t.entries| > 0 && depth < w - 1 {
      } else if (limiter > 0 && t.mid.Nil?) || depth == w - 1 {
      } else {
        InsertTotal(list, w, t.mid, index, depth + 1, limiter + 1);
      }
    }
  }

  /** An insertion at `depth` of a string of length `wordLen` deepens the trie to at most `wordLen - depth` levels. */
  lemma {:induction false} InsertHeight(list: seq<string>, t: Tree, index: nat, depth: nat, limiter: nat)
    requires index < |list| && InRange(t, |list|)
    requires Insert(list, |list[index]|, t, index, depth, limiter).Ok?
    ensures depth < |list[index]|
    ensures Height(Insert(list, |list[index]|, t, index, depth, limiter).value) <= Max(Height(t), |list[index]| - depth)
    decreases t
  {
    var w := |list[index]|;
    var ch := list[index][depth];
    if t.Vertex? {
      if ch < t.character {
        InsertHeight(list, t.left, index, depth, 0);
      } else if ch > t.character {
        InsertHeight(list, t.right, index, depth, 0);
      } else if |t.entries| > 0 && depth < w - 1 {
        var (p, x) := Extension(list, t, depth + 1).value;
        assert Height(x) == 1;
        assert Height(p.(mid := x)) <= Max(Height(t), 2);
      } else if (limiter > 0 && t.mid.Nil?) || depth == w - 1 {
      } else {
        InsertHeight(list, t.mid, index, depth + 1, limiter + 1);
      }
    }
  }

  // ---------------------------------------------------------------------------
  // Properties of the whole insertion loop

  /** Once the loop has faulted, it stays faulted with the same fault. */
  lemma {:induction false} BuildFaultPersists(list: seq<string>, n: nat, m: nat)
    requires n <= m <= |list| && Build(list, n).Err?
    ensures Build(list, m) == Build(list, n)
    decreases m
  {
    if m > n {
      BuildFaultPersists(list, n, m - 1);
    }
  }

  /** After inserting strings `0 .. n-1` the binary-search-tree order holds at every depth. */
  lemma {:induction false} BuildOrdered(list: seq<string>, n: nat)
    requires n <= |list| && Build(list, n).Ok?
    ensures Ordered(Build(list, n).value)
  {
    if n > 0 {
      BuildOrdered(list, n - 1);
      var t := Build(list, n - 1).value;
      InRangeWeaken(t, n - 1, |list|);
      InsertOrdered(list, |list[n - 1]|, t, n - 1, 0, 0);
    }
  }

  /**
    After inserting strings `0 .. n-1` each stored index is one of them and is stored
    once, so at most `n` indices are stored in all.
   */
  lemma {:induction false} BuildNoDuplicates(list: seq<string>, n: nat)
    requires n <= |list| && Build(list, n).Ok?
    ensures var t := Build(list, n).value;
      NoDuplicates(t) && InRange(t, n) && |Stored(t)| <= n
  {
    if n > 0 {
      var i := n - 1;
      BuildNoDuplicates(list, i);
      var t := Build(list, i).value;
      var t' := Build(list, n).value;
      InRangeWeaken(t, i, |list|);
      InRangeStored(t, i);
      InsertStored(list, |list[i]|, t, i, 0, 0);
      InRangeWeaken(t, i, n);
      InsertInRange(list, |list[i]|, t, i, 0, 0, n);
      AddFresh(Stored(t'), Stored(t), i);
    }
  }

  /** A multiset within a duplicate-free one plus a fresh element is duplicate-free and at most one larger. */
  lemma AddFresh(a: multiset<nat>, b: multiset<nat>, i: nat)
    requires a <= b + multiset{i} && i !in b
    requires forall e :: e in b ==> b[e] <= 1
    ensures forall e :: e in a ==> a[e] <= 1
    ensures |a| <= |b| + 1
  {
    var c := b + multiset{i};
    forall e | e in a ensures a[e] <= 1 {
      assert a[e] <= c[e];
    }
    assert c == a + (c - a);
    assert |c| == |a| + |c - a|;
    assert |c| == |b| + 1;
  }

  /** With strings all of one length `w > 0`, the whole loop runs without a fault. */
  lemma {:induction false} BuildTotal(list: seq<string>, w: nat, n: nat)
    requires forall i :: 0 <= i < |list| ==> |list[i]| == w
    requires 0 < w && n <= |list|
    ensures Build(list, n).Ok?
  {
    if n > 0 {
      BuildTotal(list, w, n - 1);
      InRangeWeaken(Build(list, n - 1).value, n - 1, |list|);
      InsertTotal(list, w, Build(list, n - 1).value, n - 1, 0, 0);
    }
  }

  /** With strings all of one length `w`, the trie never spans more than `w` depths. */
  lemma {:induction false} BuildHeight(list: seq<string>, w: nat, n: nat)
    requires forall i :: 0 <= i < |list| ==> |list[i]| == w
    requires n <= |list| && Build(list, n).Ok?
    ensures Height(Build(list, n).value) <= w
  {
    if n > 0 {
      BuildHeight(list, w, n - 1);
      InRangeWeaken(Build(list, n - 1).value, n - 1, |list|);
      InsertHeight(list, Build(list, n - 1).value, n - 1, 0, 0);
    }
  }

  // ---------------------------------------------------------------------------
  // Properties of the traversal

  /** The traversal emits every stored index exactly as often as it is stored. */
  lemma {:induction false} InOrderStored(t: Tree)
    ensures multiset(InOrder(t)) == Stored(t)
    ensures |InOrder(t)| == |Stored(t)|
  {
    match t
    case Nil =>
    case Vertex(_, l, m, r, e) =>
      InOrderStored(l);
      InOrderStored(m);
      InOrderStored(r);
      assert InOrder(t) == InOrder(l) + e + InOrder(m) + InOrder(r);
  }

  /**
    The indices the constructor writes into `sortedIndices` (before the untouched zero
    tail) are distinct names of input strings, at most one per string.
   */
  lemma SortedIndicesDistinct(list: seq<string>)
    requires Build(list, |list|).Ok?
    ensures var s := InOrder(Build(list, |list|).value);
      && |s| <= |list|
      && (forall k :: 0 <= k < |s| ==> s[k] < |list|)
      && (forall j, k :: 0 <= j < k < |s| ==> s[j] != s[k])
  {
    var t := Build(list, |list|).value;
    BuildNoDuplicates(list, |list|);
    InOrderStored(t);
    InRangeStored(t, |list|);
    SeqFromMultiset(InOrder(t), |list|);
  }

  /** A sequence whose multiset has no element twice and only elements below `n` has distinct elements below `n`. */
  lemma SeqFromMultiset(s: seq<nat>, n: nat)
    requires forall e :: e in multiset(s) ==> multiset(s)[e] <= 1 && e < n
    ensures forall k :: 0 <= k < |s| ==> s[k] < n
    ensures forall j, k :: 0 <= j < k < |s| ==> s[j] != s[k]
  {
    forall k | 0 <= k < |s| ensures s[k] < n {
      assert s[k] in multiset(s);
    }
    forall j, k | 0 <= j < k < |s| ensures s[j] != s[k] {
      RepeatedTwice(s, j, k);
    }
  }

  lemma RepeatedTwice(s: seq<nat>, j: nat, k: nat)
    requires j < k < |s|
    ensures s[j] == s[k] ==> multiset(s)[s[j]] >= 2
  {
    assert s == s[..j] + [s[j]] + s[j + 1..k] + [s[k]] + s[k + 1..];
  }

  // ---------------------------------------------------------------------------
  // What the loop does on small collections, as written

  /** A single string is placed in a fresh vertex that does not record it: nothing is stored. */
  lemma SingleStringNotStored()
    ensures Build(["x"], 1) == Ok(Vertex('x', Nil, Nil, Nil, []))
  {
  }

  /**
    A one-character string parked at the root makes `extend` fault on it when a longer
    string with the same first character arrives.
   */
  lemma ShorterStoredStringFaults()
    ensures Build(["a", "a", "ab"], 3) == Err(CharOutOfRange(1, 1))
  {
  }

  /**
    A string parked by the limiter before its last character does not make `extend` fault:
    `"aab"` is parked at depth 1, and `"aabb"` moves it one depth down by reading its
    character at depth 2.
   */
  lemma LimiterParkedExtends()
    ensures Build(["aaa", "aaa", "aab", "aabb"], 4).Ok?
  {
  }

  /**
    `["aa", "ab", "aa"]`: no index is ever parked, so nothing is collected (the intended
    order `[0, 2, 1]` is not produced).
   */
  lemma RepeatedPairNotStored()
    ensures Build(["aa", "ab", "aa"], 3) ==
      Ok(Vertex('a', Nil, Vertex('b', Vertex('a', Nil, Nil, Nil, []), Nil, Nil, []), Nil, []))
    ensures InOrder(Build(["aa", "ab", "aa"], 3).value) == []
  {
  }

  /**
    `["ab", "a"]`: the shorter string is parked at the root and nothing faults (no
    `IllegalArgumentException` is raised); the longer one is not recorded.
   */
  lemma PrefixAfterLongerStored()
    ensures Build(["ab", "a"], 2) == Ok(Vertex('a', Nil, Nil, Nil, [1]))
  {
    var list := ["ab", "a"];
    var root := Vertex('a', Nil, Nil, Nil, []);
    assert Build(list, 1) == Ok(root);
    assert |list[1]| == 1 && CharAt(list, 1, 0) == Ok('a');
    assert root.(entries := root.entries + [1]) == Vertex('a', Nil, Nil, Nil, [1]);
    assert Insert(list, 1, root, 1, 0, 0) == Ok(Vertex('a', Nil, Nil, Nil, [1]));
  }
}
