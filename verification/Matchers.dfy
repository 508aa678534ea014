/**
 * Searching a text for many byte patterns at once, with the automaton of Aho and Corasick:
 * built once from the patterns, it reads a text in a single pass and never goes back.
 */
module Matchers {
  import opened Wrappers
  import opened ByteStrings

  datatype Edge = Edge(byte: Byte, child: nat)

  /** A node: its children in byte order, where to go on when none of them fits, and whether some
      pattern has just been read in full on arriving here. */
  datatype Node = Node(next: seq<Edge>, fail: nat, end: bool)

  const EMPTY_NODE := Node([], 0, false)

  datatype Matcher = Matcher(nodes: seq<Node>)

  /** What the nodes mean: the path from the root to each node, and each node's parent. */
  datatype Shape = Shape(paths: seq<Bytes>, parent: seq<nat>)

  // ---------------------------------------------------------------- the trie

  ghost predicate Sorted(next: seq<Edge>) {
    forall i, j | 0 <= i < j < |next| :: next[i].byte < next[j].byte
  }

  /** Binary search by key: the position of `byte`, or where it would be inserted. */
  function Slot(next: seq<Edge>, byte: Byte, lo: nat, hi: nat): (slot: nat)
    requires lo <= hi <= |next| && Sorted(next)
    requires forall i | 0 <= i < lo :: next[i].byte < byte
    requires forall i | hi <= i < |next| :: byte <= next[i].byte
    ensures slot <= |next|
    ensures forall i | 0 <= i < slot :: next[i].byte < byte
    ensures forall i | slot <= i < |next| :: byte <= next[i].byte
    decreases hi - lo
  {
    if lo == hi then lo
    else
      var mid := (lo + hi) / 2;
      if next[mid].byte < byte then Slot(next, byte, mid + 1, hi) else Slot(next, byte, lo, mid)
  }

  function Child(nodes: seq<Node>, at: nat, byte: Byte): (child: Option<nat>)
    requires at < |nodes| && Sorted(nodes[at].next)
    ensures child.Some? ==> Edge(byte, child.value) in nodes[at].next
    ensures child.None? ==> forall e | e in nodes[at].next :: e.byte != byte
  {
    var next := nodes[at].next;
    var slot := Slot(next, byte, 0, |next|);
    if slot < |next| && next[slot].byte == byte then Some(next[slot].child) else None
  }

  ghost predicate IsChild(nodes: seq<Node>, g: Shape, at: nat, byte: Byte, child: nat)
    requires at < |nodes| == |g.paths| == |g.parent|
  {
    0 < child < |nodes| && g.parent[child] == at && g.paths[child] == g.paths[at] + [byte]
  }

  ghost predicate IsTrie(nodes: seq<Node>, g: Shape) {
    && |nodes| == |g.paths| == |g.parent| > 0
    && g.paths[0] == []
    && (forall i {:trigger Sorted(nodes[i].next)} | 0 <= i < |nodes| :: Sorted(nodes[i].next))
    && (forall i, e | 0 <= i < |nodes| && e in nodes[i].next :: IsChild(nodes, g, i, e.byte, e.child))
    && (forall c {:trigger HasParent(nodes, g, c)} | 0 < c < |nodes| :: HasParent(nodes, g, c))
    && (forall i, j {:trigger SamePath(g, i, j)} | 0 <= i < |nodes| && 0 <= j < |nodes| ::
          SamePath(g, i, j) ==> i == j)
  }

  ghost predicate SamePath(g: Shape, i: nat, j: nat)
    requires i < |g.paths| && j < |g.paths|
  {
    g.paths[i] == g.paths[j]
  }

  ghost predicate HasParent(nodes: seq<Node>, g: Shape, c: nat)
    requires 0 < c < |nodes| == |g.paths| == |g.parent|
  {
    && g.parent[c] < |nodes|
    && g.paths[c] != []
    && g.paths[c] == g.paths[g.parent[c]] + [g.paths[c][|g.paths[c]| - 1]]
    && Edge(g.paths[c][|g.paths[c]| - 1], c) in nodes[g.parent[c]].next
  }

  /** A word the trie holds: a prefix of some pattern (the empty word always). */
  ghost predicate IsTriePath(patterns: seq<Bytes>, w: Bytes) {
    w == [] || exists k | 0 <= k < |patterns| :: w <= patterns[k]
  }

  /** In a trie, a child by `byte` is the node of the extended path. */
  lemma ChildOfPath(nodes: seq<Node>, g: Shape, at: nat, byte: Byte)
    requires IsTrie(nodes, g) && at < |nodes|
    ensures Child(nodes, at, byte).Some? ==> IsChild(nodes, g, at, byte, Child(nodes, at, byte).value)
    ensures Child(nodes, at, byte).None? ==> g.paths[at] + [byte] !in g.paths
  {
    var w := g.paths[at] + [byte];
    forall j | 0 <= j < |nodes| && g.paths[j] == w
      ensures exists e :: e in nodes[at].next && e.byte == byte
    {
      assert HasParent(nodes, g, j);
      assert w[..|w| - 1] == g.paths[at] && SamePath(g, g.parent[j], at);
      assert Edge(byte, j) in nodes[at].next;
    }
  }

  /** Insertion at the slot of a missing key keeps the children sorted and adds just that child. */
  lemma InsertedChildren(next: seq<Edge>, slot: nat, kid: Edge)
    requires slot <= |next| && Sorted(next)
    requires forall i | 0 <= i < slot :: next[i].byte < kid.byte
    requires forall i | slot <= i < |next| :: kid.byte < next[i].byte
    ensures Sorted(next[..slot] + [kid] + next[slot..])
    ensures forall e :: e in next[..slot] + [kid] + next[slot..] <==> e in next || e == kid
  {
    assert next == next[..slot] + next[slot..];
  }

  /** Giving `at` one more child, the node appended last, keeps the trie a trie. */
  lemma GrownTrie(nodes: seq<Node>, g: Shape, at: nat, byte: Byte, grown: seq<Node>, g': Shape)
    requires IsTrie(nodes, g) && at < |nodes| && g.paths[at] + [byte] !in g.paths
    requires |grown| == |nodes| + 1
    requires g' == Shape(g.paths + [g.paths[at] + [byte]], g.parent + [at])
    requires forall i | 0 <= i < |nodes| && i != at :: grown[i].next == nodes[i].next
    requires Sorted(grown[at].next) && grown[|nodes|].next == []
    requires forall e :: e in grown[at].next <==> e in nodes[at].next || e == Edge(byte, |nodes|)
    ensures IsTrie(grown, g')
  {
    forall i, e | 0 <= i < |grown| && e in grown[i].next
      ensures IsChild(grown, g', i, e.byte, e.child)
    {
      if e != Edge(byte, |nodes|) {
        assert IsChild(nodes, g, i, e.byte, e.child);
      }
    }
    forall c | 0 < c < |grown|
      ensures HasParent(grown, g', c)
    {
      if c < |nodes| {
        assert HasParent(nodes, g, c);
      } else {
        assert g'.paths[c] == g'.paths[at] + [byte];
      }
    }
    forall i, j | 0 <= i < |grown| && 0 <= j < |grown| && SamePath(g', i, j)
      ensures i == j
    {
      assert i < |nodes| && j < |nodes| ==> SamePath(g, i, j);
    }
  }

  /** Grow the trie by one child. */
  method AddChild(nodes: seq<Node>, ghost g: Shape, at: nat, byte: Byte)
    returns (grown: seq<Node>, ghost g': Shape)
    requires IsTrie(nodes, g) && at < |nodes| && Child(nodes, at, byte).None?
    ensures IsTrie(grown, g') && |grown| == |nodes| + 1
    ensures g'.paths == g.paths + [g.paths[at] + [byte]]
    ensures grown[|nodes|] == EMPTY_NODE
    ensures forall i | 0 <= i < |nodes| :: grown[i].fail == nodes[i].fail && grown[i].end == nodes[i].end
  {
    var next := nodes[at].next;
    var slot := Slot(next, byte, 0, |next|);
    assert forall i | 0 <= i < |next| :: next[i] in next;
    InsertedChildren(next, slot, Edge(byte, |nodes|));
    grown := nodes + [EMPTY_NODE];
    grown := grown[at := nodes[at].(next := next[..slot] + [Edge(byte, |nodes|)] + next[slot..])];
    g' := Shape(g.paths + [g.paths[at] + [byte]], g.parent + [at]);
    ChildOfPath(nodes, g, at, byte);
    GrownTrie(nodes, g, at, byte, grown, g');
  }

  /** The nodes lie on paths of `all`; exactly the patterns of `done` are marked; nothing is linked. */
  ghost predicate Growing(nodes: seq<Node>, g: Shape, done: seq<Bytes>, all: seq<Bytes>)
    requires |nodes| == |g.paths|
  {
    && (forall i {:trigger IsTriePath(all, g.paths[i])} | 0 <= i < |nodes| :: IsTriePath(all, g.paths[i]))
    && (forall k | 0 <= k < |done| :: done[k] in g.paths)
    && (forall i | 0 <= i < |nodes| :: nodes[i].fail == 0 && (nodes[i].end <==> g.paths[i] in done))
  }

  lemma GrowingGrown(nodes: seq<Node>, g: Shape, done: seq<Bytes>, all: seq<Bytes>, w: Bytes,
                     grown: seq<Node>, g': Shape)
    requires |nodes| == |g.paths| && Growing(nodes, g, done, all)
    requires w !in g.paths && IsTriePath(all, w)
    requires |grown| == |nodes| + 1 && g'.paths == g.paths + [w] && grown[|nodes|] == EMPTY_NODE
    requires forall i | 0 <= i < |nodes| :: grown[i].fail == nodes[i].fail && grown[i].end == nodes[i].end
    ensures Growing(grown, g', done, all)
  {
  }

  lemma GrowingMore(nodes: seq<Node>, g: Shape, done: seq<Bytes>, all: seq<Bytes>)
    requires |nodes| == |g.paths| && Growing(nodes, g, done, done) && done <= all
    ensures Growing(nodes, g, done, all)
  {
    forall i | 0 <= i < |nodes|
      ensures IsTriePath(all, g.paths[i])
    {
      assert IsTriePath(done, g.paths[i]);
      assert forall k | 0 <= k < |done| :: all[k] == done[k];
    }
  }

  /** Only the children make a trie: links and marks are free. */
  lemma SameTrie(nodes: seq<Node>, nodes': seq<Node>, g: Shape)
    requires IsTrie(nodes, g) && |nodes'| == |nodes|
    requires forall i | 0 <= i < |nodes| :: nodes'[i].next == nodes[i].next
    ensures IsTrie(nodes', g)
  {
    forall i, e | 0 <= i < |nodes'| && e in nodes'[i].next
      ensures IsChild(nodes', g, i, e.byte, e.child)
    {
      assert IsChild(nodes, g, i, e.byte, e.child);
    }
    forall c | 0 < c < |nodes'|
      ensures HasParent(nodes', g, c)
    {
      assert HasParent(nodes, g, c);
    }
  }

  /** Marking the last pattern's node completes it. */
  lemma Marked(nodes: seq<Node>, g: Shape, done: seq<Bytes>, pattern: Bytes, at: nat, marked: seq<Node>)
    requires IsTrie(nodes, g) && Growing(nodes, g, done, done + [pattern])
    requires at < |nodes| && g.paths[at] == pattern
    requires marked == nodes[at := nodes[at].(end := true)]
    ensures IsTrie(marked, g) && Growing(marked, g, done + [pattern], done + [pattern])
  {
    SameTrie(nodes, marked, g);
    assert forall i | 0 <= i < |nodes| && g.paths[i] == pattern :: SamePath(g, i, at);
  }

  /** Walk one pattern down from the root, adding the nodes it lacks, and mark its end. */
  method Insert(nodes: seq<Node>, ghost g: Shape, ghost done: seq<Bytes>, pattern: Bytes)
    returns (grown: seq<Node>, ghost g': Shape)
    requires IsTrie(nodes, g) && Growing(nodes, g, done, done)
    ensures IsTrie(grown, g') && Growing(grown, g', done + [pattern], done + [pattern])
  {
    grown, g' := nodes, g;
    ghost var all := done + [pattern];
    GrowingMore(nodes, g, done, all);
    var at: nat := 0;
    for i := 0 to |pattern|
      invariant IsTrie(grown, g') && Growing(grown, g', done, all)
      invariant at < |grown| && g'.paths[at] == pattern[..i]
    {
      ChildOfPath(grown, g', at, pattern[i]);
      assert pattern[..i + 1] == pattern[..i] + [pattern[i]] <= all[|done|];
      assert IsTriePath(all, pattern[..i + 1]);
      var found := Child(grown, at, pattern[i]);
      match found
      case Some(child) => at := child;
      case None =>
        ghost var before, was := grown, g';
        grown, g' := AddChild(grown, g', at, pattern[i]);
        GrowingGrown(before, was, done, all, pattern[..i + 1], grown, g');
        at := |grown| - 1;
    }
    assert pattern[..|pattern|] == pattern;
    Marked(grown, g', done, pattern, at, grown[at := grown[at].(end := true)]);
    grown := grown[at := grown[at].(end := true)];
  }

  // ---------------------------------------------------------------- failure links

  /** The node of the longest suffix of `w` the trie holds. */
  ghost predicate LongestSuffix(g: Shape, w: Bytes, n: nat) {
    && n < |g.paths|
    && IsSuffix(g.paths[n], w)
    && forall j {:trigger IsSuffix(g.paths[j], w)} | 0 <= j < |g.paths| && IsSuffix(g.paths[j], w) ::
         |g.paths[j]| <= |g.paths[n]|
  }

  /** Node `i` is finished: it links to the longest path of a node that properly ends its own, and
      its mark tells whether some pattern ends its path. */
  ghost predicate Linked(nodes: seq<Node>, g: Shape, patterns: seq<Bytes>, i: nat)
    requires i < |nodes| == |g.paths|
  {
    && (g.paths[i] == [] ==> nodes[i].fail == 0)
    && (g.paths[i] != [] ==> LongestSuffix(g, g.paths[i][1..], nodes[i].fail))
    && (nodes[i].end <==> EndsWithAny(patterns, g.paths[i]))
  }

  /** A step of the search for the longest suffix of `w + [byte]`: it is a child of `link` or of
      a node below it on the failure chain. */
  ghost predicate Searching(g: Shape, w: Bytes, byte: Byte, link: nat) {
    && link < |g.paths|
    && IsSuffix(g.paths[link], w)
    && forall j {:trigger IsSuffix(g.paths[j], w + [byte])}
         | 0 <= j < |g.paths| && IsSuffix(g.paths[j], w + [byte]) ::
         |g.paths[j]| <= |g.paths[link]| + 1
  }

  /** The parent of a suffix of `w + [byte]` is a suffix of `w`, with a child by `byte`. */
  lemma ParentOfSuffix(nodes: seq<Node>, g: Shape, w: Bytes, byte: Byte, j: nat)
    requires IsTrie(nodes, g) && j < |nodes| && g.paths[j] != [] && IsSuffix(g.paths[j], w + [byte])
    ensures g.parent[j] < |nodes| && |g.paths[g.parent[j]]| == |g.paths[j]| - 1
    ensures IsSuffix(g.paths[g.parent[j]], w)
    ensures Child(nodes, g.parent[j], byte) == Some(j)
  {
    assert HasParent(nodes, g, j);
    SuffixOfSnoc(g.paths[j], w, byte);
    assert g.paths[j][..|g.paths[j]| - 1] == g.paths[g.parent[j]];
    ChildOfPath(nodes, g, g.parent[j], byte);
    assert SamePath(g, Child(nodes, g.parent[j], byte).value, j);
  }

  lemma SearchStarts(nodes: seq<Node>, g: Shape, w: Bytes, byte: Byte, link: nat)
    requires IsTrie(nodes, g) && LongestSuffix(g, w, link)
    ensures Searching(g, w, byte, link)
  {
    forall j | 0 <= j < |g.paths| && IsSuffix(g.paths[j], w + [byte])
      ensures |g.paths[j]| <= |g.paths[link]| + 1
    {
      if g.paths[j] != [] {
        ParentOfSuffix(nodes, g, w, byte, j);
      }
    }
  }

  lemma SearchHits(nodes: seq<Node>, g: Shape, w: Bytes, byte: Byte, link: nat)
    requires IsTrie(nodes, g) && Searching(g, w, byte, link) && Child(nodes, link, byte).Some?
    ensures LongestSuffix(g, w + [byte], Child(nodes, link, byte).value)
  {
    ChildOfPath(nodes, g, link, byte);
    var hit := g.paths[Child(nodes, link, byte).value];
    assert hit[..|hit| - 1] == g.paths[link];
    SuffixOfSnoc(hit, w, byte);
  }

  /** Without a child here, a longer match than the root's hangs below the failure link. */
  lemma SearchMisses(nodes: seq<Node>, g: Shape, w: Bytes, byte: Byte, link: nat, j: nat)
    requires IsTrie(nodes, g) && Searching(g, w, byte, link) && Child(nodes, link, byte).None?
    requires j < |nodes| && g.paths[j] != [] && IsSuffix(g.paths[j], w + [byte])
    ensures g.paths[link] != []
    ensures g.parent[j] < |nodes| && |g.paths[g.parent[j]]| == |g.paths[j]| - 1
    ensures IsSuffix(g.paths[g.parent[j]], g.paths[link][1..])
  {
    ParentOfSuffix(nodes, g, w, byte, j);
    var p := g.parent[j];
    SuffixesNest(g.paths[p], g.paths[link], w);
    assert |g.paths[p]| < |g.paths[link]| by {
      assert |g.paths[p]| == |g.paths[link]| ==> SamePath(g, p, link);
    }
    assert g.paths[link][1..][|g.paths[link]| - 1 - |g.paths[p]|..] == g.paths[link][|g.paths[link]| - |g.paths[p]|..];
  }

  lemma SearchClimbs(nodes: seq<Node>, g: Shape, w: Bytes, byte: Byte, link: nat, fail: nat)
    requires IsTrie(nodes, g) && Searching(g, w, byte, link) && Child(nodes, link, byte).None?
    requires g.paths[link] != [] && LongestSuffix(g, g.paths[link][1..], fail)
    ensures Searching(g, w, byte, fail) && |g.paths[fail]| < |g.paths[link]|
  {
    forall j | 0 <= j < |g.paths| && IsSuffix(g.paths[j], w + [byte])
      ensures |g.paths[j]| <= |g.paths[fail]| + 1
    {
      if g.paths[j] != [] {
        SearchMisses(nodes, g, w, byte, link, j);
      }
    }
    assert IsSuffix(g.paths[link][1..], g.paths[link]);
    SuffixTransitive(g.paths[link][1..], g.paths[link], w);
    SuffixTransitive(g.paths[fail], g.paths[link][1..], w);
  }

  lemma SearchEnds(nodes: seq<Node>, g: Shape, w: Bytes, byte: Byte)
    requires IsTrie(nodes, g) && Searching(g, w, byte, 0) && Child(nodes, 0, byte).None?
    ensures LongestSuffix(g, w + [byte], 0)
  {
    forall j | 0 <= j < |g.paths| && IsSuffix(g.paths[j], w + [byte])
      ensures g.paths[j] == []
    {
      if g.paths[j] != [] {
        SearchMisses(nodes, g, w, byte, 0, j);
      }
    }
  }

  /** Follow the failure links from `at` until one has a child by `byte`: the failure link of
      the child of `at` by `byte`. */
  method FailureOfChild(nodes: seq<Node>, ghost g: Shape, ghost patterns: seq<Bytes>, at: nat, byte: Byte)
    returns (fail: nat)
    requires IsTrie(nodes, g) && at < |nodes|
    requires forall i {:trigger Linked(nodes, g, patterns, i)}
      | 0 <= i < |nodes| && |g.paths[i]| <= |g.paths[at]| :: Linked(nodes, g, patterns, i)
    ensures g.paths[at] == [] ==> fail == 0
    ensures g.paths[at] != [] ==> LongestSuffix(g, g.paths[at][1..] + [byte], fail)
  {
    if at == 0 {
      return 0;
    }
    assert !SamePath(g, at, 0) && Linked(nodes, g, patterns, at);
    ghost var w := g.paths[at][1..];
    var link: nat := nodes[at].fail;
    SearchStarts(nodes, g, w, byte, link);
    while true
      invariant link < |nodes| && |g.paths[link]| <= |w| && Searching(g, w, byte, link)
      decreases |g.paths[link]|
    {
      var target := Child(nodes, link, byte);
      if target.Some? {
        SearchHits(nodes, g, w, byte, link);
        return target.value;
      }
      if link == 0 {
        SearchEnds(nodes, g, w, byte);
        return 0;
      }
      assert !SamePath(g, link, 0) && Linked(nodes, g, patterns, link);
      SearchClimbs(nodes, g, w, byte, link, nodes[link].fail);
      link := nodes[link].fail;
    }
  }

  // ---------------------------------------------------------------- breadth first

  /** The queue's history: `seen` are the nodes ever queued, in order; the first `head` are
      popped, and the one at `head` has queued its first `part` children. */
  ghost predicate Frontier(trie: seq<Node>, g: Shape, seen: seq<nat>, head: nat, part: nat)
    requires IsTrie(trie, g)
  {
    && head <= |seen| && 0 < |seen| && seen[0] == 0
    && (forall k | 0 <= k < |seen| :: seen[k] < |trie|)
    && (forall j, k {:trigger Ordered(g, seen, j, k)} | 0 <= j < k < |seen| :: Ordered(g, seen, j, k))
    && (forall k {:trigger Expanded(trie, seen, seen[k], |trie[seen[k]].next|)} | 0 <= k < head ::
          Expanded(trie, seen, seen[k], |trie[seen[k]].next|))
    && (head == |seen| ==> part == 0)
    && (head < |seen| ==>
          && part <= |trie[seen[head]].next|
          && Expanded(trie, seen, seen[head], part)
          && forall k | 0 <= k < |seen| :: Depth(g, seen[k]) <= Depth(g, seen[head]) + 1)
    && (forall k {:trigger Queued(trie, g, seen, head, part, seen[k])} | 0 < k < |seen| ::
          Queued(trie, g, seen, head, part, seen[k]))
  }

  /** A later node is another node, no less deep. */
  ghost predicate Ordered(g: Shape, seen: seq<nat>, j: nat, k: nat)
    requires j < |seen| && k < |seen|
  {
    seen[j] != seen[k] && Depth(g, seen[j]) <= Depth(g, seen[k])
  }

  ghost function Depth(g: Shape, n: nat): nat {
    if n < |g.paths| then |g.paths[n]| else 0
  }

  /** The first `part` children of `n` are queued. */
  ghost predicate Expanded(trie: seq<Node>, seen: seq<nat>, n: nat, part: nat)
    requires n < |trie| && part <= |trie[n].next|
  {
    forall m | 0 <= m < part :: trie[n].next[m].child in seen
  }

  /** `n` was queued by its parent, popped or being expanded. */
  ghost predicate Queued(trie: seq<Node>, g: Shape, seen: seq<nat>, head: nat, part: nat, n: nat)
    requires IsTrie(trie, g) && n < |trie| && head <= |seen|
    requires forall k | 0 <= k < |seen| :: seen[k] < |trie|
    requires head < |seen| ==> part <= |trie[seen[head]].next|
  {
    || g.parent[n] in seen[..head]
    || (head < |seen| && exists m | 0 <= m < part :: trie[seen[head]].next[m].child == n)
  }

  /** A node's children are different nodes, one deeper than it. */
  lemma ChildrenDiffer(trie: seq<Node>, g: Shape, n: nat, i: nat, j: nat)
    requires IsTrie(trie, g) && n < |trie| && i < j < |trie[n].next|
    ensures trie[n].next[i].child != trie[n].next[j].child
  {
    var a, b := trie[n].next[i], trie[n].next[j];
    assert a in trie[n].next && b in trie[n].next && Sorted(trie[n].next);
    assert IsChild(trie, g, n, a.byte, a.child) && IsChild(trie, g, n, b.byte, b.child);
    assert (g.paths[n] + [a.byte])[|g.paths[n]|] != (g.paths[n] + [b.byte])[|g.paths[n]|];
  }

  lemma FrontIsNew(trie: seq<Node>, g: Shape, seen: seq<nat>, head: nat, part: nat)
    requires IsTrie(trie, g) && Frontier(trie, g, seen, head, part) && head < |seen|
    ensures seen[head] !in seen[..head]
  {
    forall j | 0 <= j < head
      ensures seen[..head][j] != seen[head]
    {
      assert Ordered(g, seen, j, head);
    }
  }

  /** The next child is a node not queued before, one deeper than the front. */
  lemma NextChildIsNew(trie: seq<Node>, g: Shape, seen: seq<nat>, head: nat, part: nat)
    requires IsTrie(trie, g) && Frontier(trie, g, seen, head, part)
    requires head < |seen| && part < |trie[seen[head]].next|
    ensures var child := trie[seen[head]].next[part].child;
            && 0 < child < |trie| && g.parent[child] == seen[head]
            && child !in seen && Depth(g, child) == Depth(g, seen[head]) + 1
  {
    var at := seen[head];
    var e := trie[at].next[part];
    assert e in trie[at].next && IsChild(trie, g, at, e.byte, e.child);
    FrontIsNew(trie, g, seen, head, part);
    forall k | 0 < k < |seen|
      ensures seen[k] != e.child
    {
      assert Queued(trie, g, seen, head, part, seen[k]);
      if m :| 0 <= m < part && trie[at].next[m].child == seen[k] {
        ChildrenDiffer(trie, g, at, m, part);
      }
    }
  }

  lemma QueuedStays(trie: seq<Node>, g: Shape, seen: seq<nat>, head: nat, part: nat, n: nat)
    requires IsTrie(trie, g) && n < |trie| && head < |seen|
    requires forall k | 0 <= k < |seen| :: seen[k] < |trie|
    requires part < |trie[seen[head]].next| && trie[seen[head]].next[part].child < |trie|
    requires Queued(trie, g, seen, head, part, n)
    ensures Queued(trie, g, seen + [trie[seen[head]].next[part].child], head, part + 1, n)
  {
    var seen' := seen + [trie[seen[head]].next[part].child];
    assert seen'[..head] == seen[..head] && seen'[head] == seen[head];
    if m :| 0 <= m < part && trie[seen[head]].next[m].child == n {
      assert trie[seen'[head]].next[m].child == n;
    }
  }

  /** Queueing the next child keeps the history right. */
  lemma PushKeeps(trie: seq<Node>, g: Shape, seen: seq<nat>, head: nat, part: nat)
    requires IsTrie(trie, g) && Frontier(trie, g, seen, head, part)
    requires head < |seen| && part < |trie[seen[head]].next|
    ensures trie[seen[head]].next[part].child !in seen
    ensures Frontier(trie, g, seen + [trie[seen[head]].next[part].child], head, part + 1)
  {
    NextChildIsNew(trie, g, seen, head, part);
    var seen' := seen + [trie[seen[head]].next[part].child];
    assert seen'[..head] == seen[..head];
    forall j, k | 0 <= j < k < |seen'|
      ensures Ordered(g, seen', j, k)
    {
      assert k < |seen| ==> Ordered(g, seen, j, k);
    }
    forall k | 0 < k < |seen'|
      ensures Queued(trie, g, seen', head, part + 1, seen'[k])
    {
      if k < |seen| {
        QueuedStays(trie, g, seen, head, part, seen[k]);
      } else {
        assert trie[seen'[head]].next[part].child == seen'[k];
      }
    }
    forall k | 0 <= k < head
      ensures Expanded(trie, seen', seen'[k], |trie[seen'[k]].next|)
    {
      assert Expanded(trie, seen, seen[k], |trie[seen[k]].next|);
    }
  }

  /** With every child queued, the next node's turn comes. */
  lemma PopKeeps(trie: seq<Node>, g: Shape, seen: seq<nat>, head: nat)
    requires IsTrie(trie, g) && head < |seen|
    requires seen[head] < |trie| && Frontier(trie, g, seen, head, |trie[seen[head]].next|)
    ensures Frontier(trie, g, seen, head + 1, 0)
  {
    var at := seen[head];
    assert head + 1 < |seen| ==> Ordered(g, seen, head, head + 1);
    forall k | 0 < k < |seen|
      ensures Queued(trie, g, seen, head + 1, 0, seen[k])
    {
      assert Queued(trie, g, seen, head, |trie[at].next|, seen[k]);
      assert seen[..head + 1] == seen[..head] + [at];
      if m :| 0 <= m < |trie[at].next| && trie[at].next[m].child == seen[k] {
        assert trie[at].next[m] in trie[at].next;
        assert IsChild(trie, g, at, trie[at].next[m].byte, seen[k]);
      }
    }
  }

  /** Breadth first: every node no deeper than the queue's front has been queued. */
  lemma {:induction false} ShallowSeen(trie: seq<Node>, g: Shape, seen: seq<nat>, head: nat, part: nat, n: nat)
    requires IsTrie(trie, g) && Frontier(trie, g, seen, head, part) && n < |trie|
    requires head < |seen| ==> Depth(g, n) <= Depth(g, seen[head])
    ensures n in seen
    decreases Depth(g, n)
  {
    if n != 0 {
      assert HasParent(trie, g, n);
      var p := g.parent[n];
      ShallowSeen(trie, g, seen, head, part, p);
      var k :| 0 <= k < |seen| && seen[k] == p;
      assert head < k ==> Ordered(g, seen, head, k);
      assert Expanded(trie, seen, seen[k], |trie[seen[k]].next|);
      var e := Edge(g.paths[n][|g.paths[n]| - 1], n);
      var m :| 0 <= m < |trie[p].next| && trie[p].next[m] == e;
    }
  }

  /** During the pass: nodes seen are finished, the others are as the insertions left them. */
  ghost predicate Linking(trie: seq<Node>, nodes: seq<Node>, g: Shape, patterns: seq<Bytes>, seen: seq<nat>)
    requires |nodes| == |trie| == |g.paths|
  {
    && (forall i {:trigger nodes[i].next} | 0 <= i < |nodes| :: nodes[i].next == trie[i].next)
    && (forall i {:trigger Linked(nodes, g, patterns, i)} | 0 <= i < |nodes| && i in seen ::
          Linked(nodes, g, patterns, i))
    && (forall i {:trigger nodes[i]} | 0 <= i < |nodes| && i !in seen :: nodes[i] == trie[i])
  }

  /** A pattern ends a nonempty path when it is the path, or ends the path's failure node. */
  lemma EndFollowsFailure(nodes: seq<Node>, g: Shape, patterns: seq<Bytes>, i: nat, fail: nat)
    requires IsTrie(nodes, g) && i < |nodes| && g.paths[i] != []
    requires forall k | 0 <= k < |patterns| :: patterns[k] in g.paths
    requires LongestSuffix(g, g.paths[i][1..], fail)
    ensures EndsWithAny(patterns, g.paths[i]) <==> g.paths[i] in patterns || EndsWithAny(patterns, g.paths[fail])
  {
    var w, rest := g.paths[i], g.paths[i][1..];
    assert IsSuffix(rest, w) && IsSuffix(w, w);
    SuffixTransitive(g.paths[fail], rest, w);
    if k :| 0 <= k < |patterns| && IsSuffix(patterns[k], w) && patterns[k] != w {
      var j :| 0 <= j < |g.paths| && g.paths[j] == patterns[k];
      assert |patterns[k]| < |w| by {
        assert w[0..] == w;
      }
      SuffixesNest(patterns[k], rest, w);
      assert IsSuffix(g.paths[j], rest);
      SuffixesNest(patterns[k], g.paths[fail], rest);
      assert EndsWithAny(patterns, g.paths[fail]);
    }
    if k :| 0 <= k < |patterns| && IsSuffix(patterns[k], g.paths[fail]) {
      SuffixTransitive(patterns[k], g.paths[fail], w);
    }
    if w in patterns {
      var k :| 0 <= k < |patterns| && patterns[k] == w;
      assert IsSuffix(patterns[k], w);
    }
  }

  /** The child with its link set and its mark merged. */
  function Finished(nodes: seq<Node>, child: nat, fail: nat): (nodes': seq<Node>)
    requires child < |nodes| && fail < |nodes|
  {
    nodes[child := nodes[child].(fail := fail, end := nodes[child].end || nodes[fail].end)]
  }

  lemma FinishedIsLinked(trie: seq<Node>, nodes: seq<Node>, g: Shape, patterns: seq<Bytes>, child: nat, fail: nat)
    requires IsTrie(nodes, g) && |nodes| == |trie| && Growing(trie, g, patterns, patterns)
    requires child < |nodes| && nodes[child] == trie[child] && g.paths[child] != []
    requires LongestSuffix(g, g.paths[child][1..], fail) && Linked(nodes, g, patterns, fail)
    ensures Linked(Finished(nodes, child, fail), g, patterns, child)
  {
    EndFollowsFailure(nodes, g, patterns, child, fail);
  }

  /** Finishing the next child keeps the pass right. */
  lemma LinkKeeps(trie: seq<Node>, nodes: seq<Node>, g: Shape, patterns: seq<Bytes>, seen: seq<nat>,
                  child: nat, fail: nat)
    requires |nodes| == |trie| == |g.paths| && Linking(trie, nodes, g, patterns, seen)
    requires child < |nodes| && fail < |nodes|
    requires Linked(Finished(nodes, child, fail), g, patterns, child)
    ensures Linking(trie, Finished(nodes, child, fail), g, patterns, seen + [child])
  {
    var nodes' := Finished(nodes, child, fail);
    forall i | 0 <= i < |nodes| && i in seen + [child]
      ensures Linked(nodes', g, patterns, i)
    {
      if i != child {
        assert Linked(nodes, g, patterns, i);
      }
    }
  }

  /** The root alone is finished before the pass: no proper suffix, and only the empty pattern
      ends there. */
  lemma LinkStarts(trie: seq<Node>, g: Shape, patterns: seq<Bytes>)
    requires IsTrie(trie, g) && Growing(trie, g, patterns, patterns)
    ensures Linking(trie, trie, g, patterns, [0]) && Frontier(trie, g, [0], 0, 0)
  {
    if [] in patterns {
      var k :| 0 <= k < |patterns| && patterns[k] == [];
      assert IsSuffix(patterns[k], []);
    }
  }

  /** What the failure search from a node says of its child's path. */
  lemma FailureIsLongest(nodes: seq<Node>, g: Shape, at: nat, byte: Byte, child: nat, fail: nat)
    requires IsTrie(nodes, g) && at < |nodes| && IsChild(nodes, g, at, byte, child)
    requires g.paths[at] == [] ==> fail == 0
    requires g.paths[at] != [] ==> LongestSuffix(g, g.paths[at][1..] + [byte], fail)
    ensures LongestSuffix(g, g.paths[child][1..], fail)
    ensures |g.paths[fail]| <= |g.paths[at]|
  {
    if g.paths[at] != [] {
      assert g.paths[child][1..] == g.paths[at][1..] + [byte];
    }
  }

  /** Link the next child of the node at the queue's front. */
  method LinkChild(trie: seq<Node>, nodes: seq<Node>, ghost g: Shape, ghost patterns: seq<Bytes>,
                   ghost seen: seq<nat>, ghost head: nat, at: nat, part: nat)
    returns (nodes': seq<Node>)
    requires IsTrie(trie, g) && Growing(trie, g, patterns, patterns)
    requires |nodes| == |trie| && Linking(trie, nodes, g, patterns, seen)
    requires head < |seen| && seen[head] == at && Frontier(trie, g, seen, head, part)
    requires part < |trie[at].next|
    ensures |nodes'| == |trie| && Linking(trie, nodes', g, patterns, seen + [trie[at].next[part].child])
  {
    var byte, child := trie[at].next[part].byte, trie[at].next[part].child;
    PushKeeps(trie, g, seen, head, part);
    assert trie[at].next[part] in trie[at].next && IsChild(trie, g, at, byte, child);
    SameTrie(trie, nodes, g);
    forall i | 0 <= i < |nodes| && |g.paths[i]| <= |g.paths[at]|
      ensures Linked(nodes, g, patterns, i)
    {
      ShallowSeen(trie, g, seen, head, part, i);
    }
    var fail := FailureOfChild(nodes, g, patterns, at, byte);
    FailureIsLongest(nodes, g, at, byte, child, fail);
    FinishedIsLinked(trie, nodes, g, patterns, child, fail);
    LinkKeeps(trie, nodes, g, patterns, seen, child, fail);
    nodes' := Finished(nodes, child, fail);
  }

  /** Link every child of the node just popped and queue it. */
  method LinkChildren(trie: seq<Node>, nodes: seq<Node>, ghost g: Shape, ghost patterns: seq<Bytes>,
                      queue: seq<nat>, ghost seen: seq<nat>, ghost head: nat, at: nat)
    returns (nodes': seq<Node>, queue': seq<nat>, ghost seen': seq<nat>)
    requires IsTrie(trie, g) && Growing(trie, g, patterns, patterns)
    requires |nodes| == |trie| && Linking(trie, nodes, g, patterns, seen)
    requires head < |seen| && seen[head] == at && Frontier(trie, g, seen, head, 0)
    requires queue == seen[head + 1..]
    ensures |nodes'| == |trie| && Linking(trie, nodes', g, patterns, seen')
    ensures Frontier(trie, g, seen', head + 1, 0) && queue' == seen'[head + 1..] && seen <= seen'
  {
    nodes', queue', seen' := nodes, queue, seen;
    var next := nodes[at].next;
    for part := 0 to |next|
      invariant |nodes'| == |trie| && Linking(trie, nodes', g, patterns, seen')
      invariant seen <= seen' && Frontier(trie, g, seen', head, part) && queue' == seen'[head + 1..]
    {
      PushKeeps(trie, g, seen', head, part);
      nodes' := LinkChild(trie, nodes', g, patterns, seen', head, at, part);
      queue' := queue' + [next[part].child];
      seen' := seen' + [next[part].child];
    }
    PopKeeps(trie, g, seen', head);
  }

  ghost function Below(n: nat): (below: set<nat>)
    ensures forall i: nat :: i in below <==> i < n
  {
    if n == 0 then {} else Below(n - 1) + {n - 1}
  }

  /**
   * The breadth-first pass. It visits every node exactly once (`visited` lists them) and
   * finishes it.
   */
  method Link(trie: seq<Node>, ghost g: Shape, ghost patterns: seq<Bytes>)
    returns (nodes: seq<Node>, ghost visited: seq<nat>)
    requires IsTrie(trie, g) && Growing(trie, g, patterns, patterns)
    ensures IsTrie(nodes, g) && |nodes| == |trie|
    ensures forall i {:trigger Linked(nodes, g, patterns, i)} | 0 <= i < |nodes| :: Linked(nodes, g, patterns, i)
    ensures forall i: nat | i < |nodes| :: i in visited
    ensures forall j, k | 0 <= j < k < |visited| :: visited[j] != visited[k]
  {
    nodes, visited := trie, [0];
    var queue: seq<nat> := [0];
    ghost var head: nat := 0;
    ghost var waiting := Below(|trie|);
    LinkStarts(trie, g, patterns);
    while queue != []
      invariant |nodes| == |trie| && Linking(trie, nodes, g, patterns, visited)
      invariant Frontier(trie, g, visited, head, 0) && queue == visited[head..]
      invariant forall i | i in Below(|trie|) && i !in visited[..head] :: i in waiting
      decreases waiting
    {
      var at := queue[0];
      assert at == visited[head];
      FrontIsNew(trie, g, visited, head, 0);
      waiting := waiting - {at};
      ghost var before := visited;
      nodes, queue, visited := LinkChildren(trie, nodes, g, patterns, queue[1..], visited, head, at);
      assert visited[..head + 1] == before[..head] + [at];
      head := head + 1;
    }
    SameTrie(trie, nodes, g);
    forall j, k | 0 <= j < k < |visited|
      ensures visited[j] != visited[k]
    {
      assert Ordered(g, visited, j, k);
    }
    forall i: nat | i < |nodes|
      ensures i in visited
    {
      ShallowSeen(trie, g, visited, head, 0, i);
    }
  }

  // ---------------------------------------------------------------- the matcher

  /** The matcher of `patterns`: their trie, every node finished. */
  ghost predicate IsAutomaton(m: Matcher, patterns: seq<Bytes>, g: Shape) {
    && IsTrie(m.nodes, g)
    && (forall i {:trigger IsTriePath(patterns, g.paths[i])} | 0 <= i < |m.nodes| :: IsTriePath(patterns, g.paths[i]))
    && (forall k | 0 <= k < |patterns| :: patterns[k] in g.paths)
    && (forall i {:trigger Linked(m.nodes, g, patterns, i)} | 0 <= i < |m.nodes| ::
          Linked(m.nodes, g, patterns, i))
  }

  ghost predicate IsMatcherOf(m: Matcher, patterns: seq<Bytes>) {
    exists g :: IsAutomaton(m, patterns, g)
  }

  /** Every prefix of a node's path is a node's path. */
  lemma {:induction false} PrefixIsPath(nodes: seq<Node>, g: Shape, j: nat, w: Bytes)
    requires IsTrie(nodes, g) && j < |nodes| && w <= g.paths[j]
    ensures w in g.paths
    decreases |g.paths[j]|
  {
    if w != g.paths[j] {
      assert HasParent(nodes, g, j) || j == 0;
      PrefixIsPath(nodes, g, g.parent[j], w);
    }
  }

  /** The trie's paths are the patterns' prefixes, and a failure link leads to the longest of
      them that is a proper suffix of the node's path. */
  lemma FailureIsLongestPatternPrefix(m: Matcher, patterns: seq<Bytes>, g: Shape, i: nat, w: Bytes)
    requires IsAutomaton(m, patterns, g) && i < |m.nodes| && g.paths[i] != []
    ensures w in g.paths <==> IsTriePath(patterns, w)
    ensures m.nodes[i].fail < |m.nodes|
    ensures var f := g.paths[m.nodes[i].fail];
            && IsTriePath(patterns, f) && IsSuffix(f, g.paths[i]) && f != g.paths[i]
            && (IsTriePath(patterns, w) && IsSuffix(w, g.paths[i]) && w != g.paths[i] ==> IsSuffix(w, f))
  {
    if w in g.paths {
      var j :| 0 <= j < |g.paths| && g.paths[j] == w;
      assert IsTriePath(patterns, g.paths[j]);
    }
    if k :| 0 <= k < |patterns| && w <= patterns[k] {
      var j :| 0 <= j < |g.paths| && g.paths[j] == patterns[k];
      PrefixIsPath(m.nodes, g, j, w);
    }
    var path, rest := g.paths[i], g.paths[i][1..];
    assert Linked(m.nodes, g, patterns, i) && IsSuffix(rest, path);
    var fail := m.nodes[i].fail;
    assert IsTriePath(patterns, g.paths[fail]);
    SuffixTransitive(g.paths[fail], rest, path);
    if IsTriePath(patterns, w) && IsSuffix(w, path) && w != path {
      var j :| 0 <= j < |g.paths| && g.paths[j] == w;
      assert |w| < |path| by {
        assert path[0..] == path;
      }
      SuffixesNest(w, rest, path);
      assert IsSuffix(g.paths[j], rest);
      SuffixesNest(w, g.paths[fail], rest);
    }
  }

  method New(patterns: seq<Bytes>) returns (m: Matcher)
    ensures IsMatcherOf(m, patterns)
  {
    var nodes := [EMPTY_NODE];
    ghost var g := Shape([[]], [0]);
    for k := 0 to |patterns|
      invariant IsTrie(nodes, g) && Growing(nodes, g, patterns[..k], patterns[..k])
    {
      nodes, g := Insert(nodes, g, patterns[..k], patterns[k]);
      assert patterns[..k + 1] == patterns[..k] + [patterns[k]];
    }
    assert patterns[..|patterns|] == patterns;
    ghost var visited;
    nodes, visited := Link(nodes, g, patterns);
    m := Matcher(nodes);
    assert IsAutomaton(m, patterns, g);
  }

  /** The node a text has reached says whether a pattern ends here. */
  lemma EndOfReached(m: Matcher, patterns: seq<Bytes>, g: Shape, text: Bytes, at: nat)
    requires IsAutomaton(m, patterns, g) && LongestSuffix(g, text, at)
    ensures at < |m.nodes| && |m.nodes| == |g.paths|
    ensures m.nodes[at].end <==> EndsWithAny(patterns, text)
  {
    assert Linked(m.nodes, g, patterns, at);
    if k :| 0 <= k < |patterns| && IsSuffix(patterns[k], text) {
      var j :| 0 <= j < |g.paths| && g.paths[j] == patterns[k];
      assert IsSuffix(g.paths[j], text);
      SuffixesNest(patterns[k], g.paths[at], text);
    }
    if k :| 0 <= k < |patterns| && IsSuffix(patterns[k], g.paths[at]) {
      SuffixTransitive(patterns[k], g.paths[at], text);
    }
  }

  /** Before the first byte the root is reached. */
  lemma RootReached(m: Matcher, patterns: seq<Bytes>, g: Shape, none: Bytes)
    requires IsAutomaton(m, patterns, g) && none == []
    ensures |m.nodes| == |g.paths| > 0 && g.paths[0] == [] && LongestSuffix(g, none, 0)
    ensures m.nodes[0].end <==> EndsWithAny(patterns, none)
  {
    EndOfReached(m, patterns, g, none, 0);
  }

  /** No pattern ends within the first `read` bytes. */
  ghost predicate NoneEnds(patterns: seq<Bytes>, text: Bytes, read: nat) {
    read <= |text| && forall i {:trigger text[..i]} | 0 <= i <= read :: !EndsWithAny(patterns, text[..i])
  }

  /** A pattern ends after `read` bytes, none earlier. */
  ghost predicate FirstEnd(patterns: seq<Bytes>, text: Bytes, read: nat) {
    read <= |text| && EndsWithAny(patterns, text[..read]) && (read > 0 ==> NoneEnds(patterns, text, read - 1))
  }

  /** Read one byte: down a child where the node has one, else up the failure links first. */
  method Advance(m: Matcher, ghost patterns: seq<Bytes>, ghost g: Shape, ghost w: Bytes, from: nat, byte: Byte)
    returns (at: nat, steps: nat)
    requires IsAutomaton(m, patterns, g) && LongestSuffix(g, w, from)
    ensures LongestSuffix(g, w + [byte], at)
    ensures 1 <= steps && steps + |g.paths[at]| <= |g.paths[from]| + 2
  {
    at, steps := from, 0;
    SearchStarts(m.nodes, g, w, byte, at);
    while true
      invariant at < |m.nodes| && Searching(g, w, byte, at)
      invariant steps + |g.paths[at]| <= |g.paths[from]|
      decreases |g.paths[at]|
    {
      steps := steps + 1;
      var next := Child(m.nodes, at, byte);
      if next.Some? {
        SearchHits(m.nodes, g, w, byte, at);
        ChildOfPath(m.nodes, g, at, byte);
        return next.value, steps;
      }
      if at == 0 {
        SearchEnds(m.nodes, g, w, byte);
        return at, steps;
      }
      assert !SamePath(g, at, 0) && Linked(m.nodes, g, patterns, at);
      SearchClimbs(m.nodes, g, w, byte, at, m.nodes[at].fail);
      at := m.nodes[at].fail;
    }
  }

  /**
   * One pass over `text`. It answers what naive search over the patterns answers, stops at the
   * first byte where a pattern ends, and takes at least one and at most two steps per byte read.
   */
  method Find(m: Matcher, ghost patterns: seq<Bytes>, text: Bytes) returns (found: bool, steps: nat)
    requires IsMatcherOf(m, patterns)
    ensures found <==> ContainsAny(patterns, text)
    ensures found ==> exists read: nat :: FirstEnd(patterns, text, read) && read <= steps <= 2 * read
    ensures !found ==> |text| <= steps <= 2 * |text|
  {
    ContainsAnyIsSuffixOfPrefix(patterns, text);
    ghost var g :| IsAutomaton(m, patterns, g);
    ghost var read;
    found, steps, read := Scan(m, patterns, g, text);
  }

  /** The scan's state between two bytes: the longest suffix read that the trie holds is where
      it is, and it has not spent what the failure links can still cost. */
  ghost predicate Reached(g: Shape, patterns: seq<Bytes>, text: Bytes, read: nat, at: nat, steps: nat) {
    && NoneEnds(patterns, text, read)
    && LongestSuffix(g, text[..read], at)
    && read <= steps && steps + |g.paths[at]| <= 2 * read
  }

  lemma NoneEndsGrows(patterns: seq<Bytes>, text: Bytes, read: nat)
    requires read < |text| && NoneEnds(patterns, text, read)
    ensures EndsWithAny(patterns, text[..read + 1]) ==> FirstEnd(patterns, text, read + 1)
    ensures !EndsWithAny(patterns, text[..read + 1]) ==> NoneEnds(patterns, text, read + 1)
  {
  }

  method ReadByte(m: Matcher, ghost patterns: seq<Bytes>, ghost g: Shape, text: Bytes, i: nat, from: nat, before: nat)
    returns (at: nat, steps: nat)
    requires IsAutomaton(m, patterns, g) && i < |text| && Reached(g, patterns, text, i, from, before)
    ensures at < |m.nodes| && i + 1 <= steps <= 2 * (i + 1)
    ensures m.nodes[at].end ==> FirstEnd(patterns, text, i + 1)
    ensures !m.nodes[at].end ==> Reached(g, patterns, text, i + 1, at, steps)
  {
    var more;
    at, more := Advance(m, patterns, g, text[..i], from, text[i]);
    steps := before + more;
    assert text[..i + 1] == text[..i] + [text[i]];
    EndOfReached(m, patterns, g, text[..i + 1], at);
    NoneEndsGrows(patterns, text, i);
  }

  method Scan(m: Matcher, ghost patterns: seq<Bytes>, ghost g: Shape, text: Bytes)
    returns (found: bool, steps: nat, ghost read: nat)
    requires IsAutomaton(m, patterns, g)
    ensures read <= steps <= 2 * read
    ensures found ==> FirstEnd(patterns, text, read)
    ensures !found ==> read == |text| && NoneEnds(patterns, text, read)
  {
    steps := 0;
    var at: nat := 0;
    RootReached(m, patterns, g, text[..0]);
    if m.nodes[at].end {
      return true, steps, 0;
    }
    assert Reached(g, patterns, text, 0, at, steps);
    for i := 0 to |text|
      invariant Reached(g, patterns, text, i, at, steps)
    {
      at, steps := ReadByte(m, patterns, g, text, i, at, steps);
      if m.nodes[at].end {
        return true, steps, i + 1;
      }
    }
    return false, steps, |text|;
  }
}
