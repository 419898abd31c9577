/** The nodes of the prefix tree of Trie.java and the pure specification of
    the walks the tree performs over them.  Nodes live in an arena, a
    sequence indexed by node number with the root at index 0; a child slot
    holds the index of the child node, or `None` for Java's `null`. */
module TrieNode {
  import opened Failures
  import opened Lexicographic

  /** Number of child slots of a node, one per letter 'a'..'z'. */
  const AlphabetSize: nat := 26

  predicate IsLower(c: char)
  {
    'a' <= c <= 'z'
  }

  predicate AllLower(s: string)
  {
    forall k :: 0 <= k < |s| ==> IsLower(s[k])
  }

  /** The letter that child slot `i` stands for. */
  function FromIndex(i: nat): (c: char)
    requires i < AlphabetSize
    ensures IsLower(c)
  {
    ('a' as int + i) as char
  }

  /** The child slot of a letter; any other character is rejected. */
  function ToIndex(c: char): (r: Result<nat>)
    ensures r.Ok? <==> IsLower(c)
    ensures r.Ok? ==> r.value < AlphabetSize && r.value == c as int - 'a' as int
    ensures r.Ok? ==> FromIndex(r.value) == c
    ensures r.Err? ==> r.error == InvalidSymbol(c)
  {
    if c < 'a' || c > 'z' then Err(InvalidSymbol(c)) else Ok(c as int - 'a' as int)
  }

  lemma IndexRoundTrip(i: nat)
    requires i < AlphabetSize
    ensures ToIndex(FromIndex(i)) == Ok(i)
  {
  }

  datatype Node = Node(children: seq<Option<nat>>, isWordEnd: bool)

  /** A new node: every slot empty, not the end of a word. */
  function EmptyNode(): (n: Node)
    ensures |n.children| == AlphabetSize && !n.isWordEnd
    ensures forall i :: 0 <= i < AlphabetSize ==> n.children[i].None?
  {
    Node(seq(AlphabetSize, _ => None), false)
  }

  /** The child of `node` for letter `c`, `None` when that slot is empty;
      throws for a character outside 'a'..'z'. */
  function GetChild(node: Node, c: char): (r: Result<Option<nat>>)
    requires |node.children| == AlphabetSize
    ensures r.Err? <==> !IsLower(c)
    ensures r.Err? ==> r.error == InvalidSymbol(c)
    ensures r.Ok? ==> r.value == node.children[c as int - 'a' as int]
  {
    match ToIndex(c)
    case Err(e) => Err(e)
    case Ok(i) => Ok(node.children[i])
  }

  /** Shape of a node arena: a root, 26 slots per node, and every child
      index greater than its parent's, so that the nodes form a
      finite, acyclic structure. */
  ghost predicate Arena(nodes: seq<Node>)
  {
    |nodes| > 0 &&
    (forall n :: 0 <= n < |nodes| ==> |nodes[n].children| == AlphabetSize) &&
    (forall n, i :: 0 <= n < |nodes| && 0 <= i < |nodes[n].children| && nodes[n].children[i].Some? ==>
       n < nodes[n].children[i].value < |nodes|)
  }

  /** What findNode computes for `s`: the node reached from the root by the
      letters of `s`, `None` at the first empty slot (no later character is
      looked at), or the error of the first character it cannot map. */
  ghost function Walk(nodes: seq<Node>, s: string): (r: Result<Option<nat>>)
    requires Arena(nodes)
    ensures r.Ok? && r.value.Some? ==> r.value.value < |nodes|
    decreases |s|
  {
    if s == [] then Ok(Some(0))
    else
      match Walk(nodes, s[..|s| - 1])
      case Err(e) => Err(e)
      case Ok(None) => Ok(None)
      case Ok(Some(n)) => GetChild(nodes[n], s[|s| - 1])
  }

  /** What collect appends for node `n` when the buffer holds `prefix`: the
      buffer itself if `n` ends a word, then the words below each child
      slot, slots in ascending order. */
  ghost function Enum(nodes: seq<Node>, n: nat, prefix: string): seq<string>
    requires Arena(nodes) && n < |nodes|
    decreases |nodes| - n, AlphabetSize + 1
  {
    (if nodes[n].isWordEnd then [prefix] else []) + EnumFrom(nodes, n, prefix, 0)
  }

  /** The part of `Enum(nodes, n, prefix)` contributed by slots `i` to 25. */
  ghost function EnumFrom(nodes: seq<Node>, n: nat, prefix: string, i: nat): seq<string>
    requires Arena(nodes) && n < |nodes| && i <= AlphabetSize
    decreases |nodes| - n, AlphabetSize - i
  {
    if i == AlphabetSize then []
    else
      (match nodes[n].children[i]
       case None => []
       case Some(q) => Enum(nodes, q, prefix + [FromIndex(i)]))
      + EnumFrom(nodes, n, prefix, i + 1)
  }

  /** One iteration of collect's loop over the slots of node `n`: what was
      collected so far, followed by what slot `i` contributes, followed by
      what slots `i + 1` onwards contribute, is what slots `i` onwards would
      have contributed after what was collected so far. */
  lemma EnumFromStep(nodes: seq<Node>, n: nat, prefix: string, i: nat, done: seq<string>)
    requires Arena(nodes) && n < |nodes| && i < AlphabetSize
    ensures nodes[n].children[i].None? ==>
              done + EnumFrom(nodes, n, prefix, i + 1) == done + EnumFrom(nodes, n, prefix, i)
    ensures nodes[n].children[i].Some? ==>
              (done + Enum(nodes, nodes[n].children[i].value, prefix + [FromIndex(i)])) + EnumFrom(nodes, n, prefix, i + 1)
              == done + EnumFrom(nodes, n, prefix, i)
  {
    if nodes[n].children[i].Some? {
      var part := Enum(nodes, nodes[n].children[i].value, prefix + [FromIndex(i)]);
      var rest := EnumFrom(nodes, n, prefix, i + 1);
      assert EnumFrom(nodes, n, prefix, i) == part + rest;
      assert (done + part) + rest == done + (part + rest);
    }
  }

  //
  // The walk, independently of the labelling below.
  //

  /** An exception or an empty slot ends the walk: the rest of the string is
      never looked at. */
  lemma {:induction false} WalkSticky(nodes: seq<Node>, s: string, j: nat)
    requires Arena(nodes) && j <= |s|
    requires Walk(nodes, s[..j]).Err? || Walk(nodes, s[..j]) == Ok(None)
    ensures Walk(nodes, s) == Walk(nodes, s[..j])
    decreases |s|
  {
    if j < |s| {
      var t := s[..|s| - 1];
      assert t[..j] == s[..j];
      WalkSticky(nodes, t, j);
    } else {
      assert s[..j] == s;
    }
  }

  /** A lowercase string never makes the walk throw. */
  lemma {:induction false} WalkLower(nodes: seq<Node>, s: string)
    requires Arena(nodes) && AllLower(s)
    ensures Walk(nodes, s).Ok?
    decreases |s|
  {
    if s != [] {
      WalkLower(nodes, s[..|s| - 1]);
    }
  }

  /** Reaching a node and then a character outside 'a'..'z' makes the walk
      throw for that character. */
  lemma WalkReachesBadSymbol(nodes: seq<Node>, s: string, k: nat)
    requires Arena(nodes) && k < |s|
    requires Walk(nodes, s[..k]).Ok? && Walk(nodes, s[..k]).value.Some?
    requires !IsLower(s[k])
    ensures Walk(nodes, s) == Err(InvalidSymbol(s[k]))
  {
    assert s[..k + 1][..k] == s[..k];
    WalkSticky(nodes, s, k + 1);
  }

  /** Conversely, the walk throws only for a character it has reached: one
      outside 'a'..'z' right after a node-reaching prefix. */
  lemma {:induction false} WalkErrorAt(nodes: seq<Node>, s: string) returns (k: nat)
    requires Arena(nodes) && Walk(nodes, s).Err?
    ensures k < |s| && !IsLower(s[k])
    ensures Walk(nodes, s[..k]).Ok? && Walk(nodes, s[..k]).value.Some?
    ensures Walk(nodes, s) == Err(InvalidSymbol(s[k]))
    decreases |s|
  {
    var t := s[..|s| - 1];
    if Walk(nodes, t).Err? {
      k := WalkErrorAt(nodes, t);
      assert t[..k] == s[..k] && t[k] == s[k];
    } else {
      k := |s| - 1;
      assert s[..k] == t;
    }
  }

  //
  // The tree invariant: every node is labelled by the string that spells
  // the path from the root to it.
  //

  /** `spelling[n]` spells the path to node `n`; every non-root node `q` is the
      child in slot `slot[q]` of node `parent[q]`, which comes before it. */
  ghost predicate Labelled(nodes: seq<Node>, spelling: seq<string>, parent: seq<nat>, slot: seq<nat>)
  {
    Arena(nodes) &&
    |spelling| == |nodes| && |parent| == |nodes| && |slot| == |nodes| &&
    spelling[0] == [] &&
    (forall n, i :: 0 <= n < |nodes| && 0 <= i < AlphabetSize && nodes[n].children[i].Some? ==>
       spelling[nodes[n].children[i].value] == spelling[n] + [FromIndex(i)]) &&
    (forall q :: 0 < q < |nodes| ==>
       parent[q] < q && slot[q] < AlphabetSize && nodes[parent[q]].children[slot[q]] == Some(q))
  }

  /** The strings whose path exists in the tree, the empty one included. */
  ghost function PathsOf(nodes: seq<Node>, spelling: seq<string>): set<string>
  {
    set n | 0 <= n < |nodes| && n < |spelling| :: spelling[n]
  }

  /** The stored words: the paths that end at a node marking a word end. */
  ghost function WordsOf(nodes: seq<Node>, spelling: seq<string>): (ws: set<string>)
    ensures ws <= PathsOf(nodes, spelling)
  {
    set n | 0 <= n < |nodes| && n < |spelling| && nodes[n].isWordEnd :: spelling[n]
  }

  lemma ParentSpelling(nodes: seq<Node>, spelling: seq<string>, parent: seq<nat>, slot: seq<nat>, q: nat)
    requires Labelled(nodes, spelling, parent, slot) && 0 < q < |nodes|
    ensures spelling[q] == spelling[parent[q]] + [FromIndex(slot[q])]
  {
    assert nodes[parent[q]].children[slot[q]].Some?;
  }

  /** Every spelling is a lowercase string, and only the root's is empty. */
  lemma {:induction false} LabelLower(nodes: seq<Node>, spelling: seq<string>, parent: seq<nat>, slot: seq<nat>, n: nat)
    requires Labelled(nodes, spelling, parent, slot) && n < |nodes|
    ensures AllLower(spelling[n])
    ensures n > 0 ==> spelling[n] != []
    decreases n
  {
    if n > 0 {
      ParentSpelling(nodes, spelling, parent, slot, n);
      LabelLower(nodes, spelling, parent, slot, parent[n]);
    }
  }

  /** No two nodes are labelled by the same string: the tree has no sharing. */
  lemma {:induction false} LabelsDistinct(nodes: seq<Node>, spelling: seq<string>, parent: seq<nat>, slot: seq<nat>, m: nat, n: nat)
    requires Labelled(nodes, spelling, parent, slot) && m < |nodes| && n < |nodes|
    requires spelling[m] == spelling[n]
    ensures m == n
    decreases m + n
  {
    if m > 0 && n > 0 {
      ParentSpelling(nodes, spelling, parent, slot, m);
      ParentSpelling(nodes, spelling, parent, slot, n);
      var lm, ln := spelling[m], spelling[n];
      assert spelling[parent[m]] == lm[..|lm| - 1];
      assert spelling[parent[n]] == ln[..|ln| - 1];
      LabelsDistinct(nodes, spelling, parent, slot, parent[m], parent[n]);
      IndexRoundTrip(slot[m]);
      IndexRoundTrip(slot[n]);
      assert FromIndex(slot[m]) == lm[|lm| - 1] == FromIndex(slot[n]);
    } else if m > 0 {
      LabelLower(nodes, spelling, parent, slot, m);
    } else if n > 0 {
      LabelLower(nodes, spelling, parent, slot, n);
    }
  }

  /** The node labelled `spelling[n] + [c]` is the child of `n` in the slot of
      `c`. */
  lemma ChildByLabel(nodes: seq<Node>, spelling: seq<string>, parent: seq<nat>, slot: seq<nat>, n: nat, k: nat, c: char)
    requires Labelled(nodes, spelling, parent, slot) && n < |nodes| && k < |nodes|
    requires spelling[k] == spelling[n] + [c]
    ensures IsLower(c) && nodes[n].children[c as int - 'a' as int] == Some(k)
  {
    assert k != 0;
    ParentSpelling(nodes, spelling, parent, slot, k);
    assert spelling[parent[k]] == spelling[k][..|spelling[k]| - 1] == spelling[n];
    LabelsDistinct(nodes, spelling, parent, slot, parent[k], n);
    IndexRoundTrip(slot[k]);
  }

  /** Stored words are lowercase. */
  lemma WordsLower(nodes: seq<Node>, spelling: seq<string>, parent: seq<nat>, slot: seq<nat>, w: string)
    requires Labelled(nodes, spelling, parent, slot) && w in WordsOf(nodes, spelling)
    ensures AllLower(w)
  {
    var m :| 0 <= m < |nodes| && nodes[m].isWordEnd && spelling[m] == w;
    LabelLower(nodes, spelling, parent, slot, m);
  }

  /** With the root unmarked, the empty string is never a stored word. */
  lemma EmptyNotStored(nodes: seq<Node>, spelling: seq<string>, parent: seq<nat>, slot: seq<nat>)
    requires Labelled(nodes, spelling, parent, slot) && !nodes[0].isWordEnd
    ensures [] !in WordsOf(nodes, spelling)
  {
    if [] in WordsOf(nodes, spelling) {
      var m :| 0 <= m < |nodes| && nodes[m].isWordEnd && spelling[m] == [];
      LabelLower(nodes, spelling, parent, slot, m);
    }
  }

  /** Every prefix of a path is a path. */
  lemma {:induction false} Ancestor(nodes: seq<Node>, spelling: seq<string>, parent: seq<nat>, slot: seq<nat>, m: nat, p: string) returns (k: nat)
    requires Labelled(nodes, spelling, parent, slot) && m < |nodes|
    requires p <= spelling[m]
    ensures k <= m && spelling[k] == p
    decreases m
  {
    if p == spelling[m] {
      k := m;
    } else {
      assert m != 0;
      ParentSpelling(nodes, spelling, parent, slot, m);
      k := Ancestor(nodes, spelling, parent, slot, parent[m], p);
    }
  }

  /** Walking the spelling of a node leads to that node. */
  lemma {:induction false} WalkLabel(nodes: seq<Node>, spelling: seq<string>, parent: seq<nat>, slot: seq<nat>, n: nat)
    requires Labelled(nodes, spelling, parent, slot) && n < |nodes|
    ensures Walk(nodes, spelling[n]) == Ok(Some(n))
    decreases n
  {
    if n > 0 {
      ParentSpelling(nodes, spelling, parent, slot, n);
      WalkLabel(nodes, spelling, parent, slot, parent[n]);
      var s := spelling[n];
      assert s[..|s| - 1] == spelling[parent[n]];
      IndexRoundTrip(slot[n]);
    }
  }

  /** A walk that reaches a node has spelled that node's spelling. */
  lemma {:induction false} WalkFound(nodes: seq<Node>, spelling: seq<string>, parent: seq<nat>, slot: seq<nat>, s: string, n: nat)
    requires Labelled(nodes, spelling, parent, slot)
    requires Walk(nodes, s) == Ok(Some(n))
    ensures spelling[n] == s
    decreases |s|
  {
    if s != [] {
      var t := s[..|s| - 1];
      var p := Walk(nodes, t).value.value;
      WalkFound(nodes, spelling, parent, slot, t, p);
      var i := s[|s| - 1] as int - 'a' as int;
      assert nodes[p].children[i] == Some(n);
      assert s == t + [s[|s| - 1]];
    }
  }

  /** `s` is a path exactly when its walk reaches a node. */
  lemma WalkPaths(nodes: seq<Node>, spelling: seq<string>, parent: seq<nat>, slot: seq<nat>, s: string)
    requires Labelled(nodes, spelling, parent, slot)
    ensures s in PathsOf(nodes, spelling) <==> Walk(nodes, s).Ok? && Walk(nodes, s).value.Some?
  {
    if s in PathsOf(nodes, spelling) {
      var n :| 0 <= n < |nodes| && spelling[n] == s;
      WalkLabel(nodes, spelling, parent, slot, n);
    }
    if Walk(nodes, s).Ok? && Walk(nodes, s).value.Some? {
      WalkFound(nodes, spelling, parent, slot, s, Walk(nodes, s).value.value);
    }
  }

  /** `s` is a stored word exactly when its walk reaches a node that ends a
      word. */
  lemma WalkWords(nodes: seq<Node>, spelling: seq<string>, parent: seq<nat>, slot: seq<nat>, s: string)
    requires Labelled(nodes, spelling, parent, slot)
    ensures s in WordsOf(nodes, spelling) <==>
              Walk(nodes, s).Ok? && Walk(nodes, s).value.Some? && nodes[Walk(nodes, s).value.value].isWordEnd
  {
    if s in WordsOf(nodes, spelling) {
      var n :| 0 <= n < |nodes| && nodes[n].isWordEnd && spelling[n] == s;
      WalkLabel(nodes, spelling, parent, slot, n);
    }
    if Walk(nodes, s).Ok? && Walk(nodes, s).value.Some? {
      var n := Walk(nodes, s).value.value;
      WalkFound(nodes, spelling, parent, slot, s, n);
      if nodes[n].isWordEnd {
        assert spelling[n] in WordsOf(nodes, spelling);
      }
    }
  }

  /** The arena after getOrCreateChild fills the empty slot `i` of node `n`
      with a new empty node. */
  function WithChild(nodes: seq<Node>, n: nat, i: nat): (r: seq<Node>)
    requires Arena(nodes) && n < |nodes| && i < AlphabetSize
    requires nodes[n].children[i].None?
    ensures Arena(r) && |r| == |nodes| + 1 && r[|nodes|] == EmptyNode()
    ensures r[n].children[i] == Some(|nodes|)
    ensures forall m, j :: 0 <= m < |nodes| && 0 <= j < AlphabetSize && (m, j) != (n, i) ==>
              r[m].children[j] == nodes[m].children[j]
    ensures forall m :: 0 <= m < |nodes| ==> r[m].isWordEnd == nodes[m].isWordEnd
  {
    nodes[n := nodes[n].(children := nodes[n].children[i := Some(|nodes|)])] + [EmptyNode()]
  }

  /** Adding a child keeps the tree spelled by its paths, adds the child's
      path and no word. */
  lemma AddChild(nodes: seq<Node>, spelling: seq<string>, parent: seq<nat>, slot: seq<nat>, n: nat, i: nat)
    requires Labelled(nodes, spelling, parent, slot) && n < |nodes| && i < AlphabetSize
    requires nodes[n].children[i].None?
    ensures var s := spelling[n] + [FromIndex(i)];
            var nodes', spelling' := WithChild(nodes, n, i), spelling + [s];
            Labelled(nodes', spelling', parent + [n], slot + [i]) &&
            PathsOf(nodes', spelling') == PathsOf(nodes, spelling) + {s} &&
            WordsOf(nodes', spelling') == WordsOf(nodes, spelling)
  {
    AddChildLabelled(nodes, spelling, parent, slot, n, i);
    AddChildViews(nodes, spelling, n, i);
  }

  lemma AddChildLabelled(nodes: seq<Node>, spelling: seq<string>, parent: seq<nat>, slot: seq<nat>, n: nat, i: nat)
    requires Labelled(nodes, spelling, parent, slot) && n < |nodes| && i < AlphabetSize
    requires nodes[n].children[i].None?
    ensures Labelled(WithChild(nodes, n, i), spelling + [spelling[n] + [FromIndex(i)]], parent + [n], slot + [i])
  {
    var q := |nodes|;
    var nodes', spelling' := WithChild(nodes, n, i), spelling + [spelling[n] + [FromIndex(i)]];
    var parent', slot' := parent + [n], slot + [i];
    forall m, j | 0 <= m < |nodes'| && 0 <= j < AlphabetSize && nodes'[m].children[j].Some?
      ensures spelling'[nodes'[m].children[j].value] == spelling'[m] + [FromIndex(j)]
    {
      if (m, j) != (n, i) {
        assert m < q && nodes'[m].children[j] == nodes[m].children[j];
        assert spelling'[m] == spelling[m];
      }
    }
    forall p | 0 < p < |nodes'|
      ensures parent'[p] < p && slot'[p] < AlphabetSize && nodes'[parent'[p]].children[slot'[p]] == Some(p)
    {
      if p < q {
        assert parent'[p] == parent[p] && slot'[p] == slot[p];
        assert nodes[parent[p]].children[slot[p]] == Some(p);
        assert (parent[p], slot[p]) != (n, i);
      }
    }
  }

  lemma AddChildViews(nodes: seq<Node>, spelling: seq<string>, n: nat, i: nat)
    requires Arena(nodes) && |spelling| == |nodes| && n < |nodes| && i < AlphabetSize
    requires nodes[n].children[i].None?
    ensures var s := spelling[n] + [FromIndex(i)];
            var nodes', spelling' := WithChild(nodes, n, i), spelling + [s];
            PathsOf(nodes', spelling') == PathsOf(nodes, spelling) + {s} &&
            WordsOf(nodes', spelling') == WordsOf(nodes, spelling)
  {
    var s := spelling[n] + [FromIndex(i)];
    var nodes', spelling' := WithChild(nodes, n, i), spelling + [s];
    var q := |nodes|;
    assert forall m :: 0 <= m < q ==> spelling'[m] == spelling[m];
    assert spelling'[q] == s;
    assert PathsOf(nodes', spelling') == PathsOf(nodes, spelling) + {s};
    assert WordsOf(nodes', spelling') == WordsOf(nodes, spelling);
  }

  /** The arena after insert marks node `n` as a word end. */
  function WithWordEnd(nodes: seq<Node>, n: nat): (r: seq<Node>)
    requires Arena(nodes) && n < |nodes|
    ensures Arena(r) && |r| == |nodes| && r[n].isWordEnd
    ensures forall m :: 0 <= m < |nodes| ==> r[m].children == nodes[m].children
    ensures forall m :: 0 <= m < |nodes| && m != n ==> r[m].isWordEnd == nodes[m].isWordEnd
  {
    nodes[n := nodes[n].(isWordEnd := true)]
  }

  /** Marking a node keeps the tree and its paths and adds exactly the
      node's path to the words. */
  lemma MarkWordEnd(nodes: seq<Node>, spelling: seq<string>, parent: seq<nat>, slot: seq<nat>, n: nat)
    requires Labelled(nodes, spelling, parent, slot) && n < |nodes|
    ensures var nodes' := WithWordEnd(nodes, n);
            Labelled(nodes', spelling, parent, slot) &&
            PathsOf(nodes', spelling) == PathsOf(nodes, spelling) &&
            WordsOf(nodes', spelling) == WordsOf(nodes, spelling) + {spelling[n]}
  {
    var nodes' := WithWordEnd(nodes, n);
    assert spelling[n] in WordsOf(nodes', spelling);
  }

  //
  // The enumeration.
  //

  /** Everything enumerated below `n` extends the buffer; what slot `i`
      onwards contributes extends it by a letter no smaller than slot `i`'s. */
  lemma {:induction false} EnumShape(nodes: seq<Node>, n: nat, prefix: string)
    requires Arena(nodes) && n < |nodes|
    ensures forall x :: x in Enum(nodes, n, prefix) ==> prefix <= x
    decreases |nodes| - n, AlphabetSize + 1
  {
    EnumFromShape(nodes, n, prefix, 0);
  }

  lemma {:induction false} EnumFromShape(nodes: seq<Node>, n: nat, prefix: string, i: nat)
    requires Arena(nodes) && n < |nodes| && i <= AlphabetSize
    ensures forall x :: x in EnumFrom(nodes, n, prefix, i) ==>
              i < AlphabetSize && |prefix| < |x| && x[..|prefix|] == prefix && FromIndex(i) <= x[|prefix|]
    decreases |nodes| - n, AlphabetSize - i
  {
    if i < AlphabetSize {
      EnumFromShape(nodes, n, prefix, i + 1);
      match nodes[n].children[i]
      case None =>
      case Some(q) =>
        var p := prefix + [FromIndex(i)];
        EnumShape(nodes, q, p);
        forall x | x in Enum(nodes, q, p)
          ensures i < AlphabetSize && |prefix| < |x| && x[..|prefix|] == prefix && FromIndex(i) <= x[|prefix|]
        {
          assert x[..|p|] == p;
          assert x[..|prefix|] == p[..|prefix|];
        }
    }
  }

  /** The enumeration is strictly ascending. */
  lemma {:induction false} EnumSorted(nodes: seq<Node>, n: nat, prefix: string)
    requires Arena(nodes) && n < |nodes|
    ensures StrictlySorted(Enum(nodes, n, prefix))
    decreases |nodes| - n, AlphabetSize + 1
  {
    var head: seq<string> := if nodes[n].isWordEnd then [prefix] else [];
    var tail := EnumFrom(nodes, n, prefix, 0);
    EnumFromSorted(nodes, n, prefix, 0);
    EnumFromShape(nodes, n, prefix, 0);
    forall x, y | x in head && y in tail
      ensures Less(x, y)
    {
      assert x == prefix && prefix < y;
      PrefixLess(x, y);
    }
    SortedConcat(head, tail);
  }

  /** Strings that branch off a common prefix at a smaller letter come first. */
  lemma BranchesOrdered(prefix: string, i: nat, head: seq<string>, tail: seq<string>)
    requires i < AlphabetSize
    requires forall x :: x in head ==> prefix + [FromIndex(i)] <= x
    requires forall y :: y in tail ==>
               i + 1 < AlphabetSize && |prefix| < |y| && y[..|prefix|] == prefix && FromIndex(i + 1) <= y[|prefix|]
    ensures forall x, y :: x in head && y in tail ==> Less(x, y)
  {
    forall x, y | x in head && y in tail
      ensures Less(x, y)
    {
      var p := prefix + [FromIndex(i)];
      assert x[..|p|] == p;
      assert x[..|prefix|] == prefix && x[|prefix|] == FromIndex(i);
      BranchLess(prefix, x, y);
    }
  }

  lemma {:induction false} EnumFromSorted(nodes: seq<Node>, n: nat, prefix: string, i: nat)
    requires Arena(nodes) && n < |nodes| && i <= AlphabetSize
    ensures StrictlySorted(EnumFrom(nodes, n, prefix, i))
    decreases |nodes| - n, AlphabetSize - i
  {
    if i < AlphabetSize {
      EnumFromSorted(nodes, n, prefix, i + 1);
      match nodes[n].children[i]
      case None =>
      case Some(q) =>
        var p := prefix + [FromIndex(i)];
        var head := Enum(nodes, q, p);
        var tail := EnumFrom(nodes, n, prefix, i + 1);
        EnumSorted(nodes, q, p);
        EnumShape(nodes, q, p);
        EnumFromShape(nodes, n, prefix, i + 1);
        BranchesOrdered(prefix, i, head, tail);
        SortedConcat(head, tail);
    }
  }

  /** What is enumerated below node `n`, starting from its spelling, are stored
      words that extend that spelling... */
  lemma {:induction false} EnumSound(nodes: seq<Node>, spelling: seq<string>, parent: seq<nat>, slot: seq<nat>, n: nat)
    requires Labelled(nodes, spelling, parent, slot) && n < |nodes|
    ensures forall x :: x in Enum(nodes, n, spelling[n]) ==> x in WordsOf(nodes, spelling) && spelling[n] <= x
    decreases |nodes| - n, AlphabetSize + 1
  {
    EnumFromSound(nodes, spelling, parent, slot, n, 0);
    if nodes[n].isWordEnd {
      assert spelling[n] in WordsOf(nodes, spelling);
    }
  }

  lemma {:induction false} EnumFromSound(nodes: seq<Node>, spelling: seq<string>, parent: seq<nat>, slot: seq<nat>, n: nat, i: nat)
    requires Labelled(nodes, spelling, parent, slot) && n < |nodes| && i <= AlphabetSize
    ensures forall x :: x in EnumFrom(nodes, n, spelling[n], i) ==> x in WordsOf(nodes, spelling) && spelling[n] <= x
    decreases |nodes| - n, AlphabetSize - i
  {
    if i < AlphabetSize {
      EnumFromSound(nodes, spelling, parent, slot, n, i + 1);
      match nodes[n].children[i]
      case None =>
      case Some(q) =>
        assert spelling[q] == spelling[n] + [FromIndex(i)];
        EnumSound(nodes, spelling, parent, slot, q);
    }
  }

  /** A child's enumeration is part of what slots `i` onwards contribute,
      for every `i` up to the child's slot. */
  lemma {:induction false} EnumFromIncludes(nodes: seq<Node>, n: nat, prefix: string, i: nat, j: nat, x: string)
    requires Arena(nodes) && n < |nodes| && i <= j < AlphabetSize
    requires nodes[n].children[j].Some?
    requires x in Enum(nodes, nodes[n].children[j].value, prefix + [FromIndex(j)])
    ensures x in EnumFrom(nodes, n, prefix, i)
    decreases j - i
  {
    if i < j {
      EnumFromIncludes(nodes, n, prefix, i + 1, j, x);
    }
  }

  /** ...and every stored word that extends the spelling is enumerated. */
  lemma {:induction false} EnumComplete(nodes: seq<Node>, spelling: seq<string>, parent: seq<nat>, slot: seq<nat>, n: nat, w: string)
    requires Labelled(nodes, spelling, parent, slot) && n < |nodes|
    requires w in WordsOf(nodes, spelling) && spelling[n] <= w
    ensures w in Enum(nodes, n, spelling[n])
    decreases |w| - |spelling[n]|
  {
    var m :| 0 <= m < |nodes| && nodes[m].isWordEnd && spelling[m] == w;
    if w == spelling[n] {
      LabelsDistinct(nodes, spelling, parent, slot, m, n);
    } else {
      var d := |spelling[n]|;
      var c := w[d];
      var k := Ancestor(nodes, spelling, parent, slot, m, w[..d + 1]);
      assert w[..d + 1] == spelling[n] + [c];
      ChildByLabel(nodes, spelling, parent, slot, n, k, c);
      var j := c as int - 'a' as int;
      assert FromIndex(j) == c;
      EnumComplete(nodes, spelling, parent, slot, k, w);
      EnumFromIncludes(nodes, n, spelling[n], 0, j, w);
    }
  }

  /** The enumeration below the node of `spelling[n]` lists exactly the stored
      words that extend it, in strictly ascending order. */
  lemma EnumSpec(nodes: seq<Node>, spelling: seq<string>, parent: seq<nat>, slot: seq<nat>, n: nat)
    requires Labelled(nodes, spelling, parent, slot) && n < |nodes|
    ensures StrictlySorted(Enum(nodes, n, spelling[n]))
    ensures forall x :: x in Enum(nodes, n, spelling[n]) <==> x in WordsOf(nodes, spelling) && spelling[n] <= x
  {
    EnumSorted(nodes, n, spelling[n]);
    EnumSound(nodes, spelling, parent, slot, n);
    forall x | x in WordsOf(nodes, spelling) && spelling[n] <= x
      ensures x in Enum(nodes, n, spelling[n])
    {
      EnumComplete(nodes, spelling, parent, slot, n, x);
    }
  }
}
