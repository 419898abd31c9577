/** The prefix tree of Trie.java: lowercase words stored along paths of
    26-way nodes, with lookup, prefix test and prefix enumeration. */
module PrefixTree {
  import opened Failures
  import opened Lexicographic
  import opened TrieNode
  import opened ArrayList

  /** The StringBuilder that collect threads through its recursion. */
  class CharBuffer {
    var chars: string

    constructor(s: string)
      ensures chars == s
    {
      chars := s;
    }

    method Append(c: char)
      modifies this
      ensures chars == old(chars) + [c]
    {
      chars := chars + [c];
    }

    /** deleteCharAt(length() - 1). */
    method DeleteLast()
      requires chars != []
      modifies this
      ensures chars == old(chars)[..|old(chars)| - 1]
    {
      chars := chars[..|chars| - 1];
    }
  }

  /** Rejects a null or empty word; the letters are not checked here. */
  function CheckWordForInsert(word: Option<string>): (r: Outcome)
    ensures r.Pass? <==> word.Some? && word.value != []
    ensures r.Fail? ==> r.error == InvalidKey
  {
    if word.None? then Fail(InvalidKey)
    else if word.value == [] then Fail(InvalidKey)
    else Pass
  }

  /** Position of the first character outside 'a'..'z', or `|s|` if none. */
  function FirstInvalid(s: string): (k: nat)
    ensures k <= |s| && AllLower(s[..k])
    ensures k < |s| ==> !IsLower(s[k])
    ensures AllLower(s) ==> k == |s|
  {
    if s == [] then 0
    else if !IsLower(s[0]) then 0
    else
      var k := 1 + FirstInvalid(s[1..]);
      assert s[..k] == [s[0]] + s[1..][..k - 1];
      k
  }

  /** The prefixes `s[..0]` to `s[..k]`. */
  ghost function Prefixes(s: string, k: nat): set<string>
    requires k <= |s|
  {
    set j | 0 <= j <= k :: s[..j]
  }

  /** `Prefixes(s, k)` holds exactly the prefixes of `s` no longer than `k`. */
  lemma PrefixesMeaning(s: string, k: nat, p: string)
    requires k <= |s|
    ensures p in Prefixes(s, k) <==> p <= s && |p| <= k
  {
    if p <= s && |p| <= k {
      assert p == s[..|p|];
    }
  }

  lemma PrefixesStep(s: string, k: nat)
    requires k < |s|
    ensures s[..k + 1] == s[..k] + [s[k]]
    ensures Prefixes(s, k + 1) == Prefixes(s, k) + {s[..k + 1]}
  {
  }

  /** A stored word is lowercase and each of its prefixes is a path. */
  lemma StoredPrefixes(nodes: seq<Node>, spelling: seq<string>, parent: seq<nat>, slot: seq<nat>, w: string)
    requires Labelled(nodes, spelling, parent, slot) && w in WordsOf(nodes, spelling)
    ensures FirstInvalid(w) == |w|
    ensures Prefixes(w, |w|) <= PathsOf(nodes, spelling)
  {
    WordsLower(nodes, spelling, parent, slot, w);
    var m :| 0 <= m < |nodes| && nodes[m].isWordEnd && spelling[m] == w;
    forall p | p in Prefixes(w, |w|)
      ensures p in PathsOf(nodes, spelling)
    {
      PrefixesMeaning(w, |w|, p);
      var k := Ancestor(nodes, spelling, parent, slot, m, p);
    }
  }

  /** collect: appends to `result` every word at or below node `n` of the
      arena, spelled onto the buffer's contents, in pre-order with child
      slots in ascending order; each letter appended to the buffer is
      deleted again, so the buffer ends as it started. */
  method Collect(nodes: seq<Node>, n: nat, prefix: CharBuffer, result: MyArrayList<string>)
    requires Arena(nodes) && n < |nodes| && result.Valid()
    modifies prefix, result.Repr
    ensures prefix.chars == old(prefix.chars)
    ensures result.Valid() && fresh(result.Repr - old(result.Repr))
    ensures result.Contents == old(result.Contents) + Enum(nodes, n, old(prefix.chars))
    decreases |nodes| - n
  {
    ghost var pre := prefix.chars;
    ghost var before := result.Contents;
    if nodes[n].isWordEnd {
      result.Add(prefix.chars);
    }
    for i := 0 to AlphabetSize
      invariant prefix.chars == pre
      invariant result.Valid() && fresh(result.Repr - old(result.Repr))
      invariant result.Contents + EnumFrom(nodes, n, pre, i) == before + Enum(nodes, n, pre)
    {
      ghost var done := result.Contents;
      EnumFromStep(nodes, n, pre, i, done);
      var child := nodes[n].children[i];
      if child.Some? {
        var nextChar := FromIndex(i);
        prefix.Append(nextChar);
        Collect(nodes, child.value, prefix, result);
        prefix.DeleteLast();
      }
    }
  }

  class Trie {
    /** The node arena; `nodes[0]` is the root. */
    var nodes: seq<Node>
    /** The path that leads to each node, its parent and its slot there. */
    ghost var spelling: seq<string>
    ghost var parent: seq<nat>
    ghost var slot: seq<nat>

    /** A tree of nodes spelled by their paths; insert never marks the root. */
    ghost predicate Valid()
      reads this
    {
      Labelled(nodes, spelling, parent, slot) && !nodes[0].isWordEnd
    }

    /** Every string whose path exists, the empty one included. */
    ghost function Paths(): set<string>
      reads this
    {
      PathsOf(nodes, spelling)
    }

    /** The stored words. */
    ghost function Words(): set<string>
      reads this
    {
      WordsOf(nodes, spelling)
    }

    constructor()
      ensures Valid()
      ensures nodes == [EmptyNode()]
      ensures Words() == {} && Paths() == {[]}
    {
      nodes := [EmptyNode()];
      spelling := [[]];
      parent := [0];
      slot := [0];
      new;
      assert Paths() == {[]} by {
        assert spelling[0] == [];
      }
    }

    /** The child of node `n` for letter `c`, created empty when the slot
        was empty; throws, changing nothing, for any other character. */
    method GetOrCreateChild(n: nat, c: char) returns (r: Result<nat>)
      requires Valid() && n < |nodes|
      modifies this
      ensures Valid()
      ensures !IsLower(c) ==> r == Err(InvalidSymbol(c)) && nodes == old(nodes)
      ensures IsLower(c) && old(nodes[n].children[c as int - 'a' as int]).Some? ==>
                r == Ok(old(nodes[n].children[c as int - 'a' as int]).value) && nodes == old(nodes)
      ensures IsLower(c) && old(nodes[n].children[c as int - 'a' as int]).None? ==>
                var i := c as int - 'a' as int;
                r == Ok(|old(nodes)|) &&
                nodes == WithChild(old(nodes), n, i)
      ensures r.Ok? ==> r.value < |nodes| && spelling[r.value] == old(spelling[n]) + [c]
      ensures Paths() == old(Paths()) + (if r.Ok? then {old(spelling[n]) + [c]} else {})
      ensures Words() == old(Words())
    {
      var index := ToIndex(c);
      if index.Err? {
        return Err(index.error);
      }
      var i := index.value;
      if nodes[n].children[i].None? {
        AddChild(nodes, spelling, parent, slot, n, i);
        nodes := WithChild(nodes, n, i);
        spelling := spelling + [spelling[n] + [c]];
        parent := parent + [n];
        slot := slot + [i];
      } else {
        ghost var q := nodes[n].children[i].value;
        assert spelling[q] == spelling[n] + [c];
        assert spelling[q] in Paths();
      }
      r := Ok(nodes[n].children[i].value);
    }

    /** findNode: the node reached by `s`, `None` at the first empty slot. */
    method FindNode(s: string) returns (r: Result<Option<nat>>)
      requires Valid()
      ensures r == Walk(nodes, s)
    {
      var current := 0;
      var i := 0;
      while i < |s|
        invariant 0 <= i <= |s| && current < |nodes|
        invariant Walk(nodes, s[..i]) == Ok(Some(current))
      {
        var child := GetChild(nodes[current], s[i]);
        assert s[..i + 1][..i] == s[..i];
        if child.Err? {
          WalkSticky(nodes, s, i + 1);
          return Err(child.error);
        }
        if child.value.None? {
          WalkSticky(nodes, s, i + 1);
          return Ok(None);
        }
        current := child.value.value;
        i := i + 1;
      }
      assert s[..i] == s;
      r := Ok(Some(current));
    }

    /** Stores `word`: throws for a null or empty word; otherwise walks the
        word creating missing nodes and marks the last one as a word end.
        At a character outside 'a'..'z' it throws, and the nodes created
        for the letters before it stay in the tree. */
    method Insert(word: Option<string>) returns (r: Outcome)
      requires Valid()
      modifies this
      ensures Valid()
      ensures (word.None? || word.value == []) ==>
                r == Fail(InvalidKey) && nodes == old(nodes) && Paths() == old(Paths()) && Words() == old(Words())
      ensures word.Some? && word.value != [] ==>
                var w := word.value;
                var k := FirstInvalid(w);
                r == (if k == |w| then Pass else Fail(InvalidSymbol(w[k]))) &&
                Paths() == old(Paths()) + Prefixes(w, k) &&
                Words() == (if k == |w| then old(Words()) + {w} else old(Words()))
      ensures word.Some? && word.value in old(Words()) ==>
                r == Pass && Paths() == old(Paths()) && Words() == old(Words())
    {
      var check := CheckWordForInsert(word);
      if check.Fail? {
        EmptyNotStored(nodes, spelling, parent, slot);
        return check;
      }
      var w := word.value;
      if w in Words() {
        StoredPrefixes(nodes, spelling, parent, slot, w);
      }
      var end := CreatePath(w);
      if end.Err? {
        return Fail(end.error);
      }
      var current := end.value;
      MarkWordEnd(nodes, spelling, parent, slot, current);
      nodes := nodes[current := nodes[current].(isWordEnd := true)];
      r := Pass;
    }

    /** The loop of insert: follows `w` from the root, creating each missing
        child, up to the first character outside 'a'..'z'. */
    method CreatePath(w: string) returns (r: Result<nat>)
      requires Valid()
      modifies this
      ensures Valid()
      ensures r.Ok? <==> FirstInvalid(w) == |w|
      ensures r.Err? ==> r.error == InvalidSymbol(w[FirstInvalid(w)])
      ensures r.Ok? ==> r.value < |nodes| && spelling[r.value] == w
      ensures Paths() == old(Paths()) + Prefixes(w, FirstInvalid(w))
      ensures Words() == old(Words())
    {
      ghost var k := FirstInvalid(w);
      var current: nat := 0;
      var i := 0;
      while i < |w|
        invariant Valid()
        invariant 0 <= i <= k && current < |nodes|
        invariant spelling[current] == w[..i]
        invariant Paths() == old(Paths()) + Prefixes(w, i)
        invariant Words() == old(Words())
      {
        if i < k {
          assert w[..k][i] == w[i];
        }
        PrefixesStep(w, i);
        var child := GetOrCreateChild(current, w[i]);
        if child.Err? {
          return Err(child.error);
        }
        current := child.value;
        i := i + 1;
      }
      assert w[..i] == w;
      r := Ok(current);
    }

    /** Whether `word` is stored; false for a null or empty word.  The walk
        throws when it reaches a character outside 'a'..'z'. */
    method Contains(word: Option<string>) returns (r: Result<bool>)
      requires Valid()
      ensures word.None? || word.value == [] ==> r == Ok(false)
      ensures word.Some? && word.value != [] && Walk(nodes, word.value).Err? ==>
                r == Err(Walk(nodes, word.value).error)
      ensures word.Some? && word.value != [] && Walk(nodes, word.value).Ok? ==>
                r == Ok(word.value in Words())
    {
      if word.None? || word.value == [] {
        return Ok(false);
      }
      var node := FindNode(word.value);
      WalkWords(nodes, spelling, parent, slot, word.value);
      if node.Err? {
        return Err(node.error);
      }
      r := Ok(node.value.Some? && nodes[node.value.value].isWordEnd);
    }

    /** Whether the path of `prefix` exists; false for a null or empty
        prefix.  The walk throws as in Contains. */
    method StartsWith(prefix: Option<string>) returns (r: Result<bool>)
      requires Valid()
      ensures prefix.None? || prefix.value == [] ==> r == Ok(false)
      ensures prefix.Some? && prefix.value != [] && Walk(nodes, prefix.value).Err? ==>
                r == Err(Walk(nodes, prefix.value).error)
      ensures prefix.Some? && prefix.value != [] && Walk(nodes, prefix.value).Ok? ==>
                r == Ok(prefix.value in Paths())
    {
      if prefix.None? || prefix.value == [] {
        return Ok(false);
      }
      var node := FindNode(prefix.value);
      WalkPaths(nodes, spelling, parent, slot, prefix.value);
      if node.Err? {
        return Err(node.error);
      }
      r := Ok(node.value.Some?);
    }

    /** getByPrefix: the stored words that start with `prefix`, in a new
        list; empty for a null or empty prefix or a prefix whose path is
        absent.  The walk throws as in Contains. */
    method GetByPrefix(prefix: Option<string>) returns (r: Result<MyArrayList<string>>)
      requires Valid()
      ensures r.Ok? ==> fresh(r.value) && fresh(r.value.Repr) && r.value.Valid()
      ensures prefix.None? || prefix.value == [] ==> r.Ok? && r.value.Contents == []
      ensures prefix.Some? && prefix.value != [] && Walk(nodes, prefix.value).Err? ==>
                r == Err(Walk(nodes, prefix.value).error)
      ensures prefix.Some? && prefix.value != [] && Walk(nodes, prefix.value).Ok? ==>
                r.Ok? && StrictlySorted(r.value.Contents) &&
                forall x :: x in r.value.Contents <==> x in Words() && prefix.value <= x
    {
      var result := new MyArrayList<string>();
      if prefix.None? || prefix.value == [] {
        return Ok(result);
      }
      var p := prefix.value;
      var node := FindNode(p);
      if node.Err? {
        return Err(node.error);
      }
      if node.value.None? {
        WalkPaths(nodes, spelling, parent, slot, p);
        forall x | x in Words() && p <= x
          ensures false
        {
          var m :| 0 <= m < |nodes| && nodes[m].isWordEnd && spelling[m] == x;
          var a := Ancestor(nodes, spelling, parent, slot, m, p);
        }
        return Ok(result);
      }
      var n := node.value.value;
      WalkFound(nodes, spelling, parent, slot, p, n);
      EnumSpec(nodes, spelling, parent, slot, n);
      var current := new CharBuffer(p);
      Collect(nodes, n, current, result);
      r := Ok(result);
    }
  }

  /** After inserting a non-empty lowercase word, contains finds it, and
      every word stored before stays stored. */
  method InsertThenContains(t: Trie, w: string) returns (r: Result<bool>)
    requires t.Valid() && w != [] && AllLower(w)
    modifies t
    ensures t.Valid() && t.Words() == old(t.Words()) + {w}
    ensures r == Ok(true)
  {
    var ins := t.Insert(Some(w));
    WalkLower(t.nodes, w);
    r := t.Contains(Some(w));
  }

  /** Whatever contains finds, startsWith finds too. */
  method ContainsThenStartsWith(t: Trie, s: Option<string>) returns (c: Result<bool>, p: Result<bool>)
    requires t.Valid()
    ensures c == Ok(true) ==> p == Ok(true)
    ensures c.Err? <==> p.Err?
  {
    c := t.Contains(s);
    p := t.StartsWith(s);
  }

  /** An insert that stops at a digit keeps the path of the letters before
      it: startsWith then holds for a prefix of no stored word. */
  method FailedInsertScenario()
  {
    var t := new Trie();
    assert FirstInvalid("ab1") == 2 by {
      assert "ab1"[..2] == "ab" && AllLower("ab");
    }
    var ins := t.Insert(Some("ab1"));
    assert ins == Fail(InvalidSymbol('1'));
    assert t.Words() == {};
    PrefixesMeaning("ab1", 2, "ab");
    WalkLower(t.nodes, "ab");
    var has := t.StartsWith(Some("ab"));
    assert has == Ok(true);
    has := t.Contains(Some("ab"));
    assert has == Ok(false);
  }

  /** The only strictly ascending list of the words of {"ba", "b"} that
      extend "b". */
  lemma QueryAnswer(c: seq<string>)
    requires StrictlySorted(c)
    requires forall x :: x in c <==> x in {"ba", "b"} && "b" <= x
    ensures c == ["b", "ba"]
  {
    PrefixLess("b", "ba");
    assert StrictlySorted(["b", "ba"]);
    SortedUnique(c, ["b", "ba"]);
  }

  /** The words inserted by the Trie.java demo. */
  ghost function DemoWords(): set<string>
  {
    {"apple", "app", "application", "banana"}
  }

  /** The only strictly ascending list of the demo words that extend "app". */
  lemma DemoAnswerApp(c: seq<string>)
    requires StrictlySorted(c)
    requires forall x :: x in c <==> x in DemoWords() && "app" <= x
    ensures c == ["app", "apple", "application"]
  {
    PrefixLess("app", "apple");
    PrefixLess("app", "application");
    BranchLess("appl", "apple", "application");
    assert StrictlySorted(["app", "apple", "application"]);
    SortedUnique(c, ["app", "apple", "application"]);
  }

  /** The only strictly ascending list of the demo words that extend "ba",
      or "banana" itself, is the single word banana. */
  lemma DemoAnswerBanana(p: string, c: seq<string>)
    requires p == "ba" || p == "banana"
    requires StrictlySorted(c)
    requires forall x :: x in c <==> x in DemoWords() && p <= x
    ensures c == ["banana"]
  {
    assert StrictlySorted(["banana"]);
    SortedUnique(c, ["banana"]);
  }

  /** No demo word extends "x", so the answer is empty. */
  lemma DemoAnswerX(c: seq<string>)
    requires StrictlySorted(c)
    requires forall x :: x in c <==> x in DemoWords() && "x" <= x
    ensures c == []
  {
    forall w | w in DemoWords()
      ensures !("x" <= w)
    {
      assert w[0] != 'x';
    }
    SortedUnique(c, []);
  }

  /** getByPrefix lists the words in ascending order, whatever the order
      they were inserted in. */
  method PrefixQueryScenario()
  {
    var t := new Trie();
    assert FirstInvalid("ba") == 2 && FirstInvalid("b") == 1 by {
      assert "ba"[..2] == "ba" && AllLower("ba");
      assert "b"[..1] == "b" && AllLower("b");
    }
    var ins := t.Insert(Some("ba"));
    ins := t.Insert(Some("b"));
    WalkLower(t.nodes, "b");
    var found := t.GetByPrefix(Some("b"));
    QueryAnswer(found.value.Contents);
  }

  /** Inserts one all-lowercase word, which therefore passes, adds the word
      and keeps every old path. */
  method InsertLower(t: Trie, w: string)
    requires t.Valid() && w != [] && AllLower(w)
    modifies t
    ensures t.Valid()
    ensures t.Words() == old(t.Words()) + {w}
    ensures old(t.Paths()) <= t.Paths() && forall p :: p <= w ==> p in t.Paths()
  {
    assert FirstInvalid(w) == |w|;
    var ins := t.Insert(Some(w));
    forall p | p <= w
      ensures p in t.Paths()
    {
      PrefixesMeaning(w, |w|, p);
    }
  }

  /** The tree the Trie.java demo builds: apple, app, application and banana
      inserted in that order. */
  method BuildDemoTrie() returns (t: Trie)
    ensures fresh(t) && t.Valid()
    ensures t.Words() == DemoWords()
    ensures "ap" in t.Paths()
  {
    t := new Trie();
    assert AllLower("apple") && AllLower("app") && AllLower("application") && AllLower("banana");
    InsertLower(t, "apple");
    assert "ap" <= "apple";
    assert "ap" in t.Paths();
    InsertLower(t, "app");
    assert "ap" in t.Paths();
    InsertLower(t, "application");
    assert "ap" in t.Paths();
    InsertLower(t, "banana");
    DemoWordsInOrder();
  }

  /** The demo words, one insert at a time. */
  lemma DemoWordsInOrder()
    ensures {} + {"apple"} + {"app"} + {"application"} + {"banana"} == DemoWords()
  {
  }

  /** contains and startsWith on an all-lowercase, non-empty string. */
  method QueryLower(t: Trie, s: string) returns (word: Result<bool>, path: Result<bool>)
    requires t.Valid() && s != [] && AllLower(s)
    ensures word == Ok(s in t.Words()) && path == Ok(s in t.Paths())
  {
    WalkLower(t.nodes, s);
    word := t.Contains(Some(s));
    path := t.StartsWith(Some(s));
  }

  /** The demo's membership queries: "app" is a word, "ap" is only a path. */
  method DemoMembershipScenario()
  {
    var t := BuildDemoTrie();
    assert AllLower("app") && AllLower("ap");
    var word, path := QueryLower(t, "app");
    assert word == Ok(true);
    word, path := QueryLower(t, "ap");
    assert word == Ok(false) && path == Ok(true);
  }

  /** getByPrefix on an all-lowercase, non-empty prefix: the stored words
      that extend it, strictly ascending. */
  method ListLower(t: Trie, s: string) returns (list: MyArrayList<string>)
    requires t.Valid() && s != [] && AllLower(s)
    ensures list.Valid() && StrictlySorted(list.Contents)
    ensures forall x :: x in list.Contents <==> x in t.Words() && s <= x
  {
    WalkLower(t.nodes, s);
    var found := t.GetByPrefix(Some(s));
    list := found.value;
  }

  /** The demo's prefix queries on the demo tree. */
  method DemoPrefixScenario()
  {
    var t := BuildDemoTrie();
    assert AllLower("app") && AllLower("banana") && AllLower("ba") && AllLower("x");
    var c := ListLower(t, "app");
    DemoAnswerApp(c.Contents);
    c := ListLower(t, "banana");
    DemoAnswerBanana("banana", c.Contents);
    c := ListLower(t, "ba");
    DemoAnswerBanana("ba", c.Contents);
    c := ListLower(t, "x");
    DemoAnswerX(c.Contents);
    assert c.Contents == [];
  }
}
