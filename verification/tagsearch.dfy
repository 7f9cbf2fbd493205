/**
 * The prefix trie of `name:value` filter strings: insertion and enumeration of
 * the stored words that carry a given prefix.
 */
module TagSearch {
  import opened Seqs
  import opened Wrappers

  /** A trie node: one child per next character, and whether a stored word ends here. */
  datatype Trie = Node(children: map<char, Trie>, isLeaf: bool)

  function NewTrieNode(): (t: Trie)
    ensures forall w :: !Contains(t, w)
  {
    Node(map[], false)
  }

  /** `w` is stored below `t`: following it character by character reaches a leaf. */
  predicate Contains(t: Trie, w: string)
    decreases |w|
  {
    if |w| == 0 then t.isLeaf
    else w[0] in t.children && Contains(t.children[w[0]], w[1..])
  }

  /** `AddWord`: the empty word marks this node; otherwise reuse or create the child and recurse. */
  function AddWord(t: Trie, w: string): (t': Trie)
    decreases |w|
  {
    if |w| == 0 then t.(isLeaf := true)
    else
      var child := if w[0] in t.children then t.children[w[0]] else NewTrieNode();
      t.(children := t.children[w[0] := AddWord(child, w[1..])])
  }

  /** Insertion adds exactly the inserted word. */
  lemma {:induction false} AddWordContains(t: Trie, w: string, x: string)
    ensures Contains(AddWord(t, w), x) <==> Contains(t, x) || x == w
    decreases |w|
  {
    if |w| > 0 && |x| > 0 {
      var child := if w[0] in t.children then t.children[w[0]] else NewTrieNode();
      if x[0] == w[0] {
        AddWordContains(child, w[1..], x[1..]);
        assert x == w <==> x[1..] == w[1..] by {
          if x[1..] == w[1..] { assert x == [x[0]] + x[1..] && w == [w[0]] + w[1..]; }
        }
      }
    }
  }

  /** Inserting a word that is already stored leaves the trie unchanged. */
  lemma {:induction false} AddWordIdempotent(t: Trie, w: string)
    requires Contains(t, w)
    ensures AddWord(t, w) == t
    decreases |w|
  {
    if |w| > 0 {
      AddWordIdempotent(t.children[w[0]], w[1..]);
      assert t.children[w[0] := t.children[w[0]]] == t.children;
    }
  }

  /** The node reached by following `p` from `t`, if every character has a child. */
  function Walk(t: Trie, p: string): (r: Option<Trie>)
    decreases |p|
  {
    if |p| == 0 then Some(t)
    else if p[0] in t.children then Walk(t.children[p[0]], p[1..])
    else None
  }

  /** A word extends `p` exactly when it is stored below the node `p` leads to. */
  lemma {:induction false} ContainsExtension(t: Trie, p: string, u: string)
    ensures Contains(t, p + u) <==> Walk(t, p).Some? && Contains(Walk(t, p).value, u)
    decreases |p|
  {
    if |p| > 0 {
      assert (p + u)[0] == p[0] && (p + u)[1..] == p[1..] + u;
      if p[0] in t.children {
        ContainsExtension(t.children[p[0]], p[1..], u);
      }
    } else {
      assert p + u == u;
    }
  }

  /** The least key of a non-empty key set: the order in which children are visited. */
  function MinKey(keys: set<char>): (c: char)
    requires keys != {}
    ensures c in keys && forall d :: d in keys ==> c <= d
  {
    MinKeyExists(keys);
    var c :| c in keys && forall d :: d in keys ==> c <= d;
    c
  }

  lemma MinKeyExists(keys: set<char>)
    requires keys != {}
    ensures exists c :: c in keys && forall d :: d in keys ==> c <= d
  {
    var c := LeastOf(keys);
  }

  lemma {:induction false} LeastOf(keys: set<char>) returns (c: char)
    requires keys != {}
    ensures c in keys && forall d :: d in keys ==> c <= d
    decreases |keys|
  {
    var x :| x in keys;
    var others := keys - {x};
    if others == {} {
      assert keys == {x};
      c := x;
    } else {
      assert |others| < |keys|;
      var m := LeastOf(others);
      c := if x < m then x else m;
      forall d | d in keys ensures c <= d {
        if d != x { assert d in others; }
      }
    }
  }

  /** `x` is `partial` followed by a word stored below `t`. */
  ghost predicate Below(t: Trie, partial: string, x: string) {
    |partial| <= |x| && x[..|partial|] == partial && Contains(t, x[|partial|..])
  }

  /** `listWords`: this node's word when it is a leaf, then the words of every child subtrie. */
  function ListWords(t: Trie, partial: string): seq<string>
    decreases t, 1
  {
    (if t.isLeaf then [partial] else []) + ListChildren(t, partial, t.children.Keys)
  }

  /** The words below the children named by `keys`, visited in ascending key order. */
  function ListChildren(t: Trie, partial: string, keys: set<char>): seq<string>
    requires keys <= t.children.Keys
    decreases t, 0, |keys|
  {
    if keys == {} then []
    else
      var c := MinKey(keys);
      ListWords(t.children[c], partial + [c]) + ListChildren(t, partial, keys - {c})
  }

  /** A word strictly longer than `partial` is below `t` iff it is below the child its next character names. */
  lemma BelowChild(t: Trie, partial: string, x: string)
    requires |partial| < |x| && x[..|partial|] == partial
    ensures Below(t, partial, x) <==>
      x[|partial|] in t.children && Below(t.children[x[|partial|]], partial + [x[|partial|]], x)
  {
    var c := x[|partial|];
    assert x[..|partial| + 1] == partial + [c];
    assert x[|partial|..][0] == c && x[|partial|..][1..] == x[|partial| + 1..];
  }

  /** Enumeration lists exactly the words below `t`, each once. */
  lemma {:induction false} ListWordsExact(t: Trie, partial: string)
    ensures forall x :: x in ListWords(t, partial) <==> Below(t, partial, x)
    ensures NoDuplicates(ListWords(t, partial))
    decreases t, 1
  {
    var own := if t.isLeaf then [partial] else [];
    var rest := ListChildren(t, partial, t.children.Keys);
    ListChildrenExact(t, partial, t.children.Keys);
    forall x ensures x in own + rest <==> Below(t, partial, x) {
      if |x| == |partial| && x[..|partial|] == partial {
        assert x == partial && x[|partial|..] == [];
      } else if |partial| < |x| && x[..|partial|] == partial {
        BelowChild(t, partial, x);
      }
    }
    NoDuplicatesAppend(own, rest);
  }

  lemma {:induction false} ListChildrenExact(t: Trie, partial: string, keys: set<char>)
    requires keys <= t.children.Keys
    ensures forall x :: x in ListChildren(t, partial, keys) <==>
      |partial| < |x| && x[..|partial|] == partial && x[|partial|] in keys
      && Below(t.children[x[|partial|]], partial + [x[|partial|]], x)
    ensures NoDuplicates(ListChildren(t, partial, keys))
    decreases t, 0, |keys|
  {
    if keys != {} {
      var c := MinKey(keys);
      var first := ListWords(t.children[c], partial + [c]);
      var rest := ListChildren(t, partial, keys - {c});
      ListWordsExact(t.children[c], partial + [c]);
      ListChildrenExact(t, partial, keys - {c});
      forall x | x in first
        ensures |partial| < |x| && x[..|partial|] == partial && x[|partial|] == c
      {
        assert x[..|partial| + 1] == partial + [c];
        assert x[..|partial|] == x[..|partial| + 1][..|partial|];
      }
      NoDuplicatesAppend(first, rest);
    }
  }

  /** `traverse`: follow `path`, then enumerate below the node reached. */
  function Traverse(t: Trie, partial: string, path: string): seq<string>
    decreases |path|
  {
    if |path| == 0 then ListWords(t, partial)
    else if path[0] !in t.children then []
    else Traverse(t.children[path[0]], partial + [path[0]], path[1..])
  }

  lemma {:induction false} TraverseIsWalk(t: Trie, partial: string, path: string)
    ensures Traverse(t, partial, path) ==
      if Walk(t, path).Some? then ListWords(Walk(t, path).value, partial + path) else []
    decreases |path|
  {
    if |path| > 0 && path[0] in t.children {
      TraverseIsWalk(t.children[path[0]], partial + [path[0]], path[1..]);
      assert partial + [path[0]] + path[1..] == partial + path;
    } else if |path| == 0 {
      assert partial + path == partial;
    }
  }

  /** `GetWordsInSubtrie`: every stored word starting with `prefix`. */
  function GetWordsInSubtrie(t: Trie, prefix: string): (r: seq<string>)
    ensures Walk(t, prefix).None? ==> r == []
    ensures forall x :: x in r <==> |prefix| <= |x| && x[..|prefix|] == prefix && Contains(t, x)
    ensures NoDuplicates(r)
  {
    TraverseExact(t, prefix);
    Traverse(t, "", prefix)
  }

  lemma TraverseExact(t: Trie, prefix: string)
    ensures Walk(t, prefix).None? ==> Traverse(t, "", prefix) == []
    ensures forall x :: x in Traverse(t, "", prefix) <==> |prefix| <= |x| && x[..|prefix|] == prefix && Contains(t, x)
    ensures NoDuplicates(Traverse(t, "", prefix))
  {
    TraverseIsWalk(t, "", prefix);
    assert "" + prefix == prefix;
    forall x | |prefix| <= |x| && x[..|prefix|] == prefix
      ensures Contains(t, x) <==> Walk(t, prefix).Some? && Contains(Walk(t, prefix).value, x[|prefix|..])
    {
      ContainsExtension(t, prefix, x[|prefix|..]);
      assert prefix + x[|prefix|..] == x;
    }
    if Walk(t, prefix).Some? {
      ListWordsExact(Walk(t, prefix).value, prefix);
    }
  }
}
