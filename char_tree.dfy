/**
 * The character tree the permutation strategy builds over the corpus: a
 * node per distinct prefix, each holding the prefix that leads to it and a
 * map from the next letter to the child node. Nodes are updated in place.
 */
module CharTree {
  import opened Wrappers

  /** `s` is a prefix of one of `words`. */
  ghost predicate PrefixOfSome(s: string, words: seq<string>)
    decreases |words|
  {
    |words| > 0 && (s <= words[|words| - 1] || PrefixOfSome(s, words[..|words| - 1]))
  }

  /** PrefixOfSome agrees with its quantified reading. */
  lemma {:induction false} PrefixOfSomeMeaning(s: string, words: seq<string>)
    ensures PrefixOfSome(s, words) <==> exists w :: w in words && s <= w
    decreases |words|
  {
    if |words| > 0 {
      var init := words[..|words| - 1];
      PrefixOfSomeMeaning(s, init);
      assert words == init + [words[|words| - 1]];
      if exists w :: w in words && s <= w {
        var w :| w in words && s <= w;
        if w != words[|words| - 1] { assert w in init; }
      }
      if PrefixOfSome(s, words) {
        if s <= words[|words| - 1] {
          assert words[|words| - 1] in words;
        } else {
          var w :| w in init && s <= w;
          assert w in words;
        }
      }
    }
  }

  /** createCharNode: a node for the string leading to it, with no children yet. */
  class CharNode {
    const str: string
    var children: map<char, CharNode>

    constructor (s: string)
      ensures str == s && children == map[]
    {
      str := s;
      children := map[];
    }
  }

  /**
   * The tree buildTree returns: its root, with ghost bookkeeping of the nodes
   * it owns, the node reached by each path and the words inserted so far.
   */
  class CharTree {
    const root: CharNode
    ghost var Nodes: set<CharNode>
    ghost var Index: map<string, CharNode>
    ghost var Words: seq<string>

    /**
     * Structural invariant: the root is the node of the empty path; each
     * indexed path leads to a node holding that path and every node is the
     * indexed node of its own string; a child under letter c extends its
     * parent's string by c; every non-empty path hangs off its parent path.
     */
    ghost predicate Shape()
      reads this`Index, this`Nodes, Nodes
    {
      && root in Nodes && "" in Index && Index[""] == root
      && (forall s :: s in Index ==> Index[s] in Nodes && Index[s].str == s)
      && (forall n :: n in Nodes ==> n.str in Index && Index[n.str] == n)
      && (forall n, c :: n in Nodes && c in n.children ==>
            n.children[c] in Nodes && n.children[c].str == n.str + [c])
      && (forall s {:trigger Indexed(s)} :: Indexed(s) && s != [] ==>
            s[..|s| - 1] in Index && s[|s| - 1] in Index[s[..|s| - 1]].children)
    }

    /** `s` is a path that has a node (named so the parent rule above has a trigger of its own). */
    ghost predicate Indexed(s: string)
      reads this`Index
    {
      s in Index
    }

    /**
     * Full invariant: the shape, every inserted word has a node, and every
     * node's string is a prefix of some inserted word.
     */
    ghost predicate Valid()
      reads this`Index, this`Nodes, this`Words, Nodes
    {
      && Shape()
      && (forall w :: w in Words ==> w in Index)
      && (forall s :: s in Index ==> s == [] || PrefixOfSome(s, Words))
    }

    /** The paths with nodes are closed under prefixes. */
    lemma {:induction false} PrefixesIndexed(s: string)
      requires Shape() && s in Index
      ensures forall j :: 0 <= j <= |s| ==> s[..j] in Index
      decreases |s|
    {
      if s != [] {
        var parent := s[..|s| - 1];
        assert Indexed(s);
        PrefixesIndexed(parent);
        forall j | 0 <= j <= |s| ensures s[..j] in Index {
          if j < |s| { assert s[..j] == parent[..j]; } else { assert s[..j] == s; }
        }
      }
    }

    /** The node reached from the root by following the letters of `s`, if any. */
    ghost function Walk(s: string): (r: Option<CharNode>)
      reads this`Index, this`Nodes, Nodes
      requires Shape()
      ensures r.Some? ==> r.value in Nodes
      decreases |s|
    {
      if s == [] then Some(root)
      else
        match Walk(s[..|s| - 1])
        case None => None
        case Some(p) => if s[|s| - 1] in p.children then Some(p.children[s[|s| - 1]]) else None
    }

    /** Following any path from the root ends at a node whose string is that path. */
    lemma {:induction false} WalkSpellsPath(s: string)
      requires Shape()
      ensures Walk(s).Some? ==> Walk(s).value.str == s
      decreases |s|
    {
      if s != [] {
        WalkSpellsPath(s[..|s| - 1]);
        assert s == s[..|s| - 1] + [s[|s| - 1]];
      }
    }

    /** Every indexed path is reached by following its letters from the root. */
    lemma {:induction false} WalkFindsIndexed(s: string)
      requires Shape() && s in Index
      ensures Walk(s) == Some(Index[s])
      decreases |s|
    {
      if s != [] {
        var parent := s[..|s| - 1];
        assert Indexed(s);
        WalkFindsIndexed(parent);
        var child := Index[parent].children[s[|s| - 1]];
        assert child.str == s by {
          assert parent + [s[|s| - 1]] == s;
        }
      }
    }

    /** Exactly the empty path and the prefixes of inserted words have nodes. */
    lemma NodesArePrefixes(s: string)
      requires Valid()
      ensures s in Index <==> s == [] || exists w :: w in Words && s <= w
    {
      PrefixOfSomeMeaning(s, Words);
      if exists w :: w in Words && s <= w {
        var w :| w in Words && s <= w;
        PrefixesIndexed(w);
        assert w[..|s|] == s;
      }
    }

    /** Following the letters of any inserted word from the root reaches the node spelling it. */
    lemma WordsReachable()
      requires Valid()
      ensures forall w :: w in Words ==> Walk(w).Some? && Walk(w).value.str == w
    {
      forall w | w in Words ensures Walk(w).Some? && Walk(w).value.str == w {
        WalkFindsIndexed(w);
      }
    }

    /** A tree holding only the root, for the empty path. */
    constructor ()
      ensures Valid() && fresh(Nodes)
      ensures Words == [] && Index.Keys == {[]}
    {
      root := new CharNode([]);
      new;
      Nodes := {root};
      Index := map[[] := root];
      Words := [];
    }

    /**
     * createCharNode hooked under `p` for letter `c`: the new node spells
     * p's string followed by c, and nothing else in the tree changes.
     */
    method AddChild(p: CharNode, c: char) returns (n: CharNode)
      requires Shape() && p in Nodes && c !in p.children
      modifies this`Index, this`Nodes, p
      ensures Shape()
      ensures fresh(n) && n.str == p.str + [c] && n.children == map[]
      ensures p.children == old(p.children)[c := n]
      ensures Nodes == old(Nodes) + {n}
      ensures Index == old(Index)[p.str + [c] := n]
    {
      var s := p.str + [c];
      assert !Indexed(s) by {
        assert s[..|s| - 1] == p.str;
      }
      n := new CharNode(s);
      p.children := p.children[c := n];
      Nodes := Nodes + {n};
      Index := Index[s := n];
      forall m | m in Nodes
        ensures m.str in Index && Index[m.str] == m
      {
        if m != n {
          assert m in old(Nodes);
        }
      }
      forall m, d | m in Nodes && d in m.children
        ensures m.children[d] in Nodes && m.children[d].str == m.str + [d]
      {
        if m != p && m != n {
          assert m.children == old(m.children);
        }
      }
      forall t {:trigger Indexed(t)} | Indexed(t) && t != []
        ensures t[..|t| - 1] in Index && t[|t| - 1] in Index[t[..|t| - 1]].children
      {
        if t == s {
          assert t[..|t| - 1] == p.str;
        } else {
          assert old(Indexed(t));
        }
      }
    }

    /**
     * One step of buildTree's inner loop: moves the cursor from the node of
     * w[..i] to the node of w[..i+1], creating that node when the cursor has
     * no child for the next letter; only that path can be new.
     */
    method Descend(p: CharNode, w: string, i: nat) returns (q: CharNode)
      requires Shape() && i < |w| && w[..i] in Index && Index[w[..i]] == p
      modifies this`Index, this`Nodes, p
      ensures Shape() && w[..i + 1] in Index && Index[w[..i + 1]] == q
      ensures forall s :: s in old(Index) ==> s in Index && Index[s] == old(Index[s])
      ensures forall s :: s in Index ==> s in old(Index) || s == w[..i + 1]
      ensures Nodes >= old(Nodes) && fresh(Nodes - old(Nodes))
    {
      var c := w[i];
      assert w[..i + 1] == p.str + [c];
      if c !in p.children {
        q := AddChild(p, c);
      } else {
        q := p.children[c];
      }
    }

    /**
     * One pass of buildTree's outer loop: walks the cursor down the word,
     * creating a child wherever none exists for the next letter.
     */
    method Insert(w: string)
      requires Valid()
      modifies this`Index, this`Nodes, this`Words, Nodes
      ensures Valid()
      ensures Words == old(Words) + [w]
      ensures forall s :: s in old(Index) ==> s in Index && Index[s] == old(Index[s])
      ensures forall s :: s in Index ==> s in old(Index) || s <= w
      ensures Nodes >= old(Nodes) && fresh(Nodes - old(Nodes))
    {
      var p := root;
      for i := 0 to |w|
        invariant Shape() && Words == old(Words)
        invariant w[..i] in Index && Index[w[..i]] == p
        invariant forall s :: s in old(Index) ==> s in Index && Index[s] == old(Index[s])
        invariant forall s :: s in Index ==> s in old(Index) || s <= w
        invariant Nodes >= old(Nodes) && fresh(Nodes - old(Nodes))
      {
        p := Descend(p, w, i);
      }
      assert w[..|w|] == w;
      Words := Words + [w];
      assert Valid() by {
        forall v | v in Words ensures v in Index {
          if v != w { assert v in old(Words); }
        }
        assert Words[..|Words| - 1] == old(Words);
      }
    }
  }

  /**
   * buildTree: inserts every word; afterwards following the letters of any
   * inserted word from the root reaches a node whose string is that word.
   */
  method BuildTree(words: seq<string>) returns (t: CharTree)
    ensures fresh(t) && t.Valid() && t.Words == words
    ensures forall w :: w in words ==> t.Walk(w).Some? && t.Walk(w).value.str == w
  {
    t := new CharTree();
    for k := 0 to |words|
      invariant t.Valid() && t.Words == words[..k]
      invariant fresh(t) && fresh(t.Nodes)
    {
      t.Insert(words[k]);
      assert words[..k + 1] == words[..k] + [words[k]];
    }
    assert words[..|words|] == words;
    t.WordsReachable();
  }
}
