/** The nodes of the prefix tree, held in an arena: a node's parent and
    children are positions in the arena, with Nil as the null link. The
    arena's invariant ties each node to the set of words spelled from it
    down to a finished node. */
module TrieNodes {
  import opened WordSets

  /** The null link. */
  const Nil: int := -1

  /** A node: the link to its parent (Nil for the root), 26 child links
      ('a' first), the letter on the edge into it ('\0' for the root), and
      whether a stored word ends here. */
  datatype Node = Node(parent: int, children: seq<int>, data: char, isFinished: bool)

  /** A new node with the given parent, letter and flag, and no children. */
  function NewNode(parent: int, data: char, isFinished: bool): (n: Node)
    ensures n.parent == parent && n.data == data && n.isFinished == isFinished
    ensures |n.children| == 26 && forall k :: 0 <= k < 26 ==> n.children[k] == Nil
  {
    Node(parent, seq(26, _ => Nil), data, isFinished)
  }

  /** Node n has 26 child slots, and each occupied slot links to a later
      node of the arena whose parent is n and whose letter is the slot's. */
  ghost predicate Linked(ns: seq<Node>, n: int)
    requires 0 <= n < |ns|
  {
    && |ns[n].children| == 26
    && forall k :: 0 <= k < 26 && ns[n].children[k] != Nil ==>
         && n < ns[n].children[k] < |ns|
         && ns[ns[n].children[k]].parent == n
         && ns[ns[n].children[k]].data == Letter(k)
  }

  /** The words `st[n]` below node n are read off its flag and its
      children: the empty word is there exactly when n is finished, every
      other word starts with the letter of an occupied slot, and the child
      of letter c holds s exactly when n holds c followed by s. */
  ghost predicate Spells(ns: seq<Node>, st: seq<set<string>>, n: int)
    requires |ns| == |st| && 0 <= n < |ns| && Linked(ns, n)
  {
    && ([] in st[n] <==> ns[n].isFinished)
    && (forall s :: s in st[n] && s != [] ==> IsLetter(s[0]) && ns[n].children[Index(s[0])] != Nil)
    && (forall k, s {:trigger s in st[ns[n].children[k]]} :: 0 <= k < 26 && ns[n].children[k] != Nil ==>
          (s in st[ns[n].children[k]] <==> [Letter(k)] + s in st[n]))
  }

  /** No child of n, other than the one in slot `skip`, leads to no word. */
  ghost predicate PrunedBut(ns: seq<Node>, st: seq<set<string>>, n: int, skip: int)
    requires |ns| == |st| && 0 <= n < |ns| && Linked(ns, n)
  {
    forall k :: 0 <= k < 26 && k != skip && ns[n].children[k] != Nil ==> st[ns[n].children[k]] != {}
  }

  /** No child of n leads to no word: dead branches are pruned. */
  ghost predicate Pruned(ns: seq<Node>, st: seq<set<string>>, n: int)
    requires |ns| == |st| && 0 <= n < |ns| && Linked(ns, n)
  {
    forall k :: 0 <= k < 26 && ns[n].children[k] != Nil ==> st[ns[n].children[k]] != {}
  }

  /** The arena invariant: node 0 is the root, with no parent and letter
      '\0'; every node is linked, spells its words and is pruned. */
  ghost predicate Inv(ns: seq<Node>, st: seq<set<string>>)
  {
    && |ns| == |st| > 0
    && ns[0].parent == Nil && ns[0].data == '\0'
    && forall n :: 0 <= n < |ns| ==> Linked(ns, n) && Spells(ns, st, n) && Pruned(ns, st, n)
  }

  /** The words below a node are fixed by the nodes alone: two word maps
      that both satisfy the invariant over the same arena agree on every
      string at every node. */
  lemma {:induction false} SameWordsAt(ns: seq<Node>, st: seq<set<string>>, st': seq<set<string>>, n: int, s: string)
    requires Inv(ns, st) && Inv(ns, st') && 0 <= n < |ns|
    ensures s in st[n] <==> s in st'[n]
    decreases |s|
  {
    assert Linked(ns, n) && Spells(ns, st, n) && Spells(ns, st', n);
    if s != [] && IsLetter(s[0]) && ns[n].children[Index(s[0])] != Nil {
      var c := ns[n].children[Index(s[0])];
      SameWordsAt(ns, st, st', c, s[1..]);
      LetterOfIndex(s[0]);
      assert s == [Letter(Index(s[0]))] + s[1..];
    }
  }

  /** The word map is a function of the arena: the abstraction of a trie
      depends on its nodes only. */
  lemma StoredDetermined(ns: seq<Node>, st: seq<set<string>>, st': seq<set<string>>)
    requires Inv(ns, st) && Inv(ns, st')
    ensures st == st'
  {
    forall n | 0 <= n < |ns| ensures st[n] == st'[n] {
      forall s ensures s in st[n] <==> s in st'[n] {
        SameWordsAt(ns, st, st', n, s);
      }
    }
  }

  /** What is stated about node n depends only on n and its children:
      another arena that agrees there states the same. */
  lemma Frame(ns: seq<Node>, st: seq<set<string>>, ns': seq<Node>, st': seq<set<string>>, n: int)
    requires |ns| == |st| && |ns'| == |st'| && 0 <= n < |ns| <= |ns'|
    requires ns'[n].children == ns[n].children && Linked(ns, n)
    requires forall k :: 0 <= k < 26 && ns[n].children[k] != Nil ==>
               && ns'[ns[n].children[k]].parent == ns[ns[n].children[k]].parent
               && ns'[ns[n].children[k]].data == ns[ns[n].children[k]].data
               && st'[ns[n].children[k]] == st[ns[n].children[k]]
    ensures Linked(ns', n)
    ensures st'[n] == st[n] && ns'[n].isFinished == ns[n].isFinished && Spells(ns, st, n) ==> Spells(ns', st', n)
    ensures Pruned(ns, st, n) ==> Pruned(ns', st', n)
  {
  }

  /** The same for all but one child slot. */
  lemma FrameBut(ns: seq<Node>, st: seq<set<string>>, ns': seq<Node>, st': seq<set<string>>, n: int, skip: int)
    requires |ns| == |st| && |ns'| == |st'| && 0 <= n < |ns| <= |ns'|
    requires ns'[n].children == ns[n].children && Linked(ns, n)
    requires forall k :: 0 <= k < 26 && ns[n].children[k] != Nil ==>
               && ns'[ns[n].children[k]].parent == ns[ns[n].children[k]].parent
               && ns'[ns[n].children[k]].data == ns[ns[n].children[k]].data
               && st'[ns[n].children[k]] == st[ns[n].children[k]]
    ensures Linked(ns', n)
    ensures PrunedBut(ns, st, n, skip) ==> PrunedBut(ns', st', n, skip)
  {
  }

  /** While a word is being inserted or removed along a path: the arena is
      linked everywhere, and every node spells its words except `cur`,
      which spells `pending`, its words before the change reached it. */
  ghost predicate SpellsBut(ns: seq<Node>, st: seq<set<string>>, cur: int, pending: set<string>)
  {
    && |ns| == |st| && 0 <= cur < |ns|
    && ns[0].parent == Nil && ns[0].data == '\0'
    && (forall n :: 0 <= n < |ns| ==> Linked(ns, n))
    && (forall n :: 0 <= n < |ns| && n != cur ==> Spells(ns, st, n))
    && Spells(ns, st[cur := pending], cur)
  }

  /** While a word is being inserted: as SpellsBut, and pruned everywhere. */
  ghost predicate Relaxed(ns: seq<Node>, st: seq<set<string>>, cur: int, pending: set<string>)
  {
    && |ns| == |st| && 0 <= cur < |ns|
    && ns[0].parent == Nil && ns[0].data == '\0'
    && (forall n :: 0 <= n < |ns| ==> Linked(ns, n) && Pruned(ns, st, n))
    && (forall n :: 0 <= n < |ns| && n != cur ==> Spells(ns, st, n))
    && Spells(ns, st[cur := pending], cur)
  }

  /** Inserting: the next letter of the word already has a child, which
      becomes the current node. */
  lemma InsertDescend(ns: seq<Node>, st: seq<set<string>>, cur: int, pending: set<string>, w: string, i: nat)
    requires Relaxed(ns, st, cur, pending) && Linked(ns, cur) && i < |w| && st[cur] == pending + {w[i..]}
    requires IsLetter(w[i]) && ns[cur].children[Index(w[i])] != Nil
    ensures var next := ns[cur].children[Index(w[i])];
            && cur < next < |ns|
            && Relaxed(ns, st[next := st[next] + {w[i + 1..]}], next, st[next])
  {
    var k := Index(w[i]);
    var next := ns[cur].children[k];
    var st' := st[next := st[next] + {w[i + 1..]}];
    LetterOfIndex(w[i]);
    assert w[i..] == [w[i]] + w[i + 1..];
    forall n | 0 <= n < |ns| ensures Linked(ns, n) && Pruned(ns, st', n) && (n != next ==> Spells(ns, st', n)) {
      if n != cur && n != next {
        Frame(ns, st, ns, st', n);
      } else if n == cur {
        var before := st[cur := pending];
        assert Spells(ns, before, cur);
        forall j, t | 0 <= j < 26 && ns[cur].children[j] != Nil
          ensures t in st'[ns[cur].children[j]] <==> [Letter(j)] + t in st'[cur]
        {
          assert ([Letter(j)] + t)[0] == Letter(j) && ([Letter(j)] + t)[1..] == t;
          assert t in before[ns[cur].children[j]] <==> [Letter(j)] + t in pending;
        }
      } else {
        Frame(ns, st, ns, st', n);
      }
    }
    Frame(ns, st, ns, st'[next := st[next]], next);
  }

  /** Inserting a word that is already stored: the next letter has a
      child, and the child holds the rest of the word. */
  lemma InsertExisting(ns: seq<Node>, st: seq<set<string>>, cur: int, pending: set<string>, w: string, i: nat)
    requires Relaxed(ns, st, cur, pending) && Linked(ns, cur) && i < |w| && IsLetter(w[i]) && w[i..] in pending
    ensures var next := ns[cur].children[Index(w[i])];
            next != Nil && 0 <= next < |ns| && w[i + 1..] in st[next]
  {
    var k := Index(w[i]);
    var before := st[cur := pending];
    assert Linked(ns, cur) && Spells(ns, before, cur);
    assert w[i..] == [w[i]] + w[i + 1..];
    LetterOfIndex(w[i]);
    assert w[i..][0] == w[i] && ns[cur].children[k] != Nil;
    assert w[i + 1..] in before[ns[cur].children[k]];
  }

  /** Inserting: the next letter of the word has no child yet; a new node
      is appended to the arena, linked into the current node's slot, and
      becomes the current node. */
  lemma InsertGrow(ns: seq<Node>, st: seq<set<string>>, cur: int, pending: set<string>, w: string, i: nat)
    requires Relaxed(ns, st, cur, pending) && Linked(ns, cur) && i < |w| && st[cur] == pending + {w[i..]}
    requires IsLetter(w[i]) && ns[cur].children[Index(w[i])] == Nil
    ensures var ns' := ns + [NewNode(cur, w[i], false)];
            var ns'' := ns'[cur := ns'[cur].(children := ns'[cur].children[Index(w[i]) := |ns|])];
            Relaxed(ns'', st + [{w[i + 1..]}], |ns|, {})
  {
    var k := Index(w[i]);
    var m := |ns|;
    var ns' := ns + [NewNode(cur, w[i], false)];
    var ns'' := ns'[cur := ns'[cur].(children := ns'[cur].children[k := m])];
    var st'' := st + [{w[i + 1..]}];
    LetterOfIndex(w[i]);
    assert w[i..] == [w[i]] + w[i + 1..];
    forall n | 0 <= n < |ns''| ensures Linked(ns'', n) && Pruned(ns'', st'', n) && (n != m ==> Spells(ns'', st'', n)) {
      if n == m {
      } else if n != cur {
        Frame(ns, st, ns'', st'', n);
      } else {
        var before := st[cur := pending];
        assert Spells(ns, before, cur);
        forall j, t | 0 <= j < 26 && ns''[cur].children[j] != Nil
          ensures t in st''[ns''[cur].children[j]] <==> [Letter(j)] + t in st''[cur]
        {
          assert ([Letter(j)] + t)[0] == Letter(j) && ([Letter(j)] + t)[1..] == t;
          if j != k {
            assert t in before[ns[cur].children[j]] <==> [Letter(j)] + t in pending;
          }
        }
      }
    }
  }

  /** Starting an insertion or a removal at the root: the root's words
      change by `w` and every other node is as before. */
  lemma RelaxRoot(ns: seq<Node>, st: seq<set<string>>, root': set<string>)
    requires Inv(ns, st)
    ensures Relaxed(ns, st[0 := root'], 0, st[0])
  {
    var st' := st[0 := root'];
    forall n | 0 <= n < |ns| ensures Linked(ns, n) && Pruned(ns, st', n) && (n != 0 ==> Spells(ns, st', n)) {
      Frame(ns, st, ns, st', n);
    }
    assert st'[0 := st[0]] == st;
  }

  /** Finishing an insertion: once the whole word is spelled, marking the
      current node finished restores the arena invariant. */
  lemma InsertFinish(ns: seq<Node>, st: seq<set<string>>, cur: int, pending: set<string>)
    requires Relaxed(ns, st, cur, pending) && st[cur] == pending + {[]}
    ensures Inv(ns[cur := ns[cur].(isFinished := true)], st)
  {
    var ns' := ns[cur := ns[cur].(isFinished := true)];
    forall n | 0 <= n < |ns| ensures Linked(ns', n) && Spells(ns', st, n) && Pruned(ns', st, n) {
      if n != cur {
        Frame(ns, st, ns', st, n);
      } else {
        Frame(ns, st, ns', st, n);
        var before := st[cur := pending];
        assert Linked(ns, cur) && Spells(ns, before, cur);
        forall j, t | 0 <= j < 26 && ns[cur].children[j] != Nil
          ensures t in st[ns[cur].children[j]] <==> [Letter(j)] + t in st[cur]
        {
          assert t in before[ns[cur].children[j]] <==> [Letter(j)] + t in pending;
        }
      }
    }
  }

  /** `below` holds exactly the strings that continue `p` to a word of
      `words`: the words below the node that `p` leads to. */
  ghost predicate Continues(words: set<string>, p: string, below: set<string>)
  {
    forall t {:trigger t in below} :: t in below <==> p + t in words
  }

  /** Below the root lie all the words. */
  lemma ContinuesRoot(words: set<string>)
    ensures Continues(words, [], words)
  {
    forall t: string ensures [] + t == t {
    }
  }

  /** Going down one letter `c`: what lies below the child is what lies
      below the node after `c`. */
  lemma ContinuesStep(words: set<string>, p: string, below: set<string>, c: char, below': set<string>)
    requires Continues(words, p, below)
    requires forall t {:trigger t in below'} :: t in below' <==> [c] + t in below
    ensures Continues(words, p + [c], below')
  {
    forall t ensures t in below' <==> p + [c] + t in words {
      assert p + [c] + t == p + ([c] + t);
    }
  }

  /** A node with words below it: some word continues `p`. */
  lemma ContinuesSome(words: set<string>, p: string, below: set<string>)
    requires Continues(words, p, below) && below != {}
    ensures exists w :: w in words && p <= w
  {
    var t :| t in below;
    assert p <= p + t && p + t in words;
  }

  /** When nothing below the node starts with `c`, no word continues `p`
      with `c`. */
  lemma ContinuesNone(words: set<string>, p: string, below: set<string>, c: char)
    requires Continues(words, p, below)
    requires forall s :: s in below && s != [] ==> s[0] != c
    ensures forall t :: t != [] && t[0] == c ==> p + t !in words
  {
  }

  /** The child of letter c holds the words of node n that start with c,
      without the c; when there is no such child, no word of n starts
      with c. */
  lemma ChildWords(ns: seq<Node>, st: seq<set<string>>, n: int, c: char)
    requires |ns| == |st| && 0 <= n < |ns| && Linked(ns, n) && Spells(ns, st, n)
    ensures IsLetter(c) && ns[n].children[Index(c)] != Nil ==>
              forall t {:trigger t in st[ns[n].children[Index(c)]]} ::
                t in st[ns[n].children[Index(c)]] <==> [c] + t in st[n]
    ensures !(IsLetter(c) && ns[n].children[Index(c)] != Nil) ==>
              forall s :: s in st[n] && s != [] ==> s[0] != c
  {
    if IsLetter(c) {
      LetterOfIndex(c);
    }
  }

  /** Walking `s`: the node reached after its first i letters has no
      child for the next letter, so no stored word starts with `s`. */
  lemma WalkMissing(ns: seq<Node>, st: seq<set<string>>, n: int, words: set<string>, s: string, i: nat)
    requires |ns| == |st| && 0 <= n < |ns| && Linked(ns, n) && Spells(ns, st, n)
    requires i < |s| && Continues(words, s[..i], st[n])
    requires !(IsLetter(s[i]) && ns[n].children[Index(s[i])] != Nil)
    ensures forall t :: s + t !in words
    ensures forall w :: s <= w ==> w !in words
  {
    ChildWords(ns, st, n, s[i]);
    ContinuesNone(words, s[..i], st[n], s[i]);
    forall t ensures s + t == s[..i] + (s[i..] + t) && (s[i..] + t)[0] == s[i] {
    }
    forall w | s <= w ensures w !in words {
      assert w == s + w[|s|..];
    }
  }

  /** Walking `s` from the root, i letters in: `path` leads from the root
      to node n, whose words are what continues the first i letters, and
      some word does once a letter has been read. */
  ghost predicate Walking(ns: seq<Node>, st: seq<set<string>>, s: string, i: nat, path: seq<int>, n: int)
  {
    && |ns| == |st| > 0 && i <= |s| && 0 <= n < |ns|
    && IsPath(ns, s[..i], path) && path[0] == 0 && path[i] == n
    && Continues(st[0], s[..i], st[n])
    && (i > 0 ==> st[n] != {})
  }

  /** Walking `s`: nothing read yet, at the root. */
  lemma WalkStart(ns: seq<Node>, st: seq<set<string>>, s: string)
    requires |ns| == |st| > 0
    ensures Walking(ns, st, s, 0, [0], 0)
  {
    assert s[..0] == [];
    ContinuesRoot(st[0]);
  }

  /** Walking `s`: the child for the next letter holds what continues one
      more letter, and some word. */
  lemma WalkStep(ns: seq<Node>, st: seq<set<string>>, s: string, i: nat, path: seq<int>, n: int)
    requires Walking(ns, st, s, i, path, n) && i < |s|
    requires Linked(ns, n) && Spells(ns, st, n) && Pruned(ns, st, n)
    requires IsLetter(s[i]) && ns[n].children[Index(s[i])] != Nil
    ensures var next := ns[n].children[Index(s[i])];
            Walking(ns, st, s, i + 1, path + [next], next)
  {
    var next := ns[n].children[Index(s[i])];
    ChildWords(ns, st, n, s[i]);
    ContinuesStep(st[0], s[..i], st[n], s[i], st[next]);
    assert s[..i + 1] == s[..i] + [s[i]];
    PathExtend(ns, s, i, path, next);
  }

  /** Walking `s`: at its end, the node reached holds what continues `s`,
      and it holds a word unless `s` is empty, when it is the root. */
  lemma WalkDone(ns: seq<Node>, st: seq<set<string>>, s: string, path: seq<int>, n: int)
    requires Walking(ns, st, s, |s|, path, n)
    ensures Continues(st[0], s, st[n]) && IsPath(ns, s, path) && path[0] == 0 && path[|s|] == n
    ensures s != [] ==> exists w :: w in st[0] && s <= w
    ensures s == [] ==> n == 0
  {
    assert s[..|s|] == s;
    if s != [] {
      ContinuesSome(st[0], s, st[n]);
    }
  }

  /** The depth-first listing of the words below node n, each after
      `prefix`: the node's own word first when it is finished, then the
      listings of its children from 'a' to 'z'. Only links to later nodes
      are followed, which in a linked arena are all of them. */
  ghost function Listing(ns: seq<Node>, n: int, prefix: string): seq<string>
    requires 0 <= n < |ns|
    decreases |ns| - n, 27
  {
    ListingUpTo(ns, n, prefix, 26)
  }

  /** The listing of node n as far as its first k child slots. */
  ghost function ListingUpTo(ns: seq<Node>, n: int, prefix: string, k: nat): seq<string>
    requires 0 <= n < |ns| && k <= 26
    decreases |ns| - n, k
  {
    if k == 0 then (if ns[n].isFinished then [prefix] else [])
    else
      var c := if k - 1 < |ns[n].children| then ns[n].children[k - 1] else Nil;
      ListingUpTo(ns, n, prefix, k - 1)
      + (if n < c < |ns| then Listing(ns, c, prefix + [Letter(k - 1)]) else [])
  }

  /** Listing node n: slot k adds its child's listing, or nothing when it
      is empty. */
  lemma ListingSlot(ns: seq<Node>, n: int, prefix: string, k: nat, ws: seq<string>, sub: seq<string>)
    requires 0 <= n < |ns| && k < 26 && Linked(ns, n)
    requires ws == ListingUpTo(ns, n, prefix, k)
    requires ns[n].children[k] == Nil ==> sub == []
    requires ns[n].children[k] != Nil ==> sub == Listing(ns, ns[n].children[k], prefix + [Letter(k)])
    ensures ws + sub == ListingUpTo(ns, n, prefix, k + 1)
  {
  }

  /** Every word of `below` that is empty or starts with one of the first
      k letters is listed after `prefix`. */
  ghost predicate CoversUpTo(ws: seq<string>, prefix: string, below: set<string>, k: int)
  {
    forall s :: s in below && (s == [] || (IsLetter(s[0]) && Index(s[0]) < k)) ==> prefix + s in ws
  }

  /** Enumerating node n: its own flag first. */
  lemma CollectStart(ns: seq<Node>, st: seq<set<string>>, n: int, prefix: string)
    requires |ns| == |st| && 0 <= n < |ns| && Linked(ns, n) && Spells(ns, st, n) && IsWord(prefix)
    ensures var ws := if ns[n].isFinished then [prefix] else [];
            CoversUpTo(ws, prefix, st[n], 0) && AllBelow(ws, prefix, st[n])
  {
    assert prefix + [] == prefix;
  }

  /** Enumerating node n: after the words below the child of slot k. */
  lemma CollectSlot(ns: seq<Node>, st: seq<set<string>>, n: int, k: nat, prefix: string, ws: seq<string>, sub: seq<string>)
    requires |ns| == |st| && 0 <= n < |ns| && Linked(ns, n) && Spells(ns, st, n)
    requires k < 26 && ns[n].children[k] != Nil
    requires CoversUpTo(ws, prefix, st[n], k) && AllBelow(ws, prefix, st[n])
    requires forall s :: s in st[ns[n].children[k]] ==> prefix + [Letter(k)] + s in sub
    requires AllBelow(sub, prefix + [Letter(k)], st[ns[n].children[k]])
    ensures CoversUpTo(ws + sub, prefix, st[n], k + 1) && AllBelow(ws + sub, prefix, st[n])
  {
    CollectSlotCovers(ns, st, n, k, prefix, ws, sub);
    CollectSlotBelow(ns, st, n, k, prefix, sub);
    AllBelowAppend(ws, sub, prefix, st[n]);
  }

  /** The words of node n that start with the letter of slot k are those
      listed below its child, after `prefix`. */
  lemma CollectSlotCovers(ns: seq<Node>, st: seq<set<string>>, n: int, k: nat, prefix: string, ws: seq<string>, sub: seq<string>)
    requires |ns| == |st| && 0 <= n < |ns| && Linked(ns, n) && Spells(ns, st, n)
    requires k < 26 && ns[n].children[k] != Nil
    requires CoversUpTo(ws, prefix, st[n], k)
    requires forall s :: s in st[ns[n].children[k]] ==> prefix + [Letter(k)] + s in sub
    ensures CoversUpTo(ws + sub, prefix, st[n], k + 1)
  {
    var c := ns[n].children[k];
    var longer := prefix + [Letter(k)];
    forall s | s in st[n] && s != [] && IsLetter(s[0]) && Index(s[0]) == k ensures prefix + s in sub {
      LetterOfIndex(s[0]);
      assert s == [Letter(k)] + s[1..];
      assert s[1..] in st[c];
      assert longer + s[1..] == prefix + s;
    }
  }

  /** What is listed below the child of slot k continues `prefix` with a
      word of node n. */
  lemma CollectSlotBelow(ns: seq<Node>, st: seq<set<string>>, n: int, k: nat, prefix: string, sub: seq<string>)
    requires |ns| == |st| && 0 <= n < |ns| && Linked(ns, n) && Spells(ns, st, n)
    requires k < 26 && ns[n].children[k] != Nil
    requires AllBelow(sub, prefix + [Letter(k)], st[ns[n].children[k]])
    ensures AllBelow(sub, prefix, st[n])
  {
    var longer := prefix + [Letter(k)];
    forall x | x in sub ensures prefix <= x && x[|prefix|..] in st[n] {
      assert x[|prefix|..] == [Letter(k)] + x[|longer|..];
    }
  }

  /** Enumerating node n: past an empty slot k. */
  lemma CollectSkip(ns: seq<Node>, st: seq<set<string>>, n: int, k: nat, prefix: string, ws: seq<string>)
    requires |ns| == |st| && 0 <= n < |ns| && Linked(ns, n) && Spells(ns, st, n)
    requires k < 26 && ns[n].children[k] == Nil && CoversUpTo(ws, prefix, st[n], k)
    ensures CoversUpTo(ws, prefix, st[n], k + 1)
  {
  }

  /** Enumerating node n: once all 26 slots are done, every word below it
      is listed. */
  lemma CollectEnd(ns: seq<Node>, st: seq<set<string>>, n: int, prefix: string, ws: seq<string>)
    requires |ns| == |st| && 0 <= n < |ns| && Linked(ns, n) && Spells(ns, st, n)
    requires CoversUpTo(ws, prefix, st[n], 26)
    ensures forall s :: s in st[n] ==> prefix + s in ws
  {
  }

  /** Every listed string is a word that continues `prefix` with a word
      of `below`. */
  ghost predicate AllBelow(ws: seq<string>, prefix: string, below: set<string>)
  {
    forall x :: x in ws ==> prefix <= x && x[|prefix|..] in below && IsWord(x)
  }

  lemma AllBelowAppend(a: seq<string>, b: seq<string>, prefix: string, below: set<string>)
    requires AllBelow(a, prefix, below) && AllBelow(b, prefix, below)
    ensures AllBelow(a + b, prefix, below)
  {
  }

  /** `path` lists the nodes that spelling `s` visits from `path[0]`, of
      which the first t are still linked: each is the child of the one
      before it for the letter before it. */
  ghost predicate LinkedPath(ns: seq<Node>, s: string, path: seq<int>, t: nat)
  {
    && |path| == |s| + 1 && t <= |s|
    && (forall j :: 0 <= j <= |s| ==> 0 <= path[j] < |ns|)
    && forall j :: 0 <= j < t ==>
         IsLetter(s[j]) && |ns[path[j]].children| == 26 && ns[path[j]].children[Index(s[j])] == path[j + 1]
  }

  /** `path` lists the nodes that spelling `s` visits from `path[0]`. */
  ghost predicate IsPath(ns: seq<Node>, s: string, path: seq<int>)
  {
    LinkedPath(ns, s, path, |s|)
  }

  /** A path for a prefix of `s` grows by the child for the next letter. */
  lemma PathExtend(ns: seq<Node>, s: string, i: nat, path: seq<int>, next: int)
    requires i < |s| && IsPath(ns, s[..i], path) && IsLetter(s[i])
    requires |ns[path[i]].children| == 26 && ns[path[i]].children[Index(s[i])] == next && 0 <= next < |ns|
    ensures IsPath(ns, s[..i + 1], path + [next])
  {
  }

  /** Children come after their parents, so a linked path only goes up in
      the arena and visits no node twice. */
  lemma {:induction false} PathIncreasing(ns: seq<Node>, s: string, path: seq<int>, t: nat)
    requires LinkedPath(ns, s, path, t) && forall n :: 0 <= n < |ns| ==> Linked(ns, n)
    ensures forall a, b :: 0 <= a < b <= t ==> path[a] < path[b]
  {
    if t > 0 {
      PathIncreasing(ns, s, path, t - 1);
      assert Linked(ns, path[t - 1]);
    }
  }

  /** Pruned everywhere, except that each of the first t nodes of `path`
      may keep an empty child: the next node of the path. */
  ghost predicate PrunedOffPath(ns: seq<Node>, st: seq<set<string>>, w: string, path: seq<int>, t: nat)
  {
    && |ns| == |st| && LinkedPath(ns, w, path, 0) && t <= |w|
    && (forall n :: 0 <= n < |ns| ==> Linked(ns, n))
    && (forall n :: 0 <= n < |ns| && n !in path[..t] ==> Pruned(ns, st, n))
    && forall j :: 0 <= j < t ==> IsLetter(w[j]) && PrunedBut(ns, st, path[j], Index(w[j]))
  }

  /** While a stored word is being removed top-down: the path of `w` is
      linked, the first j nodes of it have lost their suffix of `w`, and
      the j-th has still to lose it from `pending`. */
  ghost predicate Unlinking(ns: seq<Node>, st: seq<set<string>>, w: string, path: seq<int>, j: nat, pending: set<string>)
  {
    && IsPath(ns, w, path) && path[0] == 0 && j <= |w|
    && SpellsBut(ns, st, path[j], pending)
    && PrunedOffPath(ns, st, w, path, j)
  }

  /** While the trace of a removed word is being pruned bottom-up: every
      node spells its words, the path above node t is still linked, and
      only the nodes above t may keep an empty child on the path. */
  ghost predicate Trimming(ns: seq<Node>, st: seq<set<string>>, w: string, path: seq<int>, t: nat)
  {
    && |ns| == |st| && LinkedPath(ns, w, path, t) && path[0] == 0
    && ns[0].parent == Nil && ns[0].data == '\0'
    && (forall n :: 0 <= n < |ns| ==> Linked(ns, n) && Spells(ns, st, n))
    && PrunedOffPath(ns, st, w, path, t)
  }

  /** Starting a removal of the stored word `w` at the root. */
  lemma RemoveRoot(ns: seq<Node>, st: seq<set<string>>, w: string, path: seq<int>)
    requires Inv(ns, st) && IsPath(ns, w, path) && path[0] == 0
    ensures Unlinking(ns, st[0 := st[0] - {w}], w, path, 0, st[0])
  {
    RelaxRoot(ns, st, st[0] - {w});
  }

  /** Removing: the j-th node of the path has lost its suffix of `w`; the
      next node of the path loses the shorter suffix and becomes the
      current one. */
  lemma RemoveDescend(ns: seq<Node>, st: seq<set<string>>, w: string, path: seq<int>, j: nat, pending: set<string>)
    requires Unlinking(ns, st, w, path, j, pending) && j < |w|
    requires st[path[j]] == pending - {w[j..]} && w[j..] in pending
    ensures var next := path[j + 1];
            && Unlinking(ns, st[next := st[next] - {w[j + 1..]}], w, path, j + 1, st[next])
            && w[j + 1..] in st[next]
  {
    PathIncreasing(ns, w, path, |w|);
    assert path[j] !in path[..j];
    RemoveDescendSpells(ns, st, w, path, j, pending);
    RemoveDescendPruned(ns, st, w, path, j, pending);
  }

  /** The spelling half of RemoveDescend: the suffix of `w` is in the
      next node's words, and every node but the next spells its words. */
  lemma RemoveDescendSpells(ns: seq<Node>, st: seq<set<string>>, w: string, path: seq<int>, j: nat, pending: set<string>)
    requires Unlinking(ns, st, w, path, j, pending) && j < |w|
    requires st[path[j]] == pending - {w[j..]} && w[j..] in pending
    requires path[j] < path[j + 1]
    ensures var next := path[j + 1];
            && SpellsBut(ns, st[next := st[next] - {w[j + 1..]}], next, st[next])
            && w[j + 1..] in st[next]
  {
    var cur := path[j];
    var k := Index(w[j]);
    var next := path[j + 1];
    var st' := st[next := st[next] - {w[j + 1..]}];
    LetterOfIndex(w[j]);
    assert w[j..] == [w[j]] + w[j + 1..];
    assert Linked(ns, cur) && ns[cur].children[k] == next;
    var before := st[cur := pending];
    assert Spells(ns, before, cur);
    assert w[j + 1..] in before[ns[cur].children[k]];
    forall n | 0 <= n < |ns| && n != next ensures Spells(ns, st', n) {
      if n != cur {
        Frame(ns, st, ns, st', n);
      } else {
        forall i, t | 0 <= i < 26 && ns[cur].children[i] != Nil
          ensures t in st'[ns[cur].children[i]] <==> [Letter(i)] + t in st'[cur]
        {
          assert ([Letter(i)] + t)[0] == Letter(i) && ([Letter(i)] + t)[1..] == t;
          assert t in before[ns[cur].children[i]] <==> [Letter(i)] + t in pending;
        }
      }
    }
    Frame(ns, st, ns, st'[next := st[next]], next);
  }

  /** The pruning half of RemoveDescend: the path now may keep an empty
      child down to the next node. */
  lemma RemoveDescendPruned(ns: seq<Node>, st: seq<set<string>>, w: string, path: seq<int>, j: nat, pending: set<string>)
    requires Unlinking(ns, st, w, path, j, pending) && j < |w|
    requires path[j] !in path[..j]
    ensures var next := path[j + 1];
            PrunedOffPath(ns, st[next := st[next] - {w[j + 1..]}], w, path, j + 1)
  {
    var cur := path[j];
    var k := Index(w[j]);
    var next := path[j + 1];
    var st' := st[next := st[next] - {w[j + 1..]}];
    assert Linked(ns, cur) && ns[cur].children[k] == next && ns[next].parent == cur;
    forall n | 0 <= n < |ns| && n !in path[..j + 1] ensures Pruned(ns, st', n) {
      assert n !in path[..j];
      Frame(ns, st, ns, st', n);
    }
    forall i | 0 <= i < j + 1 ensures PrunedBut(ns, st', path[i], Index(w[i])) {
      if i < j {
        FrameBut(ns, st, ns, st', path[i], Index(w[i]));
      } else {
        assert Linked(ns, cur) && Pruned(ns, st, cur);
        forall l | 0 <= l < 26 && l != k && ns[cur].children[l] != Nil ensures ns[cur].children[l] != next {
          assert ns[ns[cur].children[l]].data == Letter(l);
        }
      }
    }
  }

  /** Removing: once the whole path has lost `w`, clearing the last node's
      flag lets every node spell its words again. */
  lemma RemoveFinish(ns: seq<Node>, st: seq<set<string>>, w: string, path: seq<int>, pending: set<string>)
    requires Unlinking(ns, st, w, path, |w|, pending) && st[path[|w|]] == pending - {[]}
    ensures var end := path[|w|];
            Trimming(ns[end := ns[end].(isFinished := false)], st, w, path, |w|)
  {
    var end := path[|w|];
    var ns' := ns[end := ns[end].(isFinished := false)];
    forall n | 0 <= n < |ns| ensures Linked(ns', n) && Spells(ns', st, n) {
      if n != end {
        Frame(ns, st, ns', st, n);
      } else {
        var before := st[end := pending];
        assert Linked(ns, end) && Spells(ns, before, end);
        forall j, t | 0 <= j < 26 && ns[end].children[j] != Nil
          ensures t in st[ns[end].children[j]] <==> [Letter(j)] + t in st[end]
        {
          assert t in before[ns[end].children[j]] <==> [Letter(j)] + t in pending;
        }
      }
    }
    forall n | 0 <= n < |ns| ensures Pruned(ns', st, n) || n in path[..|w|] {
      Frame(ns, st, ns', st, n);
    }
    forall j | 0 <= j < |w| ensures PrunedBut(ns', st, path[j], Index(w[j])) {
      FrameBut(ns, st, ns', st, path[j], Index(w[j]));
    }
  }

  /** Pruning: the current node of the path leads to no word, so it is
      unlinked from its parent, which becomes the current node. */
  lemma PruneStep(ns: seq<Node>, st: seq<set<string>>, w: string, path: seq<int>, t: nat)
    requires Trimming(ns, st, w, path, t) && 0 < t && st[path[t]] == {}
    ensures var p := path[t - 1];
            Trimming(ns[p := ns[p].(children := ns[p].children[Index(w[t - 1]) := Nil])], st, w, path, t - 1)
  {
    PathIncreasing(ns, w, path, t);
    assert Linked(ns, path[t - 1]) && ns[path[t - 1]].children[Index(w[t - 1])] == path[t];
    PruneStepSpells(ns, st, w, path, t);
    PruneStepPruned(ns, st, w, path, t);
  }

  /** The spelling half of PruneStep: unlinking a child that leads to no
      word keeps every node linked and spelling its words. */
  lemma PruneStepSpells(ns: seq<Node>, st: seq<set<string>>, w: string, path: seq<int>, t: nat)
    requires Trimming(ns, st, w, path, t) && 0 < t && st[path[t]] == {}
    requires ns[path[t - 1]].children[Index(w[t - 1])] == path[t]
    ensures var p := path[t - 1];
            var ns' := ns[p := ns[p].(children := ns[p].children[Index(w[t - 1]) := Nil])];
            forall n :: 0 <= n < |ns| ==> Linked(ns', n) && Spells(ns', st, n)
  {
    var p := path[t - 1];
    var k := Index(w[t - 1]);
    var ns' := ns[p := ns[p].(children := ns[p].children[k := Nil])];
    assert Linked(ns, p) && Spells(ns, st, p);
    forall n | 0 <= n < |ns| ensures Linked(ns', n) && Spells(ns', st, n) {
      if n != p {
        Frame(ns, st, ns', st, n);
      } else {
        forall s | s in st[p] && s != [] ensures Index(s[0]) != k {
          assert IsLetter(s[0]) && s == [s[0]] + s[1..];
          LetterOfIndex(s[0]);
          assert s[1..] !in st[ns[p].children[k]];
        }
      }
    }
  }

  /** The pruning half of PruneStep: only the nodes above the parent may
      keep an empty child on the path. */
  lemma PruneStepPruned(ns: seq<Node>, st: seq<set<string>>, w: string, path: seq<int>, t: nat)
    requires Trimming(ns, st, w, path, t) && 0 < t && st[path[t]] == {}
    requires path[t - 1] !in path[..t - 1]
    ensures var p := path[t - 1];
            var ns' := ns[p := ns[p].(children := ns[p].children[Index(w[t - 1]) := Nil])];
            PrunedOffPath(ns', st, w, path, t - 1)
  {
    var p := path[t - 1];
    var k := Index(w[t - 1]);
    var ns' := ns[p := ns[p].(children := ns[p].children[k := Nil])];
    forall n | 0 <= n < |ns| ensures Linked(ns', n) {
      if n != p {
        Frame(ns, st, ns', st, n);
      } else {
        assert Linked(ns, p);
      }
    }
    forall n | 0 <= n < |ns| && n != p ensures Pruned(ns', st, n) || n in path[..t] {
      Frame(ns, st, ns', st, n);
    }
    forall j | 0 <= j < t - 1 ensures PrunedBut(ns', st, path[j], Index(w[j])) {
      FrameBut(ns, st, ns', st, path[j], Index(w[j]));
    }
    forall n | 0 <= n < |ns| && n !in path[..t - 1] ensures Pruned(ns', st, n) {
      if n != p {
        assert n !in path[..t];
      }
    }
  }

  /** Pruning: the current node of the path is linked, spells its words and
      is pruned (it is below every node that may keep an empty child), and,
      unless it is the root, its parent link and letter lead back to the
      node above it on the path. */
  lemma PruneAt(ns: seq<Node>, st: seq<set<string>>, w: string, path: seq<int>, t: nat)
    requires Trimming(ns, st, w, path, t)
    ensures 0 <= path[t] < |ns| && Linked(ns, path[t]) && Spells(ns, st, path[t]) && Pruned(ns, st, path[t])
    ensures path[t] == 0 ==> t == 0
    ensures t > 0 ==> && path[t - 1] < path[t]
                      && ns[path[t]].parent == path[t - 1] && IsLetter(ns[path[t]].data)
                      && Index(ns[path[t]].data) == Index(w[t - 1])
  {
    PathIncreasing(ns, w, path, t);
    assert path[t] !in path[..t];
    if t > 0 {
      assert Linked(ns, path[t - 1]);
    }
  }

  /** Stopping the pruning: at the root, or at a node that still leads to
      a word, every node above leads to a word too, so the arena is pruned
      everywhere again. */
  lemma PruneExit(ns: seq<Node>, st: seq<set<string>>, w: string, path: seq<int>, t: nat)
    requires Trimming(ns, st, w, path, t) && (t == 0 || st[path[t]] != {})
    ensures Inv(ns, st)
  {
    forall j | 0 <= j < t ensures Pruned(ns, st, path[j]) {
      LiftNonempty(ns, st, w, path, t, j + 1);
    }
    forall n | 0 <= n < |ns| ensures Pruned(ns, st, n) {
      if n in path[..t] {
        var j :| 0 <= j < t && path[j] == n;
      }
    }
  }

  /** Along a linked path, a node that leads to a word has ancestors that
      lead to a word: they spell the same word with a longer prefix. */
  lemma {:induction false} LiftNonempty(ns: seq<Node>, st: seq<set<string>>, w: string, path: seq<int>, t: nat, j: nat)
    requires Trimming(ns, st, w, path, t) && j <= t && st[path[t]] != {}
    ensures st[path[j]] != {}
    decreases t - j
  {
    if j < t {
      LiftNonempty(ns, st, w, path, t, j + 1);
      var s :| s in st[path[j + 1]];
      var k := Index(w[j]);
      assert Linked(ns, path[j]) && Spells(ns, st, path[j]);
      assert s in st[ns[path[j]].children[k]];
    }
  }
}

/** The prefix tree: an arena of nodes with the root at position 0, and
    the set of stored words as its abstraction. */
module PrefixTree {
  import opened WordSets
  import opened TrieNodes

  class Trie {
    /** The node arena; links are positions in it. */
    var nodes: seq<Node>
    /** The words spelled below each node of the arena. */
    ghost var stored: seq<set<string>>

    ghost predicate Valid()
      reads this
    {
      Inv(nodes, stored)
    }

    /** The stored words: those spelled from the root. */
    ghost function Contents(): set<string>
      reads this
      requires Valid()
    {
      stored[0]
    }

    /** An empty trie: a lone root with letter '\0'. */
    constructor ()
      ensures Valid() && Contents() == {}
    {
      nodes := [NewNode(Nil, '\0', false)];
      stored := [{}];
    }

    /** A copy of `other`: the same nodes, values not shared with it, so
        it stores the same words. */
    constructor Copy(other: Trie)
      requires other.Valid()
      ensures Valid() && Contents() == other.Contents() && nodes == other.nodes
    {
      nodes := other.nodes;
      stored := other.stored;
    }

    /** A trie holding the words of `list`, inserted in order; strings with
        a character outside 'a'..'z' are not stored. */
    constructor FromList(list: seq<string>)
      ensures Valid()
      ensures forall x :: x in Contents() <==> x in list && IsWord(x)
    {
      nodes := [NewNode(Nil, '\0', false)];
      stored := [{}];
      new;
      var i := 0;
      while i < |list|
        invariant 0 <= i <= |list| && Valid()
        invariant forall x :: x in Contents() <==> x in list[..i] && IsWord(x)
      {
        Insert(list[i]);
        assert list[..i + 1] == list[..i] + [list[i]];
        i := i + 1;
      }
      assert list[..i] == list;
    }

    /** Follows `s` letter by letter from the root: the node it leads to,
        whose words are the stored words that continue `s`, or Nil when
        no stored word starts with `s`. The path of nodes is returned for
        the proofs. */
    method Walk(s: string) returns (n: int, ghost path: seq<int>)
      requires Valid()
      ensures n == Nil || 0 <= n < |nodes|
      ensures n != Nil ==> Continues(Contents(), s, stored[n])
      ensures n == Nil ==> forall t :: s + t !in Contents()
      ensures s != [] ==> (n != Nil <==> exists w :: w in Contents() && s <= w)
      ensures s == [] ==> n == 0
      ensures n != Nil ==> IsPath(nodes, s, path) && path[0] == 0 && path[|s|] == n
    {
      n := 0;
      path := [0];
      var i := 0;
      WalkStart(nodes, stored, s);
      while i < |s|
        invariant Walking(nodes, stored, s, i, path, n)
      {
        assert Linked(nodes, n) && Spells(nodes, stored, n) && Pruned(nodes, stored, n);
        if !IsLetter(s[i]) || nodes[n].children[Index(s[i])] == Nil {
          WalkMissing(nodes, stored, n, stored[0], s, i);
          return Nil, path;
        }
        var next := nodes[n].children[Index(s[i])];
        WalkStep(nodes, stored, s, i, path, n);
        n := next;
        path := path + [next];
        i := i + 1;
      }
      WalkDone(nodes, stored, s, path, n);
    }

    /** Whether some stored word ends at or below node n: it is finished or
        has a child (children always lead to a word). */
    method HasWords(n: int) returns (r: bool)
      requires 0 <= n < |nodes| == |stored|
      requires Linked(nodes, n) && Spells(nodes, stored, n) && Pruned(nodes, stored, n)
      ensures r <==> stored[n] != {}
    {
      if nodes[n].isFinished {
        return true;
      }
      var k := 0;
      while k < 26
        invariant 0 <= k <= 26
        invariant forall j :: 0 <= j < k ==> nodes[n].children[j] == Nil
      {
        var c := nodes[n].children[k];
        if c != Nil {
          ghost var s :| s in stored[c];
          assert [Letter(k)] + s in stored[n];
          return true;
        }
        k := k + 1;
      }
      assert forall s :: s !in stored[n];
      return false;
    }

    /** Exact membership: a stored proper prefix of a longer word is found
        only if it was itself inserted. */
    method Search(query: string) returns (found: bool)
      requires Valid()
      ensures found <==> query in Contents()
    {
      var n, path := Walk(query);
      assert query + [] == query;
      if n == Nil {
        return false;
      }
      assert Linked(nodes, n) && Spells(nodes, stored, n);
      found := nodes[n].isFinished;
    }

    /** Whether some stored word has `prefix` as a prefix. */
    method StartsWith(prefix: string) returns (r: bool)
      requires Valid()
      ensures r <==> exists w :: w in Contents() && prefix <= w
    {
      var n, path := Walk(prefix);
      if n == Nil {
        return false;
      }
      assert Linked(nodes, n) && Spells(nodes, stored, n) && Pruned(nodes, stored, n);
      r := HasWords(n);
      if r {
        ghost var t :| t in stored[n];
        assert prefix <= prefix + t && prefix + t in Contents();
      } else {
        forall w | w in Contents() && prefix <= w ensures w[|prefix|..] in stored[n] {
          assert w == prefix + w[|prefix|..];
        }
      }
    }

    /** Call syntax: the same answer as Search. */
    method Apply(query: string) returns (found: bool)
      requires Valid()
      ensures found <==> query in Contents()
    {
      found := Search(query);
    }

    /** Stores `w`, walking down from the root and creating each missing
        node on its path, then marking the last node finished. A string
        with a character outside 'a'..'z' has no path and is not stored.
        Inserting a stored word changes nothing. */
    method Insert(w: string)
      requires Valid()
      modifies this
      ensures Valid()
      ensures Contents() == old(Contents()) + (if IsWord(w) then {w} else {})
      ensures w in old(Contents()) ==> nodes == old(nodes)
    {
      if !IsWord(w) {
        return;
      }
      var ns := nodes;
      ghost var st := stored[0 := stored[0] + {w}];
      var cur := 0;
      var i := 0;
      ghost var pending := stored[0];
      RelaxRoot(nodes, stored, stored[0] + {w});
      while i < |w|
        invariant 0 <= i <= |w| && Relaxed(ns, st, cur, pending)
        invariant st[cur] == pending + {w[i..]}
        invariant st[0] == old(stored[0]) + {w}
        invariant w in old(stored[0]) ==> ns == old(nodes) && w[i..] in pending
        decreases |w| - i
      {
        assert Linked(ns, cur);
        var k := Index(w[i]);
        var next := ns[cur].children[k];
        if w[i..] in pending {
          InsertExisting(ns, st, cur, pending, w, i);
        }
        if next == Nil {
          InsertGrow(ns, st, cur, pending, w, i);
          next := |ns|;
          ns := ns + [NewNode(cur, w[i], false)];
          ns := ns[cur := ns[cur].(children := ns[cur].children[k := next])];
          pending := {};
          st := st + [{w[i + 1..]}];
        } else {
          InsertDescend(ns, st, cur, pending, w, i);
          pending := st[next];
          st := st[next := st[next] + {w[i + 1..]}];
        }
        cur := next;
        i := i + 1;
      }
      InsertFinish(ns, st, cur, pending);
      nodes := ns[cur := ns[cur].(isFinished := true)];
      stored := st;
    }

    /** Removes `w` if it is stored: clears the flag of its last node, then
        walks back up the parent links unlinking every node that no longer
        leads to a stored word, so no dead trace is left. Removing a word
        that is not stored changes nothing. */
    method Remove(w: string)
      requires Valid()
      modifies this
      ensures Valid()
      ensures Contents() == old(Contents()) - {w}
      ensures w !in old(Contents()) ==> nodes == old(nodes)
    {
      var end, path := Walk(w);
      assert w + [] == w;
      if end == Nil {
        return;
      }
      assert Linked(nodes, end) && Spells(nodes, stored, end);
      if !nodes[end].isFinished {
        return;
      }
      Unmark(w, end, path);
      Prune(w, end, path);
    }

    /** Takes the stored word `w` out of every node on its path and clears
        the flag of its last node; the nodes themselves stay linked. */
    method Unmark(w: string, end: int, ghost path: seq<int>)
      requires Valid() && IsPath(nodes, w, path) && path[0] == 0 && path[|w|] == end && w in Contents()
      modifies this
      ensures Trimming(nodes, stored, w, path, |w|) && |nodes| == |old(nodes)|
      ensures stored[0] == old(stored[0]) - {w}
    {
      ghost var j := 0;
      ghost var pending := stored[0];
      ghost var st := stored[0 := stored[0] - {w}];
      RemoveRoot(nodes, stored, w, path);
      while j < |w|
        invariant Unlinking(nodes, st, w, path, j, pending)
        invariant st[path[j]] == pending - {w[j..]} && w[j..] in pending
        invariant st[0] == old(stored[0]) - {w}
        decreases |w| - j
      {
        PathIncreasing(nodes, w, path, |w|);
        RemoveDescend(nodes, st, w, path, j, pending);
        pending := st[path[j + 1]];
        st := st[path[j + 1] := st[path[j + 1]] - {w[j + 1..]}];
        j := j + 1;
      }
      RemoveFinish(nodes, st, w, path, pending);
      nodes := nodes[end := nodes[end].(isFinished := false)];
      stored := st;
    }

    /** Walks up from the last node of `w`'s path through the parent links,
        unlinking each node that leads to no stored word, and stops at the
        root or at the first node that still leads to one. */
    method Prune(w: string, end: int, ghost path: seq<int>)
      requires Trimming(nodes, stored, w, path, |w|) && path[|w|] == end
      modifies this
      ensures Valid() && stored == old(stored)
    {
      var cur := end;
      ghost var t: nat := |w|;
      PruneAt(nodes, stored, w, path, t);
      var live := HasWords(cur);
      while cur != 0 && !live
        invariant Trimming(nodes, stored, w, path, t) && cur == path[t]
        invariant cur == 0 ==> t == 0
        invariant live <==> stored[cur] != {}
        invariant stored == old(stored)
        decreases cur
      {
        PruneAt(nodes, stored, w, path, t);
        assert t > 0;
        PruneStep(nodes, stored, w, path, t);
        var p := nodes[cur].parent;
        var k := Index(nodes[cur].data);
        nodes := nodes[p := nodes[p].(children := nodes[p].children[k := Nil])];
        cur := p;
        t := t - 1;
        PruneAt(nodes, stored, w, path, t);
        live := HasWords(cur);
      }
      PruneExit(nodes, stored, w, path, t);
    }

    /** The words below node n, each after `prefix`, depth first with the
        children taken from 'a' to 'z'. */
    method Collect(n: int, prefix: string) returns (ws: seq<string>)
      requires Valid() && 0 <= n < |nodes| && IsWord(prefix)
      ensures forall s :: s in stored[n] ==> prefix + s in ws
      ensures forall x :: x in ws ==> prefix <= x && x[|prefix|..] in stored[n] && IsWord(x)
      ensures ws == Listing(nodes, n, prefix)
      decreases |nodes| - n
    {
      assert Linked(nodes, n) && Spells(nodes, stored, n);
      CollectStart(nodes, stored, n, prefix);
      ws := if nodes[n].isFinished then [prefix] else [];
      var k := 0;
      while k < 26
        invariant 0 <= k <= 26
        invariant CoversUpTo(ws, prefix, stored[n], k) && AllBelow(ws, prefix, stored[n])
        invariant ws == ListingUpTo(nodes, n, prefix, k)
      {
        var c := nodes[n].children[k];
        if c != Nil {
          var sub := Collect(c, prefix + [Letter(k)]);
          CollectSlot(nodes, stored, n, k, prefix, ws, sub);
          ListingSlot(nodes, n, prefix, k, ws, sub);
          ws := ws + sub;
        } else {
          CollectSkip(nodes, stored, n, k, prefix, ws);
          ListingSlot(nodes, n, prefix, k, ws, []);
        }
        k := k + 1;
      }
      CollectEnd(nodes, stored, n, prefix, ws);
    }

    /** Every stored word, depth first from the root. */
    method Words() returns (ws: seq<string>)
      requires Valid()
      ensures forall x :: x in ws <==> x in Contents()
      ensures forall x :: x in ws ==> IsWord(x)
      ensures ws == Listing(nodes, 0, [])
    {
      var empty: string := [];
      ws := Collect(0, empty);
      forall x: string ensures empty + x == x && x[|empty|..] == x {
      }
    }

    /** `+=`: inserts every word of `other`; returns this trie. */
    method UnionWith(other: Trie) returns (r: Trie)
      requires Valid() && other.Valid()
      modifies this
      ensures r == this && Valid()
      ensures Contents() == old(Contents()) + old(other.Contents())
    {
      var ws := other.Words();
      var i := 0;
      while i < |ws|
        invariant 0 <= i <= |ws| && Valid()
        invariant forall x :: x in Contents() <==> x in old(Contents()) || x in ws[..i]
      {
        Insert(ws[i]);
        assert ws[..i + 1] == ws[..i] + [ws[i]];
        i := i + 1;
      }
      assert ws[..i] == ws;
      r := this;
    }

    /** `-=`: removes every word of `other`; returns this trie. */
    method DifferenceWith(other: Trie) returns (r: Trie)
      requires Valid() && other.Valid()
      modifies this
      ensures r == this && Valid()
      ensures Contents() == old(Contents()) - old(other.Contents())
    {
      var ws := other.Words();
      var i := 0;
      while i < |ws|
        invariant 0 <= i <= |ws| && Valid()
        invariant forall x :: x in Contents() <==> x in old(Contents()) && x !in ws[..i]
      {
        Remove(ws[i]);
        assert ws[..i + 1] == ws[..i] + [ws[i]];
        i := i + 1;
      }
      assert ws[..i] == ws;
      r := this;
    }

    /** `+`: a new trie with the words of both; neither operand changes. */
    method Union(other: Trie) returns (r: Trie)
      requires Valid() && other.Valid()
      ensures fresh(r) && r.Valid()
      ensures r.Contents() == Contents() + other.Contents()
    {
      r := new Trie.Copy(this);
      r := r.UnionWith(other);
    }

    /** `-`: a new trie with the words of this one that `other` does not
        hold; neither operand changes. */
    method Difference(other: Trie) returns (r: Trie)
      requires Valid() && other.Valid()
      ensures fresh(r) && r.Valid()
      ensures r.Contents() == Contents() - other.Contents()
    {
      r := new Trie.Copy(this);
      r := r.DifferenceWith(other);
    }

    /** Whether every word of this trie is a word of `other`. */
    method Within(other: Trie) returns (r: bool)
      requires Valid() && other.Valid()
      ensures r <==> Contents() <= other.Contents()
    {
      var ws := Words();
      var i := 0;
      while i < |ws|
        invariant 0 <= i <= |ws|
        invariant forall j :: 0 <= j < i ==> ws[j] in other.Contents()
      {
        var found := other.Search(ws[i]);
        if !found {
          return false;
        }
        i := i + 1;
      }
      forall x | x in Contents() ensures x in other.Contents() {
        var j :| 0 <= j < |ws| && ws[j] == x;
      }
      return true;
    }

    /** `==`: the same words, whatever the shape of the two arenas. */
    method Equals(other: Trie) returns (r: bool)
      requires Valid() && other.Valid()
      ensures r <==> Contents() == other.Contents()
    {
      r := Within(other);
      if r {
        r := other.Within(this);
      }
    }

    /** `!=`: the negation of `==`. */
    method NotEquals(other: Trie) returns (r: bool)
      requires Valid() && other.Valid()
      ensures r <==> Contents() != other.Contents()
    {
      var same := Equals(other);
      r := !same;
    }
  }

  /** Two valid tries with the same nodes store the same words, whatever
      was recorded about them. */
  lemma SameNodesSameWords(a: Trie, b: Trie)
    requires a.Valid() && b.Valid() && a.nodes == b.nodes
    ensures a.Contents() == b.Contents()
  {
    StoredDetermined(a.nodes, a.stored, b.stored);
  }

  /** A query that is a stored word is also a prefix of one: whenever
      search finds it, startsWith accepts it. */
  method SearchThenStartsWith(t: Trie, q: string) returns (found: bool, starts: bool)
    requires t.Valid()
    ensures found ==> starts
    ensures found <==> q in t.Contents()
  {
    found := t.Search(q);
    starts := t.StartsWith(q);
    if found {
      assert q <= q;
    }
  }

  /** Inserting a word that is not stored and then removing it gives back
      a trie with the words it had. */
  method InsertThenRemove(t: Trie, w: string)
    requires t.Valid() && w !in t.Contents()
    modifies t
    ensures t.Valid() && t.Contents() == old(t.Contents())
  {
    t.Insert(w);
    t.Remove(w);
  }

  /** "cat", "car" and "dog": "ca" is a prefix but not a word; it stays a
      prefix while "cat" is left after removing "car", and is none once
      "cat" is removed too; a copy equals its source. */
  method Scenario()
  {
    var t := new Trie.FromList(["cat", "car", "dog"]);
    var ca := t.Search("ca");
    assert !ca;
    var starts := t.StartsWith("ca");
    assert "cat" in t.Contents() && "ca" <= "cat";
    assert starts;
    t.Remove("car");
    var car := t.Search("car");
    assert !car;
    var cat := t.Apply("cat");
    assert cat;
    starts := t.StartsWith("ca");
    assert "cat" in t.Contents() && "ca" <= "cat";
    assert starts;
    var u := new Trie.Copy(t);
    var same := u.Equals(t);
    assert same;
    t.Remove("cat");
    starts := t.StartsWith("ca");
    assert forall x :: x in t.Contents() <==> x == "dog";
    assert !("ca" <= "dog") by {
      assert "dog"[0] != "ca"[0];
    }
    assert !starts;
  }
}
