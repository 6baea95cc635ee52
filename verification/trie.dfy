/** The prefix tree behind location auto-complete (NavigateX.cpp:81-172).
    A node has 26 child slots, one per lower-case letter; `None` in a slot is
    the C++ null pointer.  Words are stored folded: letters lower-cased,
    everything else dropped. */
module Trie {
  import opened Common
  import opened Text

  datatype Node = Node(isEnd: bool, children: seq<Option<Node>>)

  const Alphabet := 26

  /** A freshly allocated `TrieNode`: not a word end, every slot null. */
  const Empty: Node := Node(false, Nulls(Alphabet))

  /** `n` null child pointers. */
  function Nulls(n: nat): (r: seq<Option<Node>>)
    ensures |r| == n && forall i :: 0 <= i < n ==> r[i].None?
  {
    if n == 0 then [] else Nulls(n - 1) + [None]
  }

  /** The letter stored under slot `i`: `char('a' + i)`. */
  function Letter(i: int): (c: char)
    requires 0 <= i < Alphabet
    ensures 'a' <= c <= 'z'
  {
    ('a' as int + i) as char
  }

  /** The slot a lower-case letter lives in, -1 for anything else. */
  function Slot(c: char): int
  {
    if 'a' <= c <= 'z' then c as int - 'a' as int else -1
  }

  /** The node under slot `i`, or a fresh one where the slot is null. */
  function Child(t: Node, i: int): (c: Node)
    requires 0 <= i < |t.children|
    ensures c < t || c == Empty
  {
    if t.children[i].Some? then t.children[i].value else Empty
  }

  /** Every node, at every depth, has exactly 26 slots. */
  ghost predicate Valid(t: Node)
  {
    |t.children| == Alphabet &&
    forall i :: 0 <= i < Alphabet && t.children[i].Some? ==> Valid(t.children[i].value)
  }

  lemma EmptyValid()
    ensures Valid(Empty)
  {
  }

  /** `idx` (NavigateX.cpp:96-101): a letter's slot after `tolower`; -1 for a
      non-letter, which the callers skip. */
  function Idx(c: char): (r: int)
    ensures -1 <= r < Alphabet
    ensures r == -1 <==> !IsAlpha(c)
    ensures r != -1 ==> Letter(r) == LowerChar(c) && Slot(LowerChar(c)) == r
  {
    if IsAlpha(c) then LowerChar(c) as int - 'a' as int else -1
  }

  /** The key a string is stored under: its letters, lower-cased, in order. */
  function Normalize(s: string): (r: string)
    ensures |r| <= |s|
    ensures forall k :: 0 <= k < |r| ==> 'a' <= r[k] <= 'z'
  {
    if |s| == 0 then []
    else (if IsAlpha(s[0]) then [LowerChar(s[0])] else []) + Normalize(s[1..])
  }

  /** A folded key folds to itself. */
  lemma {:induction false} NormalizeFolded(s: string)
    requires forall k :: 0 <= k < |s| ==> 'a' <= s[k] <= 'z'
    ensures Normalize(s) == s
  {
    if |s| > 0 {
      NormalizeFolded(s[1..]);
      assert s == [s[0]] + s[1..];
    }
  }

  lemma NormalizeIdempotent(s: string)
    ensures Normalize(Normalize(s)) == Normalize(s)
  {
    NormalizeFolded(Normalize(s));
  }

  /** `w` is a word of the subtree `t`: following `w` letter by letter from
      `t` ends on a node marked `isEnd`. */
  predicate Member(t: Node, w: string)
  {
    if |w| == 0 then t.isEnd
    else
      var i := Slot(w[0]);
      0 <= i < |t.children| && t.children[i].Some? && Member(t.children[i].value, w[1..])
  }

  lemma EmptyHasNoWords(w: string)
    ensures !Member(Empty, w)
  {
  }

  /** Only folded strings can be words. */
  lemma {:induction false} MemberFolded(t: Node, w: string)
    requires Member(t, w)
    ensures forall k :: 0 <= k < |w| ==> 'a' <= w[k] <= 'z'
  {
    if |w| > 0 {
      MemberFolded(t.children[Slot(w[0])].value, w[1..]);
      assert forall k :: 1 <= k < |w| ==> w[k] == w[1..][k - 1];
    }
  }

  /** The subtree reached by following the folded key `w`, if the path exists. */
  function Descend(t: Node, w: string): (r: Option<Node>)
    ensures r.Some? && |w| > 0 ==> r.value < t
  {
    if |w| == 0 then Some(t)
    else
      var i := Slot(w[0]);
      if 0 <= i < |t.children| && t.children[i].Some? then Descend(t.children[i].value, w[1..])
      else None
  }

  /** Words below a missing path do not exist. */
  lemma {:induction false} DescendMissing(t: Node, p: string, x: string)
    requires Descend(t, p).None?
    requires p <= x
    ensures !Member(t, x)
  {
    assert |p| > 0;
    var i := Slot(p[0]);
    if 0 <= i < |t.children| && t.children[i].Some? {
      assert p[1..] <= x[1..];
      DescendMissing(t.children[i].value, p[1..], x[1..]);
    }
  }

  // ---------------------------------------------------------------------
  // insert (NavigateX.cpp:136-150)
  // ---------------------------------------------------------------------

  /** Walk the letters of `word`, skipping non-letters, creating missing
      nodes on the way, and mark the last node reached as a word end. */
  function Insert(t: Node, word: string): (r: Node)
    requires Valid(t)
    ensures Valid(r)
    decreases |word|
  {
    if |word| == 0 then Node(true, t.children)
    else
      var i := Idx(word[0]);
      if i == -1 then Insert(t, word[1..])
      else
        Node(t.isEnd, t.children[i := Some(Insert(Child(t, i), word[1..]))])
  }

  /** After inserting `word`, the words are the old ones plus the folded
      `word`, and nothing else. */
  lemma {:induction false} InsertMember(t: Node, word: string, w: string)
    requires Valid(t)
    ensures Member(Insert(t, word), w) <==> Member(t, w) || w == Normalize(word)
    decreases |word|
  {
    if |word| == 0 {
      if |w| > 0 {
        assert Member(Insert(t, word), w) == Member(t, w);
      }
    } else {
      var i := Idx(word[0]);
      if i == -1 {
        InsertMember(t, word[1..], w);
      } else {
        var child := Child(t, i);
        var r := Insert(t, word);
        assert Normalize(word) == [Letter(i)] + Normalize(word[1..]);
        if |w| > 0 {
          var j := Slot(w[0]);
          if j == i {
            InsertMember(child, word[1..], w[1..]);
            if t.children[i].None? {
              EmptyHasNoWords(w[1..]);
            }
            assert w == Normalize(word) <==> w[1..] == Normalize(word[1..]) by {
              if w[1..] == Normalize(word[1..]) {
                assert w == [w[0]] + w[1..];
              }
            }
          } else {
            assert 0 <= j < |r.children| ==> r.children[j] == t.children[j];
          }
        }
      }
    }
  }

  lemma InsertWords(t: Node, word: string)
    requires Valid(t)
    ensures forall w :: Member(Insert(t, word), w) <==> Member(t, w) || w == Normalize(word)
  {
    forall w {
      InsertMember(t, word, w);
    }
  }

  // ---------------------------------------------------------------------
  // collectAll (NavigateX.cpp:103-115): pre-order, slots in ascending order
  // ---------------------------------------------------------------------

  /** Every word below `t`, each spelled after `prefix`. */
  function CollectAll(t: Node, prefix: string): seq<string>
    requires Valid(t)
    decreases t, Alphabet + 1
  {
    (if t.isEnd then [prefix] else []) + CollectChildren(t, prefix, 0)
  }

  /** The children loop of `collectAll`, from slot `i` on. */
  function CollectChildren(t: Node, prefix: string, i: nat): seq<string>
    requires Valid(t) && i <= Alphabet
    decreases t, Alphabet - i
  {
    if i == Alphabet then []
    else
      (if t.children[i].Some? then CollectAll(t.children[i].value, prefix + [Letter(i)]) else [])
      + CollectChildren(t, prefix, i + 1)
  }

  /** Strings that agree on `p` and then differ are ordered by the first
      differing character. */
  lemma LessAfter(p: string, x: string, y: string)
    requires p < x && p < y && x[|p|] < y[|p|]
    ensures Less(x, y)
  {
    assert x == p + [x[|p|]] + x[|p| + 1..];
    assert y == p + [y[|p|]] + y[|p| + 1..];
    LessAtBranch(p, x[|p|], y[|p|], x[|p| + 1..], y[|p| + 1..]);
  }

  /** A proper prefix comes first. */
  lemma LessExtension(p: string, x: string)
    requires p < x
    ensures Less(p, x)
  {
    assert x == p + x[|p|..];
    LessProperPrefix(p, x[|p|..]);
  }

  /** Two sorted runs, every element of the first below every element of
      the second, make one sorted run. */
  lemma SortedJoin(a: seq<string>, b: seq<string>)
    requires StrictlySorted(a) && StrictlySorted(b)
    requires forall x, y :: x in a && y in b ==> Less(x, y)
    ensures StrictlySorted(a + b)
  {
    var s := a + b;
    forall i, j | 0 <= i < j < |s|
      ensures Less(s[i], s[j])
    {
      if j < |a| {
        assert s[i] == a[i] && s[j] == a[j];
      } else if i >= |a| {
        assert s[i] == b[i - |a|] && s[j] == b[j - |a|];
      } else {
        assert s[i] in a && s[j] in b;
      }
    }
  }

  /** What `collectAll(t, prefix)` lists: exactly the strings `prefix + w`
      for the words `w` of `t`, in strictly ascending order. */
  lemma {:induction false} CollectAllSpec(t: Node, prefix: string)
    requires Valid(t)
    ensures forall x :: x in CollectAll(t, prefix) <==> prefix <= x && Member(t, x[|prefix|..])
    ensures StrictlySorted(CollectAll(t, prefix))
    decreases t, Alphabet + 1
  {
    var head := if t.isEnd then [prefix] else [];
    var rest := CollectChildren(t, prefix, 0);
    CollectChildrenSpec(t, prefix, 0);
    assert CollectAll(t, prefix) == head + rest;
    forall x | x in head
      ensures Member(t, x[|prefix|..])
    {
      assert x[|prefix|..] == [];
    }
    forall x | prefix <= x && Member(t, x[|prefix|..])
      ensures x in head + rest
    {
      if |x| == |prefix| {
        assert x == prefix;
      }
    }
    forall x, y | x in head && y in rest
      ensures Less(x, y)
    {
      LessExtension(prefix, y);
    }
    SortedJoin(head, rest);
  }

  /** What the children loop lists from slot `i` on: the strings
      `prefix + w` for the words `w` of `t` whose first letter has slot `i`
      or later, in strictly ascending order. */
  lemma {:induction false} CollectChildrenSpec(t: Node, prefix: string, i: nat)
    requires Valid(t) && i <= Alphabet
    ensures forall x :: x in CollectChildren(t, prefix, i) <==>
      prefix < x && Slot(x[|prefix|]) >= i && Member(t, x[|prefix|..])
    ensures StrictlySorted(CollectChildren(t, prefix, i))
    decreases t, Alphabet - i
  {
    if i < Alphabet {
      var p := prefix + [Letter(i)];
      var here := if t.children[i].Some? then CollectAll(t.children[i].value, p) else [];
      var rest := CollectChildren(t, prefix, i + 1);
      CollectChildrenSpec(t, prefix, i + 1);
      if t.children[i].Some? {
        CollectAllSpec(t.children[i].value, p);
      }
      assert CollectChildren(t, prefix, i) == here + rest;
      forall x
        ensures x in here <==> prefix < x && Slot(x[|prefix|]) == i && Member(t, x[|prefix|..])
      {
        if prefix < x {
          assert x[|prefix|..][1..] == x[|p|..];
          assert x[|prefix|..][0] == x[|prefix|];
          assert p <= x <==> x[|prefix|] == Letter(i);
        }
        if x in here {
          assert p <= x;
        }
      }
      forall x, y | x in here && y in rest
        ensures Less(x, y)
      {
        LessAfter(prefix, x, y);
      }
      SortedJoin(here, rest);
    } else {
      forall x | prefix < x && Member(t, x[|prefix|..])
        ensures Slot(x[|prefix|]) < Alphabet
      {
        assert x[|prefix|..][0] == x[|prefix|];
      }
    }
  }

  // ---------------------------------------------------------------------
  // suggest (NavigateX.cpp:152-171)
  // ---------------------------------------------------------------------

  /** The prefix walk of `suggest`: `typed` is what is left of the raw
      prefix, `path` the folded letters followed so far. */
  function SuggestFrom(t: Node, typed: string, path: string): seq<string>
    requires Valid(t)
  {
    if |typed| == 0 then CollectAll(t, path)
    else
      var i := Idx(typed[0]);
      if i == -1 then SuggestFrom(t, typed[1..], path)
      else if t.children[i].None? then []
      else SuggestFrom(t.children[i].value, typed[1..], path + [LowerChar(typed[0])])
  }

  function Suggest(root: Node, prefix: string): seq<string>
    requires Valid(root)
  {
    SuggestFrom(root, prefix, [])
  }

  lemma {:induction false} SuggestFromSpec(t: Node, typed: string, path: string)
    requires Valid(t)
    ensures forall x :: x in SuggestFrom(t, typed, path) <==>
      path + Normalize(typed) <= x && Member(t, x[|path|..])
    ensures StrictlySorted(SuggestFrom(t, typed, path))
  {
    if |typed| == 0 {
      CollectAllSpec(t, path);
    } else {
      var i := Idx(typed[0]);
      var key := Normalize(typed[1..]);
      if i == -1 {
        SuggestFromSpec(t, typed[1..], path);
      } else {
        var p := path + [Letter(i)];
        assert Normalize(typed) == [Letter(i)] + key;
        assert path + Normalize(typed) == p + key;
        if t.children[i].None? {
          forall x | path + Normalize(typed) <= x
            ensures !Member(t, x[|path|..])
          {
            assert x[|path|..][0] == x[|path|] == Letter(i);
          }
        } else {
          SuggestFromSpec(t.children[i].value, typed[1..], p);
          forall x | path < x
            ensures (p + key <= x && Member(t.children[i].value, x[|p|..])) <==>
              (p + key <= x && Member(t, x[|path|..]))
          {
            assert x[|path|..][1..] == x[|p|..];
            assert x[|path|..][0] == x[|path|];
            if p + key <= x {
              assert x[|path|] == Letter(i);
            }
          }
          forall x | x in SuggestFrom(t, typed, path) || (p + key <= x && Member(t, x[|path|..]))
            ensures path < x
          {
            assert p <= p + key;
          }
        }
      }
    }
  }

  /** `suggest(prefix)` returns exactly the stored words that extend the
      folded prefix, without repeats, in ascending `std::string` order. */
  lemma SuggestSpec(root: Node, prefix: string)
    requires Valid(root)
    ensures forall x :: x in Suggest(root, prefix) <==> Member(root, x) && Normalize(prefix) <= x
    ensures StrictlySorted(Suggest(root, prefix))
  {
    SuggestFromSpec(root, prefix, []);
    assert forall x: string :: x[0..] == x;
  }

  /** When the walk down the folded prefix falls off the trie, the answer is
      empty. */
  lemma SuggestMissingPath(root: Node, prefix: string)
    requires Valid(root)
    requires Descend(root, Normalize(prefix)).None?
    ensures Suggest(root, prefix) == []
  {
    SuggestSpec(root, prefix);
    var r := Suggest(root, prefix);
    if |r| > 0 {
      assert r[0] in r;
      DescendMissing(root, Normalize(prefix), r[0]);
      assert false;
    }
  }

  /** A suggestion list never repeats a word. */
  lemma SortedDistinct(s: seq<string>, i: int, j: int)
    requires StrictlySorted(s)
    requires 0 <= i < |s| && 0 <= j < |s| && i != j
    ensures s[i] != s[j]
  {
    if i < j {
      LessIrreflexive(s[i]);
    } else {
      LessIrreflexive(s[j]);
    }
  }
}
