/** The 256-way trie of src/common/trie.c.

    `Nodes` maps every path to the node reached by it.  The nodes of distinct paths are distinct
    objects with distinct child arrays, so that subtrees never overlap, and everything that a method
    does to the heap can be stated path by path.
 */
module Tries {
  import opened Options

  const ALPHABET_SIZE: nat := 256

  /** A character of a C string: one byte, and not the terminator. */
  predicate IsByte(c: char) {
    0 < c as int < ALPHABET_SIZE
  }

  predicate IsName(s: string) {
    forall i :: 0 <= i < |s| ==> IsByte(s[i])
  }

  function Ext(p: string, c: char): (q: string)
    ensures |q| == |p| + 1 && q[|p|] == c && q[..|p|] == p
  {
    p + [c]
  }

  /** Some stored word runs through path `p`. */
  ghost predicate HasWord(words: set<string>, p: string) {
    exists w :: w in words && p <= w
  }

  /** Every path is on the way to a stored word, or to `pending`. */
  ghost predicate OnTheWay(paths: set<string>, words: set<string>, pending: string) {
    forall p {:trigger HasWord(words, p)} :: p in paths ==> p <= pending || HasWord(words, p)
  }

  lemma OnTheWayAdd(paths: set<string>, words: set<string>, w: string)
    requires OnTheWay(paths, words, w)
    ensures OnTheWay(paths, words + {w}, [])
  {
    forall p | p in paths && !(p <= w) ensures HasWord(words + {w}, p) {
      assert HasWord(words, p);
      var v :| v in words && p <= v;
      assert v in words + {w};
    }
    assert w in words + {w};
  }

  lemma OnTheWayDrop(paths: set<string>, words: set<string>, p: string, c: char)
    requires OnTheWay(paths, words, Ext(p, c))
    ensures OnTheWay(paths - {Ext(p, c)}, words, p)
  {
    assert forall q :: q in paths ==> q <= Ext(p, c) || HasWord(words, q);
    forall q | q in paths && q <= Ext(p, c) && q != Ext(p, c) ensures q <= p {
      assert |q| <= |p| && q == Ext(p, c)[..|q|] == p[..|q|];
    }
  }

  lemma OnTheWayRemove(paths: set<string>, words: set<string>, w: string)
    requires OnTheWay(paths, words, [])
    ensures OnTheWay(paths, words - {w}, w)
  {
    forall p | p in paths && !(p <= w) ensures HasWord(words - {w}, p) {
      assert HasWord(words, p);
      var v :| v in words && p <= v;
      assert v in words - {w};
    }
  }

  lemma WholePrefix(p: string, w: string)
    requires p <= w && |p| == |w|
    ensures p == w
  {
  }

  // ----- the order of a prefix search -----

  /** Unsigned byte lexicographic order. */
  predicate Less(a: string, b: string) {
    b != "" && (a == "" || a[0] < b[0] || (a[0] == b[0] && Less(a[1..], b[1..])))
  }

  /** The words differ first at place `k`, where `a` ends or has the smaller character. */
  predicate SmallerAt(a: string, b: string, k: nat) {
    k <= |a| && k < |b| && a[..k] == b[..k] && (k == |a| || a[k] < b[k])
  }

  lemma FirstPlace(a: string, b: string, k: nat)
    requires SmallerAt(a, b, k) && a != "" && b != ""
    ensures if k == 0 then a[0] < b[0] else a[0] == b[0]
  {
    assert k > 0 ==> a[..k][0] == a[0] && b[..k][0] == b[0];
  }

  /** The order is that of the first difference, a prefix coming first. */
  lemma {:induction false} LessExactly(a: string, b: string)
    ensures Less(a, b) <==> exists k: nat :: SmallerAt(a, b, k)
  {
    if a == "" || b == "" {
      assert b != "" ==> SmallerAt(a, b, 0);
    } else {
      LessExactly(a[1..], b[1..]);
      assert a[0] < b[0] ==> SmallerAt(a, b, 0);
      if a[0] == b[0] {
        if k: nat :| SmallerAt(a[1..], b[1..], k) {
          assert a[..k + 1] == [a[0]] + a[1..][..k] && b[..k + 1] == [b[0]] + b[1..][..k];
          assert SmallerAt(a, b, k + 1);
        }
        if k: nat :| SmallerAt(a, b, k) {
          assert a[1..][..k - 1] == a[..k][1..] && b[1..][..k - 1] == b[..k][1..];
          assert SmallerAt(a[1..], b[1..], k - 1);
        }
      } else if k: nat :| SmallerAt(a, b, k) {
        FirstPlace(a, b, k);
      }
    }
  }

  lemma {:induction false} LessIrreflexive(a: string)
    ensures !Less(a, a)
  {
    if a != "" {
      LessIrreflexive(a[1..]);
    }
  }

  lemma {:induction false} LessTransitive(a: string, b: string, c: string)
    requires Less(a, b) && Less(b, c)
    ensures Less(a, c)
  {
    if a != "" && a[0] == b[0] == c[0] {
      LessTransitive(a[1..], b[1..], c[1..]);
    }
  }

  /** Two words below path `p` compare by the letters that follow `p`. */
  lemma {:induction false} LessBelow(p: string, u: string, v: string)
    requires p <= u && p <= v && |p| < |v|
    requires u == p || (|p| < |u| && u[|p|] < v[|p|])
    ensures Less(u, v)
  {
    if p != "" {
      assert u[0] == p[0] == v[0];
      assert u == p ==> u[1..] == p[1..];
      LessBelow(p[1..], u[1..], v[1..]);
    }
  }

  /** `out` lists the first `n` elements of `all` in increasing order, or all of them if there are fewer. */
  ghost predicate FirstOf(out: seq<string>, all: set<string>, n: nat) {
    && |out| <= n
    && (forall i, j :: 0 <= i < j < |out| ==> Less(out[i], out[j]))
    && (forall i :: 0 <= i < |out| ==> out[i] in all)
    && (forall w :: w in all ==> w in out || (|out| == n && forall i :: 0 <= i < |out| ==> Less(out[i], w)))
  }

  /** All of `low` comes before all of `high`. */
  ghost predicate Before(low: set<string>, high: set<string>) {
    forall u, v :: u in low && v in high ==> Less(u, v)
  }

  lemma FirstOfUnion(a: seq<string>, low: set<string>, b: seq<string>, high: set<string>, n: nat)
    requires FirstOf(a, low, n) && FirstOf(b, high, n - |a|)
    requires Before(low, high)
    ensures FirstOf(a + b, low + high, n)
  {
    var out := a + b;
    forall w | w in low + high && w !in out
      ensures |out| == n && forall i :: 0 <= i < |out| ==> Less(out[i], w)
    {
      assert w !in a && w !in b;
    }
  }

  /** A results array that is filled further. */
  lemma FirstOfExtend(before: seq<string>, after: seq<string>, from: nat, count: nat, count': nat,
                      low: set<string>, high: set<string>, max: nat)
    requires from <= count <= count' <= max && count <= |before| && count' <= |after|
    requires after[..count] == before[..count]
    requires FirstOf(before[from..count], low, max - from)
    requires FirstOf(after[count..count'], high, max - count)
    requires Before(low, high)
    ensures FirstOf(after[from..count'], low + high, max - from)
  {
    assert before[from..count] == before[..count][from..] == after[from..count];
    FirstOfUnion(after[from..count], low, after[count..count'], high, max - from);
    assert after[from..count] + after[count..count'] == after[from..count'];
  }

  /** There is only one such list, and it has the right length. */
  lemma {:induction false} FirstOfUnique(a: seq<string>, b: seq<string>, all: set<string>, n: nat)
    requires FirstOf(a, all, n) && FirstOf(b, all, n)
    ensures a == b
  {
    if a == [] || b == [] {
      FirstOfLength(a, all, n);
      FirstOfLength(b, all, n);
    } else {
      SameHead(a, b, all, n);
      FirstOfTail(a, all, n);
      FirstOfTail(b, all, n);
      FirstOfUnique(a[1..], b[1..], all - {a[0]}, n - 1);
      assert a == [a[0]] + a[1..] && b == [b[0]] + b[1..];
    }
  }

  lemma {:induction false} FirstOfLength(out: seq<string>, all: set<string>, n: nat)
    requires FirstOf(out, all, n)
    ensures |out| == if |all| <= n then |all| else n
  {
    if out == [] {
      assert forall w :: w in all ==> n == 0;
      assert n > 0 ==> all == {};
    } else {
      FirstOfTail(out, all, n);
      FirstOfLength(out[1..], all - {out[0]}, n - 1);
    }
  }

  lemma FirstOfTail(out: seq<string>, all: set<string>, n: nat)
    requires FirstOf(out, all, n) && out != []
    ensures FirstOf(out[1..], all - {out[0]}, n - 1)
  {
    var rest := out[1..];
    forall i | 0 <= i < |rest| ensures rest[i] in all - {out[0]} {
      LessIrreflexive(out[0]);
      assert Less(out[0], out[i + 1]);
    }
    assert out == [out[0]] + rest;
    forall w | w in all - {out[0]} && w !in rest
      ensures |rest| == n - 1 && forall i :: 0 <= i < |rest| ==> Less(rest[i], w)
    {
      assert w !in out;
      assert forall i :: 0 <= i < |rest| ==> rest[i] == out[i + 1];
    }
  }

  lemma HeadIsLeast(out: seq<string>, all: set<string>, n: nat, w: string)
    requires FirstOf(out, all, n) && out != [] && w in all
    ensures w == out[0] || Less(out[0], w)
  {
    if w in out {
      var i :| 0 <= i < |out| && out[i] == w;
    }
  }

  lemma SameHead(a: seq<string>, b: seq<string>, all: set<string>, n: nat)
    requires FirstOf(a, all, n) && FirstOf(b, all, n) && a != [] && b != []
    ensures a[0] == b[0]
  {
    HeadIsLeast(b, all, n, a[0]);
    HeadIsLeast(a, all, n, b[0]);
    if Less(a[0], b[0]) && Less(b[0], a[0]) {
      LessTransitive(a[0], b[0], a[0]);
      LessIrreflexive(a[0]);
    }
  }

  lemma Height(paths: set<string>) returns (h: nat)
    ensures forall p :: p in paths ==> |p| <= h
  {
    if paths == {} {
      h := 0;
    } else {
      var p :| p in paths;
      h := Height(paths - {p});
      h := if |p| > h then |p| else h;
    }
  }

  /** `children` is the inline array of the C struct: part of the node itself. */
  class TrieNode {
    ghost const path: string
    var children: seq<TrieNode?>
    var isEnd: bool
    var filename: Option<string>

    constructor (ghost path: string)
      ensures this.path == path
      ensures children == seq(ALPHABET_SIZE, _ => null)
      ensures !isEnd && filename == None
    {
      this.path := path;
      children := seq(ALPHABET_SIZE, _ => null);
      isEnd := false;
      filename := None;
    }
  }

  class Trie {
    const root: TrieNode
    var size: int
    ghost var Nodes: map<string, TrieNode>
    ghost var Words: set<string>
    ghost var Repr: set<object>

    /** The node one step below path `p`. */
    ghost function Below(p: string, c: char): TrieNode?
      reads this`Nodes
    {
      if Ext(p, c) in Nodes then Nodes[Ext(p, c)] else null
    }

    /** Links, end marks and file names spell out `Nodes` and `Words`. */
    ghost predicate Shape()
      reads this, Repr
    {
      && this in Repr && [] in Nodes && Nodes[[]] == root
      && (forall p :: p in Nodes ==>
            && Nodes[p] in Repr && Nodes[p].path == p
            && |Nodes[p].children| == ALPHABET_SIZE && Nodes[p].children[0] == null
            && Nodes[p].isEnd == (p in Words)
            && Nodes[p].filename == if p in Words then Some(p) else None)
      && (forall p, c {:trigger Below(p, c)} :: p in Nodes && IsByte(c) ==> Nodes[p].children[c as int] == Below(p, c))
      && (forall p, c {:trigger Ext(p, c)} :: Ext(p, c) in Nodes ==> p in Nodes && IsByte(c))
      && Words <= Nodes.Keys
    }

    ghost predicate Valid()
      reads this, Repr
    {
      Shape() && OnTheWay(Nodes.Keys, Words, []) && size == |Words|
    }

    constructor ()
      ensures Valid() && Words == {} && fresh(Repr)
    {
      root := new TrieNode([]);
      size := 0;
      Words := {};
      new;
      Nodes := map[[] := root];
      Repr := {this, root};
    }

    lemma {:induction false} PrefixClosed(q: string, w: string)
      requires Shape() && w in Nodes && q <= w
      ensures q in Nodes
      decreases |w|
    {
      if q != w {
        var p := w[..|w| - 1];
        assert Ext(p, w[|w| - 1]) == w;
        PrefixClosed(q, p);
      }
    }

    /** The canonical shape: the nodes are exactly the root and the prefixes of stored words. */
    lemma NodesArePrefixes(p: string)
      requires Valid()
      ensures p in Nodes <==> p == [] || HasWord(Words, p)
    {
      if HasWord(Words, p) {
        var w :| w in Words && p <= w;
        PrefixClosed(p, w);
      }
    }

    // ----- insert -----

    /** Link a new node below path `p`. */
    method AddChild(current: TrieNode, c: char, ghost p: string)
      requires Shape() && p in Nodes && current == Nodes[p]
      requires IsByte(c) && Ext(p, c) !in Nodes
      modifies this`Nodes, this`Repr, current`children
      ensures Shape()
      ensures Nodes.Keys == old(Nodes.Keys) + {Ext(p, c)} && Nodes[p] == current
      ensures old(Repr) <= Repr && fresh(Repr - old(Repr))
    {
      var n := new TrieNode(Ext(p, c));
      current.children := current.children[c as int := n];
      Nodes := Nodes[Ext(p, c) := n];
      Repr := Repr + {n};
      forall q, d ensures Ext(q, d) == Ext(p, c) <==> q == p && d == c {
      }
      forall d ensures Ext(Ext(p, c), d) !in old(Nodes) {
      }
      forall q, d | q in Nodes && IsByte(d) ensures Nodes[q].children[d as int] == Below(q, d) {
        assert q in old(Nodes) ==> old(Nodes[q].children[d as int]) == old(Below(q, d));
      }
    }

    method MarkEnd(current: TrieNode, filename: string)
      requires Shape() && size == |Words|
      requires filename in Nodes && current == Nodes[filename]
      modifies this`size, this`Words, current
      ensures Shape() && size == |Words|
      ensures Words == old(Words) + {filename}
    {
      if !current.isEnd {
        size := size + 1;
      }
      current.isEnd := true;
      current.filename := Some(filename);
      Words := Words + {filename};
      assert filename in old(Words) ==> Words == old(Words);
    }

    /** One step of the walk, creating the node if it is missing. */
    method Step(current: TrieNode, filename: string, i: nat) returns (next: TrieNode)
      requires i < |filename| && IsName(filename)
      requires Shape() && OnTheWay(Nodes.Keys, Words, filename)
      requires filename[..i] in Nodes && current == Nodes[filename[..i]]
      modifies this`Nodes, this`Repr, current`children
      ensures Shape() && OnTheWay(Nodes.Keys, Words, filename)
      ensures filename[..i + 1] in Nodes && next == Nodes[filename[..i + 1]]
      ensures old(Repr) <= Repr && fresh(Repr - old(Repr))
    {
      var c := filename[i];
      ghost var p := filename[..i];
      assert filename[..i + 1] == Ext(p, c) && Ext(p, c) <= filename;
      assert current.children[c as int] == Below(p, c);
      if current.children[c as int] == null {
        AddChild(current, c, p);
      }
      assert current.children[c as int] == Below(p, c);
      next := current.children[c as int];
    }

    method Insert(filename: string)
      requires Valid() && IsName(filename)
      modifies Repr
      ensures Valid() && old(Repr) <= Repr && fresh(Repr - old(Repr))
      ensures Words == old(Words) + {filename}
    {
      var current := root;
      var i := 0;
      while i < |filename|
        invariant 0 <= i <= |filename|
        invariant Shape() && OnTheWay(Nodes.Keys, Words, filename)
        invariant filename[..i] in Nodes && current == Nodes[filename[..i]]
        invariant Words == old(Words) && size == old(size)
        invariant old(Repr) <= Repr && fresh(Repr - old(Repr))
      {
        current := Step(current, filename, i);
        i := i + 1;
      }
      assert filename[..i] == filename;
      OnTheWayAdd(Nodes.Keys, Words, filename);
      MarkEnd(current, filename);
    }

    // ----- search -----

    /** Walk down from the root; null if the path leaves the trie. */
    method Walk(filename: string) returns (node: TrieNode?)
      requires Valid() && IsName(filename)
      ensures node == if filename in Nodes then Nodes[filename] else null
    {
      var current := root;
      var i := 0;
      while i < |filename|
        invariant 0 <= i <= |filename|
        invariant filename[..i] in Nodes && current == Nodes[filename[..i]]
      {
        var c := filename[i];
        assert filename[..i + 1] == Ext(filename[..i], c);
        assert current.children[c as int] == Below(filename[..i], c);
        if current.children[c as int] == null {
          if filename in Nodes {
            PrefixClosed(filename[..i + 1], filename);
          }
          return null;
        }
        current := current.children[c as int];
        i := i + 1;
      }
      assert filename[..i] == filename;
      return current;
    }

    method Search(filename: string) returns (found: bool)
      requires Valid() && IsName(filename)
      ensures found <==> filename in Words
    {
      var current := Walk(filename);
      return current != null && current.isEnd;
    }

    // ----- delete -----

    /** The loop over all children. */
    method HasNoChildren(node: TrieNode, ghost p: string) returns (none: bool)
      requires Shape() && p in Nodes && node == Nodes[p]
      ensures none <==> forall c :: Ext(p, c) !in Nodes
    {
      var i := 0;
      while i < ALPHABET_SIZE
        invariant 0 <= i <= ALPHABET_SIZE
        invariant forall c :: (c as int) < i ==> Ext(p, c) !in Nodes
      {
        assert i > 0 ==> node.children[(i as char) as int] == Below(p, i as char);
        if node.children[i] != null {
          return false;
        }
        i := i + 1;
      }
      return true;
    }

    lemma NoChildNoWord(p: string, w: string)
      requires Shape() && p in Nodes && w in Words && p <= w && |p| < |w|
      ensures Ext(p, w[|p|]) in Nodes
    {
      assert Ext(p, w[|p|]) == w[..|p| + 1];
      PrefixClosed(Ext(p, w[|p|]), w);
    }

    lemma ChildHasWord(p: string, c: char, pending: string)
      requires Ext(p, c) in Nodes && OnTheWay(Nodes.Keys, Words, pending) && !(Ext(p, c) <= pending)
      ensures HasWord(Words, p)
    {
      assert HasWord(Words, Ext(p, c));
      var w :| w in Words && Ext(p, c) <= w;
      assert p <= w;
    }

    /** Take away the end mark of the word that ends here. */
    method Unmark(node: TrieNode, filename: string)
      requires Shape() && filename in Nodes && node == Nodes[filename]
      modifies this`Words, node
      ensures Shape()
      ensures Words == old(Words) - {filename}
    {
      if node.isEnd {
        node.isEnd := false;
        node.filename := None;
      }
      Words := Words - {filename};
    }

    /** Unlink the node below `p`, which no stored word needs any more. */
    method Unlink(node: TrieNode, c: char, ghost p: string)
      requires Shape() && p in Nodes && node == Nodes[p] && IsByte(c) && Ext(p, c) in Nodes
      requires OnTheWay(Nodes.Keys, Words, Ext(p, c)) && !HasWord(Words, Ext(p, c))
      modifies this`Nodes, node`children
      ensures Shape() && OnTheWay(Nodes.Keys, Words, p)
      ensures Nodes == old(Nodes) - {Ext(p, c)}
    {
      ghost var gone := Ext(p, c);
      forall d ensures Ext(gone, d) !in Nodes {
        if Ext(gone, d) in Nodes {
          ChildHasWord(gone, d, gone);
        }
      }
      assert gone !in Words;
      OnTheWayDrop(Nodes.Keys, Words, p, c);
      assert (Nodes - {gone}).Keys == Nodes.Keys - {gone};
      node.children := node.children[c as int := null];
      Nodes := Nodes - {gone};
      forall q, d | q in Nodes && IsByte(d) ensures Nodes[q].children[d as int] == Below(q, d) {
        assert old(Nodes[q].children[d as int]) == old(Below(q, d));
        assert Ext(q, d) == gone <==> q == p && d == c;
      }
      forall q, d | Ext(q, d) in Nodes ensures q in Nodes && IsByte(d) {
        assert Ext(q, d) in old(Nodes) && q != gone;
      }
    }

    lemma AbsentBelow(filename: string, depth: nat)
      requires Shape() && depth <= |filename| && filename[..depth] !in Nodes
      ensures filename !in Words
    {
      if filename in Words {
        PrefixClosed(filename[..depth], filename);
      }
    }

    lemma NoneMeansDrop(p: string, none: bool)
      requires Shape() && p in Nodes && p !in Words && OnTheWay(Nodes.Keys, Words, p)
      requires none <==> forall c :: Ext(p, c) !in Nodes
      ensures none <==> !HasWord(Words, p)
    {
      if none {
        forall w | w in Words && p <= w ensures false {
          if |w| == |p| {
            WholePrefix(p, w);
          } else {
            NoChildNoWord(p, w);
          }
        }
      } else {
        var c :| Ext(p, c) in Nodes;
        ChildHasWord(p, c, p);
      }
    }

    /** A child that stays, or was not there, leaves its parent needed. */
    lemma NoDrop(p: string, c: char, filename: string, oldWords: set<string>)
      requires Shape() && OnTheWay(Nodes.Keys, Words, Ext(p, c))
      requires Words == oldWords - {filename}
      requires Ext(p, c) in Nodes ==> HasWord(Words, Ext(p, c))
      requires Ext(p, c) !in Nodes ==> filename !in oldWords && (p == [] || HasWord(oldWords, p))
      ensures OnTheWay(Nodes.Keys, Words, p)
      ensures p == [] || HasWord(Words, p)
    {
      OnTheWayDrop(Nodes.Keys, Words, p, c);
      if Ext(p, c) in Nodes {
        assert HasWord(Words, Ext(p, c));
        var w :| w in Words && Ext(p, c) <= w;
        assert p <= w;
      } else {
        assert Words == oldWords;
      }
    }

    /** `delete_helper`: true if the caller may drop `node`, which is where path `filename[..depth]` ends. */
    method DeleteHelper(node: TrieNode?, filename: string, depth: nat) returns (drop: bool)
      requires depth <= |filename| && IsName(filename)
      requires Shape() && OnTheWay(Nodes.Keys, Words, [])
      requires node == if filename[..depth] in Nodes then Nodes[filename[..depth]] else null
      modifies Repr
      ensures Shape() && OnTheWay(Nodes.Keys, Words, filename[..depth])
      ensures Words == old(Words) - {filename} && Repr == old(Repr) && size == old(size)
      ensures forall q :: q in Nodes ==> q in old(Nodes) && Nodes[q] == old(Nodes)[q]
      ensures forall q :: q in old(Nodes) && |q| <= depth ==> q in Nodes
      ensures drop ==> node != null && !HasWord(Words, filename[..depth])
      ensures node != null && depth > 0 && !HasWord(Words, filename[..depth]) ==> drop
      decreases |filename| - depth, 1
    {
      if node == null {
        AbsentBelow(filename, depth);
        drop := false;
      } else if depth == |filename| {
        assert filename[..depth] == filename;
        drop := DeleteHere(node, filename);
      } else {
        drop := DeleteBelow(node, filename, depth);
      }
    }

    /** The word ends at this node. */
    method DeleteHere(node: TrieNode, filename: string) returns (drop: bool)
      requires Shape() && OnTheWay(Nodes.Keys, Words, [])
      requires filename in Nodes && node == Nodes[filename]
      modifies this`Words, node
      ensures Shape() && OnTheWay(Nodes.Keys, Words, filename)
      ensures Words == old(Words) - {filename}
      ensures drop <==> !HasWord(Words, filename)
    {
      OnTheWayRemove(Nodes.Keys, Words, filename);
      Unmark(node, filename);
      drop := HasNoChildren(node, filename);
      NoneMeansDrop(filename, drop);
    }

    /** The word goes on below this node. */
    method DeleteBelow(node: TrieNode, filename: string, depth: nat) returns (drop: bool)
      requires depth < |filename| && IsName(filename)
      requires Shape() && OnTheWay(Nodes.Keys, Words, [])
      requires filename[..depth] in Nodes && node == Nodes[filename[..depth]]
      modifies Repr
      ensures Shape() && OnTheWay(Nodes.Keys, Words, filename[..depth])
      ensures Words == old(Words) - {filename} && Repr == old(Repr) && size == old(size)
      ensures forall q :: q in Nodes ==> q in old(Nodes) && Nodes[q] == old(Nodes)[q]
      ensures forall q :: q in old(Nodes) && |q| <= depth ==> q in Nodes
      ensures drop ==> !HasWord(Words, filename[..depth])
      ensures depth > 0 && !HasWord(Words, filename[..depth]) ==> drop
      decreases |filename| - depth, 0
    {
      ghost var p, had := filename[..depth], Words;
      var c := filename[depth];
      assert filename[..depth + 1] == Ext(p, c);
      assert node.children[c as int] == Below(p, c);
      var child := node.children[c as int];
      if child == null {
        AbsentBelow(filename, depth + 1);
      }
      var r := DeleteHelper(child, filename, depth + 1);
      if r {
        drop := DropChild(node, c, p);
      } else {
        NoDrop(p, c, filename, had);
        drop := false;
      }
    }

    /** Free the child, and see whether this node has become useless too. */
    method DropChild(node: TrieNode, c: char, ghost p: string) returns (drop: bool)
      requires Shape() && p in Nodes && node == Nodes[p] && IsByte(c) && Ext(p, c) in Nodes
      requires OnTheWay(Nodes.Keys, Words, Ext(p, c)) && !HasWord(Words, Ext(p, c))
      modifies this`Nodes, node`children
      ensures Shape() && OnTheWay(Nodes.Keys, Words, p)
      ensures Nodes == old(Nodes) - {Ext(p, c)}
      ensures drop <==> !HasWord(Words, p)
    {
      Unlink(node, c, p);
      drop := false;
      if !node.isEnd {
        drop := HasNoChildren(node, p);
        NoneMeansDrop(p, drop);
      } else {
        assert p in Words && p <= p;
      }
    }

    method Delete(filename: string)
      requires Valid() && IsName(filename)
      modifies Repr
      ensures Valid() && Repr == old(Repr)
      ensures Words == old(Words) - {filename}
    {
      var found := Search(filename);
      if found {
        assert filename[..0] == [];
        var _ := DeleteHelper(root, filename, 0);
        size := size - 1;
      }
    }

    // ----- prefix search -----

    ghost function WordsBelow(p: string): set<string>
      reads this`Words
    {
      set w | w in Words && p <= w
    }

    /** The words below `p` that the collector meets before child `i`. */
    ghost function WordsUpTo(p: string, i: nat): set<string>
      reads this`Words
    {
      set w | w in Words && p <= w && (|w| == |p| || w[|p|] as int < i)
    }

    lemma NextLetter(p: string, w: string)
      requires Shape() && w in Words && p <= w && |p| < |w|
      ensures Ext(p, w[|p|]) <= w && IsByte(w[|p|]) && Ext(p, w[|p|]) in Nodes
    {
      assert Ext(p, w[|p|]) == w[..|p| + 1];
      PrefixClosed(Ext(p, w[|p|]), w);
    }

    lemma NextChild(p: string, i: nat)
      requires Shape() && i < ALPHABET_SIZE
      ensures WordsUpTo(p, i + 1) == WordsUpTo(p, i) + WordsBelow(Ext(p, i as char))
      ensures Before(WordsUpTo(p, i), WordsBelow(Ext(p, i as char)))
      ensures Ext(p, i as char) !in Nodes ==> WordsBelow(Ext(p, i as char)) == {}
    {
      var c := i as char;
      forall w | w in Words && p <= w && |p| < |w| ensures w[|p|] == c <==> Ext(p, c) <= w {
        assert Ext(p, w[|p|]) == w[..|p| + 1];
      }
      forall u, v | u in WordsUpTo(p, i) && v in WordsBelow(Ext(p, c)) ensures Less(u, v) {
        assert p <= v && v[|p|] == c;
        if |u| == |p| {
          WholePrefix(p, u);
        }
        LessBelow(p, u, v);
      }
      if Ext(p, c) !in Nodes {
        forall w | w in WordsBelow(Ext(p, c)) ensures false {
          PrefixClosed(Ext(p, c), w);
        }
      }
    }

    /** Whatever lies beyond child `i` comes after everything met so far. */
    lemma LastChild(p: string, i: nat)
      requires Shape() && i <= ALPHABET_SIZE
      ensures var rest := WordsBelow(p) - WordsUpTo(p, i);
              && WordsBelow(p) == WordsUpTo(p, i) + rest
              && Before(WordsUpTo(p, i), rest)
              && (i == ALPHABET_SIZE ==> rest == {})
    {
      var rest := WordsBelow(p) - WordsUpTo(p, i);
      forall w | w in rest ensures i < ALPHABET_SIZE {
        NextLetter(p, w);
      }
      forall u, v | u in WordsUpTo(p, i) && v in rest ensures Less(u, v) {
        if |u| == |p| {
          WholePrefix(p, u);
        }
        LessBelow(p, u, v);
      }
    }

    lemma FirstHere(p: string)
      requires Shape()
      ensures WordsUpTo(p, 0) == if p in Words then {p} else {}
    {
      forall w | w in Words && p <= w && |w| == |p| ensures w == p {
        WholePrefix(p, w);
      }
    }

    lemma FinishCollect(out: seq<string>, p: string, i: nat, n: nat)
      requires Shape() && i <= ALPHABET_SIZE
      requires FirstOf(out, WordsUpTo(p, i), n) && (i == ALPHABET_SIZE || |out| == n)
      ensures FirstOf(out, WordsBelow(p), n)
    {
      LastChild(p, i);
      FirstOfUnion(out, WordsUpTo(p, i), [], WordsBelow(p) - WordsUpTo(p, i), n);
      assert out + [] == out;
    }

    lemma NothingBelow(p: string)
      requires Shape() && p !in Nodes
      ensures WordsBelow(p) == {}
    {
      forall w | w in WordsBelow(p) ensures false {
        PrefixClosed(p, w);
      }
    }

    /** The word that ends at the node itself comes first. */
    method CollectHere(node: TrieNode, results: array<string>, count: nat, ghost max: nat, ghost p: string)
      returns (count': nat)
      requires Valid() && count < max <= results.Length
      requires p in Nodes && node == Nodes[p]
      modifies results
      ensures count <= count' <= max && results[..count] == old(results[..count])
      ensures FirstOf(results[count..count'], WordsUpTo(p, 0), max - count)
    {
      count' := count;
      FirstHere(p);
      if node.isEnd && node.filename.Some? {
        results[count'] := node.filename.value;
        count' := count' + 1;
      }
    }

    /** `collect_words`, without the scratch buffer that it fills but never reads. */
    method CollectWords(node: TrieNode?, results: array<string>, count: nat, max: nat,
                        ghost p: string, ghost height: nat)
      returns (count': nat)
      requires Valid() && count <= max <= results.Length
      requires node == if p in Nodes then Nodes[p] else null
      requires forall q :: q in Nodes ==> |q| <= height
      modifies results
      ensures count <= count' <= max && results[..count] == old(results[..count])
      ensures FirstOf(results[count..count'], WordsBelow(p), max - count)
      decreases height + 1 - |p|, 1
    {
      if node == null || count >= max {
        if node == null {
          NothingBelow(p);
        }
        return count;
      }
      count' := CollectHere(node, results, count, max, p);
      var i := 0;
      while i < ALPHABET_SIZE && count' < max
        invariant 0 <= i <= ALPHABET_SIZE && count <= count' <= max
        invariant results[..count] == old(results[..count])
        invariant FirstOf(results[count..count'], WordsUpTo(p, i), max - count)
      {
        ghost var before := results[..count'];
        count' := CollectChild(node, results, count', max, p, i, height, count);
        assert results[..count] == before[..count];
        i := i + 1;
      }
      FinishCollect(results[count..count'], p, i, max - count);
    }

    /** One turn of the collector's loop. */
    method CollectChild(node: TrieNode, results: array<string>, count: nat, max: nat,
                        ghost p: string, i: nat, ghost height: nat, ghost from: nat)
      returns (count': nat)
      requires Valid() && from <= count < max <= results.Length && i < ALPHABET_SIZE
      requires p in Nodes && node == Nodes[p]
      requires forall q :: q in Nodes ==> |q| <= height
      requires FirstOf(results[from..count], WordsUpTo(p, i), max - from)
      modifies results
      ensures count <= count' <= max && results[..count] == old(results[..count])
      ensures FirstOf(results[from..count'], WordsUpTo(p, i + 1), max - from)
      decreases height + 1 - |p|, 0
    {
      ghost var child := Ext(p, i as char);
      NextChild(p, i);
      assert i > 0 ==> node.children[(i as char) as int] == Below(p, i as char);
      count' := count;
      if node.children[i] != null {
        ghost var before := results[..];
        count' := CollectWords(node.children[i], results, count, max, child, height);
        assert results[..][..count] == before[..count];
        assert results[..][count..count'] == results[count..count'];
        assert before[from..count] == old(results[from..count]);
        FirstOfExtend(before, results[..], from, count, count', WordsUpTo(p, i), WordsBelow(child), max);
      }
    }

    /** The matches come out in strictly increasing order, without gaps, up to the limit. */
    method SearchPrefix(prefix: string, results: array<string>, max: nat) returns (count: nat)
      requires Valid() && IsName(prefix) && max <= results.Length
      modifies results
      ensures count <= max
      ensures FirstOf(results[..count], WordsBelow(prefix), max)
    {
      var current := Walk(prefix);
      ghost var height := Height(Nodes.Keys);
      count := CollectWords(current, results, 0, max, prefix, height);
      assert results[..count] == results[0..count];
    }
  }

  /** Two tries with the same words have the same paths, end marks and file names: so inserting a
      new word and deleting it again restores the shape. */
  lemma SameWordsSameShape(t1: Trie, t2: Trie)
    requires t1.Valid() && t2.Valid() && t1.Words == t2.Words
    ensures t1.Nodes.Keys == t2.Nodes.Keys && t1.size == t2.size
    ensures forall p :: p in t1.Nodes ==>
              t1.Nodes[p].isEnd == t2.Nodes[p].isEnd && t1.Nodes[p].filename == t2.Nodes[p].filename
  {
    forall p ensures p in t1.Nodes <==> p in t2.Nodes {
      t1.NodesArePrefixes(p);
      t2.NodesArePrefixes(p);
    }
  }

  method InsertThenDelete(t: Trie, w: string)
    requires t.Valid() && IsName(w) && w !in t.Words
    modifies t.Repr
    ensures t.Valid() && t.Words == old(t.Words) && t.size == old(t.size)
    ensures t.Nodes.Keys == old(t.Nodes.Keys)
  {
    forall p ensures p in t.Nodes <==> p == [] || HasWord(t.Words, p) {
      t.NodesArePrefixes(p);
    }
    t.Insert(w);
    t.Delete(w);
    assert t.Words == old(t.Words);
    forall p ensures p in t.Nodes <==> p == [] || HasWord(t.Words, p) {
      t.NodesArePrefixes(p);
    }
  }
}
