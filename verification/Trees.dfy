/** Finite ordered trees, their preorder walks, and subsequences. */
module Trees {
  import opened Sequences

  /** An abstract syntax node: what the walkers read, and its children in source order. */
  datatype Tree = Tree(kind: string, text: string, children: seq<Tree>)

  // ---- recursive walks ----

  /** Preorder that does not enter the subtrees below nodes satisfying `stop`. */
  function Walk(t: Tree, stop: Tree -> bool): seq<Tree> {
    [t] + if stop(t) then [] else WalkAll(t.children, stop)
  }

  function WalkAll(ts: seq<Tree>, stop: Tree -> bool): seq<Tree> {
    if ts == [] then [] else Walk(ts[0], stop) + WalkAll(ts[1..], stop)
  }

  const Never: Tree -> bool := _ => false

  function Size(t: Tree): nat {
    1 + SizeAll(t.children)
  }

  function SizeAll(ts: seq<Tree>): nat {
    if ts == [] then 0 else Size(ts[0]) + SizeAll(ts[1..])
  }

  // ---- the stack's reading order ----

  /** What is still to be visited when `s` is on the stack, its last element on top. */
  function Pending(s: seq<Tree>, stop: Tree -> bool): seq<Tree> {
    if s == [] then [] else Walk(s[|s| - 1], stop) + Pending(s[..|s| - 1], stop)
  }

  /** The nodes below the stack: what bounds the remaining iterations. */
  function PendingSize(s: seq<Tree>): nat {
    if s == [] then 0 else Size(s[|s| - 1]) + PendingSize(s[..|s| - 1])
  }

  function Reverse<T>(s: seq<T>): (r: seq<T>)
    ensures |r| == |s| && forall i :: 0 <= i < |s| ==> r[i] == s[|s| - 1 - i]
  {
    if s == [] then [] else Reverse(s[1..]) + [s[0]]
  }

  lemma PendingTop(s: seq<Tree>, t: Tree, stop: Tree -> bool)
    ensures Pending(s + [t], stop) == Walk(t, stop) + Pending(s, stop)
    ensures PendingSize(s + [t]) == Size(t) + PendingSize(s)
  {
    assert (s + [t])[..|s|] == s;
  }

  /** Children pushed in reverse come off the stack as the forward walk of the children. */
  lemma {:induction false} PendingPush(s: seq<Tree>, ts: seq<Tree>, stop: Tree -> bool)
    ensures Pending(s + Reverse(ts), stop) == WalkAll(ts, stop) + Pending(s, stop)
    ensures PendingSize(s + Reverse(ts)) == SizeAll(ts) + PendingSize(s)
  {
    if ts == [] {
      assert s + Reverse(ts) == s;
    } else {
      var r := s + Reverse(ts[1..]);
      assert s + Reverse(ts) == r + [ts[0]];
      assert WalkAll(ts, stop) == Walk(ts[0], stop) + WalkAll(ts[1..], stop);
      assert SizeAll(ts) == Size(ts[0]) + SizeAll(ts[1..]);
      hide *;
      PendingPush(s, ts[1..], stop);
      PendingTop(r, ts[0], stop);
      Associate(Walk(ts[0], stop), WalkAll(ts[1..], stop), Pending(s, stop));
    }
  }

  // ---- subsequences ----

  /** `a` is `b` with some elements left out. */
  predicate IsSubsequence<T(==)>(a: seq<T>, b: seq<T>) {
    if a == [] then true
    else if b == [] then false
    else (a[0] == b[0] && IsSubsequence(a[1..], b[1..])) || IsSubsequence(a, b[1..])
  }

  lemma {:induction false} SubsequenceRefl<T>(a: seq<T>)
    ensures IsSubsequence(a, a)
  {
    if a != [] { SubsequenceRefl(a[1..]); }
  }

  lemma {:induction false} SubsequenceConcat<T>(a: seq<T>, b: seq<T>, c: seq<T>, d: seq<T>)
    requires IsSubsequence(a, b) && IsSubsequence(c, d)
    ensures IsSubsequence(a + c, b + d)
    decreases |b|
  {
    if b == [] {
      assert a + c == c && b + d == d;
    } else {
      assert (b + d)[1..] == b[1..] + d;
      if a == [] {
        assert a + c == c;
        SubsequenceConcat(a, b[1..], c, d);
      } else if a[0] == b[0] && IsSubsequence(a[1..], b[1..]) {
        SubsequenceConcat(a[1..], b[1..], c, d);
        assert (a + c)[1..] == a[1..] + c;
      } else {
        SubsequenceConcat(a, b[1..], c, d);
      }
    }
  }

  lemma {:induction false} SubsequenceTransitive<T>(a: seq<T>, b: seq<T>, c: seq<T>)
    requires IsSubsequence(a, b) && IsSubsequence(b, c)
    ensures IsSubsequence(a, c)
    decreases |b| + |c|
  {
    if a != [] {
      if b[0] == c[0] && IsSubsequence(b[1..], c[1..]) {
        if a[0] == b[0] && IsSubsequence(a[1..], b[1..]) {
          SubsequenceTransitive(a[1..], b[1..], c[1..]);
        } else {
          SubsequenceTransitive(a, b[1..], c[1..]);
        }
      } else {
        SubsequenceTransitive(a, b, c[1..]);
      }
    }
  }

  /** Leaving out whole subtrees leaves out elements of the walk. */
  lemma {:induction false} WalkAllSubsequence(a: seq<Tree>, b: seq<Tree>, stop: Tree -> bool)
    requires IsSubsequence(a, b)
    ensures IsSubsequence(WalkAll(a, stop), WalkAll(b, stop))
    decreases |b|
  {
    if a != [] {
      var w := Walk(b[0], stop);
      if a[0] == b[0] && IsSubsequence(a[1..], b[1..]) {
        WalkAllSubsequence(a[1..], b[1..], stop);
        SubsequenceRefl(w);
        SubsequenceConcat(w, w, WalkAll(a[1..], stop), WalkAll(b[1..], stop));
      } else {
        WalkAllSubsequence(a, b[1..], stop);
        SubsequenceConcat([], w, WalkAll(a, stop), WalkAll(b[1..], stop));
        assert [] + WalkAll(a, stop) == WalkAll(a, stop);
      }
    }
  }

  // ---- addresses ----

  /** A node's address: the child indices from the root down to it. */
  type Path = seq<nat>

  predicate ValidPath(t: Tree, p: Path) {
    p == [] || (p[0] < |t.children| && ValidPath(t.children[p[0]], p[1..]))
  }

  function At(t: Tree, p: Path): Tree
    requires ValidPath(t, p)
  {
    if p == [] then t else At(t.children[p[0]], p[1..])
  }

  /** No node strictly above address `p` stops the walk. */
  predicate Open(t: Tree, p: Path, stop: Tree -> bool)
    requires ValidPath(t, p)
  {
    p == [] || (!stop(t) && Open(t.children[p[0]], p[1..], stop))
  }

  function Prepend(i: nat, ps: seq<Path>): (r: seq<Path>)
    ensures |r| == |ps| && forall k :: 0 <= k < |ps| ==> r[k] == [i] + ps[k]
  {
    seq(|ps|, k requires 0 <= k < |ps| => [i] + ps[k])
  }

  /** The addresses a walk visits, in order. */
  function Addresses(t: Tree, stop: Tree -> bool): seq<Path>
    decreases t, |t.children| + 1
  {
    [[]] + if stop(t) then [] else AddressesFrom(t, 0, stop)
  }

  function AddressesFrom(t: Tree, i: nat, stop: Tree -> bool): seq<Path>
    requires i <= |t.children|
    decreases t, |t.children| - i
  {
    if i == |t.children| then []
    else Prepend(i, Addresses(t.children[i], stop)) + AddressesFrom(t, i + 1, stop)
  }

  lemma {:induction false} AddressesFromExact(t: Tree, i: nat, stop: Tree -> bool, p: Path)
    requires i <= |t.children|
    ensures p in AddressesFrom(t, i, stop) <==>
              && p != [] && i <= p[0] < |t.children|
              && ValidPath(t.children[p[0]], p[1..]) && Open(t.children[p[0]], p[1..], stop)
    decreases t, |t.children| - i
  {
    if i < |t.children| {
      var here := Addresses(t.children[i], stop);
      var prefixed := Prepend(i, here);
      AddressesFromExact(t, i + 1, stop, p);
      if p != [] && p[0] == i {
        AddressesExact(t.children[i], stop, p[1..]);
        if p[1..] in here {
          var k :| 0 <= k < |here| && here[k] == p[1..];
          assert prefixed[k] == p;
        }
      }
      if p in prefixed {
        var k :| 0 <= k < |prefixed| && prefixed[k] == p;
        assert p[1..] == here[k];
      }
    }
  }

  /** Skipping a push removes exactly the proper descendants of the stopping node. */
  lemma {:induction false} AddressesExact(t: Tree, stop: Tree -> bool, p: Path)
    ensures p in Addresses(t, stop) <==> ValidPath(t, p) && Open(t, p, stop)
    decreases t, |t.children| + 1
  {
    if !stop(t) { AddressesFromExact(t, 0, stop, p); }
  }

  lemma {:induction false} AddressesFromOnce(t: Tree, i: nat, stop: Tree -> bool)
    requires i <= |t.children|
    ensures NoRepeats(AddressesFrom(t, i, stop))
    decreases t, |t.children| - i
  {
    if i < |t.children| {
      var here, rest := Prepend(i, Addresses(t.children[i], stop)), AddressesFrom(t, i + 1, stop);
      AddressesOnce(t.children[i], stop);
      AddressesFromOnce(t, i + 1, stop);
      forall j, k | 0 <= j < k < |here| ensures here[j] != here[k] {
        assert here[j][1..] == Addresses(t.children[i], stop)[j];
        assert here[k][1..] == Addresses(t.children[i], stop)[k];
      }
      forall p | p in here ensures p !in rest { AddressesFromExact(t, i + 1, stop, p); }
      NoRepeatsConcat(here, rest);
    }
  }

  /** No node is visited twice. */
  lemma {:induction false} AddressesOnce(t: Tree, stop: Tree -> bool)
    ensures NoRepeats(Addresses(t, stop))
    decreases t, |t.children| + 1
  {
    if !stop(t) {
      AddressesFromOnce(t, 0, stop);
      AddressesFromExact(t, 0, stop, []);
      NoRepeatsConcat([[]], AddressesFrom(t, 0, stop));
    }
  }

  /** The nodes at those addresses, in that order, are the walk. */
  lemma {:induction false} WalkAtAddresses(t: Tree, stop: Tree -> bool)
    ensures |Walk(t, stop)| == |Addresses(t, stop)|
    ensures forall k :: 0 <= k < |Walk(t, stop)| ==>
              ValidPath(t, Addresses(t, stop)[k]) && At(t, Addresses(t, stop)[k]) == Walk(t, stop)[k]
    decreases t, |t.children| + 1
  {
    if !stop(t) {
      WalkAtAddressesFrom(t, 0, stop);
      assert t.children[0..] == t.children;
    }
  }

  lemma {:induction false} WalkAtAddressesFrom(t: Tree, i: nat, stop: Tree -> bool)
    requires i <= |t.children|
    ensures |WalkAll(t.children[i..], stop)| == |AddressesFrom(t, i, stop)|
    ensures forall k :: 0 <= k < |AddressesFrom(t, i, stop)| ==>
              && ValidPath(t, AddressesFrom(t, i, stop)[k])
              && At(t, AddressesFrom(t, i, stop)[k]) == WalkAll(t.children[i..], stop)[k]
    decreases t, |t.children| - i
  {
    if i < |t.children| {
      WalkAtAddresses(t.children[i], stop);
      WalkAtAddressesFrom(t, i + 1, stop);
      assert t.children[i..][1..] == t.children[i + 1..];
      var here := Addresses(t.children[i], stop);
      forall k | 0 <= k < |here|
        ensures ValidPath(t, [i] + here[k]) && At(t, [i] + here[k]) == At(t.children[i], here[k])
      {
        assert ([i] + here[k])[1..] == here[k];
      }
    }
  }
}
