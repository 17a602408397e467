/** The explicit stack of `internal/cbm/extract_node_stack.h` and the walkers built on it. */
module NodeStacks {
  import opened Sequences
  import opened Trees
  import opened Wrappers

  /** Whether the k-th attempt to grow finds memory in the arena. */
  type Allocator = nat -> bool

  /** `TSNodeStack`: growth doubles the capacity, or drops the pushed node when there is no memory. */
  class NodeStack {
    var items: array<Tree>
    var count: nat
    var attempts: nat
    const alloc: Allocator
    ghost var dropped: bool

    ghost predicate Valid()
      reads this
    {
      count <= items.Length
    }

    ghost function View(): seq<Tree>
      requires Valid()
      reads this, items
    {
      items[..count]
    }

    /** `ts_nstack_init`: no memory means capacity zero. */
    constructor (initialCap: nat, alloc: Allocator)
      ensures Valid() && View() == [] && !dropped && this.alloc == alloc && fresh(items)
    {
      this.alloc := alloc;
      items := new Tree[if alloc(0) then initialCap else 0];
      count, attempts, dropped := 0, 1, false;
    }

    /** `ts_nstack_push`. */
    method Push(node: Tree)
      requires Valid()
      modifies this, items
      ensures Valid() && (items == old(items) || fresh(items))
      // a node is dropped exactly when the stack is full and this attempt to grow it is refused
      ensures var refused := old(count >= items.Length && !alloc(attempts));
              && View() == (if refused then old(View()) else old(View()) + [node])
              && dropped == (old(dropped) || refused)
      ensures (forall k :: alloc(k)) && !old(dropped) ==> !dropped
    {
      if count >= items.Length {
        var newCap := if items.Length != 0 then items.Length * 2 else 512;
        var ok := alloc(attempts);
        attempts := attempts + 1;
        if !ok {
          dropped := true;
          return;
        }
        var newItems := new Tree[newCap];
        for i := 0 to count
          invariant items == old(items) && items[..] == old(items[..])
          invariant count == old(count) <= items.Length && dropped == old(dropped)
          invariant newItems[..i] == items[..i]
        {
          newItems[i] := items[i];
        }
        items := newItems;
      }
      items[count] := node;
      count := count + 1;
    }

    /** `ts_nstack_pop`; the caller checks that the stack is not empty. */
    method Pop() returns (node: Tree)
      requires Valid() && count > 0
      modifies this`count
      ensures Valid() && old(View()) == View() + [node]
    {
      count := count - 1;
      node := items[count];
    }

    /** Reverse the pushed segment in place. */
    method ReverseFrom(base: nat)
      requires Valid() && base <= count
      modifies items
      ensures Valid() && View() == old(View())[..base] + Reverse(old(View())[base..])
    {
      MirrorImage(View(), base);
      SwapEnds(base, View()[..base] + Reverse(View()[base..]));
    }

    /** Swap from both ends towards the middle; `goal` is the mirror image from `base` on. */
    method SwapEnds(base: nat, ghost goal: seq<Tree>)
      requires Valid() && base <= count == |goal|
      requires forall k :: 0 <= k < base ==> goal[k] == items[k]
      requires forall lo, hi :: base <= lo < count && base <= hi < count && lo + hi == base + count - 1 ==>
                 goal[lo] == items[hi]
      modifies items
      ensures Valid() && View() == goal
    {
      var lo, hi := base, count - 1;
      while lo < hi
        invariant base <= lo <= hi + 2 && lo + hi == base + count - 1 && hi < count && Valid()
        invariant forall k :: lo <= k <= hi ==> items[k] == old(items[k])
        invariant forall k :: 0 <= k < lo || hi < k < count ==> items[k] == goal[k]
      {
        assert goal[lo] == old(items[hi]) && goal[hi] == old(items[lo]);
        items[lo], items[hi] := items[hi], items[lo];
        lo, hi := lo + 1, hi - 1;
      }
      assert lo == hi ==> goal[lo] == old(items[lo]);
    }

    /** Each element of the segment trades places with its mirror image. */
    static lemma MirrorImage(before: seq<Tree>, base: nat)
      requires base <= |before|
      ensures var goal := before[..base] + Reverse(before[base..]);
              && |goal| == |before|
              && (forall k :: 0 <= k < base ==> goal[k] == before[k])
              && forall lo, hi :: base <= lo < |before| && base <= hi < |before| && lo + hi == base + |before| - 1 ==>
                   goal[lo] == before[hi]
    {
      var goal := before[..base] + Reverse(before[base..]);
      forall lo, hi | base <= lo < |before| && base <= hi < |before| && lo + hi == base + |before| - 1
        ensures goal[lo] == before[hi]
      {
        assert before[base..][hi - base] == before[hi];
      }
    }

    /** `ts_nstack_push_children`: one cursor pass, then a reversal, so the first child is on top. */
    method PushChildren(node: Tree) returns (ghost pushed: seq<Tree>)
      requires Valid()
      modifies this, items
      ensures Valid() && (items == old(items) || fresh(items))
      ensures View() == old(View()) + Reverse(pushed) && IsSubsequence(pushed, node.children)
      ensures old(dropped) ==> dropped
      ensures !dropped ==> pushed == node.children
      ensures (forall k :: alloc(k)) && !old(dropped) ==> !dropped
    {
      var base := count;
      pushed := [];
      ghost var before, cs := View(), node.children;
      var i := 0;
      SubsequenceRefl(cs[..0]);
      assert before + [] == before;
      while i < |node.children|
        invariant 0 <= i <= |cs| && Valid() && base == |before| && (items == old(items) || fresh(items))
        invariant View() == before + pushed && IsSubsequence(pushed, cs[..i])
        invariant old(dropped) ==> dropped
        invariant !dropped ==> pushed == cs[..i]
        invariant (forall k :: alloc(k)) && !old(dropped) ==> !dropped
      {
        Push(node.children[i]);
        assert cs[..i + 1] == cs[..i] + [cs[i]];
        SubsequenceAppend(pushed, cs[..i], cs[i]);
        if count > base + |pushed| {
          pushed := pushed + [cs[i]];
        }
        i := i + 1;
      }
      assert cs[..i] == cs;
      ReverseFrom(base);
    }

    /** The index idiom: push children from the last to the first. */
    method PushChildrenByIndex(node: Tree) returns (ghost pushed: seq<Tree>)
      requires Valid()
      modifies this, items
      ensures Valid() && (items == old(items) || fresh(items))
      ensures View() == old(View()) + Reverse(pushed) && IsSubsequence(pushed, node.children)
      ensures old(dropped) ==> dropped
      ensures !dropped ==> pushed == node.children
      ensures (forall k :: alloc(k)) && !old(dropped) ==> !dropped
    {
      pushed := [];
      ghost var before, cs := View(), node.children;
      var i := |node.children|;
      assert before + Reverse(pushed) == before;
      while i > 0
        invariant 0 <= i <= |cs| && Valid() && (items == old(items) || fresh(items))
        invariant View() == before + Reverse(pushed) && IsSubsequence(pushed, cs[i..])
        invariant old(dropped) ==> dropped
        invariant !dropped ==> pushed == cs[i..]
        invariant (forall k :: alloc(k)) && !old(dropped) ==> !dropped
      {
        i := i - 1;
        Push(node.children[i]);
        assert cs[i..] == [cs[i]] + cs[i + 1..];
        SubsequencePrepend(pushed, cs[i + 1..], cs[i]);
        if count > |before| + |pushed| {
          pushed := [cs[i]] + pushed;
        }
      }
    }
  }

  lemma SubsequenceAppend(a: seq<Tree>, b: seq<Tree>, x: Tree)
    requires IsSubsequence(a, b)
    ensures IsSubsequence(a + [x], b + [x]) && IsSubsequence(a, b + [x])
  {
    SubsequenceRefl([x]);
    SubsequenceConcat(a, b, [x], [x]);
    SubsequenceConcat(a, b, [], [x]);
    assert a + [] == a;
  }

  lemma SubsequencePrepend(a: seq<Tree>, b: seq<Tree>, x: Tree)
    requires IsSubsequence(a, b)
    ensures IsSubsequence([x] + a, [x] + b) && IsSubsequence(a, [x] + b)
  {
    SubsequenceRefl([x]);
    SubsequenceConcat([x], [x], a, b);
    SubsequenceConcat([], [x], a, b);
    assert [] + a == a;
  }

  // ---- walkers ----

  lemma {:induction false} SubsequenceSize(a: seq<Tree>, b: seq<Tree>)
    requires IsSubsequence(a, b)
    ensures SizeAll(a) <= SizeAll(b)
    decreases |b|
  {
    if a != [] {
      if a[0] == b[0] && IsSubsequence(a[1..], b[1..]) {
        SubsequenceSize(a[1..], b[1..]);
      } else {
        SubsequenceSize(a, b[1..]);
      }
    }
  }

  /** Popping `node` and pushing `pushed` (none of its children if it stops the walk) moves one
      node from the pending walk to the visited ones, less what was dropped. */
  lemma WalkStep(visited: seq<Tree>, rest: seq<Tree>, node: Tree, pushed: seq<Tree>, stop: Tree -> bool)
    requires IsSubsequence(pushed, if stop(node) then [] else node.children)
    ensures var before, after :=
              visited + Pending(rest + [node], stop), (visited + [node]) + Pending(rest + Reverse(pushed), stop);
            && IsSubsequence(after, before)
            && ((if stop(node) then pushed == [] else pushed == node.children) ==> after == before)
    ensures PendingSize(rest + Reverse(pushed)) < PendingSize(rest + [node])
  {
    var open := if stop(node) then [] else node.children;
    var w, wp, p, done := WalkAll(open, stop), WalkAll(pushed, stop), Pending(rest, stop), visited + [node];
    WalkOpen(node, stop);
    assert Size(node) == 1 + SizeAll(node.children) && SizeAll([]) == 0;
    hide *;
    PendingTop(rest, node, stop);
    PendingPush(rest, pushed, stop);
    SubsequenceSize(pushed, open);
    WalkAllSubsequence(pushed, open, stop);
    Associate([node], w, p);
    Associate(visited, [node], w + p);
    SubsequenceRefl(p);
    SubsequenceRefl(done);
    SubsequenceConcat(wp, w, p, p);
    SubsequenceConcat(done, done, wp + p, w + p);
  }

  lemma WalkOpen(node: Tree, stop: Tree -> bool)
    ensures Walk(node, stop) == [node] + WalkAll(if stop(node) then [] else node.children, stop)
  {}

  /** Start a walk: the root alone on a fresh stack. */
  method StartWalk(root: Tree, alloc: Allocator, ghost stop: Tree -> bool) returns (stack: NodeStack)
    ensures fresh(stack) && fresh(stack.items) && stack.Valid() && stack.alloc == alloc
    ensures IsSubsequence(Pending(stack.View(), stop), Walk(root, stop))
    ensures !stack.dropped ==> Pending(stack.View(), stop) == Walk(root, stop)
    ensures (forall k :: alloc(k)) ==> !stack.dropped
  {
    hide Walk;
    stack := new NodeStack(4096, alloc);
    stack.Push(root);
    SubsequenceRefl(Walk(root, stop));
    PendingTop([], root, stop);
    assert [] + [root] == [root] && Walk(root, stop) + [] == Walk(root, stop);
  }

  /** The cursor-idiom walk, entering no subtree below a node that satisfies `stop`: with `stop`
      never true this is `extract_channels_js`, with env accesses it is `walk_env_accesses`. */
  method WalkByCursor(root: Tree, stop: Tree -> bool, alloc: Allocator) returns (visited: seq<Tree>)
    ensures IsSubsequence(visited, Walk(root, stop))
    ensures (forall k :: alloc(k)) ==> visited == Walk(root, stop)
  {
    hide Walk, Pending, PendingSize, IsSubsequence, Reverse;
    var stack := StartWalk(root, alloc, stop);
    visited := [];
    assert [] + Pending(stack.View(), stop) == Pending(stack.View(), stop);
    while stack.count > 0
      invariant fresh(stack) && fresh(stack.items) && stack.Valid() && stack.alloc == alloc
      invariant IsSubsequence(visited + Pending(stack.View(), stop), Walk(root, stop))
      invariant !stack.dropped ==> visited + Pending(stack.View(), stop) == Walk(root, stop)
      invariant (forall k :: alloc(k)) ==> !stack.dropped
      decreases PendingSize(stack.View())
    {
      ghost var before := visited + Pending(stack.View(), stop);
      var node := stack.Pop();
      ghost var rest, pushed: seq<Tree> := stack.View(), [];
      visited := visited + [node];
      if !stop(node) {
        pushed := stack.PushChildren(node);
      } else {
        SubsequenceRefl<Tree>([]);
        assert rest + Reverse([]) == rest;
      }
      WalkStep(visited[..|visited| - 1], rest, node, pushed, stop);
      assert visited[..|visited| - 1] + [node] == visited;
      SubsequenceTransitive(visited + Pending(stack.View(), stop), before, Walk(root, stop));
    }
    NothingPending(visited, stack.View(), stop);
  }

  lemma NothingPending(visited: seq<Tree>, view: seq<Tree>, stop: Tree -> bool)
    requires view == []
    ensures visited + Pending(view, stop) == visited
  {}

  /** The index-idiom walk of `extract_channels_python`. */
  method WalkByIndex(root: Tree, alloc: Allocator) returns (visited: seq<Tree>)
    ensures IsSubsequence(visited, Walk(root, Never))
    ensures (forall k :: alloc(k)) ==> visited == Walk(root, Never)
  {
    hide Walk, Pending, PendingSize, IsSubsequence, Reverse;
    var stack := StartWalk(root, alloc, Never);
    visited := [];
    assert [] + Pending(stack.View(), Never) == Pending(stack.View(), Never);
    while stack.count > 0
      invariant fresh(stack) && fresh(stack.items) && stack.Valid() && stack.alloc == alloc
      invariant IsSubsequence(visited + Pending(stack.View(), Never), Walk(root, Never))
      invariant !stack.dropped ==> visited + Pending(stack.View(), Never) == Walk(root, Never)
      invariant (forall k :: alloc(k)) ==> !stack.dropped
      decreases PendingSize(stack.View())
    {
      ghost var before := visited + Pending(stack.View(), Never);
      var node := stack.Pop();
      ghost var rest := stack.View();
      ghost var pushed := stack.PushChildrenByIndex(node);
      WalkStep(visited, rest, node, pushed, Never);
      visited := visited + [node];
      SubsequenceTransitive(visited + Pending(stack.View(), Never), before, Walk(root, Never));
    }
    NothingPending(visited, stack.View(), Never);
  }

  // ---- the constant table ----

  /** What a node binds, if anything: the language-specific rule for constants. */
  type Binder = Tree -> Option<(string, string)>

  function Bindings(ns: seq<Tree>, bind: Binder): seq<(string, string)> {
    if ns == [] then []
    else
      Bindings(ns[..|ns| - 1], bind) +
      match bind(ns[|ns| - 1])
      case Some(b) => [b]
      case None => []
  }

  lemma {:induction false} BindingsConcat(a: seq<Tree>, b: seq<Tree>, bind: Binder)
    ensures Bindings(a + b, bind) == Bindings(a, bind) + Bindings(b, bind)
  {
    if b == [] {
      assert a + b == a;
    } else {
      var n := |b| - 1;
      assert (a + b)[..|a + b| - 1] == a + b[..n];
      BindingsConcat(a, b[..n], bind);
    }
  }

  /** `CHAN_CONST_CAP`. */
  const CONST_CAP: nat := 256

  /** `scan_string_consts_js`: stop as soon as the table is full. */
  method ScanConstants(root: Tree, bind: Binder, alloc: Allocator) returns (table: seq<(string, string)>)
    ensures |table| <= CONST_CAP
    ensures (forall k :: alloc(k)) ==> table == Take(Bindings(Walk(root, Never), bind), CONST_CAP)
  {
    hide Walk, Pending, PendingSize, IsSubsequence, Reverse, Take;
    var stack := StartWalk(root, alloc, Never);
    table := [];
    ghost var visited: seq<Tree> := [];
    assert [] + Pending(stack.View(), Never) == Pending(stack.View(), Never);
    while stack.count > 0 && |table| < CONST_CAP
      invariant fresh(stack) && fresh(stack.items) && stack.Valid() && stack.alloc == alloc
      invariant !stack.dropped ==> visited + Pending(stack.View(), Never) == Walk(root, Never)
      invariant (forall k :: alloc(k)) ==> !stack.dropped
      invariant table == Bindings(visited, bind) && |table| <= CONST_CAP
      decreases PendingSize(stack.View())
    {
      var node := stack.Pop();
      ghost var rest := stack.View();
      match bind(node) {
        case Some(b) => table := table + [b];
        case None =>
      }
      ghost var pushed := stack.PushChildren(node);
      WalkStep(visited, rest, node, pushed, Never);
      assert (visited + [node])[..|visited|] == visited;
      visited := visited + [node];
    }
    if stack.count == 0 { NothingPending(visited, stack.View(), Never); }
    BindingsConcat(visited, Pending(stack.View(), Never), bind);
    TakeFull(table, Bindings(Pending(stack.View(), Never), bind), CONST_CAP);
  }

  /** `scan_string_consts_python`, with the index idiom. */
  method ScanConstantsByIndex(root: Tree, bind: Binder, alloc: Allocator) returns (table: seq<(string, string)>)
    ensures |table| <= CONST_CAP
    ensures (forall k :: alloc(k)) ==> table == Take(Bindings(Walk(root, Never), bind), CONST_CAP)
  {
    hide Walk, Pending, PendingSize, IsSubsequence, Reverse, Take;
    var stack := StartWalk(root, alloc, Never);
    table := [];
    ghost var visited: seq<Tree> := [];
    assert [] + Pending(stack.View(), Never) == Pending(stack.View(), Never);
    while stack.count > 0 && |table| < CONST_CAP
      invariant fresh(stack) && fresh(stack.items) && stack.Valid() && stack.alloc == alloc
      invariant !stack.dropped ==> visited + Pending(stack.View(), Never) == Walk(root, Never)
      invariant (forall k :: alloc(k)) ==> !stack.dropped
      invariant table == Bindings(visited, bind) && |table| <= CONST_CAP
      decreases PendingSize(stack.View())
    {
      var node := stack.Pop();
      ghost var rest := stack.View();
      match bind(node) {
        case Some(b) => table := table + [b];
        case None =>
      }
      ghost var pushed := stack.PushChildrenByIndex(node);
      WalkStep(visited, rest, node, pushed, Never);
      assert (visited + [node])[..|visited|] == visited;
      visited := visited + [node];
    }
    if stack.count == 0 { NothingPending(visited, stack.View(), Never); }
    BindingsConcat(visited, Pending(stack.View(), Never), bind);
    TakeFull(table, Bindings(Pending(stack.View(), Never), bind), CONST_CAP);
  }

  /** `resolve_identifier`: the value of the first entry with that name. */
  method ResolveIdentifier(table: seq<(string, string)>, name: Option<string>) returns (value: Option<string>)
    ensures value == None <==> name == None || forall i :: 0 <= i < |table| ==> table[i].0 != name.value
    ensures value != None ==>
              exists i :: 0 <= i < |table| && table[i] == (name.value, value.value)
                          && forall j :: 0 <= j < i ==> table[j].0 != name.value
  {
    if name == None { return None; }
    for i := 0 to |table|
      invariant forall j :: 0 <= j < i ==> table[j].0 != name.value
    {
      if table[i].0 == name.value { return Some(table[i].1); }
    }
    return None;
  }

  // ---- scanning and resolving together ----

  predicate Binds(node: Tree, bind: Binder, name: string) {
    bind(node).Some? && bind(node).value.0 == name
  }

  /** Node `k` of a walk binds the name, early enough to be in the table. */
  ghost predicate Reached(w: seq<Tree>, bind: Binder, name: string, k: nat) {
    k < |w| && Binds(w[k], bind, name) && |Bindings(w[..k], bind)| < CONST_CAP
  }

  /** A binding stands in the table behind those of the nodes before. */
  lemma BindingOf(w: seq<Tree>, bind: Binder, k: nat)
    requires k < |w| && bind(w[k]).Some?
    ensures var i := |Bindings(w[..k], bind)|;
            i < |Bindings(w, bind)| && Bindings(w, bind)[i] == bind(w[k]).value
  {
    assert w == w[..k + 1] + w[k + 1..] && w[..k + 1][..k] == w[..k];
    BindingsConcat(w[..k + 1], w[k + 1..], bind);
  }

  lemma {:induction false} BinderOf(w: seq<Tree>, bind: Binder, i: nat) returns (k: nat)
    requires i < |Bindings(w, bind)|
    ensures k < |w| && bind(w[k]) == Some(Bindings(w, bind)[i]) && |Bindings(w[..k], bind)| == i
  {
    var n := |w| - 1;
    if i < |Bindings(w[..n], bind)| {
      k := BinderOf(w[..n], bind, i);
      assert w[..n][..k] == w[..k];
    } else {
      k := n;
    }
  }

  /** What a lookup in the first 256 bindings of a walk finds. */
  ghost predicate Resolves(w: seq<Tree>, bind: Binder, name: string, value: Option<string>) {
    && (value == None <==> forall k: nat :: !Reached(w, bind, name, k))
    && (value != None ==>
          exists k: nat :: Reached(w, bind, name, k) && bind(w[k]).value.1 == value.value
                      && forall j :: 0 <= j < k ==> !Binds(w[j], bind, name))
  }

  lemma FoundIsFirst(w: seq<Tree>, bind: Binder, i: nat, name: string)
    requires i < |Bindings(w, bind)| && i < CONST_CAP && Bindings(w, bind)[i].0 == name
    requires forall j :: 0 <= j < i ==> Bindings(w, bind)[j].0 != name
    ensures Resolves(w, bind, name, Some(Bindings(w, bind)[i].1))
  {
    var k := BinderOf(w, bind, i);
    hide Bindings;
    assert Reached(w, bind, name, k);
    forall j | 0 <= j < k ensures !Binds(w[j], bind, name) {
      if Binds(w[j], bind, name) {
        BindingOf(w[..k], bind, j);
        assert w[..k][..j] == w[..j];
        BindingOf(w, bind, j);
      }
    }
  }

  lemma NotFoundIsNone(w: seq<Tree>, bind: Binder, name: string)
    requires forall j :: 0 <= j < |Bindings(w, bind)| && j < CONST_CAP ==> Bindings(w, bind)[j].0 != name
    ensures Resolves(w, bind, name, None)
  {
    forall k: nat | k < |w| && Binds(w[k], bind, name) ensures !Reached(w, bind, name, k) { BindingOf(w, bind, k); }
  }

  /** An identifier stands for the string bound by the first node in preorder that binds it, unless
      256 bindings come before. */
  method ResolveConstant(root: Tree, bind: Binder, alloc: Allocator, name: string) returns (value: Option<string>)
    ensures (forall k :: alloc(k)) ==> Resolves(Walk(root, Never), bind, name, value)
  {
    var table := ScanConstants(root, bind, alloc);
    value := ResolveIdentifier(table, Some(name));
    if forall k :: alloc(k) {
      ghost var w := Walk(root, Never);
      hide Walk, Bindings;
      if value == None {
        NotFoundIsNone(w, bind, name);
      } else {
        var i :| 0 <= i < |table| && table[i] == (name, value.value) && forall j :: 0 <= j < i ==> table[j].0 != name;
        FoundIsFirst(w, bind, i, name);
      }
    }
  }
}
