/** Star re-exports of `scripts/gen-py-stdlib.py`: a bounded, in-place transitive closure. */
module Reexports {
  import opened Sequences

  datatype Body = ClassBody(methods: seq<string>, bases: seq<string>) | FunctionOf(moduleQn: string)

  /** A class or function stub. */
  datatype Stub = Stub(qualifiedName: string, shortName: string, body: Body)

  datatype Stubs = Stubs(classes: seq<Stub>, functions: seq<Stub>)

  /** The modules by name, and each module's star imports in dictionary order. */
  type Modules = map<string, Stubs>
  type StarImports = seq<(string, seq<string>)>

  /** `MAX` rounds of the fixpoint loop. */
  const MAX_ROUNDS: nat := 8

  function List(s: Stubs, classes: bool): seq<Stub> {
    if classes then s.classes else s.functions
  }

  function Names(list: seq<Stub>): set<string> {
    set e | e in list :: e.shortName
  }

  /** The copy of a stub under another module's name. */
  function Requalify(moduleQn: string, e: Stub): Stub {
    Stub(moduleQn + "." + e.shortName, e.shortName,
         match e.body
         case ClassBody(_, _) => e.body
         case FunctionOf(_) => FunctionOf(moduleQn))
  }

  /** Append the stubs of `target` whose short name is not there yet. */
  function Merge(own: seq<Stub>, target: seq<Stub>, moduleQn: string): seq<Stub> {
    if target == [] then own
    else
      var before := Merge(own, target[..|target| - 1], moduleQn);
      var e := target[|target| - 1];
      if e.shortName in Names(before) then before else before + [Requalify(moduleQn, e)]
  }

  /** One `from target import *` of module `m`. */
  function Star(mods: Modules, m: string, target: string): Modules
    requires m in mods
  {
    if target !in mods then mods
    else mods[m := Stubs(Merge(mods[m].classes, mods[target].classes, m),
                         Merge(mods[m].functions, mods[target].functions, m))]
  }

  function Stars(mods: Modules, m: string, targets: seq<string>): (r: Modules)
    requires m in mods
    ensures r.Keys == mods.Keys
  {
    if targets == [] then mods
    else Star(Stars(mods, m, targets[..|targets| - 1]), m, targets[|targets| - 1])
  }

  predicate Known(mods: Modules, imports: StarImports) {
    forall i :: 0 <= i < |imports| ==> imports[i].0 in mods
  }

  /** One round over all modules, in dictionary order. */
  function Round(mods: Modules, imports: StarImports): (r: Modules)
    requires Known(mods, imports)
    ensures r.Keys == mods.Keys
  {
    if imports == [] then mods
    else
      var n := |imports| - 1;
      Stars(Round(mods, imports[..n]), imports[n].0, imports[n].1)
  }

  function Rounds(mods: Modules, imports: StarImports, k: nat): (r: Modules)
    requires Known(mods, imports)
    ensures r.Keys == mods.Keys
  {
    if k == 0 then mods else Round(Rounds(mods, imports, k - 1), imports)
  }

  // ---- the loops ----

  /** The module table, whose lists the resolver extends in place. */
  class Registry {
    var modules: Modules

    constructor (modules: Modules)
      ensures this.modules == modules
    {
      this.modules := modules;
    }

    /** Copy what is missing from one list into another. */
    static method CopyMissing(own: seq<Stub>, target: seq<Stub>, moduleQn: string)
      returns (list: seq<Stub>, changed: bool)
      ensures list == Merge(own, target, moduleQn) && (changed <==> list != own)
    {
      list, changed := own, false;
      var existing := Names(own);
      for i := 0 to |target|
        invariant list == Merge(own, target[..i], moduleQn) && existing == Names(list)
        invariant own <= list && (changed <==> list != own)
      {
        var e := target[i];
        assert target[..i + 1][..i] == target[..i];
        if e.shortName !in existing {
          ghost var before := list;
          list := list + [Requalify(moduleQn, e)];
          existing := existing + {e.shortName};
          changed := true;
          assert Names(list) == Names(before) + {e.shortName};
        }
      }
      assert target[..|target|] == target;
    }

    method ResolveModule(m: string, targets: seq<string>) returns (changed: bool)
      requires m in modules
      modifies this
      ensures modules == Stars(old(modules), m, targets)
      ensures !changed ==> modules == old(modules)
    {
      changed := false;
      for i := 0 to |targets|
        invariant m in modules && modules == Stars(old(modules), m, targets[..i])
        invariant !changed ==> modules == old(modules)
      {
        var target := targets[i];
        assert targets[..i + 1][..i] == targets[..i];
        if target in modules {
          var ms := modules[m];
          var classes, c := CopyMissing(ms.classes, modules[target].classes, m);
          var functions, f := CopyMissing(ms.functions, modules[target].functions, m);
          assert !c && !f ==> modules[m := Stubs(classes, functions)] == modules;
          modules := modules[m := Stubs(classes, functions)];
          changed := changed || c || f;
        }
      }
      assert targets[..|targets|] == targets;
    }

    /** `resolve_reexports`: stopping early changes nothing, so the result is that of eight rounds. */
    method ResolveReexports(imports: StarImports)
      requires Known(modules, imports)
      modifies this
      ensures modules == Rounds(old(modules), imports, MAX_ROUNDS)
    {
      var changed := true;
      var rounds := 0;
      while changed && rounds < MAX_ROUNDS
        invariant 0 <= rounds <= MAX_ROUNDS && modules.Keys == old(modules).Keys
        invariant modules == Rounds(old(modules), imports, rounds)
        invariant !changed ==> Round(modules, imports) == modules
      {
        changed := false;
        rounds := rounds + 1;
        ghost var start := modules;
        for i := 0 to |imports|
          invariant modules.Keys == old(modules).Keys && Known(start, imports)
          invariant modules == Round(start, imports[..i]) && (!changed ==> modules == start)
        {
          assert imports[..i + 1][..i] == imports[..i];
          var c := ResolveModule(imports[i].0, imports[i].1);
          changed := changed || c;
        }
        assert imports[..|imports|] == imports;
      }
      Stable(old(modules), imports, rounds, MAX_ROUNDS);
    }
  }

  /** Once a round changes nothing, no later round does. */
  lemma {:induction false} Stable(mods: Modules, imports: StarImports, k: nat, l: nat)
    requires Known(mods, imports) && k <= l
    requires k == l || Round(Rounds(mods, imports, k), imports) == Rounds(mods, imports, k)
    ensures Rounds(mods, imports, l) == Rounds(mods, imports, k)
    decreases l
  {
    if k < l { Stable(mods, imports, k, l - 1); }
  }

  // ---- one merge ----

  /** `e` is what module `m` gets for the stub `e0` of another module: the same name under `m`'s own,
      and a class with the same methods and bases, or a function that belongs to `m`. */
  predicate IsCopy(e: Stub, e0: Stub, m: string) {
    && e.qualifiedName == m + "." + e0.shortName && e.shortName == e0.shortName
    && match e0.body
       case ClassBody(methods, bases) => e.body == ClassBody(methods, bases)
       case FunctionOf(_) => e.body == FunctionOf(m)
  }

  lemma {:induction false} MergeNames(own: seq<Stub>, target: seq<Stub>, moduleQn: string)
    ensures own <= Merge(own, target, moduleQn)
    ensures Names(Merge(own, target, moduleQn)) == Names(own) + Names(target)
    ensures forall e :: e in Merge(own, target, moduleQn) ==>
              e in own || exists e0 :: e0 in target && IsCopy(e, e0, moduleQn)
  {
    if target != [] {
      var n := |target| - 1;
      var before := Merge(own, target[..n], moduleQn);
      MergeNames(own, target[..n], moduleQn);
      assert target == target[..n] + [target[n]];
      assert Names(target) == Names(target[..n]) + {target[n].shortName};
      var all := Merge(own, target, moduleQn);
      if all != before {
        assert all == before + [Requalify(moduleQn, target[n])];
        assert Names(all) == Names(before) + {target[n].shortName};
      }
    }
  }

  // ---- reachability over star imports ----

  /** `m` star-imports the existing module `t`. */
  ghost predicate Edge(mods: Modules, imports: StarImports, m: string, t: string) {
    t in mods && exists i :: 0 <= i < |imports| && imports[i].0 == m && t in imports[i].1
  }

  /** `t` can be reached from `m` in at most `k` star imports. */
  ghost predicate Reach(mods: Modules, imports: StarImports, m: string, t: string, k: nat)
    decreases k
  {
    m == t || (k > 0 && exists u :: Edge(mods, imports, m, u) && Reach(mods, imports, u, t, k - 1))
  }

  /** The names module `m` offers, of one kind. */
  function NamesIn(mods: Modules, m: string, classes: bool): set<string>
    requires m in mods
  {
    Names(List(mods[m], classes))
  }

  lemma {:induction false} ReachLonger(mods: Modules, imports: StarImports, m: string, t: string, k: nat, l: nat)
    requires Reach(mods, imports, m, t, k) && k <= l
    ensures Reach(mods, imports, m, t, l)
    decreases k
  {
    if m != t {
      var u :| Edge(mods, imports, m, u) && Reach(mods, imports, u, t, k - 1);
      ReachLonger(mods, imports, u, t, k - 1, l - 1);
    }
  }

  // ---- lists only grow ----

  lemma {:induction false} StarsGrow(mods: Modules, m: string, targets: seq<string>, x: string, classes: bool)
    requires m in mods && x in mods
    ensures List(mods[x], classes) <= List(Stars(mods, m, targets)[x], classes)
    ensures x != m ==> Stars(mods, m, targets)[x] == mods[x]
  {
    if targets != [] {
      var n := |targets| - 1;
      var before := Stars(mods, m, targets[..n]);
      StarsGrow(mods, m, targets[..n], x, classes);
      if targets[n] in before {
        MergeNames(List(before[m], classes), List(before[targets[n]], classes), m);
      }
    }
  }

  lemma {:induction false} RoundGrows(mods: Modules, imports: StarImports, x: string, classes: bool)
    requires Known(mods, imports) && x in mods
    ensures List(mods[x], classes) <= List(Round(mods, imports)[x], classes)
  {
    if imports != [] {
      var n := |imports| - 1;
      RoundGrows(mods, imports[..n], x, classes);
      StarsGrow(Round(mods, imports[..n]), imports[n].0, imports[n].1, x, classes);
    }
  }

  /** No module's own stub is ever displaced: its original lists stay a prefix. */
  lemma {:induction false} OwnStubsStay(mods: Modules, imports: StarImports, k: nat, x: string, classes: bool)
    requires Known(mods, imports) && x in mods
    ensures List(mods[x], classes) <= List(Rounds(mods, imports, k)[x], classes)
  {
    if k > 0 {
      OwnStubsStay(mods, imports, k - 1, x, classes);
      RoundGrows(Rounds(mods, imports, k - 1), imports, x, classes);
    }
  }

  lemma NamesMonotone(a: seq<Stub>, b: seq<Stub>)
    requires a <= b
    ensures Names(a) <= Names(b)
  {
    forall e | e in a ensures e in b {
      var i :| 0 <= i < |a| && a[i] == e;
      assert b[i] == e;
    }
  }

  // ---- every name within k hops arrives within k rounds ----

  lemma {:induction false} StarsGain(mods: Modules, m: string, targets: seq<string>, t: string, classes: bool)
    requires m in mods && t in mods && t in targets
    ensures NamesIn(mods, t, classes) <= NamesIn(Stars(mods, m, targets), m, classes)
  {
    var n := |targets| - 1;
    var before := Stars(mods, m, targets[..n]);
    if targets[n] in before {
      MergeNames(List(before[m], classes), List(before[targets[n]], classes), m);
    }
    if t == targets[n] {
      StarsGrow(mods, m, targets[..n], t, classes);
      NamesMonotone(List(mods[t], classes), List(before[t], classes));
    } else {
      assert t in targets[..n];
      StarsGain(mods, m, targets[..n], t, classes);
    }
  }

  lemma {:induction false} RoundGains(mods: Modules, imports: StarImports, m: string, t: string, classes: bool)
    requires Known(mods, imports) && m in mods && Edge(mods, imports, m, t)
    ensures NamesIn(mods, t, classes) <= NamesIn(Round(mods, imports), m, classes)
  {
    var i :| 0 <= i < |imports| && imports[i].0 == m && t in imports[i].1;
    var n := |imports| - 1;
    var before := Round(mods, imports[..n]);
    if i == n {
      RoundGrows(mods, imports[..n], t, classes);
      NamesMonotone(List(mods[t], classes), List(before[t], classes));
      StarsGain(before, m, imports[n].1, t, classes);
    } else {
      assert imports[..n][i] == imports[i];
      RoundGains(mods, imports[..n], m, t, classes);
      StarsGrow(before, imports[n].0, imports[n].1, m, classes);
      NamesMonotone(List(before[m], classes), List(Round(mods, imports)[m], classes));
    }
  }

  lemma {:induction false} RoundsReach(mods: Modules, imports: StarImports, k: nat, m: string, t: string, classes: bool)
    requires Known(mods, imports) && m in mods && t in mods && Reach(mods, imports, m, t, k)
    ensures NamesIn(mods, t, classes) <= NamesIn(Rounds(mods, imports, k), m, classes)
    decreases k
  {
    OwnStubsStay(mods, imports, k, m, classes);
    NamesMonotone(List(mods[m], classes), List(Rounds(mods, imports, k)[m], classes));
    if m != t {
      var u :| Edge(mods, imports, m, u) && Reach(mods, imports, u, t, k - 1);
      var before := Rounds(mods, imports, k - 1);
      RoundsReach(mods, imports, k - 1, u, t, classes);
      assert Edge(before, imports, m, u);
      RoundGains(before, imports, m, u, classes);
    }
  }

  // ---- nothing else ever arrives ----

  /** `e` is `m`'s own, or the requalified original of a module reachable from `m`. */
  ghost predicate Origin(mods: Modules, imports: StarImports, m: string, e: Stub, classes: bool)
    requires m in mods
  {
    || e in List(mods[m], classes)
    || exists t, e0, k: nat :: CopiedFrom(mods, imports, m, e, classes, t, e0, k)
  }

  ghost predicate CopiedFrom(mods: Modules, imports: StarImports, m: string, e: Stub, classes: bool, t: string,
                             e0: Stub, k: nat) {
    t in mods && Reach(mods, imports, m, t, k) && e0 in List(mods[t], classes) && IsCopy(e, e0, m)
  }

  ghost predicate Sound(mods: Modules, imports: StarImports, cur: Modules) {
    && cur.Keys == mods.Keys
    && forall m, e, classes :: m in mods && e in List(cur[m], classes) ==> Origin(mods, imports, m, e, classes)
  }

  lemma CopyKeepsOrigin(mods: Modules, imports: StarImports, m: string, t: string, e: Stub, copy: Stub, classes: bool)
    requires m in mods && Edge(mods, imports, m, t) && Origin(mods, imports, t, e, classes) && IsCopy(copy, e, m)
    ensures Origin(mods, imports, m, copy, classes)
  {
    if e in List(mods[t], classes) {
      assert Reach(mods, imports, t, t, 0);
      assert Reach(mods, imports, m, t, 1);
      assert CopiedFrom(mods, imports, m, copy, classes, t, e, 1);
    } else {
      var t', e0, k: nat :| CopiedFrom(mods, imports, t, e, classes, t', e0, k);
      assert Reach(mods, imports, m, t', k + 1) by { ReachStep(mods, imports, m, t, t', k); }
      assert CopiedFrom(mods, imports, m, copy, classes, t', e0, k + 1);
    }
  }

  lemma ReachStep(mods: Modules, imports: StarImports, m: string, u: string, t: string, k: nat)
    requires Edge(mods, imports, m, u) && Reach(mods, imports, u, t, k)
    ensures Reach(mods, imports, m, t, k + 1)
  {}

  lemma {:induction false} StarsSound(mods: Modules, imports: StarImports, cur: Modules, m: string,
                                      targets: seq<string>)
    requires Sound(mods, imports, cur) && m in mods
    requires forall t :: t in targets && t in mods ==> Edge(mods, imports, m, t)
    ensures Sound(mods, imports, Stars(cur, m, targets))
  {
    if targets != [] {
      var n := |targets| - 1;
      var before, after, t := Stars(cur, m, targets[..n]), Stars(cur, m, targets), targets[n];
      StarsSound(mods, imports, cur, m, targets[..n]);
      if t in mods {
        forall x, e, classes | x in mods && e in List(after[x], classes) ensures Origin(mods, imports, x, e, classes) {
          if x == m {
            MergeNames(List(before[m], classes), List(before[t], classes), m);
            if e !in List(before[m], classes) {
              var e0 :| e0 in List(before[t], classes) && IsCopy(e, e0, m);
              CopyKeepsOrigin(mods, imports, m, t, e0, e, classes);
            }
          }
        }
      }
    }
  }

  lemma {:induction false} RoundSound(mods: Modules, imports: StarImports, cur: Modules, n: nat)
    requires Known(mods, imports) && Sound(mods, imports, cur) && n <= |imports|
    ensures Known(cur, imports[..n]) && Sound(mods, imports, Round(cur, imports[..n]))
  {
    if n > 0 {
      RoundSound(mods, imports, cur, n - 1);
      assert imports[..n][..n - 1] == imports[..n - 1];
      StarsSound(mods, imports, Round(cur, imports[..n - 1]), imports[n - 1].0, imports[n - 1].1);
    }
  }

  lemma {:induction false} RoundsSound(mods: Modules, imports: StarImports, k: nat)
    requires Known(mods, imports)
    ensures Sound(mods, imports, Rounds(mods, imports, k))
  {
    if k > 0 {
      RoundsSound(mods, imports, k - 1);
      RoundSound(mods, imports, Rounds(mods, imports, k - 1), |imports|);
      assert imports[..|imports|] == imports;
    }
  }

  // ---- which copy a module gets ----

  /** From position `n` on, an entry's name is new to the list. */
  ghost predicate FreshFrom(list: seq<Stub>, n: nat) {
    forall i, j :: 0 <= i < j < |list| && n <= j ==> list[i].shortName != list[j].shortName
  }

  lemma {:induction false} MergeFresh(own: seq<Stub>, target: seq<Stub>, moduleQn: string, n: nat)
    requires FreshFrom(own, n)
    ensures FreshFrom(Merge(own, target, moduleQn), n)
  {
    if target != [] {
      var k := |target| - 1;
      var before, all := Merge(own, target[..k], moduleQn), Merge(own, target, moduleQn);
      MergeFresh(own, target[..k], moduleQn, n);
      if all != before {
        forall i | 0 <= i < |before| ensures before[i].shortName in Names(before) { assert before[i] in before; }
        hide Merge, Names;
        assert all == before + [Requalify(moduleQn, target[k])];
      }
    }
  }

  lemma {:induction false} StarsFresh(cur: Modules, m: string, targets: seq<string>, classes: bool, n: nat)
    requires m in cur && FreshFrom(List(cur[m], classes), n)
    ensures FreshFrom(List(Stars(cur, m, targets)[m], classes), n)
  {
    if targets != [] {
      var k := |targets| - 1;
      var before, t := Stars(cur, m, targets[..k]), targets[k];
      StarsFresh(cur, m, targets[..k], classes, n);
      if t in cur { MergeFresh(List(before[m], classes), List(before[t], classes), m, n); }
    }
  }

  lemma {:induction false} RoundFresh(cur: Modules, imports: StarImports, m: string, classes: bool, n: nat)
    requires Known(cur, imports) && m in cur && FreshFrom(List(cur[m], classes), n)
    ensures FreshFrom(List(Round(cur, imports)[m], classes), n)
  {
    if imports != [] {
      var k := |imports| - 1;
      var before := Round(cur, imports[..k]);
      RoundFresh(cur, imports[..k], m, classes, n);
      if imports[k].0 == m {
        StarsFresh(before, m, imports[k].1, classes, n);
      } else {
        StarsGrow(before, imports[k].0, imports[k].1, m, classes);
      }
    }
  }

  /** No name is copied into a module that has it already, however many rounds there are. */
  lemma {:induction false} CopiesAreFresh(mods: Modules, imports: StarImports, k: nat, m: string, classes: bool)
    requires Known(mods, imports) && m in mods
    ensures FreshFrom(List(Rounds(mods, imports, k)[m], classes), |List(mods[m], classes)|)
  {
    if k > 0 {
      CopiesAreFresh(mods, imports, k - 1, m, classes);
      RoundFresh(Rounds(mods, imports, k - 1), imports, m, classes, |List(mods[m], classes)|);
    }
  }

  /** Entry `k` is the first of its name. */
  predicate FirstNamed(list: seq<Stub>, k: nat) {
    k < |list| && forall i :: 0 <= i < k ==> list[i].shortName != list[k].shortName
  }

  lemma {:induction false} MergeTakesFirst(own: seq<Stub>, target: seq<Stub>, moduleQn: string, e: Stub)
    requires e in Merge(own, target, moduleQn) && e !in own
    ensures exists k: nat :: FirstNamed(target, k) && IsCopy(e, target[k], moduleQn)
  {
    var n := |target| - 1;
    var before := Merge(own, target[..n], moduleQn);
    MergeNames(own, target[..n], moduleQn);
    assert e in before || (target[n].shortName !in Names(before) && IsCopy(e, target[n], moduleQn));
    hide Merge, IsCopy;
    if e in before {
      MergeTakesFirst(own, target[..n], moduleQn, e);
      var k: nat :| FirstNamed(target[..n], k) && IsCopy(e, target[..n][k], moduleQn);
      assert FirstNamed(target, k);
    } else {
      forall i | 0 <= i < n ensures target[i].shortName in Names(target[..n]) { assert target[..n][i] in target[..n]; }
      assert FirstNamed(target, n);
    }
  }

  /** What a module's turn adds: copies of the first entry of a name in the first of the targets, in
      the order of the star imports, that has the name. */
  ghost predicate FirstOffer(cur: Modules, m: string, targets: seq<string>, classes: bool, e: Stub, j: nat, k: nat) {
    && j < |targets| && targets[j] in cur
    && FirstNamed(List(cur[targets[j]], classes), k) && IsCopy(e, List(cur[targets[j]], classes)[k], m)
    && forall i :: 0 <= i < j && targets[i] in cur ==> e.shortName !in NamesIn(cur, targets[i], classes)
  }

  lemma {:induction false} FirstOfferWins(cur: Modules, m: string, targets: seq<string>, classes: bool, e: Stub)
    requires m in cur && e in List(Stars(cur, m, targets)[m], classes) && e !in List(cur[m], classes)
    ensures exists j, k :: FirstOffer(cur, m, targets, classes, e, j, k)
  {
    var n := |targets| - 1;
    var before, t := Stars(cur, m, targets[..n]), targets[n];
    if e in List(before[m], classes) {
      FirstOfferWins(cur, m, targets[..n], classes, e);
      var j, k :| FirstOffer(cur, m, targets[..n], classes, e, j, k);
      assert FirstOffer(cur, m, targets, classes, e, j, k);
    } else {
      assert t in cur;
      MergeTakesFirst(List(before[m], classes), List(before[t], classes), m, e);
      MergeAddsNew(List(before[m], classes), List(before[t], classes), m, e);
      var k: nat :| FirstNamed(List(before[t], classes), k) && IsCopy(e, List(before[t], classes)[k], m);
      StarsGrow(cur, m, targets[..n], t, classes);
      forall i | 0 <= i < n && targets[i] in cur ensures e.shortName !in NamesIn(cur, targets[i], classes) {
        assert targets[..n][i] in targets[..n];
        StarsGain(cur, m, targets[..n], targets[i], classes);
      }
      assert FirstOffer(cur, m, targets, classes, e, n, k);
    }
  }

  lemma {:induction false} MergeAddsNew(own: seq<Stub>, target: seq<Stub>, moduleQn: string, e: Stub)
    requires e in Merge(own, target, moduleQn) && e !in own
    ensures e.shortName !in Names(own)
  {
    var n := |target| - 1;
    var before := Merge(own, target[..n], moduleQn);
    MergeNames(own, target[..n], moduleQn);
    if e in before { MergeAddsNew(own, target[..n], moduleQn, e); }
  }

  // ---- what the bounded loop achieves ----

  /** Some module within `k` star imports of `m` defines `name` itself. */
  ghost predicate Within(mods: Modules, imports: StarImports, m: string, name: string, classes: bool, k: nat) {
    exists t :: t in mods && Reach(mods, imports, m, t, k) && name in NamesIn(mods, t, classes)
  }

  ghost predicate Offered(mods: Modules, imports: StarImports, m: string, name: string, classes: bool) {
    exists k: nat :: Within(mods, imports, m, name, classes, k)
  }

  /** Every module offers exactly the names reachable over star imports. */
  ghost predicate FullClosure(mods: Modules, imports: StarImports, cur: Modules) {
    && cur.Keys == mods.Keys
    && forall m, name, classes :: m in mods ==>
         (name in NamesIn(cur, m, classes) <==> Offered(mods, imports, m, name, classes))
  }

  lemma NamesAreOffered(mods: Modules, imports: StarImports, k: nat, m: string, name: string, classes: bool)
    requires Known(mods, imports) && m in mods && name in NamesIn(Rounds(mods, imports, k), m, classes)
    ensures Offered(mods, imports, m, name, classes)
  {
    RoundsSound(mods, imports, k);
    var e :| e in List(Rounds(mods, imports, k)[m], classes) && e.shortName == name;
    assert Origin(mods, imports, m, e, classes);
    if e in List(mods[m], classes) {
      assert Reach(mods, imports, m, m, 0);
      assert Within(mods, imports, m, name, classes, 0);
    } else {
      var t, e0, l: nat :| CopiedFrom(mods, imports, m, e, classes, t, e0, l);
      assert name in NamesIn(mods, t, classes);
      assert Within(mods, imports, m, name, classes, l);
    }
  }

  lemma WithinArrives(mods: Modules, imports: StarImports, k: nat, m: string, name: string, classes: bool)
    requires Known(mods, imports) && m in mods && Within(mods, imports, m, name, classes, k)
    ensures name in NamesIn(Rounds(mods, imports, k), m, classes)
  {
    var t :| t in mods && Reach(mods, imports, m, t, k) && name in NamesIn(mods, t, classes);
    RoundsReach(mods, imports, k, m, t, classes);
  }

  /** Eight rounds suffice when no name is further away than eight star imports. */
  lemma ShortDistancesSuffice(mods: Modules, imports: StarImports)
    requires Known(mods, imports)
    requires forall m, name, classes :: m in mods && Offered(mods, imports, m, name, classes) ==>
               Within(mods, imports, m, name, classes, MAX_ROUNDS)
    ensures FullClosure(mods, imports, Rounds(mods, imports, MAX_ROUNDS))
  {
    forall m, name, classes | m in mods
      ensures name in NamesIn(Rounds(mods, imports, MAX_ROUNDS), m, classes) <==>
                Offered(mods, imports, m, name, classes)
    {
      if name in NamesIn(Rounds(mods, imports, MAX_ROUNDS), m, classes) {
        NamesAreOffered(mods, imports, MAX_ROUNDS, m, name, classes);
      } else if Offered(mods, imports, m, name, classes) {
        WithinArrives(mods, imports, MAX_ROUNDS, m, name, classes);
      }
    }
  }

  /** A table that a round leaves alone has every edge's names. */
  lemma {:induction false} SettledReach(mods: Modules, imports: StarImports, cur: Modules, m: string, t: string,
                                        k: nat, classes: bool)
    requires Known(mods, imports) && cur.Keys == mods.Keys && Round(cur, imports) == cur
    requires m in mods && t in mods && Reach(mods, imports, m, t, k)
    ensures NamesIn(cur, t, classes) <= NamesIn(cur, m, classes)
    decreases k
  {
    if m != t {
      var u :| Edge(mods, imports, m, u) && Reach(mods, imports, u, t, k - 1);
      SettledReach(mods, imports, cur, u, t, k - 1, classes);
      assert Edge(cur, imports, m, u);
      RoundGains(cur, imports, m, u, classes);
    }
  }

  lemma {:induction false} MergeNothing(own: seq<Stub>, target: seq<Stub>, moduleQn: string)
    requires Names(target) <= Names(own)
    ensures Merge(own, target, moduleQn) == own
  {
    if target != [] {
      var n := |target| - 1;
      assert target == target[..n] + [target[n]];
      assert target[n] in target && target[n].shortName in Names(target);
      assert Names(target[..n]) <= Names(target);
      MergeNothing(own, target[..n], moduleQn);
    }
  }

  lemma {:induction false} StarsNothing(cur: Modules, m: string, targets: seq<string>)
    requires m in cur
    requires forall t, classes :: t in targets && t in cur ==> NamesIn(cur, t, classes) <= NamesIn(cur, m, classes)
    ensures Stars(cur, m, targets) == cur
  {
    if targets != [] {
      var n := |targets| - 1;
      var t := targets[n];
      StarsNothing(cur, m, targets[..n]);
      if t in cur {
        assert NamesIn(cur, t, true) <= NamesIn(cur, m, true) && NamesIn(cur, t, false) <= NamesIn(cur, m, false);
        MergeNothing(cur[m].classes, cur[t].classes, m);
        MergeNothing(cur[m].functions, cur[t].functions, m);
      }
    }
  }

  lemma {:induction false} RoundNothing(cur: Modules, imports: StarImports, n: nat)
    requires Known(cur, imports) && n <= |imports|
    requires forall m, t, classes :: m in cur && Edge(cur, imports, m, t) ==>
               NamesIn(cur, t, classes) <= NamesIn(cur, m, classes)
    ensures Known(cur, imports[..n]) && Round(cur, imports[..n]) == cur
  {
    if n > 0 {
      RoundNothing(cur, imports, n - 1);
      assert imports[..n][..n - 1] == imports[..n - 1];
      StarsNothing(cur, imports[n - 1].0, imports[n - 1].1);
    }
  }

  /** The resolver has reached the full closure exactly when one more round would change nothing. */
  lemma ClosedIffSettled(mods: Modules, imports: StarImports, k: nat)
    requires Known(mods, imports)
    ensures var cur := Rounds(mods, imports, k);
            FullClosure(mods, imports, cur) <==> Round(cur, imports) == cur
  {
    var cur := Rounds(mods, imports, k);
    if Round(cur, imports) == cur {
      forall m, name, classes | m in mods
        ensures name in NamesIn(cur, m, classes) <==> Offered(mods, imports, m, name, classes)
      {
        if name in NamesIn(cur, m, classes) {
          NamesAreOffered(mods, imports, k, m, name, classes);
        } else if Offered(mods, imports, m, name, classes) {
          var l: nat :| Within(mods, imports, m, name, classes, l);
          var t :| t in mods && Reach(mods, imports, m, t, l) && name in NamesIn(mods, t, classes);
          SettledReach(mods, imports, cur, m, t, l, classes);
          OwnStubsStay(mods, imports, k, t, classes);
          NamesMonotone(List(mods[t], classes), List(cur[t], classes));
        }
      }
    }
    if FullClosure(mods, imports, cur) {
      forall m, t, classes | m in cur && Edge(cur, imports, m, t)
        ensures NamesIn(cur, t, classes) <= NamesIn(cur, m, classes) {
        forall name | name in NamesIn(cur, t, classes) ensures name in NamesIn(cur, m, classes) {
          assert Offered(mods, imports, t, name, classes);
          OfferedOverEdge(mods, imports, m, t, name, classes);
        }
      }
      RoundNothing(cur, imports, |imports|);
      assert imports[..|imports|] == imports;
    }
  }

  lemma OfferedOverEdge(mods: Modules, imports: StarImports, m: string, t: string, name: string, classes: bool)
    requires Edge(mods, imports, m, t) && Offered(mods, imports, t, name, classes)
    ensures Offered(mods, imports, m, name, classes)
  {
    var k: nat :| Within(mods, imports, t, name, classes, k);
    var u :| u in mods && Reach(mods, imports, t, u, k) && name in NamesIn(mods, u, classes);
    ReachStep(mods, imports, m, t, u, k);
    assert Within(mods, imports, m, name, classes, k + 1);
  }

  // ---- exactly what k rounds bring in, for any dictionary order ----

  /** The keys of a dictionary. */
  ghost predicate DistinctKeys(imports: StarImports) {
    forall i, j :: 0 <= i < j < |imports| ==> imports[i].0 != imports[j].0
  }

  /** Where a module has its turn in a round; modules without star imports come after all turns. */
  function Pos(imports: StarImports, m: string): (p: nat)
    ensures p <= |imports| && (p < |imports| ==> imports[p].0 == m)
    ensures forall i :: 0 <= i < p ==> imports[i].0 != m
  {
    if imports == [] || imports[0].0 == m then 0 else 1 + Pos(imports[1..], m)
  }

  /** The rounds `u` has had when `m` copies from it in the `k`-th: all of them if its turn comes
      before `m`'s, one less otherwise. */
  function Had(imports: StarImports, m: string, u: string, k: nat): nat
    requires k > 0
  {
    if Pos(imports, u) < Pos(imports, m) then k else k - 1
  }

  /** What `t` defines gets to `m` within `k` rounds, over star imports. */
  ghost predicate Arrives(mods: Modules, imports: StarImports, m: string, t: string, k: nat)
    decreases k, Pos(imports, m)
  {
    m == t || (k > 0 && exists u :: Edge(mods, imports, m, u) && Arrives(mods, imports, u, t, Had(imports, m, u, k)))
  }

  /** Some module that gets to `m` within `k` rounds defines `name` itself. */
  ghost predicate ArrivesWithin(mods: Modules, imports: StarImports, m: string, name: string, classes: bool, k: nat) {
    exists t :: t in mods && Arrives(mods, imports, m, t, k) && name in NamesIn(mods, t, classes)
  }

  lemma {:induction false} ArrivesLonger(mods: Modules, imports: StarImports, m: string, t: string, k: nat)
    requires Arrives(mods, imports, m, t, k)
    ensures Arrives(mods, imports, m, t, k + 1)
    decreases k, Pos(imports, m)
  {
    if m != t {
      var u :| Edge(mods, imports, m, u) && Arrives(mods, imports, u, t, Had(imports, m, u, k));
      ArrivesLonger(mods, imports, u, t, Had(imports, m, u, k));
      assert Had(imports, m, u, k + 1) == Had(imports, m, u, k) + 1;
    }
  }

  // One round, module by module.

  lemma {:induction false} StarsUpper(cur: Modules, m: string, targets: seq<string>, classes: bool, name: string)
    requires m in cur && name in NamesIn(Stars(cur, m, targets), m, classes)
    ensures name in NamesIn(cur, m, classes) || exists t :: t in targets && t in cur && name in NamesIn(cur, t, classes)
  {
    if targets != [] {
      var n := |targets| - 1;
      var before, t := Stars(cur, m, targets[..n]), targets[n];
      if t in cur {
        StarsGrow(cur, m, targets[..n], t, classes);
        MergeNames(List(before[m], classes), List(before[t], classes), m);
      }
      if name in NamesIn(before, m, classes) {
        StarsUpper(cur, m, targets[..n], classes, name);
      } else {
        assert t in targets && t in cur && name in NamesIn(cur, t, classes);
      }
    }
  }

  lemma StarsExact(cur: Modules, m: string, targets: seq<string>, classes: bool, name: string)
    requires m in cur
    ensures name in NamesIn(Stars(cur, m, targets), m, classes) <==>
              name in NamesIn(cur, m, classes)
              || exists t :: t in targets && t in cur && name in NamesIn(cur, t, classes)
  {
    hide Stars;
    if name in NamesIn(Stars(cur, m, targets), m, classes) { StarsUpper(cur, m, targets, classes, name); }
    StarsGrow(cur, m, targets, m, classes);
    NamesMonotone(List(cur[m], classes), List(Stars(cur, m, targets)[m], classes));
    if t :| t in targets && t in cur && name in NamesIn(cur, t, classes) { StarsGain(cur, m, targets, t, classes); }
  }

  /** Before its turn in a round, a module's lists are those of the round's start. */
  lemma {:induction false} RoundUntouched(cur: Modules, imports: StarImports, n: nat, x: string)
    requires Known(cur, imports) && n <= |imports| && x in cur
    requires forall i :: 0 <= i < n ==> imports[i].0 != x
    ensures Known(cur, imports[..n]) && Round(cur, imports[..n])[x] == cur[x]
  {
    if n > 0 {
      RoundUntouched(cur, imports, n - 1, x);
      assert imports[..n][..n - 1] == imports[..n - 1];
      StarsGrow(Round(cur, imports[..n - 1]), imports[n - 1].0, imports[n - 1].1, x, true);
    }
  }

  /** After its turn, they are those of the round's end. */
  lemma {:induction false} RoundDone(cur: Modules, imports: StarImports, n: nat, l: nat, x: string)
    requires Known(cur, imports) && n <= l <= |imports| && x in cur
    requires forall i :: n <= i < l ==> imports[i].0 != x
    ensures Known(cur, imports[..n]) && Known(cur, imports[..l])
    ensures Round(cur, imports[..n])[x] == Round(cur, imports[..l])[x]
    decreases l
  {
    if n < l {
      RoundDone(cur, imports, n, l - 1, x);
      assert imports[..l][..l - 1] == imports[..l - 1];
      StarsGrow(Round(cur, imports[..l - 1]), imports[l - 1].0, imports[l - 1].1, x, true);
    }
  }

  /** What module `m` sees of `u` when its turn comes: this round's lists or the last one's. */
  ghost function SeenBy(cur: Modules, imports: StarImports, m: string, u: string): Stubs
    requires Known(cur, imports) && u in cur
  {
    if Pos(imports, u) < Pos(imports, m) then Round(cur, imports)[u] else cur[u]
  }

  lemma SeenAtTurn(cur: Modules, imports: StarImports, m: string, u: string)
    requires Known(cur, imports) && DistinctKeys(imports) && Pos(imports, m) < |imports| && u in cur
    ensures Known(cur, imports[..Pos(imports, m)])
    ensures Round(cur, imports[..Pos(imports, m)])[u] == SeenBy(cur, imports, m, u)
  {
    var p := Pos(imports, m);
    if Pos(imports, u) < p {
      RoundDone(cur, imports, p, |imports|, u);
      assert imports[..|imports|] == imports;
    } else {
      RoundUntouched(cur, imports, p, u);
    }
  }

  /** After a round a module has its names and those it saw in the modules it star-imports. */
  lemma RoundExact(cur: Modules, imports: StarImports, m: string, classes: bool, name: string)
    requires Known(cur, imports) && DistinctKeys(imports) && m in cur
    ensures name in NamesIn(Round(cur, imports), m, classes) <==>
              || name in NamesIn(cur, m, classes)
              || exists u :: Edge(cur, imports, m, u) && name in Names(List(SeenBy(cur, imports, m, u), classes))
  {
    hide Round, Stars;
    var p := Pos(imports, m);
    assert imports[..|imports|] == imports;
    if p == |imports| {
      RoundUntouched(cur, imports, p, m);
    } else {
      TurnExact(cur, imports, m, classes, name);
      SeenAtTurn(cur, imports, m, m);
      var before := Round(cur, imports[..p]);
      forall u | Edge(cur, imports, m, u) ensures u in imports[p].1 && before[u] == SeenBy(cur, imports, m, u) {
        var i :| 0 <= i < |imports| && imports[i].0 == m && u in imports[i].1;
        assert i == p;
        SeenAtTurn(cur, imports, m, u);
      }
      forall u | u in imports[p].1 && u in cur ensures Edge(cur, imports, m, u) {}
    }
  }

  /** The turn of module `m`, in terms of the tables as they are then. */
  lemma TurnExact(cur: Modules, imports: StarImports, m: string, classes: bool, name: string)
    requires Known(cur, imports) && DistinctKeys(imports) && m in cur && Pos(imports, m) < |imports|
    ensures var p := Pos(imports, m);
            && Known(cur, imports[..p])
            && var before := Round(cur, imports[..p]);
               (name in NamesIn(Round(cur, imports), m, classes) <==>
                  || name in NamesIn(before, m, classes)
                  || exists u :: u in imports[p].1 && u in cur && name in NamesIn(before, u, classes))
  {
    hide Pos, Round, Stars, Names, Known, DistinctKeys;
    var p := Pos(imports, m);
    TurnLast(cur, imports, m);
    OneTurn(cur, imports, p);
    StarsExact(Round(cur, imports[..p]), m, imports[p].1, classes, name);
  }

  lemma TurnLast(cur: Modules, imports: StarImports, m: string)
    requires Known(cur, imports) && DistinctKeys(imports) && m in cur && Pos(imports, m) < |imports|
    ensures Known(cur, imports[..Pos(imports, m) + 1])
    ensures Round(cur, imports[..Pos(imports, m) + 1])[m] == Round(cur, imports)[m]
  {
    hide Pos, Round, Known;
    var p, n := Pos(imports, m), |imports|;
    assert imports[p].0 == m && imports[..n] == imports;
    hide *;
    RoundDone(cur, imports, p + 1, n, m);
  }

  lemma OneTurn(cur: Modules, imports: StarImports, p: nat)
    requires Known(cur, imports) && p < |imports|
    ensures Known(cur, imports[..p]) && Known(cur, imports[..p + 1])
    ensures Round(cur, imports[..p + 1]) == Stars(Round(cur, imports[..p]), imports[p].0, imports[p].1)
  {
    assert imports[..p + 1][..p] == imports[..p];
    hide Stars;
  }

  /** The same step on the other side: what arrives within one round more. */
  lemma ArrivesByStep(mods: Modules, imports: StarImports, m: string, name: string, classes: bool, k: nat)
    requires k > 0 && m in mods
    ensures ArrivesWithin(mods, imports, m, name, classes, k) <==>
              || ArrivesWithin(mods, imports, m, name, classes, k - 1)
              || exists u :: Edge(mods, imports, m, u)
                    && ArrivesWithin(mods, imports, u, name, classes, Had(imports, m, u, k))
  {
    hide Had, Edge, NamesIn;
    if ArrivesWithin(mods, imports, m, name, classes, k) {
      var t :| t in mods && Arrives(mods, imports, m, t, k) && name in NamesIn(mods, t, classes);
      if m == t {
        assert Arrives(mods, imports, m, t, k - 1);
      } else {
        var u :| Edge(mods, imports, m, u) && Arrives(mods, imports, u, t, Had(imports, m, u, k));
        assert ArrivesWithin(mods, imports, u, name, classes, Had(imports, m, u, k));
      }
    }
    if ArrivesWithin(mods, imports, m, name, classes, k - 1) {
      var t :| t in mods && Arrives(mods, imports, m, t, k - 1) && name in NamesIn(mods, t, classes);
      ArrivesLonger(mods, imports, m, t, k - 1);
    }
    if u :| Edge(mods, imports, m, u) && ArrivesWithin(mods, imports, u, name, classes, Had(imports, m, u, k)) {
      var t :| t in mods && Arrives(mods, imports, u, t, Had(imports, m, u, k)) && name in NamesIn(mods, t, classes);
      assert Arrives(mods, imports, m, t, k);
    }
  }

  /** `k` rounds bring in exactly the names that arrive within `k` rounds. */
  lemma {:induction false} RoundsExact(mods: Modules, imports: StarImports, k: nat, m: string, classes: bool,
                                       name: string)
    requires Known(mods, imports) && DistinctKeys(imports) && m in mods
    ensures name in NamesIn(Rounds(mods, imports, k), m, classes) <==> ArrivesWithin(mods, imports, m, name, classes, k)
    decreases k, Pos(imports, m)
  {
    if k > 0 {
      var before, after := Rounds(mods, imports, k - 1), Rounds(mods, imports, k);
      RoundExact(before, imports, m, classes, name);
      RoundsExact(mods, imports, k - 1, m, classes, name);
      forall u | Edge(mods, imports, m, u)
        ensures name in Names(List(SeenBy(before, imports, m, u), classes)) <==>
                ArrivesWithin(mods, imports, u, name, classes, Had(imports, m, u, k))
      {
        RoundsExact(mods, imports, Had(imports, m, u, k), u, classes, name);
      }
      forall u ensures Edge(before, imports, m, u) <==> Edge(mods, imports, m, u) {}
      ArrivesByStep(mods, imports, m, name, classes, k);
      hide ArrivesWithin, SeenBy, Had, Edge, Round, Pos;
    } else {
      assert Rounds(mods, imports, 0) == mods;
      if name in NamesIn(mods, m, classes) { assert Arrives(mods, imports, m, m, 0); }
    }
  }

  /** After `k` rounds the table is the full closure if and only if every name offered over star
      imports arrives within `k` rounds: a condition on the imports and their order alone. */
  lemma ClosedIffArrives(mods: Modules, imports: StarImports, k: nat)
    requires Known(mods, imports) && DistinctKeys(imports)
    ensures FullClosure(mods, imports, Rounds(mods, imports, k)) <==>
              forall m, name, classes :: m in mods && Offered(mods, imports, m, name, classes) ==>
                ArrivesWithin(mods, imports, m, name, classes, k)
  {
    hide Rounds, Arrives, ArrivesWithin, Offered;
    forall m, name, classes | m in mods
      ensures name in NamesIn(Rounds(mods, imports, k), m, classes) <==>
                ArrivesWithin(mods, imports, m, name, classes, k)
      ensures name in NamesIn(Rounds(mods, imports, k), m, classes) ==> Offered(mods, imports, m, name, classes)
    {
      RoundsExact(mods, imports, k, m, classes, name);
      if name in NamesIn(Rounds(mods, imports, k), m, classes) {
        NamesAreOffered(mods, imports, k, m, name, classes);
      }
    }
  }

  // ---- two extreme orders ----

  /** Modules are distinct and come before the modules they star-import. */
  ghost predicate SourceFirst(imports: StarImports) {
    && DistinctKeys(imports)
    && (forall i, j :: 0 <= i < |imports| && 0 <= j < |imports| && imports[j].0 in imports[i].1 ==> i < j)
  }

  /** Modules are distinct and come after the modules they star-import. */
  ghost predicate TargetFirst(imports: StarImports) {
    && DistinctKeys(imports)
    && (forall i :: 0 <= i < |imports| ==> forall t :: t in imports[i].1 ==> Pos(imports, t) < i)
  }

  /** In source-first order a round is worth one star import. */
  lemma {:induction false} SourceFirstReach(mods: Modules, imports: StarImports, m: string, t: string, k: nat)
    requires SourceFirst(imports)
    ensures Arrives(mods, imports, m, t, k) <==> Reach(mods, imports, m, t, k)
    decreases k
  {
    if k > 0 {
      forall u | Edge(mods, imports, m, u)
        ensures Pos(imports, m) <= Pos(imports, u)
        ensures Arrives(mods, imports, u, t, k - 1) <==> Reach(mods, imports, u, t, k - 1)
      {
        SourceFirstReach(mods, imports, u, t, k - 1);
        var i :| 0 <= i < |imports| && imports[i].0 == m && u in imports[i].1;
        if Pos(imports, u) < |imports| { assert imports[Pos(imports, u)].0 in imports[i].1; }
      }
    }
  }

  lemma SourceFirstWithin(mods: Modules, imports: StarImports, m: string, name: string, classes: bool, k: nat)
    requires SourceFirst(imports)
    ensures ArrivesWithin(mods, imports, m, name, classes, k) <==> Within(mods, imports, m, name, classes, k)
  {
    forall t ensures Arrives(mods, imports, m, t, k) <==> Reach(mods, imports, m, t, k) {
      SourceFirstReach(mods, imports, m, t, k);
    }
    hide Arrives, Reach;
  }

  /** So `k` rounds bring in exactly the names within `k` star imports. */
  lemma SourceFirstExact(mods: Modules, imports: StarImports, k: nat, m: string, classes: bool, name: string)
    requires Known(mods, imports) && SourceFirst(imports) && m in mods
    ensures name in NamesIn(Rounds(mods, imports, k), m, classes) <==> Within(mods, imports, m, name, classes, k)
  {
    RoundsExact(mods, imports, k, m, classes, name);
    SourceFirstWithin(mods, imports, m, name, classes, k);
  }

  /** In target-first order one round is worth any number of them. */
  lemma {:induction false} TargetFirstReach(mods: Modules, imports: StarImports, m: string, t: string, k: nat)
    requires TargetFirst(imports) && Reach(mods, imports, m, t, k)
    ensures Arrives(mods, imports, m, t, 1)
    decreases k
  {
    if m != t {
      var u :| Edge(mods, imports, m, u) && Reach(mods, imports, u, t, k - 1);
      TargetFirstReach(mods, imports, u, t, k - 1);
      var i :| 0 <= i < |imports| && imports[i].0 == m && u in imports[i].1;
      assert Pos(imports, m) == i;
    }
  }

  /** In source-first order, the full closure if and only if no name is more than eight star imports
      away. */
  lemma SourceFirstClosed(mods: Modules, imports: StarImports)
    requires Known(mods, imports) && SourceFirst(imports)
    ensures FullClosure(mods, imports, Rounds(mods, imports, MAX_ROUNDS)) <==>
              forall m, name, classes :: m in mods && Offered(mods, imports, m, name, classes) ==>
                Within(mods, imports, m, name, classes, MAX_ROUNDS)
  {
    hide FullClosure, Rounds, Offered, ArrivesWithin, Within;
    forall m, name, classes
      ensures ArrivesWithin(mods, imports, m, name, classes, MAX_ROUNDS) <==>
                Within(mods, imports, m, name, classes, MAX_ROUNDS)
    {
      SourceFirstWithin(mods, imports, m, name, classes, MAX_ROUNDS);
    }
    ClosedIffArrives(mods, imports, MAX_ROUNDS);
  }

  /** In target-first order one round is enough, however long the chains, and the others change
      nothing. */
  lemma TargetFirstClosed(mods: Modules, imports: StarImports)
    requires Known(mods, imports) && TargetFirst(imports)
    ensures FullClosure(mods, imports, Rounds(mods, imports, 1))
    ensures Rounds(mods, imports, MAX_ROUNDS) == Rounds(mods, imports, 1)
  {
    forall m, name, classes | m in mods && Offered(mods, imports, m, name, classes)
      ensures ArrivesWithin(mods, imports, m, name, classes, 1)
    {
      var k: nat :| Within(mods, imports, m, name, classes, k);
      var t :| t in mods && Reach(mods, imports, m, t, k) && name in NamesIn(mods, t, classes);
      TargetFirstReach(mods, imports, m, t, k);
    }
    hide ArrivesWithin, Offered, Rounds, FullClosure, Round;
    ClosedIffArrives(mods, imports, 1);
    ClosedIffSettled(mods, imports, 1);
    Stable(mods, imports, 1, MAX_ROUNDS);
  }

  // ---- chains: eight hops resolve, nine do not ----

  /** Module `i` of a chain, named by its length. */
  function Link(i: nat): (s: string)
    ensures |s| == i + 1
  {
    seq(i + 1, _ => 'm')
  }

  lemma LinkByLength(i: nat, j: nat)
    ensures Link(i) == Link(j) <==> i == j
  {
    assert |Link(i)| == i + 1 && |Link(j)| == j + 1;
  }

  function ChainStubs(name: string): Stubs {
    Stubs([Stub(name, name, ClassBody([], []))], [])
  }

  /** The links below `n`, each defining one class of its own name. */
  function ChainModules(n: nat): (mods: Modules)
    ensures forall name :: name in mods <==> exists i :: 0 <= i < n && name == Link(i)
    ensures forall name :: name in mods ==> mods[name] == ChainStubs(name)
  {
    if n == 0 then map[] else ChainModules(n - 1)[Link(n - 1) := ChainStubs(Link(n - 1))]
  }

  /** Each of the first `n` links star-imports the next. */
  function ChainImports(n: nat): StarImports {
    seq(n, i requires 0 <= i < n => (Link(i), [Link(i + 1)]))
  }

  lemma ChainEdge(n: nat, i: nat, u: string)
    ensures Edge(ChainModules(n + 1), ChainImports(n), Link(i), u) <==> i < n && u == Link(i + 1)
  {
    hide ChainModules, Link;
    if Edge(ChainModules(n + 1), ChainImports(n), Link(i), u) {
      var j :| 0 <= j < n && ChainImports(n)[j].0 == Link(i) && u in ChainImports(n)[j].1;
      LinkByLength(i, j);
    }
    if i < n { assert ChainImports(n)[i] == (Link(i), [Link(i + 1)]); }
  }

  /** In a chain of `n` star imports, link `j` is exactly `j - i` hops from link `i`. */
  lemma {:induction false} ChainReach(n: nat, i: nat, t: string, k: nat)
    requires i <= n
    ensures Reach(ChainModules(n + 1), ChainImports(n), Link(i), t, k) <==>
              exists j :: i <= j <= n && j <= i + k && t == Link(j)
    decreases k
  {
    hide ChainModules, ChainImports, Link;
    var mods, imports := ChainModules(n + 1), ChainImports(n);
    forall u ensures Edge(mods, imports, Link(i), u) <==> i < n && u == Link(i + 1) { ChainEdge(n, i, u); }
    if k > 0 && i < n { ChainReach(n, i + 1, t, k - 1); }
    if Link(i) == t { assert i <= i <= n; }
    if j :| i <= j <= n && j <= i + k && t == Link(j) {
      if j > i { assert Edge(mods, imports, Link(i), Link(i + 1)); }
    }
  }

  lemma ChainWithin(n: nat, i: nat, name: string, classes: bool, k: nat)
    requires i <= n
    ensures Within(ChainModules(n + 1), ChainImports(n), Link(i), name, classes, k) <==>
              classes && exists j :: i <= j <= n && j <= i + k && name == Link(j)
  {
    hide ChainImports, Link, Reach;
    var mods, imports := ChainModules(n + 1), ChainImports(n);
    forall t | t in mods ensures NamesIn(mods, t, classes) == if classes then {t} else {} {
      assert mods[t] == ChainStubs(t);
    }
    forall t ensures Reach(mods, imports, Link(i), t, k) <==> exists j :: i <= j <= n && j <= i + k && t == Link(j) {
      ChainReach(n, i, t, k);
    }
    if Within(mods, imports, Link(i), name, classes, k) {
      var t :| t in mods && Reach(mods, imports, Link(i), t, k) && name in NamesIn(mods, t, classes);
      assert classes && t == name;
    }
    if classes {
      if j :| i <= j <= n && j <= i + k && name == Link(j) {
        assert name in mods && name in NamesIn(mods, name, classes);
      }
    }
  }

  /** Listed source first, a chain of star imports is closed exactly when it has at most eight. */
  lemma ChainClosed(n: nat)
    ensures Known(ChainModules(n + 1), ChainImports(n)) && SourceFirst(ChainImports(n))
    ensures FullClosure(ChainModules(n + 1), ChainImports(n), Rounds(ChainModules(n + 1), ChainImports(n), MAX_ROUNDS))
            <==> n <= MAX_ROUNDS
  {
    var mods, imports := ChainModules(n + 1), ChainImports(n);
    ChainIsSourceFirst(n);
    hide ChainModules, ChainImports, Link, Rounds, FullClosure, SourceFirst, Within;
    SourceFirstClosed(mods, imports);
    if n <= MAX_ROUNDS {
      forall m, name, classes | m in mods && Offered(mods, imports, m, name, classes)
        ensures Within(mods, imports, m, name, classes, MAX_ROUNDS)
      {
        var i: nat :| i < n + 1 && m == Link(i);
        var k: nat :| Within(mods, imports, m, name, classes, k);
        ChainWithin(n, i, name, classes, k);
        ChainWithin(n, i, name, classes, MAX_ROUNDS);
      }
    } else {
      ChainWithin(n, 0, Link(n), true, n);
      ChainWithin(n, 0, Link(n), true, MAX_ROUNDS);
      forall j ensures 0 <= j && Link(n) == Link(j) ==> j == n { if j >= 0 { LinkByLength(n, j); } }
      assert Within(mods, imports, Link(0), Link(n), true, n);
      assert Offered(mods, imports, Link(0), Link(n), true);
    }
  }

  lemma ChainIsSourceFirst(n: nat)
    ensures Known(ChainModules(n + 1), ChainImports(n)) && SourceFirst(ChainImports(n))
  {
    hide ChainModules, Link;
    var imports := ChainImports(n);
    forall i, j | 0 <= i < j < |imports| ensures imports[i].0 != imports[j].0 { LinkByLength(i, j); }
    forall i, j | 0 <= i < |imports| && 0 <= j < |imports| && imports[j].0 in imports[i].1 ensures i < j {
      LinkByLength(i + 1, j);
    }
  }

  // ---- gathering the modules ----

  /** A stub file to parse, and the module name it is parsed under. */
  type Job = (string, string)

  /** `parse_module`: the stubs and star-import targets of a file under a module name. */
  type Parser = Job -> (Stubs, seq<string>)

  ghost predicate Queued(queue: seq<Job>, m: string) {
    exists i :: 0 <= i < |queue| && queue[i].1 == m
  }

  /** Each parsed module is listed once, with what the parser returned for it. */
  ghost predicate Gathered(modules: Modules, imports: StarImports, start: seq<Job>, files: map<string, string>,
                           parse: Parser) {
    && (forall m :: m in modules <==> Listed(imports, m))
    && DistinctKeys(imports)
    && (forall i :: 0 <= i < |imports| ==> Parsed(modules, imports[i], start, files, parse))
  }

  /** `m` is on the allowlist, or is reached from it in at most `k` of the star imports parsed. */
  ghost predicate AskedFor(imports: StarImports, start: seq<Job>, m: string, k: nat)
    decreases k
  {
    || Queued(start, m)
    || (k > 0 && exists i :: 0 <= i < |imports| && m in imports[i].1 && AskedFor(imports, start, imports[i].0, k - 1))
  }

  ghost predicate Asked(imports: StarImports, start: seq<Job>, m: string) {
    exists k: nat :: AskedFor(imports, start, m, k)
  }

  lemma {:induction false} AskedForLonger(imports: StarImports, more: StarImports, start: seq<Job>, m: string, k: nat)
    requires AskedFor(imports, start, m, k)
    ensures AskedFor(imports + more, start, m, k)
    decreases k
  {
    if !Queued(start, m) {
      var i :| 0 <= i < |imports| && m in imports[i].1 && AskedFor(imports, start, imports[i].0, k - 1);
      AskedForLonger(imports, more, start, imports[i].0, k - 1);
      assert (imports + more)[i] == imports[i];
    }
  }

  lemma AskedLonger(imports: StarImports, more: StarImports, start: seq<Job>, m: string)
    requires Asked(imports, start, m)
    ensures Asked(imports + more, start, m)
  {
    var k: nat :| AskedFor(imports, start, m, k);
    AskedForLonger(imports, more, start, m, k);
  }

  /** The star targets of a module that was asked for are asked for. */
  lemma AskedByStar(imports: StarImports, start: seq<Job>, i: nat, t: string)
    requires i < |imports| && t in imports[i].1 && Asked(imports, start, imports[i].0)
    ensures Asked(imports, start, t)
  {
    var k: nat :| AskedFor(imports, start, imports[i].0, k);
    assert AskedFor(imports, start, t, k + 1);
  }

  /** Everything parsed or waiting was asked for. */
  ghost predicate OnlyAsked(imports: StarImports, start: seq<Job>, queue: seq<Job>) {
    && (forall i :: 0 <= i < |imports| ==> Asked(imports, start, imports[i].0))
    && (forall i :: 0 <= i < |queue| ==> Asked(imports, start, queue[i].1))
  }

  lemma StartAsked(start: seq<Job>)
    ensures OnlyAsked([], start, start)
  {
    forall i | 0 <= i < |start| ensures Asked([], start, start[i].1) {
      assert Queued(start, start[i].1);
      assert AskedFor([], start, start[i].1, 0);
    }
  }

  /** Parsing one more module, and queueing its star targets, keeps it so. */
  lemma ParseAsked(imports: StarImports, start: seq<Job>, rest: seq<Job>, job: Job, stars: seq<string>, queue: seq<Job>)
    requires OnlyAsked(imports, start, rest + [job])
    requires forall i :: 0 <= i < |queue| ==> queue[i] in rest || queue[i].1 in stars
    ensures OnlyAsked(imports + [(job.1, stars)], start, queue)
  {
    var more, n := [(job.1, stars)], |imports|;
    var all := imports + more;
    hide Asked;
    assert (rest + [job])[|rest|] == job;
    AskedLonger(imports, more, start, job.1);
    forall i | 0 <= i < |all| ensures Asked(all, start, all[i].0) {
      if i < n { AskedLonger(imports, more, start, imports[i].0); }
    }
    forall i | 0 <= i < |queue| ensures Asked(all, start, queue[i].1) {
      if queue[i] in rest {
        var j :| 0 <= j < |rest| && rest[j] == queue[i];
        assert (rest + [job])[j] == queue[i];
        AskedLonger(imports, more, start, queue[i].1);
      } else {
        assert all[n] == (job.1, stars);
        AskedByStar(all, start, n, queue[i].1);
      }
    }
  }

  /** With the targets that have files all parsed, the table is exactly what was asked for and has a
      file. */
  lemma GatheredExactly(modules: Modules, imports: StarImports, start: seq<Job>, files: map<string, string>,
                        parse: Parser, m: string)
    requires Gathered(modules, imports, start, files, parse) && OnlyAsked(imports, start, [])
    requires forall i :: 0 <= i < |start| ==> start[i].1 in modules
    requires forall i, t :: 0 <= i < |imports| && t in imports[i].1 && t in files ==> t in modules
    ensures m in modules <==> Asked(imports, start, m) && (Queued(start, m) || m in files)
  {
    hide FromSource;
    if m in modules {
      assert Listed(imports, m);
      var i :| 0 <= i < |imports| && imports[i].0 == m;
      assert Parsed(modules, imports[i], start, files, parse);
      var path :| ParsedFrom(modules, imports[i], path, start, files, parse);
      SourceOf((path, m), start, files);
    }
    if Asked(imports, start, m) && m in files && !Queued(start, m) {
      var k: nat :| AskedFor(imports, start, m, k);
    }
  }

  lemma SourceOf(job: Job, start: seq<Job>, files: map<string, string>)
    requires FromSource(job, start, files)
    ensures Queued(start, job.1) || job.1 in files
  {
    if job in start {
      var i :| 0 <= i < |start| && start[i] == job;
      assert start[i].1 == job.1;
    }
  }

  ghost predicate Listed(imports: StarImports, m: string) {
    exists i :: 0 <= i < |imports| && imports[i].0 == m
  }

  ghost predicate Parsed(modules: Modules, entry: (string, seq<string>), start: seq<Job>, files: map<string, string>,
                         parse: Parser) {
    exists path :: ParsedFrom(modules, entry, path, start, files, parse)
  }

  lemma GatherOne(modules: Modules, imports: StarImports, job: Job, start: seq<Job>, files: map<string, string>,
                  parse: Parser)
    requires Gathered(modules, imports, start, files, parse) && job.1 !in modules && FromSource(job, start, files)
    ensures Gathered(modules[job.1 := parse(job).0], imports + [(job.1, parse(job).1)], start, files, parse)
  {
    var (stubs, stars) := parse(job);
    var modules', imports', n := modules[job.1 := stubs], imports + [(job.1, stars)], |imports|;
    forall m ensures m in modules' <==> Listed(imports', m) {
      if m in modules {
        var i :| 0 <= i < |imports| && imports[i].0 == m;
        assert imports'[i].0 == m;
      }
      if m == job.1 { assert imports'[n].0 == m; }
      if i :| 0 <= i < |imports'| && imports'[i].0 == m { assert i < n ==> Listed(imports, m); }
    }
    forall i | 0 <= i < n ensures imports[i].0 in modules { assert Listed(imports, imports[i].0); }
    forall i | 0 <= i <= n ensures Parsed(modules', imports'[i], start, files, parse) {
      if i < n {
        assert Parsed(modules, imports[i], start, files, parse);
        var path :| ParsedFrom(modules, imports[i], path, start, files, parse);
        assert ParsedFrom(modules', imports'[i], path, start, files, parse);
      } else {
        assert job == (job.0, job.1);
        assert ParsedFrom(modules', imports'[n], job.0, start, files, parse);
      }
    }
  }

  /** `collect_all_stubs`. `files` maps each module name that has a stub file to that file. */
  method CollectAllStubs(start: seq<Job>, files: map<string, string>, parse: Parser)
    returns (modules: Modules, imports: StarImports)
    ensures Gathered(modules, imports, start, files, parse) && Known(modules, imports)
    // nothing asked for is left out
    ensures forall i :: 0 <= i < |start| ==> start[i].1 in modules
    ensures forall i, t :: 0 <= i < |imports| && t in imports[i].1 && t in files ==> t in modules
    // and nothing else is there
    ensures forall m :: m in modules <==> Asked(imports, start, m) && (Queued(start, m) || m in files)
  {
    hide Gathered, FromSource, Queued, Asked, OnlyAsked;
    modules, imports := map[], [];
    var queue, seen: set<string> := start, {};
    StartJobs(start, files, parse);
    StartAsked(start);
    while queue != []
      invariant Gathered(modules, imports, start, files, parse) && OnlyAsked(imports, start, queue)
      invariant forall i :: 0 <= i < |queue| ==> FromSource(queue[i], start, files)
      invariant forall i :: 0 <= i < |start| ==> start[i].1 in modules || Queued(queue, start[i].1)
      invariant forall i, t :: 0 <= i < |imports| && t in imports[i].1 ==> t in seen
      invariant forall t :: t in seen && t in files ==> t in modules || Queued(queue, t)
      decreases |files.Keys - seen|, |queue|
    {
      var job := queue[|queue| - 1];
      PopQueued(queue);
      PopAsked(imports, start, queue);
      ghost var rest := queue[..|queue| - 1];
      assert queue == rest + [job];
      queue := queue[..|queue| - 1];
      if job.1 !in modules {
        var (stubs, stars) := parse(job);
        GatherOne(modules, imports, job, start, files, parse);
        modules := modules[job.1 := stubs];
        ghost var before := imports;
        imports := imports + [(job.1, stars)];
        queue, seen := EnqueueTargets(queue, seen, stars, files, start);
        ParseAsked(before, start, rest, job, stars, queue);
      }
    }
    NoneQueued();
    assert Known(modules, imports) by { GatheredKnown(modules, imports, start, files, parse); }
    forall m ensures m in modules <==> Asked(imports, start, m) && (Queued(start, m) || m in files) {
      GatheredExactly(modules, imports, start, files, parse, m);
    }
  }

  lemma PopAsked(imports: StarImports, start: seq<Job>, queue: seq<Job>)
    requires queue != [] && OnlyAsked(imports, start, queue)
    ensures OnlyAsked(imports, start, queue[..|queue| - 1])
  {}

  lemma NoneQueued()
    ensures forall m :: !Queued([], m)
  {}

  lemma GatheredKnown(modules: Modules, imports: StarImports, start: seq<Job>, files: map<string, string>,
                      parse: Parser)
    requires Gathered(modules, imports, start, files, parse)
    ensures Known(modules, imports)
  {
    forall i | 0 <= i < |imports| ensures imports[i].0 in modules { assert Listed(imports, imports[i].0); }
  }

  lemma StartJobs(start: seq<Job>, files: map<string, string>, parse: Parser)
    ensures Gathered(map[], [], start, files, parse)
    ensures forall i :: 0 <= i < |start| ==> FromSource(start[i], start, files) && Queued(start, start[i].1)
  {}

  ghost predicate FromSource(job: Job, start: seq<Job>, files: map<string, string>) {
    job in start || (job.1 in files && files[job.1] == job.0)
  }

  ghost predicate ParsedFrom(modules: Modules, entry: (string, seq<string>), path: string, start: seq<Job>,
                             files: map<string, string>, parse: Parser) {
    && entry.0 in modules && FromSource((path, entry.0), start, files)
    && parse((path, entry.0)) == (modules[entry.0], entry.1)
  }

  lemma PopQueued(queue: seq<Job>)
    requires queue != []
    ensures forall m :: Queued(queue, m) ==> m == queue[|queue| - 1].1 || Queued(queue[..|queue| - 1], m)
  {
    var n := |queue| - 1;
    forall m | Queued(queue, m) && m != queue[n].1 ensures Queued(queue[..n], m) {
      var i :| 0 <= i < |queue| && queue[i].1 == m;
      assert queue[..n][i].1 == m;
    }
  }

  /** Queue each star target that has a file and was not queued before. */
  method EnqueueTargets(queue0: seq<Job>, seen0: set<string>, stars: seq<string>, files: map<string, string>,
                        ghost start: seq<Job>)
    returns (queue: seq<Job>, seen: set<string>)
    requires forall i :: 0 <= i < |queue0| ==> FromSource(queue0[i], start, files)
    ensures forall i :: 0 <= i < |queue| ==> FromSource(queue[i], start, files)
    ensures queue0 <= queue && seen0 <= seen && forall t :: t in stars ==> t in seen
    ensures forall t :: t in seen && t !in seen0 && t in files ==> Queued(queue, t)
    ensures forall m :: Queued(queue0, m) ==> Queued(queue, m)
    ensures forall i :: 0 <= i < |queue| ==> queue[i] in queue0 || queue[i].1 in stars
    ensures files.Keys - seen < files.Keys - seen0 || queue == queue0
    ensures |files.Keys - seen| < |files.Keys - seen0|
              || (queue == queue0 && |files.Keys - seen| <= |files.Keys - seen0|)
  {
    queue, seen := queue0, seen0;
    for i := 0 to |stars|
      invariant forall i :: 0 <= i < |queue| ==> FromSource(queue[i], start, files)
      invariant queue0 <= queue && seen0 <= seen && forall t :: t in stars[..i] ==> t in seen
      invariant forall t :: t in seen && t !in seen0 && t in files ==> Queued(queue, t)
      invariant forall j :: 0 <= j < |queue| ==> queue[j] in queue0 || queue[j].1 in stars
      invariant files.Keys - seen < files.Keys - seen0 || queue == queue0
    {
      var t := stars[i];
      assert stars[..i + 1] == stars[..i] + [t];
      if t !in seen {
        assert t in files ==> t in files.Keys - seen0;
        seen := seen + {t};
        if t in files {
          ghost var before := queue;
          queue := queue + [(files[t], t)];
          assert queue[|before|].1 == t;
          forall u | Queued(before, u) ensures Queued(queue, u) {
            var k :| 0 <= k < |before| && before[k].1 == u;
            assert queue[k].1 == u;
          }
        }
      }
    }
    assert stars[..|stars|] == stars;
    forall m | Queued(queue0, m) ensures Queued(queue, m) {
      var k :| 0 <= k < |queue0| && queue0[k].1 == m;
      assert queue[k].1 == m;
    }
    SubsetSize(files.Keys - seen, files.Keys - seen0);
  }
}
