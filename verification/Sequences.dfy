/** Sequences without repetition, bounded buffers, and the sizes of finite sets. */
module Sequences {

  function Range(n: nat): (s: set<int>)
    ensures |s| == n && forall i :: i in s <==> 0 <= i < n
  {
    if n == 0 then {} else Range(n - 1) + {n - 1}
  }

  lemma {:induction false} SubsetSize<T>(a: set<T>, b: set<T>)
    requires a <= b
    ensures |a| <= |b|
    ensures |a| == |b| ==> a == b
  {
    if a != {} {
      var x :| x in a;
      SubsetSize(a - {x}, b - {x});
    }
  }

  predicate NoRepeats<T(==)>(s: seq<T>) {
    forall i, j :: 0 <= i < j < |s| ==> s[i] != s[j]
  }

  lemma NoRepeatsConcat<T>(a: seq<T>, b: seq<T>)
    requires NoRepeats(a) && NoRepeats(b) && forall x :: x in a ==> x !in b
    ensures NoRepeats(a + b)
  {
    forall i, j | 0 <= i < j < |a + b| ensures (a + b)[i] != (a + b)[j] {
      if i < |a| <= j { assert a[i] in a && b[j - |a|] in b; }
    }
  }

  /** A sequence without repetition has as many elements as positions. */
  lemma {:induction false} Distinct<T>(q: seq<T>)
    requires NoRepeats(q)
    ensures |set x | x in q| == |q|
  {
    if q != [] {
      var n := |q| - 1;
      Distinct(q[..n]);
      assert q == q[..n] + [q[n]];
      assert (set x | x in q) == (set x | x in q[..n]) + {q[n]};
    }
  }

  lemma Associate<T>(a: seq<T>, b: seq<T>, c: seq<T>)
    ensures (a + b) + c == a + (b + c)
  {}

  /** What a buffer of `cap` elements keeps of `full`. */
  function Take<T>(full: seq<T>, cap: nat): seq<T> {
    if |full| <= cap then full else full[..cap]
  }

  lemma TakeFull<T>(full: seq<T>, more: seq<T>, cap: nat)
    ensures |full| >= cap ==> Take(full + more, cap) == Take(full, cap)
    ensures |full| <= cap ==> Take(full, cap) == full
    ensures |Take(full, cap)| == if |full| <= cap then |full| else cap
    ensures |Take(full, cap)| < cap ==> Take(full, cap) == full
  {
    if |full| >= cap { assert (full + more)[..cap] == full[..cap]; }
  }

  lemma TakeTwice<T>(a: seq<T>, b: seq<T>, cap: nat)
    ensures Take(Take(a, cap) + b, cap) == Take(a + b, cap)
  {}

  /** The elements satisfying `p`, in order. */
  function Filter<T>(s: seq<T>, p: T -> bool): seq<T> {
    if s == [] then []
    else Filter(s[..|s| - 1], p) + if p(s[|s| - 1]) then [s[|s| - 1]] else []
  }

  lemma {:induction false} FilterContents<T>(s: seq<T>, p: T -> bool)
    ensures |Filter(s, p)| <= |s|
    ensures forall x :: x in Filter(s, p) <==> x in s && p(x)
  {
    if s != [] {
      FilterContents(s[..|s| - 1], p);
      assert s == s[..|s| - 1] + [s[|s| - 1]];
    }
  }

  ghost predicate Increasing(ks: seq<nat>) {
    forall i, j :: 0 <= i < j < |ks| ==> ks[i] < ks[j]
  }

  /** `r` is the elements of `s` at the positions `ks`, in order, which are those where `p` holds. */
  ghost predicate Selects<T(!new)>(s: seq<T>, p: T -> bool, ks: seq<nat>, r: seq<T>) {
    && |r| == |ks| && Increasing(ks)
    && (forall j :: 0 <= j < |ks| ==> ks[j] < |s| && p(s[ks[j]]) && r[j] == s[ks[j]])
    && (forall i :: 0 <= i < |s| && p(s[i]) ==> i in ks)
  }

  lemma SelectsStep<T(!new)>(s: seq<T>, x: T, p: T -> bool, ks: seq<nat>, r: seq<T>)
    requires Selects(s, p, ks, r)
    ensures if p(x) then Selects(s + [x], p, ks + [|s|], r + [x]) else Selects(s + [x], p, ks, r)
  {
    var all := s + [x];
    assert forall i :: 0 <= i < |s| ==> all[i] == s[i];
    if p(x) {
      var more := ks + [|s|];
      assert forall j :: 0 <= j < |ks| ==> more[j] == ks[j];
      forall i | 0 <= i < |all| && p(all[i]) ensures i in more {
        if i < |s| { assert i in ks; } else { assert more[|ks|] == i; }
      }
    }
  }

  /** A filter keeps what satisfies the predicate, all of it, in order. */
  lemma {:induction false} FilterSelects<T(!new)>(s: seq<T>, p: T -> bool) returns (ks: seq<nat>)
    ensures Selects(s, p, ks, Filter(s, p))
  {
    ks := [];
    if s != [] {
      var n := |s| - 1;
      ks := FilterSelects(s[..n], p);
      SelectsStep(s[..n], s[n], p, ks, Filter(s[..n], p));
      assert s == s[..n] + [s[n]];
      if p(s[n]) { ks := ks + [n]; }
      hide Selects;
    }
  }

  lemma FilterOneMore<T>(s: seq<T>, x: T, p: T -> bool)
    ensures Filter(s + [x], p) == Filter(s, p) + if p(x) then [x] else []
  {
    assert (s + [x])[..|s|] == s;
  }

  lemma {:induction false} FilterTwice<T>(s: seq<T>, p: T -> bool, q: T -> bool, both: T -> bool)
    requires forall x :: x in s ==> both(x) == (p(x) && q(x))
    ensures Filter(Filter(s, p), q) == Filter(s, both)
  {
    if s != [] {
      var n := |s| - 1;
      FilterTwice(s[..n], p, q, both);
      FilterOneMore(Filter(s[..n], p), s[n], q);
      assert s[n] in s;
      assert Filter(s, p) == if p(s[n]) then Filter(s[..n], p) + [s[n]] else Filter(s[..n], p);
      assert Filter(s, both) == if both(s[n]) then Filter(s[..n], both) + [s[n]] else Filter(s[..n], both);
    }
  }
}
