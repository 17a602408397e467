/** The bump allocator of `internal/cbm/arena.c`: blocks of doubling size, each handed out from the
    front, in 64-bit `size_t` arithmetic. */
module Arenas {
  import opened Wrappers

  const SIZE_LIMIT: nat := 0x1_0000_0000_0000_0000
  const DEFAULT_BLOCK_SIZE: nat := 65536
  const MAX_BLOCKS: nat := 256
  /** `malloc` never hands out an object of more than `PTRDIFF_MAX` bytes. */
  const MAX_OBJECT: nat := 0x7FFF_FFFF_FFFF_FFFF

  type Size = n: nat | n < SIZE_LIMIT

  /** The sizes of the blocks obtained so far, the size of the newest one, and how much of it is used. */
  datatype State = State(sizes: seq<nat>, blockSize: Size, used: Size)

  /** Bytes handed out: `size` bytes from `offset` in a block, for a request of `asked` bytes. */
  datatype Place = Place(block: nat, offset: nat, size: nat, asked: nat)

  /** One call: how many bytes it asks for, and whether `malloc` would oblige. */
  datatype Request = Request(bytes: Size, willing: bool)

  function Wrap(n: nat): Size {
    n % SIZE_LIMIT
  }

  /** `(n + 7) & ~7`. */
  function RoundUp(n: Size): (r: Size)
    ensures r % 8 == 0
  {
    Wrap(n + 7) / 8 * 8
  }

  predicate Granted(size: nat, willing: bool) {
    willing && size <= MAX_OBJECT
  }

  // ---- specification ----

  function Init(willing: bool): State {
    State(if Granted(DEFAULT_BLOCK_SIZE, willing) then [DEFAULT_BLOCK_SIZE] else [], DEFAULT_BLOCK_SIZE, 0)
  }

  function Grow(s: State, min: Size, willing: bool): Option<State> {
    var doubled := Wrap(s.blockSize * 2);
    var size := if doubled < min then min else doubled;
    if |s.sizes| >= MAX_BLOCKS || !Granted(size, willing) then None
    else Some(State(s.sizes + [size], size, 0))
  }

  /** The state a request leaves and the place it gets. */
  function Alloc(s: State, r: Request): (State, Option<Place>) {
    var n := RoundUp(r.bytes);
    if r.bytes == 0 || |s.sizes| == 0 then (s, None)
    else
      var roomy := if Wrap(s.used + n) > s.blockSize then Grow(s, n, r.willing) else Some(s);
      if roomy.None? then (s, None)
      else
        var t := roomy.value;
        (t.(used := Wrap(t.used + n)), Some(Place(|t.sizes| - 1, t.used, n, r.bytes)))
  }

  /** A request whose arithmetic does not overflow. */
  predicate Safe(s: State, bytes: Size) {
    bytes + 7 < SIZE_LIMIT && s.used + RoundUp(bytes) < SIZE_LIMIT
  }

  /** Every state the allocator can be in, whatever was asked of it. */
  ghost predicate Valid(s: State) {
    && (forall k :: 0 <= k < |s.sizes| ==> s.sizes[k] <= MAX_OBJECT)
    && (|s.sizes| > 0 ==> s.sizes[|s.sizes| - 1] == s.blockSize)
    && s.used <= s.blockSize <= MAX_OBJECT && s.used % 8 == 0 && |s.sizes| <= MAX_BLOCKS
  }

  ghost predicate InBounds(s: State, p: Place, bytes: nat) {
    p.block < |s.sizes| && p.offset + bytes <= s.sizes[p.block]
  }

  lemma RoundUpIsCeiling(n: Size)
    requires n + 7 < SIZE_LIMIT
    ensures n <= RoundUp(n) < n + 8
  {
  }

  lemma RoundUpWrapped(n: Size)
    requires n + 7 >= SIZE_LIMIT
    ensures RoundUp(n) == 0
  {
    assert Wrap(n + 7) == n + 7 - SIZE_LIMIT;
  }

  lemma SumStaysAligned(a: Size, b: Size)
    requires a % 8 == 0 && b % 8 == 0
    ensures Wrap(a + b) % 8 == 0
    ensures Wrap(a + b) == if a + b < SIZE_LIMIT then a + b else a + b - SIZE_LIMIT
  {
  }

  lemma AllocStaysValid(s: State, r: Request)
    requires Valid(s)
    ensures Valid(Alloc(s, r).0) && s.sizes <= Alloc(s, r).0.sizes
  {
    var n := RoundUp(r.bytes);
    SumStaysAligned(s.used, n);
    hide RoundUp;
    if Wrap(s.used + n) > s.blockSize {
      SumStaysAligned(0, n);
    }
  }

  /** A place holds the bytes asked for exactly when the request's arithmetic did not overflow. */
  lemma InBoundsIffSafe(s: State, r: Request)
    requires Valid(s) && Alloc(s, r).1.Some?
    ensures InBounds(Alloc(s, r).0, Alloc(s, r).1.value, r.bytes) <==> Safe(s, r.bytes)
  {
    var n := RoundUp(r.bytes);
    AllocStaysValid(s, r);
    if r.bytes + 7 >= SIZE_LIMIT {
      RoundUpWrapped(r.bytes);
    } else {
      RoundUpIsCeiling(r.bytes);
      if s.used + n >= SIZE_LIMIT { assert Wrap(s.used + n) == s.used + n - SIZE_LIMIT; }
    }
  }

  /** What a request gets when nothing overflows: the next bytes of the newest block if they suffice;
      otherwise the start of a new block, twice as large as the last or as large as it takes; and
      nothing if `malloc` refuses that one, or the table is full. */
  lemma AllocExact(s: State, r: Request)
    requires Valid(s) && s.sizes != [] && r.bytes > 0
    requires r.bytes + 7 < SIZE_LIMIT && s.used + (r.bytes + 7) / 8 * 8 < SIZE_LIMIT
    ensures var n := (r.bytes + 7) / 8 * 8;
            var bigger := if 2 * s.blockSize < n then n else 2 * s.blockSize;
            Alloc(s, r) ==
            if s.used + n <= s.blockSize then
              (State(s.sizes, s.blockSize, s.used + n), Some(Place(|s.sizes| - 1, s.used, n, r.bytes)))
            else if |s.sizes| < 256 && r.willing && bigger <= 0x7FFF_FFFF_FFFF_FFFF then
              (State(s.sizes + [bigger], bigger, n), Some(Place(|s.sizes|, 0, n, r.bytes)))
            else (s, None)
  {
    var n := (r.bytes + 7) / 8 * 8;
    assert RoundUp(r.bytes) == n && n < SIZE_LIMIT;
    assert Wrap(s.used + n) == s.used + n && Wrap(s.blockSize * 2) == s.blockSize * 2;
    assert Wrap(0 + n) == n;
    hide RoundUp, Wrap;
  }

  /** What it gets when something does: rounding up wraps to zero bytes, or the used mark is wound
      back, and in either case the newest block is taken to be large enough. */
  lemma OverflowExact(s: State, r: Request)
    requires Valid(s) && s.sizes != []
    ensures r.bytes + 7 >= SIZE_LIMIT ==> Alloc(s, r) == (s, Some(Place(|s.sizes| - 1, s.used, 0, r.bytes)))
    ensures var n := (r.bytes + 7) / 8 * 8;
            r.bytes + 7 < SIZE_LIMIT && s.used + n >= SIZE_LIMIT ==>
              Alloc(s, r) == (State(s.sizes, s.blockSize, s.used + n - SIZE_LIMIT),
                              Some(Place(|s.sizes| - 1, s.used, n, r.bytes)))
  {
    if r.bytes + 7 >= SIZE_LIMIT {
      RoundUpWrapped(r.bytes);
    } else {
      assert RoundUp(r.bytes) == (r.bytes + 7) / 8 * 8;
      SumStaysAligned(s.used, RoundUp(r.bytes));
    }
    hide RoundUp;
  }

  // ---- whole runs ----

  /** The state after a list of requests, and the places handed out, in order. */
  function Run(s: State, requests: seq<Request>): (State, seq<Place>) {
    if requests == [] then (s, [])
    else
      var (t, places) := Run(s, requests[..|requests| - 1]);
      var (u, p) := Alloc(t, requests[|requests| - 1]);
      (u, if p.None? then places else places + [p.value])
  }

  lemma RunStep(s: State, before: seq<Request>, r: Request)
    ensures var t, places := Run(s, before).0, Run(s, before).1;
            var u, p := Alloc(t, r).0, Alloc(t, r).1;
            && Run(s, before + [r]).0 == u
            && Run(s, before + [r]).1 == (if p.None? then places else places + [p.value])
            && (SafeRun(s, before + [r]) <==> SafeRun(s, before) && (|t.sizes| == 0 || Safe(t, r.bytes)))
  {
    assert (before + [r])[..|before|] == before;
    hide Alloc, Safe;
  }

  /** Every request, once there is a block, was free of overflow. */
  ghost predicate SafeRun(s: State, requests: seq<Request>) {
    requests == []
    || (&& SafeRun(s, requests[..|requests| - 1])
        && var t := Run(s, requests[..|requests| - 1]).0;
           var r := requests[|requests| - 1];
           |t.sizes| == 0 || Safe(t, r.bytes))
  }

  /** Overflow is never a reason to refuse: it makes a request look small enough for the newest
      block. So "no overflow once there is a block" and "no overflow when granted" are the same. */
  lemma OverflowIsGranted(s: State, r: Request)
    requires Valid(s)
    ensures |s.sizes| == 0 || Safe(s, r.bytes) <==> (Alloc(s, r).1.Some? ==> Safe(s, r.bytes))
  {
    var n := RoundUp(r.bytes);
    SumStaysAligned(s.used, n);
    if r.bytes + 7 >= SIZE_LIMIT {
      RoundUpWrapped(r.bytes);
    } else {
      RoundUpIsCeiling(r.bytes);
    }
    hide RoundUp;
  }

  predicate Apart(p: Place, q: Place) {
    p.block != q.block || p.offset + p.size <= q.offset || q.offset + q.size <= p.offset
  }

  ghost predicate Placed(s: State, p: Place) {
    && p.offset % 8 == 0 && 0 < p.asked <= p.size
    && InBounds(s, p, p.size)
  }

  /** In bounds, at multiples of eight, large enough, and no two overlapping. */
  ghost predicate WellPlaced(s: State, places: seq<Place>) {
    && (forall i :: 0 <= i < |places| ==> Placed(s, places[i]))
    && (forall i, j :: 0 <= i < j < |places| ==> Apart(places[i], places[j]))
  }

  /** The places of the newest block lie below its used mark. */
  ghost predicate Below(s: State, places: seq<Place>) {
    forall i :: 0 <= i < |places| ==>
      places[i].block < |s.sizes| && (places[i].block == |s.sizes| - 1 ==> places[i].offset + places[i].size <= s.used)
  }

  lemma {:induction false} RunStaysValid(s: State, requests: seq<Request>)
    requires Valid(s)
    ensures Valid(Run(s, requests).0)
  {
    if requests != [] {
      RunStaysValid(s, requests[..|requests| - 1]);
      AllocStaysValid(Run(s, requests[..|requests| - 1]).0, requests[|requests| - 1]);
      hide Alloc, Valid;
    }
  }

  /** A safe request lands in the newest block at or above the old used mark of that block. */
  lemma SafeAlloc(s: State, r: Request)
    requires Valid(s) && Alloc(s, r).1.Some? && Safe(s, r.bytes)
    ensures var t := Alloc(s, r).0;
            var p := Alloc(s, r).1.value;
            && Placed(t, p) && p.block == |t.sizes| - 1 && t.used == p.offset + p.size
            && (t.sizes == s.sizes ==> p.offset == s.used) && s.sizes <= t.sizes
  {
    RoundUpIsCeiling(r.bytes);
    hide RoundUp;
  }

  lemma StepKeepsApart(s: State, places: seq<Place>, r: Request)
    requires Valid(s) && WellPlaced(s, places) && Below(s, places)
    requires Alloc(s, r).1.Some? && Safe(s, r.bytes)
    ensures WellPlaced(Alloc(s, r).0, places + [Alloc(s, r).1.value])
    ensures Below(Alloc(s, r).0, places + [Alloc(s, r).1.value])
  {
    SafeAlloc(s, r);
    hide Alloc, Valid, Safe;
  }

  /** Over every run whose requests do not overflow, what is handed out is in bounds,
      aligned and pairwise disjoint. */
  lemma {:induction false} RunKeepsApart(s: State, requests: seq<Request>)
    requires Valid(s) && SafeRun(s, requests)
    ensures WellPlaced(Run(s, requests).0, Run(s, requests).1)
    ensures Below(Run(s, requests).0, Run(s, requests).1)
  {
    if requests != [] {
      var before := requests[..|requests| - 1];
      RunKeepsApart(s, before);
      RunStaysValid(s, before);
      var t, places := Run(s, before).0, Run(s, before).1;
      var r := requests[|requests| - 1];
      if Alloc(t, r).1.Some? {
        StepKeepsApart(t, places, r);
      } else {
        assert Alloc(t, r).0 == t;
      }
      hide Alloc, Valid, Safe, WellPlaced, Below;
    }
  }

  ghost predicate KnownBlocks(s: State, places: seq<Place>) {
    forall i :: 0 <= i < |places| ==> places[i].block < |s.sizes|
  }

  /** Later requests neither move nor drop a place handed out before, nor the block it is in. */
  lemma {:induction false} RunOnlyAdds(s: State, requests: seq<Request>, k: nat)
    requires Valid(s) && k <= |requests|
    ensures Run(s, requests[..k]).1 <= Run(s, requests).1
    ensures Run(s, requests[..k]).0.sizes <= Run(s, requests).0.sizes
    ensures KnownBlocks(Run(s, requests).0, Run(s, requests).1)
  {
    if requests == [] {
      assert requests[..k] == requests;
    } else {
      var before := requests[..|requests| - 1];
      RunStaysValid(s, before);
      AllocStaysValid(Run(s, before).0, requests[|requests| - 1]);
      if k == |requests| {
        RunOnlyAdds(s, before, 0);
        assert requests[..k] == requests;
      } else {
        RunOnlyAdds(s, before, k);
        assert before[..k] == requests[..k];
      }
      hide Valid;
    }
  }

  /** And only then: one granted request that overflows leaves something badly placed. */
  lemma {:induction false} WellPlacedOnlyIfSafe(s: State, requests: seq<Request>)
    requires Valid(s) && WellPlaced(Run(s, requests).0, Run(s, requests).1)
    ensures SafeRun(s, requests)
  {
    if requests != [] {
      var before := requests[..|requests| - 1];
      var r := requests[|requests| - 1];
      var t, places := Run(s, before).0, Run(s, before).1;
      var u, all := Run(s, requests).0, Run(s, requests).1;
      RunStaysValid(s, before);
      RunOnlyAdds(s, before, 0);
      AllocStaysValid(t, r);
      assert places <= all && t.sizes <= u.sizes;
      forall i | 0 <= i < |places| ensures Placed(t, places[i]) {
        assert places[i] == all[i] && Placed(u, all[i]);
      }
      forall i, j | 0 <= i < j < |places| ensures Apart(places[i], places[j]) {
        assert Apart(all[i], all[j]);
      }
      WellPlacedOnlyIfSafe(s, before);
      if Alloc(t, r).1.Some? {
        assert Placed(u, all[|places|]);
        InBoundsIffSafe(t, r);
      }
      OverflowIsGranted(t, r);
      hide Alloc, Valid, Safe;
    }
  }

  lemma WellPlacedIffSafe(willing: bool, requests: seq<Request>)
    ensures SafeRun(Init(willing), requests) <==>
            WellPlaced(Run(Init(willing), requests).0, Run(Init(willing), requests).1)
  {
    var s := Init(willing);
    if SafeRun(s, requests) { RunKeepsApart(s, requests); }
    if WellPlaced(Run(s, requests).0, Run(s, requests).1) { WellPlacedOnlyIfSafe(s, requests); }
  }

  lemma HugeRequest(s0: State, s1: State, r: Request, huge: Request)
    requires s0 == Init(true) && s1 == State([65536], 65536, 8)
    requires r == Request(8, true) && huge == Request(SIZE_LIMIT - 8, true)
    ensures Alloc(s0, r) == (s1, Some(Place(0, 0, 8, 8)))
    ensures Alloc(s1, huge) == (s0, Some(Place(0, 8, SIZE_LIMIT - 8, SIZE_LIMIT - 8))) && !Safe(s1, huge.bytes)
  {
    assert RoundUp(SIZE_LIMIT - 8) == SIZE_LIMIT - 8 && RoundUp(8) == 8;
  }

  /** Why the condition is there: an overflowing request is given bytes past the end of its block
      and winds the used mark back, so that the next request gets the very bytes of the first. */
  lemma OverflowOverlaps(requests: seq<Request>)
    requires requests == [Request(8, true), Request(SIZE_LIMIT - 8, true), Request(8, true)]
    ensures !SafeRun(Init(true), requests)
    ensures Run(Init(true), requests).1 ==
            [Place(0, 0, 8, 8), Place(0, 8, SIZE_LIMIT - 8, SIZE_LIMIT - 8), Place(0, 0, 8, 8)]
  {
    var s0, s1 := Init(true), State([65536], 65536, 8);
    var r, huge := Request(8, true), Request(SIZE_LIMIT - 8, true);
    var p, q := Place(0, 0, 8, 8), Place(0, 8, SIZE_LIMIT - 8, SIZE_LIMIT - 8);
    HugeRequest(s0, s1, r, huge);
    assert Run(s0, []).0 == s0 && Run(s0, []).1 == [];
    hide *;
    var none: seq<Request> := [];
    RunStep(s0, none, r);
    RunStep(s0, [r], huge);
    RunStep(s0, [r, huge], r);
    assert none + [r] == [r] && [r] + [huge] == [r, huge] && [r, huge] + [r] == requests;
    assert Run(s0, [r]).0 == s1 && Run(s0, [r]).1 == [p];
    assert Run(s0, [r, huge]).0 == s0 && Run(s0, [r, huge]).1 == [p, q];
    assert [p, q] + [p] == [p, q, p];
  }

  // ---- how much memory is reserved ----

  function Sum(sizes: seq<nat>): nat {
    if sizes == [] then 0 else Sum(sizes[..|sizes| - 1]) + sizes[|sizes| - 1]
  }

  /** The rounded-up bytes handed out. */
  function Total(places: seq<Place>): nat {
    if places == [] then 0 else Total(places[..|places| - 1]) + places[|places| - 1].size
  }

  function Power(k: nat): nat {
    if k == 0 then 1 else 2 * Power(k - 1)
  }

  /** Blocks double, so all of them together are less than twice the newest, which has grown beyond
      its first size only because that much was asked for. */
  ghost predicate Amortised(s: State, total: nat) {
    && Valid(s) && s.used <= total
    && (|s.sizes| == 0 || DEFAULT_BLOCK_SIZE * Power(|s.sizes| - 1) <= s.blockSize)
    && (|s.sizes| > 0 ==> Sum(s.sizes) < 2 * s.blockSize)
    && (|s.sizes| == 1 ==> Sum(s.sizes) == DEFAULT_BLOCK_SIZE)
    && (|s.sizes| > 1 ==> s.blockSize <= 2 * total)
  }

  lemma GrownState(s: State, r: Request)
    requires Valid(s)
    ensures var t := Alloc(s, r).0;
            var p := Alloc(s, r).1;
            || (p.None? && t == s)
            || (p.Some? && t.sizes == s.sizes && t.blockSize == s.blockSize && t.used <= s.used + p.value.size)
            || (&& p.Some? && |s.sizes| > 0 && t.sizes == s.sizes + [t.blockSize]
                && t.used == p.value.size && s.blockSize < s.used + p.value.size
                && 2 * s.blockSize <= t.blockSize && (t.blockSize == 2 * s.blockSize || t.blockSize == p.value.size))
  {
    SumStaysAligned(s.used, RoundUp(r.bytes));
    assert Wrap(s.blockSize * 2) == s.blockSize * 2;
    hide RoundUp;
  }

  lemma AmortisedStep(s: State, total: nat, r: Request)
    requires Amortised(s, total)
    ensures var p := Alloc(s, r).1;
            Amortised(Alloc(s, r).0, if p.None? then total else total + p.value.size)
  {
    AllocStaysValid(s, r);
    GrownState(s, r);
    var t := Alloc(s, r).0;
    hide Alloc, Valid;
    if t.sizes == s.sizes + [t.blockSize] {
      assert t.sizes[..|t.sizes| - 1] == s.sizes;
      assert Sum(t.sizes) == Sum(s.sizes) + t.blockSize;
      assert Power(|t.sizes| - 1) == 2 * Power(|s.sizes| - 1);
      hide Sum, Power;
    }
  }

  lemma {:induction false} RunAmortised(willing: bool, requests: seq<Request>)
    ensures Amortised(Run(Init(willing), requests).0, Total(Run(Init(willing), requests).1))
  {
    if requests == [] {
      assert Sum([DEFAULT_BLOCK_SIZE]) == DEFAULT_BLOCK_SIZE;
    } else {
      var before := requests[..|requests| - 1];
      var r := requests[|requests| - 1];
      RunAmortised(willing, before);
      var t, places := Run(Init(willing), before).0, Run(Init(willing), before).1;
      AmortisedStep(t, Total(places), r);
      var p := Alloc(t, r).1;
      if p.Some? {
        assert (places + [p.value])[..|places|] == places;
        assert Total(places + [p.value]) == Total(places) + p.value.size;
      }
      hide Alloc, Amortised, Total;
    }
  }

  /** Whatever is asked for: the memory reserved stays within four times what was handed out (or one
      default block), and the number of blocks is logarithmic in it. */
  lemma ReservedIsAmortised(willing: bool, requests: seq<Request>)
    ensures var (s, places) := Run(Init(willing), requests);
            && Sum(s.sizes) < Max(DEFAULT_BLOCK_SIZE + 1, 4 * Total(places))
            && (|s.sizes| > 0 ==>
                DEFAULT_BLOCK_SIZE * Power(|s.sizes| - 1) <= Max(DEFAULT_BLOCK_SIZE, 2 * Total(places)))
  {
    RunAmortised(willing, requests);
    hide Run, Total, Valid;
  }

  function Max(a: nat, b: nat): nat {
    if a < b then b else a
  }

  lemma {:induction false} PowerGrows(j: nat, k: nat)
    requires j <= k
    ensures Power(j) <= Power(k)
  {
    if j < k { PowerGrows(j, k - 1); }
  }

  lemma PowerAdds(j: nat, k: nat)
    ensures Power(j + k) == Power(j) * Power(k)
  {
    if j > 0 {
      PowerAdds(j - 1, k);
      assert j - 1 + k == j + k - 1;
    }
  }

  lemma PowerOf47()
    ensures Power(47) == 140737488355328
  {
    assert Power(3) == 8 && Power(4) == 16;
    hide Power;
    PowerAdds(4, 4);
    PowerAdds(8, 8);
    PowerAdds(16, 16);
    assert Power(32) == 4294967296;
    PowerAdds(8, 4);
    PowerAdds(12, 3);
    PowerAdds(32, 15);
  }

  /** The table of 256 blocks never fills up: at most 47 blocks can ever be obtained. */
  lemma TableNeverFull(willing: bool, requests: seq<Request>)
    ensures |Run(Init(willing), requests).0.sizes| <= 47
  {
    RunAmortised(willing, requests);
    var s := Run(Init(willing), requests).0;
    hide Run;
    if |s.sizes| > 47 {
      PowerGrows(47, |s.sizes| - 1);
      PowerOf47();
    }
  }

  /** A string that exists, with its terminator, is always a safe request. */
  lemma SafeString(s: State, len: nat, willing: bool)
    requires Valid(s) && len <= MAX_OBJECT && Alloc(s, Request(len + 1, willing)).1.Some?
    ensures Safe(s, len + 1)
    ensures Placed(Alloc(s, Request(len + 1, willing)).0, Alloc(s, Request(len + 1, willing)).1.value)
  {
    RoundUpIsCeiling(len + 1);
    hide Alloc, RoundUp;
    SafeAlloc(s, Request(len + 1, willing));
  }

  /** The bytes asked for, each request rounded up to a multiple of eight. */
  function Asked(requests: seq<Request>): nat {
    if requests == [] then 0 else Asked(requests[..|requests| - 1]) + (requests[|requests| - 1].bytes + 7) / 8 * 8
  }

  /** A willing `malloc` makes a willing arena: as long as requests stay within 2^61 bytes together,
      none is refused, and each gets what it asked for. */
  lemma {:induction false} NothingRefused(requests: seq<Request>)
    requires forall k :: 0 <= k < |requests| ==> requests[k].willing && requests[k].bytes > 0
    requires Asked(requests) <= 0x2000_0000_0000_0000
    ensures var places := Run(Init(true), requests).1;
            && |places| == |requests| && Total(places) == Asked(requests)
            && forall k :: 0 <= k < |places| ==> places[k].asked == requests[k].bytes
  {
    if requests != [] {
      var n := |requests| - 1;
      var before, r := requests[..n], requests[n];
      NothingRefused(before);
      var t, places := Run(Init(true), before).0, Run(Init(true), before).1;
      RunAmortised(true, before);
      TableNeverFull(true, before);
      RunOnlyAdds(Init(true), before, 0);
      assert Run(Init(true), []).0 == Init(true) && before[..0] == [];
      WillingStep(t, Total(places), r);
      hide Alloc, Total, Amortised;
      var p := Alloc(t, r).1.value;
      assert requests == before + [r];
      RunStep(Init(true), before, r);
      TotalStep(places, p);
    }
  }

  lemma TotalStep(places: seq<Place>, p: Place)
    ensures Total(places + [p]) == Total(places) + p.size
  {
    assert (places + [p])[..|places|] == places;
  }

  lemma WillingStep(s: State, total: nat, r: Request)
    requires Amortised(s, total) && s.sizes != [] && |s.sizes| < 256 && r.willing && r.bytes > 0
    requires total + (r.bytes + 7) / 8 * 8 <= 0x2000_0000_0000_0000
    ensures var p := Alloc(s, r).1;
            p.Some? && p.value.asked == r.bytes && p.value.size == (r.bytes + 7) / 8 * 8
  {
    AllocExact(s, r);
    assert |s.sizes| == 1 ==> Sum(s.sizes) == s.blockSize by {
      if |s.sizes| == 1 { assert s.sizes[..0] == []; }
    }
    hide Alloc, Sum;
  }

  lemma OutsideSlice(a: seq<char>, b: seq<char>, at: nat, n: nat, lo: nat, hi: nat)
    requires |a| == |b| && lo <= hi <= |a| && (hi <= at || at + n <= lo)
    requires forall k :: 0 <= k < |a| && !(at <= k < at + n) ==> a[k] == b[k]
    ensures a[lo..hi] == b[lo..hi]
  {
  }

  // ---- the allocator itself ----

  /** `memcpy` of a string prefix, and its terminator. */
  method CopyString(block: array<char>, at: nat, s: seq<char>, len: nat)
    requires len <= |s| && at + len < block.Length
    modifies block
    ensures block[at..at + len + 1] == s[..len] + ['\0']
    ensures forall k :: 0 <= k < block.Length && !(at <= k < at + len + 1) ==> block[k] == old(block[k])
  {
    for i := 0 to len
      invariant block[at..at + i] == s[..i]
      invariant forall k :: 0 <= k < block.Length && !(at <= k < at + i) ==> block[k] == old(block[k])
    {
      block[at + i] := s[i];
    }
    block[at + len] := '\0';
  }

  /** `CBMArena`. A pointer into it is a block and an offset; the bytes are characters. */
  class Arena {
    var blocks: seq<array<char>>
    var blockSize: Size
    var used: Size

    ghost function Snapshot(): State
      reads this
    {
      State(seq(|blocks|, i requires 0 <= i < |blocks| reads this => blocks[i].Length), blockSize, used)
    }

    /** No two blocks are the same memory. */
    ghost predicate Separate()
      reads this`blocks
    {
      forall i, j :: 0 <= i < j < |blocks| ==> blocks[i] != blocks[j]
    }

    /** The bytes of a place. */
    function Text(p: Place): seq<char>
      requires p.block < |blocks| && p.offset + p.size <= blocks[p.block].Length
      reads this`blocks, if p.block < |blocks| then {blocks[p.block]} else {}
    {
      blocks[p.block][p.offset..p.offset + p.size]
    }

    constructor (willing: bool)
      ensures Snapshot() == Init(willing) && Separate() && forall b :: b in blocks ==> fresh(b)
      ensures |blocks| == (if willing then 1 else 0) && (willing ==> blocks[0].Length == 65536)
    {
      blockSize, used := DEFAULT_BLOCK_SIZE, 0;
      if Granted(DEFAULT_BLOCK_SIZE, willing) {
        var block := new char[DEFAULT_BLOCK_SIZE];
        blocks := [block];
      } else {
        blocks := [];
      }
      new;
      assert Snapshot().sizes == Init(willing).sizes;
    }

    method GrowBlocks(min: Size, willing: bool) returns (grown: bool)
      requires Separate()
      modifies this
      ensures Separate() && old(blocks) <= blocks && forall b :: b in blocks[|old(blocks)|..] ==> fresh(b)
      ensures grown == Grow(old(Snapshot()), min, willing).Some?
      ensures Snapshot() == if grown then Grow(old(Snapshot()), min, willing).value else old(Snapshot())
      // the new block is twice as large as the last, or as large as it takes
      ensures var size := if (2 * old(blockSize)) % SIZE_LIMIT < min then min else (2 * old(blockSize)) % SIZE_LIMIT;
              && (grown <==> |old(blocks)| < 256 && willing && size <= 0x7FFF_FFFF_FFFF_FFFF)
              && (grown ==> |blocks| == |old(blocks)| + 1 && used == 0
                            && blocks[|old(blocks)|].Length == blockSize == size)
    {
      if |blocks| >= MAX_BLOCKS { return false; }
      var size := Wrap(blockSize * 2);
      if size < min { size := min; }
      if !Granted(size, willing) { return false; }
      var block := new char[size];
      blocks := blocks + [block];
      blockSize := size;
      used := 0;
      assert Snapshot().sizes == old(Snapshot()).sizes + [size];
      return true;
    }

    method Reserve(bytes: Size, willing: bool) returns (p: Option<Place>)
      requires Separate()
      modifies this
      ensures Separate() && old(blocks) <= blocks && forall b :: b in blocks[|old(blocks)|..] ==> fresh(b)
      ensures Snapshot() == Alloc(old(Snapshot()), Request(bytes, willing)).0
      ensures p == Alloc(old(Snapshot()), Request(bytes, willing)).1
    {
      if bytes == 0 { return None; }
      var n := RoundUp(bytes);
      if |blocks| == 0 { return None; }
      if Wrap(used + n) > blockSize {
        var grown := GrowBlocks(n, willing);
        if !grown { return None; }
      }
      p := Some(Place(|blocks| - 1, used, n, bytes));
      used := Wrap(used + n);
    }

    /** Write a string and its terminator into a place of its own. */
    method Fill(p: Place, s: seq<char>, len: nat)
      requires Separate() && Placed(Snapshot(), p) && len <= |s| && p.asked == len + 1
      modifies blocks[p.block]
      ensures Text(p)[..len + 1] == s[..len] + ['\0']
      ensures forall q: Place | q.block < |blocks| && q.offset + q.size <= blocks[q.block].Length ::
                Apart(q, p) ==> Text(q) == old(Text(q))
    {
      var block := blocks[p.block];
      ghost var was := block[..];
      CopyString(block, p.offset, s, len);
      hide Snapshot, Placed, InBounds;
      forall q: Place | q.block < |blocks| && q.offset + q.size <= blocks[q.block].Length && Apart(q, p)
        ensures Text(q) == old(Text(q))
      {
        if q.block == p.block { OutsideSlice(was, block[..], p.offset, p.size, q.offset, q.offset + q.size); }
      }
    }

    /** Copying a string of a given length needs no care about overflow: a string that exists is
        small enough. The copy is terminated, and no byte outside its place changes. */
    method Strndup(s: Option<seq<char>>, len: nat, willing: bool) returns (p: Option<Place>)
      requires Separate() && Valid(Snapshot())
      requires s.Some? ==> len <= |s.value| <= MAX_OBJECT
      modifies this, blocks
      ensures Separate() && old(blocks) <= blocks && forall b :: b in blocks[|old(blocks)|..] ==> fresh(b)
      ensures s.None? ==> p.None? && Snapshot() == old(Snapshot())
      ensures s.Some? ==> Snapshot() == Alloc(old(Snapshot()), Request(len + 1, willing)).0
      ensures s.Some? ==> p == Alloc(old(Snapshot()), Request(len + 1, willing)).1
      ensures p.Some? ==> Placed(Snapshot(), p.value) && Text(p.value)[..len + 1] == s.value[..len] + ['\0']
      ensures forall q: Place | q.block < |old(blocks)| && q.offset + q.size <= old(blocks)[q.block].Length ::
                p.None? || Apart(q, p.value) ==> Text(q) == old(Text(q))
    {
      if s.None? { return None; }
      p := Reserve(len + 1, willing);
      if p.Some? {
        SafeString(old(Snapshot()), len, willing);
        ghost var k := p.value.block;
        assert blocks[k] in old(blocks) || fresh(blocks[k]) by {
          assert k < |old(blocks)| ==> blocks[k] == old(blocks)[k] && blocks[k] in old(blocks);
          assert k >= |old(blocks)| ==> blocks[k] == blocks[|old(blocks)|..][k - |old(blocks)|];
          assert k >= |old(blocks)| ==> blocks[k] in blocks[|old(blocks)|..];
        }
        hide Alloc, Valid;
        Fill(p.value, s.value, len);
      }
    }

    /** Give every block back. Nothing can be had from the arena afterwards. */
    method Destroy()
      modifies this
      ensures Snapshot() == State([], 0, 0)
      ensures forall r :: Alloc(Snapshot(), r) == (Snapshot(), None)
    {
      blocks, blockSize, used := [], 0, 0;
      assert Snapshot().sizes == [];
    }
  }
}
