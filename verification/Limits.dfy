/** Per-principal work bounds (crates/mem-gateway/src/http.rs): a token bucket and an in-flight
    counter. Token amounts are exact reals. */
module Limits {
  import opened Sorting

  const BURST_CALLS: real := 128.0
  const REFILL_PER_SEC: real := 2.0
  const MAX_CONCURRENT_PER_PRINCIPAL: nat := 2

  // ---- the token bucket ----

  datatype Bucket = Bucket(tokens: real, last: nat)

  function Elapsed(last: nat, now: nat): real {
    (if now >= last then now - last else 0) as real / 1000.0
  }

  function Refilled(b: Bucket, now: nat): real {
    var t := b.tokens + Elapsed(b.last, now) * REFILL_PER_SEC;
    if t <= BURST_CALLS then t else BURST_CALLS
  }

  type Buckets = map<Bytes, Bucket>

  function BucketOf(bs: Buckets, sub: Bytes, now: nat): Bucket {
    if sub in bs then bs[sub] else Bucket(BURST_CALLS, now)
  }

  predicate CanSpend(bs: Buckets, sub: Bytes, calls: nat, now: nat) {
    Refilled(BucketOf(bs, sub, now), now) >= calls as real
  }

  function Spend(bs: Buckets, sub: Bytes, calls: nat, now: nat): Buckets {
    var t := Refilled(BucketOf(bs, sub, now), now);
    bs[sub := Bucket(if CanSpend(bs, sub, calls, now) then t - calls as real else t, now)]
  }

  ghost predicate Bounded(bs: Buckets) {
    forall sub :: sub in bs ==> 0.0 <= bs[sub].tokens <= BURST_CALLS
  }

  datatype Request = Request(sub: Bytes, calls: nat, now: nat)

  function After(bs: Buckets, rs: seq<Request>): Buckets {
    if rs == [] then bs
    else var r := rs[|rs| - 1]; Spend(After(bs, rs[..|rs| - 1]), r.sub, r.calls, r.now)
  }

  /** Calls accepted for one principal. */
  function Accepted(bs: Buckets, rs: seq<Request>, sub: Bytes): nat {
    if rs == [] then 0
    else
      var r := rs[|rs| - 1];
      Accepted(bs, rs[..|rs| - 1], sub) +
      if r.sub == sub && CanSpend(After(bs, rs[..|rs| - 1]), sub, r.calls, r.now) then r.calls else 0
  }

  ghost predicate ClockRuns(rs: seq<Request>) {
    forall i, j :: 0 <= i < j < |rs| ==> rs[i].now <= rs[j].now
  }

  /** The burst, and the refill from `start` to `end`. */
  function Allowance(start: nat, end: nat): real {
    BURST_CALLS + Elapsed(start, end) * REFILL_PER_SEC
  }

  lemma {:induction false} RunsStayBounded(bs: Buckets, rs: seq<Request>)
    requires Bounded(bs)
    ensures Bounded(After(bs, rs))
  {
    if rs != [] { RunsStayBounded(bs, rs[..|rs| - 1]); }
  }

  ghost predicate Calls(rs: seq<Request>, sub: Bytes) {
    exists i :: 0 <= i < |rs| && rs[i].sub == sub
  }

  lemma CallsStep(rs: seq<Request>, sub: Bytes)
    requires rs != []
    ensures Calls(rs, sub) <==> Calls(rs[..|rs| - 1], sub) || rs[|rs| - 1].sub == sub
  {
    assert forall i :: 0 <= i < |rs| - 1 ==> rs[..|rs| - 1][i] == rs[i];
  }

  /** Once the principal has called, what it was granted and what it has left fit the allowance
      from the start of the window to its last call. */
  lemma {:induction false} Potential(bs: Buckets, rs: seq<Request>, sub: Bytes)
    requires Bounded(bs) && ClockRuns(rs)
    ensures
      if !Calls(rs, sub)
      then Accepted(bs, rs, sub) == 0
      else
        && rs != [] && sub in After(bs, rs) && rs[0].now <= After(bs, rs)[sub].last <= rs[|rs| - 1].now
        && Accepted(bs, rs, sub) as real + After(bs, rs)[sub].tokens <= Allowance(rs[0].now, After(bs, rs)[sub].last)
  {
    hide Bounded, Refilled, Allowance, Elapsed, CanSpend, Calls;
    if rs == [] {
      NobodyCalls(sub);
    } else {
      var init, r := rs[..|rs| - 1], rs[|rs| - 1];
      Potential(bs, init, sub);
      RunsStayBounded(bs, init);
      CallsStep(rs, sub);
      var before := After(bs, init);
      if r.sub == sub {
        if !Calls(init, sub) {
          FirstSpend(before, sub, r.calls, rs[0].now, r.now);
        } else {
          LaterSpend(before, sub, r.calls, rs[0].now, r.now, Accepted(bs, init, sub));
        }
      }
    }
  }

  lemma NobodyCalls(sub: Bytes)
    ensures !Calls([], sub)
  {
  }

  lemma FirstSpend(bs: Buckets, sub: Bytes, calls: nat, start: nat, now: nat)
    requires Bounded(bs) && start <= now
    ensures var granted := if CanSpend(bs, sub, calls, now) then calls else 0;
      granted as real + Spend(bs, sub, calls, now)[sub].tokens <= Allowance(start, now)
  {
  }

  lemma LaterSpend(bs: Buckets, sub: Bytes, calls: nat, start: nat, now: nat, granted: nat)
    requires sub in bs && start <= bs[sub].last <= now
    requires granted as real + bs[sub].tokens <= Allowance(start, bs[sub].last)
    ensures var total := granted + if CanSpend(bs, sub, calls, now) then calls else 0;
      total as real + Spend(bs, sub, calls, now)[sub].tokens <= Allowance(start, now)
  {
    AllowanceGrows(start, bs[sub].last, now);
  }

  lemma AllowanceGrows(start: nat, mid: nat, end: nat)
    requires start <= mid <= end
    ensures Allowance(start, end) == Allowance(start, mid) + Elapsed(mid, end) * REFILL_PER_SEC
  {
  }

  /** In any window of a run, from whatever state the run had reached, a principal is granted at
      most a burst of 128 calls plus two calls for every second of the window. */
  lemma WindowBound(bs: Buckets, before: seq<Request>, window: seq<Request>, sub: Bytes)
    requires Bounded(bs) && window != [] && ClockRuns(before + window)
    ensures Accepted(After(bs, before), window, sub) as real <= Rate(window[0].now, window[|window| - 1].now)
  {
    RunsStayBounded(bs, before);
    var reached := After(bs, before);
    forall i, j | 0 <= i < j < |window| ensures window[i].now <= window[j].now {
      assert (before + window)[|before| + i] == window[i] && (before + window)[|before| + j] == window[j];
    }
    Potential(reached, window, sub);
    RunsStayBounded(reached, window);
    if Calls(window, sub) {
      var last := After(reached, window)[sub].last;
      AllowanceGrows(window[0].now, last, window[|window| - 1].now);
    }
  }

  // ---- no call is refused without need ----

  ghost function Rate(start: nat, end: nat): real { 128.0 + 2.0 * (end - start) as real / 1000.0 }

  /** One call, in numbers: the bucket starts with 128 tokens, gains two a second up to 128 and
      never for a clock that went back, and a call is granted exactly when its tokens are there. */
  lemma SpendExactly(bs: Buckets, sub: Bytes, calls: nat, now: nat)
    ensures
      var gained := if sub in bs && bs[sub].last < now then 2.0 * (now - bs[sub].last) as real / 1000.0 else 0.0;
      var had := if sub !in bs || bs[sub].tokens + gained > 128.0 then 128.0 else bs[sub].tokens + gained;
      && (CanSpend(bs, sub, calls, now) <==> calls as real <= had)
      && Spend(bs, sub, calls, now) ==
         bs[sub := Bucket(if calls as real <= had then had - calls as real else had, now)]
  {
  }

  /** The calls granted from request `i` on. */
  ghost function GrantedFrom(bs: Buckets, rs: seq<Request>, i: nat, sub: Bytes): nat
    requires i <= |rs|
  {
    Accepted(After(bs, rs[..i]), rs[i..], sub)
  }

  lemma {:induction false} AfterBoth(bs: Buckets, rs: seq<Request>, i: nat)
    requires i <= |rs|
    ensures After(After(bs, rs[..i]), rs[i..]) == After(bs, rs)
  {
    if i == |rs| {
      assert rs[..i] == rs && rs[i..] == [];
    } else {
      var init := rs[..|rs| - 1];
      AfterBoth(bs, init, i);
      assert init[..i] == rs[..i] && init[i..] == rs[i..][..|rs[i..]| - 1];
    }
  }

  lemma GrantedStep(bs: Buckets, rs: seq<Request>, i: nat, sub: Bytes)
    requires i < |rs|
    ensures var init, r := rs[..|rs| - 1], rs[|rs| - 1];
      GrantedFrom(bs, rs, i, sub) == GrantedFrom(bs, init, i, sub) +
        if r.sub == sub && CanSpend(After(bs, init), sub, r.calls, r.now) then r.calls else 0
  {
    hide CanSpend;
    var init := rs[..|rs| - 1];
    AfterBoth(bs, init, i);
    assert init[..i] == rs[..i] && init[i..] == rs[i..][..|rs[i..]| - 1];
  }

  /** A window that starts at one of the principal's calls and accounts for all it has left. */
  ghost predicate Accounts(bs: Buckets, rs: seq<Request>, i: int, sub: Bytes) {
    && 0 <= i < |rs| && rs[i].sub == sub && sub in After(bs, rs) && rs[i].now <= After(bs, rs)[sub].last
    && After(bs, rs)[sub].tokens + GrantedFrom(bs, rs, i, sub) as real == Rate(rs[i].now, After(bs, rs)[sub].last)
  }

  /** What one call of the principal leaves in its bucket. */
  ghost function Left(bs: Buckets, r: Request): real { Spend(bs, r.sub, r.calls, r.now)[r.sub].tokens }

  ghost function Spent(bs: Buckets, r: Request): nat { if CanSpend(bs, r.sub, r.calls, r.now) then r.calls else 0 }

  ghost predicate Full(bs: Buckets, r: Request) {
    r.sub !in bs || bs[r.sub].tokens + 2.0 * (r.now - bs[r.sub].last) as real / 1000.0 > 128.0
  }

  lemma LeftIs(bs: Buckets, r: Request)
    requires r.sub in bs ==> bs[r.sub].last <= r.now
    ensures Left(bs, r) + Spent(bs, r) as real ==
      if Full(bs, r) then 128.0 else bs[r.sub].tokens + 2.0 * (r.now - bs[r.sub].last) as real / 1000.0
  {
    SpendExactly(bs, r.sub, r.calls, r.now);
  }

  lemma FreshWindow(bs: Buckets, rs: seq<Request>, r: Request)
    requires r.sub in After(bs, rs) ==> After(bs, rs)[r.sub].last <= r.now
    requires Full(After(bs, rs), r)
    ensures Accounts(bs, rs + [r], |rs|, r.sub)
  {
    hide CanSpend, GrantedFrom, Full;
    var all := rs + [r];
    assert all[..|all| - 1] == rs;
    LeftIs(After(bs, rs), r);
    GrantedStep(bs, all, |rs|, r.sub);
    NothingGranted(bs, rs, r.sub);
  }

  lemma CarriedWindow(bs: Buckets, rs: seq<Request>, r: Request, i: nat, sub: Bytes)
    requires Accounts(bs, rs, i, sub)
    requires r.sub == sub ==> After(bs, rs)[sub].last <= r.now && !Full(After(bs, rs), r)
    ensures Accounts(bs, rs + [r], i, sub)
  {
    hide CanSpend, GrantedFrom;
    var all := rs + [r];
    assert all[..|all| - 1] == rs && all[i] == rs[i];
    if r.sub == sub { LeftIs(After(bs, rs), r); }
    GrantedStep(bs, all, i, sub);
  }

  lemma {:induction false} SomeWindowAccounts(bs: Buckets, rs: seq<Request>, sub: Bytes) returns (i: nat)
    requires Bounded(bs) && ClockRuns(rs) && sub !in bs && Calls(rs, sub)
    ensures Accounts(bs, rs, i, sub)
  {
    var init, r := rs[..|rs| - 1], rs[|rs| - 1];
    assert rs == init + [r];
    hide CanSpend, Spend, GrantedFrom, Calls, Bounded, Accounts;
    CallsStep(rs, sub);
    if !Calls(init, sub) {
      Untouched(bs, init, sub);
      i := |init|;
      FreshWindow(bs, init, r);
    } else {
      i := SomeWindowAccounts(bs, init, sub);
      LastIsACall(bs, init, sub);
      if r.sub == sub && Full(After(bs, init), r) {
        i := |init|;
        FreshWindow(bs, init, r);
      } else {
        CarriedWindow(bs, init, r, i, sub);
      }
    }
  }

  lemma NothingGranted(bs: Buckets, rs: seq<Request>, sub: Bytes)
    ensures GrantedFrom(bs, rs, |rs|, sub) == 0
  {
  }

  lemma {:induction false} Untouched(bs: Buckets, rs: seq<Request>, sub: Bytes)
    requires !Calls(rs, sub)
    ensures sub in After(bs, rs) <==> sub in bs
    ensures sub in bs ==> After(bs, rs)[sub] == bs[sub]
  {
    if rs != [] {
      CallsStep(rs, sub);
      Untouched(bs, rs[..|rs| - 1], sub);
    }
  }

  lemma LastIsACall(bs: Buckets, rs: seq<Request>, sub: Bytes)
    requires Bounded(bs) && ClockRuns(rs) && Calls(rs, sub)
    ensures sub in After(bs, rs) && rs[0].now <= After(bs, rs)[sub].last <= rs[|rs| - 1].now
  {
    Potential(bs, rs, sub);
  }

  /** Granting the call `calls` at `now` keeps the window from request `i` within its rate. */
  ghost predicate Fits(bs: Buckets, rs: seq<Request>, i: int, sub: Bytes, calls: nat, now: nat) {
    0 <= i < |rs| && rs[i].now <= now && (GrantedFrom(bs, rs, i, sub) + calls) as real <= Rate(rs[i].now, now)
  }

  /** The limiter grants as much as the rate allows and no more: a principal's call is granted
      exactly when it is no more than a burst and keeps every window that started at one of the
      principal's earlier calls within a burst and two calls a second. */
  lemma GrantedExactly(bs: Buckets, rs: seq<Request>, sub: Bytes, calls: nat, now: nat)
    requires Bounded(bs) && sub !in bs && ClockRuns(rs + [Request(sub, calls, now)])
    ensures CanSpend(After(bs, rs), sub, calls, now) <==>
      calls <= 128 && forall i :: 0 <= i < |rs| && rs[i].sub == sub ==> Fits(bs, rs, i, sub, calls, now)
  {
    hide CanSpend, Spend, Bounded;
    var all := rs + [Request(sub, calls, now)];
    assert forall i :: 0 <= i < |rs| ==> all[i] == rs[i];
    assert forall i :: 0 <= i < |rs| ==> rs[i].now <= all[|rs|].now;
    var st := After(bs, rs);
    SpendExactly(st, sub, calls, now);
    if CanSpend(st, sub, calls, now) {
      forall i | 0 <= i < |rs| && rs[i].sub == sub ensures Fits(bs, rs, i, sub, calls, now) {
        GrantFits(bs, rs, i, sub, calls, now);
      }
    } else if Calls(rs, sub) {
      var i := SomeWindowAccounts(bs, rs, sub);
      LastIsACall(bs, rs, sub);
      if calls <= 128 { assert !Fits(bs, rs, i, sub, calls, now); }
    } else {
      Untouched(bs, rs, sub);
    }
  }

  lemma GrantFits(bs: Buckets, rs: seq<Request>, i: nat, sub: Bytes, calls: nat, now: nat)
    requires Bounded(bs) && ClockRuns(rs + [Request(sub, calls, now)]) && i < |rs|
    requires CanSpend(After(bs, rs), sub, calls, now)
    ensures Fits(bs, rs, i, sub, calls, now)
  {
    hide CanSpend, Bounded, Accepted, After;
    var all := rs + [Request(sub, calls, now)];
    assert all[i] == rs[i] && all[|rs|].now == now && all[i].now <= all[|rs|].now;
    assert all[..|all| - 1] == rs && all == all[..i] + all[i..];
    hide ClockRuns;
    WindowBound(bs, all[..i], all[i..], sub);
    GrantedStep(bs, all, i, sub);
  }

  // ---- the in-flight counter ----

  type Inflight = map<Bytes, nat>

  function Count(m: Inflight, sub: Bytes): nat { if sub in m then m[sub] else 0 }

  predicate CanEnter(m: Inflight, sub: Bytes) { Count(m, sub) < MAX_CONCURRENT_PER_PRINCIPAL }

  function Enter(m: Inflight, sub: Bytes): Inflight {
    if CanEnter(m, sub) then m[sub := Count(m, sub) + 1] else m
  }

  function Leave(m: Inflight, sub: Bytes): Inflight {
    if sub !in m then m
    else if m[sub] <= 1 then m - {sub}
    else m[sub := m[sub] - 1]
  }

  /** The map counts exactly the live guards, and no principal holds more than its share. */
  ghost predicate Counts(m: Inflight, live: multiset<Bytes>) {
    forall sub :: Count(m, sub) == live[sub] <= MAX_CONCURRENT_PER_PRINCIPAL && (sub in m ==> m[sub] > 0)
  }

  /** An arrival, or the release of one of the guards still held. */
  datatype Move = Arrive(sub: Bytes) | Release(sub: Bytes)

  datatype Held = Held(counts: Inflight, live: multiset<Bytes>)

  ghost function Step(h: Held, mv: Move): Held {
    match mv
    case Arrive(sub) => Held(Enter(h.counts, sub), if CanEnter(h.counts, sub) then h.live + multiset{sub} else h.live)
    case Release(sub) => if sub in h.live then Held(Leave(h.counts, sub), h.live - multiset{sub}) else h
  }

  ghost function Moves(h: Held, ms: seq<Move>): Held {
    if ms == [] then h else Step(Moves(h, ms[..|ms| - 1]), ms[|ms| - 1])
  }

  /** In every run the counter equals the number of live guards of the principal, which never
      exceeds two; an arrival is let in exactly when fewer are live. */
  lemma {:induction false} GuardsAreCounted(ms: seq<Move>, sub: Bytes)
    ensures var h := Moves(Held(map[], multiset{}), ms);
      && Counts(h.counts, h.live) && h.live[sub] <= 2 && h.live[sub] == (if sub in h.counts then h.counts[sub] else 0)
      && (CanEnter(h.counts, sub) <==> h.live[sub] < 2)
  {
    hide Counts, Step;
    if ms == [] {
      NoGuards();
    } else {
      GuardsAreCounted(ms[..|ms| - 1], sub);
      StepKeepsCounts(Moves(Held(map[], multiset{}), ms[..|ms| - 1]), ms[|ms| - 1]);
    }
    CountsMean(Moves(Held(map[], multiset{}), ms), sub);
  }

  lemma NoGuards()
    ensures Counts(map[], multiset{})
  {
  }

  lemma CountsMean(h: Held, sub: Bytes)
    requires Counts(h.counts, h.live)
    ensures h.live[sub] <= 2 && (CanEnter(h.counts, sub) <==> h.live[sub] < 2)
    ensures h.live[sub] == if sub in h.counts then h.counts[sub] else 0
  {
  }

  lemma StepKeepsCounts(h: Held, mv: Move)
    requires Counts(h.counts, h.live)
    ensures Counts(Step(h, mv).counts, Step(h, mv).live)
  {
  }

  // ---- the shared object ----

  class ByomLimits {
    var buckets: Buckets
    var inflight: Inflight
    ghost var live: multiset<Bytes>

    ghost predicate Valid()
      reads this
    {
      Bounded(buckets) && Counts(inflight, live)
    }

    constructor ()
      ensures Valid() && buckets == map[] && live == multiset{}
    {
      buckets, inflight, live := map[], map[], multiset{};
    }

    /** Spend from the bucket; a refused call deducts nothing. */
    method TrySpend(sub: Bytes, calls: nat, now: nat) returns (ok: bool)
      requires Valid()
      modifies this`buckets
      ensures Valid() && ok == CanSpend(old(buckets), sub, calls, now)
      ensures buckets == Spend(old(buckets), sub, calls, now)
      ensures !ok && sub in old(buckets) ==> buckets[sub].tokens >= old(buckets[sub].tokens)
      ensures forall other :: other != sub && other in old(buckets) ==>
        other in buckets && buckets[other] == old(buckets[other])
    {
      var b := BucketOf(buckets, sub, now);
      var tokens := Refilled(b, now);
      ok := tokens >= calls as real;
      buckets := buckets[sub := Bucket(if ok then tokens - calls as real else tokens, now)];
    }

    method TryEnter(sub: Bytes) returns (entered: bool)
      requires Valid()
      modifies this`inflight, this`live
      ensures Valid() && entered == (old(live[sub]) < 2)
      ensures live == if entered then old(live) + multiset{sub} else old(live)
    {
      var n := if sub in inflight then inflight[sub] else 0;
      if n >= MAX_CONCURRENT_PER_PRINCIPAL { return false; }
      inflight := inflight[sub := n + 1];
      live := live + multiset{sub};
      entered := true;
    }

    /** A guard of `sub` is dropped. */
    method DropGuard(sub: Bytes)
      requires Valid() && sub in live
      modifies this`inflight, this`live
      ensures Valid() && live == old(live) - multiset{sub}
    {
      if sub in inflight {
        var n := if inflight[sub] >= 1 then inflight[sub] - 1 else 0;
        inflight := if n == 0 then inflight - {sub} else inflight[sub := n];
      }
      live := live - multiset{sub};
    }
  }
}
