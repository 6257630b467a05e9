/** Runs of the block cache: any sequence of requests by clients that keep to the rules. */
module BcacheRuns {
  import opened Common
  import opened BcacheState
  import opened BlockCache

  /** What clients ask for, by block number. */
  datatype Request<D> =
    | Get(blkno: nat)
    | Change(blkno: nat, v: D)
    | Flag(blkno: nat)
    | LetGo(blkno: nat)
    | Flush

  /** The calls by which a request can be served. */
  ghost predicate Serves<B, D>(l: Ledger<B, D>, request: Request<D>, call: Call<B, D>) {
    match request
    case Get(k) => call.GetCall? && call.blkno == k
    case Change(k, v) => call.MutateCall? && HeldAs(l, call.b, k) && call.v == v
    case Flag(k) => call.DirtyCall? && HeldAs(l, call.b, k)
    case LetGo(k) => call.ReleaseCall? && HeldAs(l, call.b, k)
    case Flush => call.FlushCall?
  }

  ghost predicate HeldAs<B, D>(l: Ledger<B, D>, b: B, k: nat) {
    b in l.held && l.held[b].blkno == k
  }

  /** Whether the rules allow to serve a request. */
  ghost predicate Permitted<B, D>(l: Ledger<B, D>, request: Request<D>) {
    match request
    case Get(k) => k in l.blocks
    case LetGo(k) => exists b <- l.held :: HeldAs(l, b, k) && (l.held[b].refs == 1 ==> b !in l.unflagged)
    case Flush => true
    case _ => exists b <- l.held :: HeldAs(l, b, request.blkno)
  }

  /** The clients know what they hold, the blocks by number, and those they have changed. */
  ghost predicate Tracks<D>(l: Ledger<Blk<D>, D>, mine: map<nat, Blk<D>>, changed: set<Blk<D>>) {
    && changed == l.unflagged
    && (forall k <- mine :: HeldAs(l, mine[k], k))
    && (forall b <- l.held :: l.held[b].blkno in mine && mine[l.held[b].blkno] == b)
  }

  /** The call was allowed, had its effect, and is noted. */
  ghost predicate Made<D>(l: Ledger<Blk<D>, D>, request: Request<D>, call: Call<Blk<D>, D>, before: Cache<Blk<D>, D>,
                          after: Cache<Blk<D>, D>, capacity: nat, mine: map<nat, Blk<D>>, changed: set<Blk<D>>) {
    && CacheOk(before) && Serves(l, request, call) && Allowed(l, call) && Effect(before, after, capacity, call)
    && Tracks(Noted(l, call), mine, changed)
  }

  /** A request about a block that is held or not. */
  lemma WhenPermitted<D>(l: Ledger<Blk<D>, D>, request: Request<D>, mine: map<nat, Blk<D>>, changed: set<Blk<D>>)
    requires Tracks(l, mine, changed) && (request.Change? || request.Flag? || request.LetGo?)
    ensures var k := request.blkno;
      Permitted(l, request) == (k in mine && mine[k] in l.held && (request.LetGo? && l.held[mine[k]].refs == 1 ==> mine[k] !in changed))
  {
    if request.blkno in mine {
      assert HeldAs(l, mine[request.blkno], request.blkno);
    }
  }

  /** A held block is cached under its number with the references given out. */
  lemma HolderFacts<D>(c: Cache<Blk<D>, D>, l: Ledger<Blk<D>, D>, capacity: nat, mine: map<nat, Blk<D>>, changed: set<Blk<D>>, k: nat)
    requires Kept(c, l, capacity) && Tracks(l, mine, changed) && k in mine
    ensures CacheOk(c) && c.pending == changed == l.unflagged
    ensures mine[k] in l.held && mine[k] in c.at && c.at[mine[k]].refcnt > 0 && l.held[mine[k]] == Grip(k, c.at[mine[k]].refcnt)
  {
  }

  lemma SameNumbers<D>(c: Cache<Blk<D>, D>, l: Ledger<Blk<D>, D>, capacity: nat)
    requires Kept(c, l, capacity)
    ensures l.blocks.Keys == c.disk.Keys
  {
  }

  /** A block that is given joins those held. */
  lemma GivenJoins<D>(c: Cache<Blk<D>, D>, c': Cache<Blk<D>, D>, l: Ledger<Blk<D>, D>, capacity: nat, k: nat, b: Blk<D>,
                      mine: map<nat, Blk<D>>, changed: set<Blk<D>>)
    requires Kept(c, l, capacity) && Tracks(l, mine, changed) && k in l.blocks && Effect(c, c', capacity, GetCall(k, Some(b)))
    ensures Tracks(Noted(l, GetCall(k, Some(b))), mine[k := b], changed)
  {
    hide CacheOk, Matches, Effect, Kept;
    StepKeeps(c, c', l, capacity, GetCall(k, Some(b)));
  }

  /** A call on a held block, and what the clients hold and have changed afterwards. */
  lemma HeldAfter<D>(l: Ledger<Blk<D>, D>, k: nat, v: D, mine: map<nat, Blk<D>>, changed: set<Blk<D>>)
    requires Tracks(l, mine, changed) && k in mine
    ensures Tracks(Noted(l, MutateCall(mine[k], v)), mine, changed + {mine[k]})
    ensures Tracks(Noted(l, DirtyCall(mine[k])), mine, changed - {mine[k]})
    ensures Tracks(Noted(l, ReleaseCall(mine[k])), if l.held[mine[k]].refs <= 1 then mine - {k} else mine, changed)
  {
  }

  /** Changes, flags or lets go a held block, unless it would break the rules. */
  method MakeHeld<D>(c: Bcache<D>, request: Request<D>, mine: map<nat, Blk<D>>, changed: set<Blk<D>>, ghost l: Ledger<Blk<D>, D>)
    returns (call: Option<Call<Blk<D>, D>>, mine': map<nat, Blk<D>>, changed': set<Blk<D>>)
    requires c.Valid() && Kept(c.State(), l, c.capacity) && Tracks(l, mine, changed)
    requires (request.Change? || request.Flag? || request.LetGo?) && request.blkno in mine
    modifies c, mine[request.blkno]
    ensures c.Valid() && c.blocks == old(c.blocks)
    ensures call.Some? ==> Made(l, request, call.value, old(c.State()), c.State(), c.capacity, mine', changed')
    ensures call.Some? <==> Permitted(l, request)
    ensures call.None? ==> c.State() == old(c.State()) && mine' == mine && changed' == changed
  {
    hide CacheOk, Effect, Matches, SizesOk, Tracks, Noted, Permitted, Mutated, Dirtied, Released;
    var b := mine[request.blkno];
    HolderFacts(c.State(), l, c.capacity, mine, changed, request.blkno);
    WhenPermitted(l, request, mine, changed);
    call, mine', changed' := None, mine, changed;
    match request
    case Change(k, v) =>
      c.Mutate(b, v);
      call, changed' := Some(MutateCall(b, v)), changed + {b};
      HeldAfter(l, k, v, mine, changed);
    case Flag(k) =>
      c.Dirty(b);
      call, changed' := Some(DirtyCall(b)), changed - {b};
      HeldAfter(l, k, b.phys, mine, changed);
    case LetGo(k) =>
      if b.refcnt > 1 || b !in changed {
        HeldAfter(l, k, b.phys, mine, changed);
        mine' := if b.refcnt <= 1 then mine - {k} else mine;
        c.Release(b);
        call := Some(ReleaseCall(b));
      }
  }

  /** Makes one request, unless it would break the rules. */
  method Make<D>(c: Bcache<D>, request: Request<D>, mine: map<nat, Blk<D>>, changed: set<Blk<D>>, ghost l: Ledger<Blk<D>, D>)
    returns (call: Option<Call<Blk<D>, D>>, mine': map<nat, Blk<D>>, changed': set<Blk<D>>)
    requires c.Valid() && Kept(c.State(), l, c.capacity) && Tracks(l, mine, changed)
    modifies c, c.blocks
    ensures c.Valid() && fresh(c.blocks - old(c.blocks))
    ensures call.Some? ==> Made(l, request, call.value, old(c.State()), c.State(), c.capacity, mine', changed')
    ensures call.Some? <==> Permitted(l, request)
    ensures call.None? ==> c.State() == old(c.State()) && mine' == mine && changed' == changed
  {
    hide CacheOk, Effect, Matches, SizesOk, Tracks, HeldAs, Got, Flushed;
    ghost var before := c.State();
    call, mine', changed' := None, mine, changed;
    match request
    case Get(k) =>
      SameNumbers(before, l, c.capacity);
      if k in c.disk {
        var err, b := c.Get(k);
        if err == Ok {
          call, mine' := Some(GetCall(k, Some(b))), mine[k := b];
          GivenJoins(before, c.State(), l, c.capacity, k, b, mine, changed);
        } else {
          call := Some(GetCall(k, None));
        }
      }
    case Flush =>
      c.Flush();
      call := Some(FlushCall);
    case _ =>
      WhenPermitted(l, request, mine, changed);
      if request.blkno in mine {
        HolderFacts(before, l, c.capacity, mine, changed, request.blkno);
        call, mine', changed' := MakeHeld(c, request, mine, changed, l);
      }
  }

  /** A request made after `m` calls is served by the next of them if the rules allow it, and is passed over
      otherwise. */
  ghost predicate ServedAt<B, D>(disk: map<nat, D>, calls: seq<Call<B, D>>, request: Request<D>, m: nat, m': nat) {
    && m <= |calls|
    && var l := LedgerAt(disk, calls, m);
       if Permitted(l, request) then m' == m + 1 <= |calls| && Serves(l, request, calls[m]) else m' == m
  }

  /** The calls serve the requests in turn, the first `i` of them by the first `made[i]` calls. */
  ghost predicate InTurn<B, D>(disk: map<nat, D>, requests: seq<Request<D>>, calls: seq<Call<B, D>>, made: seq<nat>) {
    && |made| == |requests| + 1 && made[0] == 0 && made[|requests|] == |calls|
    && forall i :: 0 <= i < |requests| ==> ServedAt(disk, calls, requests[i], made[i], made[i + 1])
  }

  /** Makes the requests one after the other on a new cache. The calls are a run, the clients keep to the rules,
      and every call keeps its promise about the plain array. */
  method Perform<D>(blksz: nat, maxsz: nat, disk: map<nat, D>, requests: seq<Request<D>>)
    returns (c: Bcache<D>, calls: seq<Call<Blk<D>, D>>, ghost made: seq<nat>, ghost cs: seq<Cache<Blk<D>, D>>)
    requires 0 < blksz <= maxsz && (maxsz / blksz + 1) * blksz < UINT32
    ensures c.Valid() && IsRun(cs, calls, c.capacity) && cs[0].disk == disk && cs[|calls|] == c.State()
    ensures InTurn(disk, requests, calls, made)
    ensures Disciplined(disk, calls) && Kept(c.State(), LedgerAt(disk, calls, |calls|), c.capacity)
    ensures forall i :: 0 <= i < |calls| ==> Promised(LedgerAt(disk, calls, i), c.capacity, calls[i], cs[i + 1])
  {
    hide CacheOk, Effect, Matches, SizesOk, Allowed, Noted, Promised, IsNew, Serves, Permitted, Tracks, InTurn, IsRun, Disciplined;
    c := new Bcache(blksz, maxsz, disk);
    calls, cs, made := [], [c.State()], [0];
    var mine: map<nat, Blk<D>>, changed: set<Blk<D>> := map[], {};
    NothingYet(c.State(), c.capacity);
    for i := 0 to |requests|
      invariant fresh(c) && fresh(c.blocks) && c.Valid()
      invariant RunSoFar(cs, calls, c.capacity, c.State(), disk, LedgerAt(disk, calls, |calls|))
      invariant InTurn(disk, requests[..i], calls, made)
      invariant Tracks(LedgerAt(disk, calls, |calls|), mine, changed)
    {
      ghost var l := LedgerAt(disk, calls, |calls|);
      ghost var before := c.State();
      var call;
      call, mine, changed := Make(c, requests[i], mine, changed, l);
      assert requests[..i + 1] == requests[..i] + [requests[i]];
      if call.Some? {
        RunGrows(cs, calls, disk, c.capacity, before, c.State(), requests[i], call.value, mine, changed);
        TurnTaken(disk, requests[..i], calls, made, requests[i], call.value);
        calls, cs, made := calls + [call.value], cs + [c.State()], made + [|calls| + 1];
      } else {
        TurnPassed(disk, requests[..i], calls, made, requests[i]);
        made := made + [|calls|];
      }
    }
    assert requests[..|requests|] == requests;
    RunKeeps(cs, calls, c.capacity, |calls|);
  }

  lemma {:induction false} LedgerOfPrefix<B, D>(disk: map<nat, D>, calls: seq<Call<B, D>>, call: Call<B, D>, n: nat)
    requires n <= |calls|
    ensures LedgerAt(disk, calls + [call], n) == LedgerAt(disk, calls, n)
  {
    if n > 0 {
      LedgerOfPrefix(disk, calls, call, n - 1);
    }
  }

  ghost predicate RunSoFar<B, D>(cs: seq<Cache<B, D>>, calls: seq<Call<B, D>>, capacity: nat, c: Cache<B, D>,
                                 disk: map<nat, D>, l: Ledger<B, D>) {
    IsRun(cs, calls, capacity) && Disciplined(disk, calls) && cs[0].disk == disk && cs[|calls|] == c && Kept(c, l, capacity)
  }

  lemma NothingYet<D>(c: Cache<Blk<D>, D>, capacity: nat)
    requires IsNew(c)
    ensures RunSoFar([c], [], capacity, c, c.disk, LedgerAt(c.disk, [], 0)) && Tracks(LedgerAt<Blk<D>, D>(c.disk, [], 0), map[], {})
    ensures InTurn<Blk<D>, D>(c.disk, [], [], [0])
  {
    NewIsKept(c, capacity);
  }

  /** One more call makes a longer run. */
  lemma RunGrows<D>(cs: seq<Cache<Blk<D>, D>>, calls: seq<Call<Blk<D>, D>>, disk: map<nat, D>, capacity: nat,
                    c: Cache<Blk<D>, D>, c': Cache<Blk<D>, D>, request: Request<D>, call: Call<Blk<D>, D>,
                    mine: map<nat, Blk<D>>, changed: set<Blk<D>>)
    requires RunSoFar(cs, calls, capacity, c, disk, LedgerAt(disk, calls, |calls|))
    requires Made(LedgerAt(disk, calls, |calls|), request, call, c, c', capacity, mine, changed)
    ensures var l' := LedgerAt(disk, calls + [call], |calls + [call]|);
      RunSoFar(cs + [c'], calls + [call], capacity, c', disk, l') && Tracks(l', mine, changed)
  {
    hide IsNew, Allowed, Noted, Effect, CacheOk, Matches, Tracks, Promised;
    StepKeeps(c, c', LedgerAt(disk, calls, |calls|), capacity, call);
    forall i | 0 <= i <= |calls| ensures Allowed(LedgerAt(disk, calls + [call], i), (calls + [call])[i]) {
      LedgerOfPrefix(disk, calls, call, i);
    }
    LedgerOfPrefix(disk, calls, call, |calls|);
  }

  lemma StillServed<B, D>(disk: map<nat, D>, calls: seq<Call<B, D>>, call: Call<B, D>, request: Request<D>, m: nat, m': nat)
    requires ServedAt(disk, calls, request, m, m')
    ensures ServedAt(disk, calls + [call], request, m, m')
  {
    LedgerOfPrefix(disk, calls, call, m);
  }

  lemma TurnTaken<B, D>(disk: map<nat, D>, requests: seq<Request<D>>, calls: seq<Call<B, D>>, made: seq<nat>,
                        request: Request<D>, call: Call<B, D>)
    requires InTurn(disk, requests, calls, made) && Permitted(LedgerAt(disk, calls, |calls|), request)
    requires Serves(LedgerAt(disk, calls, |calls|), request, call)
    ensures InTurn(disk, requests + [request], calls + [call], made + [|calls| + 1])
  {
    hide ServedAt, Permitted, Serves;
    var rs, ms := requests + [request], made + [|calls| + 1];
    forall i | 0 <= i < |rs| ensures ServedAt(disk, calls + [call], rs[i], ms[i], ms[i + 1]) {
      if i < |requests| {
        StillServed(disk, calls, call, requests[i], made[i], made[i + 1]);
      } else {
        ServedLast(disk, calls, call, request);
      }
    }
  }

  lemma ServedLast<B, D>(disk: map<nat, D>, calls: seq<Call<B, D>>, call: Call<B, D>, request: Request<D>)
    requires Permitted(LedgerAt(disk, calls, |calls|), request) && Serves(LedgerAt(disk, calls, |calls|), request, call)
    ensures ServedAt(disk, calls + [call], request, |calls|, |calls| + 1)
  {
    LedgerOfPrefix(disk, calls, call, |calls|);
  }

  lemma TurnPassed<B, D>(disk: map<nat, D>, requests: seq<Request<D>>, calls: seq<Call<B, D>>, made: seq<nat>, request: Request<D>)
    requires InTurn(disk, requests, calls, made) && !Permitted(LedgerAt(disk, calls, |calls|), request)
    ensures InTurn(disk, requests + [request], calls, made + [|calls|])
  {
    hide Permitted, Serves;
  }
}
