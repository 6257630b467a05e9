/** Whole histories of a tree: any sequence of calls. */
module BtreeScenarios {
  import opened Common
  import opened SpaceManagers
  import opened BtreeNode
  import opened BtreeRoot
  import opened BtreeRuns
  import opened Btrees
  import opened BtreeCheck

  // Any sequence of calls

  /** The call does what was asked for. */
  predicate Asks(call: Call, request: Call) {
    match request
    case Search(k, _) => call.Search? && call.k == k
    case _ => call == request
  }

  predicate Served(request: Call) {
    request.Insertion? ==> SizeOk(request.r) || TooBig(request.r)
  }

  /** Makes one call. */
  method PerformOne(t: Btree, request: Call) returns (call: Call, err: Err)
    requires t.Valid() && Served(request)
    modifies t, t.store, t.store.sm.Repr
    ensures t.store.Valid() && Asks(call, request)
    ensures if err == Aborted then Stops(old(t.State()), request) else t.Valid() && Step(old(t.State()), call, err, t.State())
  {
    hide WholeOk, Step;
    call := request;
    match request
    case Insertion(r) => err := t.Insert(r);
    case Removal(k) => err := t.Remove(k);
    case Search(k, _) =>
      var found;
      err, found := t.Find(k);
      call := Search(k, found);
  }

  /** Makes the calls one after the other on a new tree, until one stops the program. The tree answers like a
      finite map, and accounts for every block. */
  method Perform(requests: seq<Call>) returns (t: Btree, calls: seq<Call>, errs: seq<Err>, ghost ws: seq<Whole>)
    requires forall q <- requests :: Served(q)
    ensures |calls| <= |requests| && forall i :: 0 <= i < |calls| ==> Asks(calls[i], requests[i])
    ensures Run(ws, calls, errs)
    ensures |calls| < |requests| ==> Stops(ws[|calls|], requests[|calls|])
    ensures |calls| == |requests| ==> t.Valid() && t.State() == ws[|calls|] && t.Model() == Replayed(calls, errs, |calls|)
    ensures forall i :: 0 <= i < |calls| ==> Answered(Replayed(calls, errs, i), calls[i], errs[i], ws[i].disk.free == {})
    ensures var w := ws[|calls|];
      && w.root in w.disk.infos
      && |w.disk.free| + w.disk.infos[w.root] + BlocksLost(ws, calls, |calls|) + NBITMAPS + 1 == NBLOCKS
  {
    hide WholeOk, Step, Stops, Answered;
    t := new Btree();
    calls, errs, ws := [], [], [t.State()];
    var i := 0;
    while i < |requests|
      invariant fresh(t) && fresh(t.store) && fresh(t.store.sm) && fresh(t.store.sm.Repr) && t.Valid()
      invariant |calls| == i <= |requests| && forall j :: 0 <= j < i ==> Asks(calls[j], requests[j])
      invariant Run(ws, calls, errs) && ws[i] == t.State()
    {
      assert Served(requests[i]);
      var call, err := PerformOne(t, requests[i]);
      if err == Aborted {
        RunRefines(ws, calls, errs, i);
        RunConservesBlocks(ws, calls, errs, i);
        return;
      }
      calls, errs, ws := calls + [call], errs + [err], ws + [t.State()];
      i := i + 1;
    }
    RunRefines(ws, calls, errs, i);
    RunConservesBlocks(ws, calls, errs, i);
  }

  /** Makes the calls and checks the file: the check passes if and only if no block was lost on the way. */
  method PerformAndCheck(requests: seq<Call>)
    returns (t: Btree, calls: seq<Call>, errs: seq<Err>, checked: Option<Err>, ghost ws: seq<Whole>)
    requires forall q <- requests :: Served(q)
    ensures Run(ws, calls, errs) && |calls| <= |requests|
    ensures checked == if |calls| < |requests| then None
                       else if BlocksLost(ws, calls, |calls|) == 0 then Some(Ok) else Some(EILSEQ)
  {
    hide WholeOk, Run, Stops, Answered;
    t, calls, errs, ws := Perform(requests);
    checked := None;
    if |calls| == |requests| {
      var err := CheckDisk(t);
      checked := Some(err);
      RunRefines(ws, calls, errs, |calls|);
    }
  }
}
