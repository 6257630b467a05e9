/** Callbacks that a walk makes on items in turn, as the iterators of the library do. */
module Callbacks {
  import opened Common

  /** What a callback reports: an error, whether to stop, and the updated context. */
  datatype Reply<S> = Reply(err: Err, stop: bool, ctx: S)

  /** The walk goes no further. */
  predicate Ends<S>(o: Reply<S>) {
    o.err != Ok || o.stop
  }

  /** The calls made on the first items of a list: call `i` is given the context `cs[i]` and leaves `cs[i + 1]`.
      No call but the last reports an error or asks to stop; the last one does, unless there are no more items.
      The outcome is what the last call reports, and an error always stops. */
  ghost predicate CalledInTurn<T, S>(items: seq<T>, callback: (T, S) -> Reply<S>, ctx: S, cs: seq<S>, outcome: Reply<S>) {
    var n := |cs| - 1;
    && 0 <= n <= |items| && cs[0] == ctx
    && (forall i :: 0 <= i < n ==> cs[i + 1] == callback(items[i], cs[i]).ctx)
    && (forall i :: 0 <= i < n - 1 ==> callback(items[i], cs[i]).err == Ok && !callback(items[i], cs[i]).stop)
    && (n < |items| ==> outcome.err != Ok || outcome.stop)
    && outcome.ctx == cs[n]
    && if n == 0 then outcome.err == Ok && !outcome.stop
       else
         var last := callback(items[n - 1], cs[n - 1]);
         outcome.err == last.err && outcome.stop == (last.stop || last.err != Ok)
  }

  /** Calls the callback on each item in turn, up to the first error or stop. */
  ghost function Visit<T, S>(items: seq<T>, callback: (T, S) -> Reply<S>, ctx: S): Reply<S> {
    if items == [] then Reply(Ok, false, ctx)
    else
      var o := callback(items[0], ctx);
      if o.err != Ok then Reply(o.err, true, o.ctx)
      else if o.stop then o
      else Visit(items[1..], callback, o.ctx)
  }

  /** The contexts of the calls. */
  ghost function Contexts<T, S>(items: seq<T>, callback: (T, S) -> Reply<S>, ctx: S): (cs: seq<S>) {
    if items == [] then [ctx]
    else
      var o := callback(items[0], ctx);
      [ctx] + if Ends(o) then [o.ctx] else Contexts(items[1..], callback, o.ctx)
  }

  /** `Visit` gives the outcome of calls made in turn. */
  lemma {:induction false} VisitInTurn<T, S>(items: seq<T>, callback: (T, S) -> Reply<S>, ctx: S)
    ensures CalledInTurn(items, callback, ctx, Contexts(items, callback, ctx), Visit(items, callback, ctx))
  {
    if items != [] {
      var o := callback(items[0], ctx);
      if !Ends(o) {
        VisitInTurn(items[1..], callback, o.ctx);
        OneCallMore(items, callback, ctx, Contexts(items[1..], callback, o.ctx), Visit(items[1..], callback, o.ctx));
      }
    }
  }

  lemma OneCallMore<T, S>(items: seq<T>, callback: (T, S) -> Reply<S>, ctx: S, cs: seq<S>, outcome: Reply<S>)
    requires items != [] && !Ends(callback(items[0], ctx))
    requires CalledInTurn(items[1..], callback, callback(items[0], ctx).ctx, cs, outcome)
    ensures CalledInTurn(items, callback, ctx, [ctx] + cs, outcome)
  {
    var all, n := [ctx] + cs, |cs|;
    forall i | 0 <= i < n
      ensures all[i + 1] == callback(items[i], all[i]).ctx
      ensures i < n - 1 ==> callback(items[i], all[i]).err == Ok && !callback(items[i], all[i]).stop
    {
      if i > 0 {
        assert items[i] == items[1..][i - 1] && all[i] == cs[i - 1] && cs[i] == callback(items[1..][i - 1], cs[i - 1]).ctx;
      }
    }
  }

  /** Where the calls in turn come to is decided by the first item on which one reports an error or asks to stop:
      its error is the outcome, and no later item is shown. */
  lemma {:induction false} FirstEndDecides<T, S>(items: seq<T>, callback: (T, S) -> Reply<S>, ctx: S, cs: seq<S>,
                                                outcome: Reply<S>, before: seq<S>, n: nat)
    requires CalledInTurn(items, callback, ctx, cs, outcome)
    requires n < |items| && |before| == n + 1 && before[0] == ctx
    requires forall i :: 0 <= i < n ==> before[i + 1] == callback(items[i], before[i]).ctx && !Ends(callback(items[i], before[i]))
    requires Ends(callback(items[n], before[n]))
    ensures cs == before + [callback(items[n], before[n]).ctx]
    ensures outcome.err == callback(items[n], before[n]).err && outcome.ctx == callback(items[n], before[n]).ctx
  {
    SameSoFar(items, callback, ctx, cs, outcome, before, n);
    assert cs[n + 1] == callback(items[n], cs[n]).ctx;
    assert cs[n] == cs[..n + 1][n] == before[n];
    assert |cs| == n + 2;
  }

  lemma {:induction false} SameSoFar<T, S>(items: seq<T>, callback: (T, S) -> Reply<S>, ctx: S, cs: seq<S>,
                                          outcome: Reply<S>, before: seq<S>, n: nat)
    requires CalledInTurn(items, callback, ctx, cs, outcome)
    requires n < |items| && |before| > n && before[0] == ctx
    requires forall i :: 0 <= i < n ==> before[i + 1] == callback(items[i], before[i]).ctx && !Ends(callback(items[i], before[i]))
    ensures |cs| > n + 1 && cs[..n + 1] == before[..n + 1]
  {
    if n > 0 {
      SameSoFar(items, callback, ctx, cs, outcome, before, n - 1);
      assert cs[n - 1] == cs[..n][n - 1] == before[..n][n - 1] == before[n - 1];
      assert cs[n] == callback(items[n - 1], cs[n - 1]).ctx == before[n];
      assert cs[..n + 1] == cs[..n] + [cs[n]] && before[..n + 1] == before[..n] + [before[n]];
    }
  }

  lemma VisitNone<T, S>(callback: (T, S) -> Reply<S>, ctx: S)
    ensures Visit([], callback, ctx) == Reply(Ok, false, ctx)
  {
  }

  lemma {:induction false} VisitConcat<T, S>(a: seq<T>, b: seq<T>, callback: (T, S) -> Reply<S>, ctx: S)
    ensures Visit(a + b, callback, ctx) ==
            var o := Visit(a, callback, ctx); if o.err != Ok || o.stop then o else Visit(b, callback, o.ctx)
  {
    if a == [] {
      assert a + b == b;
    } else {
      assert (a + b)[1..] == a[1..] + b;
      VisitConcat(a[1..], b, callback, callback(a[0], ctx).ctx);
    }
  }
}
