/**
 The bookkeeping of requester.py: a list of outstanding futures, a `closed`
 flag and the proxy list, and the try/except dispatch each worker runs. The
 thread pool itself is not modelled: a future is an id, the job it runs and a
 `done` flag that the pool sets.
 */
module Requester {
  import opened Http

  /** What `get(url, cb, args)` hands to a worker: the URL and the page in `args`. */
  datatype Job = Job(url: string, page: int)

  /** A submitted task: `id` stands for the identity of the `Future` object. */
  datatype Future = Future(id: nat, job: Job, done: bool)

  datatype State = State(proxies: seq<string>, futures: seq<Future>, closed: bool, nextId: nat)

  /** `Requester()`: no proxies, no futures, open. */
  function Init(): (r: State)
    ensures r.proxies == [] && r.futures == [] && !r.closed
    ensures WellFormed(r)
  {
    State([], [], false, 0)
  }

  /** Every future has a distinct id below `nextId`, and a closed requester has none. */
  ghost predicate WellFormed(r: State) {
    && (forall i :: 0 <= i < |r.futures| ==> r.futures[i].id < r.nextId)
    && DistinctIds(r.futures)
    && (r.closed ==> r.futures == [])
  }

  ghost predicate DistinctIds(fs: seq<Future>) {
    forall i, j :: 0 <= i < j < |fs| ==> fs[i].id != fs[j].id
  }

  datatype Fetched = Fetched(state: State, count: nat)

  /** `fetch_proxies()`, given the lines of the proxy list it downloaded. */
  function FetchProxies(r: State, lines: seq<string>): (f: Fetched)
    ensures f.count == |f.state.proxies|
    ensures f.state.proxies == lines
    ensures f.state.futures == r.futures && f.state.closed == r.closed
  {
    Fetched(r.(proxies := lines), |lines|)
  }

  /** The outcome of a call that may raise. */
  datatype Outcome = Ok(state: State) | RuntimeError

  /**
   `get(url, cb, args)`: submits one task and appends its future. After `close`
   the pool is shut down, and `submit` raises `RuntimeError` before anything is
   appended.
   */
  function Get(r: State, job: Job): (o: Outcome)
    ensures o.RuntimeError? <==> r.closed
    ensures o.Ok? ==> o.state.futures == r.futures + [Future(r.nextId, job, false)]
    ensures o.Ok? ==> o.state.proxies == r.proxies && !o.state.closed
    ensures o.Ok? && WellFormed(r) ==> WellFormed(o.state)
  {
    if r.closed then RuntimeError
    else Ok(r.(futures := r.futures + [Future(r.nextId, job, false)], nextId := r.nextId + 1))
  }

  /** The futures that are not done, in their original order. */
  function Pending(fs: seq<Future>): (p: seq<Future>)
    ensures |p| <= |fs|
  {
    if |fs| == 0 then []
    else Pending(fs[..|fs| - 1]) + (if fs[|fs| - 1].done then [] else [fs[|fs| - 1]])
  }

  /** Pending keeps exactly the futures that are not done. */
  lemma {:induction false} PendingMembers(fs: seq<Future>)
    ensures forall f :: f in Pending(fs) <==> f in fs && !f.done
  {
    if |fs| > 0 {
      PendingMembers(fs[..|fs| - 1]);
      assert fs == fs[..|fs| - 1] + [fs[|fs| - 1]];
    }
  }

  /** Pruning works piecewise, so it keeps the relative order of what survives. */
  lemma {:induction false} PendingAppend(a: seq<Future>, b: seq<Future>)
    ensures Pending(a + b) == Pending(a) + Pending(b)
    decreases |b|
  {
    if |b| > 0 {
      var b' := b[..|b| - 1];
      assert (a + b)[..|a + b| - 1] == a + b';
      PendingAppend(a, b');
    } else {
      assert a + b == a;
    }
  }

  /** Pruning twice is pruning once. */
  lemma {:induction false} PendingIdempotent(fs: seq<Future>)
    ensures Pending(Pending(fs)) == Pending(fs)
  {
    if |fs| > 0 {
      var init, last := fs[..|fs| - 1], fs[|fs| - 1];
      PendingIdempotent(init);
      PendingAppend(Pending(init), if last.done then [] else [last]);
    }
  }

  /** What `list.remove(f)` does: the list without one copy of `f`, or a ValueError. */
  datatype Removal<T> = Removed(rest: seq<T>) | ValueError

  /** `list.remove(f)`: drops the first element equal to `f`; raises when `f` is missing. */
  function RemoveFirst<T(==)>(fs: seq<T>, f: T): (r: Removal<T>)
    ensures r.ValueError? <==> f !in fs
    ensures r.Removed? ==> |r.rest| == |fs| - 1
  {
    if |fs| == 0 then ValueError
    else if fs[0] == f then Removed(fs[1..])
    else
      match RemoveFirst(fs[1..], f)
      case ValueError => ValueError
      case Removed(rest) => Removed([fs[0]] + rest)
  }

  /** What is removed is one copy of `f` and nothing else. */
  lemma {:induction false} RemoveFirstMultiset<T>(fs: seq<T>, f: T)
    requires f in fs
    ensures multiset(RemoveFirst(fs, f).rest) == multiset(fs) - multiset{f}
  {
    assert fs == [fs[0]] + fs[1..];
    if fs[0] != f {
      RemoveFirstMultiset(fs[1..], f);
    }
  }

  /** `remove` drops the first occurrence of the element at `i`, and the other
      elements keep their order. */
  lemma {:induction false} RemoveFirstAt<T>(s: seq<T>, i: nat)
    requires i < |s| && s[i] !in s[..i]
    ensures RemoveFirst(s, s[i]) == Removed(s[..i] + s[i + 1..])
  {
    if i > 0 {
      var t := s[1..];
      ShiftSlices(s, i);
      assert s[0] in s[..i];
      assert s[i] in t;
      RemoveFirstAt(t, i - 1);
      RemoveFirstTail(s, s[i]);
    }
  }

  /** `remove` past a head that is not `f` keeps the head. */
  lemma RemoveFirstTail<T>(s: seq<T>, f: T)
    requires |s| > 0 && s[0] != f && f in s[1..]
    ensures RemoveFirst(s, f) == Removed([s[0]] + RemoveFirst(s[1..], f).rest)
  {
  }

  /** How the slices of `s` around `i` look from its tail. */
  lemma ShiftSlices<T>(s: seq<T>, i: nat)
    requires 0 < i < |s|
    ensures s[1..][i - 1] == s[i]
    ensures s[..i] == [s[0]] + s[1..][..i - 1]
    ensures s[..i] + s[i + 1..] == [s[0]] + (s[1..][..i - 1] + s[1..][i..])
  {
  }

  /** The same, for a list split around the first occurrence of `f`. */
  lemma RemoveFirstAfter<T>(p: seq<T>, f: T, q: seq<T>)
    requires f !in p
    ensures RemoveFirst(p + [f] + q, f) == Removed(p + q)
  {
    var s := p + [f] + q;
    assert s[|p|] == f && s[..|p|] == p && s[|p| + 1..] == q;
    RemoveFirstAt(s, |p|);
  }


  /**
   `update_futures()`: walks a copy of the list and removes each future that is
   done from the live list. The `done` flags are read as they stand when the
   call starts.
   */
  method UpdateFutures(r: State) returns (r': State)
    ensures r'.futures == Pending(r.futures)
    ensures r'.proxies == r.proxies && r'.closed == r.closed && r'.nextId == r.nextId
  {
    var ls := r.futures;
    var fs := ls;
    for i := 0 to |ls|
      invariant fs == Pending(ls[..i]) + ls[i..]
    {
      UpdateStep(ls, i, fs);
      if ls[i].done {
        fs := RemoveFirst(fs, ls[i]).rest;
      }
    }
    assert ls[..|ls|] == ls;
    r' := r.(futures := fs);
  }

  /** One iteration of the loop in `update_futures` prunes one more element of the copy. */
  lemma UpdateStep(ls: seq<Future>, i: nat, fs: seq<Future>)
    requires i < |ls| && fs == Pending(ls[..i]) + ls[i..]
    ensures ls[i].done ==> RemoveFirst(fs, ls[i]) == Removed(Pending(ls[..i + 1]) + ls[i + 1..])
    ensures !ls[i].done ==> fs == Pending(ls[..i + 1]) + ls[i + 1..]
  {
    var f, p := ls[i], Pending(ls[..i]);
    PendingSnoc(ls, i);
    assert ls[i..] == [f] + ls[i + 1..];
    if f.done {
      PendingDoneAbsent(ls[..i], f);
      assert fs == p + [f] + ls[i + 1..];
      RemoveFirstAfter(p, f, ls[i + 1..]);
    } else {
      assert fs == (p + [f]) + ls[i + 1..];
    }
  }

  /** Pruning a prefix one element longer adds that element unless it is done. */
  lemma PendingSnoc(ls: seq<Future>, i: nat)
    requires i < |ls|
    ensures Pending(ls[..i + 1]) == Pending(ls[..i]) + (if ls[i].done then [] else [ls[i]])
  {
    assert ls[..i + 1][..i] == ls[..i];
  }

  /** A finished future is not among the pruned ones. */
  lemma PendingDoneAbsent(fs: seq<Future>, f: Future)
    requires f.done
    ensures f !in Pending(fs)
  {
    PendingMembers(fs);
  }

  /** Pruning never breaks the distinct-ids invariant. */
  lemma PendingWellFormed(r: State)
    requires WellFormed(r)
    ensures WellFormed(r.(futures := Pending(r.futures)))
  {
    PendingMembers(r.futures);
    var p := Pending(r.futures);
    forall i | 0 <= i < |p| ensures p[i].id < r.nextId {
      assert p[i] in r.futures;
    }
    PendingDistinctIds(r.futures);
  }

  lemma {:induction false} PendingDistinctIds(fs: seq<Future>)
    requires DistinctIds(fs)
    ensures DistinctIds(Pending(fs))
  {
    if |fs| > 0 {
      var init, last := fs[..|fs| - 1], fs[|fs| - 1];
      assert forall i :: 0 <= i < |init| ==> init[i] == fs[i];
      PendingDistinctIds(init);
      PendingMembers(init);
      var q := Pending(init);
      var p := Pending(fs);
      assert p == q + (if last.done then [] else [last]);
      forall i, j | 0 <= i < j < |p| ensures p[i].id != p[j].id {
        assert p[i] == q[i];
        if j == |q| {
          assert p[j] == last;
          assert q[i] in q;
          var k :| 0 <= k < |init| && init[k] == q[i];
          assert fs[k] == q[i];
        } else {
          assert p[j] == q[j];
        }
      }
    }
  }

  datatype Checked = Checked(state: State, done: bool)

  /**
   `is_done(update)`: optionally prunes, then reports whether the list is empty.
   With `update` it is true exactly when no submitted future is still running.
   */
  method IsDone(r: State, update: bool) returns (c: Checked)
    ensures update ==> c.state.futures == Pending(r.futures)
    ensures !update ==> c.state == r
    ensures c.done <==> |c.state.futures| == 0
    ensures update ==> (c.done <==> forall f :: f in r.futures ==> f.done)
    ensures c.state.closed == r.closed && c.state.proxies == r.proxies
  {
    var s := r;
    if update {
      s := UpdateFutures(r);
      PendingMembers(r.futures);
      if |s.futures| > 0 {
        assert s.futures[0] in Pending(r.futures);
      }
    }
    c := Checked(s, |s.futures| == 0);
  }

  /** `close()`: shuts the pool down, cancelling what has not started, and forgets every future. */
  function Close(r: State): (r': State)
    ensures r'.closed && r'.futures == []
    ensures r'.proxies == r.proxies && r'.nextId == r.nextId
  {
    r.(futures := [], closed := true)
  }

  /** The pool finishing (or cancelling) future `id`: only its `done` flag changes. */
  function Finish(r: State, id: nat): (r': State)
    ensures |r'.futures| == |r.futures|
    ensures forall i :: 0 <= i < |r.futures| ==>
      r'.futures[i] == (if r.futures[i].id == id then r.futures[i].(done := true) else r.futures[i])
    ensures r'.closed == r.closed && r'.proxies == r.proxies && r'.nextId == r.nextId
  {
    var fs := seq(|r.futures|, i requires 0 <= i < |r.futures| =>
      if r.futures[i].id == id then r.futures[i].(done := true) else r.futures[i]);
    r.(futures := fs)
  }

  /** One call on the requester, or the pool completing a task. */
  datatype Op = GetOp(job: Job) | UpdateOp | CloseOp | FinishOp(id: nat) | FetchOp(lines: seq<string>)

  /** The requester after `op`; a `get` that raises leaves it as it was. */
  function Step(r: State, op: Op): State {
    match op
    case GetOp(job) => (match Get(r, job) case Ok(s) => s case RuntimeError => r)
    case UpdateOp => r.(futures := Pending(r.futures))
    case CloseOp => Close(r)
    case FinishOp(id) => Finish(r, id)
    case FetchOp(lines) => FetchProxies(r, lines).state
  }

  /** Every step keeps the ids distinct and below `nextId`. */
  lemma StepWellFormed(r: State, op: Op)
    requires WellFormed(r)
    ensures WellFormed(Step(r, op))
  {
    if op.UpdateOp? {
      PendingWellFormed(r);
    }
  }

  /** Nothing reopens a closed requester, and nothing is ever outstanding on it again. */
  lemma ClosedIsFinal(r: State, op: Op)
    requires r.closed
    ensures Step(r, op).closed
    ensures r.futures == [] ==> Step(r, op).futures == []
  {
  }

  function Run(r: State, ops: seq<Op>): State
    decreases |ops|
  {
    if |ops| == 0 then r else Run(Step(r, ops[0]), ops[1..])
  }

  /** `closed` is monotone over any sequence of calls, and a `close` anywhere makes it true. */
  lemma {:induction false} RunClosed(r: State, ops: seq<Op>)
    ensures r.closed ==> Run(r, ops).closed && (r.futures == [] ==> Run(r, ops).futures == [])
    ensures CloseOp in ops ==> Run(r, ops).closed && Run(r, ops).futures == []
    decreases |ops|
  {
    if |ops| > 0 {
      var s := Step(r, ops[0]);
      RunClosed(s, ops[1..]);
      if ops[0] != CloseOp {
        assert CloseOp in ops ==> CloseOp in ops[1..];
      }
    }
  }

  /** The way one `_get` task ends; every one of them is a normal return. */
  datatype TaskEnd =
    | SelectionFailed
    | FetchFailed(proxy: string)
    | CallbackReturned(proxy: string, response: Response)
    | CallbackRaised(proxy: string, response: Response)

  /**
   `_get(url, cb, args)`. `random.choice` picks any proxy (an empty list raises
   `IndexError` inside the first `try`); `fetch` stands for `session.get` through
   that proxy; `callbackRaises` says whether `cb(r, *args)` raises. Both kinds of
   failure are logged and swallowed.
   */
  method RunTask(proxies: seq<string>, fetch: string -> FetchResult, callbackRaises: Response -> bool)
    returns (end: TaskEnd)
    ensures end.SelectionFailed? <==> |proxies| == 0
    ensures !end.SelectionFailed? ==> end.proxy in proxies
    ensures end.FetchFailed? <==> |proxies| > 0 && fetch(end.proxy).TransportError?
    ensures end.CallbackReturned? || end.CallbackRaised? ==>
      fetch(end.proxy) == Got(end.response) && (end.CallbackRaised? <==> callbackRaises(end.response))
  {
    if |proxies| == 0 {
      return SelectionFailed;
    }
    assert proxies[0] in proxies;
    var proxy :| proxy in proxies;
    match fetch(proxy)
    case TransportError =>
      end := FetchFailed(proxy);
    case Got(resp) =>
      if callbackRaises(resp) {
        end := CallbackRaised(proxy, resp);
      } else {
        end := CallbackReturned(proxy, resp);
      }
  }
}
