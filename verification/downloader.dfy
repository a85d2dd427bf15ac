/**
 `Main.main` of main.py: one request per page of the inclusive range, then a
 polling loop that waits until the requester is closed or has nothing left to
 do, then the PDF pages and the optional clean-up.
 */
module Downloader {
  import opened Text
  import opened Requester
  import opened Staging

  /** `f"{self.url}{n}.jpg"`. */
  function PageUrl(url: string, n: int): string {
    url + IntToString(n) + ".jpg"
  }

  /** Different pages are requested from different URLs. */
  lemma PageUrlInjective(url: string, n: int, m: int)
    ensures PageUrl(url, n) == PageUrl(url, m) <==> n == m
  {
    if PageUrl(url, n) == PageUrl(url, m) {
      var a, b := IntToString(n), IntToString(m);
      assert |a| == |b|;
      assert a == PageUrl(url, n)[|url|..|url| + |a|];
      assert b == PageUrl(url, m)[|url|..|url| + |b|];
      IntToStringInjective(n, m);
    }
  }

  /** The number of pages in `range(from, to + 1)`. */
  function PageCount(from: int, to: int): nat {
    if from <= to then to - from + 1 else 0
  }

  /** The futures the submission loop appends, the `i`-th for page `from + i`. */
  function Submissions(firstId: nat, url: string, from: int, count: nat): (fs: seq<Future>)
    ensures |fs| == count
  {
    seq(count, i requires 0 <= i < count =>
      Future(firstId + i, Job(PageUrl(url, from + i), from + i), false))
  }

  /** One more submission appends the future for the next page. */
  lemma SubmissionsSnoc(firstId: nat, url: string, from: int, count: nat)
    ensures Submissions(firstId, url, from, count + 1)
      == Submissions(firstId, url, from, count) + [Future(firstId + count, Job(PageUrl(url, from + count), from + count), false)]
  {
  }

  /**
   The submission loop of `main`: one `get` per page of the inclusive range
   `from..to`, in ascending order, each asking for the page's URL with the page
   number as the callback's argument. On an open requester every page gets one
   task; on a closed one the first `get` raises.
   */
  method SubmitAll(r: State, url: string, from: int, to: int) returns (o: Outcome)
    ensures o.RuntimeError? <==> r.closed && from <= to
    ensures o.Ok? ==> o.state.futures == r.futures + Submissions(r.nextId, url, from, PageCount(from, to))
    ensures o.Ok? ==> o.state.closed == r.closed && o.state.proxies == r.proxies
    ensures o.Ok? && WellFormed(r) ==> WellFormed(o.state)
  {
    var s := r;
    var n := from;
    while n <= to
      invariant n == from || from <= n <= to + 1
      invariant !s.closed || (s == r && n == from)
      invariant s.futures == r.futures + Submissions(r.nextId, url, from, n - from)
      invariant s.nextId == r.nextId + (n - from)
      invariant s.closed == r.closed && s.proxies == r.proxies
      invariant WellFormed(r) ==> WellFormed(s)
      decreases if n <= to then to + 1 - n else 0
    {
      var g := Get(s, Job(PageUrl(url, n), n));
      if g.RuntimeError? {
        return RuntimeError;
      }
      SubmissionsSnoc(r.nextId, url, from, n - from);
      s := g.state;
      n := n + 1;
    }
    o := Ok(s);
  }

  /** The pages a list of futures fetches. */
  ghost function RequestedPages(fs: seq<Future>): set<int> {
    set i | 0 <= i < |fs| :: fs[i].job.page
  }

  /** The submitted tasks fetch each page of `from..to` once, in ascending order, each from its own URL. */
  lemma SubmissionsPages(firstId: nat, url: string, from: int, to: int)
    ensures var fs := Submissions(firstId, url, from, PageCount(from, to));
      && (forall n :: n in RequestedPages(fs) <==> from <= n <= to)
      && (forall i, j :: 0 <= i < j < |fs| ==> fs[i].job.page < fs[j].job.page)
      && (forall i :: 0 <= i < |fs| ==> fs[i].job.url == PageUrl(url, fs[i].job.page))
  {
    var fs := Submissions(firstId, url, from, PageCount(from, to));
    forall n | from <= n <= to ensures n in RequestedPages(fs) {
      assert fs[n - from].job.page == n;
    }
  }

  /** What happens while `main` sleeps between two polls. */
  datatype Event =
    | Finished(id: nat)   // the pool completes (or cancels) a task
    | Interrupted         // Ctrl-C: the SIGINT handler calls `close()`

  function Apply(r: State, e: Event): State {
    match e
    case Finished(id) => Finish(r, id)
    case Interrupted => Close(r)
  }

  /** The ids of the futures still running. */
  ghost function Outstanding(fs: seq<Future>): set<nat> {
    set i | 0 <= i < |fs| && !fs[i].done :: fs[i].id
  }

  /** The ids the pool completes during `events`. */
  ghost function FinishedIds(events: seq<Event>): set<nat> {
    set i | 0 <= i < |events| && events[i].Finished? :: events[i].id
  }

  /** After the first `k` events the requester should stop waiting. */
  ghost predicate Settled(r: State, events: seq<Event>, k: nat)
    requires k <= |events|
  {
    r.closed || Interrupted in events[..k] || Outstanding(r.futures) <= FinishedIds(events[..k])
  }

  lemma OutstandingEmpty(fs: seq<Future>)
    ensures Outstanding(fs) == {} <==> forall f :: f in fs ==> f.done
  {
    if Outstanding(fs) == {} {
      forall f | f in fs ensures f.done {
        var i :| 0 <= i < |fs| && fs[i] == f;
        assert fs[i].id !in Outstanding(fs);
      }
    } else {
      var id :| id in Outstanding(fs);
      var i :| 0 <= i < |fs| && !fs[i].done && fs[i].id == id;
      assert fs[i] in fs;
    }
  }

  lemma OutstandingPending(fs: seq<Future>)
    ensures Outstanding(Pending(fs)) == Outstanding(fs)
  {
    PendingMembers(fs);
    var p := Pending(fs);
    forall id | id in Outstanding(fs) ensures id in Outstanding(p) {
      var i :| 0 <= i < |fs| && !fs[i].done && fs[i].id == id;
      assert fs[i] in p;
      var j :| 0 <= j < |p| && p[j] == fs[i];
    }
    forall id | id in Outstanding(p) ensures id in Outstanding(fs) {
      var j :| 0 <= j < |p| && !p[j].done && p[j].id == id;
      assert p[j] in fs;
      var i :| 0 <= i < |fs| && fs[i] == p[j];
    }
  }

  lemma OutstandingFinish(r: State, id: nat)
    ensures Outstanding(Finish(r, id).futures) == Outstanding(r.futures) - {id}
  {
    var fs, gs := r.futures, Finish(r, id).futures;
    forall x | x in Outstanding(fs) - {id} ensures x in Outstanding(gs) {
      var i :| 0 <= i < |fs| && !fs[i].done && fs[i].id == x;
      assert gs[i] == fs[i];
    }
    forall x | x in Outstanding(gs) ensures x in Outstanding(fs) - {id} {
      var i :| 0 <= i < |gs| && !gs[i].done && gs[i].id == x;
      assert gs[i] == fs[i];
    }
  }

  lemma FinishedIdsSnoc(events: seq<Event>, k: nat)
    requires k < |events|
    ensures FinishedIds(events[..k + 1]) ==
      FinishedIds(events[..k]) + (if events[k].Finished? then {events[k].id} else {})
  {
    var a, b := events[..k], events[..k + 1];
    forall x | x in FinishedIds(b) ensures x in FinishedIds(a) || (events[k].Finished? && x == events[k].id) {
      var i :| 0 <= i < |b| && b[i].Finished? && b[i].id == x;
      if i < k { assert a[i] == b[i]; }
    }
    forall x | x in FinishedIds(a) ensures x in FinishedIds(b) {
      var i :| 0 <= i < |a| && a[i].Finished? && a[i].id == x;
      assert b[i] == a[i];
    }
    if events[k].Finished? {
      assert b[k] == events[k];
    }
  }

  /** The state the polling loop leaves, whether it left, and how many events passed first. */
  datatype Waited = Waited(state: State, exited: bool, consumed: nat)

  /**
   The polling loop of `main`: while the requester is open, prune the finished
   futures; if none is left, close the requester and leave; otherwise sleep, and
   `events` says what happens during each sleep. `exited` is false only when the
   events run out first. The loop leaves exactly at the first point where the
   requester is closed, was interrupted, or has every task finished, and it
   leaves a closed requester with no futures.
   */
  method Wait(r: State, events: seq<Event>) returns (w: Waited)
    requires WellFormed(r)
    ensures w.consumed <= |events|
    ensures w.exited <==> w.state.closed
    ensures w.exited ==> w.state.futures == [] && Settled(r, events, w.consumed)
    ensures forall k :: 0 <= k < w.consumed ==> !Settled(r, events, k)
    ensures !w.exited ==> w.consumed == |events| && !Settled(r, events, |events|)
    ensures r.closed ==> w.state == r && w.consumed == 0
    ensures (exists k :: 0 <= k <= |events| && Settled(r, events, k)) ==> w.exited
  {
    var s := r;
    var i := 0;
    while true
      invariant 0 <= i <= |events|
      invariant s.closed ==> s.futures == [] && Settled(r, events, i)
      invariant r.closed ==> s == r && i == 0
      invariant !s.closed ==> !r.closed && Interrupted !in events[..i]
      invariant !s.closed ==> Outstanding(s.futures) == Outstanding(r.futures) - FinishedIds(events[..i])
      invariant forall k :: 0 <= k < i ==> !Settled(r, events, k)
      decreases |events| - i
    {
      if s.closed {
        return Waited(s, true, i);
      }
      var c := IsDone(s, true);
      OutstandingPending(s.futures);
      OutstandingEmpty(s.futures);
      assert c.done <==> Outstanding(r.futures) - FinishedIds(events[..i]) == {};
      s := c.state;
      if c.done {
        assert Outstanding(r.futures) <= FinishedIds(events[..i]) by {
          forall x | x in Outstanding(r.futures) ensures x in FinishedIds(events[..i]) {
            assert x !in Outstanding(r.futures) - FinishedIds(events[..i]);
          }
        }
        s := Close(s);
        return Waited(s, true, i);
      }
      assert !Settled(r, events, i);
      if i == |events| {
        return Waited(s, false, i);
      }
      var e := events[i];
      FinishedIdsSnoc(events, i);
      assert events[..i + 1] == events[..i] + [e];
      if e.Finished? {
        OutstandingFinish(s, e.id);
      }
      s := Apply(s, e);
      i := i + 1;
    }
  }

  /** How `create_pdf`, and the clean-up after it, end. */
  datatype Finale =
    | Built(pages: seq<string>, store: Store)  // every page was added; clean-up ran if asked for
    | ListFailed(store: Store)                 // listing the missing `imgs` directory raised
    | RenderFailed(at: nat, store: Store)      // adding page `at` raised

  /**
   The end of `main`. `create_pdf` lists the staging directory, which raises when
   the directory was never created (no page was ever saved); otherwise it adds
   the pages in key order, and an image that cannot be added raises. Either
   exception leaves `main`, so the clean-up does not run. When every page is
   added, the clean-up removes the images unless `--no-cleanup` was given.
   `dirExists` says whether the directory exists and `renders` which images can
   be added to the PDF.
   */
  method Assemble(store: Store, dirExists: bool, listing: seq<string>, renders: string -> bool, cleanup: bool)
    returns (f: Finale)
    requires IsListing(listing, store)
    requires !dirExists ==> store == map[]
    ensures f.ListFailed? <==> !dirExists
    ensures f.RenderFailed? ==> f.at < |Pages(listing)| && !renders(Pages(listing)[f.at])
    ensures f.RenderFailed? ==> forall j :: 0 <= j < f.at ==> renders(Pages(listing)[j])
    ensures f.Built? <==> dirExists && forall x :: x in Pages(listing) ==> renders(x)
    ensures !f.Built? ==> f.store == store
    ensures f.Built? ==> f.pages == Pages(listing)
    ensures f.Built? ==> forall x :: x in f.pages <==> x in store && IsJpg(x)
    ensures f.Built? && cleanup ==> f.store == NonJpg(store)
    ensures f.Built? && !cleanup ==> f.store == store
  {
    if !dirExists {
      return ListFailed(store);
    }
    var pages := Pages(listing);
    var at := AddPages(pages, renders);
    if at < |pages| {
      return RenderFailed(at, store);
    }
    PagesOfStore(listing, store);
    var s := store;
    if cleanup {
      var ok;
      s, ok := CleanUp(store, listing);
    }
    f := Built(pages, s);
  }

  /**
   The page loop of `create_pdf`: adds the pages in order and stops at the first
   one that cannot be added, whose index it returns; `|pages|` when all were added.
   */
  method AddPages(pages: seq<string>, renders: string -> bool) returns (at: nat)
    ensures at <= |pages|
    ensures forall j :: 0 <= j < at ==> renders(pages[j])
    ensures at < |pages| ==> !renders(pages[at])
  {
    at := 0;
    while at < |pages| && renders(pages[at])
      invariant at <= |pages|
      invariant forall j :: 0 <= j < at ==> renders(pages[j])
    {
      at := at + 1;
    }
  }
}
