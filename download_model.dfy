/** The state of the `Downloader` as values: per URL, whether its coroutine is
    still held, the request it made (whether done, its result and its text)
    and the callbacks subscribed to it; the transfers started; and the
    callback calls made so far. A callback call is recorded as the callback
    and the URL whose request it was handed, since each URL has at most one
    request. */
module DownloadModel {
  import opened Wrappers

  /** `UnityWebRequest.Result`. */
  datatype Outcome = InProgress | Success | ConnectionError | ProtocolError | DataProcessingError

  /** A subscriber, known by identity only. */
  datatype Callback = Callback(id: nat)

  datatype Req = Req(isDone: bool, result: Outcome, text: string)

  datatype Entry = Entry(running: bool, request: Option<Req>, subscribers: seq<Callback>)

  datatype Delivery = Delivery(callback: Callback, url: string)

  datatype Coordinator = Coordinator(downloads: map<string, Entry>, started: seq<string>, delivered: seq<Delivery>)

  const Empty: Coordinator := Coordinator(map[], [], [])

  /** The request of the entry exists and has finished. */
  predicate IsDone(e: Entry) {
    e.request.Some? && e.request.value.isDone
  }

  function AsList(cb: Option<Callback>): seq<Callback> {
    if cb.Some? then [cb.value] else []
  }

  /** One call per subscriber, in subscription order, each handed the request
      of `url`. */
  function Deliveries(subs: seq<Callback>, url: string): (ds: seq<Delivery>)
    ensures |ds| == |subs|
    ensures forall i :: 0 <= i < |subs| ==> ds[i] == Delivery(subs[i], url)
  {
    if subs == [] then [] else Deliveries(subs[..|subs| - 1], url) + [Delivery(subs[|subs| - 1], url)]
  }

  /** `DownloadCoroutine` up to its first `yield` (lines 62-68): when the URL
      has an entry, a fresh request for it is made and the transfer starts. */
  function Begin(c: Coordinator, url: string): (r: Coordinator)
    ensures r.downloads.Keys == c.downloads.Keys && r.delivered == c.delivered
    ensures url !in c.downloads ==> r == c
    ensures url in c.downloads ==>
              r.started == c.started + [url] &&
              r.downloads == c.downloads[url := c.downloads[url].(request := Some(Req(false, InProgress, [])))]
  {
    if url !in c.downloads then c
    else
      var e := c.downloads[url];
      c.(downloads := c.downloads[url := e.(request := Some(Req(false, InProgress, [])))],
         started := c.started + [url])
  }

  /** `Download(url, callback)`. */
  function Fetch(c: Coordinator, url: string, cb: Option<Callback>): (r: Coordinator)
    // entries are never removed, and only a URL without one gets one
    ensures r.downloads.Keys == c.downloads.Keys + {url}
    ensures forall u :: u in c.downloads && u != url ==> r.downloads[u] == c.downloads[u]
    // exactly one transfer is started, by the first call for a URL only
    ensures r.started == if url in c.downloads then c.started else c.started + [url]
    // a missing callback for a known URL changes nothing
    ensures url in c.downloads && cb.None? ==> r == c
    // a known URL whose request is done answers at once; otherwise the
    // callback waits among the subscribers
    ensures url in c.downloads && IsDone(c.downloads[url]) ==>
              r.delivered == c.delivered + Deliveries(AsList(cb), url) && r.downloads == c.downloads
    ensures url in c.downloads && !IsDone(c.downloads[url]) ==>
              r.delivered == c.delivered &&
              r.downloads[url] == c.downloads[url].(subscribers := c.downloads[url].subscribers + AsList(cb))
    // a new URL: its coroutine is held, its request is made and not done
    ensures url !in c.downloads ==>
              r.delivered == c.delivered &&
              r.downloads[url] == Entry(true, Some(Req(false, InProgress, [])), AsList(cb))
  {
    if url in c.downloads then
      var e := c.downloads[url];
      if cb.None? then c
      else if e.request.Some? && e.request.value.isDone then
        c.(delivered := c.delivered + [Delivery(cb.value, url)])
      else
        c.(downloads := c.downloads[url := e.(subscribers := e.subscribers + [cb.value])])
    else
      Launch(c.(downloads := c.downloads[url := Entry(false, None, AsList(cb))]), url)
  }

  /** `StartCoroutine(DownloadCoroutine(url))` and the handle stored in the
      entry (line 57): the coroutine runs to its first `yield`, then is held. */
  function Launch(c: Coordinator, url: string): (r: Coordinator)
    requires url in c.downloads
    ensures r.downloads.Keys == c.downloads.Keys && r.delivered == c.delivered
    ensures r.started == c.started + [url]
    ensures forall u :: u in c.downloads && u != url ==> r.downloads[u] == c.downloads[u]
    ensures r.downloads[url] == c.downloads[url].(running := true, request := Some(Req(false, InProgress, [])))
  {
    var b := Begin(c, url);
    b.(downloads := b.downloads[url := b.downloads[url].(running := true)])
  }

  /** The engine ends the transfer of the request of `url` (line 68): the
      request is done with the result and text the transfer produced. */
  function Transferred(c: Coordinator, url: string, outcome: Outcome, text: string): (r: Coordinator)
    requires url in c.downloads && c.downloads[url].request.Some?
    ensures r.downloads.Keys == c.downloads.Keys && r.started == c.started && r.delivered == c.delivered
    ensures forall u :: u in c.downloads && u != url ==> r.downloads[u] == c.downloads[u]
    ensures r.downloads[url] == c.downloads[url].(request := Some(Req(true, outcome, text)))
  {
    c.(downloads := c.downloads[url := c.downloads[url].(request := Some(Req(true, outcome, text)))])
  }

  /** The coroutine of `url` resumes (lines 70-84): the handle is cleared and
      every subscriber is called once, in subscription order, with the
      request. A failed result is only logged. */
  function Resumed(c: Coordinator, url: string): (r: Coordinator)
    requires url in c.downloads
    ensures r.downloads.Keys == c.downloads.Keys && r.started == c.started
    ensures forall u :: u in c.downloads && u != url ==> r.downloads[u] == c.downloads[u]
    ensures r.downloads[url] == c.downloads[url].(running := false)
    ensures r.delivered == c.delivered + Deliveries(c.downloads[url].subscribers, url)
  {
    var e := c.downloads[url];
    c.(downloads := c.downloads[url := e.(running := false)],
       delivered := c.delivered + Deliveries(e.subscribers, url))
  }

  // ---------------------------------------------------------------------------
  // Runs of calls and completions.

  /** A call of `Download`; the engine ending the transfer of the request of
      `url` (line 68); or the engine resuming the coroutine of `url` on the
      next frame after that (lines 70-84). Other code may run between the
      last two. */
  datatype Op =
    | Get(url: string, cb: Option<Callback>)
    | TransferEnd(url: string, outcome: Outcome, text: string)
    | CoroutineResume(url: string)

  /** The engine ends only a transfer still in progress, of a coroutine
      suspended on it. */
  predicate CanEnd(c: Coordinator, url: string) {
    url in c.downloads && c.downloads[url].running && c.downloads[url].request.Some? && !c.downloads[url].request.value.isDone
  }

  /** The engine resumes only a coroutine suspended on a request that is done. */
  predicate CanResume(c: Coordinator, url: string) {
    url in c.downloads && c.downloads[url].running && IsDone(c.downloads[url])
  }

  /** An event that cannot happen in the state changes nothing. */
  function Apply(c: Coordinator, op: Op): Coordinator {
    match op
    case Get(url, cb) => Fetch(c, url, cb)
    case TransferEnd(url, outcome, text) => if CanEnd(c, url) then Transferred(c, url, outcome, text) else c
    case CoroutineResume(url) => if CanResume(c, url) then Resumed(c, url) else c
  }

  /** The state after the operations, from a fresh `Downloader`. */
  function Run(ops: seq<Op>): Coordinator {
    if ops == [] then Empty else Apply(Run(ops[..|ops| - 1]), ops[|ops| - 1])
  }

  /** The callbacks passed for `url`, in call order. */
  function Registered(ops: seq<Op>, url: string): seq<Callback> {
    if ops == [] then []
    else
      var op := ops[|ops| - 1];
      Registered(ops[..|ops| - 1], url) + (if op.Get? && op.url == url then AsList(op.cb) else [])
  }

  /** Some operation calls `Download` for `url`. */
  predicate Requested(ops: seq<Op>, url: string) {
    exists i :: 0 <= i < |ops| && ops[i].Get? && ops[i].url == url
  }

  /** The callbacks called with the request of `url`, in call order. */
  function DeliveredTo(log: seq<Delivery>, url: string): seq<Callback> {
    if log == [] then []
    else DeliveredTo(log[..|log| - 1], url) + (if log[|log| - 1].url == url then [log[|log| - 1].callback] else [])
  }

  lemma {:induction false} DeliveredToAppend(a: seq<Delivery>, b: seq<Delivery>, url: string)
    ensures DeliveredTo(a + b, url) == DeliveredTo(a, url) + DeliveredTo(b, url)
    decreases |b|
  {
    if b == [] {
      assert a + b == a;
    } else {
      var b' := b[..|b| - 1];
      assert (a + b)[..|a + b| - 1] == a + b';
      assert (a + b)[|a + b| - 1] == b[|b| - 1];
      DeliveredToAppend(a, b', url);
    }
  }

  lemma {:induction false} DeliveredToDeliveries(subs: seq<Callback>, u: string, url: string)
    ensures DeliveredTo(Deliveries(subs, u), url) == if u == url then subs else []
  {
    if subs != [] {
      var ds := Deliveries(subs, u);
      assert ds[..|ds| - 1] == Deliveries(subs[..|subs| - 1], u);
      DeliveredToDeliveries(subs[..|subs| - 1], u, url);
      assert subs[..|subs| - 1] + [subs[|subs| - 1]] == subs;
    }
  }

  /** The calls made for a URL whose coroutine has resumed, `d`, against
      the callbacks passed for it, `r`: the subscribers `s` were passed
      first; then `k` callbacks were passed after the transfer ended and
      before the coroutine resumed, and were called at once; then the
      subscribers were called; then every later callback was called at once. */
  predicate LateSplit(r: seq<Callback>, s: seq<Callback>, d: seq<Callback>, k: nat) {
    |s| + k <= |r| && r[..|s|] == s && d == r[|s|..|s| + k] + s + r[|s| + k..]
  }

  /** Some number of late callbacks splits the calls as `LateSplit` says. */
  ghost predicate Answered(r: seq<Callback>, s: seq<Callback>, d: seq<Callback>) {
    exists k :: LateSplit(r, s, d, k)
  }

  /** The phase of one requested URL, given its entry `e`, the callbacks
      passed for it `r` and the calls made with its request `d`: a request
      exists, and one of three phases holds. While the transfer runs, the
      coroutine is held, nothing has been called and every callback passed
      waits as a subscriber. Once it has ended but before the coroutine
      resumes, the subscribers are the callbacks passed first and the calls
      are the later ones, in order. Once it has resumed, the calls are as
      `LateSplit` says. */
  ghost predicate EntryTracks(e: Entry, r: seq<Callback>, d: seq<Callback>) {
    && e.request.Some?
    && (!e.request.value.isDone ==> e.running && d == [] && e.subscribers == r)
    && (e.request.value.isDone && e.running ==> r == e.subscribers + d)
    && (e.request.value.isDone && !e.running ==> Answered(r, e.subscribers, d))
  }

  /** What the state records for one URL after `ops`: nothing if it was never
      requested, otherwise the phase `EntryTracks` describes. */
  ghost predicate Tracks(c: Coordinator, ops: seq<Op>, url: string) {
    && (url in c.downloads <==> Requested(ops, url))
    && (url !in c.downloads ==> Registered(ops, url) == [] && DeliveredTo(c.delivered, url) == [])
    && (url in c.downloads ==> EntryTracks(c.downloads[url], Registered(ops, url), DeliveredTo(c.delivered, url)))
  }

  /** The transfers started are the requested URLs, each once. */
  ghost predicate StartedOnce(c: Coordinator) {
    && (forall i, j :: 0 <= i < j < |c.started| ==> c.started[i] != c.started[j])
    && (forall u :: u in c.started <==> u in c.downloads)
  }

  lemma RequestedStep(ops: seq<Op>, op: Op, url: string)
    ensures Requested(ops + [op], url) <==> Requested(ops, url) || (op.Get? && op.url == url)
  {
    var ops' := ops + [op];
    if Requested(ops', url) && !(op.Get? && op.url == url) {
      var i :| 0 <= i < |ops'| && ops'[i].Get? && ops'[i].url == url;
      assert ops'[i] == ops[i];
    }
    if Requested(ops, url) {
      var i :| 0 <= i < |ops| && ops[i].Get? && ops[i].url == url;
      assert ops'[i] == ops[i];
    }
    if op.Get? && op.url == url {
      assert ops'[|ops|] == op;
    }
  }

  lemma {:induction false} TracksStep(c: Coordinator, ops: seq<Op>, op: Op, url: string)
    requires Tracks(c, ops, url)
    ensures Tracks(Apply(c, op), ops + [op], url)
  {
    var ops' := ops + [op];
    assert ops'[..|ops'| - 1] == ops;
    RequestedStep(ops, op, url);
    match op
    case Get(u, cb) => TracksGet(c, ops, u, cb, url);
    case TransferEnd(u, outcome, text) => TracksEnd(c, ops, u, outcome, text, url);
    case CoroutineResume(u) => TracksResume(c, ops, u, url);
  }

  lemma {:induction false} TracksGet(c: Coordinator, ops: seq<Op>, u: string, cb: Option<Callback>, url: string)
    requires Tracks(c, ops, url)
    requires Registered(ops + [Get(u, cb)], url) == Registered(ops, url) + (if u == url then AsList(cb) else [])
    requires Requested(ops + [Get(u, cb)], url) <==> Requested(ops, url) || u == url
    ensures Tracks(Fetch(c, u, cb), ops + [Get(u, cb)], url)
  {
    if u !in c.downloads {
      TracksNew(c, ops, u, cb, url);
    } else if IsDone(c.downloads[u]) {
      TracksAnswered(c, ops, u, cb, url);
    } else {
      TracksWaiting(c, ops, u, cb, url);
    }
  }

  /** The first `Download` of `u`. */
  lemma TracksNew(c: Coordinator, ops: seq<Op>, u: string, cb: Option<Callback>, url: string)
    requires Tracks(c, ops, url) && u !in c.downloads
    requires Registered(ops + [Get(u, cb)], url) == Registered(ops, url) + (if u == url then AsList(cb) else [])
    requires Requested(ops + [Get(u, cb)], url) <==> Requested(ops, url) || u == url
    ensures Tracks(Fetch(c, u, cb), ops + [Get(u, cb)], url)
  {
    var c' := Fetch(c, u, cb);
    if u == url {
      assert EntryTracks(c'.downloads[url], Registered(ops, url) + AsList(cb), DeliveredTo(c'.delivered, url));
    } else {
      assert Registered(ops + [Get(u, cb)], url) == Registered(ops, url);
      if url in c.downloads {
        assert c'.downloads[url] == c.downloads[url];
        assert EntryTracks(c'.downloads[url], Registered(ops, url), DeliveredTo(c.delivered, url));
      }
    }
  }

  /** A `Download` of `u` whose request is done: the callback is called. */
  lemma TracksAnswered(c: Coordinator, ops: seq<Op>, u: string, cb: Option<Callback>, url: string)
    requires Tracks(c, ops, url) && u in c.downloads && IsDone(c.downloads[u])
    requires Registered(ops + [Get(u, cb)], url) == Registered(ops, url) + (if u == url then AsList(cb) else [])
    requires Requested(ops + [Get(u, cb)], url) <==> Requested(ops, url) || u == url
    ensures Tracks(Fetch(c, u, cb), ops + [Get(u, cb)], url)
  {
    var c' := Fetch(c, u, cb);
    var x := AsList(cb);
    DeliveredToAppend(c.delivered, Deliveries(x, u), url);
    DeliveredToDeliveries(x, u, url);
    assert c'.downloads == c.downloads;
    if u == url {
      var e, r, d := c.downloads[u], Registered(ops, url), DeliveredTo(c.delivered, url);
      assert DeliveredTo(c'.delivered, url) == d + x;
      AnsweredEntry(e, r, d, x);
    } else {
      assert DeliveredTo(c'.delivered, url) == DeliveredTo(c.delivered, url);
      assert Registered(ops + [Get(u, cb)], url) == Registered(ops, url);
    }
  }

  /** The entry of a done request keeps its phase when a callback is
      answered at once. */
  lemma AnsweredEntry(e: Entry, r: seq<Callback>, d: seq<Callback>, x: seq<Callback>)
    requires EntryTracks(e, r, d) && IsDone(e)
    ensures EntryTracks(e, r + x, d + x)
  {
    if e.running {
      assert r + x == e.subscribers + (d + x);
    } else {
      var k :| LateSplit(r, e.subscribers, d, k);
      LateSplitAppend(r, e.subscribers, d, k, x);
    }
  }

  /** A callback passed once the request is done is called after all calls
      so far. */
  lemma LateSplitAppend(r: seq<Callback>, s: seq<Callback>, d: seq<Callback>, k: nat, x: seq<Callback>)
    requires LateSplit(r, s, d, k)
    ensures LateSplit(r + x, s, d + x, k)
  {
    assert (r + x)[..|s|] == r[..|s|];
    assert (r + x)[|s|..|s| + k] == r[|s|..|s| + k];
    assert (r + x)[|s| + k..] == r[|s| + k..] + x;
  }

  /** A `Download` of `u` whose request is not done: the callback waits. */
  lemma TracksWaiting(c: Coordinator, ops: seq<Op>, u: string, cb: Option<Callback>, url: string)
    requires Tracks(c, ops, url) && u in c.downloads && !IsDone(c.downloads[u])
    requires Registered(ops + [Get(u, cb)], url) == Registered(ops, url) + (if u == url then AsList(cb) else [])
    requires Requested(ops + [Get(u, cb)], url) <==> Requested(ops, url) || u == url
    ensures Tracks(Fetch(c, u, cb), ops + [Get(u, cb)], url)
  {
    var c' := Fetch(c, u, cb);
    assert c'.delivered == c.delivered;
    if u == url {
      assert EntryTracks(c'.downloads[url], Registered(ops, url) + AsList(cb), DeliveredTo(c.delivered, url));
    } else {
      assert Registered(ops + [Get(u, cb)], url) == Registered(ops, url);
      if url in c.downloads {
        assert c'.downloads[url] == c.downloads[url];
        assert EntryTracks(c'.downloads[url], Registered(ops, url), DeliveredTo(c.delivered, url));
      }
    }
  }

  /** The engine ends a transfer: its waiting subscribers are all the
      callbacks passed so far. */
  lemma TracksEnd(c: Coordinator, ops: seq<Op>, u: string, outcome: Outcome, text: string, url: string)
    requires Tracks(c, ops, url)
    requires Registered(ops + [TransferEnd(u, outcome, text)], url) == Registered(ops, url)
    requires Requested(ops + [TransferEnd(u, outcome, text)], url) <==> Requested(ops, url)
    ensures Tracks(Apply(c, TransferEnd(u, outcome, text)), ops + [TransferEnd(u, outcome, text)], url)
  {
    var c' := Apply(c, TransferEnd(u, outcome, text));
    assert c'.delivered == c.delivered;
    if CanEnd(c, u) && u == url {
      var e := c.downloads[u];
      assert e.subscribers + [] == e.subscribers;
      assert EntryTracks(c'.downloads[url], Registered(ops, url), DeliveredTo(c.delivered, url));
    } else if url in c.downloads {
      assert c'.downloads[url] == c.downloads[url];
    }
  }

  /** The coroutine resumes: its subscribers are called after the callbacks
      answered at once since the transfer ended. */
  lemma {:induction false} TracksResume(c: Coordinator, ops: seq<Op>, u: string, url: string)
    requires Tracks(c, ops, url)
    requires Registered(ops + [CoroutineResume(u)], url) == Registered(ops, url)
    requires Requested(ops + [CoroutineResume(u)], url) <==> Requested(ops, url)
    ensures Tracks(Apply(c, CoroutineResume(u)), ops + [CoroutineResume(u)], url)
  {
    var c' := Apply(c, CoroutineResume(u));
    if CanResume(c, u) {
      var subs := c.downloads[u].subscribers;
      DeliveredToAppend(c.delivered, Deliveries(subs, u), url);
      DeliveredToDeliveries(subs, u, url);
      if u == url {
        var d := DeliveredTo(c.delivered, url);
        assert DeliveredTo(c'.delivered, url) == d + subs;
        ResumeSplit(subs, d);
        assert EntryTracks(c'.downloads[url], Registered(ops, url), d + subs);
      } else {
        assert DeliveredTo(c'.delivered, url) == DeliveredTo(c.delivered, url);
        if url in c.downloads {
          assert c'.downloads[url] == c.downloads[url];
        }
      }
    }
  }

  /** Resuming after the late callbacks `d` were answered. */
  lemma ResumeSplit(s: seq<Callback>, d: seq<Callback>)
    ensures LateSplit(s + d, s, d + s, |d|)
  {
    var r := s + d;
    assert r[..|s|] == s;
    assert r[|s|..|s| + |d|] == d;
    assert r[|s| + |d|..] == [];
  }

  lemma StartedOnceStep(c: Coordinator, op: Op)
    requires StartedOnce(c)
    ensures StartedOnce(Apply(c, op))
  {
  }

  /** Over any run, with the end of a transfer and the resumption of its
      coroutine as separate events: every URL requested has exactly one entry
      and exactly one transfer started for it, and nothing passed for it is
      called before its request is done. The callbacks passed while the
      transfer ran wait, and are called together, in the order passed, when
      the coroutine resumes. Every callback passed after the transfer ended
      is called at once; each callback is called once. */
  lemma {:induction false} ExactlyOnce(ops: seq<Op>)
    ensures StartedOnce(Run(ops))
    ensures forall url :: Tracks(Run(ops), ops, url)
  {
    if ops == [] {
      forall url ensures Tracks(Run(ops), ops, url) {
      }
    } else {
      var init := ops[..|ops| - 1];
      var op := ops[|ops| - 1];
      ExactlyOnce(init);
      assert init + [op] == ops;
      StartedOnceStep(Run(init), op);
      forall url ensures Tracks(Run(ops), ops, url) {
        TracksStep(Run(init), init, op, url);
      }
    }
  }

  /** For the callers of `Download`, over any run: nothing passed for a URL
      is called before its request is done; while its coroutine is held,
      every callback passed has been called once or is waiting, not both;
      once it has resumed, every callback passed has been called exactly
      once. */
  lemma {:induction false} CalledExactlyOnce(ops: seq<Op>, url: string)
    ensures var c := Run(ops);
      && (url !in c.downloads || !IsDone(c.downloads[url]) ==> DeliveredTo(c.delivered, url) == [])
      && (url in c.downloads && c.downloads[url].running ==>
            multiset(DeliveredTo(c.delivered, url)) + multiset(c.downloads[url].subscribers) == multiset(Registered(ops, url)))
      && (url in c.downloads && !c.downloads[url].running ==>
            multiset(DeliveredTo(c.delivered, url)) == multiset(Registered(ops, url)))
  {
    ExactlyOnce(ops);
    TrackedCalls(Run(ops), ops, url);
  }

  lemma TrackedCalls(c: Coordinator, ops: seq<Op>, url: string)
    requires Tracks(c, ops, url)
    ensures url !in c.downloads || !IsDone(c.downloads[url]) ==> DeliveredTo(c.delivered, url) == []
    ensures url in c.downloads && c.downloads[url].running ==>
              multiset(DeliveredTo(c.delivered, url)) + multiset(c.downloads[url].subscribers) == multiset(Registered(ops, url))
    ensures url in c.downloads && !c.downloads[url].running ==>
              multiset(DeliveredTo(c.delivered, url)) == multiset(Registered(ops, url))
  {
    if url in c.downloads {
      EntryCalls(c.downloads[url], Registered(ops, url), DeliveredTo(c.delivered, url));
    }
  }

  lemma EntryCalls(e: Entry, r: seq<Callback>, d: seq<Callback>)
    requires EntryTracks(e, r, d)
    ensures !IsDone(e) ==> d == []
    ensures e.running ==> multiset(d) + multiset(e.subscribers) == multiset(r)
    ensures !e.running ==> multiset(d) == multiset(r)
  {
    if !e.running {
      var k :| LateSplit(r, e.subscribers, d, k);
      LateSplitMultiset(r, e.subscribers, d, k);
    }
  }

  /** The calls after a resume are the callbacks passed, reordered. */
  lemma LateSplitMultiset(r: seq<Callback>, s: seq<Callback>, d: seq<Callback>, k: nat)
    requires LateSplit(r, s, d, k)
    ensures multiset(d) == multiset(r)
  {
    assert r == r[..|s|] + r[|s|..|s| + k] + r[|s| + k..];
  }

  /** A callback passed after the transfer ended but before the coroutine
      resumed is answered at once, so it is called before the subscriber that
      was waiting. */
  lemma LateCallbackFirst()
    ensures var ops := [Get("u", Some(Callback(1))), TransferEnd("u", Outcome.Success, "t"), Get("u", Some(Callback(2))), CoroutineResume("u")];
      DeliveredTo(Run(ops).delivered, "u") == [Callback(2), Callback(1)]
  {
    var g1, e2, g3, r4 := Get("u", Some(Callback(1))), TransferEnd("u", Outcome.Success, "t"), Get("u", Some(Callback(2))), CoroutineResume("u");
    var ops := [g1, e2, g3, r4];
    var c1 := Fetch(Empty, "u", Some(Callback(1)));
    assert c1.downloads["u"] == Entry(true, Some(Req(false, InProgress, [])), [Callback(1)]) && c1.delivered == [];
    assert Run([g1]) == c1 by { assert [g1][..0] == []; }
    var c2 := Transferred(c1, "u", Outcome.Success, "t");
    assert Run([g1, e2]) == c2 by { assert [g1, e2][..1] == [g1]; }
    var c3 := Fetch(c2, "u", Some(Callback(2)));
    assert c3.downloads == c2.downloads && c3.delivered == [Delivery(Callback(2), "u")];
    assert Run([g1, e2, g3]) == c3 by { assert [g1, e2, g3][..2] == [g1, e2]; }
    var c4 := Resumed(c3, "u");
    assert Deliveries([Callback(1)], "u") == [Delivery(Callback(1), "u")];
    assert Run(ops) == c4 by { assert ops[..3] == [g1, e2, g3]; }
    var log := c4.delivered;
    assert log == [Delivery(Callback(2), "u"), Delivery(Callback(1), "u")];
    assert log[..1] == [Delivery(Callback(2), "u")] && log[..1][..0] == [];
    assert DeliveredTo(log[..1], "u") == [Callback(2)];
  }
}
