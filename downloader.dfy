/** The `Downloader` as objects: the table from URL to `ActiveDownload`, each
    holding its coroutine handle, its request and its subscriber list, and the
    requests themselves. Every method is proved to move the abstract state
    `model` exactly as the matching step of `DownloadModel` does; the
    callback calls a method makes are its result, and `model` records them. */
module Downloader {
  import opened Wrappers
  import opened DownloadModel

  /** A `UnityWebRequest`: the engine marks it done with a result and the
      downloaded text when its transfer ends. */
  class WebRequest {
    const url: string
    var isDone: bool
    var result: Outcome
    var text: string

    /** `UnityWebRequest.Get(url)`. */
    constructor Get(url: string)
      ensures this.url == url && !isDone && result == InProgress && text == []
    {
      this.url := url;
      isDone := false;
      result := InProgress;
      text := [];
    }
  }

  /** One callback call: the callback and the request object it was handed. */
  datatype Call = Call(callback: Callback, request: WebRequest)

  class ActiveDownload {
    ghost const key: string  // the URL this entry is stored under
    var coroutine: bool      // the coroutine handle is held
    var request: WebRequest?
    var onResult: seq<Callback>

    constructor (ghost key: string)
      ensures this.key == key && !coroutine && request == null && onResult == []
    {
      this.key := key;
      coroutine := false;
      request := null;
      onResult := [];
    }

    /** `OnResult += callback`. */
    method Subscribe(cb: Callback)
      modifies this
      ensures onResult == old(onResult) + [cb]
      ensures coroutine == old(coroutine) && request == old(request)
    {
      onResult := onResult + [cb];
    }

    /** `Invoke`: every subscriber, in subscription order, is called with the
        request. */
    method Invoke() returns (calls: seq<Call>)
      requires request != null
      ensures |calls| == |onResult|
      ensures forall i :: 0 <= i < |onResult| ==> calls[i] == Call(onResult[i], request)
    {
      calls := [];
      var i := 0;
      while i < |onResult|
        invariant 0 <= i <= |onResult| && |calls| == i
        invariant forall j :: 0 <= j < i ==> calls[j] == Call(onResult[j], request)
      {
        calls := calls + [Call(onResult[i], request)];
        i := i + 1;
      }
    }
  }

  /** The entry as a value. */
  ghost function EntryOf(p: ActiveDownload): Entry
    reads p, p.request
  {
    Entry(p.coroutine,
          if p.request == null then None else Some(Req(p.request.isDone, p.request.result, p.request.text)),
          p.onResult)
  }

  /** The calls as deliveries: each callback with the URL of its request. */
  function AsDeliveries(calls: seq<Call>): (ds: seq<Delivery>)
    ensures |ds| == |calls|
    ensures forall i :: 0 <= i < |calls| ==> ds[i] == Delivery(calls[i].callback, calls[i].request.url)
  {
    seq(|calls|, i requires 0 <= i < |calls| => Delivery(calls[i].callback, calls[i].request.url))
  }

  /** The entry's request, once made, is owned and is for `url`. */
  ghost predicate Serves(p: ActiveDownload, url: string, repr: set<object>)
    reads p
  {
    p.request != null ==> p.request in repr && p.request.url == url
  }

  class Downloader {
    var downloads: map<string, ActiveDownload>
    ghost var model: Coordinator  // the table as a value, and what happened so far
    ghost var Repr: set<object>

    /** Every entry and request is owned, and each entry and its request
        are for the URL the entry is stored under (so no entry serves two);
        `model` holds the value of every entry and no other URL. */
    ghost predicate Valid()
      reads this, Repr
    {
      && (forall u :: u in downloads ==>
            && downloads[u] in Repr && downloads[u].key == u && Serves(downloads[u], u, Repr)
            && u in model.downloads && model.downloads[u] == EntryOf(downloads[u]))
      && (forall u :: u in model.downloads ==> u in downloads)
    }

    constructor ()
      ensures Valid() && fresh(Repr)
      ensures model == Empty
    {
      downloads := map[];
      model := Empty;
      Repr := {};
    }

    /** `Download(url, onDownloadAction)`, `None` standing for a null action;
        `calls` are the callback calls it makes. */
    method Download(url: string, onDownloadAction: Option<Callback>) returns (calls: seq<Call>)
      requires Valid()
      modifies this, Repr
      ensures Valid() && fresh(Repr - old(Repr))
      ensures model == Fetch(old(model), url, onDownloadAction)
      ensures model.delivered == old(model).delivered + AsDeliveries(calls)
    {
      calls := [];
      if url in downloads {
        var downloadProcess := downloads[url];
        if onDownloadAction.Some? {
          if downloadProcess.request != null && downloadProcess.request.isDone {
            calls := Answer(url, onDownloadAction.value);
          } else {
            Wait(url, onDownloadAction.value);
          }
        }
        return;
      }
      AddDownload(url, onDownloadAction);
    }

    /** Line 39: the finished request of `url` is handed to `cb` at once. */
    method Answer(url: string, cb: Callback) returns (calls: seq<Call>)
      requires Valid() && url in downloads && downloads[url].request != null
      modifies this
      ensures Valid() && Repr == old(Repr) && downloads == old(downloads)
      ensures model == old(model).(delivered := old(model).delivered + [Delivery(cb, url)])
      ensures AsDeliveries(calls) == [Delivery(cb, url)]
    {
      calls := [Call(cb, downloads[url].request)];
      model := model.(delivered := model.delivered + [Delivery(cb, url)]);
    }

    /** Lines 43 and 54: `cb` joins the subscribers of `url`. */
    method Wait(url: string, cb: Callback)
      requires Valid() && url in downloads
      modifies this, Repr
      ensures Valid() && Repr == old(Repr) && downloads == old(downloads)
      ensures model == old(model).(downloads := old(model).downloads[url := old(model).downloads[url].(subscribers := old(model).downloads[url].subscribers + [cb])])
    {
      var downloadProcess := downloads[url];
      model := model.(downloads := model.downloads[url := model.downloads[url].(subscribers := model.downloads[url].subscribers + [cb])]);
      downloadProcess.Subscribe(cb);
    }

    /** `Download` for a URL without an entry (lines 50-57): a new entry
        holding the action, then the coroutine that makes the request. */
    method AddDownload(url: string, onDownloadAction: Option<Callback>)
      requires Valid() && url !in downloads
      modifies this, Repr
      ensures Valid() && fresh(Repr - old(Repr))
      ensures model == Fetch(old(model), url, onDownloadAction)
    {
      AddEntry(url, onDownloadAction);
      StartCoroutine(url);
    }

    /** Lines 50-55: a new entry, in the table, holding the action if any. */
    method AddEntry(url: string, onDownloadAction: Option<Callback>)
      requires Valid() && url !in downloads
      modifies this, Repr
      ensures Valid() && fresh(Repr - old(Repr)) && url in downloads
      ensures model == old(model).(downloads := old(model).downloads[url := Entry(false, None, AsList(onDownloadAction))])
    {
      Insert(url);
      AddAction(url, onDownloadAction);
    }

    /** Lines 52-55: the new entry of `url` holds the action, if any. */
    method AddAction(url: string, onDownloadAction: Option<Callback>)
      requires Valid() && url in downloads && model.downloads[url] == Entry(false, None, [])
      modifies this, Repr
      ensures Valid() && Repr == old(Repr) && downloads == old(downloads)
      ensures model == old(model).(downloads := old(model).downloads[url := Entry(false, None, AsList(onDownloadAction))])
    {
      if onDownloadAction.Some? {
        Wait(url, onDownloadAction.value);
        assert [] + [onDownloadAction.value] == AsList(onDownloadAction);
      }
    }

    /** Lines 50-51: a new, empty entry for `url` in the table. */
    method Insert(url: string)
      requires Valid() && url !in downloads
      modifies this
      ensures Valid() && fresh(Repr - old(Repr)) && url in downloads
      ensures model == old(model).(downloads := old(model).downloads[url := Entry(false, None, [])])
    {
      var downloadProcess := new ActiveDownload(url);
      downloads, Repr, model := downloads[url := downloadProcess], Repr + {downloadProcess},
                                model.(downloads := model.downloads[url := Entry(false, None, [])]);
    }

    /** `StartCoroutine(DownloadCoroutine(url))`, its handle stored in the
        entry (line 57). */
    method StartCoroutine(url: string)
      requires Valid() && url in downloads
      modifies this, Repr
      ensures Valid() && fresh(Repr - old(Repr))
      ensures model == Launch(old(model), url)
    {
      BeginTransfer(url);
      Hold(url);
    }

    /** The handle of the coroutine of `url` is stored in its entry. */
    method Hold(url: string)
      requires Valid() && url in downloads
      modifies this, Repr
      ensures Valid() && Repr == old(Repr) && downloads == old(downloads)
      ensures model == old(model).(downloads := old(model).downloads[url := old(model).downloads[url].(running := true)])
    {
      var downloadProcess := downloads[url];
      downloadProcess.coroutine, model := true, model.(downloads := model.downloads[url := model.downloads[url].(running := true)]);
    }

    /** `DownloadCoroutine` up to its first `yield` (lines 62-68), which the
        engine runs inside `StartCoroutine`. */
    method BeginTransfer(url: string)
      requires Valid()
      modifies this, Repr
      ensures Valid() && fresh(Repr - old(Repr)) && downloads == old(downloads)
      ensures model == Begin(old(model), url)
    {
      if url !in downloads {
        assert url !in model.downloads;
        return;
      }
      SendRequest(url);
    }

    /** Lines 67-68: a request for `url` is made and sent. */
    method SendRequest(url: string)
      requires Valid() && url in downloads
      modifies this, Repr
      ensures Valid() && fresh(Repr - old(Repr)) && downloads == old(downloads)
      ensures model == Begin(old(model), url)
    {
      var downloadProcess := downloads[url];
      var request := new WebRequest.Get(url);
      downloadProcess.request, Repr, model := request, Repr + {request}, Begin(model, url);
    }

    /** The engine ends the transfer of the request of `url` (line 68): the
        request is done with `outcome` and `text`. */
    method EndTransfer(url: string, outcome: Outcome, text: string)
      requires Valid() && url in downloads && downloads[url].request != null
      modifies this, Repr
      ensures Valid() && Repr == old(Repr) && downloads == old(downloads)
      ensures model == Transferred(old(model), url, outcome, text)
    {
      var request := downloads[url].request;
      request.isDone, request.result, request.text, model := true, outcome, text, Transferred(model, url, outcome, text);
    }

    /** The rest of `DownloadCoroutine` (lines 70-84), run when the engine
        resumes the coroutine of `url`: the handle is cleared, then every
        subscriber is called with the request; `calls` are those calls. */
    method Resume(url: string) returns (calls: seq<Call>)
      requires Valid() && url in downloads && downloads[url].request != null
      modifies this, Repr
      ensures Valid() && Repr == old(Repr) && downloads == old(downloads)
      ensures model == Resumed(old(model), url)
      ensures AsDeliveries(calls) == Deliveries(old(model).downloads[url].subscribers, url)
    {
      Release(url);
      calls := downloads[url].Invoke();
    }

    /** Line 83: the coroutine handle of `url` is cleared; `model` records the
        calls of its subscribers that follow. */
    method Release(url: string)
      requires Valid() && url in downloads && downloads[url].request != null
      modifies this, Repr
      ensures Valid() && Repr == old(Repr) && downloads == old(downloads)
      ensures model == Resumed(old(model), url)
      ensures downloads[url].onResult == old(downloads[url].onResult) && downloads[url].request == old(downloads[url].request)
      ensures downloads[url].request.url == url
    {
      var downloadProcess := downloads[url];
      downloadProcess.coroutine, model := false, Resumed(model, url);
    }
  }
}
