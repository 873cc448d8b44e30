/** The HTTP front end of src/api/server.py as a pure routing table from a request
    path to a response. One engine is created and loaded once at start-up; request
    handling only reads it. Sockets, threads and the host's default headers are left out. */
module TwinServer {
  import opened Results
  import Text
  import opened TwinEngine
  import Json
  import Decimal

  datatype Response = Response(status: int, headers: seq<(string, string)>, body: seq<Json.byte>)

  const StatusOk: Json.Object := [("status", Json.Str("ok"))]
  const NotFound: Json.Object := [("error", Json.Str("not found"))]

  /** `_send_json`: the UTF-8 bytes of `json.dumps(obj)`, a JSON content type and a
      Content-Length equal to the number of bytes sent. */
  function SendJson(obj: Json.Object, status: int): (r: Response)
    ensures r.status == status
    ensures r.body == Json.Utf8(Json.Dumps(obj))
    ensures r.headers == [("Content-Type", "application/json"),
                          ("Content-Length", Decimal.IntToString(|r.body|))]
  {
    var data := Json.Utf8(Json.Dumps(obj));
    Response(status, [("Content-Type", "application/json"), ("Content-Length", Decimal.IntToString(|data|))], data)
  }

  /** `do_GET`: exact string comparison of the path against the three routes; any other
      path is 404 (Not Found, section 15.5.5 of RFC 9110) with an error body. */
  function HandleGet(e: Engine, path: string): (r: Response)
    ensures path == "/" || path == "/health" ==> r == SendJson(StatusOk, 200)
    ensures path == "/state" ==> r == SendJson(State(e), 200)
    ensures path != "/" && path != "/health" && path != "/state" ==> r == SendJson(NotFound, 404)
    ensures r.status == 200 || r.status == 404
    ensures r.status == 200 <==> path in {"/", "/health", "/state"}
  {
    if path == "/" || path == "/health" then SendJson(StatusOk, 200)
    else if path == "/state" then SendJson(State(e), 200)
    else SendJson(NotFound, 404)
  }

  /** The process's engine: created on the default directory and loaded once, before
      the first request. */
  function StartUp(probe: DirProbe): (e: Engine)
    ensures e.tick == 0 && e.assets == Observe(probe) && !e.running
    ensures e.assetsDir == DefaultAssetsDir
  {
    LoadAssets(Create(DefaultAssetsDir), probe)
  }

  /** Handling a batch of requests against one engine, in request order. No GET changes
      the engine, so equal requests get equal responses anywhere in the batch; only
      `/state` reads the engine, and the other routes answer the same whatever its
      state. */
  function Serve(e: Engine, paths: seq<string>): (rs: seq<Response>)
    ensures |rs| == |paths|
    ensures forall i :: 0 <= i < |paths| ==> (rs[i].status == 200 <==> paths[i] in {"/", "/health", "/state"})
    ensures forall i, j :: 0 <= i < |paths| && 0 <= j < |paths| && paths[i] == paths[j] ==> rs[i] == rs[j]
    ensures forall i :: 0 <= i < |paths| && paths[i] == "/state" ==> rs[i] == SendJson(State(e), 200)
    ensures forall i :: 0 <= i < |paths| && paths[i] != "/state" ==>
      forall e2: Engine :: rs[i] == HandleGet(e2, paths[i])
  {
    seq(|paths|, i requires 0 <= i < |paths| => HandleGet(e, paths[i]))
  }

  /** The declared Content-Length always reads back as the body's byte count, and that
      count is the number of characters of the JSON text. */
  lemma ContentLengthExact(obj: Json.Object, status: int)
    ensures Decimal.ParseInt(SendJson(obj, status).headers[1].1) == Some(|SendJson(obj, status).body|)
    ensures |SendJson(obj, status).body| == |Json.Dumps(obj)|
  {
    Decimal.IntToStringRoundTrip(|SendJson(obj, status).body|);
    Json.EncodedLength(obj);
  }

  /** Near misses of a route are not routes: a trailing slash or a query string is 404. */
  lemma ExactRouting(e: Engine)
    ensures HandleGet(e, "/health/").status == 404
    ensures HandleGet(e, "/state?x=1").status == 404
    ensures HandleGet(e, "/missing").status == 404
  {
    assert "/health/" != "/" && "/health/" != "/health" && "/health/" != "/state";
    assert "/state?x=1" != "/" && "/state?x=1" != "/health" && "/state?x=1" != "/state";
    assert "/missing" != "/" && "/missing" != "/health" && "/missing" != "/state";
  }

  /** The `/state` text reads back as the engine's clock and asset count. */
  lemma ReadStateRoundTrip(e: Engine)
    ensures Json.ReadPair(Json.Dumps(State(e)), "tick", "assets") == Some((e.tick as int, e.assets as int))
  {
    Json.ReadPairRoundTrip("tick", e.tick, "assets", e.assets);
  }

  /** Printable text is determined by its UTF-8 bytes. */
  lemma Utf8InjectiveOnJson(o1: Json.Object, o2: Json.Object)
    requires Json.Utf8(Json.Dumps(o1)) == Json.Utf8(Json.Dumps(o2))
    ensures Json.Dumps(o1) == Json.Dumps(o2)
  {
    Json.DumpsPrintable(o1);
    Json.DumpsPrintable(o2);
    Json.Utf8OfPrintable(Json.Dumps(o1));
    Json.Utf8OfPrintable(Json.Dumps(o2));
    var d1, d2 := Json.Dumps(o1), Json.Dumps(o2);
    assert |d1| == |d2|;
    forall i | 0 <= i < |d1|
      ensures d1[i] == d2[i]
    {
      assert Json.Utf8(d1)[i] == Json.Utf8(d2)[i];
    }
  }

  /** The `/state` response reflects the engine: two engines give the same `/state`
      response exactly when their counters agree. */
  lemma StateRouteFaithful(e1: Engine, e2: Engine)
    ensures HandleGet(e1, "/state") == HandleGet(e2, "/state") <==> e1.tick == e2.tick && e1.assets == e2.assets
  {
    StateFaithful(e1, e2);
    if HandleGet(e1, "/state") == HandleGet(e2, "/state") {
      Utf8InjectiveOnJson(State(e1), State(e2));
      ReadStateRoundTrip(e1);
      ReadStateRoundTrip(e2);
    }
  }
}
