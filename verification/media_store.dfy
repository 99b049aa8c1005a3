/** The store session: the client handle and the public operations, each of
    which refuses to run before a client exists. */
module MediaStore {
  import opened Common
  import opened Store
  import Region
  import Lister
  import Walker
  import Deleter

  /** The client the session talks to the store through. */
  datatype Client = Client(accessKeyId: string, secretAccessKey: string, region: Option<string>, endpoint: string)

  /** The session's fields: the client handle (`null` until set) and the last
      endpoint passed to `authenticate`. */
  datatype Session = Session(client: Option<Client>, endpoint: Option<string>)

  /** The two states of a session: with or without a client. */
  predicate Authenticated(s: Session)
  {
    s.client.Some?
  }

  /** `authenticate`: records the endpoint, builds a client from the
      credentials and the endpoint's region, and sends a one-item listing
      request whose answer is `probe`. If that request throws, the client is
      cleared and the answer is false. Otherwise the answer is whether the
      response carries `Items`, and the client stays set even when it does
      not. Whatever the session held before is replaced. */
  function Authenticate(s: Session, secretAccessKey: string, accessKeyId: string, endpoint: string, probe: Page): (r: (Session, bool))
    ensures r.0.endpoint == Some(endpoint)
    ensures Authenticated(r.0) <==> !probe.Failed?
    ensures Authenticated(r.0) ==>
              r.0.client.value == Client(accessKeyId, secretAccessKey, Region.EndpointToRegion(endpoint), endpoint)
    ensures r.1 <==> probe.Page? && probe.items.Present?
    ensures r.1 ==> Authenticated(r.0)
  {
    var client := Client(accessKeyId, secretAccessKey, Region.EndpointToRegion(endpoint), endpoint);
    if probe.Failed? then (Session(None, Some(endpoint)), false)
    else (Session(Some(client), Some(endpoint)), probe.items.Present?)
  }

  /** `getFiles`: without a client it fails with `NotAuthenticated` before
      sending anything; otherwise it is the paginated lister. */
  method GetFiles(s: Session, path: string, l: Listing) returns (r: Result<seq<Item>>, sent: seq<Request>)
    ensures !Authenticated(s) ==> r == Err(NotAuthenticated) && sent == []
    ensures Authenticated(s) ==> r == Ok(Lister.Listed(l))
    ensures Authenticated(s) ==> |sent| == Lister.RequestCount(l)
    ensures Authenticated(s) ==> forall j :: 0 <= j < |sent| ==> sent[j] == List(path, Lister.TokenOf(l, j))
  {
    if s.client.None? {
      return Err(NotAuthenticated), [];
    }
    var items;
    items, sent := Lister.GetFiles(path, l);
    r := Ok(items);
  }

  /** `caluculateSizeByPath`: without a client it fails with
      `NotAuthenticated`; otherwise it is the count and total content length
      of the objects the collection walk finds under `path`. */
  function CaluculateSizeByPath(s: Session, path: string, l: Listing): (r: Result<Totals>)
    ensures r.Err? <==> !Authenticated(s)
    ensures r.Err? ==> r.error == NotAuthenticated
    ensures r.Ok? ==> r.value == Measure(Walker.FilesByPath(path, l))
  {
    if s.client.None? then Err(NotAuthenticated)
    else
      Walker.SizeMeasure(path, l);
      Ok(Walker.SizeByPath(l))
  }

  /** `deleteFilesByPath`: without a client it fails with `NotAuthenticated`
      before sending anything. Otherwise it collects the files under `path`
      and deletes each of them, in order, in the batches of `Partition`;
      `rejected` holds the indices of deletes the store rejects. When this
      folder's own listing fails, nothing is deleted and the answer is true. */
  method DeleteFilesByPath(s: Session, path: string, l: Listing, rejected: set<nat>)
    returns (r: Result<bool>, sent: seq<Request>, batches: seq<seq<nat>>)
    ensures !Authenticated(s) ==> r == Err(NotAuthenticated) && sent == [] && batches == []
    ensures Authenticated(s) ==>
              var files := Walker.FilesByPath(path, l);
              && |sent| <= |files|
              && (forall i :: 0 <= i < |sent| ==> sent[i] == Delete(files[i].path))
              && ((forall k :: 0 <= k < |files| ==> k !in rejected) ==>
                    r == Ok(true) && |sent| == |files| && batches == Deleter.Partition(|files|))
              && (forall j :: Deleter.FirstRejected(j, |files|, rejected) ==>
                    && r == Err(DeleteRejected)
                    && |sent| == Min(Deleter.BatchStart(Deleter.BatchOf(j) + 1), |files|)
                    && |batches| == Deleter.BatchOf(j) + 1
                    && batches <= Deleter.Partition(|files|))
    ensures Authenticated(s) && Lister.Merge(l).None? ==> r == Ok(true) && sent == [] && batches == []
  {
    if s.client.None? {
      return Err(NotAuthenticated), [], [];
    }
    var files := Walker.FilesByPath(path, l);
    Walker.CollectIsFlatten(path, l);
    r, sent, batches := Deleter.DeleteAll(files, rejected);
  }
}
