/** The media probe of `parseMarkdown`: each image of the final document is fetched,
    and one whose response is audio or video is replaced by an `<audio>` or `<video>`
    element with controls. The network is a parameter: `fetch` maps a src to the
    response it gets, or to None when the request fails. */
module MediaProbe {
  import opened Wrappers
  import opened Dom

  datatype Response = Response(status: int, contentType: Option<string>)

  /** The kind of element a response calls for; `audio/` is checked first. */
  function Classify(r: Response): (k: Option<MediaKind>)
    ensures k == Some(Audio) <==> r.status == 200 && r.contentType.Some? && StartsWith(r.contentType.value, "audio/")
    ensures k == Some(Video) <==> r.status == 200 && r.contentType.Some? && StartsWith(r.contentType.value, "video/")
  {
    if r.status != 200 || r.contentType.None? then None
    else if StartsWith(r.contentType.value, "audio/") then Some(Audio)
    else if StartsWith(r.contentType.value, "video/") then Some(Video)
    else None
  }

  /** What one element becomes once its request has completed. */
  function Probed(n: Node, fetch: string -> Option<Response>): (r: Node)
    ensures r == n || (n.Img? && r.Media? && r.src == n.src && fetch(n.src).Some? && Classify(fetch(n.src).value) == Some(r.kind))
    ensures n.Img? && fetch(n.src).Some? && Classify(fetch(n.src).value).Some? ==> r.Media?
  {
    if !n.Img? || fetch(n.src).None? then n
    else match Classify(fetch(n.src).value)
      case None => n
      case Some(kind) => Media(kind, n.src)
  }

  function ProbedAll(body: seq<Node>, fetch: string -> Option<Response>): (r: seq<Node>)
    ensures |r| == |body|
  {
    seq(|body|, k requires 0 <= k < |body| => Probed(body[k], fetch))
  }

  /** Every image, in turn, replaced by what its response calls for. The source starts
      the requests together and replaces each element when its own request completes;
      each replacement touches only its own element, so the order does not matter. */
  method ProbeMedia(doc: Document, fetch: string -> Option<Response>)
    modifies doc
    ensures doc.body == ProbedAll(old(doc.body), fetch)
  {
    ghost var body := doc.body;
    for i := 0 to |doc.body|
      invariant |doc.body| == |body|
      invariant forall k :: 0 <= k < i ==> doc.body[k] == Probed(body[k], fetch)
      invariant forall k :: i <= k < |body| ==> doc.body[k] == body[k]
    {
      var element := doc.body[i];
      if element.Img? {
        var request := fetch(element.src);
        if request.Some? && request.value.status == 200 {
          var contentType := request.value.contentType;
          var isAudio := contentType.Some? && StartsWith(contentType.value, "audio/");
          var isVideo := contentType.Some? && StartsWith(contentType.value, "video/");
          if isAudio || isVideo {
            doc.body := doc.body[i := Media(if isAudio then Audio else Video, element.src)];
          }
        }
      }
    }
  }

  /** Probing again changes nothing: a replaced element is no longer an image, and a
      kept image gets the same response. This rests on `fetch` being one fixed
      function; a real second request may get a different response. */
  lemma {:induction false} ProbeIdempotent(body: seq<Node>, fetch: string -> Option<Response>)
    ensures ProbedAll(ProbedAll(body, fetch), fetch) == ProbedAll(body, fetch)
  {
    var once := ProbedAll(body, fetch);
    forall k | 0 <= k < |body| ensures Probed(once[k], fetch) == once[k] {
    }
  }
}
