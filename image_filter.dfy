/** The image filter of `parseMarkdown`: every image of the parsed document is either
    replaced by a text span, moved to the end of the body, or kept in place as an
    inline block. */
module ImageFilter {
  import opened Dom

  /** The options of `parseMarkdown` that the filter reads. */
  datatype Options = Options(images: bool, anyImageHost: bool)

  /** Whether an image is replaced by text: images are switched off, or only allowed
      hosts are permitted and the src starts with none of them. */
  predicate Dropped(img: Node, opts: Options, hosts: seq<string>)
    requires img.Img?
  {
    !opts.images || (!opts.anyImageHost && !(exists h :: h in hosts && StartsWith(img.src, h)))
  }

  /** The text of the span that replaces a dropped image: the matched `[alt: src]`
      text when the image came from that syntax, and otherwise a markdown-like text
      that puts the src first and the alt second. */
  function FallbackText(img: Node): (r: string)
    requires img.Img?
    ensures img.original != "" ==> r == img.original
    ensures img.original == "" ==> |r| >= 5 && r[..2] == "![" && r[|r| - 1] == ')'
    ensures img.original == "" ==> var n := |img.src|;
      |r| == n + 5 + |img.alt| && r[2..2 + n] == img.src && r[2 + n..4 + n] == "](" && r[4 + n..|r| - 1] == img.alt
  {
    if img.original != "" then img.original else "![" + img.src + "](" + img.alt + ")"
  }

  /** What one node becomes where it stands: a dropped image becomes a span, a kept
      image with an original leaves, a kept image without one gains `inline-block`,
      any other node stays. */
  function Transform(n: Node, opts: Options, hosts: seq<string>): seq<Node>
  {
    if !n.Img? then [n]
    else if Dropped(n, opts, hosts) then [Span(FallbackText(n))]
    else if n.original != "" then []
    else [n.(classes := AddClass(n.classes, "inline-block"))]
  }

  /** The clone a node leaves at the end of the body: only a kept image with an original. */
  function Clone(n: Node, opts: Options, hosts: seq<string>): seq<Node>
  {
    if n.Img? && !Dropped(n, opts, hosts) && n.original != "" then [n] else []
  }

  /** The nodes where they stand, after the filter. */
  function Transformed(nodes: seq<Node>, opts: Options, hosts: seq<string>): seq<Node>
  {
    if nodes == [] then []
    else Transformed(nodes[..|nodes| - 1], opts, hosts) + Transform(nodes[|nodes| - 1], opts, hosts)
  }

  /** The clones appended to the body, in document order. */
  function Clones(nodes: seq<Node>, opts: Options, hosts: seq<string>): seq<Node>
  {
    if nodes == [] then []
    else Clones(nodes[..|nodes| - 1], opts, hosts) + Clone(nodes[|nodes| - 1], opts, hosts)
  }

  /** The body after the filter. */
  function Filtered(body: seq<Node>, opts: Options, hosts: seq<string>): seq<Node>
  {
    Transformed(body, opts, hosts) + Clones(body, opts, hosts)
  }

  /** The `forEach` over `querySelectorAll("img")`. The list is taken before the loop,
      so the appended clones are not visited again; p is where the current node now
      stands in the body. */
  method FilterImages(doc: Document, opts: Options, hosts: seq<string>)
    modifies doc
    ensures doc.body == Filtered(old(doc.body), opts, hosts)
  {
    var nodes := doc.body;
    var p := 0;
    for i := 0 to |nodes|
      invariant p == |Transformed(nodes[..i], opts, hosts)|
      invariant doc.body == Transformed(nodes[..i], opts, hosts) + nodes[i..] + Clones(nodes[..i], opts, hosts)
    {
      ghost var done, rest, clones := Transformed(nodes[..i], opts, hosts), nodes[i + 1..], Clones(nodes[..i], opts, hosts);
      Step(nodes, i, opts, hosts);
      At(doc.body, done, nodes[i], rest, clones);
      p := Visit(doc, p, opts, hosts, done, nodes[i], rest, clones);
    }
    assert nodes[..|nodes|] == nodes;
  }

  /** The body of the `forEach` for the node x at position p of the body: done is
      what the earlier nodes became, clones what they appended. */
  method Visit(doc: Document, p: nat, opts: Options, hosts: seq<string>,
               ghost done: seq<Node>, ghost x: Node, ghost rest: seq<Node>, ghost clones: seq<Node>)
    returns (next: nat)
    requires doc.body == done + [x] + rest + clones && p == |done|
    modifies doc
    ensures doc.body == (done + Transform(x, opts, hosts)) + rest + (clones + Clone(x, opts, hosts))
    ensures next == |done + Transform(x, opts, hosts)|
  {
    var img := doc.body[p];
    if !img.Img? {
      assert clones + [] == clones;
      next := p + 1;
    } else if Dropped(img, opts, hosts) {
      assert clones + [] == clones;
      SetAt(doc.body, done, img, rest, clones, Span(FallbackText(img)));
      doc.body := doc.body[p := Span(FallbackText(img))];
      next := p + 1;
    } else if img.original != "" {
      MoveToEnd(doc.body, done, img, rest, clones);
      doc.body := doc.body + [img];
      doc.body := doc.body[..p] + doc.body[p + 1..];
      next := p;
    } else {
      assert clones + [] == clones;
      SetAt(doc.body, done, img, rest, clones, img.(classes := AddClass(img.classes, "inline-block")));
      doc.body := doc.body[p := img.(classes := AddClass(img.classes, "inline-block"))];
      next := p + 1;
    }
  }

  lemma {:induction false} At(body: seq<Node>, done: seq<Node>, x: Node, rest: seq<Node>, clones: seq<Node>)
    requires body == done + ([x] + rest) + clones
    ensures body[|done|] == x
    ensures body == done + [x] + rest + clones
  {
  }

  lemma {:induction false} SetAt(body: seq<Node>, done: seq<Node>, x: Node, rest: seq<Node>, clones: seq<Node>, y: Node)
    requires body == done + [x] + rest + clones
    ensures body[|done| := y] == (done + [y]) + rest + clones
  {
  }

  lemma {:induction false} MoveToEnd(body: seq<Node>, done: seq<Node>, x: Node, rest: seq<Node>, clones: seq<Node>)
    requires body == done + [x] + rest + clones
    ensures (body + [x])[..|done|] + (body + [x])[|done| + 1..] == (done + []) + rest + (clones + [x])
  {
  }

  /** One more node of the list handled. */
  lemma {:induction false} Step(nodes: seq<Node>, i: nat, opts: Options, hosts: seq<string>)
    requires i < |nodes|
    ensures Transformed(nodes[..i + 1], opts, hosts) == Transformed(nodes[..i], opts, hosts) + Transform(nodes[i], opts, hosts)
    ensures Clones(nodes[..i + 1], opts, hosts) == Clones(nodes[..i], opts, hosts) + Clone(nodes[i], opts, hosts)
    ensures nodes[i..] == [nodes[i]] + nodes[i + 1..]
  {
    assert nodes[..i + 1][..i] == nodes[..i];
  }

  // What the filter guarantees.

  /** With images switched off, no image is left in the body. */
  lemma {:induction false} DisabledDropsAll(body: seq<Node>, opts: Options, hosts: seq<string>)
    requires !opts.images
    ensures forall k :: 0 <= k < |Filtered(body, opts, hosts)| ==> !Filtered(body, opts, hosts)[k].Img?
  {
    TransformedImages(body, opts, hosts);
    ClonesImages(body, opts, hosts);
  }

  /** Every image left in the body is allowed: images are on, and any host is allowed
      or its src starts with an allowed host. */
  lemma {:induction false} SurvivorsAllowed(body: seq<Node>, opts: Options, hosts: seq<string>)
    ensures forall k :: 0 <= k < |Filtered(body, opts, hosts)| && Filtered(body, opts, hosts)[k].Img? ==>
      opts.images && (opts.anyImageHost || exists h :: h in hosts && StartsWith(Filtered(body, opts, hosts)[k].src, h))
  {
    TransformedImages(body, opts, hosts);
    ClonesImages(body, opts, hosts);
  }

  lemma {:induction false} TransformedImages(nodes: seq<Node>, opts: Options, hosts: seq<string>)
    ensures forall n :: n in Transformed(nodes, opts, hosts) && n.Img? ==> !Dropped(n, opts, hosts) && n.original == ""
  {
    if nodes != [] {
      TransformedImages(nodes[..|nodes| - 1], opts, hosts);
    }
  }

  lemma {:induction false} ClonesImages(nodes: seq<Node>, opts: Options, hosts: seq<string>)
    ensures forall n :: n in Clones(nodes, opts, hosts) ==> n.Img? && !Dropped(n, opts, hosts) && n.original != "" && n in nodes
  {
    if nodes != [] {
      var init := nodes[..|nodes| - 1];
      ClonesImages(init, opts, hosts);
      assert forall n :: n in init ==> n in nodes;
    }
  }

  /** What becomes of each node of the body: a node that is not an image stays, a
      dropped image leaves its fallback span, an allowed image without an original
      stays with `inline-block`, and an allowed image with one is among the clones
      appended at the end. */
  lemma {:induction false} FilterFate(body: seq<Node>, opts: Options, hosts: seq<string>, k: nat)
    requires k < |body|
    ensures !body[k].Img? ==> body[k] in Transformed(body, opts, hosts)
    ensures body[k].Img? && Dropped(body[k], opts, hosts) ==>
      Span(FallbackText(body[k])) in Transformed(body, opts, hosts)
    ensures body[k].Img? && !Dropped(body[k], opts, hosts) && body[k].original == "" ==>
      body[k].(classes := AddClass(body[k].classes, "inline-block")) in Transformed(body, opts, hosts)
    ensures body[k].Img? && !Dropped(body[k], opts, hosts) && body[k].original != "" ==>
      body[k] in Clones(body, opts, hosts)
  {
    Contributes(body, opts, hosts, k);
  }

  /** What node k becomes, in place and at the end, is part of the result. */
  lemma {:induction false} Contributes(nodes: seq<Node>, opts: Options, hosts: seq<string>, k: nat)
    requires k < |nodes|
    ensures forall x :: x in Transform(nodes[k], opts, hosts) ==> x in Transformed(nodes, opts, hosts)
    ensures forall x :: x in Clone(nodes[k], opts, hosts) ==> x in Clones(nodes, opts, hosts)
    decreases |nodes|
  {
    var init := nodes[..|nodes| - 1];
    if k < |init| {
      Contributes(init, opts, hosts, k);
      assert init[k] == nodes[k];
    }
  }

  /** The filter keeps the length of the body: each node is replaced one for one,
      kept, or moved to the end. */
  lemma {:induction false} FilteredLength(body: seq<Node>, opts: Options, hosts: seq<string>)
    ensures |Filtered(body, opts, hosts)| == |body|
  {
    if body != [] {
      FilteredLength(body[..|body| - 1], opts, hosts);
    }
  }

  /** A body without images is left exactly as it is. */
  lemma {:induction false} ImageFreeUnchanged(body: seq<Node>, opts: Options, hosts: seq<string>)
    requires forall k :: 0 <= k < |body| ==> !body[k].Img?
    ensures Transformed(body, opts, hosts) == body && Clones(body, opts, hosts) == []
    ensures Filtered(body, opts, hosts) == body
  {
    if body != [] {
      var init, last := body[..|body| - 1], body[|body| - 1];
      ImageFreeUnchanged(init, opts, hosts);
      assert init + [last] == body;
    }
  }
}
