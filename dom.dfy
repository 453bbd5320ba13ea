/** The parts of the parsed HTML document that the post-processing stages of
    `parseMarkdown` read and change.

    The body is kept flattened, as its elements in document order: appending to the
    body puts an element last, removing one closes the gap, and `querySelectorAll`
    lists the elements of one kind in this order. */
module Dom {
  /** What an `<iframe>` placeholder would load. */
  datatype Frame = Frame(src: string, width: string, height: string)

  datatype MediaKind = Audio | Video

  datatype Node =
    | Img(src: string, alt: string, original: string, classes: seq<string>)  // `original` is `data-original`, "" when absent
    | Span(text: string)
    | Anchor(href: string, text: string)
    | Button(text: string, frame: Frame)   // an embed placeholder and the iframe its click would load
    | Media(kind: MediaKind, src: string)  // an `<audio>` or `<video>` element with controls
    | Other(text: string)                  // any other element or text

  /** `classList.add(c)`: a class already present is not added again. */
  function AddClass(classes: seq<string>, c: string): (r: seq<string>)
    ensures c in r
    ensures forall x :: x in classes ==> x in r
    ensures forall x :: x in r ==> x in classes || x == c
  {
    if c in classes then classes else classes + [c]
  }

  /** Adding a class twice is adding it once. */
  lemma {:induction false} AddClassIdempotent(classes: seq<string>, c: string)
    ensures AddClass(AddClass(classes, c), c) == AddClass(classes, c)
  {
    assert c in AddClass(classes, c);
  }

  /** `s.startsWith(p)`. */
  predicate StartsWith(s: string, p: string)
  {
    |p| <= |s| && s[..|p|] == p
  }

  /** A parsed HTML document; the stages change its body in place. */
  class Document {
    var body: seq<Node>

    constructor(body: seq<Node>)
      ensures this.body == body
    {
      this.body := body;
    }
  }
}
