/** The pre-tokenizer of `toHTML`: before markdown-it renders a token stream, every
    `text` child of an `inline` token is cut at the occurrences of `[alt: src]` into
    text, image, text, ... tokens, and the children of each inline token are
    overwritten in place. */
module PreTokenizer {
  import opened Wrappers
  import opened ImageSyntax

  /** The fields of a markdown-it token that the pre-tokenizer reads or sets. */
  datatype Token = Token(
    kind: string,                     // `type`
    tag: string,
    nesting: int,
    content: string,
    attrs: seq<(string, string)>,
    children: Option<seq<Token>>)     // None is `null`

  /** `new Token("text", "", 0)` with its content set. */
  function TextToken(content: string): Token
  {
    Token("text", "", 0, content, [], None)
  }

  /** The image token built for occurrence m of the syntax in s. */
  function ImageToken(s: string, m: Match): Token
    requires m.start < m.sep && m.sep + 2 <= m.close < |s|
  {
    Token("image", "img", 0, Alt(s, m),
      [("alt", ""), ("src", Src(s, m)), ("data-original", Original(s, m))],
      Some([TextToken(Alt(s, m))]))
  }

  /** The text put in front of occurrence i: everything before it, with every
      occurrence in that prefix removed by `replace`. */
  function BeforeText(s: string, i: nat): string
    requires i < |FindAll(s)|
  {
    RemoveAll(s[..FindAll(s)[i].start])
  }

  /** The text put after the last occurrence: everything after its ']'. */
  function AfterText(s: string): string
    requires FindAll(s) != []
  {
    s[FindAll(s)[|FindAll(s)| - 1].close + 1..]
  }

  /** What a text child holding k >= 1 occurrences becomes: at even positions the
      text in front of each occurrence, at odd positions the image tokens, and the
      text after the last occurrence at the end. */
  function Pieces(s: string): (ts: seq<Token>)
    requires FindAll(s) != []
    ensures |ts| == 2 * |FindAll(s)| + 1
    ensures forall n :: 0 <= n < |ts| ==> ts[n].kind == (if n % 2 == 0 then "text" else "image")
  {
    var ms := FindAll(s);
    seq(2 * |ms| + 1, n requires 0 <= n < 2 * |ms| + 1 =>
      if n == 2 * |ms| then TextToken(AfterText(s))
      else if n % 2 == 0 then TextToken(BeforeText(s, n / 2))
      else ImageToken(s, ms[n / 2]))
  }

  /** A child that the pre-tokenizer cuts up: a text token with an occurrence. */
  predicate Splits(child: Token)
  {
    child.kind == "text" && FindAll(child.content) != []
  }

  /** What one child of an inline token becomes. */
  function Rewritten(child: Token): (ts: seq<Token>)
    ensures |ts| == if Splits(child) then 2 * |FindAll(child.content)| + 1 else 1
    ensures ts[|ts| - 1].kind == child.kind
  {
    if !Splits(child) then [child] else Pieces(child.content)
  }

  /** The new children list: the rewritten children, in order. */
  function RewrittenAll(children: seq<Token>): seq<Token>
  {
    if children == [] then []
    else RewrittenAll(children[..|children| - 1]) + Rewritten(children[|children| - 1])
  }

  /** What one token of the stream becomes: only the children of an inline token
      with children change. */
  function RewrittenToken(t: Token): (r: Token)
    ensures r.(children := t.children) == t
    ensures t.kind != "inline" || t.children.None? ==> r == t
    ensures r.children.Some? <==> t.children.Some?
  {
    if t.kind != "inline" || t.children.None? then t
    else t.(children := Some(RewrittenAll(t.children.value)))
  }

  // The loops of `toHTML`.

  /** The tokens that replace one text child holding at least one occurrence. */
  method SplitText(s: string) returns (out: seq<Token>)
    requires FindAll(s) != []
    ensures out == Pieces(s)
  {
    var images := FindAll(s);
    out := [];
    for i := 0 to |images|
      invariant out == Pieces(s)[..if i == |images| then 2 * i + 1 else 2 * i]
    {
      var image := images[i];
      PiecesPair(s, i);
      out := out + [TextToken(RemoveAll(s[..image.start])), ImageToken(s, image)];
      if i == |images| - 1 {
        PiecesLast(s);
        out := out + [TextToken(s[image.close + 1..])];
      }
    }
  }

  /** Pieces 2i and 2i + 1: the text in front of occurrence i, then its image. */
  lemma {:induction false} PiecesPair(s: string, i: nat)
    requires i < |FindAll(s)|
    ensures Pieces(s)[..2 * i + 2] == Pieces(s)[..2 * i] + [TextToken(BeforeText(s, i)), ImageToken(s, FindAll(s)[i])]
  {
    var ps := Pieces(s);
    assert (2 * i) / 2 == i && (2 * i + 1) / 2 == i;
    assert ps[..2 * i + 2] == ps[..2 * i] + [ps[2 * i], ps[2 * i + 1]];
  }

  /** The last piece: the text after the last occurrence. */
  lemma {:induction false} PiecesLast(s: string)
    requires FindAll(s) != []
    ensures Pieces(s) == Pieces(s)[..2 * |FindAll(s)|] + [TextToken(AfterText(s))]
  {
    var ps := Pieces(s);
    assert ps == ps[..2 * |FindAll(s)|] + [ps[2 * |FindAll(s)|]];
  }

  /** The new children list of one inline token. */
  method RewriteChildren(children: seq<Token>) returns (out: seq<Token>)
    ensures out == RewrittenAll(children)
  {
    out := [];
    for c := 0 to |children|
      invariant out == RewrittenAll(children[..c])
    {
      var child := children[c];
      assert children[..c + 1][..c] == children[..c];
      if !Splits(child) {
        out := out + [child];
      } else {
        var pieces := SplitText(child.content);
        out := out + pieces;
      }
    }
    assert children[..|children|] == children;
  }

  /** `toHTML`'s pass over the token stream: every inline token with children gets
      its new children list; every other token is left as it is. */
  method PreTokenize(tokens: array<Token>)
    modifies tokens
    ensures forall i :: 0 <= i < tokens.Length ==> tokens[i] == RewrittenToken(old(tokens[i]))
  {
    ghost var before := tokens[..];
    for i := 0 to tokens.Length
      invariant forall j :: 0 <= j < i ==> tokens[j] == RewrittenToken(before[j])
      invariant forall j :: i <= j < tokens.Length ==> tokens[j] == before[j]
    {
      var token := tokens[i];
      if token.kind == "inline" && token.children.Some? {
        var children := RewriteChildren(token.children.value);
        tokens[i] := token.(children := Some(children));
      }
    }
  }

  // What the rewritten tokens hold.

  /** Each image token: tag `img`, an empty `alt` attribute, the captured src, the
      whole matched text as `data-original`, and one text child holding the alt.
      The occurrence it comes from is one the regular expression accepts. */
  lemma {:induction false} ImagePiece(s: string, i: nat)
    requires i < |FindAll(s)|
    ensures var m, t := FindAll(s)[i], Pieces(s)[2 * i + 1];
      IsImageSyntax(s, m)
      && t.kind == "image" && t.tag == "img" && t.content == Alt(s, m)
      && t.attrs == [("alt", ""), ("src", Src(s, m)), ("data-original", "[" + Alt(s, m) + ": " + Src(s, m) + "]")]
      && t.children == Some([TextToken(Alt(s, m))])
  {
    FindAllAccepted(s, i);
    OriginalReassembles(s, FindAll(s)[i]);
    PieceImage(s, i);
  }

  lemma {:induction false} PieceImage(s: string, i: nat)
    requires i < |FindAll(s)|
    ensures Pieces(s)[2 * i + 1] == ImageToken(s, FindAll(s)[i])
  {
    assert (2 * i + 1) / 2 == i;
  }

  /** The text in front of the first occurrence is the content up to it, unchanged. */
  lemma {:induction false} FirstBeforeText(s: string)
    requires FindAll(s) != []
    ensures Pieces(s)[0].content == s[..FindAll(s)[0].start]
  {
    LeadKept(s);
  }

  /** The text in front of occurrence i + 1 repeats the text in front of occurrence i
      and then holds the gap between occurrences i and i + 1. */
  lemma {:induction false} BeforeTextRepeats(s: string, i: nat)
    requires i + 1 < |FindAll(s)|
    ensures var ms := FindAll(s);
      Pieces(s)[2 * i + 2].content == Pieces(s)[2 * i].content + s[ms[i].close + 1..ms[i + 1].start]
  {
    GapRepeats(s, i);
    assert (2 * i + 2) / 2 == i + 1 && (2 * i) / 2 == i;
  }

  /** With one occurrence, the text before it, the matched text and the text after
      it put back together give the content. */
  lemma {:induction false} SingleRoundTrip(s: string)
    requires |FindAll(s)| == 1
    ensures Pieces(s)[0].content + Pieces(s)[1].attrs[2].1 + Pieces(s)[2].content == s
  {
    var m := FindAll(s)[0];
    LeadKept(s);
    assert Pieces(s)[1] == ImageToken(s, m);
    assert s[..m.start] + s[m.start..m.close + 1] + s[m.close + 1..] == s;
  }

  /** The number of occurrences in the text children of a children list. */
  function Occurrences(children: seq<Token>): nat
  {
    if children == [] then 0
    else
      var last := children[|children| - 1];
      Occurrences(children[..|children| - 1]) + (if last.kind == "text" then |FindAll(last.content)| else 0)
  }

  /** Rewriting works child by child: it distributes over concatenation, so the
      children keep their order. */
  lemma {:induction false} RewrittenAllAppend(a: seq<Token>, b: seq<Token>)
    ensures RewrittenAll(a + b) == RewrittenAll(a) + RewrittenAll(b)
    decreases |b|
  {
    if b != [] {
      var b' := b[..|b| - 1];
      assert (a + b)[..|a + b| - 1] == a + b';
      RewrittenAllAppend(a, b');
    } else {
      assert a + b == a;
    }
  }

  /** Every occurrence adds two tokens: the image and the text in front of it. */
  lemma {:induction false} RewrittenCount(children: seq<Token>)
    ensures |RewrittenAll(children)| == |children| + 2 * Occurrences(children)
  {
    if children != [] {
      RewrittenCount(children[..|children| - 1]);
    }
  }

  /** A children list with nothing to cut up is left exactly as it is. */
  lemma {:induction false} PassThrough(children: seq<Token>)
    requires forall k :: 0 <= k < |children| ==> !Splits(children[k])
    ensures RewrittenAll(children) == children
  {
    if children != [] {
      var init, last := children[..|children| - 1], children[|children| - 1];
      assert !Splits(last);
      PassThrough(init);
      assert init + [last] == children;
    }
  }
}
