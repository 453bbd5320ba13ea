/** The mention rewrite of `parseMarkdown`: every link whose text starts with '@'
    is pointed at the router's location for that user's page. */
module Mentions {
  import opened Dom

  /** A link written as a mention: its text is not empty and starts with '@'. */
  predicate IsMention(n: Node)
  {
    n.Anchor? && n.text != "" && n.text[0] == '@'
  }

  /** The route of the user a mention names: "users/" and the text after the '@'. */
  function UserRoute(text: string): (r: string)
    requires text != "" && text[0] == '@'
    ensures StartsWith(r, "users/")
    ensures "@" + r[|"users/"|..] == text
  {
    "users/" + text[1..]
  }

  /** One element after the rewrite: a mention gets the resolved route as its href;
      every other element stays as it is. */
  function Mentioned(n: Node, resolve: string -> string): (r: Node)
    ensures r.Anchor? == n.Anchor?
    ensures n.Anchor? ==> r.text == n.text
    ensures !IsMention(n) ==> r == n
    ensures IsMention(n) ==> r.href == resolve(UserRoute(n.text))
  {
    if IsMention(n) then n.(href := resolve(UserRoute(n.text))) else n
  }

  /** The body after the rewrite. */
  function MentionsRewritten(body: seq<Node>, resolve: string -> string): (r: seq<Node>)
    ensures |r| == |body|
  {
    seq(|body|, k requires 0 <= k < |body| => Mentioned(body[k], resolve))
  }

  /** The `forEach` over `querySelectorAll("a")`, setting each mention's href in place. */
  method RewriteMentions(doc: Document, resolve: string -> string)
    modifies doc
    ensures doc.body == MentionsRewritten(old(doc.body), resolve)
  {
    ghost var body := doc.body;
    for i := 0 to |doc.body|
      invariant |doc.body| == |body|
      invariant forall k :: 0 <= k < i ==> doc.body[k] == Mentioned(body[k], resolve)
      invariant forall k :: i <= k < |body| ==> doc.body[k] == body[k]
    {
      var element := doc.body[i];
      if element.Anchor? {
        var text := element.text;
        if text != "" && text[0] == '@' {
          var user := text[1..];
          doc.body := doc.body[i := element.(href := resolve("users/" + user))];
        }
      }
    }
  }

  // What the rewrite guarantees.

  /** The new href depends only on the text: two mentions with the same text end up
      with the same href, whatever their hrefs were before. */
  lemma {:induction false} MentionIgnoresHref(a: Node, b: Node, resolve: string -> string)
    requires IsMention(a) && IsMention(b) && a.text == b.text
    ensures Mentioned(a, resolve).href == Mentioned(b, resolve).href
  {
  }

  /** Running the rewrite again changes nothing. */
  lemma {:induction false} MentionsIdempotent(body: seq<Node>, resolve: string -> string)
    ensures MentionsRewritten(MentionsRewritten(body, resolve), resolve) == MentionsRewritten(body, resolve)
  {
    var once := MentionsRewritten(body, resolve);
    forall k | 0 <= k < |body|
      ensures MentionsRewritten(once, resolve)[k] == once[k]
    {
      assert IsMention(once[k]) == IsMention(body[k]);
    }
  }
}
