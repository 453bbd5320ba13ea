/** The project embeds of `parseMarkdown`: a bare link to a Scratch or TurboWarp
    project gets a "load project" button appended to the body, at most one per
    project id, unless the text is rendered inline.

    The links are recognised by the unanchored regular expression
    `(?:https?:\/\/)?(scratch.mit.edu\/projects|turbowarp.org)\/(\d+)\/?`, whose
    dots are not escaped and so stand for any one UTF-16 code unit but a line
    terminator. */
module ProjectEmbeds {
  import opened Wrappers
  import opened Dom

  const ScratchHost := "scratch.mit.edu/projects"
  const TurboWarpHost := "turbowarp.org"

  /** What the expression captures: the host text as written in the link, and the id. */
  datatype Project = Project(url: string, id: string)

  /** The characters `.` does not match in a JavaScript regular expression. */
  predicate IsLineTerminator(c: char)
  {
    c == '\n' || c == '\r' || c == '\U{2028}' || c == '\U{2029}'
  }

  predicate IsDigit(c: char)
  {
    '0' <= c <= '9'
  }

  /** The characters a `.` of the expression can stand for. Without the `u` flag a `.`
      takes one UTF-16 code unit, so facing a character beyond U+FFFF it takes only
      the high surrogate, and the literal that follows it then fails on the low one. */
  predicate IsWildcard(c: char)
  {
    !IsLineTerminator(c) && c < '\U{10000}'
  }

  /** The host alternative pat matches s at h, a '.' of pat standing for any
      character `.` matches. */
  predicate HostAt(s: string, h: nat, pat: string)
  {
    h + |pat| <= |s| && forall k :: 0 <= k < |pat| ==> if pat[k] == '.' then IsWildcard(s[h + k]) else s[h + k] == pat[k]
  }

  /** The end of the run of digits that starts at i. */
  function DigitsEnd(s: string, i: nat): (e: nat)
    requires i <= |s|
    ensures i <= e <= |s|
    ensures forall k :: i <= k < e ==> IsDigit(s[k])
    ensures e < |s| ==> !IsDigit(s[e])
    decreases |s| - i
  {
    if i < |s| && IsDigit(s[i]) then DigitsEnd(s, i + 1) else i
  }

  /** Host alternative pat at h, then '/', then at least one digit, taken greedily;
      the optional trailing '/' always matches and changes no capture. */
  function WithHost(s: string, h: nat, pat: string): (r: Option<Project>)
    ensures r.Some? ==> HostAt(s, h, pat) && r.value.url == s[h..h + |pat|]
    ensures r.Some? ==> |r.value.id| > 0 && forall k :: 0 <= k < |r.value.id| ==> IsDigit(r.value.id[k])
    ensures r.Some? ==> var slash := h + |pat|; var end := slash + 1 + |r.value.id|;
      end <= |s| && s[slash] == '/' && r.value.id == s[slash + 1..end] && (end == |s| || !IsDigit(s[end]))
    ensures HostAt(s, h, pat) && h + |pat| + 1 < |s| && s[h + |pat|] == '/' && IsDigit(s[h + |pat| + 1]) ==> r.Some?
  {
    var slash := h + |pat|;
    if HostAt(s, h, pat) && slash + 1 < |s| && s[slash] == '/' && IsDigit(s[slash + 1])
    then Some(Project(s[h..slash], s[slash + 1..DigitsEnd(s, slash + 1)]))
    else None
  }

  /** The alternation, tried in order, with the host starting at h. */
  function GroupsAt(s: string, h: nat): Option<Project>
  {
    var scratch := WithHost(s, h, ScratchHost);
    if scratch.Some? then scratch else WithHost(s, h, TurboWarpHost)
  }

  /** The expression tried at position p: the optional scheme is tried first with
      "https://", then with "http://", and then left out. */
  function MatchAt(s: string, p: nat): Option<Project>
    requires p <= |s|
  {
    if StartsWith(s[p..], "https://") && GroupsAt(s, p + 8).Some? then GroupsAt(s, p + 8)
    else if StartsWith(s[p..], "http://") && GroupsAt(s, p + 7).Some? then GroupsAt(s, p + 7)
    else GroupsAt(s, p)
  }

  /** `link.match(...)`: the first position from p at which the expression matches. */
  function FindProject(s: string, p: nat): Option<Project>
    requires p <= |s|
    decreases |s| - p
  {
    if MatchAt(s, p).Some? then MatchAt(s, p)
    else if p == |s| then None
    else FindProject(s, p + 1)
  }

  /** No position from p up to q, and not past the end, is a match. */
  ghost predicate NoMatchBetween(s: string, p: nat, q: nat)
  {
    forall q' :: p <= q' < q && q' <= |s| ==> MatchAt(s, q').None?
  }

  /** `FindProject` reports the leftmost match, and nothing when there is none. */
  lemma {:induction false} FindProjectLeftmost(s: string, p: nat)
    requires p <= |s|
    ensures FindProject(s, p).Some? ==>
      exists q :: p <= q <= |s| && MatchAt(s, q) == FindProject(s, p) && NoMatchBetween(s, p, q)
    ensures FindProject(s, p).None? ==> NoMatchBetween(s, p, |s| + 1)
    decreases |s| - p
  {
    if MatchAt(s, p).Some? {
      assert NoMatchBetween(s, p, p);
    } else if p < |s| {
      FindProjectLeftmost(s, p + 1);
      if FindProject(s, p + 1).Some? {
        var q :| p + 1 <= q <= |s| && MatchAt(s, q) == FindProject(s, p + 1) && NoMatchBetween(s, p + 1, q);
        NoMatchExtend(s, p, q);
      } else {
        NoMatchExtend(s, p, |s| + 1);
      }
    }
  }

  lemma {:induction false} NoMatchExtend(s: string, p: nat, q: nat)
    requires p < |s| && MatchAt(s, p).None? && NoMatchBetween(s, p + 1, q)
    ensures NoMatchBetween(s, p, q)
  {
  }

  /** The unescaped dots let other characters stand in for the dots of the host. */
  lemma {:induction false} WildcardHost()
    ensures FindProject("scratch-mit-edu/projects/42", 0) == Some(Project("scratch-mit-edu/projects", "42"))
  {
    var s := "scratch-mit-edu/projects/42";
    assert HostAt(s, 0, ScratchHost);
    assert DigitsEnd(s, 25) == 27 by {
      assert DigitsEnd(s, 27) == 27;
      assert DigitsEnd(s, 26) == 27;
    }
    assert s[0..24] == "scratch-mit-edu/projects" && s[25..27] == "42";
    assert WithHost(s, 0, ScratchHost) == Some(Project("scratch-mit-edu/projects", "42"));
    assert !StartsWith(s[0..], "https://") && !StartsWith(s[0..], "http://") by {
      assert s[0..][0] != 'h';
    }
    assert MatchAt(s, 0) == Some(Project("scratch-mit-edu/projects", "42"));
  }

  /** The label of a button determines the id of its project. */
  lemma {:induction false} LabelDeterminesId(loadProjectText: string, a: string, b: string)
    ensures loadProjectText + " (" + a + ")" == loadProjectText + " (" + b + ")" ==> a == b
  {
    var la, lb := loadProjectText + " (" + a + ")", loadProjectText + " (" + b + ")";
    if la == lb {
      var n := |loadProjectText| + 2;
      assert la[n..|la| - 1] == a;
      assert lb[n..|lb| - 1] == b;
    }
  }

  /** The project a link stands for: only a link whose href is its own text, and
      whose href the expression matches. */
  function Qualifies(n: Node): Option<Project>
  {
    if n.Anchor? && n.href == n.text then FindProject(n.href, 0) else None
  }

  /** The button appended for a project, with the iframe its click would load. */
  function Placeholder(pr: Project, loadProjectText: string): (r: Node)
    ensures r.Button? && r.text == loadProjectText + " (" + pr.id + ")"
    ensures r.frame.src == "https://" + pr.url + "/" + pr.id + "/embed"
    ensures r.frame.width == "485" && r.frame.height == "402"
  {
    Button(loadProjectText + " (" + pr.id + ")", Frame("https://" + pr.url + "/" + pr.id + "/embed", "485", "402"))
  }

  function Ids(ps: seq<Project>): set<string>
  {
    set k | 0 <= k < |ps| :: ps[k].id
  }

  /** The projects embedded for the links, in link order, with the set of ids seen
      so far deciding whether a link adds one. */
  function Found(nodes: seq<Node>): seq<Project>
  {
    if nodes == [] then []
    else
      var before := Found(nodes[..|nodes| - 1]);
      var q := Qualifies(nodes[|nodes| - 1]);
      if q.Some? && q.value.id !in Ids(before) then before + [q.value] else before
  }

  function Placeholders(ps: seq<Project>, loadProjectText: string): (r: seq<Node>)
    ensures |r| == |ps|
  {
    seq(|ps|, k requires 0 <= k < |ps| => Placeholder(ps[k], loadProjectText))
  }

  /** The `forEach` over `querySelectorAll("a")` with its set of ids already embedded.
      The list is taken before the loop, so the appended buttons are not visited. */
  method DetectEmbeds(doc: Document, inline: bool, loadProjectText: string)
    modifies doc
    ensures doc.body == old(doc.body) + (if inline then [] else Placeholders(Found(old(doc.body)), loadProjectText))
  {
    var anchors := doc.body;
    var done: set<string> := {};
    for i := 0 to |anchors|
      invariant doc.body == anchors + (if inline then [] else Placeholders(Found(anchors[..i]), loadProjectText))
      invariant !inline ==> done == Ids(Found(anchors[..i]))
    {
      FoundStep(anchors, i);
      done := VisitAnchor(doc, anchors[i], inline, loadProjectText, done, anchors, Found(anchors[..i]));
    }
    assert anchors[..|anchors|] == anchors;
  }

  /** The body of the `forEach` for one link: found is what the earlier links embedded. */
  method VisitAnchor(doc: Document, element: Node, inline: bool, loadProjectText: string,
                     done: set<string>, ghost anchors: seq<Node>, ghost found: seq<Project>)
    returns (done': set<string>)
    requires !inline ==> done == Ids(found)
    requires doc.body == anchors + (if inline then [] else Placeholders(found, loadProjectText))
    modifies doc
    ensures var q := Qualifies(element);
      var found' := if q.Some? && q.value.id !in Ids(found) then found + [q.value] else found;
      (!inline ==> done' == Ids(found')) &&
      doc.body == anchors + (if inline then [] else Placeholders(found', loadProjectText))
  {
    done' := done;
    if inline {
      return;
    }
    if !element.Anchor? || element.href != element.text {
      return;
    }
    var link := element.href;
    var project := FindProject(link, 0);
    if project.None? {
      return;
    }
    var url, projectId := project.value.url, project.value.id;
    if projectId in done {
      return;
    }
    done' := done + {projectId};
    IdsAppend(found, project.value);
    PlaceholdersAppend(found, project.value, loadProjectText);
    doc.body := doc.body + [Placeholder(Project(url, projectId), loadProjectText)];
  }

  lemma {:induction false} IdsAppend(ps: seq<Project>, p: Project)
    ensures Ids(ps + [p]) == Ids(ps) + {p.id}
  {
    var qs := ps + [p];
    assert qs[|ps|] == p;
    assert forall k :: 0 <= k < |ps| ==> qs[k] == ps[k];
  }

  lemma {:induction false} PlaceholdersAppend(ps: seq<Project>, p: Project, loadProjectText: string)
    ensures Placeholders(ps + [p], loadProjectText) == Placeholders(ps, loadProjectText) + [Placeholder(p, loadProjectText)]
  {
  }

  lemma {:induction false} FoundStep(nodes: seq<Node>, i: nat)
    requires i < |nodes|
    ensures var q := Qualifies(nodes[i]);
      Found(nodes[..i + 1]) == if q.Some? && q.value.id !in Ids(Found(nodes[..i])) then Found(nodes[..i]) + [q.value] else Found(nodes[..i])
  {
    assert nodes[..i + 1][..i] == nodes[..i];
  }

  // What the deduplication guarantees.

  /** The ids of all links that stand for a project. */
  function QualifiedIds(nodes: seq<Node>): set<string>
  {
    set k | 0 <= k < |nodes| && Qualifies(nodes[k]).Some? :: Qualifies(nodes[k]).value.id
  }

  /** Link k stands for a project and no earlier link stands for one with the same id. */
  predicate FirstOfId(nodes: seq<Node>, k: nat)
    requires k < |nodes|
  {
    Qualifies(nodes[k]).Some?
    && forall k' :: 0 <= k' < k ==> Qualifies(nodes[k']) .None? || Qualifies(nodes[k']).value.id != Qualifies(nodes[k]).value.id
  }

  /** The first link for each project id, in link order: the embeds the deduplication
      is meant to produce, stated without a set. */
  function Firsts(nodes: seq<Node>): seq<Project>
  {
    if nodes == [] then []
    else Firsts(nodes[..|nodes| - 1]) + if FirstOfId(nodes, |nodes| - 1) then [Qualifies(nodes[|nodes| - 1]).value] else []
  }

  /** The set of ids the loop keeps is the set of ids of all links it has passed. */
  lemma {:induction false} FoundIds(nodes: seq<Node>)
    ensures Ids(Found(nodes)) == QualifiedIds(nodes)
  {
    if nodes != [] {
      var init, q := nodes[..|nodes| - 1], Qualifies(nodes[|nodes| - 1]);
      FoundIds(init);
      QualifiedIdsStep(nodes);
      if q.Some? && q.value.id !in Ids(Found(init)) {
        IdsAppend(Found(init), q.value);
      }
    }
  }

  lemma {:induction false} QualifiedIdsStep(nodes: seq<Node>)
    requires nodes != []
    ensures var q := Qualifies(nodes[|nodes| - 1]);
      QualifiedIds(nodes) == QualifiedIds(nodes[..|nodes| - 1]) + if q.Some? then {q.value.id} else {}
  {
    var init := nodes[..|nodes| - 1];
    assert forall k :: 0 <= k < |init| ==> init[k] == nodes[k];
  }

  /** No project is embedded twice. */
  lemma {:induction false} FoundDistinct(nodes: seq<Node>)
    ensures forall j, l :: 0 <= j < l < |Found(nodes)| ==> Found(nodes)[j].id != Found(nodes)[l].id
  {
    if nodes != [] {
      var init, q := nodes[..|nodes| - 1], Qualifies(nodes[|nodes| - 1]);
      FoundDistinct(init);
      var before := Found(init);
      if q.Some? && q.value.id !in Ids(before) {
        var after := before + [q.value];
        forall j, l | 0 <= j < l < |after| ensures after[j].id != after[l].id {
          assert after[j] == before[j];
          if l < |before| {
            assert after[l] == before[l];
          }
        }
      }
    }
  }

  /** The loop with its set embeds exactly the first link of each project id, in link
      order. */
  lemma {:induction false} FoundIsFirsts(nodes: seq<Node>)
    ensures Found(nodes) == Firsts(nodes)
  {
    if nodes != [] {
      var init := nodes[..|nodes| - 1];
      FoundIsFirsts(init);
      FoundIds(init);
      FirstOfIdSeen(nodes);
    }
  }

  /** One button per project: the buttons appended carry pairwise different labels,
      and a button is labelled with an id exactly when some link stands for a project
      with that id. */
  lemma {:induction false} OneButtonPerId(nodes: seq<Node>, loadProjectText: string)
    ensures forall j, l :: 0 <= j < l < |Found(nodes)| ==>
      Placeholders(Found(nodes), loadProjectText)[j].text != Placeholders(Found(nodes), loadProjectText)[l].text
    ensures forall id :: id in QualifiedIds(nodes) <==>
      exists k :: 0 <= k < |Found(nodes)| && Placeholders(Found(nodes), loadProjectText)[k].text == loadProjectText + " (" + id + ")"
  {
    var found := Found(nodes);
    var buttons := Placeholders(found, loadProjectText);
    FoundDistinct(nodes);
    FoundIds(nodes);
    forall j, l | 0 <= j < l < |found| ensures buttons[j].text != buttons[l].text {
      LabelDeterminesId(loadProjectText, found[j].id, found[l].id);
    }
    forall id ensures id in QualifiedIds(nodes) <==>
      exists k :: 0 <= k < |found| && buttons[k].text == loadProjectText + " (" + id + ")"
    {
      if id in QualifiedIds(nodes) {
        var k :| 0 <= k < |found| && found[k].id == id;
        assert buttons[k].text == loadProjectText + " (" + id + ")";
      }
      if exists k :: 0 <= k < |found| && buttons[k].text == loadProjectText + " (" + id + ")" {
        var k :| 0 <= k < |found| && buttons[k].text == loadProjectText + " (" + id + ")";
        LabelDeterminesId(loadProjectText, found[k].id, id);
        assert found[k].id in Ids(found);
      }
    }
  }

  /** The last link is the first of its id exactly when its id was not seen before it. */
  lemma {:induction false} FirstOfIdSeen(nodes: seq<Node>)
    requires nodes != []
    ensures var q := Qualifies(nodes[|nodes| - 1]);
      FirstOfId(nodes, |nodes| - 1) <==> q.Some? && q.value.id !in QualifiedIds(nodes[..|nodes| - 1])
  {
    var q := Qualifies(nodes[|nodes| - 1]);
    if q.Some? {
      SeenIsEarlier(nodes, q.value.id);
      EarlierIsSeen(nodes, q.value.id);
    }
  }

  lemma {:induction false} SeenIsEarlier(nodes: seq<Node>, id: string)
    requires nodes != []
    ensures id in QualifiedIds(nodes[..|nodes| - 1]) ==>
      exists k :: 0 <= k < |nodes| - 1 && Qualifies(nodes[k]).Some? && Qualifies(nodes[k]).value.id == id
  {
    var init := nodes[..|nodes| - 1];
    if id in QualifiedIds(init) {
      var k :| 0 <= k < |init| && Qualifies(init[k]).Some? && Qualifies(init[k]).value.id == id;
      assert init[k] == nodes[k];
    }
  }

  lemma {:induction false} EarlierIsSeen(nodes: seq<Node>, id: string)
    requires nodes != []
    ensures (exists k :: 0 <= k < |nodes| - 1 && Qualifies(nodes[k]).Some? && Qualifies(nodes[k]).value.id == id) ==>
      id in QualifiedIds(nodes[..|nodes| - 1])
  {
    var init := nodes[..|nodes| - 1];
    if exists k :: 0 <= k < |nodes| - 1 && Qualifies(nodes[k]).Some? && Qualifies(nodes[k]).value.id == id {
      var k :| 0 <= k < |nodes| - 1 && Qualifies(nodes[k]).Some? && Qualifies(nodes[k]).value.id == id;
      assert init[k] == nodes[k];
    }
  }
}
