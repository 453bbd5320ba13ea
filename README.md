# Markdown post-processing of the roarer client, in Dafny

This project models the logic of `src/lib/parseMarkdown.ts` that is the module's
own, as opposed to the libraries it calls, and proves properties of that model.
It covers five parts.

- **Inline-image pre-tokenizer** (`ImageSyntax`, `PreTokenizer`).
  - `IMAGE_REGEX`, `/\[([^\]]+?): (?! )([^\]]+?)\]/g`, is implemented as a
    hand-written backtracking matcher. It is proved equal to what the expression
    accepts: leftmost, non-overlapping, with the shortest alt.
  - `replace(IMAGE_REGEX, "")` and `matchAll` are the scans built on that matcher.
  - The loop in `toHTML` cuts every `text` child of an `inline` token into text,
    image, text, ... tokens. It overwrites the children of the token stream in
    place (`array<Token>`).
- **Image filter** (`ImageFilter`). Every image of the parsed document is either
  replaced by a text span, moved as a clone to the end of the body, or given the
  `inline-block` class.
- **Mention rewrite** (`Mentions`). Links whose text starts with `@` are pointed
  at the router's location `users/<name>`.
- **Project embeds** (`ProjectEmbeds`).
  - The project-link expression is implemented as a matcher, unescaped dots
    included.
  - The loop keeps a set of ids it has already embedded, and appends one "load
    project" button per id.
- **Media probe** (`MediaProbe`). A response with status 200 whose content type
  starts with `audio/` or `video/` turns the image into an audio or video element.

`Dom` holds the document: a class whose body is the sequence of its elements in
document order. Each stage changes that body in place, and each stage's loop is
proved against a function that states the stage's result.

The code repeats earlier text in front of later images. The text in front of
image *i* is the whole content up to it, with every earlier image removed
(`parseMarkdown.ts:159`). The text between earlier images therefore appears again
in front of each later image. The model keeps this behaviour, as the code has it,
and proves it (`BeforeTextRepeats`). This differs from a reading in which every
piece of non-matching text is kept exactly once.

## Model

| member | source | states |
|---|---|---|
| ImageSyntax.MatchAt | src/lib/parseMarkdown.ts:12 | an occurrence found at i starts at i, has a non-empty alt and a src of at least one character, and closes inside the string |
| ImageSyntax.MatchAtMeaning | src/lib/parseMarkdown.ts:12 | the matcher is sound and complete for the expression at a position: what it finds is `[`, an alt without `]`, `": "`, a src not starting with a space and without `]`, then `]`; it finds one exactly when the expression accepts one there, and then the one with the shortest alt |
| ImageSyntax.FindFrom | src/lib/parseMarkdown.ts:12 | the occurrences of a global scan lie after the start position, are well formed, and are in order without overlapping |
| ImageSyntax.FindFromSound | src/lib/parseMarkdown.ts:148 | every occurrence `matchAll` lists is what the matcher finds at its start |
| ImageSyntax.FindFromLeftmost | src/lib/parseMarkdown.ts:148 | the scan is leftmost: every position where the expression could match starts or lies inside a listed occurrence |
| ImageSyntax.FindAll | src/lib/parseMarkdown.ts:148 | every occurrence of `content.matchAll(IMAGE_REGEX)` has a non-empty alt and src and closes inside the content |
| ImageSyntax.FindAllAccepted | src/lib/parseMarkdown.ts:148 | every listed occurrence is one the expression accepts |
| ImageSyntax.OriginalReassembles | src/lib/parseMarkdown.ts:163-170 | the full matched text is `"[" + alt + ": " + src + "]"` |
| ImageSyntax.RemovePrefix | src/lib/parseMarkdown.ts:159 | `replace` on a prefix of the content behaves as the scan of the whole content that counts only occurrences closing inside the prefix |
| ImageSyntax.RemoveCopies | src/lib/parseMarkdown.ts:159 | where nothing matches, `replace` copies the text unchanged |
| ImageSyntax.RemoveSplit | src/lib/parseMarkdown.ts:159 | `replace` up to a bound is the text up to a listed occurrence followed by the text after it, with the occurrence removed |
| ImageSyntax.GapsClear | src/lib/parseMarkdown.ts:148 | nothing matches strictly between two consecutive listed occurrences |
| ImageSyntax.LeadClear | src/lib/parseMarkdown.ts:148 | nothing matches before the first occurrence of a scan |
| ImageSyntax.LeadKept | src/lib/parseMarkdown.ts:159 | the content in front of the first occurrence is left unchanged by `replace` |
| ImageSyntax.GapRepeats | src/lib/parseMarkdown.ts:159 | the cleaned text in front of occurrence i + 1 is the cleaned text in front of occurrence i followed by the gap between them |
| PreTokenizer.Pieces | src/lib/parseMarkdown.ts:153-183 | a text child with k >= 1 occurrences becomes 2k + 1 tokens, text and image alternating, starting and ending with text |
| PreTokenizer.Rewritten | src/lib/parseMarkdown.ts:142-152 | a child that is not text, or text without occurrences, yields a single token; a text child with k occurrences becomes 2k + 1 tokens; the last token has the child's type |
| PreTokenizer.RewrittenToken | src/lib/parseMarkdown.ts:136-140 | only the children of an inline token with children change; every other field is kept, and a token that is not inline or has no children is unchanged |
| PreTokenizer.SplitText | src/lib/parseMarkdown.ts:153-183 | the loop over the occurrences builds exactly the pieces |
| PreTokenizer.RewriteChildren | src/lib/parseMarkdown.ts:141-184 | the loop over the children builds exactly the rewritten children list |
| PreTokenizer.PreTokenize | src/lib/parseMarkdown.ts:136-187 | every token of the stream is replaced in place by its rewritten form |
| PreTokenizer.ImagePiece | src/lib/parseMarkdown.ts:163-175 | each image token has type `image`, tag `img`, the alt as content, attrs `alt=""`, `src=<src>` and `data-original="[" + alt + ": " + src + "]"`, one text child holding the alt, and comes from an accepted occurrence |
| PreTokenizer.FirstBeforeText | src/lib/parseMarkdown.ts:159 | the text in front of the first image is the content up to it, unchanged |
| PreTokenizer.BeforeTextRepeats | src/lib/parseMarkdown.ts:159 | the text in front of image i + 1 is the text in front of image i followed by the gap between images i and i + 1 |
| PreTokenizer.SingleRoundTrip | src/lib/parseMarkdown.ts:159-181 | with one occurrence, before-text + `data-original` + after-text equals the content |
| PreTokenizer.RewrittenAllAppend | src/lib/parseMarkdown.ts:142-184 | rewriting distributes over concatenation of children lists, so children keep their order |
| PreTokenizer.RewrittenCount | src/lib/parseMarkdown.ts:142-184 | the new children list has the old length plus two per occurrence in text children |
| PreTokenizer.PassThrough | src/lib/parseMarkdown.ts:142-152 | a children list in which no text child has an occurrence is left exactly as it is |
| Dom.AddClass | src/lib/parseMarkdown.ts:51 | the class is present afterwards, no class is lost, and no other class is added |
| Dom.AddClassIdempotent | src/lib/parseMarkdown.ts:51 | adding a class twice is adding it once |
| ImageFilter.FallbackText | src/lib/parseMarkdown.ts:42 | a dropped image shows its `data-original` when it has one, and otherwise `![`, the src, `](`, the alt and `)`, in that order: src first, alt second |
| ImageFilter.FilterImages | src/lib/parseMarkdown.ts:36-53 | the loop turns the body into the filtered body: each node where it stood, then the moved clones in document order |
| ImageFilter.Visit | src/lib/parseMarkdown.ts:37-52 | one image is replaced by a span, removed and appended again at the end, or given `inline-block`, according to its transform |
| ImageFilter.DisabledDropsAll | src/lib/parseMarkdown.ts:37-45 | with `images` false no image is left |
| ImageFilter.SurvivorsAllowed | src/lib/parseMarkdown.ts:37-45 | every image left has `images` on, and either any host allowed or a src starting with an allowed host |
| ImageFilter.TransformedImages | src/lib/parseMarkdown.ts:46-52 | an image left in place was allowed and has no `data-original` |
| ImageFilter.ClonesImages | src/lib/parseMarkdown.ts:46-49 | every appended clone is an allowed image with a `data-original` from the original body |
| ImageFilter.FilteredLength | src/lib/parseMarkdown.ts:36-53 | the body keeps its length |
| ImageFilter.FilterFate | src/lib/parseMarkdown.ts:37-52 | every node of the body is accounted for: a node that is not an image stays; a dropped image leaves its fallback span in place; an allowed image without `data-original` stays in place with `inline-block`; an allowed image with one is among the clones at the end |
| ImageFilter.ImageFreeUnchanged | src/lib/parseMarkdown.ts:36 | a body without images is left exactly as it is |
| Mentions.UserRoute | src/lib/parseMarkdown.ts:71-72 | the route starts with `users/`, and `"@"` followed by the rest of the route gives back the link text |
| Mentions.Mentioned | src/lib/parseMarkdown.ts:67-73 | a mention's href becomes the resolved route `users/` + the text after `@`; kind and text are kept; every element that is not a mention is unchanged |
| Mentions.RewriteMentions | src/lib/parseMarkdown.ts:66-74 | the loop sets each mention's href in place, leaving the body otherwise as the rewrite function states |
| Mentions.MentionIgnoresHref | src/lib/parseMarkdown.ts:71-73 | two mentions with the same text get the same href, whatever their previous hrefs |
| Mentions.MentionsIdempotent | src/lib/parseMarkdown.ts:66-74 | running the rewrite again changes nothing |
| ProjectEmbeds.DigitsEnd | src/lib/parseMarkdown.ts:85 | `\d+` takes the whole run of digits |
| ProjectEmbeds.WithHost | src/lib/parseMarkdown.ts:85 | a capture has the host text as written in the link, then `/`, and the id is the whole run of digits that follows it in the link; conversely the host, `/` and a digit always give a capture |
| ProjectEmbeds.FindProjectLeftmost | src/lib/parseMarkdown.ts:84-86 | `link.match` reports the match at the leftmost position where there is one, and nothing only when no position matches |
| ProjectEmbeds.WildcardHost | src/lib/parseMarkdown.ts:85 | `scratch-mit-edu/projects/42` is recognised, with the url captured as written |
| ProjectEmbeds.DetectEmbeds | src/lib/parseMarkdown.ts:75-107 | the body gains nothing when `inline`; otherwise it gains the buttons of the embedded projects, in link order |
| ProjectEmbeds.VisitAnchor | src/lib/parseMarkdown.ts:77-106 | one link adds its project, and a button, exactly when it qualifies and its id is not yet in the set |
| ProjectEmbeds.FoundIds | src/lib/parseMarkdown.ts:92-95 | the set holds exactly the ids of the qualifying links passed so far |
| ProjectEmbeds.FoundDistinct | src/lib/parseMarkdown.ts:92-95 | no project id is embedded twice |
| ProjectEmbeds.FoundIsFirsts | src/lib/parseMarkdown.ts:75-107 | the embedded projects are exactly those of the first qualifying link for each id, in link order |
| ProjectEmbeds.LabelDeterminesId | src/lib/parseMarkdown.ts:97 | two button labels for the same `loadProjectText` are equal only for the same project id |
| ProjectEmbeds.OneButtonPerId | src/lib/parseMarkdown.ts:92-106 | the appended buttons carry pairwise different labels, and there is a button labelled with an id exactly when some link stands for a project with that id: one button per project |
| ProjectEmbeds.FirstOfIdSeen | src/lib/parseMarkdown.ts:92 | the last link is the first of its id exactly when it stands for a project whose id is not among those of the earlier qualifying links |
| MediaProbe.Classify | src/lib/parseMarkdown.ts:115-124 | audio exactly for status 200 and an `audio/` content type, video exactly for status 200 and a `video/` content type |
| MediaProbe.Probed | src/lib/parseMarkdown.ts:108-127 | an element is kept, or it is an image whose response calls for media and becomes that media element with the same src |
| MediaProbe.ProbeMedia | src/lib/parseMarkdown.ts:108-128 | every element of the body is replaced by its probed form |
| MediaProbe.ProbeIdempotent | src/lib/parseMarkdown.ts:108-128 | probing again with the same responses changes nothing |

## Left out

- markdown-it parsing and rendering, highlight.js and markdown-it-emoji (lines 14-22, 134, 188) are external libraries. The token stream is an input. HTML output is not modelled, so neither is the renderer writing the alt text into the `alt` attribute.
- `DOMParser`, `innerHTML` serialisation and `linkifyHtml` (lines 34-35, 54-65) are external. Each stage takes its document as given. The browser's URL normalisation of `img.src` and `a.href` is not modelled: src and href are the strings as written.
- The document tree is flattened to its elements in document order. Nesting is not modelled.
- `useLink` from vue-router (line 72) is the function parameter `resolve`.
- `fetch` (line 111) is the function parameter `fetch`, and a failed request is `None`. The asynchronous, unordered completion of the probes is not modelled. Each replacement touches only its own element, so the probes are applied one after the other.
- The click listener that swaps the button for the iframe (lines 103-105) is user interaction. The button records the iframe it would load.
- The contents of `hostWhitelist` are not part of this model. The list is a parameter.
- Class names other than `inline-block`, and the button's CSS classes (line 98), are not modelled.
- The `index === undefined` branch (line 156) cannot be taken, because `matchAll` always sets the index.
- `newTokens` (lines 135, 138, 186) is never read: the renderer is given `tokens`, whose inline tokens were changed in place.
- Token fields other than type, tag, nesting, content, attrs and children are not modelled.
- The option defaults of `parseMarkdown` (lines 27-30: `inline` false, `images` true, `anyImageHost` false, `loadProjectText` "Load project") are not modelled. Each stage takes the options it reads as parameters, with no default.
- Strings are sequences of Unicode scalar values, where JavaScript uses UTF-16 code units. Every literal of the two expressions lies below U+10000, so a match cannot begin or end inside a surrogate pair. The only place the difference shows is a `.` of the project expression, which is therefore restricted to characters below U+10000 (`IsWildcard`).
- ProbeIdempotent: rests on `fetch` being one fixed function. A real second request may get a different response.
- The modules are not composed into one `parseMarkdown` call, because the serialise, linkify and re-parse steps between them are left out.
