# Link extraction from parsed HTML, in Dafny

This project models the link extractor of the `4-link` exercise. Given a
document tree that an HTML parser has already built, the extractor walks the
tree in pre-order and makes one `Link{Href, Text}` for every element whose tag
is exactly `"a"`:

- `Href` is the value of the first attribute whose key is `"href"`, or `""` when there is none.
- `Text` is built by a second pre-order walk over the anchor's subtree, which
  writes into a `strings.Builder`. For each text node it writes one `" "` when
  the builder already holds something, and then writes the trimmed payload.

The walk does not stop at an anchor, so a nested anchor gets its own link, and
its text also belongs to the enclosing anchor's label.

Modules:

- `Trim` (`trim.dfy`): `strings.Trim`/`strings.TrimSpace` as one function `Trim` over a set of cut characters. `Whitespace` is the set of characters `unicode.IsSpace` accepts. `TrimString` is `trimString`.
- `Html` (`html.dfy`): the tree. `Node = Element(tag, attrs, children) | Text(data) | Other(children)`. The parser's first-child/next-sibling chain is a sequence of children. `PreOrder` lists a tree's nodes in document order.
- `LinkText` (`label.dfy`): the label. `Join` is what the builder holds after a sequence of trimmed payloads is written. `TextsOf` gives the payloads of a subtree. `Builder` is the `strings.Builder`. `TraverseText` is the imperative walk, proved to produce `Join(old contents, TextsOf(n))`.
- `Links` (`links.dfy`): `Link`, its formatting, the first-href scan, and the spec function `Anchors` for the links of a tree. `NewLinkFromNode` and `TraverseLinks` are the imperative walks. `NewLinkFromNode` is proved against `NewLink`, the first href and the label. `TraverseLinks` is proved against `Anchors`. Lemmas tie `Anchors` to the pre-order of the tree.
- `Report` (`report.dfy`): the list the driver loop prints, as written, and a per-document driver.

## Model

| member | source | states |
|---|---|---|
| Trim.Trim | 4-link/main.go:36-38 | The trimmed string is the infix of `s` left after cutting only characters of the cut set from both ends; it neither starts nor ends with one of them |
| Trim.TrimUnique | 4-link/main.go:36-38 | Any infix whose surroundings are all cut characters and whose two ends are not is exactly `Trim(s, cut)`, so trimming is fully determined |
| Trim.TrimIdempotent | 4-link/main.go:36-38 | Trimming twice with the same cut set gives the same result as trimming once |
| Trim.TrimNested | 4-link/main.go:37 | Cutting a subset first (the newlines) and then the full set is the same as cutting the full set once |
| Trim.TrimString | 4-link/main.go:36-38 | `trimString(s)` equals `s` with its leading and trailing white space removed; the result has no white space at either end |
| Trim.TrimStringIdempotent | 4-link/main.go:36-38 | `trimString(trimString(s)) == trimString(s)` |
| Html.PreOrder | 4-link/main.go:53-58 | Document order visits a node before every node below it |
| LinkText.Builder.constructor | 4-link/main.go:30 | A new builder is empty |
| LinkText.Builder.WriteString | 4-link/main.go:43-45 | Writing appends the string to the builder's contents and changes nothing else |
| LinkText.TraverseText | 4-link/main.go:40-50 | After the walk, the builder holds its old contents followed by the subtree's trimmed text payloads, written in pre-order with the separator rule |
| LinkText.JoinAppend | 4-link/main.go:47-49 | Writing the payloads of one child after another equals writing their concatenation, so the sibling loop composes |
| LinkText.TextsArePreOrder | 4-link/main.go:40-50 | The label walk visits exactly the text nodes of the subtree, in pre-order; element and other nodes add nothing themselves |
| LinkText.NoTextNoLabel | 4-link/main.go:30-33 | A subtree that has no text node gets the empty label |
| LinkText.JoinAfterText | 4-link/main.go:41-45 | Once the builder is non-empty, every later payload is written after exactly one space, even an empty payload |
| LinkText.JoinIsJoinWords | 4-link/main.go:41-45 | The label is the payloads from the first non-empty one on, joined by single spaces; empty payloads before it write nothing |
| LinkText.JoinCleanIff | 4-link/main.go:41-45 | The label equals the plain space-joined non-empty payloads if and only if no payload that trims to "" comes after the label has begun |
| LinkText.LabelSeparators | 4-link/main.go:40-50 | The separator rule for the label of any node, and the exact condition under which it has no extra or trailing space |
| LinkText.LabelNoLeadingSpace | 4-link/main.go:41-45 | A non-empty label never starts with white space |
| LinkText.TrailingSeparator | 4-link/main.go:41-45 | Writing "Home", "Page" and then "" leaves "Home Page " with a trailing space |
| LinkText.HomePageExample | 4-link/main.go:40-50 | An anchor holding "  Home  ", an element holding "Page" and then a blank text node is labelled "Home Page " |
| Links.Format | 4-link/main.go:16-18 | The formatted line is exactly "Link: ", then the href, then ", Text: ", then the text, each at its stated position, with length 14 plus both fields |
| Links.ParseFormat | 4-link/main.go:16-18 | The formatted line is "Link: " + href + ", Text: " + text: when the href has no comma, splitting the line at the first ", Text: " gives back the link |
| Links.FirstHref | 4-link/main.go:21-28 | The href is the value of the first attribute whose key is "href"; later duplicates are ignored; it is "" when no such attribute exists |
| Links.NewLinkFromNode | 4-link/main.go:20-34 | The attribute scan with `break` and the label walk together produce `NewLink(n)`, the first href and the label |
| Links.TraverseLinks | 4-link/main.go:52-60 | Returns the input slice unchanged, followed by the links of the tree; the prefix is never dropped or altered |
| Links.AnchorsArePreOrder | 4-link/main.go:52-60 | The links of a tree are one link for each anchor of its pre-order, in that order |
| Links.LinkCount | 4-link/main.go:53-58 | The number of links equals the number of "a" elements anywhere in the tree, nested ones included (so a tree without anchors gives none) |
| Links.LinkOfAnchor | 4-link/main.go:53-58 | The anchor at pre-order position i gives the link at index (anchors before i), which is smaller than the index of any anchor visited later, its descendants included |
| Links.GoHereExample | 4-link/main.go:20-60 | `<a href="/x">Go <b>Here</b></a>` gives exactly one link, href "/x" and text "Go Here" |
| Links.NestedAnchorsExample | 4-link/main.go:20-60 | An anchor nested in another gets its own link after the outer one, with its own first href; its text is in both labels |
| Report.AccumulatedSnoc | 4-link/main.go:69-85 | As written (the list `Report.AccumulatedLinks`), after each file the list is acc ++ (acc ++ that file's links), where acc is the list before it; acc stays a prefix and the file's links come last |
| Report.AccumulatedLength | 4-link/main.go:69-85 | As written, the length of the list after n files is the sum over i (from 0) of 2^(n-1-i) times the number of links of file i |
| Report.AccumulatedContents | 4-link/main.go:69-85 | As written, after n files the list holds, as a multiset, the links of file i (from 0) 2^(n-1-i) times each, so every later file doubles what came before |
| Report.AccumulationRepeatsLinks | 4-link/main.go:84-85 | As written, with two one-anchor files the list after the second file is the first file's link twice and then the second file's link, numbered 3 |
| Report.ReportDocuments | 4-link/main.go:71-90 | With a fresh list per file, the report of each document is exactly that document's links, independent of every other document |

## Findings

| source | as written | input that shows it | evidently intended | confidence | as-written member | corrected member |
|---|---|---|---|---|---|---|
| 4-link/main.go:84-85 | `traverseLinks(markup, allLinks)` already returns `allLinks` followed by the new links, and that result is appended to `allLinks` again | two files with one anchor each: after the second file the list is [first, first, second] | each file's links listed once, numbered from 1 | high; not executed | Report.AccumulationRepeatsLinks | Report.ReportDocuments |

## Left out

- File opening, `html.Parse` and printing in `main` (4-link/main.go:62-92) are I/O. The documents arrive as trees. The printed line prefix, `fmt.Sprint(idx+1)+". "` passed to `Println` with a second operand, is not modelled.
- The HTML tokenizer and parser (`golang.org/x/net/html`) is not part of this model. Tag names are taken as the parser gives them (lower-cased), so an anchor is an element whose tag is exactly "a".
- The first-child and next-sibling pointers of the parser's nodes are replaced by an owned sequence of children. Sharing and cycles therefore cannot occur in the model.
- Go slices are modelled as sequence values. Whether `append` reuses the caller's backing array, and so aliases it, is not modelled.
- Strings are sequences of Unicode characters, not UTF-8 bytes. `len(sb.String()) > 0` is modelled as "the contents are non-empty", which is the same test. Invalid UTF-8 is not modelled.
- `Trim.Whitespace` lists the characters Go's `unicode.IsSpace` accepts, written out as a set.
- Recursion depth and stack limits are not modelled.
- Links.ParseFormat: the round trip is proved only for hrefs without a comma. It is a partner of `(*Link).String`, which the source does not invert. An href containing ", Text: " would make the split ambiguous.
