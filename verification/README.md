# jarkdown: the issue-to-Markdown core in Dafny

jarkdown exports Jira issues as Markdown files. This project models the
pure part of that program as Dafny functions, methods and lemmas, and
proves properties of it. The modelled parts are:

- **JSON values.** The issue JSON is the closed datatype `Json.JValue`:
  strings, integers, booleans, null, lists and dicts, with dicts as
  ordered key/value sequences. `dict.get(k, d)` is `Json.Get`. Python
  truthiness is `Json.Truthy`, and `str()`/`repr` is `Json.Str`/`Json.Repr`.
  A Python crash is an `Err(TypeError | AttributeError | KeyError)`, for
  example a `.get` on something that is not a dict, or iterating a number.
- **The ADF renderer.** `_parse_adf_to_markdown` is modelled in module
  `Adf`, with its properties in module `AdfFacts`.
- **The attachment-link rewriters** (module `Links`). The current one
  rewrites secure URLs that name the file, then falls back to the bracket
  text. The greedy one, in the older package and the script, sends every
  attachment URL to the current file and then renames the quoted original
  name everywhere. Markdown text is read as a sequence of segments:
  plain runs, images `![alt](url)` and links `[text](url)`. Each
  `re.sub` pass is modelled segment by segment. This matches Python
  except where one pass's rewrite creates or destroys a match for a
  later pass, as with a linked image (see "## Left out").
- **Percent-encoding.** `quote(s, safe='')` is percent-encoding per
  section 2.1 of RFC 3986. It keeps only the unreserved set of
  section 2.3, and it is modelled in module `Percent` over UTF-8 bytes.
- **HTML clean-up.** The post-processing of `convert_html_to_markdown`
  is modelled in module `Html`: tag removal, collapsing runs of blank
  lines, and stripping.
- **The document composers.**
  - Module `Compose` holds the current comments section, the metadata
    map and `compose_markdown`.
  - Module `Legacy` holds the three older `compose_markdown` variants,
    with their blockquoted comments and fixed metadata lines.
  - Module `Sections` holds what all of them share: the description, the
    comment date and the attachments section.
- **The custom-field renderer** `CustomFieldRenderer` (module
  `CustomFields`).
- **Field selection** (module `FieldFilter`): `get_field_filter` over an
  already-parsed configuration, and `should_include_field`.
- **The field metadata cache** `FieldMetadataCache` (module
  `FieldCache`). The cache file is a value, and time is a parameter.
- **The bulk exporter** (module `Bulk`): the output-directory rule,
  `_export_one` error mapping, the `export_bulk` partition run
  sequentially, and `generate_index_md`.
- **Attachment download** (module `Attachments`): the filename-conflict
  loop and the download-all control flow, in all three copies. The set
  of names already in the directory is the state. The server's answers
  are a parameter.

Several copies of the same code exist: `src/jarkdown`, the top-level
`markdown_converter.py`, `jira_download_pkg/` and `jira_download.py`.
Each is modelled once, with a variant flag where the copies differ:
`Attachments.Variant`, `Legacy.Converter` and `Sections.Relinker`.

Modules `Wrappers`, `Seqs`, `Text` and `Select` hold general helpers:
results, sequence facts, `split`/`join`/`strip`, and filtering.

## Model

| member | source | states |
|---|---|---|
| AdfFacts.ScalarNodes | src/jarkdown/markdown_converter.py:133-138 | a string node renders as itself; any other non-dict node renders as "" |
| AdfFacts.ListChildren | src/jarkdown/markdown_converter.py:145-146 | the children of a node, given as a list, render in list order |
| AdfFacts.UnknownKindJoinsChildren | src/jarkdown/markdown_converter.py:246-251 | a node of an unknown type renders as its children joined by newlines, or "" when it has none |
| AdfFacts.ChildrenFollowIteration | src/jarkdown/markdown_converter.py:145-146 | the renderer's walk over "content" agrees with Python iteration: both fail together, and otherwise every item is rendered in order |
| AdfFacts.MarksApplyInOrder | src/jarkdown/markdown_converter.py:160-172 | the marks apply in list order, so the last mark is the outermost wrapper |
| AdfFacts.MarkWrappers | src/jarkdown/markdown_converter.py:162-170 | strong gives `**t**`, em gives `*t*`, code gives `` `t` ``, link gives `[t](href)`, and an unknown mark leaves the text alone |
| AdfFacts.LinkMark | src/jarkdown/markdown_converter.py:168-170 | a link mark with an href makes the text the label of a link to that href |
| AdfFacts.StrongThenEm | src/jarkdown/markdown_converter.py:162-165 | strong then em gives `***t***` |
| AdfFacts.BulletListLines | src/jarkdown/markdown_converter.py:174-184 | a bullet list renders exactly when its children do; every line of it is "- " followed by at least one character, so empty item lines are dropped |
| AdfFacts.OrderedListLines | src/jarkdown/markdown_converter.py:186-199 | an ordered list of n items renders exactly when its children do; every line opens with "k. " for some 1 <= k <= n, or with three spaces |
| AdfFacts.OrderedListNumbersItems | src/jarkdown/markdown_converter.py:190-196 | item k whose first line is non-empty yields the line "k. " followed by that line, counting from the start number |
| AdfFacts.BulletListItems | src/jarkdown/markdown_converter.py:174-184 | the lines of a rendered bullet list are exactly the non-empty lines of its items behind "- ": every non-empty line of every item appears as "- " and that line, and every line of the list is "- " before a line of some item |
| AdfFacts.OrderedListItems | src/jarkdown/markdown_converter.py:186-199 | the lines of a rendered ordered list are exactly the non-empty lines of its items: line j of item k (from 0) appears behind "k+1. " when j is 0 and behind three spaces otherwise, and every line of the list is such an item line |
| AdfFacts.BulletLinesContent | src/jarkdown/markdown_converter.py:178-183 | every non-empty line of every item is in the bullet lines behind "- ", and every bullet line is "- " before a line of some item |
| AdfFacts.ItemLinesContent | src/jarkdown/markdown_converter.py:193-198 | the non-empty lines of one item appear behind their prefix (the number on line 0 of the first, three spaces elsewhere), and nothing else does |
| AdfFacts.OrderedLinesComplete | src/jarkdown/markdown_converter.py:190-198 | a non-empty line j of item k is in the ordered lines behind "start+k. " for j = 0 and behind three spaces otherwise |
| AdfFacts.OrderedLinesSound | src/jarkdown/markdown_converter.py:190-198 | every ordered line is a non-empty line of some item behind that item's number or three spaces |
| AdfFacts.HeadingShape | src/jarkdown/markdown_converter.py:206-211 | a heading is "#" repeated level times, a space and its inline text; without attrs it is "# " and the text |
| AdfFacts.HeadingText | src/jarkdown/markdown_converter.py:208-211 | a heading without attrs is "# " followed by its children concatenated, and an integer level repeats "#" that many times |
| AdfFacts.CodeBlockShape | src/jarkdown/markdown_converter.py:213-218 | a rendered code block is exactly "```", the language ("" without attrs), a newline, the children joined by newlines, a newline and "```" |
| AdfFacts.NoLanguage | src/jarkdown/markdown_converter.py:217 | without attrs the fence carries no language |
| AdfFacts.CodeBlockText | src/jarkdown/markdown_converter.py:213-218 | the code-block renderer gives exactly the fence with the language, a newline, the newline-joined children, a newline and the closing fence |
| AdfFacts.CodeBlockLines | src/jarkdown/markdown_converter.py:213-218 | read back line by line, a code block of newline-free children is the opening fence with its language, the children in order, and the closing fence |
| AdfFacts.BlockquoteLines | src/jarkdown/markdown_converter.py:220-227 | a block quote renders exactly when its children do, and every line of it begins with "> " |
| AdfFacts.HardBreakIsNewline | src/jarkdown/markdown_converter.py:243-244 | a hard break renders as "\n" |
| AdfFacts.WellFormedRenders | src/jarkdown/markdown_converter.py:124-251 | on a tree of the shapes the renderer was written for, rendering never raises |
| Adf.BulletLines | src/jarkdown/markdown_converter.py:178-184 | every bullet line starts with "- ", has at least one character after it and holds no newline (which lines they are: AdfFacts.BulletLinesContent) |
| Adf.OrderedLines | src/jarkdown/markdown_converter.py:190-198 | every line opens with "k. " for the number k of one of the list's items, or with three spaces (which lines they are: AdfFacts.OrderedLinesComplete and AdfFacts.OrderedLinesSound) |
| Adf.Quoted | src/jarkdown/markdown_converter.py:227 | one quoted line per input line, each being "> " followed by that line |
| Adf.Hashes | src/jarkdown/markdown_converter.py:211 | `"#" * level`: an int repeats the character, a bool counts as 0 or 1, and any other type raises |
| Percent.QuoteAlphabet | src/jarkdown/markdown_converter.py:67 | a quoted name contains only unreserved characters and "%" |
| Percent.QuoteHasNoMarkup | src/jarkdown/markdown_converter.py:67 | a quoted name contains none of `! [ ] ( ) / :`, space, tab or newline, so it cannot break a Markdown link |
| Percent.QuoteIdentity | src/jarkdown/markdown_converter.py:67 | quoting leaves a name unchanged exactly when it is made only of unreserved characters |
| Percent.QuoteRoundTrip | src/jarkdown/markdown_converter.py:67 | decoding the percent escapes of `quote(s)` gives back the UTF-8 bytes of s |
| Percent.QuoteInjective | src/jarkdown/markdown_converter.py:67 | two names that quote alike have the same UTF-8 encoding |
| Html.Convert | src/jarkdown/markdown_converter.py:31-43 | "" for a falsy input; the result never holds three newlines in a row and has no white space at either end |
| Html.StripTagsTagFree | src/jarkdown/markdown_converter.py:38 | after tag removal no `<...>` tag is left |
| Html.StripTagsIdentity | src/jarkdown/markdown_converter.py:38 | tag removal changes the text exactly when the text holds a tag |
| Html.CollapseNoBlankRun | src/jarkdown/markdown_converter.py:41 | after collapsing, no three newlines in a row are left |
| Html.CollapseIdentity | src/jarkdown/markdown_converter.py:41 | collapsing changes the text exactly when it holds three newlines in a row |
| Html.StripSlice | src/jarkdown/markdown_converter.py:43 | stripping keeps a slice of the text with no white space at either end |
| Links.TokenizeRenders | src/jarkdown/markdown_converter.py:82-92 | reading text as plain runs, images and links loses nothing: the segments show the text again |
| Links.TokenizeDelimited | src/jarkdown/markdown_converter.py:83-89 | every segment read from a text fits the bracket patterns, and no two plain runs are adjacent |
| Links.TokenizeShow | src/jarkdown/markdown_converter.py:83-89 | an image or link that fits the bracket patterns is read back as itself |
| Links.RewriteIsIntended | src/jarkdown/markdown_converter.py:55-122 | the passes of the current rewriter, run one after another, do to each segment what the direct rule `Intended` says |
| Links.NoAttachmentsNoChange | src/jarkdown/markdown_converter.py:55-56 | with no downloaded attachments the text comes back unchanged |
| Links.RewriteChangesOnlyAttachmentUrls | src/jarkdown/markdown_converter.py:62-120 | only images and links whose URL is an attachment URL on the domain change; their bracket part and kind are kept |
| Links.SecureUrlGoesToFile | src/jarkdown/markdown_converter.py:69-92 | a secure URL ending in an attachment's original name, as is or quoted, becomes the quoted local file name of the first such attachment |
| Links.QuotedIsFixed | src/jarkdown/markdown_converter.py:97-120 | a segment whose URL is already a quoted name is left alone |
| Links.RewriteIdempotent | src/jarkdown/markdown_converter.py:55-122 | rewriting twice gives the same result as rewriting once |
| Links.QuotedNamesNothing | src/jarkdown/markdown_converter.py:76-77 | a quoted name is never an attachment URL |
| Links.GreedyNoAttachmentsNoChange | jira_download_pkg/markdown_converter.py:54-55 | the greedy rewriter leaves the text unchanged when nothing was downloaded |
| Links.GreedyPassOne | jira_download_pkg/markdown_converter.py:79-91 | one greedy pass sends every eligible image or link with an attachment URL to the quoted file name and keeps its bracket part |
| Links.GreedyPassAbsorbs | jira_download_pkg/markdown_converter.py:58-91 | after one greedy pass no attachment URL is left, so a later attachment's pass changes nothing |
| Links.FirstAttachmentWins | jira_download_pkg/markdown_converter.py:58-96 | when no file was renamed on download, every attachment URL of an image or link gets the first attachment's name |
| Links.RenameIsReplace | jira_download_pkg/markdown_converter.py:93-96 | renaming a markup-free pattern segment by segment is the same as `str.replace` on the whole text |
| Links.GreedyRenameStep | jira_download_pkg/markdown_converter.py:58-96 | for one attachment, the greedy rewrite is its URL pass, followed by `str.replace` of the quoted original name with the quoted file name on the whole text when the two names differ and the original is not empty |
| Sections.RelinkWithoutAttachments | jira_download.py:142-143 | both rewriters leave the text unchanged when nothing was downloaded |
| Sections.NormaliseDate | src/jarkdown/markdown_converter.py:286-290 | a trailing "Z" becomes "+00:00"; a date already ending in "+00:00", or with neither "Z" nor "+", is unchanged |
| Sections.CompactOffset | src/jarkdown/markdown_converter.py:288-290 | a date whose only "+" opens a trailing "+0000" gets "+00:00" in its place |
| Sections.FormatDate | src/jarkdown/markdown_converter.py:277-297 | "Unknown date" for a falsy date; the raw date when parsing fails; otherwise the parsed and reformatted date |
| Sections.DescriptionSource | src/jarkdown/markdown_converter.py:458-462 | the rendered description when truthy, else the raw description wrapped in `<p>...</p>` when truthy, else nothing |
| Sections.Description | src/jarkdown/markdown_converter.py:464-472 | fails exactly when choosing the description HTML fails; the placeholder "*No description provided*" when there is no HTML, otherwise the converted and relinked HTML |
| Sections.DescriptionFromFields | src/jarkdown/markdown_converter.py:458-472 | over the issue's fields: a truthy rendered description is converted and relinked; else a truthy raw description is wrapped in `<p>...</p>`, converted and relinked; else the placeholder; a non-dict rendered-fields value raises |
| Sections.DescriptionWithoutAttachments | src/jarkdown/markdown_converter.py:464-470 | without downloads the description is the cleaned converter output |
| Sections.IsImage | src/jarkdown/markdown_converter.py:493 | a falsy MIME type is not an image; a string is an image when it starts with "image/"; any other truthy value raises |
| Sections.AttachmentLineReadsBack | src/jarkdown/markdown_converter.py:492-498 | an attachment line reads back as "- " followed by one image (for image types) or one link, with the file name as text and the quoted name as target |
| Sections.AttachmentsSection | src/jarkdown/markdown_converter.py:484-499 | nothing when nothing was downloaded; otherwise the heading, a blank line, one line per attachment in order, and a blank line |
| Compose.CommentBody | src/jarkdown/markdown_converter.py:305-320 | the body is chosen in order: renderedBody, then a dict body through the ADF renderer, then a non-empty string body, then "*No comment body*" |
| Compose.CommentHeader | src/jarkdown/markdown_converter.py:276-300 | "**author** - _date_", with "Unknown" for a missing display name and the date rules of FormatDate |
| Compose.SeparatedLayout | src/jarkdown/markdown_converter.py:326-332 | blocks sit six lines apart, and "", "---", "" appears exactly between consecutive comments |
| Compose.FramedLayout | src/jarkdown/markdown_converter.py:270-334 | the section is "## Comments", a blank line, the separated blocks and a final blank line |
| Compose.CommentsSection | src/jarkdown/markdown_converter.py:263-336 | empty when the comment list is falsy; a non-empty list gives the framed blocks of every comment in order; a truthy non-list, or a lookup that raises, is an error |
| Compose.Names | src/jarkdown/markdown_converter.py:382-384 | keeps the truthy names of the items, in source order, once per item that has one (a repeated name stays repeated); raises when an item is not a dict |
| Compose.MetadataKeyOrder | src/jarkdown/markdown_converter.py:350-415 | the metadata keys are a subsequence of the fixed key order, each at most once |
| Compose.Metadata | src/jarkdown/markdown_converter.py:411-415 | no value in the map is None or an empty list |
| Compose.MetadataLookup | src/jarkdown/markdown_converter.py:434-435 | `metadata.get(k, d)` for a key of the fixed order is the value set for k when it survived the filter, else d |
| Compose.TitleLinksToIssue | src/jarkdown/markdown_converter.py:450 | the title reads back as "# ", a link from the key to base/browse/key, and ": " followed by the summary |
| Compose.MetadataKey | src/jarkdown/markdown_converter.py:351 | the key the title shows is the issue's "key", or "UNKNOWN" |
| Compose.MetadataSummary | src/jarkdown/markdown_converter.py:352 | the summary the title shows is the fields' "summary", or "No Summary" |
| Compose.ComposeTitle | src/jarkdown/markdown_converter.py:434-450 | the front matter sits between "---" lines, followed by the title with the issue's key and summary |
| Compose.ComposeDescription | src/jarkdown/markdown_converter.py:453-474 | "## Description" is always present, and the line under it is the description or its placeholder |
| Compose.ComposeSectionOrder | src/jarkdown/markdown_converter.py:438-501 | the sections come in the order description, comments, attachments; "## Attachments" is present exactly when something was downloaded |
| Compose.Compose | src/jarkdown/markdown_converter.py:501 | the file read back at its newlines is every line's own lines in order, so a multi-line front matter or description spans several; exactly the lines when none holds a newline |
| Compose.ComposeOpens | src/jarkdown/markdown_converter.py:441-450 | the file opens with "---", the rstripped front matter, "---", a blank line and the title linking the key (default "UNKNOWN") with the summary (default "No Summary") |
| Legacy.ReadHeader | markdown_converter.py:200-210 | fails exactly where the dict lookups raise; otherwise reads the key, summary, type, status, priority, assignee and reporter |
| Legacy.HeaderDefaults | markdown_converter.py:204-210 | missing values show "UNKNOWN", "No Summary", "Unknown", "Unknown", "Normal", "Unassigned" and "Unknown" |
| Legacy.HeaderRaises | markdown_converter.py:206-207 | a present "issuetype" or "status" that is not a dict makes the header raise |
| Legacy.HeaderLines | markdown_converter.py:216-225 | eight lines: the title, a blank line, five metadata lines of which the first four end with two spaces and the last is the reporter line, and a blank line |
| Legacy.HeaderShowsIssue | markdown_converter.py:204-221 | line 0 is the title made from the issue's key and summary; the type and status lines show the issue's name when the field is set and "Unknown" when it is missing |
| Legacy.HeaderShowsPeople | markdown_converter.py:208-224 | the priority, assignee and reporter lines show the issue's name when the field is truthy and "Normal", "Unassigned" or "Unknown" otherwise |
| Legacy.HeaderValues | markdown_converter.py:204-210 | each header value is the issue's lookup with its default, the last three only when the field is truthy |
| Legacy.QuoteLineReadsBack | markdown_converter.py:180-184 | a quoted body line gives the line back, unless the line is blank without being empty |
| Legacy.QuoteLinesReadBack | markdown_converter.py:180-184 | a quoted body gives the body back when no line of it is blank without being empty |
| Legacy.CommentSource | markdown_converter.py:165-168 | the rendered body when truthy, else the raw body wrapped in `<p>...</p>` when truthy, else nothing |
| Legacy.CommentBody | markdown_converter.py:171-174 | the converted and relinked body, or "*No comment body*" |
| Legacy.CommentBlock | markdown_converter.py:177-186 | a header line, one quote line per body line, and a blank line |
| Legacy.CommentReadsBack | markdown_converter.py:176-186 | a comment's block gives its body back from between the header and the final blank line |
| Legacy.CommentsSection | markdown_converter.py:129-188 | empty when the comment list is falsy; a non-empty list gives "## Comments", a blank line and the blocks of every comment in order, and fails exactly when a block fails; a truthy non-list, or a lookup that raises, is an error |
| Legacy.CommentInSection | markdown_converter.py:140-186 | comment k's block sits in the section after the heading, the blank line and the earlier blocks |
| Legacy.DocumentLayout | markdown_converter.py:212-271 | the header comes first, then "## Description" and the description line, then the comment lines, then the attachment lines |
| Legacy.SectionOrder | jira_download_pkg/markdown_converter.py:122-176 | the header lines come first, followed by "## Description" and the description; the older package and the script have no comments section; "## Attachments" is present exactly when something was downloaded, with one line per file |
| Legacy.DescriptionLine | jira_download.py:222-234 | the description line is the placeholder exactly when neither a rendered nor a raw description exists |
| Legacy.ComposeMarkdown | jira_download.py:256 | the file read back at its newlines is every line's own lines in order, so a multi-paragraph description or comment spans several; exactly the lines when none holds a newline |
| Legacy.ComposeMarkdownOpens | jira_download.py:205-234 | the file opens with the eight header lines, "## Description", a blank line and the description or its placeholder |
| CustomFields.ItemText | src/jarkdown/custom_field_renderer.py:91-102 | for a dict, the first truthy of "value", "displayName" and "name", else its `str`; for anything else, its `str` |
| CustomFields.DictItemNotEmpty | src/jarkdown/custom_field_renderer.py:94-100 | a dict item always shows some text |
| CustomFields.RenderArray | src/jarkdown/custom_field_renderer.py:85-103 | a non-list shows its `str`; nothing for [] (and only for []); one item shows its text; two or more show the first item's text, ", " and the rendering of the rest, whatever the texts hold |
| CustomFields.CommaRoundTrip | src/jarkdown/custom_field_renderer.py:103 | joining by ", " and reading the text back gives the parts, when none of them holds a comma |
| CustomFields.ArrayListsItems | src/jarkdown/custom_field_renderer.py:90-103 | a non-empty array reads back, comma by comma, as its item texts in order |
| CustomFields.RenderByShape | src/jarkdown/custom_field_renderer.py:114-143 | "" and None give nothing; another string is itself; a number shows its `str`; a doc dict goes to the parser, with "" read as nothing; another dict shows the first present key of "value", "displayName", "name", else its `str`; a list renders as an array |
| CustomFields.PresenceAgainstTruthiness | src/jarkdown/custom_field_renderer.py:94-99 | a dict whose "value" is present but falsy shows that value alone, and falls through to its display name inside a list |
| CustomFields.PresenceExample | src/jarkdown/custom_field_renderer.py:127-128 | `{"value": "", "displayName": "Ann"}` renders as "" alone and as "Ann" inside a list |
| CustomFields.RenderBySchema | src/jarkdown/custom_field_renderer.py:55-74 | string, number and date give `str`; datetime gives the first 19 characters; an option dict gives "value", a user dict "displayName" then "name", and a non-dict `str`; array renders as an array; any renders by shape; any other type gives nothing |
| CustomFields.RenderValue | src/jarkdown/custom_field_renderer.py:32-43 | None gives nothing; a truthy schema's type is tried first, and shape rendering decides when it gives nothing |
| CustomFields.SchemaFirst | src/jarkdown/custom_field_renderer.py:36-43 | a schema result, when there is one, decides; otherwise the result is exactly the shape rendering |
| CustomFields.UnknownTypeIsShape | src/jarkdown/custom_field_renderer.py:74 | an unknown or missing schema type renders exactly as with no schema |
| CustomFields.AnyIsShape | src/jarkdown/custom_field_renderer.py:71-73 | schema "any" renders exactly as with no schema |
| FieldFilter.CliNames | src/jarkdown/config_manager.py:90 | the names of a command-line list are non-empty and contain no comma |
| FieldFilter.CliRoundTrip | src/jarkdown/config_manager.py:90 | stripped names joined by commas read back as the same set of names |
| FieldFilter.BlankCliIsEmpty | src/jarkdown/config_manager.py:90 | an empty or blank command-line list names nothing |
| FieldFilter.SetOf | src/jarkdown/config_manager.py:92 | `set(v)` holds exactly the iterated items; it raises for a non-iterable or an unhashable item |
| FieldFilter.GetFieldFilter | src/jarkdown/config_manager.py:85-104 | succeeds exactly when the configuration is a dict and every list not given on the command line can be read from a dict "fields" section; a command-line list decides its set; otherwise a truthy configuration list does; otherwise include is absent and exclude is empty, so a configuration without "fields" and no command-line lists gives no include set and an empty exclude set |
| FieldFilter.CliOverridesConfig | src/jarkdown/config_manager.py:89-100 | with both lists on the command line, the configuration plays no part |
| FieldFilter.ShouldInclude | src/jarkdown/config_manager.py:118-131 | everything passes without a filter; exclusion wins; otherwise membership in the include set decides, when there is one |
| FieldFilter.CliDecides | src/jarkdown/config_manager.py:89-131 | with command-line lists, a field is shown exactly when the include list names it and the exclude list does not |
| FieldFilter.EmptyIncludeShowsNothing | src/jarkdown/config_manager.py:89-90 | an empty command-line include list shows no field |
| FieldCache.IsStale | src/jarkdown/field_cache.py:38-45 | a missing or unreadable file is stale; otherwise the file is stale exactly when more than 86400 seconds have passed since "cached_at" (default 0) |
| FieldCache.Load | src/jarkdown/field_cache.py:68-74 | [] for a missing or unreadable file; a non-dict raises; a dict gives its "fields" value when present and [] when absent |
| FieldCache.Save | src/jarkdown/field_cache.py:53-60 | the file holds the time, the domain and the list, and the memoised map is dropped |
| FieldCache.SaveThenLoad | src/jarkdown/field_cache.py:54-72 | loading after a save gives the saved list |
| FieldCache.SaveThenStale | src/jarkdown/field_cache.py:43-55 | a list saved at time t is stale at time now exactly when now - t > 86400 |
| FieldCache.LastWins | src/jarkdown/field_cache.py:87-89 | the name of a field comes from the last entry defining it, or is the id when that entry has no name |
| FieldCache.GetFieldName | src/jarkdown/field_cache.py:85-90 | an unknown id maps to itself, and the map is built once and memoised |
| FieldCache.SavedUnknown | src/jarkdown/field_cache.py:60-90 | after a save, an id that no saved entry defines is its own name |
| FieldCache.SavedName | src/jarkdown/field_cache.py:60-90 | after a save, a defined id has the name of the last saved entry defining it |
| FieldCache.FirstWins | src/jarkdown/field_cache.py:102-104 | the first entry whose id matches decides the schema |
| FieldCache.GetFieldSchema | src/jarkdown/field_cache.py:101-105 | {} for a missing or unreadable cache; over a loaded list, the schema of the first dict entry whose "id" matches, {} when no entry matches |
| FieldCache.FirstMatches | src/jarkdown/field_cache.py:102-105 | for every entry that is the first dict whose "id" matches, the scan returns that entry's schema |
| FieldCache.NameLastSchemaFirst | src/jarkdown/field_cache.py:85-105 | with two entries for the same id, the name comes from the later and the schema from the earlier |
| FieldCache.FreshSkipsApi | src/jarkdown/field_cache.py:117-118 | unforced on a fresh cache, the API's answer plays no part: the saved list comes back and the cache is unchanged |
| FieldCache.FetchedIsSaved | src/jarkdown/field_cache.py:120-124 | a successful fetch is returned and saved; afterwards the file is fresh and names are looked up anew |
| FieldCache.FailedFetchFallsBack | src/jarkdown/field_cache.py:125-132 | a failed fetch returns the saved list when it is not empty and [] otherwise, leaving the cache alone |
| Bulk.OutputDir | src/jarkdown/bulk_exporter.py:61-63 | the given directory when non-empty, else the working directory, with the batch name below it when that is non-empty |
| Bulk.IssueDir | src/jarkdown/bulk_exporter.py:248 | an issue's directory is the output directory with the key below it |
| Bulk.ExportOne | src/jarkdown/bulk_exporter.py:118-129 | a written issue is a success with its directory; any of the project's own errors becomes a failure with the key and message; anything else escapes |
| Bulk.ResultOfKey | src/jarkdown/bulk_exporter.py:94-104 | every key gets a result carrying that key; it succeeds exactly when the issue was written, and a failure carries the exception's message |
| Bulk.KeptSplitsKeys | src/jarkdown/bulk_exporter.py:96-104 | the keys of the successes and the failures together are the keys of all results, as a multiset |
| Bulk.KeptCounts | src/jarkdown/bulk_exporter.py:96-104 | the successes and the failures together are as many as the results |
| Bulk.KeptHasFlag | src/jarkdown/bulk_exporter.py:99-102 | every kept result is one of the results and has the success flag asked for |
| Bulk.ExportBulk | src/jarkdown/bulk_exporter.py:80-104 | successes and failures keep input order, each holds only its own kind, they add up to the number of keys, and their keys are the input keys |
| Bulk.KeyLeTotal | src/jarkdown/bulk_exporter.py:233 | any two keys are ordered one way or the other |
| Bulk.InsertSorted | src/jarkdown/bulk_exporter.py:233 | inserting into a key-sorted list keeps it sorted |
| Bulk.SortByKey | src/jarkdown/bulk_exporter.py:233 | sorting keeps the same results, as a multiset |
| Bulk.SortByKeySorted | src/jarkdown/bulk_exporter.py:233 | the sorted results are in key order |
| Bulk.KeyLinkReadsBack | src/jarkdown/bulk_exporter.py:245-249 | the key cell reads back as one link from the key to "K/K.md" for a success, or to "#" for a failure |
| Bulk.ResultCell | src/jarkdown/bulk_exporter.py:246-250 | "✓" for a success; otherwise "✗ " followed by the error, or by "Unknown error" when there is none |
| Bulk.Cells | src/jarkdown/bulk_exporter.py:234-252 | succeeds exactly when every `.get` is on a dict; six cells, starting with the key link and ending with the result, with the issue's field cells between; all four middle cells are "-" for an issue missing from the data |
| Bulk.FieldCells | src/jarkdown/bulk_exporter.py:235-243 | the summary when truthy, the status's and type's "name", the truthy assignee's "displayName", each "-" when missing; fails exactly when the fields, or a truthy status, type or assignee, are not a dict |
| Bulk.FailedIsFailures | src/jarkdown/bulk_exporter.py:219-221 | the failed count in the header, total minus succeeded, equals the number of failures |
| Bulk.IndexLines | src/jarkdown/bulk_exporter.py:222-254 | six header lines, then exactly one row per result |
| Bulk.RowsInKeyOrder | src/jarkdown/bulk_exporter.py:233-254 | the rows follow the sorted results, which are a permutation of the results in key order, and each row opens with its result's key link |
| Bulk.IndexReadsBack | src/jarkdown/bulk_exporter.py:256 | splitting the index at its newlines gives its lines followed by an empty last part |
| Attachments.StemSuffixSplit | src/jarkdown/attachment_handler.py:47-48 | the stem and the suffix make up the name, and a suffix is empty or a dot followed by at least one non-dot character |
| Attachments.CandidateDistinct | src/jarkdown/attachment_handler.py:49 | different counters give different names, and none of them is the original name |
| Attachments.ChooseName | src/jarkdown/attachment_handler.py:41-50 | a free name is used unchanged; otherwise the name is stem_k + suffix for the smallest k >= 1 that is free; the chosen name never exists |
| Attachments.DownloadAttachment | src/jarkdown/attachment_handler.py:36-71 | raises when "filename" or "content" is missing; the record holds the chosen name, the original name, the MIME type (default "") and the id; a failed download that wrote nothing leaves the directory as it was, and one that left a partial file adds exactly one new name |
| Attachments.DownloadAll | src/jarkdown/attachment_handler.py:83-101 | [] for falsy input; a truthy non-list raises; a list succeeds exactly when every attachment has "filename" and "content" with a string file name; failed downloads are skipped, the rest are kept in input order, and the kept names are pairwise distinct and new to the directory |
| Attachments.DownloadEach | jira_download.py:116-122 | succeeds exactly when every attachment can be looked up, whatever the downloads do; the loop keeps exactly the fetched positions, in order, with distinct fresh names |

## Left out

- The markdownify call is a parameter of the environment (`Sections.Env.md`), because it is a foreign library. Only the clean-up around it is modelled.
- `yaml.dump` of the front matter is a parameter of `Compose.Compose`, because it is a foreign serialiser.
- `datetime.fromisoformat` and `strftime` are a parameter (`Sections.Env.parseDate`), returning `None` where parsing raises. Only the offset rewriting before parsing and the fallback to the raw string are modelled.
- The HTTP clients, retries, JQL search, the CLI, credentials and the orchestration in `jarkdown.py`, `export_core.py` and `jira_download_pkg/jira_download.py` are left out: they are network and I/O plumbing.
- Bulk.ExportBulk runs the exports one after another. The semaphore, `asyncio.gather` and `to_thread` are left out; `gather` keeps the input order, which is the order the model uses.
- `_do_export` is replaced by its outcome (`Bulk.Outcome`), because it fetches, downloads and writes files.
- Writing `index.md` and creating directories are left out, because they are file I/O.
- Bulk.SortByKey is stable, but stability is not stated, because keys are unique in practice.
- Bulk.OutputDir uses `Path.cwd()`, which is a parameter.
- Directory paths are a root plus the names below it; path separators and normalisation are not modelled.
- `_format_size` is left out, because it is float formatting used only in a log line. It is called outside the `try` (src/jarkdown/attachment_handler.py:51), so a non-numeric "size" raises a TypeError before the download; the model does not raise there.
- Logging is left out.
- Loading the TOML configuration file is left out. `FieldFilter.GetFieldFilter` takes the parsed configuration map.
- The cache directory, the file name and JSON encoding are left out. The cache file is a value of `FieldCache.File`, and "unreadable" covers `JSONDecodeError` and `OSError`.
- FieldCache.Save: a failure to write the file is not modelled.
- FieldCache.Refresh: the fetched field list is a list; the API client is the parameter `fetched`, which is `None` when the call raised.
- FieldCache.IsStale: time is an integer number of seconds; the source compares floats.
- Numbers are integers throughout, because floats are left out.
- `str()` of a dict or list is a Python-like `Json.Repr` without quote escaping, because the exact escaping does not affect any modelled decision.
- Links.Tokenize: the tokeniser assumes bracket text holds no "]" and URLs hold no ")", and ends a URL at its first ")". The generic URL patterns agree with this. The secure-URL patterns do not: they embed the escaped original name, which may hold ")", so Python rewrites `![x](https://d/secure/attachment/1/image (1).png)` for an attachment named "image (1).png" and the model does not. Segment boundaries follow the leftmost-match scan, not the full regex engine.
- Links.Tokenize: a linked image `[![a](C)](C)`, where C is an attachment-content URL such as `http://d/rest/api/2/attachment/content/1`, is not modelled. This is how markdownify writes an image inside a link. Python's image pass first rewrites the inner image to `![a](a)`, and its link pass then finds no match, giving `[![a](a)](C)`. The model reads one link whose text is "![a", giving `[![a](%21%5Ba)](C)`. Modelling this needs a separate tokenisation per pass, so that a rewrite can change what a later pass matches.
- Links.GreedyRewrite: the substring rename `str.replace` is modelled inside each segment's visible text. Links.RenameIsReplace and Links.GreedyRenameStep prove this equal to the whole-text replace for a non-empty original name; for an empty original name (Python inserts the new name between every character) the segment-wise result is not proved equal.
- Attachments.Stem: `PurePath.suffix` is modelled for a plain file name without directory separators.
- The ADF renderer: a text node whose "text" is not a string and that has no mark would make Python return a non-string. The model raises a TypeError at once, since the first join in every caller would raise.
- Percent.Quote: characters are Unicode scalar values; surrogate code points are not modelled.
- The ADF node types handled only in tests (tables, panels, emoji, and so on), `_adf_to_plain_text`, and the extra issue sections exercised only in tests are not in the modelled converter source, so they are left out.
- Custom-field filtering in `compose_markdown` (the `field_cache` and `field_filter` arguments) is not part of the modelled `compose_markdown` signature.
- `src/jarkdown/retry.py` is not part of this model.
- The exception classes are reduced to `Bulk.ErrorKind` and `Wrappers.Fault`, because they are a bare class hierarchy.
