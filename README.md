# db2wp-import-cli in Dafny

A model of the core of db2wp-import-cli, a WP-CLI command. The command reads
rows from an external database and imports them into WordPress:

- The import controller reconciles each mapped record with the site: skip it,
  map it to an existing post, or insert it.
- It keeps the external-id to post-id map (`processed_posts`).
- It attaches terms per taxonomy and adds post metas.
- It remaps featured images after the batch.
- The command's listener on the insert action does three things:
  - it creates a 301 redirect through the Redirection plugin;
  - it imports the remote images and linked documents of the post content into
    the media library, and rewrites their URLs;
  - every 500th record it clears the object cache.
- A small library of Gutenberg block serialisers is included.

Modules, one file each:

| file | module | what it holds |
|---|---|---|
| php.dfy | `Php` | PHP value semantics: `empty()`, `intval()`, array keys, string conversion, loose comparison with a word. String helpers: `strpos`/`strrpos`, `str_replace`, `explode`, `trim`, `strtolower`. `wp_parse_args`. Ordered arrays. |
| wordpress.dfy | `WordPress` | Records, the site as an effect log plus the Redirection tables, the `Oracles` for everything WordPress answers, and the `Host` class. |
| gutenberg.dfy | `Gutenberg` | The five block builders of `utils/db2wp_gutenberg_functions.php`, with decoders for the block name and the paragraph content. |
| urls.dfy | `UrlHelpers` | `get_file_extension`, `get_basename`, `remove_http`, `sanitize_filename`, the scaled-name derivation and `is_wp_domain_match`. |
| redirection.dfy | `Redirection` | `get_redirection_group_id`, `create_redirect`, `handle_do_redirect`. |
| media.dfy | `Media` | `sideload_img_tags` and `sideload_a_tag_files`: gating, lookup or sideload, and rewriting of each reference. |
| listener.dfy | `Listener` | The `db2wp_import_insert_post` listener. |
| controller.dfy | `Controller` | `DB2WP_Import_Controller` as a class, with the specification functions its methods are proved against. |
| command.dfy | `Command` | `__invoke` and `import_from_db` of `DB2WP_Import_Command` as a class. |

How the model is built:

- Everything the site answers is an oracle field of `WordPress.Oracles`. This
  covers post and term lookups, inserts, downloads, `parse_url` and the
  content extractors.
- Oracles that read the database take the effect log, so an answer can depend
  on every earlier write of the run.
- Every write appends an `Effect` to the log. The Redirection plugin's groups
  and rules are sequences that the methods reassign.
- Each stateful method is proved against a specification function of the old
  state. The lemmas are proved about those functions.

Some behaviours of the code are easy to miss. The model follows the code in
each of them:

- An empty `extdb_id` (null, false, 0, "" or "0") is never treated as a
  duplicate. Every such record writes its mapping under key 0 (`Controller.EmptyIdWritesKeyZero`).
- The listener runs inside `wp_insert_post`'s action. So the content's media
  are imported and the content is written back before the record's terms and
  metas are added.
- The cache-clear counter counts every record the raw-data filter sees,
  including skipped ones. The clear only happens when the insert action fires,
  whether or not the insert succeeded.
- After a failed image download the code still rewrites the image reference;
  see "## Findings". The import pipeline of the model uses the corrected step
  `Media.ImageStep`, which keeps that reference. Only
  `Media.TagImageStepAsWritten` follows the code.
- `is_wp_domain_match` takes the first occurrence of "." + home. So a host
  that contains it twice, such as `x.example.com.example.com`, counts as remote
  (`UrlHelpers.RepeatedHomeIsRemote`).

## Model

| member | source | states |
|---|---|---|
| Php.Put | src/Controller/DB2WP_Import_Controller.php:291 | `$a[$k] = $v` keeps every key once: a new key goes last, an existing key keeps its place, other keys keep their values |
| Php.IntVal | src/Controller/DB2WP_Import_Controller.php:145-177 | `intval`: every empty value gives 0, an integer gives itself, a string that is an integer key's decimal form gives that integer |
| Php.ArrayUnion | src/Command/DB2WP_Import_Command.php:139 | the array union `+`: the keys are the union, the left keys keep their values, the other right keys keep theirs |
| Php.IntToString | src/Controller/DB2WP_Import_Controller.php:177 | the decimal form of an integer is non-empty and made of digits and a minus sign |
| Php.IntToStringInjective | src/Controller/DB2WP_Import_Controller.php:177 | two integers with the same decimal form are equal |
| Php.LeadingIntOfIntString | src/Controller/DB2WP_Import_Controller.php:177 | `intval` of an integer's decimal form gives the integer back |
| Php.CanonicalInt | src/Controller/DB2WP_Import_Controller.php:145 | a string that becomes an integer array key is exactly that integer's decimal form |
| Php.Trim | src/Command/DB2WP_Import_Command.php:627-630 | the result is no longer than the input and neither starts nor ends with whitespace |
| Php.TrimIsSlice | src/Command/DB2WP_Import_Command.php:627-630 | the trimmed string is a contiguous slice of the input, and every character cut before or after it is whitespace |
| Php.TrimLeftDrops | src/Command/DB2WP_Import_Command.php:627-630 | every character removed from the front is whitespace |
| Php.TrimRightDrops | src/Command/DB2WP_Import_Command.php:627-630 | every character removed from the back is whitespace |
| Php.Lower | src/Command/DB2WP_Import_Command.php:290 | no capital A-Z remains; every other character is kept; each capital becomes the letter 32 code points later, so the length is kept |
| Php.LowerIdempotent | src/Command/DB2WP_Import_Command.php:290 | lowering twice is lowering once |
| Php.LooseEqualsWord | src/Controller/DB2WP_Import_Controller.php:289 | PHP 8 `==` against a word: a non-boolean value equals it iff its string form is the word; a boolean equals it iff it matches the word's truthiness |
| Php.StrReplace | src/Command/DB2WP_Import_Command.php:622 | an empty search, or a replacement equal to the search, leaves the subject unchanged |
| Php.StrReplaceAbsent | src/Command/DB2WP_Import_Command.php:622 | a search string that occurs nowhere in the subject leaves it unchanged |
| Php.ParseArgs | src/Controller/DB2WP_Import_Controller.php:181 | `wp_parse_args`: the keys are those of both arrays, every argument keeps its value, and a default fills only a missing key |
| Php.Explode | src/Command/DB2WP_Import_Command.php:822 | at least one part; no part holds the separator; one part iff the string has no separator |
| Php.LastIndexOf | src/Command/DB2WP_Import_Command.php:697 | `strrpos` of a character: none iff absent, otherwise an occurrence with no other one after it |
| Gutenberg.AcfName | utils/db2wp_gutenberg_functions.php:13-15 | the name starts with "acf/" and ends with the given name; a name already starting with "acf/" is kept as is; any other name grows by exactly the prefix |
| Gutenberg.AcfBlock | utils/db2wp_gutenberg_functions.php:18-31 | the block is "<!-- wp:", the prefixed name, a space, the JSON of the array holding the unique id, the prefixed name, the data, empty alignment and edit mode, then " /-->" |
| Gutenberg.AcfNameIdempotent | utils/db2wp_gutenberg_functions.php:13-15 | prefixing twice is prefixing once |
| Gutenberg.AcfBlockShape | utils/db2wp_gutenberg_functions.php:18-31 | the block names the prefixed block type after "<!-- wp:", ends with " /-->", and between the name and " /-->" holds exactly the JSON of the id, prefixed name, data, empty alignment and edit mode |
| Gutenberg.AcfBlockPrefixIdempotent | utils/db2wp_gutenberg_functions.php:11-31 | a name given with or without "acf/" builds the same block |
| Gutenberg.HeadingBlock | utils/db2wp_gutenberg_functions.php:49-51 | level 2 gives exactly `<!-- wp:heading  --><h2>c</h2><!-- /wp:heading -->`; an attribute object follows the opening iff the level is not 2; every block ends with the content inside the h element of its level, then the block close |
| Gutenberg.HeadingBlockExact | utils/db2wp_gutenberg_functions.php:49-51 | any level other than 2 gives exactly `<!-- wp:heading {"level":N} --><hN>c</hN><!-- /wp:heading -->` |
| Gutenberg.HeadingLevelPrefix | utils/db2wp_gutenberg_functions.php:49 | a level other than 2 opens with `{"level":N}` |
| Gutenberg.HeadingBlockInjective | utils/db2wp_gutenberg_functions.php:46-55 | the heading block determines both its level and its content |
| Gutenberg.HeadingBlockName | utils/db2wp_gutenberg_functions.php:49 | the block reads back as a "heading" block |
| Gutenberg.ListBlock | utils/db2wp_gutenberg_functions.php:69-71 | an attribute object follows the opening iff the type is "o"; the block ends with the closing tag type + "l" and the block close |
| Gutenberg.ListBlockExact | utils/db2wp_gutenberg_functions.php:69-71 | the block is exactly the opening comment (with `{"ordered":1}` iff the type is "o", `true` printed as "1"), the type + "l" element around the content once, then the block close |
| Gutenberg.OrderedListOpening | utils/db2wp_gutenberg_functions.php:69-70 | type "o" opens with `{"ordered":1}` and an `<ol>` element |
| Gutenberg.UnorderedListOpening | utils/db2wp_gutenberg_functions.php:69-70 | any other type opens without attributes, with the element type + "l" |
| Gutenberg.ListBlockInjective | utils/db2wp_gutenberg_functions.php:66-75 | for a list type, the block determines its content |
| Gutenberg.ListContent | utils/db2wp_gutenberg_functions.php:66-75 | the decoder of a list block of a given type: its length accounts for the fixed wrapper |
| Gutenberg.ListRoundTrip | utils/db2wp_gutenberg_functions.php:66-75 | decoding a built list gives its content, and a decoded block rebuilds exactly |
| Gutenberg.ListBlockName | utils/db2wp_gutenberg_functions.php:69 | the block reads back as a "list" block |
| Gutenberg.ParagraphContent | utils/db2wp_gutenberg_functions.php:88-90 | the decoder of a paragraph block: its length accounts for the fixed wrapper |
| Gutenberg.ParagraphBlock | utils/db2wp_gutenberg_functions.php:88-90 | the block starts with the paragraph opening and `<p>`, ends with `</p>` and the block close, and adds nothing else to the content |
| Gutenberg.ParagraphRoundTrip | utils/db2wp_gutenberg_functions.php:88-90 | decoding a built paragraph gives its content, and a decoded block rebuilds exactly |
| Gutenberg.ParagraphBlockName | utils/db2wp_gutenberg_functions.php:88 | the block reads back as a "paragraph" block |
| Gutenberg.ImageArgs | utils/db2wp_gutenberg_functions.php:116-121 | the caller's arguments override the defaults align "left", id `(int)attid` and sizeSlug "large" |
| Gutenberg.FigureClassDefault | utils/db2wp_gutenberg_functions.php:116-126 | without arguments the figure class is "alignleft size-large" |
| Gutenberg.AltAttribute | utils/db2wp_gutenberg_functions.php:128-130 | the alt attribute is present iff the trimmed alt text is not empty |
| Gutenberg.CaptionElement | utils/db2wp_gutenberg_functions.php:132-134 | the figcaption is present iff the caption is truthy |
| Gutenberg.ImageBlock | utils/db2wp_gutenberg_functions.php:106-142 | the block is "" iff the attachment id is empty; otherwise it opens with the image comment and its JSON attributes, and ends with the div and figure carrying the alignment and size classes, the img element, the caption and the closing markup |
| Gutenberg.ImageBlockExact | utils/db2wp_gutenberg_functions.php:124-140 | a non-empty block is exactly the image comment with its JSON attributes, directly followed by the div and figure, the img element, the caption and the closing markup |
| Gutenberg.ImageBlockEnds | utils/db2wp_gutenberg_functions.php:124-137 | a non-empty image block opens as an image block and ends with the img element, the caption and the closing markup |
| Gutenberg.ImageCaptionIff | utils/db2wp_gutenberg_functions.php:132-134 | the built image block has a figcaption iff the caption is truthy |
| Gutenberg.ImageBlockName | utils/db2wp_gutenberg_functions.php:124 | a non-empty image block reads back as an "image" block |
| Gutenberg.BlockName | utils/db2wp_gutenberg_functions.php:49 | a block name read back has no space and follows "<!-- wp:" at the block's start |
| Gutenberg.ImgElementEnd | utils/db2wp_gutenberg_functions.php:124-137 | the img element is self-closing |
| Gutenberg.FigcaptionIff | utils/db2wp_gutenberg_functions.php:132-134 | a block ending with an img element, the caption element and the closing markup has a figcaption iff the caption is truthy |
| UrlHelpers.GetFileExtension | src/Command/DB2WP_Import_Command.php:696-704 | a non-empty result has at most 4 characters and no dot, and the input ends with "." + the result after a non-empty stem |
| UrlHelpers.FileExtensionOf | src/Command/DB2WP_Import_Command.php:696-704 | for stem + "." + dot-free tail: the tail iff the stem is non-empty and the tail has at most 4 characters, else "" |
| UrlHelpers.FileExtensionOfDoubleName | src/Command/DB2WP_Import_Command.php:696-704 | "report.final.pdf" gives "pdf" |
| UrlHelpers.FileExtensionOfCompound | src/Command/DB2WP_Import_Command.php:696-704 | "archive.tar.gz" gives "gz" |
| UrlHelpers.FileExtensionOfHidden | src/Command/DB2WP_Import_Command.php:696-704 | ".htaccess" gives "" |
| UrlHelpers.AfterLast | src/Command/DB2WP_Import_Command.php:822-823 | `end(explode(c, s))` is the dot-free (c-free) suffix of s after its last c, or s when there is no c |
| UrlHelpers.GetBasename | src/Command/DB2WP_Import_Command.php:821-824 | the result has no '/', is a suffix of the input, follows its last '/', and is the whole input without '/' |
| UrlHelpers.BasenameOf | src/Command/DB2WP_Import_Command.php:821-824 | the base name of dir + "/" + name is name |
| UrlHelpers.RemoveHttp | src/Command/DB2WP_Import_Command.php:647-655 | a URL without a leading protocol is returned unchanged; the result is never longer |
| UrlHelpers.RemoveHttpOf | src/Command/DB2WP_Import_Command.php:647-655 | "http://" or "https://" + rest gives rest when rest contains no protocol |
| UrlHelpers.StripQuery | src/Command/DB2WP_Import_Command.php:833 | the result has no '?', is the input when it has none, and for one-line input is the prefix before the first '?' |
| UrlHelpers.FromLineBreak | src/Command/DB2WP_Import_Command.php:833 | the suffix of the input from its first line break, or "" without one |
| UrlHelpers.SanitizeFilename | src/Command/DB2WP_Import_Command.php:832-849 | a query-stripped name without a dot is returned as is; otherwise the result ends with "." + its last segment |
| UrlHelpers.SanitizeKeepsExtension | src/Command/DB2WP_Import_Command.php:832-849 | stem + "." + ext keeps "." + ext at its end |
| UrlHelpers.SanitizeWithoutDot | src/Command/DB2WP_Import_Command.php:832-849 | a name without dot or query is returned untouched |
| UrlHelpers.ScaledName | src/Command/DB2WP_Import_Command.php:729-733 | unchanged without a truthy extension, otherwise ends with "-scaled." + the extension |
| UrlHelpers.ScaledNameOf | src/Command/DB2WP_Import_Command.php:729-733 | a single-dot name stem.ext becomes stem-scaled.ext |
| UrlHelpers.HostWithPort | src/Command/DB2WP_Import_Command.php:665-671 | the host alone without a port; with one, exactly the host, ":" and the port's decimal digits |
| UrlHelpers.HostWithPortInjective | src/Command/DB2WP_Import_Command.php:665-671 | two non-zero ports that give the same domain for one host are equal |
| UrlHelpers.IsWpDomainMatch | src/Command/DB2WP_Import_Command.php:663-688 | a match is the home domain itself, or ends with "." + home with no earlier occurrence of "." + home; the home domain itself always matches |
| UrlHelpers.IsWpDomainMatchIff | src/Command/DB2WP_Import_Command.php:663-688 | a domain matches iff it is home, or ends with "." + home and that is the first occurrence of "." + home |
| UrlHelpers.SubdomainIsLocal | src/Command/DB2WP_Import_Command.php:680-686 | any host and port whose domain ends with "." + home, first occurring at its end, is local |
| UrlHelpers.ForeignIsRemote | src/Command/DB2WP_Import_Command.php:663-688 | a domain that is not home and does not end in "." + home is remote |
| UrlHelpers.LabelSubdomainIsLocal | src/Command/DB2WP_Import_Command.php:680-686 | name + "." + home is local for every name without a dot |
| UrlHelpers.SubdomainExample | src/Command/DB2WP_Import_Command.php:663-688 | example.com and cdn.example.com are local to example.com |
| UrlHelpers.LookalikeExample | src/Command/DB2WP_Import_Command.php:663-688 | notexample.com is remote to example.com |
| UrlHelpers.OtherPortExample | src/Command/DB2WP_Import_Command.php:665-671 | example.com:8080 is remote to example.com |
| UrlHelpers.OtherPortIsRemote | src/Command/DB2WP_Import_Command.php:665-688 | the home host with any non-zero port is remote to home |
| UrlHelpers.RepeatedHomeIsRemote | src/Command/DB2WP_Import_Command.php:680-686 | x.example.com.example.com ends with ".example.com" yet is remote |
| UrlHelpers.EarlierHomeIsRemote | src/Command/DB2WP_Import_Command.php:680-686 | a domain other than home in which "." + home occurs before its end is remote |
| Redirection.FirstGroupId | src/Command/DB2WP_Import_Command.php:97-107 | None iff no group has the name; otherwise the id of the first group with it |
| Redirection.FirstGroupIdAppend | src/Command/DB2WP_Import_Command.php:97-115 | a group appended under a new name is the one found by that name |
| Redirection.FindGroupId | src/Command/DB2WP_Import_Command.php:97-107 | the scan returns the first matching group's id |
| Redirection.GroupIdSpec | src/Command/DB2WP_Import_Command.php:91-116 | an existing group's id with the table unchanged; otherwise the created id with one group named "db2wpmigration" appended, or 0 with the table unchanged when the creation fails |
| Redirection.GroupIdIdempotent | src/Command/DB2WP_Import_Command.php:91-116 | asking again finds the same id and creates nothing |
| Redirection.GetRedirectionGroupId | src/Command/DB2WP_Import_Command.php:91-116 | the method's id and group table are those of the specification |
| Redirection.RedirectExists | src/Command/DB2WP_Import_Command.php:888-898 | found iff some rule's url equals the source |
| Redirection.CreateRedirectSpec | src/Command/DB2WP_Import_Command.php:887-915 | the table is unchanged, or gains exactly the 301 rule; a new source with a non-zero group gains the rule iff the plugin's create succeeds |
| Redirection.CreateRedirectOnce | src/Command/DB2WP_Import_Command.php:887-915 | two calls for one source add at most one rule |
| Redirection.CreateRedirect | src/Command/DB2WP_Import_Command.php:887-932 | the method's rule table is the specification's; log and groups unchanged |
| Redirection.RedirectSource | src/Command/DB2WP_Import_Command.php:860-867 | "" iff the path is empty; otherwise the path, then "?" + query only when the query is truthy |
| Redirection.SourceRoundTrip | src/Command/DB2WP_Import_Command.php:860-867 | splitting the source at its first '?' gives back the path and the truthy query |
| Redirection.HandleDoRedirectSpec | src/Command/DB2WP_Import_Command.php:857-878 | only the rule table can change; nothing changes without do_redirect_source; with it and non-empty source and permalink paths, the table is the one create_redirect gives for them |
| Redirection.NoRedirectWithoutPaths | src/Command/DB2WP_Import_Command.php:869-876 | an empty source path or an empty permalink path creates no rule |
| Redirection.HandleDoRedirect | src/Command/DB2WP_Import_Command.php:857-878 | the method's site is the specification's |
| Media.Attachment | src/Command/DB2WP_Import_Command.php:532-611 | an existing attachment is reused with nothing written; otherwise a non-empty decoded URL logs exactly one sideload and yields the created id, or 0 when it fails; an empty decoded URL yields 0 with nothing written |
| Media.FailedSideloadHasNoAttachment | src/Command/DB2WP_Import_Command.php:390-402 | a failed sideload yields no attachment |
| Media.ImageRefs | src/Command/DB2WP_Import_Command.php:495-508 | every gallery descriptor in order, then every img URL in order, and nothing else |
| Media.ImageStep | src/Command/DB2WP_Import_Command.php:508-633 | an ineligible reference changes nothing; without an attachment the content is kept; with one, a gallery token becomes the id and the original URL becomes the attachment's URL when it has one; a gallery reference then logs its trimmed title, caption, description and alt text |
| Media.ImageSteps | src/Command/DB2WP_Import_Command.php:502-635 | the references are processed in order and the log only grows |
| Media.SideloadImgTagsSpec | src/Command/DB2WP_Import_Command.php:448-639 | the content's image references processed in order; the log only grows |
| Media.IneligibleImagesUnchanged | src/Command/DB2WP_Import_Command.php:519-530 | references that fail the gates change neither content nor site |
| Media.LocalImagesUnchanged | src/Command/DB2WP_Import_Command.php:519-522 | content whose image references are all local comes back unchanged, with nothing written |
| Media.ChangedImagesWereEligible | src/Command/DB2WP_Import_Command.php:519-530 | changed content implies some reference was remote, non-empty and http(s)/ftp(s) |
| Media.SideloadImage | src/Command/DB2WP_Import_Command.php:508-633 | the method's log and content are those of the image step |
| Media.SideloadImgTags | src/Command/DB2WP_Import_Command.php:448-639 | the method's log and content are those of the specification |
| Media.Filter | src/Command/DB2WP_Import_Command.php:283-302 | the loop's keep-or-skip filter for any predicate: it keeps only links that pass the predicate and that occur in the input, keeps every such link, and never grows the list |
| Media.FilterAppend | src/Command/DB2WP_Import_Command.php:283-302 | filtering a concatenation filters each part in turn, for any predicate |
| Media.FilterCount | src/Command/DB2WP_Import_Command.php:283-302 | a link that passes the predicate is kept as many times as it occurs, any other link never |
| Media.AllowedLinks | src/Command/DB2WP_Import_Command.php:283-302 | the kept hrefs are exactly those whose lower-cased extension is on the allow-list, taken from the crawler's list |
| Media.AllowedLinksAppend | src/Command/DB2WP_Import_Command.php:283-302 | filtering a list in two pieces filters each piece, so document order is kept |
| Media.AllowedLinksSnoc | src/Command/DB2WP_Import_Command.php:283-302 | a link later in the document is kept after the earlier ones iff its extension is allowed |
| Media.AllowedLinksCount | src/Command/DB2WP_Import_Command.php:283-302 | an allowed link is kept as many times as it occurs, any other link never |
| Media.FileStep | src/Command/DB2WP_Import_Command.php:306-436 | an ineligible link changes nothing; otherwise the log is the attachment lookup's, and the link's URL is replaced by the attachment's URL exactly when there is an attachment with a URL |
| Media.FileSteps | src/Command/DB2WP_Import_Command.php:306-437 | the links are processed in order and the log only grows |
| Media.SideloadFilesSpec | src/Command/DB2WP_Import_Command.php:261-440 | the allowed links processed in order; the log only grows |
| Media.IneligibleFilesUnchanged | src/Command/DB2WP_Import_Command.php:308-323 | links that fail the gates change neither content nor site |
| Media.LocalFilesUnchanged | src/Command/DB2WP_Import_Command.php:312-315 | content whose links are all local comes back unchanged, with nothing written |
| Media.ChangedFilesWereEligible | src/Command/DB2WP_Import_Command.php:308-323 | changed content implies some allowed link passed the gates |
| Media.SideloadFile | src/Command/DB2WP_Import_Command.php:306-437 | the method's log and content are those of the file step |
| Media.SideloadATagFiles | src/Command/DB2WP_Import_Command.php:261-440 | the method's log and content are those of the specification |
| Media.TagsFromLibrary | src/Command/DB2WP_Import_Command.php:519-623 | img references whose images the library already holds are rewritten in order to the library URLs, with nothing written |
| Media.ImagesFromLibrary | src/Command/DB2WP_Import_Command.php:448-639 | content without gallery descriptors whose img URLs the library holds: sideload_img_tags writes nothing and rewrites each URL to its library URL |
| Media.FilesFromLibrary | src/Command/DB2WP_Import_Command.php:306-437 | links whose documents the library already holds are rewritten in order to the library URLs, with nothing written |
| Media.LinkedFilesFromLibrary | src/Command/DB2WP_Import_Command.php:261-440 | content whose allowed links the library holds: sideload_a_tag_files writes nothing and rewrites each link to its library URL |
| Media.FailedImageRewrittenAsWritten | src/Command/DB2WP_Import_Command.php:576-623 | as written, a failed download of a remote image rewrites its URL to the URL of attachment 1 |
| Media.FailedImageKept | src/Command/DB2WP_Import_Command.php:564-623 | the corrected step keeps the URL of an image whose download failed, as the document path does at lines 393-402 |
| Media.StrReplaceWhole | src/Command/DB2WP_Import_Command.php:622 | replacing a whole non-empty subject gives the replacement |
| Listener.ImportContent | src/Command/DB2WP_Import_Command.php:214-217 | images then linked documents; the log only grows |
| Listener.LocalContentUnchanged | src/Command/DB2WP_Import_Command.php:214-217 | content with only local references is returned unchanged, with nothing written |
| Listener.Imported | src/Command/DB2WP_Import_Command.php:205-221 | groups unchanged; rules only with redirects on; the log ends with the content update exactly when there is content |
| Listener.AfterInsert | src/Command/DB2WP_Import_Command.php:196-232 | a failed insert, or redirects off, adds no rule; a counter that is a multiple of 500 ends the log with a cache clear; any other counter adds no clear: a failed insert changes nothing and a successful one is just the import of the post |
| Listener.FailedInsertOnlyClears | src/Command/DB2WP_Import_Command.php:224-227 | after a failed insert only the periodic cache clear happens |
| Listener.LocalPostWrittenBack | src/Command/DB2WP_Import_Command.php:212-221 | local-only content is written back unchanged and nothing else happens |
| Listener.OnInsertPost | src/Command/DB2WP_Import_Command.php:196-232 | the method's site is the specification's |
| Controller.Defaults | src/Controller/DB2WP_Import_Controller.php:111-128 | exactly the 16 default keys, each null |
| Controller.PostData | src/Controller/DB2WP_Import_Controller.php:181 | every record key keeps its value, every missing default key is null, no other key appears |
| Controller.AddTermId | src/Controller/DB2WP_Import_Controller.php:258 | the id is appended to its taxonomy's list; other taxonomies are untouched; each taxonomy appears once |
| Controller.TermStep | src/Controller/DB2WP_Import_Controller.php:226-258 | an existing term is reused with nothing written; a missing one is created with its slug and its new id appended to its taxonomy; a failed creation drops the name |
| Controller.NameSteps | src/Controller/DB2WP_Import_Controller.php:226-259 | the grouping stays valid and the log only grows |
| Controller.NameStepsCollect | src/Controller/DB2WP_Import_Controller.php:226-259 | each name adds one id to its taxonomy's list after the earlier ones, except the names whose insert failed; other taxonomies are untouched |
| Controller.TaxonomySteps | src/Controller/DB2WP_Import_Controller.php:219-260 | the grouping stays valid and the log only grows |
| Controller.SetTermsEffects | src/Controller/DB2WP_Import_Controller.php:262-265 | one set per collected taxonomy, each taxonomy once |
| Controller.AttachTerms | src/Controller/DB2WP_Import_Controller.php:211-267 | the log only grows, and not at all without terms; otherwise it is the term lookups and inserts followed by exactly one term set per taxonomy collected |
| Controller.ExistingTermsInOrder | src/Controller/DB2WP_Import_Controller.php:226-259 | when every term exists, their ids are appended in input order and nothing is written |
| Controller.ExistingIds | src/Controller/DB2WP_Import_Controller.php:226-259 | one id per name |
| Controller.MetaStep | src/Controller/DB2WP_Import_Controller.php:278-293 | a falsy key adds nothing; a truthy key adds the meta; only a `_thumbnail_id` key touches the featured images |
| Controller.MetaSteps | src/Controller/DB2WP_Import_Controller.php:277-295 | featured images stay a valid array and the log only grows |
| Controller.LastThumbnailWins | src/Controller/DB2WP_Import_Controller.php:290-292 | the last `_thumbnail_id` meta sets the post's featured image |
| Controller.ProcessPost | src/Controller/DB2WP_Import_Controller.php:131-296 | an invalid type or a duplicate changes nothing; a same-type existing post is mapped with nothing written; a failed insert maps nothing and writes only the insert attempt and the periodic cache clear; a successful one maps intval(extdb_id) to the new id |
| Controller.InsertRecord | src/Controller/DB2WP_Import_Controller.php:181-296 | a failed insert maps nothing, keeps the featured images and writes only the insert attempt and the periodic cache clear, with no term or meta; a successful one maps intval(extdb_id) to the new id; the log only grows; no rule without redirects |
| Controller.TermsAndMetas | src/Controller/DB2WP_Import_Controller.php:211-295 | the log only grows and the featured images stay a valid array |
| Controller.EmptyIdWritesKeyZero | src/Controller/DB2WP_Import_Controller.php:145-209 | an empty extdb_id is never a duplicate and only writes key 0 |
| Controller.IsDuplicate | src/Controller/DB2WP_Import_Controller.php:145 | an empty id is never a duplicate; a duplicate's `intval` is already a key of the map |
| Controller.SameType | src/Controller/DB2WP_Import_Controller.php:167 | a found post matches a non-boolean type iff its type is the type's string form; no post matches exactly the empty types |
| Controller.ProcessAll | src/Controller/DB2WP_Import_Controller.php:131-297 | the map's keys only grow, the log only grows, groups unchanged, rules unchanged without redirects |
| Controller.RemapUpdates | src/Controller/DB2WP_Import_Controller.php:60-71 | at most one thumbnail update per featured image, and nothing else |
| Controller.RemapExactly | src/Controller/DB2WP_Import_Controller.php:62-70 | a post's thumbnail is updated to id iff its value is a key of the map whose id differs |
| Controller.EndEffects | src/Controller/DB2WP_Import_Controller.php:89-97 | cache flush, one hierarchy rebuild per taxonomy, then counting restored |
| Controller.HierarchyRebuilds | src/Controller/DB2WP_Import_Controller.php:91-94 | one rebuild per taxonomy, in order |
| Controller.ImportEndSpec | src/Controller/DB2WP_Import_Controller.php:89-97 | the Redirection tables are unchanged and the log only grows |
| Controller.ImportEndOrder | src/Controller/DB2WP_Import_Controller.php:89-97 | import_end writes the cache flush, then one hierarchy rebuild per taxonomy found after the flush, in order, then restores term and comment counting, and nothing else |
| Controller.RunImport | src/Controller/DB2WP_Import_Controller.php:45-55 | featured images stay a valid array, groups unchanged, the map's keys only grow, no rule without redirects |
| Controller.RunImportOrder | src/Controller/DB2WP_Import_Controller.php:45-55 | counting deferred and cache invalidation suspended first; after it is re-enabled no insert happens, and the featured-image remap against the final map of the whole batch follows immediately; counting restored last |
| Controller.ThumbnailRemappedAfterBatch | src/Controller/DB2WP_Import_Controller.php:45-71 | a featured image whose value was imported under another id gets that id as thumbnail after cache invalidation is re-enabled |
| Controller.ImportController.constructor | src/Controller/DB2WP_Import_Controller.php:36-38 | empty posts, map and featured images |
| Controller.ImportController.Import | src/Controller/DB2WP_Import_Controller.php:45-55 | the controller's new state is the run's |
| Controller.ImportController.ImportStart | src/Controller/DB2WP_Import_Controller.php:78-84 | the posts are the mapped records, then term and comment counting are deferred |
| Controller.ImportController.ImportEnd | src/Controller/DB2WP_Import_Controller.php:89-102 | the site's new state is the specification's |
| Controller.ImportController.RemapFeaturedImages | src/Controller/DB2WP_Import_Controller.php:60-71 | the log gains exactly the remap updates |
| Controller.ImportController.ProcessPosts | src/Controller/DB2WP_Import_Controller.php:107-300 | the new state is the batch's, and posts are cleared |
| Controller.ImportController.ProcessOne | src/Controller/DB2WP_Import_Controller.php:131-296 | the new state is the record's |
| Controller.ImportController.AddTerms | src/Controller/DB2WP_Import_Controller.php:211-267 | the log gains exactly the term writes |
| Controller.ImportController.ResolveNames | src/Controller/DB2WP_Import_Controller.php:226-259 | log and groups are those of the name steps |
| Controller.ImportController.SetTerms | src/Controller/DB2WP_Import_Controller.php:262-265 | the log gains exactly the term sets |
| Controller.ImportController.AddMetas | src/Controller/DB2WP_Import_Controller.php:269-295 | log and featured images are those of the meta steps |
| Command.ImportFromDbSpec | src/Command/DB2WP_Import_Command.php:123-142 | the command's old map entries survive; only the map changes among its fields; no group is written |
| Command.Prepared | src/Command/DB2WP_Import_Command.php:55-76 | the home domain is the URL without scheme; without the flag nothing else changes |
| Command.InvokeSpec | src/Command/DB2WP_Import_Command.php:46-85 | the home domain is the URL without scheme; a true flag without the plugin stops before any write; without it no group is written |
| Command.NoFlagNoRedirects | src/Command/DB2WP_Import_Command.php:62-76 | a fresh command without a strictly true flag writes no rule and no group |
| Command.FlagUsesImporterGroup | src/Command/DB2WP_Import_Command.php:63-67 | with the flag and the plugin, the run uses the group found or created |
| Command.FreshCommandTakesControllerMap | src/Command/DB2WP_Import_Command.php:124-139 | a fresh command ends with the controller's map |
| Command.ImportCommand.constructor | src/Command/DB2WP_Import_Command.php:13-17 | empty map, redirects off, group 0 |
| Command.ImportCommand.Invoke | src/Command/DB2WP_Import_Command.php:46-85 | outcome, fields and site are the specification's |
| Command.ImportCommand.ImportFromDb | src/Command/DB2WP_Import_Command.php:123-142 | fields and site are the specification's |

## Left out

- The mapper (`map_import_data_to_wp`), the Doctrine DBAL connection and the query: the controller is given the mapped records.
- Each `apply_filters` hook is taken as the identity. Each `do_action` other than the insert action has no listener.
- WP_CLI output, `IMPORT_DEBUG` logging and the listeners that only print.
- The command's other listeners print only.
- These are oracles: the regular expressions, DomCrawler and base64/JSON decoding that extract gallery descriptors, img src/srcset URLs and link hrefs. The `filter_var` validation of srcset entries is part of the same oracles.
- The library search in `get_media_from_gallery` is an oracle: its SQL, the file-system search and the metadata probe. The scaled name it derives is modelled.
- Downloads are oracles: `media_sideload_image`, and `download_url` with `media_handle_sideload`.
- `wp_insert_post`, `wp_insert_term`, `term_exists`, `post_exists`, `get_post_type`, `get_permalink`, `wp_parse_url` and `parse_url` are oracles.
- `maybe_unserialize`, `wp_slash`, `sanitize_title`, `sanitize_file_name`, `urldecode` and `html_entity_decode` are oracles.
- Writes such as `add_post_meta`, `update_post_meta`, `wp_set_post_terms`, the content update, the cache calls and `_get_term_hierarchy` are effects in a log. Their effect on the database is not modelled.
- `uniqid` and `json_encode` in the ACF and image blocks are parameters. `strip_tags` on the alt text is left out, and the alt text is a parameter.
- Arrays as meta values, and `(int)` of an array, are not modelled: `Value` holds scalars only.
- `intval` of strings in exponent notation, and integer overflow, are not modelled.
- Php.LooseEqualsWord: compares two numeric strings as strings, where PHP compares them as numbers; it is only used against non-numeric words such as post types and `_thumbnail_id`.
- Redirection.RedirectExists: scans the whole rule table where the source asks `Red_Item::get_for_url` for candidates, then compares urls exactly. Rules that the plugin's URL matching would return for other sources are not distinguished.
- `Red_Group::create` and `Red_Item::create` are oracles answering success or failure.
- Gallery descriptors that fail to decode, and the `TypeError` that PHP 8 raises when a failed gallery download reaches `str_replace`, are not modelled.
- The `db2wp_array_unique_terms` filter defaults to false, so term names are not de-duplicated.
- Taxonomy names that PHP would turn into integer array keys are kept as strings.
- Strings are sequences of characters, not of bytes. PHP's `strlen`, `strrpos` and offsets count bytes, so multibyte text differs: for "photo.jpég" the model's `get_file_extension` gives "jpég" (4 characters), where PHP counts 5 bytes and gives "".
- Php.Lower: lowers ASCII A-Z only, as PHP 8's `strtolower` does; the locale-dependent lowering of older PHP versions is not modelled.
- UrlHelpers.OtherPortIsRemote: stated for home domains without ':'.
- Media.ImagesFromLibrary: stated for content without gallery descriptors, because a gallery reference also writes its attachment details.

## Findings

| source | as written | input that shows it | evidently intended | confidence | as-written member | corrected member |
|---|---|---|---|---|---|---|
| src/Command/DB2WP_Import_Command.php:576-623 | After a failed `media_sideload_image`, `$attid` still holds the `WP_Error`. That object is truthy, so the rewrite block runs anyway. `wp_get_attachment_url` casts the object to the id 1, so when post 1 is an attachment its URL replaces the image URL. For a gallery descriptor, `str_replace` receives the object. | A remote `<img>` URL that is not in the media library, whose download fails, on a site where post 1 is an attachment | Skip the reference after a failed download, as `sideload_a_tag_files` does at lines 393-402 | not executed; high for the truthy error object, medium for what `wp_get_attachment_url` then returns | Media.TagImageStepAsWritten (shown by Media.FailedImageRewrittenAsWritten) | Media.ImageStep (shown by Media.FailedImageKept) |
