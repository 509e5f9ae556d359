# Model of a small web server and its Markdown engine

A Dafny model of the parts of the server that keep state across many steps, with proofs of what they
guarantee. Each part has a specification (functions on values), lemmas about it, and methods in the form
the C++ code has, proved equal to the specification.

- **Configuration files** (`ConfigTree`, `ConfigLexer`, `ConfigWords`, `ConfigGrammar`, `ConfigRoundTrip`,
  `ConfigParser`, over `InputStreams`). The scanner with its unget, the parser with its explicit stack of
  nodes, and the printer. The accepted files are exactly the layouts of the token sequences of non-empty
  trees; a tree survives printing and parsing exactly when its words are ones the scanner can return.
- **Emphasis** (`Emphasis`, `EmphasisPairing`, `EmphasisTermination`, `EmphasisNesting`, `EmphasisMarkers`,
  `EmphasisUnmatch`, `EmphasisSpans`, `EmphasisRuns`, `EmphasisWritten`). The loops that pair runs of
  asterisks and underscores in a list of shared marker objects, splitting size-3 markers while the list is
  walked, and the stack pass that un-matches crossed pairs. What comes out keeps the text, is a proper
  matching, nests, and emits balanced tags; runs that are alike do not both stay unmatched, and what two runs
  write is worked out for all their sizes and characters.
- **Placeholders** (`Placeholders`, `PlaceholderPasses`, `HtmlEncoding`, `HtmlReferences`, `SpanText`,
  `SpanEscapes`, `SpanPasses`, `SpanPipeline`). The working text in which spans are replaced by references to
  a growing table. No pass damages a reference, so decoding never fails; what a text restores to is known
  after every pass, and after attributes, code spans and escapes it is the source exactly when no attribute
  needed encoding and no span stood between double backquotes.
- **Proxy cache** (`TextTools`, `CacheControl`, `Redirects`, `ProxyCache`, `ProxyTexts`, `ProxyStoring`,
  `ProxyStore`, `ProxyFreshness`, `ProxyRefreshing`, `ProxyStripping`, `ProxyDepartures`, `ProxyHandler`).
  Requests, refreshes, redirects and the file store, with the origin as a finite list of replies and the clock
  as a function of how often it was read. The store is consistent over every run, and a hit is fresh at a time
  exactly when the expiration that its entry had, or that the refresh set, is later. Which replies are stored,
  when a refresh succeeds, and what happens when it fails are stated by the headers and status lines alone.
  The freshness statements follow section 4 of RFC 7234, the rewritten lifetime section 5.2.2.8 of the same
  document.
- **Smaller machines** (`FormData`, `DocumentLines`, `CodeBlocks`, `Dispatch`). Form bodies, the line reader
  of the Markdown engine, indented code, and the choice of a handler by uri prefix.

What comes from libraries is a parameter: the matches of the regular expressions (as any division of the
text), the clock, dates as text, and the replies of the origin.

## What the code does not do

Where the code departs from its documentation or from what a reader expects, the model follows the code. The
lemma named with each point proves it.

- The parser's header promises true only for a valid file (`src/config_parser.h:38-40`), but a last word that
  the end of the file cuts off is dropped and the file accepted (`src/config_parser.cc:141-147`):
  `ConfigRoundTrip.CutOffWordIsIgnored`.
- A carriage return is blank between words but does not end a bare one, because `src/config_parser.cc:131` lists
  the tab twice: `ConfigLexer.CarriageReturnStays`.
- The pairing loops do not end on every input: `***a___` cuts a marker into sizes 0 and 3 for ever
  (`cpp-markdown/markdown-tokens.cpp:519-555`): `EmphasisTermination.MixedTriplesNeverEnd`. The exact
  condition is `EmphasisTermination.LoopsEndIff`; a condition on the input alone that is enough is
  `EmphasisPairing.AgreementSuffices`.
- A code span between double backquotes is written back between single ones
  (`cpp-markdown/markdown-tokens.cpp:679-681`): `SpanText.DoubleQuotesAreLost`. The double-backquote pass can be
  undone exactly when it found nothing: `SpanPasses.DoublePassRestoresIff`.
- The attribute pass keeps what it cuts out as text that writes itself encoded, also as its original
  (`cpp-markdown/markdown-tokens.cpp:254`, `cpp-markdown/markdown-tokens.h:47`). An attribute comes back exactly
  when it has no angle bracket and no ampersand that gets encoded: `SpanPipeline.AttributeIsFaithfulIff`. The
  attribute of `<a href="<">` does not: `SpanPipeline.BracketIsLost`.
- A refresh that brings a new page which is not to be stored is answered with the old file
  (`src/proxy_handler.cc:427-433`, then 302-359): `ProxyFreshness.StaleServed`, with a concrete reply
  `ProxyFreshness.PlainOkIsStale`, and as a run from the empty cache `ProxyDepartures.StaleIsReached`. When a page
  from the cache is fresh is `ProxyFreshness.HitIsFreshIff`; by it, a 304 reply without a positive lifetime leaves
  an entry that counts as expired at once (390, 424).
- A refresh looks for `Etag` (411) where a fetch looks for `ETag` (166), so the tag of a page is lost:
  `ProxyDepartures.TagIsLost`, `ProxyDepartures.RefreshLosesTag`. When a refresh leaves a tag is
  `ProxyDepartures.TagIsLeftIff`.
- A refresh strips the configured prefix from the uri a second time (64-67 by way of 378). When that changes
  nothing is `ProxyStripping.StripAgainIff`; the freshness lemmas are about that case. Otherwise an expired page
  is served with its old body whatever the origin has (`ProxyStripping.RefreshedElsewhere`), and when the other
  uri is cached, without asking the origin at all (`ProxyStripping.RefreshedByAnotherPage`). A run that gets there
  is `ProxyDepartures.StrippedTwiceIsReached`.
- Without the file of a cached page the line loop (309-352) would never see its end. The store invariant
  excludes it: `ProxyStore.StoreTheorem`.
- The handler loop (`src/connection.cc:111-116`) by itself never ends for a uri that does not start with a slash
  and has no handler: `Dispatch.NeverEndsIff`. No such uri reaches it: a parsed request has one that starts with a
  slash (`src/request.cc:29`), and for those the loop ends: `Dispatch.SlashUriEnds`.

The functions that the proofs and the loops share (which characters end a word, which replies may be stored, how a
header is cut) are each also described by lemmas that spell out characters, names and texts and do not mention them.

## Model

| member | source | states |
|---|---|---|
| `ConfigParser.ParseToken` | src/config_parser.cc:67-148 | the scanner loop, with unget on the stream, returns the kind and text of the lexeme that `Lex` defines and leaves exactly its rest unread |
| `ConfigLexer.LexShape` | src/config_parser.cc:67-148 | what one call consumes is blanks and then one lexeme of the kind it reports: a quoted word, a bare word before a delimiter, punctuation, a comment up to its newline, a cut-off tail, or, as an error, an opening quote with no second one in the rest of the file |
| `ConfigLexer.CarriageReturnStays` | src/config_parser.cc:130-137 | a bare word with a carriage return inside is one word |
| `ConfigWords.WordEnds` | src/config_parser.cc:130-137 | a bare word ends before a space, tab, newline, semicolon or brace, which stays unread, and every other character after its first belongs to it |
| `ConfigWords.WordsHoldNone` | src/config_parser.cc:67-148 | no unquoted word that is read holds one of these six, and one of them follows it |
| `ConfigWords.BlankSkipped` | src/config_parser.cc:99-103 | space, tab, newline and carriage return are skipped before a token |
| `ConfigWords.CommentEnds` | src/config_parser.cc:124-129 | a comment ends at its first newline or carriage return |
| `ConfigWords.PunctuationRead` | src/config_parser.cc:75-98 | semicolon and braces are tokens by themselves |
| `ConfigWords.QuotedRead` | src/config_parser.cc:108-123 | a quoted word ends at the next quote of its kind |
| `ConfigWords.UnclosedIsError` | src/config_parser.cc:140-145 | an opening quote without a second one is an error |
| `ConfigWords.TabSeparates` | src/config_parser.cc:67-148 | two words with a tab between them and a semicolon are read as three tokens |
| `ConfigWords.PrintedForm` | src/config_parser.cc:20-51 | the printed text of a statement with a block, written out |
| `ConfigLexer.TokensAreAStream` | src/config_parser.cc:67-148 | over any text the scanner yields finitely many lexemes, the only end mark or error being the last |
| `ConfigLexer.LexerDecidesLayout` | src/config_parser.cc:67-148 | a text reads as given tokens if and only if it is a layout of them: legal gaps and comments between them, a delimiter after every bare word, at most a dropped tail at the end |
| `ConfigGrammar.ParserDecidesGrammar` | src/config_parser.cc:150-231 | the explicit-stack parser accepts a token stream, and builds a given tree, if and only if the comment-free stream spells that non-empty tree of proper statements and ends |
| `ConfigGrammar.SpellingIsUnambiguous` | src/config_parser.cc:150-231 | no token sequence spells two trees |
| `ConfigGrammar.StepExtendsTrail` | src/config_parser.cc:161-224 | at each turn the unfinished nodes on the stack spell the tokens taken so far: a step adds exactly its token |
| `ConfigParser.Parse` | src/config_parser.cc:150-231 | the parser loop over mutable nodes answers as `ParseText` does; the tree under the outermost node, after the statements it had before, is the parsed one, and on failure the part built so far |
| `ConfigParser.TakeToken` | src/config_parser.cc:168-224 | one turn keeps the stack the path of last child blocks, with `block_num + 1` entries at loop heads, and each level holding its frame; it leaves the loop exactly when the step does |
| `ConfigParser.PopLevel` | src/config_parser.cc:205-217 | leaving a block finishes its node and the statement that owns it, and the shorter stack is again the path of last child blocks |
| `ConfigParser.CollapseSpine` | src/config_parser.cc:150-231 | wherever the parser stops, the tree left under the outermost node is the collapsed frames |
| `InputStreams.InputStream.Unget` | src/config_parser.cc:131-137 | the character just read is unread again |
| `ConfigParser.NginxConfig.ToString` | src/config_parser.cc:20-26 | a node that holds a list of statements prints as the list does, at its depth |
| `ConfigParser.NginxConfigStatement.ToString` | src/config_parser.cc:28-51 | a statement node prints its indentation, words, and block or semicolon |
| `ConfigRoundTrip.ConfigLanguage` | src/config_parser.cc:67-231 | from characters to trees: a text parses to a tree if and only if it is a layout of the tree's tokens and the tree is non-empty and proper |
| `ConfigRoundTrip.PrintThenParse` | src/config_parser.cc:20-231 | printing a tree at any depth and parsing gives the tree back, if and only if it is non-empty, has no empty blocks or statements, and its words are lexable |
| `ConfigRoundTrip.AcceptedIsPrintable` | src/config_parser.cc:67-231 | every tree that a parse builds satisfies what the printer needs |
| `ConfigRoundTrip.ParsePrintParse` | src/config_parser.cc:20-231 | printing is a normal form: parse, print, parse gives the first tree |
| `ConfigRoundTrip.LayoutIndependence` | src/config_parser.cc:67-148 | changing gaps, comments and the dropped tail does not change the parsed tree |
| `ConfigRoundTrip.CutOffWordIsIgnored` | src/config_parser.cc:141-147 | any bare word put at the end of an accepted file that ends in punctuation or a gap leaves the answer and the tree as they were |
| `Emphasis.PairFrom` | cpp-markdown/markdown-tokens.cpp:509-560 | the pairing pass never makes a marker of a size other than 1 to 3, whenever it ends |
| `Emphasis.CutFacts` | cpp-markdown/markdown-tokens.cpp:519-555 | a split takes one active size-3 marker away and makes none of size 0: the measure by which the loops end |
| `EmphasisPairing.PairingTheorem` | cpp-markdown/markdown-tokens.cpp:509-560 | pairing keeps the text; gives every matched marker one partner, of the same id, character and size, openers before closers; and leaves no pair that could still match |
| `EmphasisPairing.AgreementSuffices` | cpp-markdown/markdown-tokens.cpp:509-560 | the pass ends when no size-3 opener comes before a size-3 closer of the other character; splitting and matching keep this |
| `EmphasisTermination.LoopsEndIff` | cpp-markdown/markdown-tokens.cpp:509-560 | the loops, as single steps, end if and only if no step brings a size-3 opener to a size-3 closer of the other character; this is so if and only if the search finds a pairing, which is then what they leave |
| `EmphasisTermination.DoomedForever` | cpp-markdown/markdown-tokens.cpp:519-532 | once a size-0 opener looks at a size-3 closer, no number of steps ends the loops |
| `EmphasisTermination.MixedTriplesNeverEnd` | cpp-markdown/markdown-tokens.cpp:519-555 | an input on which the loops do not end |
| `EmphasisNesting.UncrossMates` | cpp-markdown/markdown-tokens.cpp:562-580 | un-matching removes exactly the pairs that cross a pair opened inside them |
| `EmphasisNesting.UncrossNests` | cpp-markdown/markdown-tokens.cpp:562-580 | what is left is properly nested and stands for the same text, and the pass is the identity exactly on nested matchings |
| `EmphasisNesting.TagsBalance` | cpp-markdown/markdown-tokens.cpp:737-748 | reading the emitted tags with a stack, every closing tag closes the innermost open element and none stays open |
| `EmphasisUnmatch.TopAtClose` | cpp-markdown/markdown-tokens.cpp:571-571 | at a matched closing marker the stack is not empty, and its top is the partner if and only if the pair is not crossed |
| `EmphasisUnmatch.UnmatchCrossing` | cpp-markdown/markdown-tokens.cpp:562-580 | the stack pass over shared markers turns the list into its uncrossed form and keeps match pointers mutual |
| `EmphasisUnmatch.UnmatchPair` | cpp-markdown/markdown-tokens.cpp:572-573 | through the match pointer of the closer exactly the two partners lose their match |
| `EmphasisMarkers.PairMarkers` | cpp-markdown/markdown-tokens.cpp:509-560 | the nested loops over a list they splice into compute `Pair`, and end whenever the search never clashes |
| `EmphasisMarkers.FindPartner` | cpp-markdown/markdown-tokens.cpp:514-558 | the inner loop finds what the search finds: a partner, a split opener, or nothing |
| `EmphasisMarkers.SplitMarker` | cpp-markdown/markdown-tokens.cpp:522-531 | the marker is disabled and two new ones of its kind come after it, sizes adding up, the rest of the list and of the markers unchanged |
| `EmphasisMarkers.MatchMarkers` | cpp-markdown/markdown-tokens.cpp:538-540 | the two markers point to each other with the new id, all others unchanged |
| `EmphasisMarkers.BoldOrItalicMarker.WriteAsHtml` | cpp-markdown/markdown-tokens.cpp:737-748 | a marker writes the text of its tags, its characters when unmatched, nothing when disabled |
| `EmphasisMarkers.BoldOrItalicMarker.SetMatched` | cpp-markdown/markdown-tokens.h:361-361 | sets the match and the id and nothing else |
| `EmphasisSpans.SegmentedFacts` | cpp-markdown/markdown-tokens.cpp:475-507 | the list made from the matches stands for the searched text and holds no match yet |
| `EmphasisSpans.Tokenize` | cpp-markdown/markdown-tokens.cpp:475-507 | the loop over the matches builds that list from fresh markers |
| `EmphasisSpans.EmphasisTheorem` | cpp-markdown/markdown-tokens.cpp:466-580 | for every division of a text into pieces and runs: the resulting list stands for the text, is well paired and nested, and its tags balance |
| `EmphasisSpans.ProcessBoldAndItalicSpans` | cpp-markdown/markdown-tokens.cpp:466-580 | the three loops in turn leave the list that the theorem is about |
| `EmphasisRuns.RunsPair` | cpp-markdown/markdown-tokens.cpp:475-560 | an opening run of one or two characters and a later closing run of the same ones: both are in the paired list, in order, each after the text before it, and not both unmatched |
| `EmphasisRuns.RunStands` | cpp-markdown/markdown-tokens.cpp:475-507 | every opening run stands in the list as an opening marker, every closing run as a closing one, after the text before it |
| `EmphasisRuns.PairKeepsMarkers` | cpp-markdown/markdown-tokens.cpp:509-560 | pairing keeps every marker of size 1 or 2 where it stands in the text |
| `EmphasisWritten.EqualRunsWritten` | cpp-markdown/markdown-tokens.cpp:466-580 | two equal runs write `<em>`, `<strong>` or both around what is between them |
| `EmphasisWritten.UnequalRunsWritten` | cpp-markdown/markdown-tokens.cpp:466-580 | runs of sizes 1 and 2 that differ are written as they stand |
| `EmphasisWritten.LongOpeningWritten` | cpp-markdown/markdown-tokens.cpp:541-555 | an opening run of three with a shorter closing one: the element takes the shorter size and the rest stays in front of it |
| `EmphasisWritten.LongClosingWritten` | cpp-markdown/markdown-tokens.cpp:519-532 | a closing run of three with a shorter opening one: the element takes the shorter size and the rest stays inside it |
| `EmphasisWritten.MixedTriplesDiverge` | cpp-markdown/markdown-tokens.cpp:519-555 | two runs of three of different characters are the case that does not end |
| `EmphasisWritten.MidWordWritten` | cpp-markdown/markdown-tokens.cpp:493-501 | a word between two equal runs is written as an element |
| `Placeholders.RenderDecodes` | cpp-markdown/markdown-tokens.cpp:593-624 | searching a working text for placeholders finds exactly the ones that were put there, whole and in order |
| `PlaceholderPasses.EncodedRestores` | cpp-markdown/markdown-tokens.cpp:626-657 | decoding a working text never fails: every reference is a number, in decimal, below the size of the table |
| `PlaceholderPasses.CutBefore` | cpp-markdown/markdown-tokens.cpp:226-464 | a cut before a character that occurs in no placeholder divides no placeholder |
| `PlaceholderPasses.PassStaysEncoded` | cpp-markdown/markdown-tokens.cpp:226-464 | a pass that replaces spans by references to new entries leaves a working text, references below the new table size |
| `PlaceholderPasses.PassShows` | cpp-markdown/markdown-tokens.cpp:226-464 | after a pass with any entries the text restores to the text before it with each span replaced by its entry |
| `PlaceholderPasses.PassRestores` | cpp-markdown/markdown-tokens.cpp:226-464 | a pass whose entries are what their spans restore to changes nothing of what the text restores to |
| `HtmlEncoding.EncodeString` | cpp-markdown/markdown-tokens.cpp:38-60 | the character loop computes the encoding, with its search for a character reference after an ampersand |
| `HtmlEncoding.EncodeGrows` | cpp-markdown/markdown-tokens.cpp:38-60 | with the flags for attributes, encoding leaves a text, or its length, as it is if and only if there is no angle bracket in it and a reference at or after every ampersand |
| `HtmlReferences.CharacterEncoded` | cpp-markdown/markdown-tokens.cpp:55-58 | what angle brackets, double quotes and other characters become, by the flags |
| `HtmlReferences.AmpersandEncoded` | cpp-markdown/markdown-tokens.cpp:46-54 | what an ampersand becomes |
| `HtmlReferences.HasReferenceIff` | cpp-markdown/markdown-tokens.cpp:47-48 | the search finds a reference if and only if there is a numeric one somewhere, or `&amp;` at the start or after a line break |
| `HtmlReferences.NumericOnly` | cpp-markdown/markdown-tokens.cpp:47-47 | a numeric reference is one to three decimal or one or two hexadecimal digits between its marks |
| `HtmlReferences.DecimalReference` | cpp-markdown/markdown-tokens.cpp:47-47 | every such decimal text is one |
| `HtmlReferences.HexReference` | cpp-markdown/markdown-tokens.cpp:47-47 | every such hexadecimal text is one |
| `SpanText.EscapeIsInvisible` | cpp-markdown/markdown-tokens.cpp:301-324 | escaping keeps a working text one and does not change what it restores to |
| `SpanText.RestoreUndoesEscape` | cpp-markdown/markdown-tokens.cpp:301-324 | for every string without the marker character, restoring the escaped string gives it back, through decimal printing and reading of the indices |
| `SpanText.CodeSpanWrites` | cpp-markdown/markdown-tokens.cpp:679-681 | what a code span writes back is what its quoted text restores to |
| `SpanText.DoubleQuotesAreLost` | cpp-markdown/markdown-tokens.cpp:276-290 | an entry for a double-backquoted span is never what the span restores to |
| `SpanPasses.ProcessEscapedCharacters` | cpp-markdown/markdown-tokens.cpp:301-324 | the search loop computes the escaping function |
| `SpanEscapes.EscapedOne` | cpp-markdown/markdown-tokens.cpp:310-312 | a backslash and one of the sixteen characters, spelled out, give way to one placeholder with the number of the character |
| `SpanEscapes.CharacterIsGone` | cpp-markdown/markdown-tokens.cpp:310-312 | that placeholder holds the character only when it is the number sign |
| `SpanEscapes.KeptOne` | cpp-markdown/markdown-tokens.cpp:313-313 | a backslash before any other character stays with it |
| `SpanEscapes.OthersStay` | cpp-markdown/markdown-tokens.cpp:301-324 | all other characters stay, and so does a backslash at the end |
| `SpanEscapes.EscapingIsDone` | cpp-markdown/markdown-tokens.cpp:301-324 | in an escaped text no backslash is followed by one of the sixteen |
| `SpanEscapes.ReferenceText` | cpp-markdown/markdown-tokens.cpp:288-289 | the text of the placeholder of a span |
| `SpanEscapes.QuoteForms` | cpp-markdown/markdown-tokens.cpp:276-290 | the texts of both kinds of code spans, and the single backquotes that both write |
| `SpanEscapes.PatternFound` | cpp-markdown/markdown-tokens.cpp:626-640 | every text of the form of a placeholder is found as one |
| `SpanEscapes.OnlyPatterns` | cpp-markdown/markdown-tokens.cpp:626-640 | only such texts are |
| `SpanPasses.RestoreProcessedItems` | cpp-markdown/markdown-tokens.cpp:626-657 | the search loop computes the restoration, and fails where a reference is not one |
| `SpanEscapes.NumberRestored` | cpp-markdown/markdown-tokens.cpp:626-657 | a placeholder with a number restores to that entry of the table, and fails past its end or outside a machine word |
| `SpanEscapes.EscapedRestored` | cpp-markdown/markdown-tokens.cpp:626-657 | one with the number of an escaped character restores to a backslash and the character |
| `SpanEscapes.EmptyRestored` | cpp-markdown/markdown-tokens.cpp:626-657 | one without a number is dropped |
| `SpanPasses.ReplaceQuotes` | cpp-markdown/markdown-tokens.cpp:280-296 | one search loop replaces each match by a reference to the entry it pushes, and each entry is the restored quote |
| `SpanPasses.ProcessCodeSpans` | cpp-markdown/markdown-tokens.cpp:273-299 | the loops for double and for single backquotes in turn leave the text and the table of both passes |
| `SpanPasses.DoublePassRestoresIff` | cpp-markdown/markdown-tokens.cpp:276-299 | after the double-backquote pass the text restores with two backquotes less for each span, and to what it did before if and only if there was none |
| `SpanPasses.CodeSpansAreInvisible` | cpp-markdown/markdown-tokens.cpp:276-299 | after that loop the text is a working text for the larger table and restores to what it did before |
| `SpanPipeline.PassesTheorem` | cpp-markdown/markdown-tokens.cpp:215-464 | over every run of passes from a source without the marker character, references stay whole and in range and decoding succeeds; if every pass records what it cuts out, restoring gives the source |
| `SpanPipeline.AttributeIsFaithfulIff` | cpp-markdown/markdown-tokens.cpp:240-254 | the entry of an attribute is what its span restores to if and only if nothing in it gets encoded |
| `SpanPipeline.AttributePassRestoresIff` | cpp-markdown/markdown-tokens.cpp:226-271 | after the attribute pass the text restores to the source if and only if no attribute has anything that gets encoded; the number of backquotes is kept in any case |
| `SpanPipeline.BracketIsLost` | cpp-markdown/markdown-tokens.cpp:226-271 | the tag `<a href="<">` does not come back |
| `SpanPipeline.SourceSurvivesIff` | cpp-markdown/markdown-tokens.cpp:215-324 | attributes, both code span passes and escapes in turn: restoring gives the source if and only if no attribute has anything that gets encoded and no span stands between double backquotes |
| `SpanPipeline.EmphasisCutsNoPlaceholder` | cpp-markdown/markdown-tokens.cpp:475-507 | segmentation for emphasis divides no placeholder: every piece is a working text |
| `SpanPipeline.PipelineDecodes` | cpp-markdown/markdown-tokens.cpp:215-507 | from a source through all passes to the pieces between markers, no piece fails to decode |
| `CacheControl.RewriteIsRenewal` | src/proxy_handler.cc:330-349 | the directive loop ends with what is made so far followed by the renewed directives of the rest, joined by commas |
| `CacheControl.RewrittenReads` | src/proxy_handler.cc:330-349 | read by its commas, the served header has as many directives as the stored one, in order: those without max-age as they were, the others replaced by the remaining lifetime |
| `CacheControl.JoinSplits` | src/proxy_handler.cc:330-349 | texts without commas, joined by commas, are the directives of the joined text |
| `CacheControl.RewriteDirectives` | src/proxy_handler.cc:330-349 | the loop over the header value computes that rewriting |
| `CacheControl.RenewedAdvertises` | src/proxy_handler.cc:147-161 | the parser of stored pages reads from a rewritten header the lifetime that was left, whatever the other directives |
| `ProxyFreshness.AdvertisedIsWhatIsLeft` | src/proxy_handler.cc:323-350 | time of serving plus advertised max-age is the recorded expiration |
| `ProxyFreshness.PageServed` | src/proxy_handler.cc:302-359 | a stored page is served with as many lines in order and its body unchanged; lines without a date or cache control are copied, and one with a lifetime advertises what is left of it |
| `ProxyStore.StoreTheorem` | src/proxy_handler.cc:60-437 | over every run of requests: no request hangs, each answer is a reply of the origin or has the body of one, each key has a file, and the files are the last pages written, each a reply that came in whole with headers that give it a lifetime, under the name of its uri |
| `ProxyStore.RequestKeeps` | src/proxy_handler.cc:60-210 | one request, with all the refreshes and redirects it starts, keeps cache and files in agreement |
| `ProxyStore.UpdateKeeps` | src/proxy_handler.cc:362-437 | a refresh keeps them in agreement, and where it reports success the page to serve is on file |
| `Redirects.LocationReads` | src/proxy_handler.cc:446-482 | a Location with a scheme gives the host, port and path that it spells, with port 80 and the path `/` where it leaves them out |
| `Redirects.LocationIsPath` | src/proxy_handler.cc:446-482 | any other Location is a path on the server that was asked |
| `ProxyTexts.RedirectGoes` | src/proxy_handler.cc:172-197 | a redirect goes where its first Location header says |
| `ProxyTexts.RedirectIsAsked` | src/proxy_handler.cc:79-209 | after a redirect to a full address the next request goes to its host, port and path |
| `ProxyTexts.KeyIs` | src/proxy_handler.cc:240-250 | the key of a uri, with `index` after a last slash |
| `ProxyTexts.StripTakesOut` | src/proxy_handler.cc:62-68 | the first occurrence of the prefix is taken out and the rest made to start with a slash |
| `ProxyTexts.PageIs` | src/proxy_handler.cc:119-209 | a reply is filed as its status line, a line for each header in order, and its body |
| `ProxyTexts.AfterColonIs` | src/proxy_handler.cc:326-328 | what is taken from a header line is its value |
| `ProxyTexts.DateOfPage` | src/proxy_handler.cc:312-322 | a date line of a stored page is served as the date at a reading of the clock |
| `ProxyTexts.ServedHeader` | src/proxy_handler.cc:323-350 | a cache control line is served as its value rewritten to the time left |
| `ProxyTexts.UnsetServed` | src/proxy_handler.cc:323-350 | serving such a line without an entry leaves an unset entry |
| `ProxyStoring.StoredIff` | src/proxy_handler.cc:132-170 | the header loop throws if and only if a max-age that counts cannot be read; otherwise the page is stored if and only if the code is not 304 and a `Cache-Control` header with max-age, without `no-store` and `no-cache`, gives a positive lifetime |
| `ProxyStoring.ExpiresAt` | src/proxy_handler.cc:147-162 | the expiration is the clock at the last such header plus its lifetime |
| `ProxyStoring.TaggedWith` | src/proxy_handler.cc:164-169 | the tag is the value of the last `ETag` header |
| `ProxyStoring.NoStoreForbids` | src/proxy_handler.cc:141-145 | a reply with `max-age=60,no-store` is not stored |
| `ProxyRefreshing.FetchOutcome` | src/proxy_handler.cc:79-209 | what a fetch answers and stores, by the first reply after its redirects |
| `ProxyRefreshing.RenewalIff` | src/proxy_handler.cc:388-414 | the header loop of a refresh goes through if and only if every line with cache control gives a max-age that can be read; it throws if and only if the first other one has a number that cannot be read |
| `ProxyRefreshing.RenewedAtClock` | src/proxy_handler.cc:391-409 | the expiration that a 304 sets is the clock at its last line with a positive lifetime plus that lifetime |
| `ProxyRefreshing.RefreshOutcome` | src/proxy_handler.cc:362-437 | a refresh succeeds if and only if the last reply comes in whole, its headers can be read, and it says 304 with cache control that can be read, or 200; when it throws and when it fails, likewise |
| `ProxyRefreshing.FailedRefreshAsksAgain` | src/proxy_handler.cc:60-437 | after a refresh that fails the answer is that of a further fetch, and the origin is asked once more |
| `ProxyRefreshing.NotFoundIsPassedOn` | src/proxy_handler.cc:60-437 | an expired page for which the origin answers 404 twice: the second answer is passed on and the page is no longer cached |
| `ProxyRefreshing.LookupIs` | src/proxy_handler.cc:278-300 | before its expiration a page is served as filed; from that second on, or without one, it is refreshed first |
| `ProxyFreshness.FetchFollows` | src/proxy_handler.cc:79-209 | a fetch asks at its first target and then, in turn, where each redirect sends it from there, and treats the reply at the last target as a first one |
| `ProxyFreshness.RefreshedBy` | src/proxy_handler.cc:362-437 | what a successful refresh leaves in the cache and on file, by the first reply after its redirects |
| `ProxyFreshness.HitIsFreshIff` | src/proxy_handler.cc:278-437 | a page from the cache is fresh at any given time if and only if it had not expired at the lookup and expires later, or else the expiration set by the last reply of the refresh is later |
| `ProxyFreshness.LookupIsFreshIff` | src/proxy_handler.cc:278-437 | on a clock that does not run backwards, it is fresh at the lookup if and only if it had not expired or that reply renews it: a stored new page, or a 304 with a positive lifetime |
| `ProxyFreshness.HitServes` | src/proxy_handler.cc:296-437 | a hit serves the body of that reply exactly when it was stored, and otherwise the file as it was |
| `ProxyFreshness.StaleServed` | src/proxy_handler.cc:427-433 | an expired page whose refresh brings a new page not to be stored is answered with the old body, and no fresh entry is left |
| `ProxyFreshness.PlainOkIsStale` | src/proxy_handler.cc:427-433 | the same for any body sent with a plain status line and no headers |
| `ProxyDepartures.StaleIsReached` | src/proxy_handler.cc:60-437 | a run from the empty cache whose second request gets the old page although the origin sent a new one |
| `ProxyDepartures.AskedByRefresh` | src/proxy_handler.cc:278-437 | a hit on an expired page has asked the origin where the redirects lead and taken their replies and one more; a hit on any other page has asked nothing |
| `ProxyDepartures.TagIsLeftIff` | src/proxy_handler.cc:388-414 | a refresh by a 304 leaves a tag if and only if the last line with `Etag` in it has text after its colon |
| `ProxyDepartures.TagIsLost` | src/proxy_handler.cc:388-414 | the same header gives a fetch its tag and a refresh none |
| `ProxyDepartures.RefreshLosesTag` | src/proxy_handler.cc:362-437 | after a refresh by a 304 without such a line the entry has no tag |
| `ProxyStripping.StripAgainIff` | src/proxy_handler.cc:64-68 | exactly when stripping the prefix a second time changes nothing |
| `ProxyStripping.RequestSameAt` | src/proxy_handler.cc:60-437 | a request leaves the entry and the file of a key alone that is not the key of any uri that stripping leads to |
| `ProxyStripping.ShorterIsAway` | src/proxy_handler.cc:60-68 | for a uri that does not end in `/index` its own key is such a key, seen from any shorter uri |
| `ProxyStripping.RefreshedElsewhere` | src/proxy_handler.cc:362-437 | an expired page whose refresh asks for such another uri is served with its old body, and fresh if and only if the answer was a 304 that renews it |
| `ProxyStripping.RefreshedByAnotherPage` | src/proxy_handler.cc:278-437 | when the other uri is cached with a plain page that has not expired, the refresh succeeds without the origin, and the expired page is served and not fresh at any time |
| `ProxyDepartures.StrippedTwice` | src/proxy_handler.cc:60-437 | runs from the empty cache that come to this, for any uri that stripping changes twice |
| `ProxyDepartures.StrippedTwiceIsReached` | src/proxy_handler.cc:60-437 | one such run |
| `ProxyHandler.Handler.HandleRequest` | src/proxy_handler.cc:60-210 | the method on the mutable cache does what the transition function says and keeps the store invariant; the cycle of request, lookup and refresh ends because each refresh first erases a key (376) |
| `ProxyHandler.Handler.HandleCache` | src/proxy_handler.cc:278-360 | lookup, expiry test, refresh and serving, in the same sense |
| `ProxyHandler.Handler.UpdateCache` | src/proxy_handler.cc:362-437 | erasure, the repeated request, and the treatment of 304, 200 and other answers, in the same sense |
| `ProxyHandler.Handler.FetchPage` | src/proxy_handler.cc:79-209 | the redirect loop goes to host, port and uri of each redirect until a reply is not one, and stores the page when it may |
| `ProxyHandler.Handler.ReadHeaders` | src/proxy_handler.cc:132-170 | the header loop computes whether, for how long and under which tag to store |
| `ProxyHandler.Handler.ReadRenewal` | src/proxy_handler.cc:388-414 | the header loop of a refresh computes the new expiration and tag, refuses, or throws |
| `ProxyHandler.Handler.ServePage` | src/proxy_handler.cc:302-359 | the stored lines are served in order with dates and lifetimes rewritten; the body is served as it is |
| `ProxyHandler.Handler.StoreInCache` | src/proxy_handler.cc:240-276 | the page is filed and an entry made under the key of its uri, replacing what was there |
| `FormData.UriDecode` | src/request.cc:63-85 | the index loop computes the decoding, with the text written so far when it fails |
| `FormData.DecodeInverts` | src/request.cc:63-85 | text in which percent signs are followed by two hexadecimal digits decodes to a value exactly when it encodes that value |
| `FormData.PercentRead` | src/request.cc:66-78 | what a percent sign makes of any two characters after it: the character of two digits or of one, or failure |
| `FormData.OthersRead` | src/request.cc:63-85 | a percent sign too close to the end fails, a plus sign is a space, everything else stands for itself |
| `FormData.HexDigitIs` | src/request.cc:66-78 | the digits and their values |
| `FormData.ParseBody` | src/python_handler.cc:147-170 | the character loop appends to the fields already there those that the body spells, up to the first part that fails |
| `FormData.FormLanguage` | src/python_handler.cc:147-170 | a body is accepted and read as given fields if and only if it is the fields with legal names and values that decode, joined by ampersands; in each part what follows a zero character is ignored |
| `FormData.FormRoundTrip` | src/python_handler.cc:147-170 | parsing inverts form encoding, for any valid encoding of the values (section 2.1 of RFC 3986, and `+` for a space) |
| `FormData.PlainFieldRead` | src/python_handler.cc:147-170 | a field without special characters is read as it stands |
| `FormData.BlankRefused` | src/python_handler.cc:155-158 | a field with white space in it is refused |
| `DocumentLines.ReadLine` | cpp-markdown/markdown.cpp:630-654 | the reading loop, with unget after a line end, returns the line that `GetLine` defines and leaves its rest unread |
| `DocumentLines.Document.Read` | cpp-markdown/markdown.cpp:656-674 | a processed document refuses and reads nothing; any other gets a blank or text token for each line of the stream, in order, after the tokens it had |
| `DocumentLines.Fill` | cpp-markdown/markdown.cpp:644-647 | a tab adds spaces up to the next multiple of the active width |
| `DocumentLines.LineEndsDoNotMatter` | cpp-markdown/markdown.cpp:630-654 | the same lines ended alike by any of the four line ends are read as the same sequence |
| `DocumentLines.LastLineRead` | cpp-markdown/markdown.cpp:630-654 | a last line without a line end is read as a line unless it is empty |
| `DocumentLines.CharacterRead` | cpp-markdown/markdown.cpp:644-651 | a tab fills the line up, with one width in leading white space and the other after it; every other character is put at the end |
| `DocumentLines.LinesReadBack` | cpp-markdown/markdown.cpp:630-654 | the lines of any text, written out with any line end, are read back unchanged |
| `CodeBlocks.IsCodeBlockLine` | cpp-markdown/markdown.cpp:190-211 | the recursion over blank lines returns the next code line with the blanks before it, and leaves the iterator where it was when there is none |
| `CodeBlocks.ParseCodeBlock` | cpp-markdown/markdown.cpp:213-228 | the loop computes the block |
| `CodeBlocks.BlockIs` | cpp-markdown/markdown.cpp:190-228 | a block starts exactly at a code line, takes the longest stretch that ends in a code line, and holds its lines without their indentation, inner blanks as empty lines |
| `CodeBlocks.CodeIs` | cpp-markdown/markdown.cpp:198-208 | four spaces are taken off a code line |
| `CodeBlocks.OnlyCode` | cpp-markdown/markdown.cpp:198-208 | only a text with four spaces in front is one |
| `TextTools.StoiReads` | src/proxy_handler.cc:154-159 | the number that is read from a text: white space, a sign and digits, within 32 bits |
| `Dispatch.FindPrefix` | src/connection.cc:110-116 | the shortening loop ends at the result of the search |
| `Dispatch.DispatchIs` | src/connection.cc:110-116 | the search gives a prefix if and only if it is the longest registered one that ends before a slash of the uri or is the whole uri |
| `Dispatch.NeverEndsIff` | src/connection.cc:110-116 | no number of turns leaves the loop if and only if no registered prefix serves the uri and the uri is neither empty nor starts with a slash |
| `Dispatch.SlashUriEnds` | src/connection.cc:110-116 | for a uri that starts with a slash the loop ends, in at most as many turns as the uri is long, with the longest prefix that serves it or with none |
| `Dispatch.ChooseHandler` | src/connection.cc:110-135 | the chosen handler is that one, else the root handler for a request that follows a proxied page, else none |

## Left out

- Sockets, threads, compression, database and embedded Python calls, and failures of the file system: foreign calls; a reply of the origin is a value and every file write succeeds.
- The text of the requests to the origin: its replies are a list, whatever was asked, and the model records only where each request went.
- Header lines that make the code throw on their own (no colon, or nothing after it), and the flattening of a response into raw text and back: pages are lists of lines and a body, and a header line with a colon is a pair.
- Two requests at a time on one proxy: the handlers run one after the other.
- Regular expressions: their matches are given, as spans whose first and last characters occur in no placeholder, which is so for every expression used; the test for a blank line is a parameter of the document.
- Which links, images and tags the link pass recognises, and how tokens other than code spans and attributes write themselves: a pass is its spans and the entries it pushes.
- The last loop of the emphasis pass, which turns each piece into tokens (`cpp-markdown/markdown-tokens.cpp:582-590`), beyond that decoding succeeds on each piece.
- Block structure other than indented code, and character encoding in the output: bound to regular expressions.
- Handler set-up, error pages, status texts and static files: single-branch code.
- `EmphasisSpans.ProcessBoldAndItalicSpans`: requires that the loops end, which is exactly what `EmphasisTermination.LoopsEndIff` characterises.
- `ProxyFreshness.HitIsFreshIff`: for a uri that a second stripping does not change; the other uris are the subject of `ProxyStripping`.
- `ProxyStripping.RefreshedElsewhere`: for a uri whose key further stripping does not come back to, which is so for every uri that does not end in `/index`.
- Integer overflow of lifetimes added to the clock: times are unbounded; the number text itself is read with the range of a 32-bit integer.
- `ProxyFreshness.PageServed`: for a recorded expiration whose distance from the clock fits a 32-bit integer, since the lifetime is read back as one.
