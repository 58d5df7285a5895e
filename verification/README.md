# Repository-Context-Packager: the compressor and the command line

Repository-Context-Packager packs a repository into one text file for a
language model. This project models its compressor, its string helpers and
its command-line parser in Dafny, and proves properties of that model.

- The compressor is `rcpack::Compressor` in `src/Compressor.cpp`. It can
  drop comments and blank lines from a file. It can also replace the file
  by a digest of its signatures: class, function and `def` lines, each with
  the comments just above it and at most six comment lines from its body.
- The string helpers come from `src/utils.h`.
- The command-line parser is `CLI::parse` in `src/cli.cpp`, which fills
  the `Config` record of `src/Config.h`.

Each file of the C++ code is modelled in its own form. Loops become
methods with loop invariants. Each method is proved equal to a reference
function written by recursion. The properties the code promises are then
proved as lemmas about those functions.

| module | file | models |
|---|---|---|
| `Text` | `text.dfy` | The `std::string` and `std::istringstream` primitives the code relies on: find, split at a separator (`getline`), join (`join_lines`) and `starts_with`. |
| `Utils` | `utils.dfy` | `trim`, `split_comma`, `toLower` and `splitPatterns` of `src/utils.h`. |
| `Scan` | `scan.dfy` | `find_outside_quotes`, `find_matching_brace_safe` and `collect_comments_in_range`. |
| `CommentWalk` | `commentwalk.dfy` | `line_is_comment_only` and `collect_preceding_comment_block_lines`. |
| `Chunks` | `chunks.dfy` | `split_lines`, the line offsets, the two signature predicates, signature cutting, the six-line limit, snippet rendering, the seen-set deduplication and the leading-comment fallback of `extractChunks`. |
| `Compressor` | `compressor.dfy` | `stripComments`, the empty-line filter and the output assembly of `process`, and `extension`. |
| `Cli` | `cli.dfy` | `CLI::parse`, with `Config` as a datatype. |

Notes on how the model is built:

- **Bytes and character classes.** A Dafny `char` stands for one byte.
  `std::isspace`, `std::isalpha` and `std::tolower` follow the "C" locale.
  `trim` strips only `" \t\n\r"`, which is narrower than `isspace`; the
  model keeps the two sets apart, as the code does.
- **Brace matching.** The matcher is specified by a tag for every byte
  (`Scan.Lex`): code, quoted or commented. The closing brace is the first
  position where the running count of code braces, starting at the
  opening brace, returns to zero (`Scan.MatchingBrace`).
- **Quote flags.** The three quote flags of the C++ code (`in_single`,
  `in_double`, `in_backtick`) are never set together. They become one
  `Scan.Quote` value. The `inLine` and `inBlock` flags of `stripComments`
  likewise become one `Compressor.Mode`.
- **Local copies in `cli.cpp`.** `src/cli.cpp` has its own `trim` and
  `split_comma`, identical to the ones in `src/utils.h`. `Cli` uses
  `Utils.Trim` and `Utils.CommaTokens` for both.

Behaviour of the code worth noting:

- **Trailing newline.** `process` with compression off returns the cleaned
  text as it is, so the output need not end in a newline. With compression
  on, one newline is added only when the text does not already end in one.
- **Fallback mixing.** The fallback does not insist on a run of `//` lines
  or on one block. It mixes both kinds, skips blank lines between them,
  and stops at the first other line among the first 200.
- **One-line block comment in the fallback.** It does not end its block:
  the search for `*/` starts on the next line (`Chunks.OneLineBlockQuirk`).
- **Block reconstruction.** The reconstruction of a block comment in the
  preceding-comment walk cannot be reached. `line_is_comment_only` already
  accepts every line that starts with `*/`
  (`CommentWalk.ClosingLineIsCommentOnly`).
- **`find_outside_quotes`.** It tracks quotes but not comments.

## Model

| member | source | states |
|---|---|---|
| Text.SplitPieces | src/Compressor.cpp:240-250 | Splitting at a separator gives one more piece than there are separators, and no piece contains the separator. |
| Text.JoinSplit | src/Compressor.cpp:240-250 | Joining the pieces of a split with the separator gives back the text. |
| Text.SplitJoin | src/Compressor.cpp:240-250 | Splitting a join of separator-free pieces gives back the pieces. |
| Text.GetlinePiecesSpec | src/utils.h:17-24 | The pieces `getline` reads are the split pieces, minus a final empty piece when the text ends with the separator. None of them holds the separator. |
| Text.JoinSnoc | src/Compressor.cpp:43-50 | join_lines puts the separator only between consecutive entries. |
| Text.JoinStartsWith | src/Compressor.cpp:43-50 | A join starts with its first entry. |
| Text.JoinAppend | src/Compressor.cpp:43-50 | Joining two non-empty lists puts one separator between their joins. |
| Text.JoinLast | src/Compressor.cpp:43-50 | A join ends with the last byte of its last entry. |
| Utils.Trim | src/utils.h:10-15 | The result has no space, tab, newline or carriage return at either end. |
| Utils.TrimSpec | src/utils.h:10-15 | The result is empty exactly when every byte is strippable. Otherwise it is the part of the input between runs of strippable bytes. |
| Utils.TrimOfTrimmed | src/utils.h:10-15 | A text with no strippable byte at either end is left unchanged. |
| Utils.TrimIdempotent | src/cli.cpp:8-13 | Trimming twice is trimming once (same body as utils.h). |
| Utils.TrimChars | src/utils.h:10-15 | Trimming adds no character. |
| Utils.SplitComma | src/utils.h:17-24 | The tokens are appended to `out`, which is otherwise unchanged. They are the trimmed non-empty comma pieces. |
| Utils.CommaTokensWellFormed | src/cli.cpp:15-22 | Every appended token is non-empty, trimmed and free of commas. |
| Utils.GetlineTokensAreSplitTokens | src/utils.h:17-24 | Dropping a final empty `getline` piece changes no token. |
| Utils.ToLower | src/utils.h:26-29 | The result has the same length. Each upper-case ASCII letter becomes its lower-case form, and every other byte is kept. |
| Utils.LowerStringIdempotent | src/utils.h:26-29 | Lower-casing twice is lower-casing once. |
| Utils.SplitPatterns | src/utils.h:32-43 | The patterns are the non-empty comma pieces of the input, each trimmed, so a piece of blanks gives an empty pattern. There are at most one more than its commas, and none holds a comma or has surrounding space. |
| Utils.PatternsWellFormed | src/utils.h:32-43 | Every pattern is free of commas and trimmed. |
| Utils.BlankPieceKept | src/utils.h:17-43 | A piece made only of blanks gives one empty pattern in `splitPatterns`, and no token in `split_comma`. |
| Scan.FindOutsideQuotes | src/Compressor.cpp:12-41 | An empty pattern gives npos. Otherwise the result is the first position where the pattern occurs and its first byte is outside quotes, or npos when there is none. |
| Scan.NoQuotesPlainFind | src/Compressor.cpp:12-41 | On a line without quote characters, the search is a plain substring search. |
| Scan.FindMatchingBrace | src/Compressor.cpp:75-118 | A position that is not an opening brace gives npos. A result is a position where the count of code braces first returns to zero. npos means the count never does. |
| Scan.MatchingBraceDetermined | src/Compressor.cpp:75-118 | These three conditions fix the answer: it is MatchingBrace. |
| Scan.OpeningIsCode | src/Compressor.cpp:76-79 | The opening brace counts: the depth after it is one. |
| Scan.ClosingIsCodeBrace | src/Compressor.cpp:111-115 | A match lies after the opening, is a '}' and is code, not quoted or commented. |
| Scan.FirstCloseFinds | src/Compressor.cpp:79-117 | The reference search finds the first position where the depth returns to zero, or shows it never does. |
| Scan.SkipLine | src/Compressor.cpp:81-85 | Stops at the first newline or at the end. |
| Scan.SkipBlock | src/Compressor.cpp:86-91 | Stops at the first star-slash or, when there is none, next to the end. |
| Scan.CollectCommentsInRange | src/Compressor.cpp:120-172 | Returns the trimmed `//` and `/* */` comments met outside quotes in the range, joined by newlines. |
| Scan.CommentsFromBytes | src/Compressor.cpp:143-157 | Every collected comment starts with `//` or `/*`. A `//` comment holds no newline. |
| Scan.CommentsWellFormed | src/Compressor.cpp:143-157 | Every trimmed comment still starts with its marker and is trimmed. |
| Scan.CommentsReadOnlyRange | src/Compressor.cpp:120-172 | The result depends only on the bytes inside the range. |
| Scan.LiteralSkipped | src/Compressor.cpp:127-141 | Comment markers inside a quoted literal, up to its closing quote, are not collected. A backslash skips the byte after it, so an escaped quote does not end the literal. |
| Scan.QuotedEscape | src/Compressor.cpp:127-141 | Inside a literal, a backslash and the byte after it are passed over together. |
| Scan.EscapedQuoteNotCollected | src/Compressor.cpp:127-141 | In `"a\"//b"` the escaped quote does not end the string, so its `//` is not collected. |
| CommentWalk.LineIsCommentOnlySpec | src/Compressor.cpp:52-73 | A line is comment-only exactly when, after leading isspace bytes, it starts with `#`, `//`, `/*` or `*/`. |
| CommentWalk.ClosingLineIsCommentOnly | src/Compressor.cpp:190-230 | A line starting with `*/` is already comment-only, so the block-end branch is never reached. |
| CommentWalk.CollectPrecedingCommentBlockLines | src/Compressor.cpp:174-238 | Equals the reference walk. Line 0 gives "". |
| CommentWalk.PrecedingCommentsSpec | src/Compressor.cpp:174-238 | The walk stops at the only place where, going up, it passes only comment lines and at most one blank line. The result is the non-empty trimmed lines from there to the signature, top to bottom, joined by newlines. |
| CommentWalk.PrecedingLinesClean | src/Compressor.cpp:174-238 | Each collected preceding line is non-empty and trimmed, and holds no newline. |
| CommentWalk.WalkStopsUnique | src/Compressor.cpp:178-193 | At most one position satisfies the stopping rule. |
| Chunks.SplitLines | src/Compressor.cpp:240-250 | Equals the split of the text at newlines. |
| Chunks.SplitLinesSpec | src/Compressor.cpp:240-250 | split_lines gives one more line than there are newlines. No line holds a newline, and joining the lines with newlines gives the text back. |
| Chunks.LineOffsets | src/Compressor.cpp:257-260 | Offset i is the sum of the lengths of the lines before i, each plus one. |
| Chunks.LineAt | src/Compressor.cpp:257-260 | Line i sits in the text at offset i and is followed by a newline, unless it is the last line. |
| Chunks.OffsetEnd | src/Compressor.cpp:257-260 | The last offset is the text length plus one. |
| Chunks.CLikeSigSpec | src/Compressor.cpp:262-274 | The C-like rule holds exactly when the line is non-empty and either starts with `class `, `struct ` or `function `, or holds ` function `, or holds `{` together with either both parentheses or `=>`. |
| Chunks.CutAtParameters | src/Compressor.cpp:311-317 | When a ')' follows the first '(', the signature is the prefix ending at the first such ')'. |
| Chunks.CutAtClose | src/Compressor.cpp:312-316 | The cut lands just after the first ')' that follows the first '('. |
| Chunks.CutPlain | src/Compressor.cpp:321-325 | A line with no '(' and no trailing '{' is kept as it is. |
| Chunks.PythonSignatureColon | src/Compressor.cpp:327 | A non-empty Python signature ends with ':'. |
| Chunks.CutSignatureOf | src/Compressor.cpp:311-325 | Equals the reference cut. |
| Chunks.NormalizeSignatureOf | src/Compressor.cpp:311-327 | Equals the reference cut plus the Python colon. |
| Chunks.LimitCommentLines | src/Compressor.cpp:329-339 | Returns the kept lines joined by newlines. |
| Chunks.KeptCommentsSpec | src/Compressor.cpp:329-339 | At most six lines are kept, each non-empty, trimmed and free of newlines. They are the first trimmed non-empty lines of the comments, and the joined text splits back into them. |
| Chunks.BuildSnippet | src/Compressor.cpp:343-357 | Equals the reference snippet. |
| Chunks.SnippetEnds | src/Compressor.cpp:343-360 | The trimmed snippet is non-empty. It ends with the closing body marker when inner comments were kept, with `# ...` for Python, and with `{ /* ... */ }` otherwise. |
| Chunks.OpenBraceSpec | src/Compressor.cpp:297-302 | The brace search finds the first '{' from the line's offset. A Python search stops at the first newline. |
| Chunks.FindOpenBrace | src/Compressor.cpp:297-302 | Equals the reference search. |
| Chunks.MatchingBraceBounds | src/Compressor.cpp:305-306 | A match lies strictly after the opening brace, inside the text. |
| Chunks.InnerCommentsOf | src/Compressor.cpp:303-309 | Equals the comments collected between the found brace and its match, or "" when either is missing. |
| Chunks.BraceCommentsOf | src/Compressor.cpp:304-308 | Equals the comments collected between a brace and its match, or "" when the brace is never closed. |
| Chunks.SignatureChunk | src/Compressor.cpp:291-359 | The chunk rendered for line i. |
| Chunks.ChunkAtSpec | src/Compressor.cpp:343-360 | Every rendered chunk is non-empty and trimmed, and it ends with the body marker its case calls for. |
| Chunks.ChunkAtLines | src/Compressor.cpp:291-360 | Line by line, a chunk is its preceding comment lines, then the cut signature with its body. With no kept inner comment, the body is ` { /* ... */ }`, or `  # ...` for Python, on the signature's line. Otherwise it is ` {`, then the kept lines, then `  /* ... */` and `}`, each on a line of its own. This holds exactly, with no trimming, unless both the comments and the signature are empty. |
| Chunks.SnippetLines | src/Compressor.cpp:343-360 | A snippet built from clean comment lines, signature and kept lines splits at its newlines into the chunk lines. |
| Chunks.SnippetJoin | src/Compressor.cpp:343-357 | The snippet text is the chunk lines joined by newlines: the comment block gets one newline before the signature. |
| Chunks.SignatureClean | src/Compressor.cpp:311-327 | The cut signature of a trimmed line is trimmed and holds only bytes of the line, plus ':' for Python. |
| Chunks.RenderedNonEmpty | src/Compressor.cpp:359-360 | No rendered chunk is empty, so the "empty snippet" skip never fires. |
| Chunks.SignaturesSpec | src/Compressor.cpp:281-289 | Line i is a signature exactly when its trimmed text passes the rule for the extension. |
| Chunks.ExtractLine | src/Compressor.cpp:281-362 | One pass of the loop keeps the chunks equal to the first occurrences of the signature chunks so far. |
| Chunks.SignatureChunks | src/Compressor.cpp:281-363 | The loop returns the signature chunks in line order, each first occurrence only. |
| Chunks.ExtractChunks | src/Compressor.cpp:252-394 | Equals the reference digest. |
| Chunks.FoundSpec | src/Compressor.cpp:360-361 | The deduplicated chunks are pairwise distinct. A chunk is among them exactly when some signature line renders to it. |
| Chunks.NothingFound | src/Compressor.cpp:365 | With no signature line, the loop yields no chunk. |
| Chunks.SomethingFound | src/Compressor.cpp:361-365 | With a signature line, the loop yields a chunk, so the fallback is not used. |
| Chunks.ChunksOfSpec | src/Compressor.cpp:281-391 | The digest is distinct. With a signature line, its members are exactly the chunks of the signature lines. With none, it is the fallback. |
| Chunks.ChunksSpec | src/Compressor.cpp:252-394 | The same, stated for a whole text and extension. |
| Chunks.ChunksNonEmpty | src/Compressor.cpp:359-390 | No chunk of the digest is empty. |
| Chunks.GatherBlock | src/Compressor.cpp:372-382 | Collects the trimmed lines from a block opener through the first later line holding `*/`, and moves past it. With no such line, it stays on the opener's line. |
| Chunks.Fallback | src/Compressor.cpp:365-391 | Equals the reference fallback. |
| Chunks.FallbackChunksSpec | src/Compressor.cpp:365-391 | The fallback gives at most one chunk. It gives one exactly when the first non-blank line among the first 200 opens a comment, and that chunk starts with a comment opener. |
| Chunks.TopCommentsAreComments | src/Compressor.cpp:367-386 | Every collected entry starts with `//` or `/*`. |
| Chunks.TopCommentsNonEmpty | src/Compressor.cpp:367-386 | Something is collected exactly when the first non-blank line among the first 200 opens a comment. |
| Chunks.BlockTextStart | src/Compressor.cpp:374-382 | A block entry starts with its trimmed opening line. |
| Chunks.OneLineBlockQuirk | src/Compressor.cpp:376-381 | `/* a */` followed by `// b` collects `// b` twice: once inside the block and once on its own. |
| Compressor.StripComments | src/Compressor.cpp:439-455 | Equals the reference strip and is never longer than its input. |
| Compressor.StripShorter | src/Compressor.cpp:439-455 | Stripping never lengthens a text. |
| Compressor.NoSlashUnchanged | src/Compressor.cpp:443-453 | A text without '/' is unchanged. |
| Compressor.LineCommentKeepsNewline | src/Compressor.cpp:444-450 | A `//` comment is replaced by the newline that ends it. |
| Compressor.LineCommentToEnd | src/Compressor.cpp:444-453 | A `//` comment with no newline after it removes the rest of the text. |
| Compressor.BlockCommentDropped | src/Compressor.cpp:447-451 | A closed `/* */` comment is removed entirely. |
| Compressor.BlockCommentToEnd | src/Compressor.cpp:447-453 | An unclosed `/*` removes the rest of the text. |
| Compressor.QuotesNotTracked | src/Compressor.cpp:442-453 | `//` inside what would be a string literal still starts a comment. |
| Compressor.IsBlankLine | src/Compressor.cpp:408-409 | True exactly when every byte is isspace. |
| Compressor.RemoveEmptyLines | src/Compressor.cpp:403-413 | Equals the reference filter. |
| Compressor.WithoutEmptyLinesSpec | src/Compressor.cpp:403-413 | The lines of the result are the non-blank `getline` lines of the input, in order. The result is empty or ends with '\n'. |
| Compressor.WithoutEmptyLinesIdempotent | src/Compressor.cpp:403-413 | Filtering twice is filtering once. |
| Compressor.NonBlankSpec | src/Compressor.cpp:408-410 | The kept lines are exactly the input lines that are not all whitespace. |
| Compressor.TerminatedSplit | src/Compressor.cpp:410 | Lines written each followed by '\n' split back into those lines plus a final empty piece. |
| Compressor.LastIndexOfLast | src/Compressor.cpp:433-434 | find_last_of gives npos exactly when the byte is absent. Otherwise no later byte equals it. |
| Compressor.ExtensionSpec | src/Compressor.cpp:432-437 | A path without '.' has extension "". Otherwise the extension is the lower-cased text after the last '.'. It holds no '.' and no upper-case letter. |
| Compressor.ExtensionOfSuffix | src/Compressor.cpp:432-437 | A name, a '.' and a dot-free suffix has the lower-cased suffix as its extension. |
| Compressor.WithNewline | src/Compressor.cpp:418 | A non-empty text gains a final '\n' only when it lacks one. The empty text stays empty. |
| Compressor.JoinChunks | src/Compressor.cpp:422-427 | The chunks joined by the `⋮----` separator line. |
| Compressor.Process | src/Compressor.cpp:396-430 | Without compression, returns the cleaned text. With it, returns the chunks joined by the separator line, or the cleaned text when there are none. With compression, in both cases a final newline is added when it is missing. |
| Compressor.PreparedPlain | src/Compressor.cpp:401-414 | With no option set, the content is returned unchanged. |
| Compressor.PackedEndsWithNewline | src/Compressor.cpp:417-429 | A non-empty compressed result ends with '\n'. A non-empty input gives a non-empty result. |
| Compressor.PackedHoldsChunks | src/Compressor.cpp:422-429 | The result starts with the first chunk and contains every chunk. |
| Compressor.JoinedHolds | src/Compressor.cpp:422-428 | A joined, newline-terminated list starts with its first entry and contains each entry. |
| Cli.Parse | src/cli.cpp:24-61 | Equals the reference fold over the arguments after argv[0]. The path list is never empty. |
| Cli.Argv0Ignored | src/cli.cpp:27 | The program name does not influence the result. |
| Cli.DefaultPath | src/cli.cpp:27-59 | The path list is the positional arguments in order: every argument that is not a flag, an option or an option's value. It is ["."] when there are none. |
| Cli.FoldPositionals | src/cli.cpp:27-56 | Reading the arguments appends exactly their positional arguments to the paths, in order. |
| Cli.FlagsNotPositional | src/cli.cpp:30-35 | Help and version flags are not positional arguments. |
| Cli.FlagsOnly | src/cli.cpp:30-35 | Help and version flags only set their booleans. |
| Cli.FoldExtends | src/cli.cpp:27-56 | Parsing only appends paths and patterns and never clears a flag. |
| Cli.OutputStep | src/cli.cpp:36-39 | `-o X` or `--output X` sets the output file to X and consumes X. |
| Cli.FoldInclude | src/cli.cpp:44-48 | `-i X` appends the comma tokens of X and consumes X. |
| Cli.FoldPaths | src/cli.cpp:53-55 | Arguments that are not options are appended to the paths, in order. |
| Cli.TrailingOptionIgnored | src/cli.cpp:36-52 | A final `-o` or `-i` with no value changes nothing. |
| Cli.ParseUnparse | src/cli.cpp:24-61 | Writing a well-formed Config back as arguments and parsing them gives the same Config, even with a trailing valueless option. |

## Left out

- Debug and error output. The `std::cerr` debug lines of
  `line_is_comment_only` (its `debug` flag) and the error messages of
  `CLI::parse` for a missing value are output only and are not modelled.
- `CLI::print_help`. It only writes text. The constructor `CLI::CLI`
  only stores argc and argv; `Cli.Parse` takes them as one sequence.
- The rest of the program is not part of this model: file reading,
  repository scanning, git information, output formatting and `main`.
- `Compressor.h` declarations. `process` and `extractChunks` are methods
  of a class with no state, so they are modelled as plain methods.
- Literal flags. The three literal flags of each scanner are one `Quote`
  value, and `stripComments`' two flags are one `Mode`. Both are equivalent
  because at most one flag is set at a time.
- Stream plumbing. `std::istringstream` and `std::ostringstream` become
  sequence operations: `getline` pieces, `Join` and appends.
- The `⋮` character. It is kept as its three UTF-8 bytes.
- Locale. `isspace`, `isalpha` and `tolower` are modelled for the "C"
  locale only.
- `Chunks.ExtractChunks` renders chunks through a per-line table.
  Rendering depends only on the text, the extension and the line, so the
  table is a specification device. The method itself renders each
  signature line once, as the code does.
- `Chunks.FoundSpec` states the `unordered_set` deduplication through the
  list it produces: first occurrences, in order. The set's own iteration
  order plays no part in the code.
- `Compressor.ExtensionSpec`: as in the code, the last '.' of the whole
  path is used, so a dot in a directory name counts when the file name
  has none.
- Integer width. `size_t` and `ssize_t` arithmetic cannot overflow for
  strings that fit in memory, so the model uses unbounded integers. The
  `int depth` of `find_matching_brace_safe` (src/Compressor.cpp:77) is at
  most the length of the text. The program reads at most 16 KiB of each
  file (src/main.cpp:115), so the depth stays far below the `int` range.
  The `int i` of `CLI::parse` (src/cli.cpp:27) counts arguments, which
  are far fewer than `INT_MAX`.
- Chunks.ChunkAtLines: when both the preceding comments and the cut
  signature are empty, the chunk is only stated up to the final trim. The
  trim then strips the spaces that open its first line.
