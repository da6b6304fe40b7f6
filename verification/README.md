# stelm inline markup, in Dafny

stelm turns a line of lightly marked-up text into HTML. Its engine,
`applyQueue`, works in rounds:

- At the cursor, every formatting unit of a fixed queue reports a bid.
  A bid is the earliest offset at or after the cursor where the unit
  could act.
- The lowest bid wins. On a tie, the unit earlier in the queue wins.
- The winner's `apply(s, pos)` returns a list of fragments and the
  cursor where dispatch resumes.
- Units whose inner text may hold markup hand that text back to
  `applyQueue` recursively.

The queue holds six units, in this order:

- the `{{ … }}` pre-block;
- `http://` links, optionally followed by `|text` or `|"quoted text"`;
- the `*`, `_` and `-` marker units (bold, italic, strike-through);
- the backslash escaper.

Four more units follow the same bid/apply contract outside the queue:
the line breaker, two em-dashers, the horizontal ruler and the
hashtagger.

## How the model is built

Each unit is a pair of pure functions: a bid returning `Option<nat>`,
and an apply returning a `Step(frags, next)`. Each regular expression is
written as an explicit leftmost scanner.

The units that re-enter the dispatcher (the marker units, the quote
wrapper and the linker) form one mutually recursive group with
`Combinator.ApplyQueue`. That group terminates under the lexicographic
measure (|s|, rank, |s| − cursor).

Character classes follow the Python 2 flags of each pattern:

- Without `re.U`, `\s` is ASCII whitespace (`Text.IsSpace`).
- With `re.U`, `\s` is the Unicode whitespace list (`Text.IsSpaceU`).
- `\w` is ASCII throughout (`Text.IsWord`).

The arbitration rule is stated twice, each independently of the other:

- `Arbitration.Best` is the reference definition.
- `Combinator.Select` is the scan `applyQueue` performs, including its
  early exit at a bid of 0.

The two are proved equal.

Where the code and its own description disagree, the model follows the
code. The loop's early exit, for example, fires on a bid of 0, not on a
bid equal to the cursor.

Files:

| file | module | models |
|---|---|---|
| text.dfy | Text | bids, steps, character classes, shared scanners |
| escaper.dfy | Escaper | stelm/escaper.py |
| preformatter.dfy | PreFormatter | stelm/preformatter.py |
| marker_based.dfy | MarkerBased | stelm/marker_based.py (the scanners) |
| linker.dfy | Linker | stelm/linker.py (the scanners) |
| combinator.dfy | Combinator | stelm/combinator.py, with the marker, quote and link `apply` |
| arbitration.dfy | Arbitration | the winner rule of `applyQueue` |
| properties.dfy | Properties | whole-dispatch properties |
| linebreaker.dfy | LineBreaker | stelm/linebreaker.py |
| dasher.dfy | Dasher | stelm/dasher.py |
| simple_substitutor.dfy | SimpleSubstitutor | stelm/simple_substitutor.py |
| hashtagger.dfy | HashTagger | stelm/hashtagger.py |
| examples.dfy | Cases | worked cases from the tests and doc comments |

## Model

| member | source | states |
|---|---|---|
| Text.NewlineEnd | stelm/linebreaker.py:36 | one newline sequence from a newline character: two characters exactly when `\r\n` or `\n\r` starts there, else one |
| Text.Prefix | stelm/marker_based.py:65-66 | the prefix fragment list joins to `s[pos:start]` and holds at most one fragment, never an empty one |
| Text.SkipSpace | stelm/preformatter.py:45 | a greedy `\s*` stops within the text, on a non-space or at the end |
| Text.SkipSpaceRun | stelm/preformatter.py:45 | everything a greedy `\s*` steps over is whitespace |
| Text.FindSpace | stelm/linker.py:56 | `SPACE_RE.search` finds the first whitespace, with none before it; no result means no whitespace at all |
| Text.ConcatAppend | stelm/combinator.py:39 | joining the fragments of two lists is joining each list and concatenating the results |
| Escaper.EscBid | stelm/escaper.py:30-45 | the bid is the leftmost backslash followed by a non-newline; no bid means there is no such pair |
| Escaper.EscApply | stelm/escaper.py:51-54 | exactly two fragments, the possibly empty prefix and the escaped character alone; the cursor moves past the pair and the output joins to the text without the backslash |
| PreFormatter.LastNewline | stelm/preformatter.py:45 | a found index lies in the range and holds a newline |
| PreFormatter.LastNewlineIsLast | stelm/preformatter.py:45 | the found newline is the last one in the range; none found means the range has no newline |
| PreFormatter.OpenEnd | stelm/preformatter.py:45-49 | a `START` match is at least three characters long and ends on a newline |
| PreFormatter.OpenEndLayout | stelm/preformatter.py:45 | a `START` match exists exactly when the text reads whitespace, `{{`, whitespace ending on a newline, and it ends at the latest such newline |
| PreFormatter.PreBid | stelm/preformatter.py:49-58 | the bid is the leftmost offset where `START` matches; no bid means it matches nowhere |
| PreFormatter.CloseEnd | stelm/preformatter.py:46-50 | an `END` match starts on a newline and stops at the end of the text or before a non-space |
| PreFormatter.CloseEndLayout | stelm/preformatter.py:46 | an `END` match exists exactly when the text reads newline, whitespace, `}}`, and it ends after all the whitespace that follows |
| PreFormatter.FindEndHit | stelm/preformatter.py:74 | `END_RE.search` finds the leftmost escaped or real terminator |
| PreFormatter.Terminator | stelm/preformatter.py:46 | the leftmost real terminator, and none when there is none |
| PreFormatter.CloseLoop | stelm/preformatter.py:70-93 | the terminator loop never moves the cursor back |
| PreFormatter.CloseLoopEmits | stelm/preformatter.py:81-93 | the terminator loop always emits something |
| PreFormatter.PreApply | stelm/preformatter.py:63-98 | no bid gives `([], pos)`; a bid emits something and resumes past at least `{{` and a newline |
| PreFormatter.Unescape | stelm/preformatter.py:76-80 | the reference reading of a block body never grows it |
| PreFormatter.UnescapeKeeps | stelm/preformatter.py:76-80 | text without `\}}` unescapes to itself |
| PreFormatter.EscapedBeforeTerminator | stelm/preformatter.py:46-50 | an escaped terminator and a real one never overlap |
| PreFormatter.CloseLoopVerbatim | stelm/preformatter.py:72-89 | the loop closes at the first real terminator, and the pieces between `<pre>` and `</pre>` join to the gathered innards plus the body with each `\}}` unescaped |
| PreFormatter.TerminatorAfterEscape | stelm/preformatter.py:81-82 | resuming after an escaped terminator finds the same real terminator |
| PreFormatter.EscapedPiece | stelm/preformatter.py:79-80 | the unescaped body splits at the first escaped terminator into the text before it, `}}`, and the rest |
| PreFormatter.ClosedPiece | stelm/preformatter.py:84-89 | at a real terminator the block closes with the body unescaped |
| PreFormatter.CloseLoopUnclosed | stelm/preformatter.py:90-93 | without a real terminator the loop emits one raw fragment from the block start to where it stopped |
| PreFormatter.CloseLoopResumes | stelm/preformatter.py:74-93 | without a real terminator the loop stops right after the last escaped `\}}` from its start, or at its start when there is none, with no `\}}` left after it |
| PreFormatter.TerminatorFrom | stelm/preformatter.py:74-81 | skipping positions that hold no terminator does not change the terminator found |
| PreFormatter.PreContentVerbatim | stelm/preformatter.py:63-89 | a closed block is the prefix, `<pre>`, the body with `\}}` unescaped and nothing else interpreted, and `</pre>`; the cursor resumes after the terminator |
| PreFormatter.PreUnclosedRaw | stelm/preformatter.py:81-93 | with no terminator, the prefix and then the text from the block start are emitted raw and untagged, and dispatch resumes after the opening sequence, or after the last `\}}` when one follows it |
| MarkerBased.MarkerBid | stelm/marker_based.py:107 | the bid is the leftmost marker followed by a non-space, with no test on the character before it; no bid means there is none |
| MarkerBased.FindEndHit | stelm/marker_based.py:110 | `END_RE.search` finds the leftmost backslash or closing marker |
| MarkerBased.SeekFrom | stelm/marker_based.py:69-84 | a found close is a closing marker at or after the search start |
| MarkerBased.CloseAfter | stelm/marker_based.py:67-88 | a matched span closes strictly after its opening marker, so its inner text is never empty |
| MarkerBased.RunParityShift | stelm/marker_based.py:74-76 | skipping a backslash and its successor keeps the parity of every later backslash run |
| MarkerBased.SeekFromParity | stelm/marker_based.py:69-84 | the close is the leftmost closing marker after an even run of backslashes; every closing marker after an odd run is skipped |
| MarkerBased.NoHitBefore | stelm/marker_based.py:71-72 | before the first hit there is neither a backslash nor a close |
| MarkerBased.RunsAfterSkip | stelm/marker_based.py:74-76 | run parities counted from the cursor and from past a skipped pair agree |
| MarkerBased.BackslashRunSkips | stelm/marker_based.py:74-77 | after an even run of backslashes the marker itself is examined; after an odd run it is skipped |
| MarkerBased.PairsSkip | stelm/marker_based.py:74-77 | backslash pairs are passed over two characters at a time |
| Linker.LinkBid | stelm/linker.py:55-68 | the bid is the leftmost `http://` followed by a non-space; no bid means there is none |
| Linker.UrlEnd | stelm/linker.py:55 | the lazy `\S+?` stops at the first whitespace or a bar, or at the end of the text |
| Linker.LinkEnd | stelm/linker.py:55-64 | the URL holds at least one character after the scheme and ends before whitespace, a bar or the end |
| Linker.LinkEndRun | stelm/linker.py:55-64 | the URL's characters after the scheme are non-space, and none after the first is a bar |
| Linker.TextEnd | stelm/linker.py:84-90 | unquoted link text runs to the first whitespace searched from one character further, or to the end |
| Combinator.Bid | stelm/combinator.py:67-68 | a unit's bid lies at or after the cursor and inside the text |
| Combinator.Apply | stelm/combinator.py:77 | no bid gives `([], pos)`; a bid moves the cursor strictly past it |
| Combinator.MarkerApply | stelm/marker_based.py:60-93 | no bid gives `([], pos)`; a bid moves the cursor past it and emits something when the opening tag is non-empty |
| Combinator.LinkApply | stelm/linker.py:70-104 | no bid gives `([], pos)`; a bid emits the text ahead of it, the href opening with the URL and `">`, and ends with `</a>`, moving the cursor past the bid |
| Combinator.BidsFromAre | stelm/combinator.py:65-68 | each entry of the bid list is the bid of the unit at that queue index |
| Combinator.Select | stelm/combinator.py:63-73 | the scan's candidate is an index of the list that bids |
| Combinator.Winner | stelm/combinator.py:63-75 | the winner is a queue unit that bids |
| Combinator.Round | stelm/combinator.py:62-80 | every round emits something and strictly advances the cursor; with no bidder it consumes the rest of the text |
| Combinator.Dispatch | stelm/combinator.py:62-80 | the loop emits nothing exactly when the cursor is at the end |
| Combinator.ApplyQueue | stelm/combinator.py:41-81 | the fragment list is empty exactly when the text is |
| Arbitration.SelectFromState | stelm/combinator.py:63-73 | from any consistent scan state, the scan ends at the best bidder, or at none exactly when nobody bids |
| Arbitration.EarlyBest | stelm/combinator.py:72-73 | a bid of 0 below the bet is the best bid |
| Arbitration.ScanTakes | stelm/combinator.py:69-71 | a bid strictly below the bet becomes the candidate |
| Arbitration.ScanKeeps | stelm/combinator.py:69 | no bid, or a bid not below the bet, leaves the candidate |
| Arbitration.BestUnique | stelm/combinator.py:69 | there is at most one best bidder |
| Arbitration.SelectIsBest | stelm/combinator.py:63-75 | the scan names a unit exactly when it has the lowest bid and bids strictly below every unit ahead of it, and names none exactly when nobody bids |
| Arbitration.EarlyExitSameWinner | stelm/combinator.py:72-73 | stopping at a bid of 0 selects the same winner as a full scan |
| Arbitration.QueueDistinct | stelm/combinator.py:90 | the queue holds six different units |
| Arbitration.WinnerIsLowestBid | stelm/combinator.py:63-75 | a queue unit wins exactly when its bid is the lowest and strictly below every bid ahead of it; nobody wins exactly when nobody bids |
| Properties.BidWitness | stelm/combinator.py:90 | where each unit bids, the text holds `{{` after optional whitespace, `http://`, the unit's marker, or a backslash |
| Properties.WinsAt | stelm/combinator.py:69-73 | a unit bidding at the cursor with nobody ahead of it bidding there wins |
| Properties.QueueMarks | stelm/marker_based.py:122-124 | queue entries 2 to 4 are the `*`, `_` and `-` marker units, each with a non-empty opening tag |
| Properties.EscaperWins | stelm/escaper.py:51-54 | a backslash before a non-newline at the cursor wins its round, emitting the empty prefix and the next character alone |
| Properties.DispatchStep | stelm/combinator.py:77-78 | the loop's fragments are each round's fragments, in order, followed by the rest |
| Properties.SingleRound | stelm/combinator.py:62-81 | a text one round consumes formats to that round's fragments |
| Properties.NoBidsPassThrough | stelm/combinator.py:74-80 | with no bidder, the rest of the text is appended once, literally, and dispatch stops |
| Properties.PlainTextNoBids | stelm/combinator.py:65-71 | nobody bids in text without markup characters or links |
| Properties.PlainTextPassesThrough | stelm/combinator.py:62-81 | plain text formats to itself as one fragment, and the empty text to no fragment |
| Properties.RoundKeepsLeadingText | stelm/combinator.py:77-78 | text ahead of the winning bid comes out first, verbatim and whole |
| Properties.ApplyKeepsLeadingText | stelm/marker_based.py:65-66 | every unit emits the text ahead of its bid as its first fragment |
| Properties.PreLead | stelm/preformatter.py:68-69 | the pre-block unit emits the text ahead of its bid first |
| Properties.MarkerLead | stelm/marker_based.py:65-66 | a marker unit emits the text ahead of its bid first |
| Properties.LinkLead | stelm/linker.py:74-75 | the link unit emits the text ahead of its bid first |
| Properties.EscapeAll | stelm/escaper.py:33-36 | quoting puts a backslash before every character |
| Properties.DispatchEscaped | stelm/escaper.py:51-54 | from any quoted pair on, backslash-quoted text formats back to the text it quotes |
| Properties.EscapedStep | stelm/escaper.py:51-54 | each quoted pair is one round of its own |
| Properties.EscapeRoundTrip | stelm/escaper.py:33-36 | backslash-quoting every character of a newline-free text and formatting it gives the text back |
| Properties.RoundAsWritten | stelm/escaper.py:51 | a round as written succeeds only when the escaper does not win, and then agrees with the corrected round |
| Properties.EscapeRaisesAsWritten | stelm/escaper.py:51 | as written, every non-empty backslash-quoted text makes the first round raise; corrected, it formats back to the text |
| Properties.SpanCloses | stelm/marker_based.py:71-84 | a marker span opens where the marker is and closes at its closing marker |
| Properties.MarkerSpan | stelm/marker_based.py:60-84 | a span becomes the opening fragments, the inner text formatted, and the closing fragments, resuming after the closing marker |
| Properties.MarkerUnmatched | stelm/marker_based.py:85-88 | a marker that never closes is emitted as itself after the prefix, and dispatch resumes right after it |
| Properties.QuotedSpan | stelm/linker.py:32-40 | quoted link text is formatted with nothing around it |
| Properties.SpanApply | stelm/marker_based.py:79-84 | the same, for a marker unit of the queue |
| Properties.MarkerWinsAt | stelm/combinator.py:90 | a marker unit opening at the cursor wins the round |
| Properties.WrapIsSpan | stelm/marker_based.py:107-110 | marker, text that starts and ends on a non-space without that marker or a backslash, marker, is one span |
| Properties.MarkerWraps | stelm/marker_based.py:60-93 | such a text formats to the unit's tags around the formatted inner text |
| Properties.LinkWinsAtUrl | stelm/linker.py:55-65 | a text starting with a URL opens a link there, and the URL ends where the text's URL part does |
| Properties.LinkApplyBare | stelm/linker.py:92-99 | a URL without a bar becomes an anchor showing the URL, resuming after it |
| Properties.LinkApplyText | stelm/linker.py:84-91 | after a URL and a bar, unquoted text up to the next whitespace is formatted inside the anchor, resuming at that whitespace |
| Properties.LinkApplyQuoted | stelm/linker.py:79-83 | after a URL and a bar, a quoted span is formatted inside the anchor without its quotes, resuming after the closing quote |
| Properties.LinkAlone | stelm/linker.py:92-99 | a bare URL formats to an anchor whose href and text are the URL |
| Properties.TextRunsToEnd | stelm/linker.py:84-91 | whitespace-free text after a URL and a bar runs to the end of the text |
| Properties.LinkWithText | stelm/linker.py:84-99 | a URL, a bar and text formats to an anchor around the formatted text |
| Properties.TextLinkApply | stelm/linker.py:70-99 | the link unit wins at a URL, a bar and text and produces that anchor |
| Properties.TextLinkAt | stelm/linker.py:70-99 | the same for any text laid out as a URL, a bar and text |
| Properties.QuoteRunsToEnd | stelm/linker.py:79-83 | a URL, a bar and quoted text holds one quoted span running to the end of the text |
| Properties.LinkQuoted | stelm/linker.py:79-99 | a URL, a bar and quoted text formats to an anchor around the formatted text, without the quotes |
| Properties.QuotedLinkApply | stelm/linker.py:70-99 | the link unit wins at a URL, a bar and quoted text and produces that anchor |
| Properties.QuotedLinkAt | stelm/linker.py:70-99 | the same for any text laid out as a URL, a bar and quoted text |
| LineBreaker.BreakBid | stelm/linebreaker.py:36-49 | the bid is the first newline character at or after the cursor; no bid means there is none |
| LineBreaker.BreakApply | stelm/linebreaker.py:51-63 | no bid gives `([], pos)`; a bid moves the cursor past it |
| LineBreaker.BreakReplacesOneNewline | stelm/linebreaker.py:51-58 | the text before the newline is kept, one `<br/>` replaces exactly one newline sequence, and a pair is taken whole |
| Dasher.MatchAt | stelm/dasher.py:37 | a match puts the `--` at or right after the match start, followed by a character |
| Dasher.FirstMatch | stelm/dasher.py:40 | `MINUSES_RE.search` finds the leftmost match |
| Dasher.DashBid | stelm/dasher.py:39-48 | the bid is the start of group 2, inside the text |
| Dasher.DashApply | stelm/dasher.py:50-62 | no bid gives `([], pos)`; a bid resumes right after the `--` |
| Dasher.SiteMatches | stelm/dasher.py:37 | a `--` between whitespace, or at the start of the text before whitespace, is matched |
| Dasher.BidIsLeftmostSite | stelm/dasher.py:37-45 | the bid is exactly the leftmost such `--`, and there is no bid exactly when there is none |
| Dasher.DashReplacesDoubleMinus | stelm/dasher.py:50-57 | the text before the `--` is kept, exactly the two hyphens become U+2014, and the whitespace after them is left ahead of the cursor |
| SimpleSubstitutor.DashAt | stelm/simple_substitutor.py:67 | group 1 is the two characters at or right after the match start, followed by a character |
| SimpleSubstitutor.SkipBlank | stelm/simple_substitutor.py:71 | a greedy `[ \t]*` steps over blanks only and stops at a non-blank or the end |
| SimpleSubstitutor.SkipHyphens | stelm/simple_substitutor.py:72 | a greedy `-*` steps over hyphens only and stops at a non-hyphen or the end |
| SimpleSubstitutor.RuleRest | stelm/simple_substitutor.py:71-72 | the rule pattern after its leading newline covers at least three hyphens |
| SimpleSubstitutor.RuleAt | stelm/simple_substitutor.py:72 | group 1 of the rule pattern is the whole match and covers at least three characters |
| SimpleSubstitutor.FirstMatch | stelm/simple_substitutor.py:41 | `PATTERN_RE.search` finds the leftmost match |
| SimpleSubstitutor.SubBid | stelm/simple_substitutor.py:40-49 | the bid is the start of group 1, at or after the cursor |
| SimpleSubstitutor.SubApply | stelm/simple_substitutor.py:51-63 | no bid gives `([], pos)`; a bid moves the cursor past it |
| SimpleSubstitutor.SubApplyReplacesGroup | stelm/simple_substitutor.py:51-58 | the output keeps the text before group 1, replaces exactly group 1 by the replacement, and resumes at its end |
| SimpleSubstitutor.DashSiteMatches | stelm/simple_substitutor.py:67 | a `--` between whitespace, or at a line start before whitespace, is matched |
| SimpleSubstitutor.DashBidIsLeftmostSite | stelm/simple_substitutor.py:67 | the em-dasher bids exactly at the leftmost such `--`, and at none exactly when there is none |
| SimpleSubstitutor.DashReplacesDoubleMinus | stelm/simple_substitutor.py:51-58 | exactly the two hyphens become U+2014, and the whitespace around them stays |
| SimpleSubstitutor.RuleShape | stelm/simple_substitutor.py:70-72 | what the ruler replaces is an optional newline, blanks, three or more hyphens, blanks and an optional newline; a missing leading newline means a line start, a missing trailing one the end of the text |
| SimpleSubstitutor.RestShape | stelm/simple_substitutor.py:71-72 | the rest of a rule line is blanks, three or more hyphens, blanks and an optional newline |
| SimpleSubstitutor.NewlineSeq | stelm/simple_substitutor.py:70 | a newline alternative takes one of the four newline sequences |
| SimpleSubstitutor.RuleBidIsLeftmost | stelm/simple_substitutor.py:72 | the ruler bids at a newline or line start where the pattern matches, and at the leftmost one |
| SimpleSubstitutor.RuleLineFound | stelm/simple_substitutor.py:69-72 | every rule line at or after the cursor, whose leading newline is missing only at a line start and trailing one only at the end, is matched where it starts, so the ruler bids there or earlier |
| SimpleSubstitutor.RestFound | stelm/simple_substitutor.py:70-72 | blanks, three or more hyphens, blanks and a newline or the end are matched by the part after the leading newline, to at least their end |
| HashTagger.FindTag | stelm/hashtagger.py:44-50 | `TAG_RE.search` finds the leftmost `#` followed by a word character |
| HashTagger.SkipWord | stelm/hashtagger.py:44 | a greedy `\w*` steps over word characters only |
| HashTagger.TagEnd | stelm/hashtagger.py:44 | group 1 ends where neither a word character nor a `.` followed by one comes next |
| HashTagger.HashBid | stelm/hashtagger.py:53-54 | as written, a bid is never 0: a tag at offset 0 gets no bid |
| HashTagger.HashBidIntended | stelm/hashtagger.py:44-54 | the intended bid is the leftmost tag, offset 0 included; no bid means there is no tag |
| HashTagger.HashApply | stelm/hashtagger.py:56-79 | no tag gives `([], boundary)`; a tag moves the cursor past it |
| HashTagger.TagEndIsMaximalName | stelm/hashtagger.py:44 | group 1 is a tag name, word characters with single inner dots, that cannot be extended |
| HashTagger.TagTextOfGroup | stelm/hashtagger.py:63-65 | the tag text is group 1 less one trailing underscore |
| HashTagger.HashApplyLinksTag | stelm/hashtagger.py:59-74 | the output keeps the text before the tag and links the tag text under `/tag/`, showing it after a `#` |
| HashTagger.HashApplyStopsBeforeUnderscore | stelm/hashtagger.py:63-68 | a trailing underscore is dropped from the tag and left ahead of the cursor |
| HashTagger.HashBidLosesOffsetZero | stelm/hashtagger.py:54 | a text starting with a tag gets no bid as written, but gets bid 0 as intended |
| HashTagger.HashBidAgreesAwayFromZero | stelm/hashtagger.py:54 | everywhere else the written and the intended bid agree |
| Cases.TagStopsAtHyphen | stelm/hashtagger.py:37 | `#python-style` tags `python`, and as written gets no bid |
| Cases.TagKeepsInnerDot | stelm/hashtagger.py:41 | `#dot.com` tags `dot.com` |
| Cases.TagDropsFinalPeriod | stelm/hashtagger.py:38 | `Period of #foo.` bids at the `#` and tags `foo` |
| Cases.BreakN | stelm/tests.py:332-337 | `a\nb` gives `a`, `<br/>` and resumes at `b` |
| Cases.BreakR | stelm/tests.py:339-344 | `a\rb` gives `a`, `<br/>` and resumes at `b` |
| Cases.BreakNR | stelm/tests.py:346-351 | `a\n\rb` gives one `<br/>` and resumes at `b` |
| Cases.BreakRN | stelm/tests.py:353-358 | `a\r\nb` gives one `<br/>` and resumes at `b` |
| Cases.DashBetweenSpaces | stelm/tests.py:363-368 | both em-dashers turn `a -- b` into `a `, U+2014 and resume at ` b` |
| Cases.DashAtStart | stelm/tests.py:370-375 | both em-dashers turn `-- b` into U+2014 and resume at ` b` |
| Cases.RuleBetweenNewlines | stelm/tests.py:387-392 | the ruler turns `a\n----\nb` into `a`, `<hr/>` and resumes at `b` |

## Left out

- `format`'s HTML-escaping pre-pass (`cgi.escape`) is a foreign library
  call. `Combinator.Format` joins the fragments of `ApplyQueue` without it.
- Class patching through `prepare`, the late imports that break the
  import cycle, and `__str__` are Python plumbing. The `Unit` datatype
  carries the marker and tags as data instead.
- Python's regular-expression engine is not modelled. Each pattern is a
  leftmost scanner, and its doc comment explains why backtracking cannot
  change the result.
- The Unicode `\w` table is not modelled: `\w` is ASCII in every unit,
  including the `re.U` patterns of the hashtagger and the substitutor.
  Unicode `\s` is modelled as an explicit list of code points.
- Recursion depth, stack limits and performance are not modelled.
- Tests in stelm/tests.py that exercise a different revision are not
  modelled. These are the word-boundary marker start, inline code spans,
  link trimming, protocol classes, href escaping, `Linker.configure` and
  `combinator.Dasher`.
- Whole-text cases of stelm/tests.py are not proved on their literal
  strings, because unfolding the dispatcher on a concrete string is too
  costly for the verifier. General lemmas cover these shapes:
  - a span whose inner text holds neither its marker nor a backslash
    (MarkerSpan, MarkerWraps);
  - an unmatched marker (MarkerUnmatched);
  - a fully quoted text (EscapeRoundTrip);
  - a closed pre-block (PreContentVerbatim);
  - a link with or without text (LinkApply, LinkAlone, LinkWithText,
    LinkQuoted).
- No lemma covers these whole-text cases:
  - a span whose inner text holds its own marker, as in `*2*2=4*` at
    stelm/tests.py:46-84;
  - backslashes inside or before a span, at stelm/tests.py:114-119 and
    141-164. The close search past backslashes is stated by
    SeekFromParity, but no lemma carries it through the dispatcher;
  - several spans in one text, at stelm/tests.py:131-139. DispatchStep
    chains rounds, but no lemma states the result for a sequence of
    spans;
  - a pre-block inside a marker span, at stelm/tests.py:188-191;
  - an escaped quote in link text, markup around a link and markup in
    link text, at stelm/tests.py:252-267.
- The ruler cases of stelm/tests.py:394-413 are not proved on their
  literal strings, for the same reason. RuleShape and RuleLineFound
  state what they check for every text.
- The `HashTagger.apply(self)` arity defect is not modelled. The
  hashtagger is not in the queue, so nothing calls it with arguments;
  `HashTagger.HashApply` uses the offset given at construction.
- Combinator.Format: carries no contract of its own; its properties are
  stated through ApplyQueue (EscapeRoundTrip, PlainTextPassesThrough).
- Combinator.Apply: only the escaper's `apply` demands a bid
  (`requires`), because the source's escaper has no no-bid branch; the
  dispatcher only ever applies a unit that has bid.

## Findings

| source | as written | input that shows it | evidently intended | confidence | as-written member | corrected member |
|---|---|---|---|---|---|---|
| stelm/escaper.py:51 | `Escaper.apply(self)` takes no arguments, but `applyQueue` calls `apply(s, pos)` (stelm/combinator.py:77), so every round the escaper wins raises `TypeError` | `\*` (any text with a backslash before a non-newline at the cursor) | apply the escaper at the offset it was constructed with, as every other unit does | not executed | Properties.EscapeRaisesAsWritten | Properties.EscapeRoundTrip |
| stelm/hashtagger.py:54 | `getStart` returns `self.hit and self.hit.start() or None`, which turns a match at offset 0 into no bid | `#foo` | report offset 0 like any other offset | not executed | HashTagger.HashBidLosesOffsetZero | HashTagger.HashBidIntended |
