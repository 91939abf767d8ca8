# Commit parsing and grouping, modelled in Dafny

This project models the commit parser and the commit grouping of a changelog library.

The parser takes one `|`-delimited history record and produces a structured commit. It does four things:
- it classifies the subject line against the Conventional Commits 1.0.0 subject grammar `type(scope)!: description`;
- it detects breaking changes from the `!` marker or from a `BREAKING CHANGE:` footer in the body;
- it collects issue and pull-request references from the description and the body, and deletes the pull-request markers from the description;
- it reads `Co-authored-by:` trailers from the body into the list of authors.

The grouping folds a list of commits into an insertion-ordered map from a group key to the commits under that key.

JavaScript has regular expressions; Dafny has none. Each of the four patterns is therefore modelled twice:
- as a declarative predicate saying what a match is: `ValidParse`, `ValidHit` and `ValidCo`;
- as a hand-written backtracking matcher: `SubjectMatch`, `HitAt` with `Scan`, and `CoAt` with `CoScan`.

The matcher is proved to report a match exactly when the predicate admits one. It also reports the same match a JavaScript engine does: the leftmost start, and at each quantifier the greedy choice first.

Modules, one file each:
- `Wrappers` (`wrappers.dfy`) holds `Option`, standing for `undefined`, and `Result`, standing for a thrown error.
- `Seqs` (`seqs.dfy`) holds the key order of a JavaScript `Map`, written `Dedup`.
- `Text` (`text.dfy`) holds:
  - the character classes `\s`, `.`, `\d` and `[a-z]` under the `i` flag;
  - `split` and `join`;
  - `filter(Boolean)`;
  - `trim()`;
  - ASCII lower-casing.
- `Records` (`records.dfy`) holds `parseRawCommit`.
- `Conventional` (`conventional.dfy`) holds the subject pattern and the breaking-footer test.
- `References` (`references.dfy`) holds the two reference patterns and `extractReferences` with its inner `append`.
- `CoAuthors` (`coauthors.dfy`) holds the co-author pattern and `extractAuthors`.
- `Classify` (`classify.dfy`) holds `parseCommit`.
- `Grouping` (`grouping.dfy`) holds `groupByType` and the defaults of its options.

How JavaScript behaviour is modelled:
- A field that JavaScript destructuring leaves `undefined` is `None`.
- `parseCommit` on a record without a subject returns `Failure(MessageUndefined)`. The JavaScript code throws a `TypeError` there.
- `extractReferences`, `append`, `extractAuthors` and `groupByType` update local collections in loops. They are written as Dafny methods with loops, and each is proved equal to a specification function. The properties are proved about that function.
- `parseRawCommit` and `parseCommit` are pure functions in the source, so they are Dafny functions here.

## Model

| member | source | states |
|---|---|---|
| Records.ParseRawCommit | src/parse.ts:18-30 | definition of `parseRawCommit` (no contract of its own); its properties are stated by Records.RecordWithTrailingSegments, Records.FormatParseRoundTrip, Records.MissingFields and Records.BodyDelimiterFree |
| Records.RecordWithTrailingSegments | src/parse.ts:18-30 | six delimiter-free leading fields followed by delimiter-free trailing segments come back positionally as shortHash, hash, subject, author name, author e-mail and date; the body is the non-empty trailing segments joined by a newline |
| Records.FormatParseRoundTrip | src/parse.ts:18-30 | a record laid out as `%h`, `%H`, `%s`, `%an`, `%ae`, `%ad`, `%b` joined by the delimiter, from delimiter-free fields is parsed back into exactly those fields, all present |
| Records.MissingFields | src/parse.ts:19 | field i (hash, subject, name, e-mail, date) is defined exactly when the record has at least i delimiters; with fewer than six delimiters the body is empty |
| Records.BodyDelimiterFree | src/parse.ts:19-20 | the body never contains the delimiter: the delimiters after the sixth field become line breaks |
| Text.Split | src/parse.ts:19 | definition of `split` with a one-character separator: at least one piece, and no piece contains the separator; the other properties are stated by Text.SplitLength, Text.JoinSplit and Text.SplitJoin |
| Text.DropEmpty | src/parse.ts:20 | `filter(Boolean)`: every piece kept is non-empty and one of the input pieces; every non-empty input piece is kept; input pieces that are all non-empty come back unchanged |
| Text.DropEmptyAppend | src/parse.ts:20 | the filter keeps the order of the pieces: filtering a concatenation is concatenating the filters |
| Text.DropEmptySingle | src/parse.ts:20 | a single piece is kept exactly when it is non-empty |
| Text.SplitLength | src/parse.ts:19 | `split` gives one piece more than there are separators |
| Text.JoinSplit | src/parse.ts:19 | joining the pieces of `split` with the separator gives the string back |
| Text.SplitJoin | src/parse.ts:19 | splitting a join of separator-free pieces gives the pieces back |
| Text.Trim | src/parse.ts:61 | definition of `trim()` (no contract of its own); its properties are stated by Text.TrimSpec, Text.TrimOfUnique and Text.TrimIdempotent |
| Text.TrimSpec | src/parse.ts:61 | `trim()` removes a white-space prefix and a white-space suffix, and the result neither starts nor ends with white space |
| Text.TrimOfUnique | src/parse.ts:61 | there is only one such result |
| Text.TrimIdempotent | src/parse.ts:61 | trimming twice is trimming once |
| Conventional.SubjectMatch | src/parse.ts:96 | definition of `message.match(ConventionalCommitRegex)` as a backtracking scan (no contract of its own); its properties are stated by Conventional.SubjectMatchSpec, Conventional.MatchIsFirst, Conventional.MatchFromSound and Conventional.MatchFromBest |
| Conventional.SubjectMatchSpec | src/parse.ts:6 | the matcher reports a match exactly when the subject pattern matches somewhere; the match it reports is valid and precedes every other valid match in backtracking order (leftmost, then greedy) |
| Conventional.MatchIsFirst | src/parse.ts:6 | a valid match that precedes every other valid match in backtracking order is the one reported |
| Conventional.MatchFromSound | src/parse.ts:6 | every match the scan from a position reports is a valid match |
| Conventional.MatchFromBest | src/parse.ts:6 | the scan from a position finds a match whenever one starts at or after it, and the match it finds comes first |
| Conventional.MatchAtBest | src/parse.ts:6 | at a fixed start, the matcher finds the first match in backtracking order |
| Conventional.TryEmojiBest | src/parse.ts:6 | `:.+:` is tried longest first, and backtracking to a shorter emoji is complete |
| Conventional.RestBest | src/parse.ts:6 | after the emoji, ` *`, `[a-z]+`, the optional scope, `!` and `: .+` find the first match in backtracking order |
| Conventional.TryScopeBest | src/parse.ts:6 | the scope `.+` closes at the last `)` on the line after which the rest of the pattern still matches |
| Conventional.TypeIsGreedy | src/parse.ts:6 | in any match the spaces and the type are maximal runs, and a scope is present exactly when the type is followed by `(` |
| Conventional.Groups | src/parse.ts:98-104 | definition of the named groups `type`, `scope`, `breaking` and `description` of a match (no contract of its own); their properties are stated by Conventional.GroupsShape and Conventional.MatchSubject |
| Conventional.GroupsShape | src/parse.ts:6 | the type group is a non-empty run of ASCII letters, and the description is non-empty and on one line |
| Conventional.MatchSubject | src/parse.ts:6 | the groups are present exactly when the pattern matches; when present, the type is non-empty letters and the description is non-empty and on one line |
| Conventional.FormatSubjectRoundTrip | src/parse.ts:6 | a subject written as `type(scope)!: description` is read back as its own parts. This needs a letter type, a one-line scope and description, and no `": "` in a description that follows a scope |
| Conventional.LeadingWordSkipped | src/parse.ts:6 | the pattern is unanchored: a leading word and a space are skipped, and the type is the word after them |
| Conventional.UnanchoredSubject | src/parse.ts:6 | `"Update readme: x"` has type `readme` |
| Conventional.ScopedSubject | src/parse.ts:6 | `feat(ui): add button (#42)` has type `feat`, scope `ui`, no `!`, and description `add button (#42)` |
| Conventional.BreakingSubject | src/parse.ts:6 | `feat!: drop old API` has the breaking group |
| Conventional.NoSeparatorNoMatch | src/parse.ts:6 | a subject without `": "` is not conventional |
| Conventional.PlainSubject | src/parse.ts:6 | `Update readme with examples` is not conventional |
| Conventional.SearchFooter | src/parse.ts:105 | the search from a position reports true exactly when a breaking-change footer starts at or after it; Conventional.BreakingFooter states the footer test in full |
| Conventional.BreakingFooter | src/parse.ts:105 | the body test holds exactly when `breaking`, then a space or `-`, then `change`, an optional `s` and `:` occur somewhere, in any ASCII case |
| Conventional.PluralFooter | src/parse.ts:105 | `BREAKING CHANGES: …` is a breaking footer |
| Conventional.FooterAnywhere | src/parse.ts:105 | the footer test is unanchored: a footer anywhere in the body is found |
| Conventional.HyphenFooter | src/parse.ts:105 | a hyphenated lower-case footer on a later line is found |
| References.HitAtSound | src/parse.ts:9-10 | what the reference matcher reports at a position is a match of the pattern |
| References.HitAtComplete | src/parse.ts:9-10 | when the pattern matches at a position, the matcher finds a match there. For the pull-request pattern it is that match; for the issue pattern its digits run at least as far |
| References.NoHitInside | src/parse.ts:9-10 | no match starts strictly inside another match of the same pattern |
| References.Scan | src/parse.ts:43-50 | the hits of `matchAll` from a position lie in the text at or after it, each capture inside its hit, in order and without overlap; Dafny definition of the scan, whose properties are also stated by References.ScanSound and References.ScanComplete |
| References.Captures | src/parse.ts:43-50 | definition of `match[1]` of each hit of `matchAll` (no contract of its own); its properties are stated by References.CapturesAreValues, References.ScanSound and References.ScanComplete |
| References.ScanSound | src/parse.ts:43 | every hit of `matchAll` is the pattern's match at its start |
| References.ScanComplete | src/parse.ts:49 | `matchAll` reports a hit at every position where the pattern matches |
| References.CapturesAreValues | src/parse.ts:44 | every captured value is `#` followed by one or more digits |
| References.RemovePullRequests | src/parse.ts:61 | definition of `replace(PullRequestRE, "")` (no contract of its own); its properties are stated by References.RemoveKeepsUncovered and References.RemoveWithoutMarkers |
| References.RemoveKeepsUncovered | src/parse.ts:61 | `replace(PullRequestRE, "")` keeps exactly the characters outside the pull-request matches, in order |
| References.RemoveWithoutMarkers | src/parse.ts:61 | a description without pull-request markers is left unchanged |
| References.Put | src/parse.ts:45 | `refs.set`: a present key keeps its position and takes the new type; a new key goes last; the keys stay distinct |
| References.Append | src/parse.ts:41-53 | the two loops of `append`: every pull-request capture is set to `pull-request`, then each issue capture not yet present is added as `issue` |
| References.Passes | src/parse.ts:55-58 | definition of the four passes of `append` over description and body: the reference keys are distinct; the rest is stated by References.PassesTyped and References.PassesValues |
| References.PassesTyped | src/parse.ts:55-58 | the four passes give the distinct captures in order of first occurrence: description PRs, description issues, body PRs, body issues. Each is typed `pull-request` exactly when some pull-request capture of the description or the body has that value. A later PR hit retypes a key in place |
| References.PassesValues | src/parse.ts:55-58 | every reference value is a `#` and digits |
| References.ExtractReferences | src/parse.ts:38-64 | the references are distinct, each a `#` and digits, and cover every capture. They are in first-occurrence order, and typed `pull-request` exactly when a pull-request marker carries them. The cleaned description is the description without its pull-request markers, trimmed |
| References.PullRequestBeforeIssue | src/parse.ts:41-61 | for the description `#1 (#2)`: the references are `[#2 pull-request, #1 issue]`, and the cleaned description is `#1` |
| References.TrailingPullRequest | src/parse.ts:41-61 | for the description `add button (#42)`: the one reference is `#42 pull-request`, though the issue pass sees `#42` too, and the cleaned description is `add button` |
| CoAuthors.CoAt | src/parse.ts:8 | one attempt of the trailer pattern at a position: a reported match starts there and its keyword, name, `<` and `>` are in order inside the text; its full property is stated by CoAuthors.CoAtSpec |
| CoAuthors.CoAtSpec | src/parse.ts:8 | the trailer matcher at a position reports a match exactly when the pattern matches there. The match is valid and is the one the engine prefers: most white space, then the longest name, then the longest e-mail |
| CoAuthors.CoScan | src/parse.ts:76 | definition of `body.matchAll(CoAuthoredByRegex)`: every reported match is well placed in the body; its properties are stated by CoAuthors.CoScanSound, CoAuthors.MatchAllOrdered and CoAuthors.CoScanComplete |
| CoAuthors.CoScanSound | src/parse.ts:76 | every match `matchAll` reports is a valid match, found by the matcher at its start |
| CoAuthors.MatchAllOrdered | src/parse.ts:76 | the reported matches are in body order and do not overlap |
| CoAuthors.CoScanComplete | src/parse.ts:76 | every place where the pattern matches lies within a reported match |
| CoAuthors.CoAuthor | src/parse.ts:77-80 | definition of the author pushed for one match, its name and e-mail groups trimmed (no contract of its own); its shape is stated by CoAuthors.AuthorsShape |
| CoAuthors.AuthorsOf | src/parse.ts:73-84 | definition of the result of `extractAuthors` (no contract of its own); CoAuthors.ExtractAuthors proves the loop equal to it, and CoAuthors.AuthorsShape and CoAuthors.TwoTrailers state its properties |
| CoAuthors.ExtractAuthors | src/parse.ts:73-84 | the loop gives the primary author followed by one trimmed name and e-mail per reported match, in order |
| CoAuthors.AuthorsShape | src/parse.ts:77-80 | every appended author has a name and an e-mail, each trimmed and on one line |
| CoAuthors.TrailerRoundTrip | src/parse.ts:8 | the body `Co-authored-by: name <email>` gives back the primary author and `{name, email}`. This needs a non-empty one-line name and e-mail without surrounding white space, and an e-mail without `<` or `>` |
| CoAuthors.TwoTrailers | src/parse.ts:73-84 | a body of two trailer lines `Co-authored-by: name <email>` joined by a line break gives the primary author, then the first and the second co-author, each read back as written, under the same conditions as CoAuthors.TrailerRoundTrip |
| Classify.ParseCommit | src/parse.ts:92-128 | parsing fails exactly when the subject is `undefined`; otherwise shortHash, hash, subject, body and date are carried over unchanged |
| Classify.ConventionalCommit | src/parse.ts:96-99 | `isConventional` holds exactly when the subject pattern matches. The type and scope are then the groups of the reported match, and the type is non-empty letters |
| Classify.NonConventionalCommit | src/parse.ts:96-100 | an unmatched subject gives type `""` and no scope. The description comes from the whole subject, and the commit is breaking exactly when the body has a footer |
| Classify.BreakingCommit | src/parse.ts:103-106 | `isBreaking` holds exactly when the subject has the `!` group or the body has a breaking-change footer |
| Classify.CommitReferences | src/parse.ts:100-109 | the references and description of a commit are those of `extractReferences` on the raw description (the matched description, or the whole subject) and the body. The references are distinct `#`-numbers in first-occurrence order, typed by pull-request membership |
| Classify.CommitAuthors | src/parse.ts:112 | the authors are the primary author followed by one trimmed name and e-mail per co-author trailer; the k-th co-author comes from the k-th trailer match in body order |
| Classify.FormattedCommit | src/parse.ts:96-106 | a subject written as `type(scope)!: description` is conventional, with that type and scope. It is breaking exactly when the `!` is written or the body has a footer |
| Classify.RecordClassified | src/parse.ts:18-128 | end to end, a well-formed record with a formatted subject becomes a commit with those hashes, date, body, primary author, type and scope |
| Classify.ScopedCommit | src/parse.ts:92-128 | the subject `feat(ui): add button (#42)` with an empty body gives a conventional, non-breaking commit of type `feat` and scope `ui`, with description `add button` and the one reference `#42 pull-request` |
| Classify.CoAuthoredCommit | src/parse.ts:112 | a body of two co-author trailers gives three authors: the primary author, then the two co-authors in body order |
| Grouping.Resolve | src/grouping.ts:48-52 | each option that is given is used as given, and each option that is absent takes its own default (`true`, `"misc"`, `[]`) whatever the other options are |
| Grouping.Defaults | src/grouping.ts:48-52 | without options, non-conventional commits are included under `"misc"` and nothing is excluded |
| Grouping.CustomKeyOnly | src/grouping.ts:48-74 | with only `nonConventionalKey` given, a non-conventional commit is still included and is filed under that key |
| Grouping.KeyOf | src/grouping.ts:57-74 | definition of the key one pass of the loop files a commit under, or none when a `continue` skips it (no contract of its own); its property is stated by Grouping.KeyOfSpec |
| Grouping.KeyOfSpec | src/grouping.ts:58-74 | a commit is filed under key k exactly when k is not excluded and one of two cases holds. A conventional commit: k is its lower-cased type, and k is not empty. A non-conventional commit: such commits are included and k is the non-conventional key |
| Grouping.Add | src/grouping.ts:76-78 | `get`, `push`, `set`: the key is in the map afterwards; what the adds build up is stated by Grouping.GroupedSpec |
| Grouping.Grouped | src/grouping.ts:56-79 | definition of the map after the loop as a fold (no contract of its own); Grouping.GroupByType proves the loop equal to it, and Grouping.GroupedSpec, Grouping.GroupsSound, Grouping.GroupKeys and Grouping.GroupSizes state its properties |
| Grouping.GroupByType | src/grouping.ts:44-82 | the loop with its `continue`s and `get`/`push`/`set` computes the fold `Grouped` over the commits |
| Grouping.GroupedSpec | src/grouping.ts:56-79 | the map's keys are the distinct keys of the kept commits, in order of first occurrence. The map holds exactly those keys, and each group holds the kept commits with that key, in input order |
| Grouping.GroupsSound | src/grouping.ts:62-78 | the keys are distinct and every group is non-empty. Each commit in a group is filed under that group's key, so no commit is in two groups. Every commit that is not skipped is in the group of its key |
| Grouping.GroupKeys | src/grouping.ts:58-74 | no group has an excluded key. A grouped conventional commit has a non-empty type, and its key is that type lower-cased. A grouped non-conventional commit needs them included and sits under the non-conventional key. The empty key can only be the non-conventional key |
| Grouping.GroupSizes | src/grouping.ts:56-79 | the group sizes add up to the number of commits that are not skipped |

## Left out

- The history source is not part of this model: src/git.ts runs `git log` in a child process and splits its output into records. The same goes for the wiring in src/commits.ts and src/index.ts.
- The subject pattern's pictograph alternatives of the emoji group are not modelled: the surrogate-pair ranges and `[☀-⭕]`. Only the `:…:` shortcode form is. A pictograph is neither a letter, a space nor `:`. A match that starts with a pictograph therefore has the same groups as the match the model finds one position later, so the groups do not change.
- Strings are sequences of Unicode scalar values, not UTF-16 code units. A character outside the Basic Multilingual Plane counts as one character here.
- `\s` and `trim()` use the full JavaScript white-space set. `.` excludes `\n`, `\r`, U+2028 and U+2029. The `i` flag folds ASCII letters only, which is exact for these patterns, whose literals are all ASCII.
- Grouping.KeyOfSpec: `toLowerCase()` is modelled on ASCII letters only. Other characters are kept as they are.
- The date is an opaque string and is never parsed.
- References.RemovePullRequests: it is not claimed to be idempotent. Deleting a marker can join text into a new marker, as in `((#1)#2)`.
- A JavaScript `Map` is modelled as a key sequence in insertion order with a Dafny `map` beside it. A group array that `push` updates in place is modelled as a new sequence stored back under its key. The source sets the array straight back, so no aliasing is observable.
- Where the field types and the code disagree, the code is followed:
  - the type declarations say `scope: string`, but `scope` is `None` when the subject has no scope group;
  - a record with fewer than six fields leaves the later fields `undefined`;
  - the shorter five-field records used in the tests shift the fields, so only their subject, body and reference expectations are reflected here.
