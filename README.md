# RefineLab core, modelled in Dafny

RefineLab is a writing-feedback web application. Students upload essays as PDF, DOCX or image files, or paste them. The server extracts and cleans the text and picks out the teacher comments in it. A language model analyses the essay. The pages then show scores, trends and lessons.

This project models the parts of the application that decide things:

- **Document processing** (`DocumentProcessor`, `Normalize`, `JsonSpan`):
  - choosing the extractor by file-name suffix;
  - assembling PDF pages;
  - the PDF, DOCX and OCR cleanup chains;
  - the heuristic teacher-comment filter;
  - picking the JSON array out of the model's reply;
  - the de-duplicating merge of the two comment lists.
- **Lessons endpoint** (`LessonsRoute`): the catalogue table, and lookup by id or by category behind the sign-in check.
- **Navigation bar** (`Navigation`): which entry is highlighted for a path, and the avatar letter.
- **Essay list** (`EssaysList`): case-insensitive search, the four sort modes, the score badge and the count label.
- **Upload form** (`Upload`): the progress and loading state machine, submit validation, and the default title taken from the file name.
- **Compare form** (`Compare`): validation order, the ±0.05 trend classification and signed percentages.
- **Dashboard** (`Dashboard`): the recent list, the growth chart, the averages, the weekly count and the greeting.
- **Settings** (`Settings`): the notification toggles, the theme buttons and the avatar initials.
- **Language-model helpers** (`Ai`): which text of a reply is parsed, the numbered weakness list, and the essay excerpts of the fingerprint prompt.

**Shared modules.**
- `Text` holds the JavaScript string operations over `seq<char>`: `\s`, `\w`, `trim`, ASCII case mapping, `split`/`join`, number formatting and `Math.round` as `floor(x + 0.5)`.
- `Fetch` holds the shape of a server reply as a client handler sees it.
- `Wrappers` holds `Option` and `Result`.

**What enters as parameters.** Each outside library is replaced by a parameter holding what it hands back:
- pdf.js: the text items of each page; mammoth: the raw text; Tesseract: the recognised text;
- the thirteen comment regular expressions: their capture groups;
- the Gemini call: its reply; `JSON.parse`: its value;
- `fetch`: the `Reply` each handler awaits;
- the clock: the current time;
- `localeCompare`: a collation rank.

**Comment extraction.** In `ExtractComments` the loop body calls `Accepted`, which performs the inline trim and checks of `extractComments` in the same order.

**Form state.** The state of the three forms (`Upload.UploadForm`, `Compare.CompareForm`, `Settings.SettingsForm`) is a class. Every asynchronous handler is split into the part before its `await` and the part after it. A `Handle…` method runs both parts in sequence.

**Behaviour the model keeps although it may surprise:**
- A failed `fetch` during upload leaves the progress bar at 30. A failed response leaves it at 70.
- The default title is only set when the title was empty *when the file was chosen*, because the handler's closure captures it.
- A name that starts with a space is greeted as "Student", because `split(' ')[0]` is then empty.
- After OCR cleanup no line break is left, because the `\s+` pass runs before the blank-line pass.

## Model

| member | source | states |
|---|---|---|
| DocumentProcessor.PageText | lib/document-processor.ts:33-37 | a page's items joined by single spaces, closed by "\n\n" |
| DocumentProcessor.PagesText | lib/document-processor.ts:28-37 | the text the page loop accumulates, page after page in order; its shape is stated by PagesTextPage and PagesTextAppend |
| DocumentProcessor.PagesTextPage | lib/document-processor.ts:28-37 | the assembled text is page 1's items joined by spaces plus "\n\n", then page 2's, up to the last page |
| DocumentProcessor.PagesPrefixStep | lib/document-processor.ts:28-37 | one more page extends the assembled text by that page's text |
| DocumentProcessor.PagesTextAppend | lib/document-processor.ts:28-38 | assembling two runs of pages one after the other gives the concatenation of their texts |
| DocumentProcessor.PagesTextEnds | lib/document-processor.ts:37 | a text assembled from at least one page ends with "\n\n" |
| DocumentProcessor.AssemblePdfText | lib/document-processor.ts:25-38 | the page loop's `fullText` is exactly the assembled text of the pages, in order 1..numPages |
| DocumentProcessor.CleanPdfText | lib/document-processor.ts:41-56 | the cleaned PDF text has no '\r', no two adjacent spaces, no three consecutive line feeds, no leading or trailing whitespace, and no character that was not in the input except '\n' and ' ' |
| DocumentProcessor.PdfChainChars | lib/document-processor.ts:41-56 | through the PDF chain, no '\r' comes back and no character appears that was not in the input except '\n' and ' ' |
| DocumentProcessor.PdfChainRuns | lib/document-processor.ts:48-56 | after the space and blank-line passes, joining lines, splitting paragraphs and trimming bring back no double space and no triple line feed |
| DocumentProcessor.ExtractTextFromPdf | lib/document-processor.ts:18-70 | a failed load gives the PDF error; otherwise the text is the cleaned page text, with no comments and metadata ("uploaded.pdf", "pdf", page count) |
| DocumentProcessor.CleanDocxText | lib/document-processor.ts:77-82 | DOCX output has no '\r', no three consecutive '\n', no two adjacent spaces, and no leading or trailing whitespace |
| DocumentProcessor.CleanDocxIdempotent | lib/document-processor.ts:77-82 | cleaning DOCX text twice gives the same text as cleaning it once |
| DocumentProcessor.CleanDocxFacts | lib/document-processor.ts:80-82 | after the line-feed pass, collapsing spaces and trimming leave no '\r', triple line feed or double space |
| DocumentProcessor.ExtractTextFromDocx | lib/document-processor.ts:72-95 | mammoth failing gives the DOCX error; otherwise the cleaned text with metadata ("uploaded.docx", "docx") |
| DocumentProcessor.CleanOcrText | lib/document-processor.ts:104-111 | OCR output has no '\|', '[' or ']', no whitespace except single spaces (so no line break), and no leading or trailing whitespace |
| DocumentProcessor.CleanOcrFacts | lib/document-processor.ts:110-111 | after artifact removal and whitespace collapse, the blank-line pass and trimming keep the text free of artifacts, double spaces and any whitespace but ' ' |
| DocumentProcessor.ExtractTextFromImage | lib/document-processor.ts:97-124 | Tesseract failing gives the image error; otherwise the cleaned text with metadata ("uploaded-image", "image") |
| DocumentProcessor.PunctuationRuns | lib/document-processor.ts:152 | the count of `[.!?]+` runs never exceeds the comment's length |
| DocumentProcessor.PunctuationRunsZero | lib/document-processor.ts:152 | a comment has no punctuation runs exactly when it contains none of '.', '!', '?' |
| DocumentProcessor.Accepted | lib/document-processor.ts:149-156 | a match contributes its trimmed group exactly when the group is present and the trimmed text is 11 to 499 characters long with at most five runs |
| DocumentProcessor.MatchComments | lib/document-processor.ts:148-157 | every comment kept from one pattern's matches passes the filter and is trimmed |
| DocumentProcessor.MatchCommentsComplete | lib/document-processor.ts:148-157 | every match the filter accepts is among that pattern's comments |
| DocumentProcessor.Candidates | lib/document-processor.ts:146-158 | every heuristic candidate, over all patterns, passes the filter and is trimmed |
| DocumentProcessor.CandidatesComplete | lib/document-processor.ts:146-158 | every accepted match of every pattern is among the heuristic candidates |
| DocumentProcessor.MatchCommentsPrefix | lib/document-processor.ts:148-157 | a comment kept from the earlier matches stays among the pattern's comments when one more match follows |
| DocumentProcessor.MatchCommentsLast | lib/document-processor.ts:148-157 | the last match's comment, when accepted, is among the pattern's comments |
| DocumentProcessor.CandidatesSplit | lib/document-processor.ts:146-158 | a comment of the earlier patterns or of the last pattern is among all candidates |
| DocumentProcessor.MatchCommentsStep | lib/document-processor.ts:148-156 | one more match extends a pattern's comments by its accepted text, if any |
| DocumentProcessor.CandidatesStep | lib/document-processor.ts:146-157 | one more pattern extends the candidates by that pattern's comments |
| DocumentProcessor.PushStep | lib/document-processor.ts:148-156 | pushing the accepted text of one more match, if any, keeps `comments` equal to the comments of the matches read so far |
| DocumentProcessor.PushMatches | lib/document-processor.ts:148-157 | the inner loop appends exactly the pattern's comments, in match order, to what was collected before |
| DocumentProcessor.HeuristicComments | lib/document-processor.ts:146-158 | the two loops collect exactly the heuristic candidates of all patterns, pattern by pattern |
| DocumentProcessor.Position | lib/document-processor.ts:169 | the first occurrence of an element: it holds the element and nothing before it does |
| DocumentProcessor.PositionInPrefix | lib/document-processor.ts:169 | an element's first occurrence does not move when later elements are appended |
| DocumentProcessor.LastPosition | lib/document-processor.ts:169 | an element that does not occur before the last place first occurs at that place |
| DocumentProcessor.Dedup | lib/document-processor.ts:169 | `[...new Set(xs)]` has no duplicates, has the same elements as `xs`, and keeps them in order of first occurrence |
| DocumentProcessor.DedupPositions | lib/document-processor.ts:169 | first occurrences are the same before and after one element is appended |
| DocumentProcessor.DedupDistinct | lib/document-processor.ts:169 | a list without duplicates comes out of de-duplication unchanged |
| DocumentProcessor.LongerThanTen | lib/document-processor.ts:169 | `comments.filter(c => c.length > 10)`, in list order; its membership is stated by LongerThanTenMembers and its behaviour on joined lists by LongerThanTenAppend |
| DocumentProcessor.LongerThanTenMembers | lib/document-processor.ts:169 | the filter keeps exactly the comments longer than 10 characters |
| DocumentProcessor.LongerThanTenAppend | lib/document-processor.ts:163-169 | filtering the joined lists is filtering each list and joining the results |
| DocumentProcessor.MergeComments | lib/document-processor.ts:160-169 | the returned list has no duplicates and holds exactly the heuristic and AI comments longer than 10 characters |
| DocumentProcessor.MergeCommentsFacts | lib/document-processor.ts:169 | the merged comments are distinct and all longer than 10 characters |
| DocumentProcessor.PositionAppend | lib/document-processor.ts:163 | in `h + ai`, an element first occurs inside `h` exactly when it is in `h` |
| DocumentProcessor.HeuristicBeforeAi | lib/document-processor.ts:160-169 | in the merged list, every comment placed before a heuristic comment is itself a heuristic comment |
| DocumentProcessor.PromptExcerpt | lib/document-processor.ts:188 | the prompt carries at most the first 5000 characters of the text, and all of a shorter text |
| DocumentProcessor.AiComments | lib/document-processor.ts:208-222 | when the lazily matched bracket span of the reply parses to an array, the result is that array; a non-empty result always comes from such a parse; a failed call, no span, a failed parse or a non-array gives `[]` |
| DocumentProcessor.ExtractComments | lib/document-processor.ts:126-170 | the loops (run by `HeuristicComments`) collect exactly the heuristic candidates; the result is their merge with the AI comments, distinct and all longer than 10 characters |
| DocumentProcessor.FileKindOf | lib/document-processor.ts:229-245 | a lower-cased name ending ".pdf" is a PDF; else one ending ".docx" or ".doc" is DOCX; else ".jpg", ".jpeg" or ".png" is an image; anything else is unsupported |
| DocumentProcessor.FileKindIgnoresCase | lib/document-processor.ts:229 | the file type does not depend on the case of the name |
| DocumentProcessor.ProcessUploadedFile | lib/document-processor.ts:225-257 | per type, the extractor's own error (PDF, DOCX or image message) or its cleaned text; an unsupported name gives "Unsupported file type…"; comments are present exactly when the text is non-empty; `fileName` becomes the upload's name |
| JsonSpan.SkipSpaces | lib/document-processor.ts:213 | `\s*` consumes exactly the whitespace run at the position |
| JsonSpan.Closes | lib/ai.ts:119 | position k of the list is true exactly when k closes a group of the pattern |
| JsonSpan.FirstTrue | lib/document-processor.ts:213 | the search returns the first true position from the start, and none when there is none |
| JsonSpan.LastTrue | lib/ai.ts:119 | the search returns the last true position of the range, and none when there is none |
| JsonSpan.FirstClose | lib/document-processor.ts:213 | the lazy body ends at the first admissible closing bracket |
| JsonSpan.LastClose | lib/ai.ts:119 | the greedy body ends at the last admissible closing bracket |
| JsonSpan.GroupEnd | lib/ai.ts:119-202 | the group ends at the last admissible close for a greedy body and at the first for a lazy one; there is no end exactly when no close is admissible |
| JsonSpan.FenceOpening | lib/ai.ts:119 | a fenced match starts with "```", then an optional "json", then whitespace |
| JsonSpan.FencedAt | lib/ai.ts:119 | a fenced match's group opens with the opening bracket and ends with the closing one |
| JsonSpan.FencedAtClose | lib/ai.ts:119 | a fenced group ends at a close followed by whitespace and "```" |
| JsonSpan.Fences | lib/ai.ts:119 | position k of the list is the fenced match starting at k, if any |
| JsonSpan.Leftmost | lib/ai.ts:119 | the first position from the start that holds a match, and none when there is none |
| JsonSpan.FirstFence | lib/ai.ts:119 | the fenced pattern matches at the leftmost position where it can, and the match returned is the one at that position |
| JsonSpan.BareMatch | lib/ai.ts:119 | the bare pattern matches exactly when a close follows the first opening bracket; its group starts at that bracket and ends at the last close (greedy) or the first one (lazy) |
| JsonSpan.BareClose | lib/ai.ts:119 | outside a fence, a position closes the group exactly when it holds the closing bracket |
| JsonSpan.BareWitness | lib/ai.ts:119 | outside a fence, a close after the opening bracket exists exactly when an admissible end exists |
| JsonSpan.FindSpan | lib/ai.ts:119-120 | the span found by either pattern opens and closes with the shape's brackets |
| JsonSpan.JsonText | lib/ai.ts:119-120 | the parsed text is the matched slice, opening and closing with the brackets, or the whole reply when neither pattern matches |
| JsonSpan.FencePreferred | lib/ai.ts:119 | whenever any position starts a fenced match, the leftmost fenced match decides |
| JsonSpan.BareWhenNoFence | lib/ai.ts:119 | only when no fenced match exists does the bare pattern decide |
| Normalize.ReplaceCrLf | lib/document-processor.ts:43 | replacing "\r\n" by "\n" adds no character and leaves text without '\r' unchanged |
| Normalize.ReplaceCr | lib/document-processor.ts:44 | every remaining '\r' becomes '\n', position by position |
| Normalize.NormalizeLineBreaks | lib/document-processor.ts:43-44 | the line-break pass leaves no '\r', adds only '\n', and leaves text without '\r' unchanged |
| Normalize.CollapseSpaces | lib/document-processor.ts:48 | `/ +/g → ' '` leaves no two adjacent spaces and adds no character |
| Normalize.CollapseNewlines | lib/document-processor.ts:50 | `/\n{3,}/g → '\n\n'` leaves no three consecutive '\n' and adds no character |
| Normalize.CollapseWhitespace | lib/document-processor.ts:109 | `/\s+/g → ' '` leaves only single plain spaces as whitespace |
| Normalize.RemoveArtifacts | lib/document-processor.ts:108 | the OCR artifacts '\|', '[' and ']' are all removed and nothing is added |
| Normalize.SliceKeepsRuns | lib/document-processor.ts:56-82 | a slice of a text without double spaces or triple line feeds has none either |
| Normalize.CollapseSpacesKeepsNewlines | lib/document-processor.ts:80-81 | collapsing spaces after collapsing line feeds brings back no triple line feed |
| Normalize.CollapseSpacesStable | lib/document-processor.ts:81 | collapsing spaces changes nothing when there are no adjacent spaces |
| Normalize.CollapseNewlinesStable | lib/document-processor.ts:80 | collapsing line feeds changes nothing when there are no three in a row |
| Normalize.NoNewlineNoTriple | lib/document-processor.ts:110 | text without line feeds has no triple line feed, so the OCR blank-line pass does nothing |
| Normalize.WordRun | lib/document-processor.ts:46 | `\w+` consumes a non-empty prefix at a word character |
| Normalize.WordRunOf | lib/document-processor.ts:46 | `\w+` takes the whole run of word characters |
| Normalize.JoinHyphenated | lib/document-processor.ts:46 | `(\w+)-\n(\w+)` → `$1$2` over the whole text: the result is never longer than the input; JoinHyphenatedWord and JoinHyphenatedChars give what it joins and that it adds nothing |
| Normalize.SecondWordEnd | lib/document-processor.ts:46 | the second word of a hyphenated break ends after the line feed |
| Normalize.JoinHyphenatedChars | lib/document-processor.ts:46 | joining hyphenated words adds no character |
| Normalize.JoinHyphenatedWord | lib/document-processor.ts:46 | "word-\nword" becomes "wordword" |
| Normalize.JoinHyphenatedLast | lib/document-processor.ts:46 | a word, "-\n" and a second word that ends the text become the two words joined |
| Normalize.JoinLines | lib/document-processor.ts:52 | the length is kept, and a character changes only from '\n' to ' ' |
| Normalize.JoinLinesChars | lib/document-processor.ts:52 | joining lines adds no character other than ' ' |
| Normalize.JoinLinesComplete | lib/document-processor.ts:52 | afterwards no `[a-z,.]` is followed by a line feed and a lower-case letter |
| Normalize.JoinLinesNoBreakAtStart | lib/document-processor.ts:52 | where the pattern does not match at the front, the output does not start with a joinable break either |
| Normalize.SplitParagraphs | lib/document-processor.ts:54 | no character is added except the extra '\n', and the first character is kept |
| Normalize.SplitParagraphsComplete | lib/document-processor.ts:54 | afterwards no `[.!?]` is followed by a single line feed and a capital |
| Normalize.SplitParagraphsNoBreakAtStart | lib/document-processor.ts:54 | where the pattern does not match at the front, the output does not start with such a break |
| Normalize.SplitParagraphsKeepsFront | lib/document-processor.ts:54 | where the pattern does not match at the front, the first character is copied and the scan moves on by one |
| Normalize.TrimChars | lib/document-processor.ts:56 | `trim` adds no character |
| Normalize.CollapseNewlinesKeepsSpaces | lib/document-processor.ts:48-50 | the blank-line pass after the space pass makes no two spaces adjacent |
| Normalize.JoinLinesKeepsSpaces | lib/document-processor.ts:52 | joining lines makes no two spaces adjacent: the new space sits between a `[a-z,.]` and a `[a-z]` |
| Normalize.JoinLinesKeepsNewlines | lib/document-processor.ts:52 | joining lines only removes line feeds, so no run of three appears |
| Normalize.SplitParagraphsKeepsSpaces | lib/document-processor.ts:54 | splitting paragraphs adds only line feeds, so no two spaces become adjacent |
| Normalize.SplitParagraphsKeepsNewlines | lib/document-processor.ts:54 | a sentence break with a single line feed gets a second one, never a third |
| Normalize.SplitParagraphsSecond | lib/document-processor.ts:54 | a line feed at the front is copied with the input's next two characters behind it |
| Normalize.SplitBreakNewlines | lib/document-processor.ts:54 | the rewritten break `c`, two line feeds and a capital, starts no run of three line feeds |
| Normalize.SplitFrontNewlines | lib/document-processor.ts:54 | where the pattern does not match at the front, the copied first character starts no run of three line feeds |
| Normalize.SplitFrontNoTriple | lib/document-processor.ts:54 | the output starts with three line feeds only if the input does |
| Normalize.TrimKeepsRuns | lib/document-processor.ts:82-111 | `trim` brings back no double space and no triple line feed |
| Normalize.TrimKeepsSpaces | lib/document-processor.ts:111 | after `trim`, every whitespace character is still a plain space |
| LessonsRoute.LessonsWellFormed | app/api/lessons/route.ts:5-144 | the table has six lessons, each with four principles, four strategies and four checklist items |
| LessonsRoute.LessonIdsDistinct | app/api/lessons/route.ts:5-144 | lesson ids are pairwise distinct, so lookup by id is unambiguous |
| LessonsRoute.LessonCategoriesDistinct | app/api/lessons/route.ts:5-144 | no two lessons share a category |
| LessonsRoute.Truthy | app/api/lessons/route.ts:158-167 | a query parameter counts as given when it is present and not empty, as `if (lessonId)` and `if (category)` read it |
| LessonsRoute.FindLesson | app/api/lessons/route.ts:159 | `find` succeeds exactly when some lesson has the id, and then returns a lesson of the table with that id |
| LessonsRoute.FilterCategory | app/api/lessons/route.ts:168 | the filter keeps exactly the lessons whose category equals the parameter (case-sensitive) |
| LessonsRoute.FilterCategoryOrdered | app/api/lessons/route.ts:168 | the filtered lessons keep table order |
| LessonsRoute.Get | app/api/lessons/route.ts:146-178 | 500 when `auth()` throws; 401 without a user id, before any lookup; a truthy id takes precedence and gives its lesson or 404 "Lesson not found"; else exactly the category's lessons in table order (200 even when none); else the whole table. It holds for any table, and the route serves `Lessons` |
| Navigation.IsActive | components/navigation.tsx:58 | an entry is active exactly on its own path and on paths below it ("/href/…"); no path activates nothing |
| Navigation.EssaysExamples | components/navigation.tsx:58 | "/essaysX" does not activate "/essays"; "/essays" and "/essays/123" do |
| Navigation.ActivePrefix | components/navigation.tsx:58 | an active entry's href is a prefix of the path, followed there by '/' unless the path ends |
| Navigation.PrefixIndex | components/navigation.tsx:58 | a prefix and the path agree at every position of the prefix |
| Navigation.AtMostOneActive | components/navigation.tsx:58 | two different one-segment hrefs are never active together |
| Navigation.AtMostOneItemActive | components/navigation.tsx:29-58 | on every path, at most one entry of the navigation bar is highlighted |
| Navigation.AvatarInitial | components/navigation.tsx:86 | one character: the upper-cased first letter of the name, or "U" when the name is missing or empty |
| Navigation.AvatarIgnoresCase | components/navigation.tsx:86 | the avatar letter does not depend on the name's letter case |
| EssaysList.Matches | app/essays/EssaysClient.tsx:56-59 | the search test: the lower-cased title, or a present lower-cased assignment name, includes the lower-cased query |
| EssaysList.FilterEssays | app/essays/EssaysClient.tsx:56-59 | exactly the essays whose title or assignment name contains the query, ignoring letter case |
| EssaysList.FilterKeepsOrder | app/essays/EssaysClient.tsx:56-59 | the filtered essays keep list order |
| EssaysList.ContainsEmpty | app/essays/EssaysClient.tsx:57 | every string includes the empty string |
| EssaysList.EmptyQueryKeepsAll | app/essays/EssaysClient.tsx:56-59 | an empty search keeps every essay in order |
| EssaysList.Insert | app/essays/EssaysClient.tsx:61 | one insertion step of the stable sort adds exactly the inserted essay |
| EssaysList.InsertElements | app/essays/EssaysClient.tsx:61 | every element after an insertion is the inserted essay or was already there |
| EssaysList.SortByKey | app/essays/EssaysClient.tsx:61 | the sorted copy is a permutation of the filtered list |
| EssaysList.InsertSorted | app/essays/EssaysClient.tsx:61 | inserting into a sorted list keeps it sorted |
| EssaysList.SortKey | app/essays/EssaysClient.tsx:61-75 | the key whose difference each comparator case returns: minus the time, the time, the collation rank, minus the score sum, 0 for any other mode |
| EssaysList.SortedCons | app/essays/EssaysClient.tsx:61 | an essay whose key comes no later than the head of a sorted list can go in front of it |
| EssaysList.InsertHead | app/essays/EssaysClient.tsx:61 | inserting behind a head with a smaller or equal key keeps that head in front |
| EssaysList.SortByKeySorted | app/essays/EssaysClient.tsx:61 | the sorted copy is in ascending key order |
| EssaysList.InsertLast | app/essays/EssaysClient.tsx:61 | when every key of the list ties with the inserted essay's key, the essay goes last |
| EssaysList.SortByConstantKey | app/essays/EssaysClient.tsx:73-74 | with every key equal the sort keeps the order |
| EssaysList.WithKeyAppend | app/essays/EssaysClient.tsx:61 | the essays of one key in a concatenation are those of the first part, then those of the second |
| EssaysList.WithKeyAbsent | app/essays/EssaysClient.tsx:61 | a list with no essay of the key has none to keep |
| EssaysList.WithKeyCons | app/essays/EssaysClient.tsx:61 | an essay put in front contributes itself to its own key's class, first |
| EssaysList.InsertAfterHead | app/essays/EssaysClient.tsx:61 | an essay whose key is not smaller than the head's is inserted behind the head |
| EssaysList.InsertInFront | app/essays/EssaysClient.tsx:61 | an essay whose key is smaller than the head's is inserted in front |
| EssaysList.ConsWithKey | app/essays/EssaysClient.tsx:61 | putting one essay in front of two lists keeps the relation between their key classes |
| EssaysList.InsertFrontWithKey | app/essays/EssaysClient.tsx:61 | an essay inserted in front of a sorted list with larger keys has no essay of its key before it |
| EssaysList.InsertWithKey | app/essays/EssaysClient.tsx:61 | inserting into a sorted list puts the essay after every essay with the same key and leaves the other classes as they were |
| EssaysList.SortByKeyUnfold | app/essays/EssaysClient.tsx:61 | sorting a list inserts its last essay into the sorted rest |
| EssaysList.StableStep | app/essays/EssaysClient.tsx:61 | one insertion step keeps every key class in input order |
| EssaysList.SortByKeyStable | app/essays/EssaysClient.tsx:61 | the sort is stable: for every key, the essays with that key come out in their input order, whatever the other keys are |
| EssaysList.SortedEssaysStable | app/essays/EssaysClient.tsx:61-75 | essays that the chosen mode's comparator ranks equal keep their filtered order |
| EssaysList.SortedEssays | app/essays/EssaysClient.tsx:61-76 | sorting neither adds nor drops essays |
| EssaysList.NewestFirst | app/essays/EssaysClient.tsx:63-64 | `date-desc` gives non-increasing upload times |
| EssaysList.OldestFirst | app/essays/EssaysClient.tsx:65-66 | `date-asc` gives non-decreasing upload times |
| EssaysList.TitleOrder | app/essays/EssaysClient.tsx:67-68 | `title` gives non-decreasing collation rank of the titles |
| EssaysList.TotalScore | app/essays/EssaysClient.tsx:70-71 | thesisClarity + argumentDepth + structureBalance, each null counting as 0; the score sort and the badge use it |
| EssaysList.HighestScoreFirst | app/essays/EssaysClient.tsx:69-72 | `score` gives non-increasing thesisClarity+argumentDepth+structureBalance, with null as 0 |
| EssaysList.UnknownModeKeepsOrder | app/essays/EssaysClient.tsx:73-74 | any other mode has comparator 0 and keeps the filtered order |
| EssaysList.ScoreBadge | app/essays/EssaysClient.tsx:78-83 | with pct = round(score·100): pct ≥ 85 is 'default', 70 ≤ pct < 85 'secondary', else 'destructive'; the text is pct followed by '%' |
| EssaysList.ScoreBadgeMonotonic | app/essays/EssaysClient.tsx:78-83 | a higher score never gets a lower band |
| EssaysList.EssayBadge | app/essays/EssaysClient.tsx:161-162 | with pct = round(mean·100) over the three scores (null as 0): pct ≥ 85 is 'default', 70 ≤ pct < 85 'secondary', else 'destructive'; the text is pct followed by '%'; an unscored essay shows a destructive "0%" |
| EssaysList.CountLabel | app/essays/EssaysClient.tsx:95 | the label starts with the count, and ends " essay analyzed" exactly when the count is 1, " essays analyzed" otherwise |
| EssaysList.LabelShape | app/essays/EssaysClient.tsx:95 | the count and its tail start with the count and a space, end with the tail, and do not end with the other, one character longer or shorter, tail |
| EssaysList.ConcatEnds | app/essays/EssaysClient.tsx:95 | a concatenation starts with its first part and ends with its second |
| EssaysList.CountLabelInjective | app/essays/EssaysClient.tsx:95 | different counts give different labels |
| Fetch.ErrorOr | app/upload/UploadClient.tsx:48 | `data.error` when it is a non-empty string, else the fallback |
| Fetch.ReplyError | app/upload/UploadClient.tsx:46-61 | no error on success; the server's message or the fallback on a refused request; the catch message when anything threw |
| Upload.TrailingStemRun | app/upload/UploadClient.tsx:58 | the longest suffix with no '/' or '.' |
| Upload.ExtensionAt | app/upload/UploadClient.tsx:58 | `\.[^/.]+$` matches at a position: a '.' followed by at least one character, none of them '/' or '.', up to the end |
| Upload.ExtensionAtRun | app/upload/UploadClient.tsx:58 | `\.[^/.]+$` can match at only one position: the dot before that suffix |
| Upload.TitleStem | app/upload/UploadClient.tsx:58 | the stem is a prefix of the name; it differs from the name exactly when the name ends with a '.' and a non-empty run of characters other than '.' and '/', and then it is what precedes that '.' |
| Upload.StemUnchanged | app/upload/UploadClient.tsx:58 | whenever the pattern matches, it matches at the dot before the final run |
| Upload.TitleStemOfExtension | app/upload/UploadClient.tsx:58 | removing the extension undoes appending one: stem + "." + ext gives back the stem |
| Upload.TitleStemExamples | app/upload/UploadClient.tsx:58 | "essay.pdf" → "essay", "archive.tar.gz" → "archive.tar"; "notes", "draft." and "a.b/c" unchanged |
| Upload.ProgressAfter | app/upload/UploadClient.tsx:33-61 | the last progress value written is 100 exactly on success, 30 exactly when `fetch` threw, 70 otherwise |
| Upload.ProgressBarShown | app/upload/UploadClient.tsx:182 | the bar is drawn for `uploadProgress > 0 && uploadProgress < 100` |
| Upload.ProgressBarOnlyOnFailure | app/upload/UploadClient.tsx:33-64 | once a file change is over, the progress bar (shown for 0 < p < 100) remains exactly when it failed |
| Upload.SubmitError | app/upload/UploadClient.tsx:70-73 | submit stops with "Title and content are required" exactly when the title or the content is empty |
| Upload.EssayPath | app/upload/UploadClient.tsx:97 | the redirect is "/essays/" followed by the new essay's id |
| Upload.EssayPathInjective | app/upload/UploadClient.tsx:97 | different essays redirect to different pages |
| Upload.UploadForm.constructor | app/upload/UploadClient.tsx:17-24 | the initial state: empty fields, no file, not loading, progress 0, no comments |
| Upload.UploadForm.ProgressBarVisible | app/upload/UploadClient.tsx:182 | on the progress values the handlers write, the bar shows exactly at 30 and 70 |
| Upload.UploadForm.SetTitle | app/upload/UploadClient.tsx:221 | typing sets the title and nothing else |
| Upload.UploadForm.SetAssignmentName | app/upload/UploadClient.tsx:232 | typing sets the assignment name and nothing else |
| Upload.UploadForm.SetContent | app/upload/UploadClient.tsx:242 | typing sets the content and nothing else |
| Upload.UploadForm.BeginFileChange | app/upload/UploadClient.tsx:26-33 | no file: no change; otherwise the file is recorded, loading on, error cleared, progress 30 |
| Upload.UploadForm.CompleteFileChange | app/upload/UploadClient.tsx:44-64 | loading off on every path; progress per `ProgressAfter`; the error per `ReplyError`; on success the content and comments come from the reply (`[]` when absent), and the title becomes the file's stem only if it was empty at the start |
| Upload.UploadForm.HandleFileChange | app/upload/UploadClient.tsx:26-65 | no file changes nothing; a chosen file ends with loading off, progress `ProgressAfter(reply)`, an empty error exactly on success, the text, comments and title of a successful reply, and on failure the old text, comments and title with the reply's error message; the assignment name and redirect never change |
| Upload.UploadForm.BeginSubmit | app/upload/UploadClient.tsx:67-76 | an empty title or content sets the error and sends no request; otherwise loading on, error cleared, and the request carries the title, content, assignment and extracted comments |
| Upload.UploadForm.CompleteSubmit | app/upload/UploadClient.tsx:90-102 | loading off on every path; success redirects to the essay's page; otherwise the error per `ReplyError` |
| Compare.CompareError | app/compare/CompareClient.tsx:53-61 | a missing selection gives "Please select both essays to compare" and is checked before equality; equal ids give "Please select different essays"; otherwise no error |
| Compare.CompareDisabled | app/compare/CompareClient.tsx:183 | the button is enabled exactly when not loading and both ids are chosen |
| Compare.EnabledButtonPassesFirstCheck | app/compare/CompareClient.tsx:53-183 | a click on an enabled button is refused only for equal ids |
| Compare.DeltaIcon | app/compare/CompareClient.tsx:89-93 | above 0.05 TrendingUp, below -0.05 TrendingDown, otherwise Minus |
| Compare.DeltaColor | app/compare/CompareClient.tsx:95-99 | above 0.05 green, below -0.05 red, otherwise grey |
| Compare.IconMatchesColor | app/compare/CompareClient.tsx:89-99 | the icon's colour class is always the figure's colour |
| Compare.ThresholdsAreNeutral | app/compare/CompareClient.tsx:89-99 | exactly ±0.05 is neutral |
| Compare.DeltaColorMonotonic | app/compare/CompareClient.tsx:95-99 | a larger difference never gets a lower colour band |
| Compare.FormatDelta | app/compare/CompareClient.tsx:101-104 | '+' exactly for a positive difference; then round(delta·100), with '-' exactly when that is negative; then '%' |
| Compare.FormatDeltaExamples | app/compare/CompareClient.tsx:101-104 | 0.123 → "+12%", 0 → "0%", -0.004 → "0%", -0.25 → "-25%" |
| Compare.Metrics | app/compare/CompareClient.tsx:208-214 | the five score rows, in display order |
| Compare.CompareForm.constructor | app/compare/CompareClient.tsx:29-34 | the initial state: no essays, no selection, no comparison, not loading, no error |
| Compare.CompareForm.CompleteFetchEssays | app/compare/CompareClient.tsx:40-50 | a successful reply fills the selectors; a failure changes nothing |
| Compare.CompareForm.SelectBefore | app/compare/CompareClient.tsx:150 | choosing sets the first id only |
| Compare.CompareForm.SelectAfter | app/compare/CompareClient.tsx:166 | choosing sets the second id only |
| Compare.CompareForm.BeginCompare | app/compare/CompareClient.tsx:52-65 | a refused selection sets its message and sends nothing; otherwise loading on, error and previous comparison cleared, and the two ids requested |
| Compare.CompareForm.CompleteCompare | app/compare/CompareClient.tsx:67-86 | loading off on every path; success shows the comparison; otherwise the error per `ReplyError` |
| Compare.CompareForm.HandleCompare | app/compare/CompareClient.tsx:52-87 | a refused selection keeps the comparison and loading and shows its error; after an accepted one, loading is off, there is a comparison exactly when there is no error, a successful reply's data is the comparison shown and a failed one leaves its reply error; the essay list and both ids never change |
| Dashboard.RecentEssays | app/dashboard/DashboardClient.tsx:47 | the first min(4, n) essays |
| Dashboard.ViewAllWhenTruncated | app/dashboard/DashboardClient.tsx:47-213 | the "View all" link shows exactly when the recent list leaves essays out |
| Dashboard.Metric | app/dashboard/DashboardClient.tsx:51-54 | 0 for a null score; for a score in [0, 1], a value from 0 to 100 |
| Dashboard.MetricOfOrZero | app/dashboard/DashboardClient.tsx:51-54 | the falsy test changes nothing: each metric is round(100·(score or 0)) |
| Dashboard.PointName | app/dashboard/DashboardClient.tsx:50 | "Essay " followed by the one-based index |
| Dashboard.PointOf | app/dashboard/DashboardClient.tsx:49-55 | the body of the `map`: the point's name from its index and the four metrics of the essay |
| Dashboard.GrowthData | app/dashboard/DashboardClient.tsx:49-55 | min(6, n) points from the last six essays, in order, named "Essay 1".."Essay k", each with its four metrics |
| Dashboard.GrowthNamesDistinct | app/dashboard/DashboardClient.tsx:50 | the chart's points have pairwise different names |
| Dashboard.Average | app/dashboard/DashboardClient.tsx:57-63 | 0 without essays; otherwise round(100 · mean), with null as 0 |
| Dashboard.AvgClarity | app/dashboard/DashboardClient.tsx:57-59 | the clarity card: 0 without essays, and a percentage from 0 to 100 when every clarity score is in [0, 1] |
| Dashboard.AvgDepth | app/dashboard/DashboardClient.tsx:61-63 | the depth card: 0 without essays, and a percentage from 0 to 100 when every depth score is in [0, 1] |
| Dashboard.AverageBounded | app/dashboard/DashboardClient.tsx:57-63 | with every score in [0, 1], an average is between 0 and 100 |
| Dashboard.Sum | app/dashboard/DashboardClient.tsx:58-62 | the `reduce` over the essays, in order, adding each score with null as 0; its bounds are stated by SumBounds and SumOfEqual |
| Dashboard.SumBounds | app/dashboard/DashboardClient.tsx:58-62 | the sum of n scores in [0, 1] lies between 0 and n |
| Dashboard.AverageIsPercentage | app/dashboard/DashboardClient.tsx:57-124 | with scores in [0, 1], each average is a percentage from 0 to 100 |
| Dashboard.SumOfEqual | app/dashboard/DashboardClient.tsx:58-62 | n equal scores sum to n times that score |
| Dashboard.AverageOfEqual | app/dashboard/DashboardClient.tsx:57-63 | when every essay has the same score, the average is that score's rounded percentage |
| Dashboard.UploadedThisWeek | app/dashboard/DashboardClient.tsx:65-69 | the filter's test: uploaded strictly after one week before now |
| Dashboard.WeekEssays | app/dashboard/DashboardClient.tsx:65-69 | counts at most all essays, and all of them exactly when every essay is strictly newer than one week before now |
| Dashboard.WeekEssaysTail | app/dashboard/DashboardClient.tsx:65-69 | all essays are from the past week exactly when the first one and all the others are |
| Dashboard.WeekEssaysAntitone | app/dashboard/DashboardClient.tsx:65-69 | as time passes, the weekly count can only fall |
| Dashboard.Greeting | app/dashboard/DashboardClient.tsx:79 | the name up to its first space, or "Student" when there is no name or that part is empty |
| Dashboard.GreetingFirstWord | app/dashboard/DashboardClient.tsx:79 | a non-empty first word without spaces is the greeting, alone or followed by a space and more |
| Dashboard.FirstPart | app/dashboard/DashboardClient.tsx:79 | `split(' ')[0]` is the text before the first space, or the whole name |
| Dashboard.GreetingExamples | app/dashboard/DashboardClient.tsx:79 | "Ada Lovelace" and "Ada" both give "Ada"; no name gives "Student" |
| Settings.InitialValues | app/settings/SettingsClient.tsx:35-40 | emailAnalysis and emailWeekly start on; emailGoals and pushAnalysis start off |
| Settings.Toggled | app/settings/SettingsClient.tsx:188-236 | a toggle flips exactly its own flag and leaves the other three unchanged |
| Settings.ToggleTwice | app/settings/SettingsClient.tsx:188-236 | two clicks on the same button restore the preferences |
| Settings.TogglesCommute | app/settings/SettingsClient.tsx:188-236 | clicks on different buttons can be made in either order |
| Settings.ToggleButton | app/settings/SettingsClient.tsx:186-190 | a preference's button is 'default' exactly when it is on, and is captioned "On" or "Off" |
| Settings.ThemeButton | app/settings/SettingsClient.tsx:137-153 | a theme button is highlighted exactly when the current theme equals its value |
| Settings.AtMostOneThemeHighlighted | app/settings/SettingsClient.tsx:137-153 | at most one of light, dark and system is highlighted |
| Settings.ChosenThemeHighlighted | app/settings/SettingsClient.tsx:137-155 | choosing a theme highlights its own button |
| Settings.FirstChars | app/settings/SettingsClient.tsx:46-47 | at most one character per part |
| Settings.WordStartsNoSpace | app/settings/SettingsClient.tsx:45-47 | a name without spaces starts one word at most |
| Settings.WordStartsSegment | app/settings/SettingsClient.tsx:45-47 | the text before the first space contributes its first character, then the rest is read afresh |
| Settings.FirstCharsOfSplit | app/settings/SettingsClient.tsx:45-47 | the parts' first characters are exactly the first characters of the name's words; empty parts contribute nothing |
| Settings.Initials | app/settings/SettingsClient.tsx:44-48 | the upper-cased first letters of the name's words, or "U" when there is no name or no word; never a lower-case letter |
| Settings.InitialsExamples | app/settings/SettingsClient.tsx:44-48 | "ada lovelace" gives "AL" |
| Settings.InitialsFallback | app/settings/SettingsClient.tsx:44-48 | no name, or an empty one, gives "U" |
| Settings.TwoWordStarts | app/settings/SettingsClient.tsx:45-47 | two non-empty, space-free words separated by one space start with their first letters |
| Settings.SaveButton | app/settings/SettingsClient.tsx:243-244 | the save button is disabled and reads "Saving..." exactly while saving |
| Settings.SettingsForm.constructor | app/settings/SettingsClient.tsx:35-42 | the initial preferences, the theme in force, not saving |
| Settings.SettingsForm.Toggle | app/settings/SettingsClient.tsx:188-236 | a click replaces the preferences by their toggled version and changes nothing else |
| Settings.SettingsForm.SetTheme | app/settings/SettingsClient.tsx:139-155 | the chosen theme becomes current |
| Settings.SettingsForm.BeginSave | app/settings/SettingsClient.tsx:50-51 | saving starts |
| Settings.SettingsForm.CompleteSave | app/settings/SettingsClient.tsx:53-55 | saving ends; nothing else changes |
| Ai.ObjectJsonText | lib/ai.ts:119-278 | the four object-returning functions parse the fenced object, else the span from the first '{' to the last '}', else the whole reply; a found span opens with '{' and closes with '}' |
| Ai.ArrayJsonText | lib/ai.ts:202-203 | the suggestions parse the same way with '[' and ']' |
| Ai.ObjectFallbackSpan | lib/ai.ts:119-120 | without a fence, the parsed text is the slice of the reply from the first '{' to its last '}' |
| Ai.ObjectFallbackWhole | lib/ai.ts:119-120 | without a fence and without a '}' after the first '{', the whole reply is parsed |
| Ai.NumberedLine | lib/ai.ts:191 | "i+1. " followed by the weakness |
| Ai.NumberedLines | lib/ai.ts:191 | one numbered line per weakness, in input order |
| Ai.NumberedWeaknesses | lib/ai.ts:191 | the numbered lines joined by '\n', without a trailing line feed; read back line by line as NumberedWeaknessLines states |
| Ai.NumberedWeaknessLines | lib/ai.ts:191 | split back into lines, the list gives each weakness under its number, from 1 and in order, when no weakness spans lines |
| Ai.NumberedLineNoBreak | lib/ai.ts:191 | a number, ". " and a weakness without line feeds make a line without line feeds |
| Ai.Excerpt | lib/ai.ts:219 | at most the first 2000 characters, and all of a shorter essay |
| Ai.EssayBlock | lib/ai.ts:219 | "Essay i+1:\n" followed by the excerpt |
| Ai.EssayBlocks | lib/ai.ts:219 | one block per essay, in input order |
| Ai.FingerprintEssays | lib/ai.ts:219 | the essay blocks joined by "\n\n---\n\n"; where each block sits is stated by FingerprintBlockAt |
| Ai.OccursAfter | lib/ai.ts:219 | text found in the tail of a string is found again in the whole, shifted by the head's length |
| Ai.JoinPartAt | lib/ai.ts:191-219 | in a join, each part sits at its offset and is followed by the separator unless it is last |
| Ai.JoinPartHead | lib/ai.ts:219 | the first part opens the join, followed by the separator when more parts come |
| Ai.JoinPartShift | lib/ai.ts:219 | a part's place in the join of the later parts carries over, shifted by the first part and separator, to the whole join |
| Ai.FingerprintBlockAt | lib/ai.ts:219 | each essay's labelled block appears in the prompt at its offset, followed by "\n\n---\n\n" unless it is last |
| Ai.JoinOffsetIncreasing | lib/ai.ts:219 | later blocks start after the earlier ones and their separators |
| Text.IsSpace | lib/document-processor.ts:109-111 | the characters of JavaScript's `\s` class, which `trim` also removes |
| Text.StartsWith | components/navigation.tsx:58 | `startsWith`: the string's first characters are the prefix |
| Text.EndsWith | lib/document-processor.ts:232-239 | `endsWith`: the string's last characters are the suffix |
| Text.Contains | app/essays/EssaysClient.tsx:57-58 | `includes`: the text starts at some position of the string, which ContainsAt makes explicit |
| Text.Trim | lib/document-processor.ts:56-149 | `trim` removes exactly the leading and trailing `\s` run |
| Text.TrimOffset | lib/document-processor.ts:56 | the length of the leading whitespace run |
| Text.TrailingSpaces | lib/document-processor.ts:56 | the length of the trailing whitespace run |
| Text.TrimBounds | lib/document-processor.ts:56 | unless the text is all whitespace, the two runs leave at least one character between them |
| Text.TrimOfTrimmed | lib/document-processor.ts:149 | trimming a trimmed text changes nothing |
| Text.ContainsAt | app/essays/EssaysClient.tsx:57-58 | `includes` holds exactly when the text occurs at some position |
| Text.IndexOfAt | app/settings/SettingsClient.tsx:45 | a separator position with none before it is the first occurrence of the separator |
| Text.IndexOf | app/settings/SettingsClient.tsx:45 | `indexOf` gives a position holding the character, with none before it |
| Text.Split | app/dashboard/DashboardClient.tsx:79 | `split` yields at least one part, and no part holds the separator |
| Text.ToLower | app/essays/EssaysClient.tsx:57-58 | each character lower-cased, length kept |
| Text.ToUpper | app/settings/SettingsClient.tsx:47 | each character upper-cased, length kept |
| Text.LowerChar | app/essays/EssaysClient.tsx:57-58 | a lower-cased character is not an upper-case ASCII letter, and only such letters change |
| Text.ToLowerIdempotent | lib/document-processor.ts:229 | lower-casing twice is lower-casing once |
| Text.UpperChar | app/settings/SettingsClient.tsx:48 | an upper-cased character is not a lower-case ASCII letter, and only such letters change |
| Text.JoinSplit | app/settings/SettingsClient.tsx:45-47 | joining what `split` produced gives the string back |
| Text.SplitJoin | lib/ai.ts:191 | splitting a join gives the parts back when no part holds the separator |
| Text.Join | lib/document-processor.ts:35 | `parts.join(sep)`: the parts with the separator between each two; its round trips with `split` are JoinSplit and SplitJoin |
| Text.NatToString | app/essays/EssaysClient.tsx:80-95 | decimal digits without leading zeros |
| Text.NatToStringValue | app/essays/EssaysClient.tsx:95 | the printed digits denote the number |
| Text.Digit | app/essays/EssaysClient.tsx:95 | a digit value becomes a character from '0' to '9' |
| Text.NatToStringInjective | app/essays/EssaysClient.tsx:95 | different numbers print differently |
| Text.IntToString | app/compare/CompareClient.tsx:103 | a '-' exactly for negatives, then the digits of the magnitude |
| Text.Round | app/compare/CompareClient.tsx:103 | `Math.round` gives the integer r with r ≤ x + 0.5 < r + 1 |
| Text.RoundMonotonic | app/essays/EssaysClient.tsx:79 | `Math.round` never reverses an order |
| Text.OrZero | app/essays/EssaysClient.tsx:70-71 | `x \|\| 0`: the score when there is one, 0 otherwise |

## Left out

- The PDF, DOCX and OCR libraries: their results enter as inputs (page items, raw text, recognised text). A library that throws is the input `None`.
- The regular-expression engine for the thirteen comment patterns (lib/document-processor.ts:128-142): their capture groups enter through `scan`. The trim, length and punctuation filter applied to each group is modelled.
- Gemini and `JSON.parse`: the model's reply and the parsed value enter as parameters. A parsed array is taken to hold strings; an array with other elements is not modelled.
- The prompt texts: only the modelled fragments are kept (the 5000-character excerpt, the weakness list, the essay blocks).
- Case mapping is modelled on ASCII letters only; JavaScript's `toLowerCase`/`toUpperCase` also map other scripts.
- Strings are sequences of characters, not UTF-16 code units, so `substring(0, 2000)` and `n[0]` on characters outside the Basic Multilingual Plane are not modelled.
- JavaScript numbers are modelled as exact reals, and `Math.round(x)` as floor(x + 0.5). IEEE rounding and NaN are not modelled.
- Dates: `new Date(uploadedAt)` enters as a millisecond timestamp, and `toLocaleDateString` is not modelled.
- Dashboard.WeekEssays: one week is taken as exactly 7 × 86 400 000 ms. A `setDate(-7)` across a daylight-saving change is an hour longer or shorter.
- The `title` sort's `localeCompare` enters as a collation rank supplied by the caller.
- Array.prototype.sort is modelled as a stable insertion sort by key. Each of the comparators of `sortedEssays` is the difference of such keys.
- `fetch`, `response.json()` and React state updates are modelled as the reply a handler receives after its `await`. Concurrent handlers and the order of state updates are not modelled.
- Toasts, console logging, timers (the one-second simulated save), sign-out and the account-deletion toast are left out; they change no modelled state.
- The essay list's own `fetchEssays` and the dashboard's loading flag are left out: they only store the server's list.
- Authentication (NextAuth) and database access are left out. The lessons endpoint receives the outcome of `auth()` as an input.
- The fingerprint route's average paragraph length and placeholder scores (app/api/fingerprint/route.ts) are not part of this model: the arithmetic can divide by zero, and the scores are constants.
- The live essay analyser and editor pages (app/essays/[id]) are not part of this model.
