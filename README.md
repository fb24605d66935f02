# AI-Powered Study Assistant: document extraction, quiz and account logic

This project is a Dafny model of the logic at the heart of a study-aid web
application. A user uploads a PDF, Word, PowerPoint or text file. The back end
extracts its text together with a summary of the embedded images. A small Python
service turns text into flashcards and questions. The React front end runs a
quiz, lists and deletes the user's response history, and validates the profile
form. Express middleware decides who may call the protected routes.

The model is split into one module per concern:

| module | file | models |
|---|---|---|
| `Results` | results.dfy | the `{text, imageCount, imageDescriptions}` record every extractor returns, and the `Option`/`Outcome` wrappers |
| `Text` | text.dfy | the JavaScript and Python string operations the code relies on: `indexOf`, `split`/`join`, `trim`/`strip`, ASCII `toLowerCase`, decimal numerals, UTF-16 length |
| `Paths` | paths.dfy | Node's `path.extname` on POSIX paths |
| `Uploads` | uploads.dfy | the upload route's file filter and stored file name (`aiRoutes.js`) |
| `FileParser` | fileparser.dfy | `parseFile`: dispatch on the extension, the image summary appended to the text, the error wrapping |
| `Docx` | docx.dfy | `extractFromDOCX`: image counting and the placeholder-insertion loop |
| `PptxXml` | pptx_xml.dfy | the xml2js tree and the two recursive walks `extractTextFromSlide` and `findImageRefs` |
| `Pptx` | pptx.dfy | `extractFromPPTX`: slide-entry selection, numeric sorting, and the per-slide loop |
| `Flashcards` | flashcards.dfy | `generate_flashcards` |
| `Questions` | questions.dfy | `generate_questions` |
| `Quiz` | quiz.dfy | `QuizPage`: its state as a class with one method per handler, `formatTime`, the percentage and the verdict |
| `History` | history.dfy | `HistoryPage`: filtering and deletion |
| `Profile` | profile.dfy | `ProfilePage`: `validateForm` and the update payload |
| `Auth` | auth.dfy | `authenticate`, `isAdmin`, `isUserOrAdmin` |

Libraries and I/O are parameters of the model:
- what `pdf-parse`, `mammoth`, AdmZip/xml2js and `fs.readFileSync` produce for a file, each as an `Outcome` that is either a value or the error thrown;
- `jwt.verify` and `User.findByPk`, as functions passed to `Auth.Authenticate`;
- the clock, as the number `now` in `Uploads.StoredName`.

Where the code follows a loop or mutates state, so does the model. The extraction
loops of `parseFile`, `extractFromDOCX` and `extractFromPPTX` are methods with
`while` loops, proved against recursive specification functions. The DOCX pass
that updates a paragraph in place works on an array. The quiz and history pages
are classes whose methods update their fields.

PowerPoint slide headers are numbered by position after sorting: the code writes
`Slide ${i + 1}:`, not the number in the slide's file name, so `slide1`, `slide2`
and `slide10` get the headers `Slide 1:`, `Slide 2:` and `Slide 3:`
(`Pptx.SlideHeader`, `Pptx.MiddleSlideBlock`). The slides are sorted numerically
by that file-name number (`Pptx.NumericOrder`).

## Model

| member | source | states |
|---|---|---|
| Text.IndexOfFinds | backend/src/middleware/authMiddleware.js:8 | `indexOf` returns the first position where the pattern occurs, and -1 exactly when it does not occur |
| Text.IndexOfUnique | backend/src/middleware/authMiddleware.js:8 | a position where the pattern occurs and before which it never occurs is what `indexOf` returns |
| Text.IndexOfChar | nlp_service/app/models/flashcards.py:5 | the substring test `':' in line` holds exactly when the character occurs; the first occurrence has no colon before it |
| Text.Split | nlp_service/app/models/flashcards.py:2 | splitting on a non-empty separator always yields at least one part |
| Text.SplitWithoutSeparator | nlp_service/app/models/flashcards.py:2 | a text without the separator splits into just itself |
| Text.JoinSplit | backend/src/untils/docxParser.js:64-70 | joining the parts of a split with the same separator gives back the text |
| Text.SplitParts | backend/src/untils/docxParser.js:64 | no part of a split contains the separator, and each part but the last ends before the separator |
| Text.SplitJoin | backend/src/untils/docxParser.js:64-70 | parts that do not contain the separator, and that each end before it, are recovered by splitting their join |
| Text.CountIsCuts | backend/src/untils/docxParser.js:51-52 | the number of non-overlapping `<img` matches is one less than the number of parts the HTML splits into |
| Text.TrimStart | nlp_service/app/models/questions.py:6 | removes exactly the longest prefix of white space |
| Text.TrimEnd | nlp_service/app/models/questions.py:6 | removes exactly the longest suffix of white space |
| Text.TrimIsTrimmed | nlp_service/app/models/questions.py:6 | a trimmed text starts and ends with a non-space character, or is empty |
| Text.TrimAround | nlp_service/app/models/flashcards.py:7 | white space around a trimmed text is removed and nothing else |
| Text.BlankIffAllSpace | FrontEnd/ai-study-assistant/src/pages/ProfilePage.jsx:87 | `!s.trim()` holds exactly when every character is white space |
| Text.ToLower | backend/src/untils/fileParser.js:16 | lower-casing keeps the length and maps each character on its own |
| Text.ToLowerIdempotent | backend/src/untils/fileParser.js:16 | lower-casing twice is lower-casing once |
| Text.NatToString | backend/src/untils/pptxParser.js:38 | a decimal numeral is a non-empty string of digits with no leading zero |
| Text.DigitsValueOfNatToString | backend/src/untils/pptxParser.js:22 | reading back a numeral with `parseInt` gives the number |
| Text.NatToStringInjective | backend/src/untils/pptxParser.js:22 | different numbers have different numerals |
| Text.LeadingDigits | backend/src/untils/pptxParser.js:22 | the leading run of digits is all digits and is followed by a non-digit or the end |
| Text.Utf16Length | FrontEnd/ai-study-assistant/src/pages/ProfilePage.jsx:111 | a string's JavaScript `length` lies between its number of characters and twice that |
| Paths.LastIndexOf | backend/src/untils/fileParser.js:16 | `lastIndexOf` finds the last occurrence, and -1 exactly when there is none |
| Paths.DropTrailingSlashes | backend/src/untils/fileParser.js:16 | trailing slashes, and only those, are ignored by `path.extname` |
| Paths.LastComponent | backend/src/untils/fileParser.js:16 | the last path component is a slash-free suffix of the path |
| Paths.ExtnameShape | backend/src/untils/fileParser.js:16 | an extension is empty or a dot followed by no dot and no slash |
| Paths.ExtnameIgnoresPrefix | backend/src/routes/aiRoutes.js:11 | a prefix put before a name with an extension does not change the extension |
| Paths.ExtnameToLower | backend/src/untils/fileParser.js:16 | the extension of the lower-cased path is the lower-cased extension |
| Uploads.FilterDecides | backend/src/routes/aiRoutes.js:14-22 | the filter accepts exactly the four allowed lower-cased extensions and otherwise reports the fixed message |
| Uploads.FilterIgnoresCase | backend/src/routes/aiRoutes.js:16 | the filter decides `Notes.PDF` as it decides `notes.pdf` |
| Uploads.StoredNameKeepsExtension | backend/src/routes/aiRoutes.js:11 | the stored name `Date.now() + "-" + originalname` has the original name's extension |
| Uploads.AcceptedIsDispatchable | backend/src/routes/aiRoutes.js:9-22 | every accepted upload, stored under any directory and time, has an extension `parseFile` supports |
| Uploads.LegacyOfficeRejected | backend/src/routes/aiRoutes.js:15 | `.doc` and `.ppt` uploads are refused by the filter although `parseFile` has branches for them |
| FileParser.ParseFile | backend/src/untils/fileParser.js:13-73 | the method computes the parse for the path's lower-cased extension, with the PDF branch corrected as the finding below describes |
| FileParser.CombineText | backend/src/untils/fileParser.js:50-63 | the combined text is the extracted text followed by the image summary |
| FileParser.AppendDetails | backend/src/untils/fileParser.js:59-61 | the loop appends one `- description` line per description, in order |
| FileParser.DispatchIgnoresCase | backend/src/untils/fileParser.js:16 | parsing does not depend on the case of the path |
| FileParser.DispatchTable | backend/src/untils/fileParser.js:21-48 | each of the six extensions selects its extractor; upper case, empty and other extensions select none |
| FileParser.SupportedExtensions | backend/src/untils/fileParser.js:21-48 | an extension is supported exactly when it is one of the six |
| FileParser.UnsupportedFormat | backend/src/untils/fileParser.js:46-47 | any other extension fails with `Failed to parse file: Unsupported file format: <ext>` |
| FileParser.OutcomeOfDispatch | backend/src/untils/fileParser.js:19-72 | the parse fails exactly when the extractor fails, with its message behind the `Failed to parse file: ` prefix, and keeps the extractor's result otherwise |
| FileParser.WordDispatch | backend/src/untils/fileParser.js:26-29 | `.docx` and `.doc` fail with the DOCX message when a conversion or a temporary-directory operation fails, and otherwise return the DOCX result |
| FileParser.PdfDispatch | backend/src/untils/pdfParser.js:10-24 | whatever the PDF library or the file read throws, `.pdf` fails with the one fixed PDF message; in the corrected branch a readable PDF gives exactly the library's text, with no images |
| FileParser.PowerPointDispatch | backend/src/untils/fileParser.js:31-34 | `.pptx` and `.ppt` carry the PowerPoint prefix on failure and return the PowerPoint result otherwise |
| FileParser.PlainTextFile | backend/src/untils/fileParser.js:36-44 | a text file's result is its content, with no images |
| FileParser.TextKeptInFront | backend/src/untils/fileParser.js:51-63 | the combined text starts with the extracted text, and is that text when there are no images |
| FileParser.NoImagesNoSummary | backend/src/untils/fileParser.js:54 | with no images nothing is appended |
| FileParser.TrailerCountReadsBack | backend/src/untils/fileParser.js:55-56 | the summary starts with its heading and `Total images: `, and the number after it reads back as the image count |
| FileParser.DetailLinesSplit | backend/src/untils/fileParser.js:57-62 | the detail lines split at line breaks into exactly one `- description` line per description |
| FileParser.PdfTextUndefined | backend/src/untils/fileParser.js:22-24 | as written, a successful PDF parse has no text (the extractor's bare string has no `text` property) |
| FileParser.FixedParseHasText | backend/src/untils/fileParser.js:22-24 | with the corrected PDF branch every successful parse has a text that starts with the extracted text, and a PDF's is its text |
| FileParser.FixedAgreesElsewhere | backend/src/untils/fileParser.js:21-48 | the correction changes nothing outside the PDF branch |
| Docx.Paragraphs | backend/src/untils/docxParser.js:64 | splitting at blank lines always yields at least one paragraph, so `paragraphs.length - 1` is a valid index |
| Docx.ExtractFromDocx | backend/src/untils/docxParser.js:11-100 | either conversion failing, or any creation, write or removal in the temporary image directory throwing, gives the fixed DOCX message; otherwise the result counts the `<img` tags, places the placeholders and describes the document |
| Docx.PlacePass | backend/src/untils/docxParser.js:64-70 | one pass splits the text, appends `\n[IMAGE i+1]` to paragraph `min(length - 1, i)` of the array, and joins again |
| Docx.MarkedText | backend/src/untils/docxParser.js:61-71 | for any mark without blank lines, after `count` passes the text is the original paragraphs with paragraph `j` before the last carrying mark `j + 1` and the last carrying all the remaining marks, joined |
| Docx.MarkedParagraphs | backend/src/untils/docxParser.js:61-71 | unless the last paragraph ends with a line break and the loop reaches it, the paragraphs of the result are exactly those placed paragraphs |
| Docx.EarlyPasses | backend/src/untils/docxParser.js:61-71 | while the loop index stays before the last paragraph, each pass extends a different paragraph and the paragraph count does not change |
| Docx.LatePasses | backend/src/untils/docxParser.js:61-71 | from the last paragraph on, each pass appends its mark at the very end of the text |
| Docx.AddedFromRun | backend/src/untils/docxParser.js:65-68 | the marks the paragraphs carry, read in order, are the marks for images 1 to `count` |
| Docx.PlaceholderText | backend/src/untils/docxParser.js:59-71 | the text with placeholders is the original paragraphs, paragraph `j` extended by `\n[IMAGE j+1]` and the last by every remaining placeholder, joined at blank lines |
| Docx.ParagraphsKept | backend/src/untils/docxParser.js:61-71 | unless the last paragraph ends with a line break and there are at least as many images as paragraphs, the result has the same paragraphs, each extended by its placeholders |
| Docx.LastParagraphSplits | backend/src/untils/docxParser.js:61-71 | when the last paragraph ends with a line break and the images reach it, the result has exactly one paragraph more than the original |
| Docx.PlaceholdersInOrder | backend/src/untils/docxParser.js:65-68 | read from first paragraph to last, the placeholders are `[IMAGE 1]` to `[IMAGE count]` in order |
| Docx.NoImages | backend/src/untils/docxParser.js:86-95 | HTML without `<img` gives the raw text unchanged, no image count and no descriptions |
| PptxXml.StringItems | backend/src/untils/pptxParser.js:81-85 | only the string items of an `a:t` array become text runs |
| PptxXml.TextElementRuns | backend/src/untils/pptxParser.js:80-87 | an object with an `a:t` array under any of its keys yields that array's strings and nothing from its other keys |
| PptxXml.TextElementNotArray | backend/src/untils/pptxParser.js:80-81 | a truthy `a:t` that is not an array, under any of the object's keys, makes the walk fail, as `forEach` would throw |
| PptxXml.ArrayRunsAgree | backend/src/untils/pptxParser.js:90-99 | an array reached as a value and an array reached under a key are walked alike, item by item |
| PptxXml.ObjectRunsAppend | backend/src/untils/pptxParser.js:90-99 | the runs of an object's keys are the runs of the first keys followed by those of the rest, and a failure anywhere fails the walk |
| PptxXml.ObjectRefsAppend | backend/src/untils/pptxParser.js:126-136 | the image references of an object's keys are those of the first keys followed by those of the rest |
| PptxXml.ArrayRefsAgree | backend/src/untils/pptxParser.js:126-136 | an array reached as a value and one reached under a key are searched alike |
| PptxXml.ImageRefsFound | backend/src/untils/pptxParser.js:114-139 | a slide has an image reference exactly when some node under it is an image node |
| PptxXml.PropertyRefsFound | backend/src/untils/pptxParser.js:128-134 | a key's value yields references exactly when it contains an image node |
| PptxXml.ItemRefsFound | backend/src/untils/pptxParser.js:129-131 | an array yields references exactly when one of its items contains an image node |
| PptxXml.ObjectRefsFound | backend/src/untils/pptxParser.js:127-135 | an object's keys yield references exactly when one of their values contains an image node |
| PptxXml.ImageElementCountsOnce | backend/src/untils/pptxParser.js:120-123 | an image node counts once, as its `r:embed` value or as `image-ref`, and its children are not searched |
| Pptx.SlideEntryHasNumber | backend/src/untils/pptxParser.js:16-23 | every entry the filter keeps has a slide number for the sort to read |
| Pptx.StandardSlideNameMatches | backend/src/untils/pptxParser.js:16-23 | `ppt/slides/slide<n>.xml`, with anything after it, is kept and sorts as number `n` |
| Pptx.SlideEntries | backend/src/untils/pptxParser.js:16-18 | the kept entries are slide entries, each with its slide number |
| Pptx.SlideEntriesKeepsMatching | backend/src/untils/pptxParser.js:16-18 | the kept entries are exactly the matching entries, in archive order |
| Pptx.Insert | backend/src/untils/pptxParser.js:21-25 | inserting a slide adds exactly that slide |
| Pptx.SortSlides | backend/src/untils/pptxParser.js:21-25 | sorting is a permutation |
| Pptx.InsertSorted | backend/src/untils/pptxParser.js:21-25 | inserting into a sorted list keeps it sorted |
| Pptx.SortSlidesCorrect | backend/src/untils/pptxParser.js:21-25 | the slides come out sorted by number, as a permutation, with slides of equal number in archive order (a stable sort) |
| Pptx.SortSlidesStable | backend/src/untils/pptxParser.js:21-25 | the slides with any one number keep their archive order |
| Pptx.NumericOrder | backend/src/untils/pptxParser.js:21-25 | slides 10, 2, 1 in archive order come out as 1, 2, 10 |
| Pptx.ExtractFromPptx | backend/src/untils/pptxParser.js:12-65 | the method computes the archive's result, every failure carrying the PowerPoint prefix |
| Pptx.ProcessSlides | backend/src/untils/pptxParser.js:33-54 | the slide loop computes the deck's result, or stops at the first unreadable slide with its error |
| Pptx.AddSlideText | backend/src/untils/pptxParser.js:38-53 | one iteration appends the slide's block to the text, its images to the total, and its description when it has images |
| Pptx.ReadOneMore | backend/src/untils/pptxParser.js:33-54 | the loop invariant is kept: after one more readable slide the state is the deck of one more slide |
| Pptx.DeckOkIffReadable | backend/src/untils/pptxParser.js:33-35 | extraction succeeds exactly when every slide can be read and walked |
| Pptx.DeckFailsAt | backend/src/untils/pptxParser.js:33-35 | the first slide that cannot be read decides the error |
| Pptx.FirstUnreadableSlideDecides | backend/src/untils/pptxParser.js:33-35 | for sorted slides, the first slide whose XML or walk fails gives the error of the whole extraction |
| Pptx.FailuresArePrefixed | backend/src/untils/pptxParser.js:61-64 | every PowerPoint failure message starts with the PowerPoint prefix |
| Pptx.DescriptionRoundTrip | backend/src/untils/pptxParser.js:49 | each slide description reads back as its slide position and image count |
| Pptx.DescriptionsAccountForImages | backend/src/untils/pptxParser.js:44-49 | there are no more descriptions than slides, and the counts read back from them add up to the total image count |
| Pptx.DescriptionsInSlideOrder | backend/src/untils/pptxParser.js:48-49 | every description names a slide within the deck with at least one image, in strictly increasing slide order |
| Pptx.NoSlides | backend/src/untils/pptxParser.js:16-60 | an archive without slide entries gives an empty text, no images and no descriptions |
| Pptx.MiddleSlideBlock | backend/src/untils/pptxParser.js:38-53 | the second slide with two runs and two images gives its header, its runs joined by line breaks, the image note and a blank line |
| Flashcards.Qualifying | nlp_service/app/models/flashcards.py:4-5 | the selected segments all contain a colon |
| Flashcards.GenerateFlashcards | nlp_service/app/models/flashcards.py:1-8 | the cards are those of the segments that contain a colon, at most ten |
| Flashcards.CardsFromSegments | nlp_service/app/models/flashcards.py:3-8 | the loop builds one card per qualifying segment, in order, and the first ten are kept |
| Flashcards.AllCardsSnoc | nlp_service/app/models/flashcards.py:4-7 | one more segment adds one card exactly when it contains a colon |
| Flashcards.QualifyingIsFilter | nlp_service/app/models/flashcards.py:4-5 | the qualifying segments are the segments with a colon, no others, each as often as it occurs |
| Flashcards.CardCount | nlp_service/app/models/flashcards.py:8 | the number of cards is the number of qualifying segments, capped at ten |
| Flashcards.CardsInOrder | nlp_service/app/models/flashcards.py:4-8 | card `i` is made from qualifying segment `i` |
| Flashcards.SingleSegment | nlp_service/app/models/flashcards.py:2-7 | a text without `. ` gives one card when it has a colon and none otherwise |
| Flashcards.CardShape | nlp_service/app/models/flashcards.py:6 | a segment is cut at its first colon |
| Flashcards.CardRoundTrip | nlp_service/app/models/flashcards.py:6-7 | `term: definition`, with a colon-free term and both sides trimmed, gives back that term and definition |
| Questions.Options | nlp_service/app/models/questions.py:18-23 | there are four options |
| Questions.QuestionsAbout | nlp_service/app/models/questions.py:9-25 | each segment gives two questions |
| Questions.Leading | nlp_service/app/models/questions.py:5 | `lines[:5]` is the first five segments, or all when there are fewer |
| Questions.GenerateQuestions | nlp_service/app/models/questions.py:1-27 | the questions are those of the first five segments of the text, stripped |
| Questions.QuestionsFromSegments | nlp_service/app/models/questions.py:5-25 | the loop appends the two questions of each leading segment, in order |
| Questions.AppendQuestions | nlp_service/app/models/questions.py:9-25 | one iteration appends the open-ended question and then the multiple-choice question |
| Questions.QuestionCount | nlp_service/app/models/questions.py:5-25 | there are twice as many questions as leading segments |
| Questions.QuestionsAt | nlp_service/app/models/questions.py:9-25 | questions `2j` and `2j+1` are about segment `j` |
| Questions.QuestionKinds | nlp_service/app/models/questions.py:9-25 | even questions are open-ended; odd ones are multiple choice with four options whose answer is the first |
| Questions.SingleSegment | nlp_service/app/models/questions.py:2-6 | a text without `. ` gives the two questions about the stripped text |
| Questions.SubjectReadsBack | nlp_service/app/models/questions.py:11 | the subject can be read back from either prompt |
| Questions.OptionsNameSubject | nlp_service/app/models/questions.py:18-23 | option `i` has letter `i` and ends with the quoted subject |
| Quiz.QuizPage.constructor | FrontEnd/ai-study-assistant/src/pages/QuizPage.jsx:4-27 | after loading, the quiz is at its first question with no selection, no score and the timer running |
| Quiz.QuizPage.SelectOption | FrontEnd/ai-study-assistant/src/pages/QuizPage.jsx:57-60 | selecting records the option unless the question is already answered |
| Quiz.QuizPage.SubmitAnswer | FrontEnd/ai-study-assistant/src/pages/QuizPage.jsx:62-76 | submitting with a selection scores it and sets the feedback; without one nothing changes |
| Quiz.QuizPage.NextQuestion | FrontEnd/ai-study-assistant/src/pages/QuizPage.jsx:78-88 | moves to the next question and clears the answer, or at the last question shows the results and stops the timer |
| Quiz.QuizPage.RestartQuiz | FrontEnd/ai-study-assistant/src/pages/QuizPage.jsx:90-99 | resets everything but the questions and restarts the timer |
| Quiz.LoadedConsistent | FrontEnd/ai-study-assistant/src/pages/QuizPage.jsx:24-27 | a freshly loaded quiz is in a consistent state |
| Quiz.SelectAfterAnswer | FrontEnd/ai-study-assistant/src/pages/QuizPage.jsx:58 | once answered, selecting changes nothing |
| Quiz.SelectKeepsConsistent | FrontEnd/ai-study-assistant/src/pages/QuizPage.jsx:57-60 | selecting keeps the state consistent and the score unchanged |
| Quiz.SubmitScores | FrontEnd/ai-study-assistant/src/pages/QuizPage.jsx:62-76 | a correct answer adds one point and `Correct!`; a wrong one adds nothing and names the answer; nothing else changes but `answered` |
| Quiz.SubmitKeepsConsistent | FrontEnd/ai-study-assistant/src/pages/QuizPage.jsx:62-76 | submitting an unanswered question keeps the state consistent |
| Quiz.NextSteps | FrontEnd/ai-study-assistant/src/pages/QuizPage.jsx:78-88 | advancing keeps the state consistent and the score, and either moves on with a cleared answer or ends the quiz |
| Quiz.RestartIsReload | FrontEnd/ai-study-assistant/src/pages/QuizPage.jsx:90-99 | restarting gives exactly the state of loading the same questions again |
| Quiz.ScoreBounded | FrontEnd/ai-study-assistant/src/pages/QuizPage.jsx:69 | in a consistent state the score never exceeds the number of questions |
| Quiz.TwoDigitsReadsBack | FrontEnd/ai-study-assistant/src/pages/QuizPage.jsx:54 | seconds below 100 are shown as two digits that read back as the seconds |
| Quiz.FormatTimeReadsBack | FrontEnd/ai-study-assistant/src/pages/QuizPage.jsx:51-55 | the timer text is minutes, a colon and two digits of seconds below 60, and reads back as the total seconds |
| Quiz.FormatTimeExample | FrontEnd/ai-study-assistant/src/pages/QuizPage.jsx:51-55 | 65 seconds are shown as `1:05` |
| Quiz.PercentageIsNearest | FrontEnd/ai-study-assistant/src/pages/QuizPage.jsx:142 | the percentage is the whole number nearest to `100 * score / total`, halves rounded up |
| Quiz.PercentageBounds | FrontEnd/ai-study-assistant/src/pages/QuizPage.jsx:142 | the percentage is at most 100, is 0 for no points and 100 for all points |
| Quiz.VerdictMonotone | FrontEnd/ai-study-assistant/src/pages/QuizPage.jsx:146-158 | a higher percentage never gets a lower verdict |
| Quiz.VerdictOfExtremes | FrontEnd/ai-study-assistant/src/pages/QuizPage.jsx:142-158 | full marks give `Excellent work!` and no points give `Keep practicing!` |
| History.Keep | FrontEnd/ai-study-assistant/src/pages/HistoryPage.jsx:35 | filtering never adds items |
| History.HistoryPage.constructor | FrontEnd/ai-study-assistant/src/pages/HistoryPage.jsx:7-10 | the page starts with no history, no selection and the filter `all` |
| History.HistoryPage.HandleDelete | FrontEnd/ai-study-assistant/src/pages/HistoryPage.jsx:31-46 | after a successful delete the list becomes the list rendered at the click without that id, and the selection is cleared when the selection rendered at the click was that item; after a failed one nothing changes |
| History.KeepMembers | FrontEnd/ai-study-assistant/src/pages/HistoryPage.jsx:35 | an item survives the filter exactly when it was there and passes the test |
| History.KeepCounts | FrontEnd/ai-study-assistant/src/pages/HistoryPage.jsx:35 | every item that passes keeps its number of copies, every other item has none |
| History.KeepIsSubsequence | FrontEnd/ai-study-assistant/src/pages/HistoryPage.jsx:35 | the filter keeps the order of the items |
| History.FilterAllShowsEverything | FrontEnd/ai-study-assistant/src/pages/HistoryPage.jsx:108-109 | the filter `all` shows the whole history |
| History.FilterSelectsAction | FrontEnd/ai-study-assistant/src/pages/HistoryPage.jsx:108-110 | any other filter shows exactly the items with that action, each as often as before, in order |
| History.DeleteRemovesId | FrontEnd/ai-study-assistant/src/pages/HistoryPage.jsx:35 | deletion keeps exactly the items with another id, each as often as before, in order |
| History.DeleteIdempotent | FrontEnd/ai-study-assistant/src/pages/HistoryPage.jsx:35 | deleting the same id twice is deleting it once |
| History.SelectionKept | FrontEnd/ai-study-assistant/src/pages/HistoryPage.jsx:39-41 | the selection is cleared exactly when it is the deleted item, and is otherwise kept |
| History.LaterDeleteRestoresEarlier | FrontEnd/ai-study-assistant/src/pages/HistoryPage.jsx:31-35 | of two deletes started from the same rendered list, the one completing last stores a list that still holds the item the other removed |
| Profile.ValidationIsFirstFailure | FrontEnd/ai-study-assistant/src/pages/ProfilePage.jsx:85-123 | validation reports the first failing check in the order name, email, current password, new password, length, confirmation |
| Profile.NameThenEmail | FrontEnd/ai-study-assistant/src/pages/ProfilePage.jsx:87-95 | a blank name is reported first, then a blank email |
| Profile.PassingForms | FrontEnd/ai-study-assistant/src/pages/ProfilePage.jsx:85-123 | a form passes exactly when name and email are not blank and, if any password field is filled, all password rules hold |
| Profile.NoPasswordChange | FrontEnd/ai-study-assistant/src/pages/ProfilePage.jsx:97-122 | with every password field empty the password rules are not applied |
| Profile.PassedFormPayload | FrontEnd/ai-study-assistant/src/pages/ProfilePage.jsx:125-145 | for a form that passed, the payload carries a password change exactly when one was asked for, with a confirmed password of at least 6 UTF-16 units |
| Profile.BuildPayload | FrontEnd/ai-study-assistant/src/pages/ProfilePage.jsx:137-145 | the payload has the name and email, and the two passwords exactly when both are filled |
| Auth.BearerTokenRead | backend/src/middleware/authMiddleware.js:8 | `Bearer <t>` yields the token `t` |
| Auth.TokenRemovesFirstPrefix | backend/src/middleware/authMiddleware.js:8 | only the first `Bearer ` is removed, wherever it occurs, and a header without it is the token itself |
| Auth.NoTokenRefused | backend/src/middleware/authMiddleware.js:8-12 | a missing or empty token is refused with 401 `Authentication required`, whatever the verifier and the user store would say |
| Auth.AuthenticatedUser | backend/src/middleware/authMiddleware.js:5-37 | a user is attached exactly when the token is present, verifies and names an existing user, who is the one attached; every refusal is a 401 |
| Auth.AdminDecisions | backend/src/middleware/authMiddleware.js:40-55 | only an authenticated admin passes; no user gives 401, a non-admin 403 |
| Auth.OwnerOrAdminDecisions | backend/src/middleware/authMiddleware.js:58-74 | a user passes exactly when it is the owner of the id or an admin; no user gives 401, anyone else 403 |
| Auth.AdminPassesOwnerCheck | backend/src/middleware/authMiddleware.js:40-74 | whoever passes the admin check passes the owner check, and both refuse a missing user the same way |

## Left out

- Reading files, the parsing libraries (`pdf-parse`, `mammoth`, AdmZip, xml2js) and the text-file read are not modelled. Their outputs are parameters of the model: what they extract, or the error they throw.
- Docx.ExtractFromDocx: the temporary image directory is reduced to one flag saying whether every operation on it succeeded. Any one of them throwing (`mkdirSync`, an image's `writeFileSync`, `readdirSync`, `unlinkSync`, `rmdirSync`) gives the fixed DOCX message, as the `catch` does. The files themselves are not modelled. Nor is the fact that the directory is the fixed path `temp_images` next to the upload, so concurrent uploads share it and one request's cleanup can fail on, or delete, another's images. Nor is the directory being left behind when a throw skips the cleanup.
- Docx: the image callback reads `image.buffer` and `image.extension`. Whether mammoth's image objects carry those properties, and whether an `<img` still reaches the HTML when the callback throws, depends on mammoth and is not modelled; the HTML is a parameter.
- `console.error` logging is left out everywhere.
- Multer's storage, the `src/uploads` directory and how it joins the stored name to that directory are left out. `Uploads.StoredNameKeepsExtension` covers any directory prefix.
- `Date.now()` is a parameter.
- Uploads.FilterDecides: multer's callback protocol is reduced to the error and the accept flag the filter passes to it.
- Paths: `path.extname` is modelled for POSIX paths only. Windows drive letters and backslashes are not modelled.
- Text.ToLower: only ASCII letters are lower-cased. JavaScript also lower-cases other letters, and two of them become ASCII: the Kelvin sign becomes `k`, and `İ` becomes `i` followed by a combining dot. None of the extensions the code compares against contains a `k` or a combining dot, so the filter and the dispatch decide alike. The message `Unsupported file format: <ext>` does show the model's lower-casing of the extension, which differs from JavaScript's for an extension with non-ASCII capitals.
- PptxXml: the xml2js tree is modelled as strings, arrays and objects with ordered keys; numbers and booleans do not occur in it. xml2js gives `null` for an empty or blank document. Both walks return `[]` for `null` (pptxParser.js:77 and 117), exactly as for the empty string, so the model represents that document as `Str("")`, the one falsy value it has.
- PptxXml.NotAnArrayMessage: the text of the TypeError thrown when `a:t` is not an array is written by the JavaScript engine, not by the code. The constant holds V8's form of it. Another engine's wording would change the PowerPoint failure message after its prefix.
- Pptx: the zip reader's failures on one entry (`readAsText`) and xml2js's parse failures are both included in each entry's `Outcome`.
- Questions and Flashcards: the Python dictionaries become datatypes with the same fields, and a question's `type` key becomes its constructor.
- Quiz.Percentage: the percentage is computed in exact rational arithmetic, rounding halves up as `Math.round` does. Floating-point rounding of `score / questions.length * 100` before rounding is not modelled, so at an exact half the code may round the other way.
- Quiz.QuizPage.SubmitAnswer: requires the current question to exist whenever an option is selected. The page only offers the submit button while a question is shown; the code would otherwise throw on `questions[currentQuestion].answer`.
- Quiz: the timer's `setInterval` ticks, the JSON extraction of the questions from the model's reply (`result.match` and `JSON.parse`), the loading flag and all rendering are left out. Loading is modelled from the already parsed questions.
- History.HistoryPage.HandleDelete: the handler's captured `history` and `selectedItem` are parameters, so overlapping deletes are modelled as the code does them (`History.LaterDeleteRestoresEarlier`).
- React's batching of state updates is not modelled: each handler's updates are treated as applied together, which is how the handlers read the state.
- History: `fetchHistory`, the `deleteResponseHistory` request itself (only whether it succeeded is a parameter), toasts, date formatting and rendering are left out.
- Profile: fetching and submitting the profile over HTTP, toasts, edit-mode toggling and `handleChange` are left out. The validation and the payload it leads to are modelled.
- Auth: the `catch` branches of `isAdmin` and `isUserOrAdmin` cannot be reached while `req.user` is the object `authenticate` attaches, so they are left out.
- The user model (`models/userModel`) is not part of this model. User ids are compared as strings. `userId` is a UUID referencing `User.id` (backend/src/models/ResponseHistory.js:11-16), so the ids are strings on both sides of `===`; history item ids are UUIDs too.
- The JWT secret and token expiry belong to `jwt.verify`, which is a parameter.

## Findings

| source | as written | input that shows it | evidently intended | confidence | as-written member | corrected member |
|---|---|---|---|---|---|---|
| backend/src/untils/fileParser.js:22-24 | the PDF branch stores the extractor's bare string, so `result.text` is `undefined` and the parse returns no text | any readable file `notes.pdf`, with extracted text `"abc"` | a PDF result with the extracted text and no images, like the text-file branch | not executed | FileParser.PdfTextUndefined | FileParser.FixedParseHasText |

The as-written branch is `FileParser.Dispatch`. The corrected one is `FileParser.DispatchFixed`, which `FileParser.ParseFile` implements. `FileParser.FixedAgreesElsewhere` shows that the two differ only for PDFs.
