# Video questions, username settings and curriculum blocks

This project models three pieces of the freeCodeCamp code base in Dafny and
proves properties of each.

- **The video-question plugin of the challenge parser**
  (`tools/challenge-parser/parser/plugins/add-video-question.js`). It reads
  the `--questions--` section of a challenge's markdown tree and starts a new
  question at every `--text--` node. From each question it takes:
  - the prompt (`--text--`);
  - the answers (`--answers--`), cut at thematic breaks, each with optional
    `--feedback--`;
  - the solution (`--video-solution--`).

  The resulting records go to `file.data.questions`. The first malformed
  question aborts the whole pass.
- **The username settings form** (`client/src/components/settings/Username.js`).
  Its parts are:
  - a local validator (length, then the 7-bit range, then a pattern of
    forbidden characters);
  - the form's five state fields, updated by the change, submit and
    props-update handlers;
  - the save button's `disabled` rule;
  - the choice of the alert under the field.
- **One block of a superblock's introduction page**
  (`client/src/templates/Introduction/components/block.tsx`). It covers:
  - the tally that marks and counts completed challenges;
  - the project-block test;
  - the choice among three layouts and whether a spacer follows;
  - the projection of completed challenges to their ids.

Modules, one file each:

- `Wrappers` (`wrappers.dfy`): `Option`, `Result`, and `MapAll`, which is JavaScript's `map` with a callback that may throw.
- `Mdast` (`mdast.dfy`): the syntax tree and stand-ins for the tree utilities the plugin imports.
- `VideoQuestion` (`video_question.dfy`): the plugin.
- `VideoQuestionRoundTrip` (`video_question_roundtrip.dfy`): writing questions in the challenge format and reading them back.
- `Username` (`username.dfy`): the form.
- `Block` (`block.dfy`): the introduction block.

The tree utilities (`between-headings`, `before-heading`, `mdast-to-html`,
`split-on-thematic-break`, `unist-util-find`) are not part of this model.
`Mdast` stands them in with definitions that state the behaviour the plugin
relies on:

- A region opened by the first heading that spells a marker runs to the next
  marker heading of the same or a higher level.
- The nodes before that heading are what comes before it.
- `find` searches values at any depth.
- The split, like a reduce that starts from one empty group, always yields
  one group more than there are breaks.
- Rendering no nodes gives the empty string, and a leading paragraph, heading
  or break gives a non-empty one.

In two places the code does something other than what the challenge format
evidently intends. The model follows the code in both:

1. A questions section that does not open with `--text--` has no question
   to put its first nodes in. The grouping loop then pushes onto
   `questionTrees[-1]`, which is undefined, and fails with a TypeError. This
   is `UndefinedQuestionTree` here (`VideoQuestion.ExtractCrash`).
2. The format writes the solution as the number of the correct answer. The
   code never compares it with the number of answers, so any positive
   number is accepted (`VideoQuestion.GetQuestion`).

Two checks in `getQuestion` can never fire:

- `!answers` cannot fire because an array is never falsy. It has no
  counterpart in the model.
- `!solution` cannot fire because `getSolution` returns at least 1. The
  model keeps the branch and proves it unreachable.

Also, `getAnswers` never yields an empty list, because the split always
gives at least one group.

## Model

| member | source | states |
|---|---|---|
| Wrappers.MapAll | tools/challenge-parser/parser/plugins/add-video-question.js:62-81 | Mapping a failing callback over a list succeeds exactly when every element succeeds. It then has one result per element, in order. Otherwise the error is the one from the first element that fails. |
| Wrappers.MapAllSnoc | tools/challenge-parser/parser/plugins/add-video-question.js:32-40 | Extending a successful prefix by a success appends that result. |
| Wrappers.MapAllFailsAt | tools/challenge-parser/parser/plugins/add-video-question.js:32-40 | A failure right after a successful prefix is the error of the whole map. |
| Mdast.FindHeading | tools/challenge-parser/parser/plugins/add-video-question.js:3 | Returns the first top-level heading that spells the marker, or none; no earlier heading spells it. |
| Mdast.RegionEnd | tools/challenge-parser/parser/plugins/add-video-question.js:3 | Returns the first marker heading no deeper than the opening one, or the end; nothing before it closes the region. |
| Mdast.Between | tools/challenge-parser/parser/plugins/add-video-question.js:35-37 | Without a heading for the marker, nothing. Otherwise a run of nodes right after the first such heading that holds no marker heading of its level or higher, and ends at one or at the end. |
| Mdast.Before | tools/challenge-parser/parser/plugins/add-video-question.js:67 | A prefix of the nodes with no heading for the marker. When the marker has a heading, the prefix stops right at the first one. |
| Mdast.ContainsValue | tools/challenge-parser/parser/plugins/add-video-question.js:64 | The search succeeds exactly when some node, or some node inside one, has the value. |
| Mdast.RegionOf | tools/challenge-parser/parser/plugins/add-video-question.js:3-4 | For nodes laid out as before, heading, body and after, where no earlier node spells the marker and the body holds no closing heading, the region between is the body and the nodes before are the prefix. |
| Mdast.Render | tools/challenge-parser/parser/plugins/add-video-question.js:48 | No nodes render to the empty (falsy) string. A leading paragraph, heading or break renders non-empty. |
| Mdast.RenderAppend | tools/challenge-parser/parser/plugins/add-video-question.js:75-80 | The render of two runs of nodes is the two renders one after the other. |
| Mdast.SplitOnThematicBreak | tools/challenge-parser/parser/plugins/add-video-question.js:60 | The split always yields at least one group. |
| Mdast.SplitShape | tools/challenge-parser/parser/plugins/add-video-question.js:60 | The split gives one group per break plus one, and no group holds a break. |
| Mdast.SplitJoin | tools/challenge-parser/parser/plugins/add-video-question.js:60 | Splitting break-free groups joined by breaks gives back the groups. |
| Mdast.SplitNoBreaks | tools/challenge-parser/parser/plugins/add-video-question.js:60 | Break-free nodes in front extend only the first group. |
| Mdast.JoinWithBreaksEvery | tools/challenge-parser/parser/plugins/add-video-question.js:60 | Every node of a join is a break or a node of one of the groups. |
| Mdast.MarkerHeadingFound | tools/challenge-parser/parser/plugins/add-video-question.js:64 | The search finds a marker heading wherever it stands among the nodes. |
| Mdast.NoMarkerTextNoValue | tools/challenge-parser/parser/plugins/add-video-question.js:64 | A search for a marker value fails on content that spells no marker. |
| VideoQuestion.ParseSolution | tools/challenge-parser/parser/plugins/add-video-question.js:86-95 | The guarded block succeeds exactly on one node with one child whose value reads as a number that is at least 1. It then returns that number. The checks run in order, each with its own cause: too many nodes, too many children, a missing node or child, the empty string, and a number below 1. |
| VideoQuestion.GetSolution | tools/challenge-parser/parser/plugins/add-video-question.js:84-102 | A returned solution is at least 1. Every failure becomes the one error "A video solution should be a positive integer". It succeeds exactly when the guarded block does, and then returns the same number. |
| VideoQuestion.ParseNumber | tools/challenge-parser/parser/plugins/add-video-question.js:93 | A number is read exactly from decimal digits with at most one leading sign. After `-` it is at most 0, and otherwise at least 0. |
| VideoQuestion.SolutionSpellings | tools/challenge-parser/parser/plugins/add-video-question.js:93 | `+5` and `007` are read as 5 and 7. |
| VideoQuestion.Message | tools/challenge-parser/parser/plugins/add-video-question.js:52-54 | The message is the solution message exactly for a bad solution. |
| VideoQuestion.MessagesDistinct | tools/challenge-parser/parser/plugins/add-video-question.js:52-98 | Two errors have the same message exactly when they are equal or both are bad solutions. |
| VideoQuestion.DigitsValueZeros | tools/challenge-parser/parser/plugins/add-video-question.js:93 | Leading zeros do not change the value of a digit string. |
| VideoQuestion.NumberSpellings | tools/challenge-parser/parser/plugins/add-video-question.js:93 | Every number written with no sign, `+` or `-` and any leading zeros reads back as itself, negated after `-`. |
| VideoQuestion.NatToDecimal | tools/challenge-parser/parser/plugins/add-video-question.js:93 | The decimal spelling of a number is non-empty and all digits. |
| VideoQuestion.DecimalRoundTrip | tools/challenge-parser/parser/plugins/add-video-question.js:93 | Reading back the decimal spelling of n gives n. |
| VideoQuestion.SolutionFailures | tools/challenge-parser/parser/plugins/add-video-question.js:87-95 | Each named failure on a small input: too many nodes, a missing node or child, too many children, the empty string, "abc" (not a number), and "0" and "-1" (not positive). |
| VideoQuestion.GetAnswers | tools/challenge-parser/parser/plugins/add-video-question.js:59-82 | Gives one answer per thematic-break group (breaks + 1), in order, each the reading of its group. The only error is "Answer missing", raised exactly when some group has feedback and no answer. |
| VideoQuestion.AnswerOf | tools/challenge-parser/parser/plugins/add-video-question.js:62-81 | A group fails, only ever with "Answer missing", exactly when it holds the feedback value and nothing stands before the first feedback heading. Otherwise the answer has feedback exactly when the group holds the feedback value. |
| VideoQuestion.AnswerWithoutFeedback | tools/challenge-parser/parser/plugins/add-video-question.js:80 | A group without a feedback value is its whole rendering, with null feedback. |
| VideoQuestion.AnswerWithFeedback | tools/challenge-parser/parser/plugins/add-video-question.js:64-77 | An answer, then a feedback heading, then feedback, then nothing or a heading that closes the feedback, reads as the renderings of the answer and of the feedback alone. |
| VideoQuestion.AnswerOfFeedback | tools/challenge-parser/parser/plugins/add-video-question.js:64-77 | A group holding the feedback value, with something before its heading, reads as the renderings of what comes before it and of its region. |
| VideoQuestion.FeedbackWithoutAnswer | tools/challenge-parser/parser/plugins/add-video-question.js:66-72 | A feedback heading with nothing before it is "Answer missing". |
| VideoQuestion.GetQuestion | tools/challenge-parser/parser/plugins/add-video-question.js:47-57 | Errors in the answers, then in the solution, take precedence over a missing prompt. "text is missing" occurs exactly when both succeed and the prompt renders empty. No other error occurs, so the missing-solution check never fires. It succeeds exactly when the answers and the solution succeed and the prompt renders non-empty. A question carries the prompt's rendering, the answers and a solution of at least 1. |
| VideoQuestion.QuestionOfGroup | tools/challenge-parser/parser/plugins/add-video-question.js:33-39 | A group reads as a question with a non-empty prompt, at least one answer and a solution of at least 1. Otherwise it fails with "Answer missing", a bad solution or a missing prompt. |
| VideoQuestion.StartsQuestion | tools/challenge-parser/parser/plugins/add-video-question.js:20-24 | A node opens a question exactly when it has a first child whose value is `--text--`. |
| VideoQuestion.GroupQuestionNodes | tools/challenge-parser/parser/plugins/add-video-question.js:19-30 | The grouping loop fails with the TypeError exactly when the region is non-empty and does not open with `--text--`. Otherwise it cuts the region, in order, into groups that each open with their only `--text--` node. |
| VideoQuestion.PushOntoLast | tools/challenge-parser/parser/plugins/add-video-question.js:29 | Pushing onto the last group keeps the concatenation equal to the nodes seen. |
| VideoQuestion.GroupsIsGrouping | tools/challenge-parser/parser/plugins/add-video-question.js:19-30 | The reference grouping of a region is such a cut. |
| VideoQuestion.GroupingIsGroups | tools/challenge-parser/parser/plugins/add-video-question.js:19-30 | Such a cut is unique: it is the reference grouping. |
| VideoQuestion.GroupingCount | tools/challenge-parser/parser/plugins/add-video-question.js:20-26 | There is one group per `--text--` node. |
| VideoQuestion.FlattenAppend | tools/challenge-parser/parser/plugins/add-video-question.js:26-29 | Concatenating groups distributes over appending groups. |
| VideoQuestion.CountStartsAppend | tools/challenge-parser/parser/plugins/add-video-question.js:20-25 | `--text--` counts add over concatenation. |
| VideoQuestion.BuildQuestions | tools/challenge-parser/parser/plugins/add-video-question.js:32-40 | The second loop gives exactly the map of the question reading over the groups: every question in order, or the first error. |
| VideoQuestion.Transformer | tools/challenge-parser/parser/plugins/add-video-question.js:11-44 | With an empty region, nothing is assigned and nothing is thrown. On success, `file.data.questions` is assigned the questions. On an error, that error is thrown and the file is left alone. |
| VideoQuestion.Extract | tools/challenge-parser/parser/plugins/add-video-question.js:11-44 | A thrown error is the TypeError or an error of one question: "Answer missing", a bad solution or a missing prompt. |
| VideoQuestion.FileData.constructor | tools/challenge-parser/parser/plugins/add-video-question.js:42 | A file starts with no questions assigned. |
| VideoQuestion.ExtractUnassigned | tools/challenge-parser/parser/plugins/add-video-question.js:14 | Nothing is assigned exactly when the questions region is empty. |
| VideoQuestion.ExtractCrash | tools/challenge-parser/parser/plugins/add-video-question.js:17-29 | The TypeError occurs exactly when the region is non-empty and does not open with `--text--`. |
| VideoQuestion.ExtractQuestions | tools/challenge-parser/parser/plugins/add-video-question.js:32-42 | Assigned questions number one per `--text--` node, so at least one, and the i-th is the reading of the i-th group. |
| VideoQuestion.ExtractAborts | tools/challenge-parser/parser/plugins/add-video-question.js:32-40 | A thrown question error is the error of the first malformed group. |
| VideoQuestion.GroupsPartition | tools/challenge-parser/parser/plugins/add-video-question.js:19-30 | The groups cover the region exactly, in order, each holding one `--text--` node. |
| VideoQuestionRoundTrip.AnswerRoundTrip | tools/challenge-parser/parser/plugins/add-video-question.js:62-81 | An answer written with or without feedback reads back as its renderings. |
| VideoQuestionRoundTrip.AnswersRoundTrip | tools/challenge-parser/parser/plugins/add-video-question.js:59-82 | Answers written between thematic breaks read back as those answers, in order. |
| VideoQuestionRoundTrip.SolutionRoundTrip | tools/challenge-parser/parser/plugins/add-video-question.js:84-102 | A positive number written as a paragraph reads back as itself. |
| VideoQuestionRoundTrip.TextRegion | tools/challenge-parser/parser/plugins/add-video-question.js:35 | The `--text--` region of a written question is its prompt. |
| VideoQuestionRoundTrip.AnswersRegion | tools/challenge-parser/parser/plugins/add-video-question.js:36 | The `--answers--` region is its answers as written. |
| VideoQuestionRoundTrip.SolutionRegion | tools/challenge-parser/parser/plugins/add-video-question.js:37 | The `--video-solution--` region is its solution paragraph. |
| VideoQuestionRoundTrip.QuestionRoundTrip | tools/challenge-parser/parser/plugins/add-video-question.js:33-39 | A written question reads back as the record it was written from. |
| VideoQuestionRoundTrip.QuestionNodesShape | tools/challenge-parser/parser/plugins/add-video-question.js:20-26 | A written question opens with its only `--text--` node and holds no closing heading of level 1. |
| VideoQuestionRoundTrip.AnswersNodesShape | tools/challenge-parser/parser/plugins/add-video-question.js:59-60 | Written answers consist only of content, breaks and feedback headings. |
| VideoQuestionRoundTrip.DocumentGroups | tools/challenge-parser/parser/plugins/add-video-question.js:12-30 | The questions region of a written challenge opens with `--text--`, and its groups are the written questions. |
| VideoQuestionRoundTrip.DocumentRoundTrip | tools/challenge-parser/parser/plugins/add-video-question.js:11-44 | A challenge written from one or more questions is assigned exactly those questions, in order. |
| VideoQuestionRoundTrip.ParaPlain | tools/challenge-parser/parser/plugins/add-video-question.js:48 | A paragraph of non-marker text is content. |
| VideoQuestionRoundTrip.ParaRender | tools/challenge-parser/parser/plugins/add-video-question.js:48 | A one-text paragraph renders as `<p>text</p>`. |
| VideoQuestionRoundTrip.ExampleWellFormed | tools/challenge-parser/parser/plugins/add-video-question.js:11-44 | The worked example is laid out in the challenge format. |
| VideoQuestionRoundTrip.WorkedExample | tools/challenge-parser/parser/plugins/add-video-question.js:11-44 | The worked example passes through the whole plugin to that record. |
| Username.Utf16LengthChar | client/src/components/settings/Username.js:121 | A character above U+FFFF is two code units, any other one. |
| Username.Utf16LengthAppend | client/src/components/settings/Username.js:121 | Code units add up over concatenation. |
| Username.Utf16Length | client/src/components/settings/Username.js:121 | Length in UTF-16 code units is at least the number of characters, and equal to it for 7-bit text. |
| Username.LowerChar | client/src/components/settings/Username.js:105 | A capital A-Z becomes its small letter, every other character is kept, and no capital remains. Lower-casing keeps a character's 7-bit-ness, its plane and whether the pattern matches it. |
| Username.Lower | client/src/components/settings/Username.js:105 | Lower-casing keeps the length and works character by character. |
| Username.IsJsWhitespace | client/src/components/settings/Username.js:48 | On 7-bit characters, `\s` matches exactly the space and tab through carriage return. |
| Username.IsListedInvalidChar | client/src/components/settings/Username.js:48 | Every character the pattern lists is printable ASCII punctuation, neither a letter nor a digit. |
| Username.IsInvalidChar | client/src/components/settings/Username.js:48 | No ASCII letter or digit, and none of `+`, `-`, `_`, matches the pattern. |
| Username.ContainsInvalidChar | client/src/components/settings/Username.js:128 | The pattern test, tried from the left, matches exactly when some character matches. |
| Username.IsAscii | client/src/components/settings/Username.js:125 | The check, from the left, passes exactly when every character is below 128. |
| Username.ValidateFormInput | client/src/components/settings/Username.js:120-132 | Fewer than 3 code units gives "too short" before any character check. Otherwise a non-ASCII name or a pattern match gives "invalid characters". The result is valid exactly when its error is null, and exactly when the name is long enough and every character is allowed. |
| Username.ValidIffAlphabet | client/src/components/settings/Username.js:48-54 | A name is accepted exactly when it is at least 3 long and uses only ASCII letters and digits, `+`, `-`, `_` and the non-whitespace control characters. |
| Username.AllowedCharIsAlphabet | client/src/components/settings/Username.js:48 | The same alphabet, character by character. |
| Username.Utf16LengthLower | client/src/components/settings/Username.js:105 | Lower-casing keeps the UTF-16 length. |
| Username.ValidateLower | client/src/components/settings/Username.js:105-111 | Validating the lowered value gives the same verdict as validating what was typed. |
| Username.TooShortExample | client/src/components/settings/Username.js:121-123 | "ab" is too short. |
| Username.InvalidCharExamples | client/src/components/settings/Username.js:128-130 | "a b" and "no.dots" contain invalid characters. |
| Username.NonAsciiExample | client/src/components/settings/Username.js:125-127 | A name with a non-ASCII letter contains invalid characters. |
| Username.AstralExample | client/src/components/settings/Username.js:120-127 | A letter followed by an emoji is 3 code units, so long enough, and then fails the 7-bit check with "invalid characters". |
| Username.AcceptedExample | client/src/components/settings/Username.js:131 | "camper_42" is accepted. |
| Username.RenderAlerts | client/src/components/settings/Username.js:134-164 | The first matching rule wins: 1. a truthy error gives danger with that message; 2. a name that is not available gives a warning; 3. validating gives info; 4. an available name gives success. The final `null` is never reached. |
| Username.SaveButtonDisabled | client/src/components/settings/Username.js:194-196 | Enabled exactly when the name is available, the local verdict is valid, the form is not pristine and save was not clicked. |
| Username.UsernameSettings.constructor | client/src/components/settings/Username.js:57-66 | Starts pristine with the saved name and display name, the initial verdict and no click. |
| Username.UsernameSettings.HandleChange | client/src/components/settings/Username.js:101-118 | Stores the display value and its lowered form. Pristine means the lowered form equals the saved name. Validates the lowered form and keeps the click flag. Requests the remote check of the lowered form exactly when the form is not pristine and the verdict is valid. |
| Username.UsernameSettings.HandleSubmit | client/src/components/settings/Username.js:88-99 | Always sets the click flag and changes nothing else. It submits the display value exactly when the verdict held is valid, and what it submits passes validation. |
| Username.UsernameSettings.ComponentDidUpdate | client/src/components/settings/Username.js:73-86 | If the saved name changed and the typed value did not, pristine is recomputed against the new name and the click flag is cleared. Otherwise nothing changes. |
| Username.UsernameSettings.SaveDisabled | client/src/components/settings/Username.js:166-196 | The rendered button stays disabled after a click and while pristine. Enabled, it implies an available name whose display value passes validation. |
| Username.UsernameSettings.ShownAlert | client/src/components/settings/Username.js:190-191 | There is an alert exactly when not pristine. It is danger exactly when not validating, a verdict is held and the display value fails validation. The message is that verdict's error. |
| Username.RetypeSavedName | client/src/components/settings/Username.js:101-118 | Typing the saved name with capitals keeps the form pristine: no remote check, no alert, save disabled. |
| Username.TypeThenSave | client/src/components/settings/Username.js:88-118 | Typing a valid new name requests its remote check. Saving then submits exactly what was typed, and the button is then disabled. |
| Block.TagCompleted | client/src/templates/Introduction/components/block.tsx:112-121 | Keeps the challenges' number and order. Each is marked completed exactly when its id is among the completed ids. |
| Block.CountCompleted | client/src/templates/Introduction/components/block.tsx:111 | The count of completed entries is at most the number of entries. |
| Block.CountCompletedAll | client/src/templates/Introduction/components/block.tsx:223-226 | The count equals the length exactly when every entry is completed. |
| Block.Tally | client/src/templates/Introduction/components/block.tsx:111-121 | The counter loop gives the tagged challenges and the number of completed ones, at most their number. The check mark shows exactly when every challenge's id is completed. |
| Block.ShowsCheckMark | client/src/templates/Introduction/components/block.tsx:223-226 | With the tally's count, the check mark shows exactly when every challenge is completed. |
| Block.EmptyBlockTally | client/src/templates/Introduction/components/block.tsx:223-226 | An empty block shows the check mark. |
| Block.IsProjectChallenge | client/src/templates/Introduction/components/block.tsx:124-137 | Never holds in `take-home-projects`. A passing challenge has type 3, 4, 5 or 10. |
| Block.IsProjectBlock | client/src/templates/Introduction/components/block.tsx:123-138 | Holds exactly when some challenge passes the per-challenge test. |
| Block.ProjectBlockIff | client/src/templates/Introduction/components/block.tsx:123-138 | Holds exactly when the block is not `take-home-projects` and some challenge is type 5 at order 10 or has type 3, 4 or 10. |
| Block.TakeHomeNeverProject | client/src/templates/Introduction/components/block.tsx:132-137 | `take-home-projects` is never a project block. |
| Block.BlockRenderer | client/src/templates/Introduction/components/block.tsx:240-243 | A project block gets the project layout. Otherwise the new responsive web design certification gets the grid layout, and everything else the default block. |
| Block.ShowSpacer | client/src/templates/Introduction/components/block.tsx:288 | The spacer is left out exactly when the grid layout is chosen. |
| Block.BlockLayout | client/src/templates/Introduction/components/block.tsx:240-288 | `take-home-projects` never gets the project layout. The spacer is absent exactly under the grid layout. |
| Block.CompletedIds | client/src/templates/Introduction/components/block.tsx:33-36 | The ids of the completed challenges, one per challenge and in order. |
| Block.CompletedIdsMembership | client/src/templates/Introduction/components/block.tsx:33-36 | An id is projected exactly when some completed challenge carries it. |
| Block.TaggedFromStore | client/src/templates/Introduction/components/block.tsx:112-116 | A challenge shows as completed exactly when the store holds a completed challenge with its id. |

## Left out

- VideoQuestion.ParseNumber: reads an optional sign and decimal digits only. It does not model the rest of JavaScript's `Number()`: fractions, exponents, hexadecimal, surrounding white space and `Infinity`. So "1.5" and " 2 " are not-a-number here, where the code accepts them.
- VideoQuestion.GetSolution: the cause is kept as a value. The code writes it to the console with `console.log`, which is I/O.
- The tree utilities `between-headings`, `before-heading`, `mdast-to-html`, `split-on-thematic-break` and `unist-util-find` are not part of this model. Their stand-ins `Between` and `Before` look for the opening and closing headings only among the top-level nodes, and `Render` is a simplified HTML serializer rather than the real one.
- `mdast-builder`'s `root` is stood in by the node sequence itself.
- A node without a `children` array is a node with no children. Reading a missing node or child in `getSolution` is the `Unreadable` cause.
- VideoQuestion.Message: the TypeError's message is V8's wording, "Cannot read properties of undefined (reading 'push')". Other engines word it differently, for example "Cannot read property 'push' of undefined". Only the error's kind is fixed by the code.
- `plugin()` only returns `transformer`. It has no member of its own.
- Username.LowerChar: lowers A-Z only. Unicode case mapping, which can change a string's length, is left out.
- Username.ValidateLower, Username.UsernameSettings.HandleSubmit, Username.UsernameSettings.SaveDisabled, Username.UsernameSettings.ShownAlert, Username.TypeThenSave: their claims that the display value passes validation hold only because lowering is A-Z only. Under JavaScript's `toLowerCase` they fail. For example, U+212A KELVIN SIGN lowers to `k`, so "\u212Aab" validates as "kab", and the non-ASCII display value is submitted with the button enabled.
- Username.IsAscii: stands in for the `validator` library's `isAscii` as "every character is below 128". Its rejection of the empty string is not modelled, because the length check comes first.
- Username.UsernameSettings: `setState` is applied at once. React's batching and the timing of its callbacks are left out.
- `e.preventDefault()` is left out.
- The dispatches `validateUsername` and `submitNewUsername` are returned from `HandleChange` and `HandleSubmit` as values.
- `isValidUsername` and `validating` are parameters.
- Redux and React wiring is left out: `connect`, `bindActionCreators`, `createSelector`, `mapStateToProps` in `Username.js`, and prop types.
- Block: `IsNewRespCert` is a parameter. `isAuditedCert` only decides a translation link in the markup and is left out.
- `handleBlockClick` is left out: `playTone`, `executeGA` and `toggleBlock` are effects outside the component.
- `renderProgressBar` (a constant 25%), `renderBlockIntros`, `renderCheckMark`'s icons, i18n `t()` lookups and the rest of the JSX are markup.
- `controllers/pairCoding.js` is left out: database and HTTP callbacks with clock arithmetic.
- `api/src/plugins/auth0.test.ts` and the `e2e/` browser tests are tests of integrated systems.
- `client/src/components/profile/profile.tsx`, `SuperBlockIntro.tsx` and `web/pages/learn/[superblock]/[block]/[id].tsx` only render content.
