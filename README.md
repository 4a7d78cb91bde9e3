# Library front end: watermark remover and page logic

This project models the core of a small online library's web front end. The
model is written in Dafny, and the properties below are proved about it.

At the centre is the watermark remover (`src/utils/watermarkRemover.js`). It
does two kinds of work:

- **Image filters.** In-place passes over the RGBA bytes of a rendered PDF page:
  - the semi-transparent overlay filter;
  - the repeated-block filter, with block copying, block similarity and opacity reduction;
  - the contrast pass.
- **Text sanitising.** String rewrites:
  - cleaning file names and text;
  - recognising system-generated author names;
  - cleaning author names and finding an author in a title;
  - choosing the author of a PDF's document information.

Around it sit the pure parts of the pages:

- the sign-in form's password hint and validation;
- the two upload pages' extraction of form fields from a PDF, and their submission rules;
- the word wrap and text placement of the generated covers;
- the book list's and home page's search filters, PDF URLs, download names, review drafts and stars;
- the dashboard's tabs, avatar checks and list updates;
- the PDF reader's zoom, view-mode and loading state.

Modules:

- `Wrappers` holds `Option` and `Result`.
- `Strings` holds the JavaScript string operations the code uses: `trim`, case mapping, `split`, `indexOf`, `includes`, and decimal numbers.
- `Regex` is a small regular-expression engine for the patterns the code uses.
  - It keeps JavaScript's backtracking order: a node's possible match ends are listed in the order the JavaScript engine tries them.
  - It models `test`, `replace` with and without `g`, and `match` with one capture group.
  - The global replace advances past empty matches.
- `WatermarkText`, `WatermarkAuthors` and `WatermarkPixels` model `watermarkRemover.js`.
- `CoverLayout` holds the word wrap shared by both cover generators.
- `Books` holds the book record and the URL and name logic the pages share.
- There is one module per page component:
  - `AuthForm`;
  - `PdfUpload` (`EnhancedPDFUpload.jsx`);
  - `BookUploadForm`;
  - `BookDetails`;
  - `Home`;
  - `UserDashboard`;
  - `PdfReader` (`EnhancedPDFReader.jsx`).

The byte filters, the accumulator loops and the wrap loop are methods with loops, proved against functions on sequences. The page state the sign-in form, the upload pages and the reader update in place is held in classes. Everything else is functions and lemmas.

Where the code and its description disagree, the model follows the code:

- The repeated-block filter compares a block only with blocks that lie both strictly below it and strictly to its right. The inner loop starts at `x + 20` for every later row (`src/utils/watermarkRemover.js:212-213`). It does not compare every later block.
- File-name patterns are replaced by a space, not removed (`src/utils/watermarkRemover.js:104`).
- `isSystemGenerated` rejects only whole names, so `Adobe Acrobat` passes.
- `cleanAuthorName("By John Smith -")` gives `John Smith -`, not `John Smith`. The suffix pattern only removes a final `author`, `writer` or `creator`, so the trailing ` -` stays.
- The Author and Creator entries are not tested again after `cleanAuthorName`.

## Model

| member | source | states |
|---|---|---|
| WatermarkPixels.OverlaidExactly | src/utils/watermarkRemover.js:176-195 | a byte changes exactly when it is the alpha of a pixel with 50 < a < 255 and r+g+b > 600 (brightness > 200), and then it becomes max(0, a-100); no byte grows |
| WatermarkPixels.RemoveSemiTransparentOverlays | src/utils/watermarkRemover.js:176-195 | the loop over the pixels leaves exactly `Overlaid` of the old buffer |
| WatermarkPixels.GetImageBlock | src/utils/watermarkRemover.js:229-238 | returns the square copied row by row, and only reads the buffer |
| WatermarkPixels.PushRow | src/utils/watermarkRemover.js:232-235 | the inner loop appends the row's size*4 values |
| WatermarkPixels.BlockAt | src/utils/watermarkRemover.js:229-238 | the block has size*size*4 values, and value (dy*size+dx)*4+c is channel c of pixel (x+dx, y+dy) |
| WatermarkPixels.RowsLength | src/utils/watermarkRemover.js:231-236 | the first `rows` rows hold rows*size*4 values |
| WatermarkPixels.Coordinates | src/utils/watermarkRemover.js:233 | index y*width+x gives back row y and column x |
| WatermarkPixels.CalculateBlockSimilarity | src/utils/watermarkRemover.js:243-256 | the accumulator loop returns `Similarity`: 0 on a length mismatch; NaN for empty blocks or a pixel cut short; otherwise 1 - totalDiff/maxDiff |
| WatermarkPixels.SimilarExactly | src/utils/watermarkRemover.js:243-256 | similarity > 0.9 exactly when the lengths agree, the blocks are non-empty whole pixels, and 40*totalDiff < 765*length (10*totalDiff < maxDiff) (also line 216) |
| WatermarkPixels.SimilaritySymmetric | src/utils/watermarkRemover.js:243-256 | the similarity does not depend on the order of the blocks |
| WatermarkPixels.SimilarityIgnoresAlpha | src/utils/watermarkRemover.js:247-251 | blocks that differ only in alpha values score the same |
| WatermarkPixels.SimilaritySame | src/utils/watermarkRemover.js:243-256 | blocks with the same colour values score exactly 1 |
| WatermarkPixels.ReducedExactly | src/utils/watermarkRemover.js:261-270 | a byte changes exactly when it is the non-zero alpha of a pixel inside the square, and becomes max(0, a-100) |
| WatermarkPixels.ReduceBlockOpacity | src/utils/watermarkRemover.js:261-270 | the double loop leaves exactly `Reduced` of the old buffer |
| WatermarkPixels.BlockInside | src/utils/watermarkRemover.js:207-213 | a corner the loops reach (x < width-20, y < height-20) gives a square inside the buffer |
| WatermarkPixels.ReducedDimmed | src/utils/watermarkRemover.js:212-218 | dimming a square at x2 ≥ 20, y2 ≥ 20 only lowers alpha bytes of pixels past the first row and column of blocks |
| WatermarkPixels.DimmedMeans | src/utils/watermarkRemover.js:200-224 | `Dimmed` means: same length, no byte grows, and a changed byte is an alpha byte of a pixel with x ≥ 20 and y ≥ 20 |
| WatermarkPixels.DimmedTransitive | src/utils/watermarkRemover.js:200-224 | two such passes in a row are one such change |
| WatermarkPixels.CompareAndDim | src/utils/watermarkRemover.js:214-219 | one x2 step: reads block2, and dims it exactly when it is similar to block1 |
| WatermarkPixels.ScanRowLoop | src/utils/watermarkRemover.js:213-220 | the `x2` loop leaves exactly the dimming of every similar block to the right, and only dims |
| WatermarkPixels.ScanBelowLoop | src/utils/watermarkRemover.js:212-221 | the `y2` loop runs the `x2` loop on every row of blocks below, and only dims |
| WatermarkPixels.CompareRowLoop | src/utils/watermarkRemover.js:208-222 | the `x` loop reads each block of its row and runs the `y2` loop for it, and only dims |
| WatermarkPixels.RemoveRepetitivePatterns | src/utils/watermarkRemover.js:200-224 | the four nested loops leave exactly `RepetitionsRemoved` of the old buffer, which is `Dimmed` from it |
| WatermarkPixels.ContrastEnhancedExactly | src/utils/watermarkRemover.js:279-283 | alpha bytes are untouched, and every colour byte is mapped on its own |
| WatermarkPixels.EnhanceContrastBy | src/utils/watermarkRemover.js:279-283 | the loop leaves exactly `ContrastEnhanced` of the old buffer |
| WatermarkPixels.EnhanceContrast | src/utils/watermarkRemover.js:275-284 | `enhanceContrast` as written: the pass with the factor computed from contrast 1.2 |
| WatermarkPixels.EnhanceContrastInverts | src/utils/watermarkRemover.js:276-277 | that factor is -2849/235: 0 becomes 255, 255 becomes 0, 127 becomes 140 and 129 becomes 116 |
| WatermarkPixels.ContrastedAntitone | src/utils/watermarkRemover.js:277-282 | with a negative factor a larger byte never comes out larger |
| WatermarkPixels.ContrastSpreads | src/utils/watermarkRemover.js:280-282 | with a factor of at least 1 the mapping keeps the order of bytes and moves every byte away from 128 |
| WatermarkPixels.EnhanceContrastCorrected | src/utils/watermarkRemover.js:275-284 | the pass with 1.2 used as the factor itself |
| WatermarkPixels.ClampedRound | src/utils/watermarkRemover.js:280-282 | storing into the clamped byte array rounds to a byte within 0.5, clamping at 0 and 255 |
| WatermarkPixels.ProcessCanvasForWatermarks | src/utils/watermarkRemover.js:144-171 | the three passes in order: each colour byte ends up as the contrast mapping of the original byte, and an alpha byte is never raised |
| WatermarkText.AppliedKeepsOut | src/utils/watermarkRemover.js:128-130 | a pass over a pattern table brings in no character that is in neither the string nor the replacement (also lines 103-105) |
| WatermarkText.AppliedRemoves | src/utils/watermarkRemover.js:128-130 | after a one-character pattern of the table, the characters it accepts are gone for good |
| WatermarkText.MarksStripped | src/utils/watermarkRemover.js:7-59 | the watermark table deletes every ©, ® and ™ (also lines 128-130) |
| WatermarkText.CleanTextNormalized | src/utils/watermarkRemover.js:132-136 | non-empty text comes out trimmed, with single spaces as its only whitespace (no newline or tab) |
| WatermarkText.CollapseStep | src/utils/watermarkRemover.js:134-135 | `\s+` → ' ' is the whitespace collapse, after which `\n\s*\n` finds nothing to replace |
| WatermarkText.BlankLinesNowhere | src/utils/watermarkRemover.js:135 | a text without a line feed is left alone by `\n\s*\n` → '\n' |
| WatermarkText.CleanTextContent | src/utils/watermarkRemover.js:122-139 | empty text is returned as it is; otherwise the result is trimmed and single-spaced, and it never holds ©, ® or ™ |
| WatermarkText.CleanTextNoMarks | src/utils/watermarkRemover.js:122-139 | no ©, ® or ™ survives `cleanTextContent` |
| WatermarkText.StripPdfExactly | src/utils/watermarkRemover.js:97-100 | exactly four characters go, and only when the name ends in `.pdf` in any case |
| WatermarkText.DashesGone | src/utils/watermarkRemover.js:108-111 | after the dash and underscore replacement, collapse and trim, no '-' or '_' is left |
| WatermarkText.TidyName | src/utils/watermarkRemover.js:94-111 | the tidied name holds no '-' or '_' and is trimmed and single-spaced |
| WatermarkText.CapitalizedShape | src/utils/watermarkRemover.js:114 | upper-casing word starts keeps that shape and leaves no word start in lower case |
| WatermarkText.CleanNameShape | src/utils/watermarkRemover.js:93-117 | `cleanFilename`'s result has no dash or underscore, is trimmed, has single spaces only, and starts every word-character run with no lower-case letter |
| WatermarkText.CleanFilename | src/utils/watermarkRemover.js:93-117 | the method returns `CleanName` of the name, with the same guarantees |
| WatermarkAuthors.SystemGeneratedExactly | src/utils/watermarkRemover.js:364-389 | true exactly when the trimmed string is one of the 17 names in any case, is empty or blank, starts with letter + ":\", or starts with "/" + letter |
| WatermarkAuthors.AdobeAcrobatAccepted | src/utils/watermarkRemover.js:366-382 | `Adobe Acrobat` is not system-generated, although both words are listed |
| WatermarkAuthors.AdobeRejected | src/utils/watermarkRemover.js:366-382 | a listed name on its own, `ADOBE`, is rejected in any case |
| WatermarkAuthors.WholeNamesTest | src/utils/watermarkRemover.js:366-382 | some `^name$` pattern with the `i` flag accepts a string exactly when it is one of the names, ignoring case |
| WatermarkAuthors.PathPatternsTest | src/utils/watermarkRemover.js:383-385 | the blank, Windows-path and Unix-path patterns accept exactly blank strings and the two path starts |
| WatermarkAuthors.CleanAuthorNameNormalized | src/utils/watermarkRemover.js:394-424 | the result is trimmed, with single spaces only (empty for empty input) |
| WatermarkAuthors.ByPrefixDropped | src/utils/watermarkRemover.js:401 | a leading `By ` in any case, followed by a non-space, is removed and nothing else is |
| WatermarkAuthors.SuffixEndsInR | src/utils/watermarkRemover.js:402 | the suffix pattern can only match a string whose last character is `r` or `R` |
| WatermarkAuthors.SuffixKept | src/utils/watermarkRemover.js:402 | a string that does not end in `r` is left unchanged by the suffix replacement |
| WatermarkAuthors.MarkupRemovalKeeps | src/utils/watermarkRemover.js:403-404 | without angle brackets and quotes the two removals change nothing |
| WatermarkAuthors.StripAuthorBy | src/utils/watermarkRemover.js:397-405 | a trimmed name starting `By ` that does not end in `r` and has no markup loses exactly its first three characters |
| WatermarkAuthors.EmailNameWithoutAt | src/utils/watermarkRemover.js:408-413 | without an `@` the email step changes nothing |
| WatermarkAuthors.FinishKeeps | src/utils/watermarkRemover.js:416-421 | a normalized name whose words are already capitalised passes the last steps unchanged |
| WatermarkAuthors.ByNameStripped | src/utils/watermarkRemover.js:397-405 | the first part turns `By ` + name into the name, for a trimmed name without markup that does not end in `r` |
| WatermarkAuthors.CleanAuthorNameAfterBy | src/utils/watermarkRemover.js:394-424 | `By ` + name cleans to the name itself when the name is normalized, capitalised, free of markup and `@`, and does not end in `r` |
| WatermarkAuthors.JohnSmithDashShaped | src/utils/watermarkRemover.js:416-421 | `John Smith -` is normalized and already capitalised |
| WatermarkAuthors.JohnSmithDashPlain | src/utils/watermarkRemover.js:403-413 | `John Smith -` has no markup and no `@`, and ends in a dash |
| WatermarkAuthors.CleanAuthorNameKeepsDash | src/utils/watermarkRemover.js:394-424 | `cleanAuthorName("By John Smith -")` is `John Smith -`: the prefix goes and the trailing ` -` stays |
| WatermarkAuthors.StripAuthorNoMarkup | src/utils/watermarkRemover.js:397-405 | after the prefix, suffix, bracket and quote removal no '<', '>', '"' or "'" is left |
| WatermarkAuthors.CleanAuthorNameNoMarkup | src/utils/watermarkRemover.js:394-424 | the result never holds '<', '>', '"' or "'" |
| WatermarkAuthors.EmailNameLocalPart | src/utils/watermarkRemover.js:408-413 | the email step keeps the part before the first '@', with '.' and '_' turned into spaces, when that part is non-empty; otherwise it changes nothing |
| WatermarkAuthors.CleanAuthorNameEmail | src/utils/watermarkRemover.js:394-424 | with a non-empty local part, the name is made from that local part alone |
| WatermarkAuthors.FinishIs | src/utils/watermarkRemover.js:416-421 | the last steps are capitalise the words, collapse the whitespace, trim |
| WatermarkAuthors.CandidateAccepted | src/utils/watermarkRemover.js:440-447 | a candidate from a title pattern is a non-empty normalized name that is not system-generated |
| WatermarkAuthors.FirstAuthorAccepted | src/utils/watermarkRemover.js:429-451 | the result is '' exactly when no pattern proposes a candidate; otherwise it is acceptable |
| WatermarkAuthors.FirstAuthorOf | src/utils/watermarkRemover.js:440-448 | the loop with its early return yields the first pattern's acceptable candidate |
| WatermarkAuthors.ExtractAuthorFromTitle | src/utils/watermarkRemover.js:429-451 | returns '' or a normalized name that is not system-generated |
| WatermarkAuthors.ChosenAuthorPriority | src/utils/watermarkRemover.js:337-344 | Author if acceptable, else Creator if acceptable (both cleaned but not tested again), else the title's author; the choice is always normalized |
| WatermarkAuthors.ChooseAuthor | src/utils/watermarkRemover.js:337-344 | the if/else-if chain computes that choice |
| WatermarkAuthors.CleanEntryNormalized | src/utils/watermarkRemover.js:346-354 | an empty entry becomes null; any other is non-empty and normalized |
| WatermarkAuthors.CleanMetadataTexts | src/utils/watermarkRemover.js:346-354 | title, subject and creator are null or non-empty normalized texts |
| WatermarkAuthors.CleanMetadataAuthor | src/utils/watermarkRemover.js:337-354 | the author is null or a non-empty normalized name |
| WatermarkAuthors.ExtractCleanMetadata | src/utils/watermarkRemover.js:317-358 | returns `CleanMetadata`: `{}` when the metadata cannot be read, else the cleaned entries, with producer and dates raw |
| CoverLayout.WrapTitle | src/utils/watermarkRemover.js:484-498 | the forEach loop yields `Wrapped` of the title's words |
| CoverLayout.TestLine | src/components/BookUploadForm.jsx:125 | the test line is the word alone on an empty line, else the line, a space and the word |
| CoverLayout.WrappedNonEmpty | src/components/BookUploadForm.jsx:120-134 | no line is empty, and an empty title gives no line |
| CoverLayout.WrappedCount | src/components/BookUploadForm.jsx:120-134 | there are never more lines than words |
| CoverLayout.WrappedFits | src/components/BookUploadForm.jsx:124-133 | every line fits the width, unless it is one word on its own |
| CoverLayout.OverWideAlone | src/components/BookUploadForm.jsx:125-132 | a non-empty word wider than the line ends up on a line of its own |
| CoverLayout.WrappedKeepsText | src/utils/watermarkRemover.js:484-498 | for a title without empty words, the lines joined by spaces give the title back |
| CoverLayout.FoldKeepsLines | src/utils/watermarkRemover.js:488-497 | the loop only ever adds lines after those already pushed |
| CoverLayout.UploadLayout | src/components/BookUploadForm.jsx:137-144 | title line i at y = 180 - 15n + 30i on x = 150, symmetric about y = 165; the author placeholder at 180 + 15n + 40 |
| CoverLayout.GenerateCoverImage | src/components/BookUploadForm.jsx:86-147 | the labels are the wrap at width 200 placed as above |
| CoverLayout.FallbackLayout | src/utils/watermarkRemover.js:500-511 | title lines at y = 200 + 40i; `by <author>` at (200, 450) exactly when the author is not blank; that line lies below every title line exactly when there are at most 7 lines, and the title stays on the 600-pixel canvas exactly when there are at most 10 |
| CoverLayout.GenerateCleanFallbackCover | src/utils/watermarkRemover.js:456-522 | the labels are the wrap at width 350 placed as above |
| AuthForm.PasswordStrengthExactly | src/components/AuthForm.jsx:87-91 | Weak exactly below six characters; Strong exactly from nine characters with an upper-case letter, a digit and a symbol; a long password lacking one of these is Medium |
| AuthForm.StrengthGrows | src/components/AuthForm.jsx:87-91 | appending characters never lowers the strength |
| AuthForm.EmailShapedNeeds | src/components/AuthForm.jsx:97 | an address that passes `\S+@\S+\.\S+` has at least five characters, an '@' and a '.' |
| AuthForm.EmailAccepted | src/components/AuthForm.jsx:97 | `reader@example.com` passes |
| AuthForm.EmailWithoutDot | src/components/AuthForm.jsx:97 | an address whose only '@' has no '.' anywhere after it fails |
| AuthForm.EmailSpaceBeforeAt | src/components/AuthForm.jsx:97 | an address whose only '@' is its first character or follows a space fails |
| AuthForm.EmailSpaceAfterAt | src/components/AuthForm.jsx:97 | an address whose only '@' is directly followed by a space fails |
| AuthForm.ValidationFields | src/components/AuthForm.jsx:93-106 | each field has an error entry exactly when its own check fails, with that check's message |
| AuthForm.ValidationCredentials | src/components/AuthForm.jsx:96-99 | email: 'Email is required' or 'Invalid email address'; password: flagged exactly below six characters, so a password that passes is never Weak |
| AuthForm.ValidationRegistration | src/components/AuthForm.jsx:95 | login mode never flags name, confirmation or role; registration flags a missing name, an empty or different confirmation, and an empty role (also lines 100-104) |
| AuthForm.SetValue | src/components/AuthForm.jsx:108-109 | only the named field changes |
| AuthForm.AuthFormState.constructor | src/components/AuthForm.jsx:65-78 | login mode, empty form, no errors, nothing touched |
| AuthForm.AuthFormState.SwitchMode | src/components/AuthForm.jsx:327 | only the mode changes (also lines 338) |
| AuthForm.AuthFormState.HandleChange | src/components/AuthForm.jsx:108-112 | sets the field, clears only that field's error, and marks only that field touched |
| AuthForm.AuthFormState.HandleSubmit | src/components/AuthForm.jsx:114-188 | a request is sent exactly when validation returns no error |
| AuthForm.SentFormsAreSound | src/components/AuthForm.jsx:93-106 | a form that passes has a well-shaped email and a password that is not Weak, and when registering a name, a role and a matching confirmation (also lines 118-131) |
| PdfUpload.ExtractionFields | src/components/EnhancedPDFUpload.jsx:102-192 | title from non-blank metadata, else the cleaned name; after a failure the cleaned name or 'Untitled Book'; the author is the metadata's exactly when it is non-blank, else ''; category 'Non-Fiction'; after a failure empty metadata and a fallback cover |
| PdfUpload.DescriptionShape | src/components/EnhancedPDFUpload.jsx:133-147 | starts with the subject and a blank line exactly when the subject is non-blank; quotes the title; contains ` by <author>` exactly when there is an author; ends with the matching closing sentence |
| PdfUpload.IntroductionParts | src/components/EnhancedPDFUpload.jsx:136-146 | how the parts of a description place the title and the author |
| PdfUpload.PublishYearValue | src/components/EnhancedPDFUpload.jsx:149-160 | the year is written in decimal and reads back as the parsed year when it is after 1900, else as the current year |
| PdfUpload.NeverDetected | src/components/EnhancedPDFUpload.jsx:30 | the detected flag starts false and is never set, so `watermarkRemoved` is always false (also lines 82, 114, 172) |
| PdfUpload.ExtractedFormValid | src/components/EnhancedPDFUpload.jsx:342 | an extracted form with a title is valid; the author is not required |
| PdfUpload.UploadPage.constructor | src/components/EnhancedPDFUpload.jsx:9-30 | empty form, no file, flag false, idle |
| PdfUpload.UploadPage.ChooseFile | src/components/EnhancedPDFUpload.jsx:206-224 | a PDF sets `uploads/<name>` and merges the extraction; any other file changes nothing (also lines 236-259) |
| PdfUpload.UploadPage.RegenerateCover | src/components/EnhancedPDFUpload.jsx:262-278 | with a PDF chosen only the cover changes; without one nothing changes |
| PdfUpload.UploadPage.Submit | src/components/EnhancedPDFUpload.jsx:280-340 | sends the form's fields with the author left out when empty; success only when the book is created |
| PdfUpload.UploadPage.ResetAfterSuccess | src/components/EnhancedPDFUpload.jsx:308-327 | the form and page state return to their initial values |
| BookUploadForm.UpperFirst | src/components/BookUploadForm.jsx:216 | only the first character changes, to upper case |
| BookUploadForm.StripFirstPdfExactly | src/components/BookUploadForm.jsx:215 | exactly the first lower-case `.pdf` is cut, wherever it stands; a name without one is kept (also lines 242) |
| BookUploadForm.StripFirstPdfLength | src/components/BookUploadForm.jsx:215 | the name shrinks by four exactly when it holds `.pdf` |
| BookUploadForm.TitleFromNameExactly | src/components/BookUploadForm.jsx:215-216 | same length as the stripped name; dashes and underscores become spaces; only the first character is upper-cased |
| BookUploadForm.TitleHasNoDash | src/components/BookUploadForm.jsx:215 | the title holds no '-' and no '_' |
| BookUploadForm.TitleKeepsUpperExtension | src/components/BookUploadForm.jsx:215 | `b.PDF` gives `B.PDF`: the extension is cut only in lower case |
| BookUploadForm.TitleCutsInnerExtension | src/components/BookUploadForm.jsx:215 | `a.pdf.b` gives `A.b`: the first `.pdf` is cut even when it is not at the end |
| BookUploadForm.ExtractionFields | src/components/BookUploadForm.jsx:209-253 | author is always 'Unknown Author' and category 'Non-Fiction'; success gives the derived title; failure gives the stripped name or 'Untitled Book' |
| BookUploadForm.ExtractedFormValid | src/components/BookUploadForm.jsx:452 | a merged form is valid exactly when the extraction failed or the name is not just `.pdf` |
| BookUploadForm.SubmissionExactly | src/components/BookUploadForm.jsx:332-450 | sent exactly with a token, a chosen PDF and a reachable server; success only when accepted; the session is cleared exactly on a 401 refusal; a refusal whose body is JSON `null` throws into the `catch` and is the `Dropped` case, which keeps the session |
| BookUploadForm.SignOutAlert | src/components/BookUploadForm.jsx:431-434 | the 401 alert starts 'Authentication Error: ' and ends '. Please log in again.' |
| BookUploadForm.RefusalMessage | src/components/BookUploadForm.jsx:408-441 | a refusal's alert always names a non-empty message |
| BookUploadForm.UploadPage.constructor | src/components/BookUploadForm.jsx:25-61 | empty form, no file, idle, with the stored token and user |
| BookUploadForm.UploadPage.ChooseFile | src/components/BookUploadForm.jsx:268-330 | a PDF is kept and the extraction merged with the blob URL as its file; any other file changes nothing |
| BookUploadForm.UploadPage.Submit | src/components/BookUploadForm.jsx:332-450 | the outcome of `Submission`; a 401 removes the stored token and user |
| Books.PdfUrlExactly | src/components/BookDetails.jsx:189-193 | a path not starting with 'http' or 'blob:' gets 'http://localhost:5000/' in front; any other is kept; the result is a URL and normalising twice changes nothing |
| Books.SplitLast | src/components/BookDetails.jsx:220 | the last piece of a split is the end of the string after a separator |
| Books.DownloadFilenameExactly | src/components/BookDetails.jsx:218-223 | the file name is the end of the path after its last '/', or the whole path when there is none |
| Books.DownloadNames | src/components/BookDetails.jsx:248 | 'title - author.pdf' or 'title.pdf'; the home page's name equals it exactly when there is an author, and otherwise reads 'undefined' |
| Books.WithPdfUrl | src/components/BookDetails.jsx:195-198 | the same book with only its PDF URL normalised |
| BookDetails.FilteredExactly | src/components/BookDetails.jsx:272-275 | keeps exactly the books whose title, or present author, contains the term ignoring case; an empty term keeps all |
| BookDetails.FilteredAppend | src/components/BookDetails.jsx:272-275 | the filter keeps the books' order |
| BookDetails.DraftUpdatesLocal | src/components/BookDetails.jsx:78-96 | each update touches only the given book's draft, and only its one property |
| BookDetails.ReviewSubmitExactly | src/components/BookDetails.jsx:98-165 | sent exactly with a user, a complete draft and a token; on creation the review is prepended to that book's list only and that draft reset to rating 0, comment '' |
| BookDetails.StarsCount | src/components/BookDetails.jsx:277-299 | star i is filled exactly when i ≤ rating; the filled stars come first and number the rating cut to [0, 5] |
| BookDetails.ReadAndDownload | src/components/BookDetails.jsx:167-266 | without a user only an alert; with one and a PDF the reader gets the normalised URL and the download gets the last path segment |
| Home.FetchBooksExactly | src/components/home.jsx:26-88 | the listed books, or the same three fallback books whatever failed |
| Home.HomeFilteredExactly | src/components/home.jsx:90-93 | throws exactly when some book has no author and a title that does not match; otherwise the same result as the book list's filter |
| Home.FallbackNeverThrows | src/components/home.jsx:34-57 | on the fallback books the filter never throws (also lines 90-93) |
| Home.HomeClicks | src/components/home.jsx:95-194 | no user: redirect to '/auth' and nothing recorded; the read is recorded only with a user, a token and a PDF; the download link is the PDF's own URL |
| UserDashboard.TabsExactly | src/components/UserDashboard.jsx:28-36 | two tabs with Profile last; admins start on My Books and everyone else on My Reviews; which panels are drawn (also lines 450-466) |
| UserDashboard.UploadAvatarExactly | src/components/UserDashboard.jsx:143-198 | sent exactly for an image of at most 5 MB with a token; a returned path gets 'http://localhost:5000' in front |
| UserDashboard.ReplacedExactly | src/components/UserDashboard.jsx:221-223 | saving replaces exactly the entries with the id; length and order are kept (also lines 288-290) |
| UserDashboard.RemovedExactly | src/components/UserDashboard.jsx:250 | deleting keeps exactly the entries with another id (also lines 322) |
| UserDashboard.RemovedAppend | src/components/UserDashboard.jsx:250 | deleting keeps the order of what remains (also lines 322) |
| UserDashboard.RemovedTwice | src/components/UserDashboard.jsx:250 | deleting twice is deleting once (also lines 322) |
| UserDashboard.EditThenDelete | src/components/UserDashboard.jsx:221-223 | editing an entry and then deleting it is deleting it (also lines 250) |
| UserDashboard.EditFormExactly | src/components/UserDashboard.jsx:262-273 | each text comes from the book, missing ones as ''; the title and the two flags are copied |
| UserDashboard.EditFormDistinguishes | src/components/UserDashboard.jsx:262-273 | two books give the same form exactly when title and flags agree and each text agrees, a missing text counting as empty; the id and PDF play no part |
| UserDashboard.StarsAgree | src/components/UserDashboard.jsx:434-444 | the dashboard fills the same stars as the book list |
| UserDashboard.DashboardClicksAgree | src/components/UserDashboard.jsx:334-411 | read and download act as on the book list; without a token the download alerts and still goes ahead |
| PdfReader.ZoomSteps | src/components/EnhancedPDFReader.jsx:160 | both buttons keep the zoom reachable and move it one step, or not at all at the end; in then out, or out then in, is the identity (also lines 170) |
| PdfReader.ZoomLevels | src/components/EnhancedPDFReader.jsx:160-179 | the reachable levels are exactly 50, 75, ..., 200 (also line 6) |
| PdfReader.RetryToggles | src/components/EnhancedPDFReader.jsx:46-51 | a retry always changes the element, and never to `object` |
| PdfReader.ViewerUrlShape | src/components/EnhancedPDFReader.jsx:55-60 | no URL without a PDF; the fixed suffix on small screens; otherwise the suffix ends in the zoom in decimal, which reads back as the zoom (also line 19) |
| PdfReader.Reader.constructor | src/components/EnhancedPDFReader.jsx:6-9 | zoom 100, loading, no error, the inline frame |
| PdfReader.Reader.ZoomOut | src/components/EnhancedPDFReader.jsx:160 | zoom := max(50, zoom - 25); nothing else changes |
| PdfReader.Reader.ZoomIn | src/components/EnhancedPDFReader.jsx:170 | zoom := min(200, zoom + 25); nothing else changes |
| PdfReader.Reader.ResetZoom | src/components/EnhancedPDFReader.jsx:178 | zoom := 100 |
| PdfReader.Reader.Loaded | src/components/EnhancedPDFReader.jsx:34-38 | not loading and no error; the zoom stays a reachable level |
| PdfReader.Reader.Failed | src/components/EnhancedPDFReader.jsx:40-44 | not loading, with the error message; the zoom stays a reachable level |
| PdfReader.Reader.Retry | src/components/EnhancedPDFReader.jsx:46-51 | loading, no error, and the other element; the zoom stays a reachable level |
| PdfReader.Reader.SelectViewMode | src/components/EnhancedPDFReader.jsx:143 | only the element changes; the zoom stays a reachable level |
| PdfReader.Reader.ChangeUrl | src/components/EnhancedPDFReader.jsx:12-16 | a new URL sets loading and clears the error; the zoom stays a reachable level |
| PdfReader.Reader.Url | src/components/EnhancedPDFReader.jsx:53-60 | no URL exactly when the PDF URL is empty; otherwise it starts with the PDF URL |
| Regex.SearchLeftmost | src/utils/watermarkRemover.js:129 | the leftmost position where the pattern matches, with the first end the backtracking order gives there |
| Regex.ReplaceAllNoMatch | src/utils/watermarkRemover.js:128-130 | a pattern that matches nowhere leaves the string as it is |
| Regex.ReplaceAllKeepsOut | src/utils/watermarkRemover.js:129 | a global replace brings in no character that is in neither the string nor the replacement |
| Regex.ReplaceAllOneChar | src/utils/watermarkRemover.js:109 | a one-character pattern is replaced character by character (also lines 411) |
| Regex.EachCharNone | src/utils/watermarkRemover.js:403-404 | a one-character pattern that accepts no character of the string leaves it as it is |
| Regex.CatEndsFrom | src/utils/watermarkRemover.js:402 | a sequence `ab` matches only by continuing from an end of `a` from which `b` matches |
| Regex.StrAtEnd | src/utils/watermarkRemover.js:402 | a literal word matched ignoring case up to the end of the input fixes the last character, up to case |
| Regex.ReplaceAllSpaces | src/utils/watermarkRemover.js:110 | `replace(/\s+/g, ' ')` collapses every whitespace run to one space (also lines 134) |
| Regex.ReplaceAllWordStarts | src/utils/watermarkRemover.js:114 | `replace(/\b\w/g, toUpperCase)` upper-cases the first character of every word |
| Regex.ReplaceAllWordRuns | src/utils/watermarkRemover.js:416-418 | the word-run replacement capitalises every word |
| Regex.AnchoredTest | src/utils/watermarkRemover.js:384-385 | `/^r/.test(s)` holds exactly when r matches at the start |
| Regex.WholeWordTest | src/utils/watermarkRemover.js:366-382 | `^word$` matches exactly the strings that spell the word |
| Regex.BlankTest | src/utils/watermarkRemover.js:383 | `^\s*$` matches exactly the blank strings |
| Regex.CaptureFound | src/utils/watermarkRemover.js:409 | a group is captured exactly when the whole pattern matches (also lines 441) |
| Regex.EmailCapture | src/utils/watermarkRemover.js:409 | `/^([^@]+)@/` captures everything before the first '@' when that is non-empty |
| Strings.TrimEmpty | src/utils/watermarkRemover.js:388 | `trim()` is empty exactly for blank strings |
| Strings.CollapseTrimNormalized | src/utils/watermarkRemover.js:110-111 | collapse then trim gives a trimmed, single-spaced string |
| Strings.CollapseSingleSpaced | src/utils/watermarkRemover.js:421 | `replace(/\s+/g, ' ')` leaves a single-spaced string unchanged |
| Strings.SplitJoin | src/utils/watermarkRemover.js:484 | joining the pieces of a split gives the string back |
| Strings.DecimalRoundTrip | src/components/EnhancedPDFUpload.jsx:155 | reading a number's decimal digits back gives the number |

## Left out

- Canvas and PDF.js. This covers rendering, `getImageData`/`putImageData`, `toDataURL`, `processPDFPage`, `extractCoverFromPDF`, `pdf.getMetadata` and the drawing calls of the covers. Text widths from `measureText` are a function parameter; rendered images are string parameters; metadata arrives as an `Info` value.
- I/O. `fetch`, `localStorage`, `alert`, `confirm`, routing, `setTimeout` and `URL.createObjectURL` are out. Their outcomes are parameters (responses, a stored token) or results (alerts, sent requests).
- The clock, date parsing and randomness are parameters: the current year, the year parsed from a creation date, the review's dates and the random avatar. The random colour pair of the upload cover is not modelled.
- React state timing. Each handler reads the state it was rendered with, so the stale `hasWatermarks: watermarkDetected` is passed in as the page's current flag. The `extracting`, `uploading` and progress-text flags and the drag state are not modelled.
- JSX markup, and the remaining components and pages.
- Lower-casing and upper-casing are ASCII only. In the search filters a non-ASCII letter is compared as it is. For the regex `i` flag this is exact, because every pattern letter is ASCII.
- Strings are sequences of characters. UTF-16 lengths and surrogate pairs are not modelled.
- WatermarkPixels.ContrastFactor: computed with exact rationals, not double-precision floats. With the exact factor no value falls halfway between two bytes, so the clamped rounding is exact.
- WatermarkPixels.ReduceBlockOpacity: requires the square not to run past the end of a row. `removeRepetitivePatterns`, its only caller, always meets this.
- WatermarkPixels.GetImageBlock: requires the square inside the buffer. The source would read `undefined` outside it, but its callers never do.
- WatermarkPixels.RemoveSemiTransparentOverlays: takes no width and height; the source's two dimension arguments are unused.
- WatermarkPixels.ProcessCanvasForWatermarks: works on one buffer in place. It leaves out the copy into a fresh array and the `try`/`catch` that keeps the original image, since none of the modelled passes can throw.
- PdfUpload.UploadPage.ChooseFile: takes `cleaned`, the result of `cleanFilename` on the file name, as a parameter rather than computing it; the same holds for PdfUpload.UploadPage.RegenerateCover. `WatermarkText.CleanFilename` computes it.
- PdfUpload.Extraction: the outer `failed` flag stands for any exception in the extraction. The model does not say which step throws.
- Books.Shown: a missing author and a `null` one are both `None`. In a template literal JavaScript prints the first as `undefined` and the second as `null`; the model gives `undefined` for both. The modelled upload pages never store a `null` author.
- BookDetails.ReviewChange: models `handleReviewChange` for the comment field, the only field the page passes to it.
- BookDetails.DownloadBook: the fallback that opens the PDF in a new tab after a failed download, and the read-tracking request's own errors, are not modelled.
- BookUploadForm: the `isbn`, `language` and `tags` fields are never set by the modelled handlers and are left out. So is the 5-second redirect after a successful upload.
- The submit buttons' disabled state (`isFormValid` in the markup) is stated as a predicate, but the handlers are modelled as callable in any state, as the functions themselves are.
- PdfReader.Reader.Url: takes the window width as a parameter.

## Findings

| source | as written | input that shows it | evidently intended | confidence | as-written member | corrected member |
|---|---|---|---|---|---|---|
| src/utils/watermarkRemover.js:276-277 | the factor `259 * (1.2*255 + 255) / (255 * (259 - 1.2*255))` is computed from a contrast of 1.2; since 1.2*255 = 306 > 259 the factor is -2849/235 ≈ -12.1 | a pixel with red value 0 becomes 255, and 255 becomes 0: the pass inverts the picture instead of raising its contrast | a contrast multiplier of 1.2, with a positive factor of at least 1: order kept and bytes pushed away from 128 | high (not executed) | WatermarkPixels.EnhanceContrastInverts | WatermarkPixels.EnhanceContrastCorrected |
