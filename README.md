# ITIS3135 course site scripts, modelled in Dafny

This project models the browser scripts of a course website: the introduction form (`introduction.js`), its two generators (`generate_html.js` and `generate_json.js`), the contact-form validator (`form-validation.js`) and the slideshow (`slideshow-carousel.js`). It proves what each script does with the data entered on the page.

- `Wrappers.dfy`: `Option`, for a control or a submitted value that may be absent.
- `Text.dfy`: JavaScript's `trim`, whose whitespace set is the same as the regular-expression class `\s`, and the truthiness of a possibly missing string.
- `FormRows.dfy`: `getValue`, and the two `getCourseData` rules. `generate_html.js` keeps a group only when department and number are both filled in; `generate_json.js` needs the department alone. Also `getLinkData`. Each `forEach` loop is a method proved equal to a selection function. Lemmas show what the selection keeps and in what order.
- `HtmlPreview.dfy`: the `&`, `<`, `>` escape chain, proved to leave no angle brackets and to be undone by decoding `&lt;`, `&gt;`, `&amp;` in that order. Also the heading and list templates.
- `JsonRecord.dfy`: the record `generateJson` serializes: its key order, where each value comes from, and the fields it ignores.
- `Introduction.dfy`: the course-group list and its id counter, as a class. Also the submit handler's course extraction, full name, five-slot link loop, optional paragraphs and image choice.
- `ContactForm.dfy`: the email pattern, proved equal to a structural description of it, plus the error texts and the submit rule, as a class.
- `Carousel.dfy`: `slideIndex` and the slides' display states, as a class over an array. The index arithmetic is a function with its own lemmas.

Form contents are inputs to the model:
- a page's controls are a map from element id to raw value;
- a repeated group is a record of optional sub-control values;
- submitted `FormData` is a map from names to values;
- an uploaded picture is the data URL the file reader would produce.

## Model

| member | source | states |
|---|---|---|
| Text.Trim | ITIS3135/scripts/generate_html.js:6 | the result has no whitespace at either end, is no longer than the input, and is empty exactly when the input is all whitespace |
| Text.TrimPadded | ITIS3135/scripts/generate_html.js:6 | trimming removes exactly the surrounding whitespace of a text that has none at its ends |
| Text.TrimIdempotent | ITIS3135/scripts/generate_html.js:6 | trimming twice is trimming once |
| FormRows.GetValue | ITIS3135/scripts/generate_html.js:4-7 | `''` for a missing element; otherwise the trimmed value, empty exactly when the value is all whitespace and equal to the value when it is already trimmed |
| FormRows.GetCourseData | ITIS3135/scripts/generate_html.js:168-183 | the loop pushes exactly the selection the policy defines, for either policy |
| FormRows.SelectCoursesAreKeptRows | ITIS3135/scripts/generate_html.js:172-181 | a group is kept exactly when the policy accepts its trimmed fields; kept records appear in document order, each holding its group's four trimmed values; there are no more records than groups |
| FormRows.OnlyCompleteRowKept | ITIS3135/scripts/generate_html.js:178 | of three groups (one with an empty number, one complete, one missing its department, name and reason controls), only the complete one is kept under the department-and-number rule, with its four values unchanged |
| FormRows.GetLinkData | ITIS3135/scripts/generate_html.js:188-201 | the loop pushes exactly the links whose trimmed name and address are both non-empty |
| FormRows.SelectLinksAreKeptRows | ITIS3135/scripts/generate_json.js:122-133 | a link group is kept exactly when both trimmed fields are non-empty; kept links keep document order and their trimmed values |
| FormRows.StrictIsFilteredLenient | ITIS3135/scripts/generate_json.js:101 | the department-and-number selection equals the department-only selection with number-less entries removed |
| FormRows.StrictSelectionWithinLenient | ITIS3135/scripts/generate_json.js:101 | every course kept by `generate_html.js`'s rule is also kept by `generate_json.js`'s rule |
| HtmlPreview.Escape | ITIS3135/scripts/generate_html.js:122-125 | no `<` or `>` is left; a text without `&`, `<`, `>` is unchanged; decoding `&lt;`, then `&gt;`, then `&amp;` gives back the original |
| HtmlPreview.EscapeInjective | ITIS3135/scripts/generate_html.js:123-125 | two raw texts with the same escaped form are equal |
| HtmlPreview.EscapeConcat | ITIS3135/scripts/generate_html.js:122-125 | escaping a page assembled from pieces is escaping each piece in turn |
| HtmlPreview.Heading | ITIS3135/scripts/generate_html.js:65 | the heading opens with the first name and a space; without an initial the quoted preferred name follows directly |
| HtmlPreview.HeadingEnding | ITIS3135/scripts/generate_html.js:65 | the heading ends with the divider, the mascot adjective and the mascot animal, each after a space |
| HtmlPreview.HeadingInitial | ITIS3135/scripts/generate_html.js:65 | a non-empty middle initial is inserted with `. ` right after the first name and its space; with an empty one, the quoted preferred name follows directly |
| HtmlPreview.CourseItem | ITIS3135/scripts/generate_html.js:50-53 | each course item is one `<li>` element on its own lines, opening with the bold department |
| HtmlPreview.CourseListItemsSnoc | ITIS3135/scripts/generate_html.js:50-53 | each course adds exactly its own `<li>` at the end of the list |
| HtmlPreview.LinkItem | ITIS3135/scripts/generate_html.js:55-58 | each link item is one `<li>` element on its own lines, whose anchor points at the link's address |
| HtmlPreview.LinkListItemsSnoc | ITIS3135/scripts/generate_html.js:55-58 | each link adds exactly its own `<li>` at the end of the list |
| JsonRecord.DataObject | ITIS3135/scripts/generate_json.js:17-39 | the keys are the seventeen names in their fixed order; the first fifteen hold the trimmed value of their field; `courses` is the department-only selection and `links` the complete links |
| JsonRecord.LookupDataObject | ITIS3135/scripts/generate_json.js:17-39 | the keys are distinct, so each key is found with the value written under it |
| JsonRecord.LookupImageAndSubject | ITIS3135/scripts/generate_json.js:25-34 | `image` is found holding the trimmed `image-path`, and `subjectBackground` the trimmed `subject-background-1` |
| JsonRecord.DataObjectReadsOnlyFieldIds | ITIS3135/scripts/generate_json.js:17-36 | two pages whose fifteen listed fields agree give the same record |
| JsonRecord.OtherSubjectBackgroundsIgnored | ITIS3135/scripts/generate_json.js:33-34 | changing subject background 2, 3 or 4 never changes the record |
| JsonRecord.RecordCoursesHaveDepartment | ITIS3135/scripts/generate_json.js:94-109 | the `courses` array holds, in document order, exactly the groups whose trimmed department is non-empty, with all four trimmed values |
| Introduction.NewGroup | ITIS3135/scripts/introduction.js:66-69 | a new group carries the given id; it is prefilled exactly when defaults are asked for, and blank otherwise |
| Introduction.IdsRunAhead | ITIS3135/scripts/introduction.js:21 | with ids issued by the counter, the group at position `i` has id at least `i + 2` |
| Introduction.CourseList.constructor | ITIS3135/scripts/introduction.js:21 | the counter starts at 1 with no group |
| Introduction.CourseList.AddCourseGroup | ITIS3135/scripts/introduction.js:58-85 | the counter rises by exactly one and one group tagged with the new count is appended; ids stay in range and strictly increasing |
| Introduction.CourseList.OnContentLoaded | ITIS3135/scripts/introduction.js:252-256 | an empty container gets one prefilled group; otherwise nothing changes |
| Introduction.CourseList.DeleteCourseGroup | ITIS3135/scripts/introduction.js:91-101 | deletion succeeds exactly when more than one group exists and removes only that group; otherwise the list is unchanged; the counter is never lowered and at least one group remains |
| Introduction.CourseList.ResetForm | ITIS3135/scripts/introduction.js:24-30 | inputs get their defaults back; one prefilled group remains, and the counter is 2 |
| Introduction.CourseList.ClearAllFields | ITIS3135/scripts/introduction.js:33-50 | every input is empty; one blank group remains, and the counter is 2 |
| Introduction.CourseList.Submit | ITIS3135/scripts/introduction.js:110-248 | no page when the form is invalid; otherwise the page the handler builds from the current inputs, with the courses read by position as written |
| Introduction.GetSubmittedCoursesByPosition | ITIS3135/scripts/introduction.js:137-150 | the handler as written: the loop reads position `index` under names ending in `index + 1` |
| Introduction.CoursesByIdsAreKept | ITIS3135/scripts/introduction.js:139-150 | the extracted list is an order-preserving selection of the entries read: an entry is kept exactly when its dept and num are present and non-empty; the list is no longer than the number of groups |
| Introduction.LastGroupNeverRead | ITIS3135/scripts/introduction.js:141-144 | as written, whatever the last-added group holds, the extracted courses are the same |
| Introduction.SingleGroupLostByPosition | ITIS3135/scripts/introduction.js:141-147 | as written, the single filled group of a cleared page filled in again (or of a reset page, or of the page as loaded under the markup assumption below) yields no course; read by its id it yields its course |
| Introduction.GetSubmittedCourses | ITIS3135/scripts/introduction.js:139-150 | the corrected loop reads each group under its own id |
| Introduction.CorrectedReadsOwnGroups | ITIS3135/scripts/introduction.js:141-148 | read by id, the entries are exactly the groups with department and number filled in, in document order, with their values |
| Introduction.IntroPageOf | ITIS3135/scripts/introduction.js:152-246 | the page the handler builds: the default picture when nothing is uploaded; an empty links list exactly when `link1`..`link5` are all empty; each optional paragraph empty exactly when its value is |
| Introduction.IntroPageIgnoresLastGroup | ITIS3135/scripts/introduction.js:139-155 | as written, the page is the same whatever the last-added group holds |
| Introduction.SingleGroupPageListsNoCourse | ITIS3135/scripts/introduction.js:139-155 | as written, a page whose one group has id 2 (cleared and filled in again, reset, or as loaded under the markup assumption below) lists no course at all |
| Introduction.CorrectedIntroPageOf | ITIS3135/scripts/introduction.js:136-155 | the corrected page differs from the handler's page only in its course list |
| Introduction.IntroPageListsFilledGroups | ITIS3135/scripts/introduction.js:136-155 | the corrected page, reading each group under its own id, lists exactly the groups with department and number filled in, in document order |
| Introduction.CourseLi | ITIS3135/scripts/introduction.js:153-155 | each course item is one `<li>` element that opens with the bold department (`null` for a missing one) |
| Introduction.CourseListHtmlConcat | ITIS3135/scripts/introduction.js:153-155 | the course list of a concatenation is the concatenation of the lists |
| Introduction.MiddlePart | ITIS3135/scripts/introduction.js:132 | empty exactly when neither middle name nor nickname is present; otherwise the middle name in parentheses, or the nickname when the middle name is empty |
| Introduction.FullName | ITIS3135/scripts/introduction.js:130-134 | the full name is empty exactly when first name, middle name, nickname and last name are all missing or empty |
| Introduction.FullNameParts | ITIS3135/scripts/introduction.js:130-134 | for every combination of present parts, the name is those parts joined by single spaces, with no separator at either end and none doubled; the parts themselves are not trimmed |
| Introduction.FullNameKeepsSpaces | ITIS3135/scripts/introduction.js:130-134 | submitted values are not trimmed, so a first name typed with a trailing space gives a doubled space in the full name |
| Introduction.LinkSlots | ITIS3135/scripts/introduction.js:158-160 | the filled slots among `link1`..`linkn` are in ascending order, at most `n` of them, and a slot is listed exactly when its address is non-empty |
| Introduction.LinksHtmlEmptyIff | ITIS3135/scripts/introduction.js:157-163 | the list after `link1`..`linkn` is empty exactly when none of them holds a non-empty address |
| Introduction.LinksHtmlIsSlotItems | ITIS3135/scripts/introduction.js:157-163 | the links list is one item per filled slot, in slot order, each showing that slot's address |
| Introduction.BuildLinksList | ITIS3135/scripts/introduction.js:157-163 | the loop over `link1`..`link5` builds exactly that list |
| Introduction.OptionalParagraph | ITIS3135/scripts/introduction.js:218-219 | the paragraph is empty exactly when its value is missing or empty; otherwise it is the bold heading followed by the value |
| Introduction.ImageSource | ITIS3135/scripts/introduction.js:236-246 | with no uploaded file the source is `images/default_intro_image.jpg`; otherwise the file's data URL |
| ContactForm.IsValidEmail | ITIS3135/project/js/form-validation.js:9-13 | an accepted address has at least five characters and starts with a character of `[^\s@]` |
| ContactForm.ValidIffShape | ITIS3135/project/js/form-validation.js:9-13 | the pattern accepts a text exactly when it has no whitespace, exactly one `@` with something before it, and a dot after it that is neither the first character after the `@` nor the last character |
| ContactForm.Examples | ITIS3135/project/js/form-validation.js:11 | `a@b.co` passes; `a@.co` and `a@b.` do not |
| ContactForm.NameMessage | ITIS3135/project/js/form-validation.js:20-25 | `Name is required.` when the name is blank after trimming, `''` otherwise |
| ContactForm.EmailMessage | ITIS3135/project/js/form-validation.js:28-36 | `Email is required.` when blank, with no format check; otherwise `''` exactly when the trimmed value matches, else `Please enter a valid email address.` |
| ContactForm.PaddedEmailAccepted | ITIS3135/project/js/form-validation.js:31 | a valid address with whitespace around it is accepted |
| ContactForm.AcceptsIff | ITIS3135/project/js/form-validation.js:16-39 | the form passes exactly when the name is not blank and the trimmed email has the right shape |
| ContactForm.Contact.ValidateForm | ITIS3135/project/js/form-validation.js:16-39 | both fields are always checked; each error span gets its field's message; the result is true exactly when both spans are empty |
| ContactForm.Contact.Submit | ITIS3135/project/js/form-validation.js:42-56 | the inputs return to their defaults only on success; on failure the entered values stay |
| Carousel.Settle | ITIS3135/project/js/slideshow-carousel.js:7-8 | with at least one slide, an out-of-range index is pulled into range; an in-range one is kept |
| Carousel.Advance | ITIS3135/project/js/slideshow-carousel.js:18-19 | with at least one slide, the index after `plusSlides(n)` is in range, and is `i + n`, the first slide or the last |
| Carousel.OvershootClamps | ITIS3135/project/js/slideshow-carousel.js:7-8 | past the end goes to 1, before the start to the last slide, and an in-range index is kept |
| Carousel.SingleStepWraps | ITIS3135/project/js/slideshow-carousel.js:7-8 | a step of one forward or back agrees with wrapping modulo the number of slides |
| Carousel.LongJumpDoesNotWrap | ITIS3135/project/js/slideshow-carousel.js:7-8 | a longer jump does not: from slide 1 of 3, four steps land on 1 where modular wrapping gives 2 |
| Carousel.NextCycles | ITIS3135/project/js/slideshow-carousel.js:18-19 | from slide 1, `k < len` presses of next show slide `k + 1`, and `len` presses come back to 1 |
| Carousel.PrevFromFirst | ITIS3135/project/js/slideshow-carousel.js:8 | from slide 1, one press of previous shows the last slide |
| Carousel.OnlyVisibleCountsOne | ITIS3135/project/js/slideshow-carousel.js:10-14 | when one in-range slide is the only one displayed, exactly one slide is displayed |
| Carousel.Slideshow.constructor | ITIS3135/project/js/slideshow-carousel.js:1 | over at least one slide, `slideIndex` starts at 1 and is in range |
| Carousel.Slideshow.ShowSlides | ITIS3135/project/js/slideshow-carousel.js:3-15 | the index settles into range (1 past the end, the last slide before the start, otherwise unchanged); the slide at `slideIndex - 1` is the only one with display `block` |
| Carousel.Slideshow.PlusSlides | ITIS3135/project/js/slideshow-carousel.js:18-20 | the new index is the advance of the old one by `n`, in range, and its slide is the only one shown |
| Carousel.Slideshow.OnContentLoaded | ITIS3135/project/js/slideshow-carousel.js:22-24 | the first display keeps the index (1 after loading) and shows only its slide |

## Findings

| source | as written | input that shows it | evidently intended | confidence | as-written member | corrected member |
|---|---|---|---|---|---|---|
| ITIS3135/scripts/introduction.js:139-145 | The submit handler reads group number `index` under the names `courseDept${index + 1}` and so on. Group ids come from `courseCount`, which starts at 1 and is raised before each use, so the first group has id 2. | A page cleared with the clear button (line 107): its one blank group has id 2 and is filled in before submitting, as its `required` inputs demand. The same holds after `resetForm` (reached through the page's reset button, line 23) and for the page as loaded, given the empty course container assumed under "Left out"; both leave one group, id 2, holding ITIS / 3135. No field is named `courseDept1`, so the submitted course list is empty. In general, the last-added group is never read. | Read every group's own entries, as "Extract all courses dynamically" on line 136 announces: each group under its own id. | high; not executed | Introduction.SingleGroupLostByPosition | Introduction.CorrectedReadsOwnGroups |

`Introduction.GetSubmittedCoursesByPosition`, `Introduction.LastGroupNeverRead` and `Introduction.CourseList.Submit` model the handler as written; `Introduction.IntroPageIgnoresLastGroup` and `Introduction.SingleGroupPageListsNoCourse` show the defect on the page it builds. The corrected extraction is `Introduction.GetSubmittedCourses`, and `Introduction.CorrectedIntroPageOf` is the page built with it.

## Left out

- `htmlinclude.js` and `loadHTML` (`introduction.js:2-9`) only fetch and inject markup over the network.
- `script.js` only toggles a CSS class on a sibling element.
- Asynchronous file reading is not modelled. The uploaded picture is given as the data URL the reader would produce (`introduction.js:236-242`).
- Browser services are modelled by their effect only:
  - `FormData` collection becomes a map of named values;
  - `checkValidity` becomes the `formValid` parameter of `Introduction.CourseList.Submit`;
  - `form.reset()` restores the `defaults` maps;
  - `alert`, `preventDefault` and the page-reload link are left out.
- DOM construction and removal, heading text updates, `innerHTML` writes and Highlight.js are not modelled.
- `JSON.stringify` text and its character escaping are not modelled. The record is modelled as a JSON value with ordered members.
- Fixed prose of the page templates is not modelled:
  - the result page of `introduction.js:174-228`;
  - the raw preview of `generate_html.js:61-118`, apart from its heading and lists.
  `HtmlPreview.EscapeConcat` shows that the escaped preview is the escaped pieces in order.
- Script loading order is not modelled. Both generators declare global `getCourseData`/`getLinkData`, so the last one loaded wins. `generate_json.js` defines its `getValue` inside a closure, so `generateJson` relies on the global one from `generate_html.js`. Both trim the same way, and `FormRows.GetValue` models both. The two course rules are kept as explicit policies.
- The groups passed to `getCourseData` are an input. `generate_html.js` selects `#courses-container .course-group`; `generate_json.js` selects every `.course-group`.
- A submitted course field is named by `Numbered(prefix, id)` rather than by the concatenated string. Plain names, including `link1`..`link5`, are strings.
- Typing into inputs is not an operation of the model; the current values are part of the state.
- The course container is assumed empty in the page's markup, so a new `CourseList` starts with no group.
- `Introduction.CourseList.ClearAllFields` empties the inputs held in `fields`. The file input and any `select` element are not part of `fields`.
- The `fullName` value (`introduction.js:130-134`) is computed by the handler but never shown by the result page. It is modelled as `Introduction.FullName` and is not part of the page.
- `Carousel.Slideshow.constructor` requires at least one slide, which the page's markup provides; with none, the first `showSlides` fails on `slides[0]`.
- `Carousel.Slideshow.ShowSlides` requires at least one slide, and an in-range `n` requires an in-range index. Otherwise `slides[slideIndex-1]` does not exist and the script fails. Callers always pass the index itself.
