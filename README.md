# Qbix Solutions site — verified model of its logic

The Qbix Solutions company site is a Django application with a hand-written
front-end script. This project models the parts of it that compute
something:

- the **portfolio carousel** of `static/js/main.js`: an index machine over
  the original items padded with clones, with a transition lock and deferred
  settle callbacks, a resize handler and swipe detection (module `Carousel`);
- **client-side field validation** `validateField`: the required / email /
  phone verdict on the trimmed value and the `error`/`success` class update
  (module `FieldValidation`);
- the **FAQ accordion** `toggleFaq` (module `Faq`);
- the **server-side `clean_*` hooks** of `forms.py`: phone digit count, name
  length, resume size and extension, newsletter duplicate (module `Forms`);
- the **comma-list accessors** of `models.py` (module `Models`);
- the **list building of `views.py`**: category and department filters,
  `available_categories`, related items, the newsletter redirect (module
  `Views`);
- a bridge between the two phone checks (module `Consistency`).

The JavaScript and Python rules use different character classes. `Chars`
spells them out: JavaScript `\s`/`trim` and ASCII-only `\d`, and Python
`str.isspace`/`strip` and Unicode `\d` (category Nd). `Text` holds the
trimming, digit-keeping and splitting operations they share.

The carousel is a class, `Carousel.PortfolioSlider`. Its fields are the
closure state of `initPortfolioSlider`: the slide list, `currentIndex`,
`itemsPerView` and `isTransitioning`. A `pending` field records the settle
callback that a move has scheduled. The 600 ms timer callbacks are explicit
events (`SettleNext`, `SettlePrev`) that may run only when their move is
pending. The class invariant keeps the following:

- the clones match the current items-per-view;
- the lock is held exactly while a callback is pending;
- the index is among the originals when settled, and at most one step
  outside them while a move is pending.

The prepended clones are kept in the order the source builds them, which is
reversed. `Carousel.PrefixSeamlessIff` states when the backward snap is
visually seamless. For six items on a narrow screen it is not: the slide
before the first item shows item 2, not item 5.

The FAQ block is a class over two arrays of `active` flags. Its `Toggle`
method clears and sets them with loops, as `forEach` does, and is proved
equal to the pure specification `ToggledQuestions`/`ToggledAnswers`. The
FAQ lemmas are stated about that specification.

`validateField` is a class method over a field's class set and error note.
The verdict itself is the pure function `FieldValidation.Validate`.

The Django forms, models and views are pure functions over values. A table
is a sequence of records in the model's default ordering. `filter` and
`exclude` keep the accepted rows in order, and `[:3]` takes a prefix.

## Model

| member | source | states |
|---|---|---|
| Chars.DigitClassesAgree | QbixSolutions/forms.py:48 | every ASCII digit (JavaScript `\d`) is a Python `\d`, and no Python whitespace is a Python digit |
| Text.Trim | QbixSolutions/static/js/main.js:236 | the result is a slice of the input with only trimmed characters cut off before and after it, has no trimmed character at either end, and an already-stripped input is unchanged |
| Text.TrimChars | QbixSolutions/models.py:36 | every character of the trimmed result occurs in the input |
| Text.Keep | QbixSolutions/static/js/main.js:254 | the result holds exactly the input's characters of the class, and is no longer than the input |
| Text.KeepAppend | QbixSolutions/forms.py:48 | deleting non-digits works piecewise: it distributes over concatenation |
| Text.KeepIgnoresOthers | QbixSolutions/forms.py:48 | inserting a character outside the class leaves the result unchanged |
| Text.KeepTrim | QbixSolutions/static/js/main.js:254 | trimming never adds kept characters; when no whitespace is kept, trimming changes nothing that is kept |
| Text.KeepTrimStart | QbixSolutions/static/js/main.js:254 | removing leading whitespace never adds kept characters, and removes none when whitespace is never kept |
| Text.KeepTrimEnd | QbixSolutions/static/js/main.js:254 | removing trailing whitespace never adds kept characters, and removes none when whitespace is never kept |
| Text.KeepWider | QbixSolutions/static/js/main.js:254 | a wider class keeps at least as many characters |
| Text.Split | QbixSolutions/models.py:36 | `split(',')` gives one more piece than there are separators, and no piece holds the separator |
| Text.SplitAppend | QbixSolutions/models.py:36 | splitting `a + sep + b` gives the pieces of `a` followed by those of `b` |
| Text.SplitWithout | QbixSolutions/models.py:36 | a string without the separator splits into itself alone |
| Text.JoinSplit | QbixSolutions/models.py:36 | joining the pieces with the separator gives back the string |
| Models.CleanPieces | QbixSolutions/models.py:36 | the stripped, non-empty pieces: at most as many elements as pieces |
| Models.CleanPiecesEntries | QbixSolutions/models.py:36 | cleaning comma-free pieces leaves only entries: non-empty, stripped and comma-free |
| Models.CleanPiecesAppend | QbixSolutions/models.py:36 | cleaning works piece by piece: it distributes over concatenation |
| Models.ParseCommaList | QbixSolutions/models.py:36 | every element is non-empty, stripped of whitespace and comma-free; at most commas + 1 elements |
| Models.FeaturesList | QbixSolutions/models.py:35-36 | `get_features_list` yields well-formed entries, at most commas + 1 of them |
| Models.TechnologiesList | QbixSolutions/models.py:72-74 | `get_technologies_list` yields well-formed entries, at most commas + 1 of them |
| Models.ParseAppend | QbixSolutions/models.py:36 | elements keep segment order: parsing `a + "," + b` gives the entries of `a` followed by those of `b` |
| Models.ParseSinglePiece | QbixSolutions/models.py:36 | a comma-free text parses to its stripped self, or to nothing if that is empty |
| Models.ParseLeadingSpace | QbixSolutions/models.py:36 | a leading space does not change the parse |
| Models.EntryParsesToItself | QbixSolutions/models.py:36 | an entry parses to itself alone |
| Models.ParseJoin | QbixSolutions/models.py:36 | round trip: joining well-formed entries with ", " and parsing gives them back |
| Models.ParseIdempotent | QbixSolutions/models.py:36 | re-parsing the ", "-joined parse gives the same list |
| Forms.PhoneDigits | QbixSolutions/forms.py:48 | `re.sub(r'\D', '', phone)` keeps exactly the Unicode decimal digits |
| Forms.CleanPhone | QbixSolutions/forms.py:45-51 | accepts iff at least ten digits, returns the value unchanged, otherwise fails with the given message |
| Forms.ContactCleanPhone | QbixSolutions/forms.py:45-51 | `ContactForm.clean_phone`: accepts iff at least ten digits, returning the value unchanged; otherwise fails with "Please enter a valid phone number with at least 10 digits." |
| Forms.CareerCleanPhone | QbixSolutions/forms.py:110-115 | `CareerApplicationForm.clean_phone`: accepts iff at least ten digits, returning the value unchanged; otherwise fails with "Please enter a valid phone number." |
| Forms.ConsultationCleanPhone | QbixSolutions/forms.py:183-188 | `ConsultationForm.clean_phone`: accepts iff at least ten digits, returning the value unchanged; otherwise fails with "Please enter a valid phone number." |
| Forms.PhoneRuleShared | QbixSolutions/forms.py:110-115 | the three forms accept exactly the same phone numbers |
| Forms.PhoneIgnoresNonDigits | QbixSolutions/forms.py:48-49 | inserting a non-digit anywhere never changes the phone verdict |
| Forms.CleanName | QbixSolutions/forms.py:53-57 | accepts iff at least two characters, returning the name unchanged; otherwise fails with "Name must be at least 2 characters long." |
| Forms.LastDotPiece | QbixSolutions/forms.py:105 | `split('.')[-1]`: dot-free; the whole name when it has no dot, otherwise the text after some dot (the last one, as the result holds none) |
| Forms.Lower | QbixSolutions/forms.py:105 | same length; maps 'A'..'Z' to 'a'..'z' and leaves every other character |
| Forms.Extension | QbixSolutions/forms.py:105 | the extension holds no dot; a name without a dot is its own extension, lower-cased; otherwise it is the lower-cased text after a dot |
| Forms.ExtensionAfterLastDot | QbixSolutions/forms.py:105-107 | the extension of `stem.ext` is `ext` lower-cased, whatever the stem holds, dots included |
| Forms.CleanResume | QbixSolutions/forms.py:97-108 | an absent or unnamed file is returned unchanged; an oversize file gets the size error even with a bad extension; a file within 5 MiB with another extension gets the extension error; otherwise accepted |
| Forms.ResumeSizeBoundary | QbixSolutions/forms.py:101-102 | exactly 5·1024·1024 bytes passes, one byte more is rejected with the size message |
| Forms.CleanNewsletterEmail | QbixSolutions/forms.py:130-134 | rejects iff an active subscriber holds the email; an inactive or absent one gets the email back unchanged; the refusal says "This email is already subscribed to our newsletter." |
| FieldValidation.EmailPatternMeansShape | QbixSolutions/static/js/main.js:247-248 | whatever the email pattern matches has no whitespace, exactly one '@' after a non-empty local part, and an inner '.' in the domain |
| FieldValidation.EmailShapeMeansPattern | QbixSolutions/static/js/main.js:247-248 | every string of that shape matches the pattern |
| FieldValidation.EmailPatternIff | QbixSolutions/static/js/main.js:246-251 | the email pattern accepts exactly the described shape |
| FieldValidation.TelPatternIff | QbixSolutions/static/js/main.js:253-254 | the phone pattern accepts exactly an optional '+' followed by one or more digits, whitespace, '-', '(' or ')' |
| FieldValidation.Validate | QbixSolutions/static/js/main.js:235-258 | on the trimmed value: required and empty is invalid with the required message; not required and empty is valid; other types are valid; email is valid iff of the email shape; tel is valid iff of the phone shape with at least ten ASCII digits; a failing email carries the email message and a failing tel the phone message |
| FieldValidation.FormField.constructor | QbixSolutions/static/js/main.js:235-238 | a field with its value, type, `required` attribute and classes, and no error note |
| FieldValidation.FormField.ValidateField | QbixSolutions/static/js/main.js:235-272 | returns the verdict; afterwards exactly one of `error`/`success` is set, `success` iff valid, no other class changes, and the note shows the message iff invalid |
| FieldValidation.FormField.MarkSuccess | QbixSolutions/static/js/main.js:261-264 | the valid branch: `success` set, `error` cleared, no other class changed, no note |
| FieldValidation.FormField.MarkError | QbixSolutions/static/js/main.js:265-268 | the invalid branch: `error` set, `success` cleared, no other class changed, the note shows the message |
| Faq.ToggledQuestions | QbixSolutions/static/js/main.js:500-518 | the question flags after a toggle, one per question |
| Faq.ToggledAnswers | QbixSolutions/static/js/main.js:500-518 | the answer flags after a toggle, one per answer |
| Faq.ToggleOpenClosesAll | QbixSolutions/static/js/main.js:506-513 | in a category, toggling an open question leaves every question and answer closed |
| Faq.ToggleClosedOpensOnlyIt | QbixSolutions/static/js/main.js:506-518 | in a category, toggling a closed question leaves it and its answer the only open pair |
| Faq.ToggleKeepsAtMostOne | QbixSolutions/static/js/main.js:506-518 | in a category at most one question and one answer are open after any toggle, and they are the same entry |
| Faq.UngroupedToggleOnlyOpens | QbixSolutions/static/js/main.js:515-518 | outside a category the toggled question ends open, a closed one opens together with its answer, an open one changes nothing, and no other entry changes |
| Faq.FaqBlock.constructor | QbixSolutions/static/js/main.js:506-509 | a block over fresh question and answer arrays holding the given flags |
| Faq.FaqBlock.Toggle | QbixSolutions/static/js/main.js:500-518 | the loops leave the arrays equal to the toggle specification |
| Carousel.ItemsPerView | QbixSolutions/static/js/main.js:735-746 | 4 from 1280 px, 3 from 1024, 2 from 768, else 1; always in 1..4 |
| Carousel.ItemsPerViewMonotone | QbixSolutions/static/js/main.js:735-746 | a wider viewport never shows fewer items |
| Carousel.CloneCount | QbixSolutions/static/js/main.js:765 | `max(2·ipv, 4)`: at least 4 and at least 2·ipv, and equal to one of them |
| Carousel.Originals | QbixSolutions/static/js/main.js:749-751 | exactly the slides without the clone mark, no more than there are slides |
| Carousel.OriginalsAppend | QbixSolutions/static/js/main.js:749-751 | filtering out clones works block by block |
| Carousel.OriginalsOfClones | QbixSolutions/static/js/main.js:749-751 | a block of clones has no originals |
| Carousel.OriginalsOfOriginals | QbixSolutions/static/js/main.js:749-751 | a block without clones is its own originals |
| Carousel.Items | QbixSolutions/static/js/main.js:758 | the `n` original items, item k at position k |
| Carousel.PrefixClones | QbixSolutions/static/js/main.js:775-779 | the prepended clones: position j copies item n−1−(j mod n) |
| Carousel.SuffixClones | QbixSolutions/static/js/main.js:768-772 | the appended clones: position i copies item i mod n |
| Carousel.SuffixClonesSnoc | QbixSolutions/static/js/main.js:768-772 | one more iteration of the append loop adds the next clone at the end |
| Carousel.Padded | QbixSolutions/static/js/main.js:754-784 | length n + 2C; prefix position j is item n−1−(j mod n); positions C..C+n−1 are the originals in order; suffix position C+n+i is item i mod n |
| Carousel.OriginalsOfPadded | QbixSolutions/static/js/main.js:756-758 | removing the clones of the padded list gives back the originals |
| Carousel.PrefixClonesStep | QbixSolutions/static/js/main.js:775-779 | inserting clone i before the clones from i + 1 on gives the clones from i on |
| Carousel.PaddedParts | QbixSolutions/static/js/main.js:754-784 | the padded list is the prefix clones followed by the originals and the suffix clones |
| Carousel.PrefixSeamlessIff | QbixSolutions/static/js/main.js:775-779 | the slide before the first original shows the last original iff n divides C − 1 |
| Carousel.SnapAfterNext | QbixSolutions/static/js/main.js:818-823 | an index at or past C + n snaps to C; others are unchanged |
| Carousel.SnapAfterPrev | QbixSolutions/static/js/main.js:837-843 | an index below C snaps to C + n − 1; others are unchanged |
| Carousel.Advance | QbixSolutions/static/js/main.js:807-826 | a completed next from a settled index stays among the originals and advances by one modulo n |
| Carousel.Retreat | QbixSolutions/static/js/main.js:829-846 | a completed prev from a settled index stays among the originals and goes back by one modulo n |
| Carousel.AdvanceTimes | QbixSolutions/static/js/main.js:807-826 | any number of completed next steps stays among the originals |
| Carousel.AdvanceTimesMod | QbixSolutions/static/js/main.js:807-826 | k completed next steps advance the settled index by k modulo n |
| Carousel.AdvanceFullCycle | QbixSolutions/static/js/main.js:807-826 | n completed next steps return to the starting index |
| Carousel.AdvanceRetreatInverse | QbixSolutions/static/js/main.js:807-846 | a completed prev undoes a completed next, and the other way round |
| Carousel.SwipeMove | QbixSolutions/static/js/main.js:900-907 | forward iff the finger moved left by more than 50 px, backward iff right by more than 50 px, nothing within 50 px |
| Carousel.SwipeSymmetric | QbixSolutions/static/js/main.js:900-907 | mirroring a swipe turns forward into backward |
| Carousel.PortfolioSlider.IndexAddressesSlide | QbixSolutions/static/js/main.js:796 | with items, the index (settled or in flight) always addresses a slide of the padded list |
| Carousel.PortfolioSlider.constructor | QbixSolutions/static/js/main.js:926-927 | after `updateItemsPerView(); setupInfiniteLoop()`: the breakpoint's ipv, unlocked, index C with items and 0 without |
| Carousel.PortfolioSlider.UpdateItemsPerView | QbixSolutions/static/js/main.js:735-746 | sets ipv to the breakpoint's value |
| Carousel.PortfolioSlider.SetupInfiniteLoop | QbixSolutions/static/js/main.js:754-784 | old clones are removed; with items the list becomes the padded list and the index C; without, the list is empty and the index untouched |
| Carousel.PortfolioSlider.AppendClones | QbixSolutions/static/js/main.js:767-772 | the first loop appends the suffix clones after the originals |
| Carousel.PortfolioSlider.PrependClones | QbixSolutions/static/js/main.js:774-779 | the second loop, inserting each clone before the first child, yields the padded list |
| Carousel.PortfolioSlider.StartNext | QbixSolutions/static/js/main.js:807-815 | a no-op while locked; otherwise takes the lock and adds exactly one to the index |
| Carousel.PortfolioSlider.StartPrev | QbixSolutions/static/js/main.js:829-834 | a no-op while locked; otherwise takes the lock and subtracts exactly one from the index |
| Carousel.PortfolioSlider.SettleNext | QbixSolutions/static/js/main.js:818-825 | snaps past the last original to the first, releases the lock, and leaves the index among the originals |
| Carousel.PortfolioSlider.SettlePrev | QbixSolutions/static/js/main.js:837-845 | snaps before the first original to the last, releases the lock, and leaves the index among the originals |
| Carousel.PortfolioSlider.Resize | QbixSolutions/static/js/main.js:911-923 | updates ipv; rebuilds the clones and resets the index only when ipv changed, otherwise changes nothing |
| Carousel.PortfolioSlider.Swipe | QbixSolutions/static/js/main.js:894-907 | moves forward or backward exactly as the swipe decision says, and not at all within the threshold or while locked |
| Carousel.PortfolioSlider.CompleteNext | QbixSolutions/static/js/main.js:807-826 | a next with its callback: the index advances by one modulo n and the lock is free |
| Carousel.PortfolioSlider.CompletePrev | QbixSolutions/static/js/main.js:829-846 | a prev with its callback: the index goes back by one modulo n and the lock is free |
| Carousel.SixItemsNarrowScreen | QbixSolutions/static/js/main.js:925-927 | six items at 375 px start at index 4, and six completed next steps come back to 4 |
| Views.Where | QbixSolutions/views.py:94 | `filter`: exactly the rows satisfying the predicate, no more rows than the table |
| Views.WhereAppend | QbixSolutions/views.py:94 | filtering keeps the table's order |
| Views.WhereKeepsOrder | QbixSolutions/views.py:94 | any two kept rows occur in the table in the order they are kept |
| Views.WhereWhere | QbixSolutions/views.py:119 | `exclude` then `filter` keeps the same rows as one filter by both conditions |
| Views.WherePrefixIsFirst | QbixSolutions/views.py:78 | in a table without repeated rows, a prefix of the kept rows holds the first accepted rows: an accepted row before one of the prefix is in it too |
| Views.WhereAll | QbixSolutions/views.py:94 | a predicate every row satisfies changes nothing |
| Views.WhereNone | QbixSolutions/views.py:94 | a predicate no row satisfies leaves nothing |
| Views.WhereSingleton | QbixSolutions/views.py:94 | a one-row table whose row is accepted is unchanged |
| Views.FirstThree | QbixSolutions/views.py:78 | `[:3]`: the first min(3, length) rows |
| Views.PortfolioListing | QbixSolutions/views.py:92-94 | with a non-empty category, exactly the items of that category; with none or an empty one, all items; in table order |
| Views.PortfolioListingOrder | QbixSolutions/views.py:92-94 | the category filter keeps the listing order |
| Views.BlogListing | QbixSolutions/views.py:133-135 | with a non-empty category, exactly the posts of that category; with none or an empty one, all posts; in table (`-published_date`) order |
| Views.AvailableCategories | QbixSolutions/views.py:100-101 | exactly the choices whose code some item uses, in `CATEGORY_CHOICES` order |
| Views.OnlyOtherAvailable | QbixSolutions/views.py:100-101 | in choice order: when all items are "Other", only the "Other" choice is offered |
| Views.OtherIsLastChoice | QbixSolutions/models.py:40-52 | "Other" is the last choice and no other choice has that code |
| Views.JobListings | QbixSolutions/views.py:171-176 | exactly the active jobs, and with a non-empty department only those of it; in table (`-posted_date`) order |
| Views.Departments | QbixSolutions/views.py:179 | exactly the departments of active jobs |
| Views.DepartmentsNonEmptyListing | QbixSolutions/views.py:174-179 | selecting an offered department lists at least one job |
| Views.BlogCategories | QbixSolutions/views.py:138 | exactly the categories of the posts |
| Views.RelatedServices | QbixSolutions/views.py:78 | at most three services, none with the shown slug; fewer than three only when no other service is left; in table order; with unique rows, no other service is skipped for a later one |
| Views.RelatedProjects | QbixSolutions/views.py:119 | at most three items of the shown item's category, none with its slug; fewer only when none is left; in table order; with unique rows, no qualifying item is skipped for a later one |
| Views.RelatedPosts | QbixSolutions/views.py:160 | at most three posts of the shown post's category, none with its slug; fewer only when none is left; in table order; with unique rows, no qualifying post is skipped for a later one |
| Views.RelatedExcludesShown | QbixSolutions/views.py:119 | the shown item or post is never among its own related ones |
| Views.NewsletterRedirect | QbixSolutions/views.py:239 | the Referer header when present, otherwise `home` |
| Consistency.BrowserAcceptedPhonePassesServer | QbixSolutions/forms.py:45-51 | a non-blank value that `validateField` accepts in a required `type="tel"` control passes all three `clean_phone` hooks on its Python-stripped form |

## Left out

- Pixel offsets of `updateSliderPosition` (main.js:787-804): float widths and gaps. The index is the slider's position.
- Wall-clock timing: auto-scroll every 3000 ms, the 8000 ms restart, the hover pause and the 250 ms resize debounce. Each settle callback and resize is an event; auto-scroll is a `StartNext`.
- Carousel.PortfolioSlider: the slide list holds item numbers, not DOM nodes, so node identity and `cloneNode` copies are not modelled.
- Carousel.SwipeMove: screen coordinates are JavaScript doubles; they are modelled as reals, so rounding is not modelled.
- The loader, counters, parallax, tilt, ripple, scroll reveal, modals, navigation and the other DOM glue of main.js: presentation, randomness and animation frames.
- FieldValidation.FormField.ValidateField: the note is modelled as a field of the control. The source looks up the first `.field-error` in the parent element, which siblings share.
- Strings are sequences of Unicode code points. JavaScript strings are UTF-16, so `trim` and `\s` are not modelled on lone surrogates.
- Chars.PyDigit: the Nd runs are those of Unicode 15.0; another Python build may use a different Unicode version.
- Forms.Lower: only 'A'..'Z' are lower-cased. Python's `lower()` also maps non-ASCII characters, a few of them to ASCII letters (U+212A KELVIN SIGN to 'k'), but no such mapping turns an extension into "pdf", "doc" or "docx", so the accept decision is the same.
- Forms.CleanName and the `clean_phone` hooks take the value Django's `CharField` has already stripped; the stripping itself appears only in `Consistency`.
- Forms.CleanNewsletterEmail: emails are compared exactly; database collation is not modelled.
- Forms.CleanNewsletterEmail: `NewsletterSubscriber.email` is `unique=True` (models.py:171), so the model form's own uniqueness check still refuses an email held only by an inactive subscriber, which `clean_email` lets through; that check is not modelled.
- Forms.CleanResume: the file is its name and size; storage and the upload itself are not modelled.
- Views.Departments and Views.BlogCategories: the `values_list(...).distinct()` lists are modelled as sets, so neither their order nor their repeats are modelled. `JobListing` and `BlogPost` declare a default ordering (models.py:131-132, 88-89), and Django adds the ordering column to `SELECT DISTINCT`, so a department posted on two dates, or a category used on two dates, is listed twice by the source.
- Consistency.BrowserAcceptedPhonePassesServer: holds for a required `type="tel"` control only. The phone fields of forms.py render as `TextInput` (type `text`, forms.py:21, 75, 155), on which `validateField` checks only that the value is not blank, so there "abc" passes the browser and fails `clean_phone`.
- Django plumbing: rendering, messages, redirects, the Paginator, `get_object_or_404` and database writes.
- The home, about and services pages (views.py:11-72): home takes the first three services, the first six featured portfolio items, the first four featured testimonials and the first three blog posts after ordering by `-featured, -published_date`; about takes the first five team members; services lists every service. The blog page's `featured_posts` (views.py:146) takes the first three featured posts. These queries are not modelled: they add no rule beyond `Where` and a prefix slice except the re-ordering of the blog posts.
- admin.py and urls.py: declarative configuration only.
