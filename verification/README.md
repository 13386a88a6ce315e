# LingUp front end: verified model of the page logic

This project is a Dafny model of the pure logic inside four components of
the LingUp landing site, a React front end for an English-language school:

- **Courses**: the course catalogue. The skill endpoint sends flat rows, one
  per course feature, and each row carries its price list. These rows become
  course cards, as follows.
  - Only rows of active price lists count.
  - Rows are grouped by price-list id, in order of first appearance. The
    grouping is a `Map`, modelled as an insertion-ordered association list.
  - The first row of a group supplies the title, description, price and
    order. Titles and descriptions are localised by `pickLocalized` and fall
    back to "No Title" and "No description available.".
  - Features with the same name are merged. Status is merged by "or", order
    by minimum.
  - Courses and then features are sorted by order. ECMAScript's sort is
    stable, so it is modelled as an insertion sort.
  - Plans of order 1, 2 and 3 get a fixed struck-through original price.
- **OrderPage**: the checkout page.
  - Payment cards and price plans arrive as untyped JSON and are checked
    structurally.
  - A payload that is an array, or `{results: [...]}`, is normalised to a
    list.
  - The plan list holds the active, valid plans sorted by order. The
    selection is kept across reloads.
  - Card numbers are grouped by four.
  - The confirmation form tracks its fields, receipt, validity and submit
    guard.
  - A 15-minute countdown is shown as `MM:SS`.
- **Contact**: the contact section.
  - The enrolment timer holds `null`, `NaN` or a number of seconds. It ticks
    down once a second and is resynchronised from the server with
    `parseInt`.
  - The timer is shown as `HH:MM:SS`, with the sentinel `--:--:--`.
  - The contact form refuses phone numbers longer than 14 UTF-16 units and
    is emptied after a successful submission.
- **Reviews**: the review carousel.
  - Avatar files are numbered by the index in their file name, as in
    `Image 7 - ....jpg`, then sorted by that index.
  - Each avatar becomes a card. Name and age come from a fixed table. Review
    texts and level tags are assigned round-robin.
  - The cards are doubled, capped at twelve, and cut into slides of six.

Shared modules hold the semantics of the JavaScript library that these
components rely on:

- `Optional`: `Option` for `null`/`undefined`, and `Result`.
- `Seqs`: `filter`, `map`, de-duplication.
- `Text`: `trim`, `\d`, `\s`, `String(n)`, `parseInt(s, 10)`, `padStart`,
  ASCII lower-casing, UTF-16 `length`.
- `StableSort`: `Array.prototype.sort` with a numeric comparator.
- `AssocList`: `Map` with string keys.
- `Json`: untyped response data.

Every operation is a pure function of its inputs. Page state becomes an
immutable record, and effects become step functions over it. Network
responses, timer ticks and the translation lookup are all parameters.

`pickLocalized` evaluates `obj[base] ?? obj[key] ?? obj[base] ?? ""`
(`src/components/Courses.tsx:71`). So the plain field wins whenever it is
present, even when it is empty, and the `_ru`/`_uz` variant is only a
fallback.
- The model follows the code. This flows into titles, descriptions and
  feature names.

The feature order is also stated as the code computes it:

- It is the least finite order among the rows carrying the name.
- When the first such row has no finite order, the running value starts at
  9999. Later finite orders above 9999 then stay clipped to 9999.
- `Courses.FoldMetaOrder` states exactly this.

## Model

| member | source | states |
|---|---|---|
| Courses.PickLocalized | src/components/Courses.tsx:64-72 | The plain field is returned whenever it is present (even if empty); otherwise the `_ru` or `_uz` variant chosen by the language prefix, or "" when that variant is missing or the language is neither |
| Courses.LanguageOfIgnoresCase | src/components/Courses.tsx:66-70 | The language prefix is matched without regard to ASCII case |
| Courses.TitleOf | src/components/Courses.tsx:101 | A course title is the localised course name when that is non-empty, and "No Title" otherwise |
| Courses.DescriptionOf | src/components/Courses.tsx:102 | A course description is the localised description when that is non-empty, and "No description available." otherwise |
| Courses.FeatureName | src/components/Courses.tsx:111-112 | A row yields a feature name exactly when one of `name`, `name_ru`, `name_uz` is non-empty; the name is the non-empty localised pick, else `name_ru`, else `name_uz` (a non-empty `name` is always the pick) |
| Courses.OriginalPriceFor | src/components/Courses.tsx:74-86 | The original price exists exactly for orders 1, 2, 3, with 1180000, 1780000, 2580000 respectively |
| Courses.NamedRows | src/components/Courses.tsx:111-114 | The rows merged under a name are exactly the rows whose feature name it is |
| Courses.FoldFeaturesGet | src/components/Courses.tsx:110-117 | The feature map has distinct names, and the entry of a name is the merge of exactly the rows carrying that name, in order |
| Courses.FoldFeaturesKeys | src/components/Courses.tsx:111-117 | The feature names of a course appear in the order in which rows first name them, each once |
| Courses.FoldMetaStatus | src/components/Courses.tsx:115 | A merged feature exists exactly when some row carries the name; its status is the "or" of the rows' statuses |
| Courses.FoldMetaOrder | src/components/Courses.tsx:116-117 | The merged order is at most every finite order of the rows (and at most 9999 when the first row has none) and equals one of them, or 9999 |
| Courses.FeatureMerge | src/components/Courses.tsx:110-117 | Within one course a name has an entry exactly when some row carries it; status is the "or" over those rows, order their least finite order or 9999 |
| Courses.CourseStepGet | src/components/Courses.tsx:98-117 | One loop iteration changes only the entry of the row's price-list id; a missing entry is created from that row's price list, then the row's feature is merged in |
| Courses.AggregateKeys | src/components/Courses.tsx:96-109 | The keys of `byCourse` are the distinct price-list ids in order of first appearance |
| Courses.AggregateGet | src/components/Courses.tsx:98-118 | The entry of an id is the header of its first row with the features merged from all its rows, and nothing when no row has the id |
| Courses.AggregateEntry | src/components/Courses.tsx:98-109 | An id has an aggregate exactly when some row has it; title, description, price, original price and order come from the first such row, features from all of them |
| Courses.SortedCourseEntries | src/components/Courses.tsx:120-121 | The course entries come out ordered by course order, as a permutation of the map's entries, with equal orders in insertion order |
| Courses.SortedFeatures | src/components/Courses.tsx:128-129 | The feature entries come out ordered by feature order, as a permutation, with equal orders in insertion order |
| Courses.BuildIgnoresInactiveRows | src/components/Courses.tsx:90 | Removing inactive rows (all, or any single one) from the input leaves the courses unchanged |
| Courses.ActiveIdempotent | src/components/Courses.tsx:90 | Filtering active rows twice is filtering them once |
| Courses.ActiveDropsInactive | src/components/Courses.tsx:90 | An inactive row anywhere in the input does not survive the filter |
| Courses.SortedEntryIsAggregate | src/components/Courses.tsx:120-122 | Every sorted entry is the map's entry for its id |
| Courses.BuildIds | src/components/Courses.tsx:122-123 | The card ids are the keys of the sorted course entries, in order |
| Courses.SortedCourseKeys | src/components/Courses.tsx:120-121 | Sorting keeps the course keys distinct and equal, as a set, to the distinct active ids |
| Courses.BuildOneCoursePerId | src/components/Courses.tsx:98-112 | Exactly one card per distinct active price-list id, ids pairwise distinct, including courses none of whose rows names a feature |
| Courses.BuildCourseContents | src/components/Courses.tsx:98-132 | Each card takes title, description, price, original price from its first active row, features from the merge of all its active rows, and the default statistics |
| Courses.BuildOrderedByCourseOrder | src/components/Courses.tsx:106-121 | Cards come out in non-decreasing order of their first row's order, 9999 standing for a missing or non-finite one |
| Courses.FeatureListNames | src/components/Courses.tsx:128-130 | Sorting and converting a feature map keeps exactly its names, each once |
| Courses.FeatureListEntry | src/components/Courses.tsx:128-130 | Each listed feature carries the status of its map entry |
| Courses.CourseFeatureNamesDistinct | src/components/Courses.tsx:111-130 | Within a course the feature names are unique |
| Courses.CourseFeatureNames | src/components/Courses.tsx:111-130 | A course lists a feature exactly for the names some of its rows carries |
| Courses.CourseFeatureStatus | src/components/Courses.tsx:114-130 | Each listed feature has at least one row, and its status is the "or" over the rows with its name |
| Courses.FeatureListOrdered | src/components/Courses.tsx:128-130 | Listed features are in non-decreasing order of their merged order |
| Courses.BuildFeaturesOrdered | src/components/Courses.tsx:114-130 | Within every card, a feature listed earlier has a merged order no larger than a later one |
| Courses.FeatureTiesInFirstAppearance | src/components/Courses.tsx:114-130 | Two features of a card with the same merged order are listed in the order in which the rows first name them |
| Courses.BuildTiesInFirstAppearance | src/components/Courses.tsx:98-121 | Two cards with the same course order are listed in the order in which their course ids first appear among the active rows |
| Courses.CourseTiesInFirstAppearance | src/components/Courses.tsx:120-121 | Course groups with equal order keys stay in first-appearance order after sorting |
| AssocList.Get | src/components/Courses.tsx:110 | `Map.get` finds a value exactly for a present key, and the value belongs to an entry with that key |
| AssocList.Put | src/components/Courses.tsx:104 | `Map.set` keeps the key order for an existing key and appends a new key at the end |
| AssocList.PutDistinct | src/components/Courses.tsx:117 | Setting a key keeps the keys of the map distinct |
| AssocList.PutGet | src/components/Courses.tsx:117 | After setting a key, reading it gives the new value and every other key reads as before |
| AssocList.GetOfEntry | src/components/Courses.tsx:120 | With distinct keys, every entry of `entries()` is what `get` returns for its key |
| StableSort.Sort | src/components/Courses.tsx:121 | The numeric-comparator sort returns a permutation of its input ordered by key |
| StableSort.SortStable | src/components/Courses.tsx:121 | For every key, the elements with that key keep their input order (stability) |
| StableSort.SortKeepsTieOrder | src/components/Courses.tsx:121 | Any two outputs with equal keys occur in the same relative order in the input |
| StableSort.SortOfSorted | src/components/Courses.tsx:129 | Sorting an already ordered sequence changes nothing, so sorting is idempotent |
| StableSort.SortKeepsDistinct | src/components/Courses.tsx:120-121 | Sorting entries with distinct keys keeps them distinct and keeps the same keys |
| Seqs.FilterConcat | src/components/Courses.tsx:90 | Filtering a concatenation filters each part independently |
| Seqs.DedupOrder | src/components/Courses.tsx:96-109 | Distinct ids keep the order of their first occurrence |
| Text.TwoDigits | src/components/Contact.tsx:15-17 | `padStart(2, "0")` of a number gives at least two digits, exactly two below 100, reading back as the number |
| Text.TrimEmptyIff | src/components/OrderPage.tsx:334-338 | A trimmed field is empty exactly when the field is all white space |
| Text.ParseIntOfNumeral | src/components/Contact.tsx:38 | `parseInt` reads back any integer written by `String`, whatever non-digit text follows it |
| Text.ParseIntNaN | src/components/Contact.tsx:38-39 | `parseInt` is `NaN` exactly when no digit follows the leading white space and optional sign |
| Text.LeadingDigits | src/components/Reviews.tsx:23-25 | The greedy `\d+` takes the longest prefix of digits: it stops at the first non-digit |
| Text.Utf16Length | src/components/Contact.tsx:96 | A string's `length` lies between its number of characters and twice that |
| Text.Utf16LengthBmp | src/components/Contact.tsx:96 | For text in the Basic Multilingual Plane `length` is the number of characters |
| OrderPage.ChecksNeedObjects | src/components/OrderPage.tsx:45-71 | Only objects with an `id` can pass the card or plan check; anything else fails both |
| OrderPage.PaymentCardMembers | src/components/OrderPage.tsx:45-57 | A value is a payment card exactly when it is an object with a number-or-string `id` and string `card_number`, `full_name` and `type`; missing any of them fails |
| OrderPage.PricePlanMembers | src/components/OrderPage.tsx:59-71 | A value is a price plan exactly when it is an object with a number-or-string `id`, string `course` and `price`, and boolean `is_active`; missing any of them fails |
| OrderPage.RawList | src/components/OrderPage.tsx:132 | An array payload is used as is, `{results: array}` yields `results`, any other non-null payload yields `[]`, and a `null` payload throws |
| OrderPage.Cards | src/components/OrderPage.tsx:132-133 | The kept cards are exactly the raw elements passing `isPaymentCard`, all of them when all pass; a `null` payload is an error |
| OrderPage.CardsSingle | src/components/OrderPage.tsx:133 | A one-element array keeps its element exactly when it is a payment card |
| OrderPage.CardsConcat | src/components/OrderPage.tsx:132-133 | Cards keep payload order: the cards of two concatenated arrays are the first array's cards followed by the second's |
| OrderPage.ValidActivePlans | src/components/OrderPage.tsx:172-174 | The kept plans are exactly the raw elements that are valid plans with `is_active` true, the whole payload when all are |
| OrderPage.ValidActivePlansSingle | src/components/OrderPage.tsx:172-174 | A one-element payload keeps its element exactly when it is a valid plan with `is_active` true |
| OrderPage.ValidActivePlansConcat | src/components/OrderPage.tsx:172-174 | Plans keep payload order before sorting: the kept plans of two concatenated payloads are those of the first followed by those of the second |
| OrderPage.ActivePlans | src/components/OrderPage.tsx:171-175 | The plan list holds exactly the valid active plans, ordered by `order` with a missing order as `MAX_SAFE_INTEGER`, ties in payload order |
| OrderPage.UnorderedPlansLast | src/components/OrderPage.tsx:175 | A plan without an order is listed after every plan whose order is below `MAX_SAFE_INTEGER` |
| OrderPage.Reselect | src/components/OrderPage.tsx:182-187 | The previous id is kept when some plan has it, else the first plan's id, else null; a result is always the id of a listed plan |
| OrderPage.ReselectIdempotent | src/components/OrderPage.tsx:182-187 | Reloading the same plans keeps the selection |
| OrderPage.SelectedPlan | src/components/OrderPage.tsx:331 | A plan is found exactly when the selected id is listed, and it is the first plan with that id |
| OrderPage.LoadPlans | src/components/OrderPage.tsx:164-200 | A settled load clears the loading flag; without error it installs the sorted plan list and reselects; on a failed request or `null` payload it sets the error and keeps plans and selection |
| OrderPage.SelectionStaysListed | src/components/OrderPage.tsx:181-187 | Across loads the selection stays null or the id of a listed plan, for which a plan is then found; a non-empty successful load always selects |
| OrderPage.PickPlan | src/components/OrderPage.tsx:393-396 | Clicking a plan selects its id and changes nothing else in the plan state |
| OrderPage.PickPlanShown | src/components/OrderPage.tsx:393-396 | After clicking a listed plan the page finds a plan with its id (the clicked one unless an earlier plan shares the id), and a reload that still lists a non-empty id keeps the pick |
| OrderPage.LoadCards | src/components/OrderPage.tsx:125-152 | A settled load clears the loading flag and either installs the valid cards or sets the error and keeps the old cards |
| OrderPage.DigitsOf | src/components/OrderPage.tsx:240 | Removing non-digits leaves only digits |
| OrderPage.GroupBy4Shape | src/components/OrderPage.tsx:240 | Inserting a space after each group of four puts spaces exactly at every fifth position and digits elsewhere |
| OrderPage.GroupBy4Content | src/components/OrderPage.tsx:240 | Grouping only inserts spaces: deleting them, or keeping digits, gives the digits back |
| OrderPage.GroupedEnds | src/components/OrderPage.tsx:240 | A grouped number starts with a digit and ends with a space exactly when the digit count is a multiple of four |
| OrderPage.TrimmedGrouping | src/components/OrderPage.tsx:240 | Trimming a grouped, non-empty digit string gives the card shape and keeps the digits |
| OrderPage.FormatCardNumberShape | src/components/OrderPage.tsx:239-241 | The output is empty exactly when the input has no digits; deleting its spaces gives exactly the input's digits; otherwise groups of four separated by single spaces, the last of one to four, no space at either end |
| OrderPage.FormatCardNumberIdempotent | src/components/OrderPage.tsx:239-241 | Formatting a card number twice is formatting it once |
| OrderPage.ChangeField | src/components/OrderPage.tsx:284-290 | Changing a field sets it, leaves the other two fields, the receipt and the sending flag alone, and clears the error |
| OrderPage.SelectFile | src/components/OrderPage.tsx:269-282 | A non-empty file choice installs the first file and clears the error; an empty choice changes nothing |
| OrderPage.FormValidIff | src/components/OrderPage.tsx:334-338 | The form is valid exactly when each of the three fields has a non-white-space character and a receipt is attached |
| OrderPage.Submit | src/components/OrderPage.tsx:292-310 | Submission posts exactly when the form is valid, sending the trimmed fields and the receipt and marking the state as sending; otherwise it only sets the error message |
| OrderPage.SubmitSendsTrimmedFields | src/components/OrderPage.tsx:292-310 | Posted fields are non-empty and trimmed; a submit from an enabled button always posts and leaves the button disabled |
| OrderPage.AfterPost | src/components/OrderPage.tsx:310-328 | Success goes to the success view; a failure shows the string `detail` or the generic message; either way the button is re-enabled and the form and receipt are kept |
| OrderPage.RetryAfterFailure | src/components/OrderPage.tsx:291-328 | After a failed post the button is enabled again and a second click posts the same trimmed fields and receipt |
| OrderPage.CountdownStep | src/components/OrderPage.tsx:98-104 | The timer decrements a positive value by one and leaves zero or less unchanged |
| OrderPage.CountdownValue | src/components/OrderPage.tsx:80-104 | After k ticks from 900 seconds the countdown is `max(900 - k, 0)` |
| OrderPage.FormatMinutesFields | src/components/OrderPage.tsx:225-229 | `MM:SS` reads back as the seconds: minutes times 60 plus seconds, seconds below 60 and two digits, minutes at least two digits |
| OrderPage.CountdownText | src/components/OrderPage.tsx:225-229 | The countdown is never negative and always shows five characters |
| Contact.FormatClock | src/components/Contact.tsx:13-19 | The sentinel `--:--:--` is returned exactly for null, `NaN` and negative values |
| Contact.ClockText | src/components/Contact.tsx:15-18 | A clock text is non-empty and ends with a digit |
| Contact.ClockTextFields | src/components/Contact.tsx:15-18 | The three colon-separated fields read back as hours, minutes and seconds |
| Contact.FormatClockFields | src/components/Contact.tsx:15-18 | For s >= 0 the text has three numeric fields with `h*3600 + m*60 + sec = s`, `m, sec < 60`, minutes and seconds two digits, hours at least two |
| Contact.FormatClockExample | src/components/Contact.tsx:13-19 | 3661 seconds show as `01:01:01` and -1 as the sentinel |
| Contact.Tick | src/components/Contact.tsx:47-49 | A positive time decreases by one; null, `NaN`, zero and negatives stay |
| Contact.TicksValue | src/components/Contact.tsx:47-49 | k ticks from n >= 0 leave `max(n - k, 0)`: the timer never turns negative by ticking |
| Contact.Resync | src/components/Contact.tsx:33-43 | A response overwrites the time with its `parseInt` exactly when that is a number; a `NaN` parse or a failed request leaves the time alone |
| Contact.ResyncNumber | src/components/Contact.tsx:38-39 | A server value that is an integer is taken over exactly |
| Contact.NeverNaN | src/components/Contact.tsx:30-49 | Starting from null, no sequence of ticks and responses makes the time `NaN` |
| Contact.TimerCardShowsTime | src/components/Contact.tsx:207-212 | The timer card is hidden exactly for null, `NaN` or non-positive times, and a shown card never displays the sentinel |
| Contact.Change | src/components/Contact.tsx:91-104 | A phone value longer than 14 UTF-16 units is refused with the error shown; otherwise the named field alone is set, and a phone edit clears the error |
| Contact.PhoneStaysShort | src/components/Contact.tsx:95-103 | Whatever is typed, a stored phone number within 14 units stays within 14 units |
| Contact.AfterSubmit | src/components/Contact.tsx:69-89 | A successful submission empties all three fields; a failed one changes nothing |
| Reviews.LastSegment | src/components/Reviews.tsx:22 | The file name is the slash-free suffix of the path that is all of it or follows a slash |
| Reviews.SegmentUnique | src/components/Reviews.tsx:22 | A path has only one such suffix |
| Reviews.LastSegmentAfterSlash | src/components/Reviews.tsx:22 | Everything up to the last slash is discarded |
| Reviews.LastSegmentNoSlash | src/components/Reviews.tsx:22 | A path without slashes is its own file name |
| Reviews.CaptureStart | src/components/Reviews.tsx:23 | The captured digits of an "image" match start right after "image" exactly when a digit follows it, and otherwise after the one separator; they start at a digit |
| Reviews.FindImage | src/components/Reviews.tsx:23 | The case-insensitive `image[_\s-]?\d` match found is the leftmost one |
| Reviews.FindDigit | src/components/Reviews.tsx:25 | The digit found is the leftmost digit |
| Reviews.ImageIndexIgnoresDirectories | src/components/Reviews.tsx:21-27 | Directories in the path do not influence the index |
| Reviews.ImageIndexOfName | src/components/Reviews.tsx:21-27 | A file named "Image n..." has index n in any directory, whatever digits the directories carry |
| Reviews.ImageIndexPrefersImage | src/components/Reviews.tsx:21-27 | Digits before "Image n" are ignored: the number after the first "image" wins over earlier digit runs |
| Reviews.ImageIndexExample | src/components/Reviews.tsx:21-27 | "comments/01 Image 7.jpg" has index 7, not 1 |
| Reviews.ImageIndexFallback | src/components/Reviews.tsx:25-26 | Without an "image" match the index is the value of the first run of digits |
| Reviews.ImageIndexNoDigits | src/components/Reviews.tsx:25-26 | A file name without any digit has index 0 |
| Reviews.AvatarsWithIndex | src/components/Reviews.tsx:45-47 | Avatars come out ordered by index, one per file, as a permutation, equal indices in entry order |
| Reviews.MetaFor | src/components/Reviews.tsx:30-42 | Indices 1 to 11 take their row of the table; any other index is "Unknown" with an empty age |
| Reviews.GenericTexts | src/components/Reviews.tsx:149-158 | The texts are never empty: a non-empty list as is, a non-blank text alone, otherwise the default sentence |
| Reviews.People | src/components/Reviews.tsx:161-183 | One card per avatar, with id i+1, rating 5, the avatar's URL, text `texts[i mod n]`, tag `tags[i mod 6]` and the table's name and age |
| Reviews.ReviewsRoundRobin | src/components/Reviews.tsx:178 | Cards the number of texts apart share a text, and the first cards take the texts in order |
| Reviews.TagsRoundRobin | src/components/Reviews.tsx:162-179 | Cards six apart share a level tag, and the first six take the tags in order |
| Reviews.ReviewPool | src/components/Reviews.tsx:186-189 | The pool has `min(12, 2n)` cards; card i is person `i mod n` renumbered to i+1 |
| Reviews.DeckOfTwelve | src/components/Reviews.tsx:186-196 | Six or more people give twelve cards on two slides; with six the second slide repeats the first under new ids; with fewer every card appears twice |
| Reviews.Slides | src/components/Reviews.tsx:192-196 | The slides concatenate to the reviews; there are ⌈len/6⌉ of them, each of 1 to 6 cards, all but the last exactly 6, slide k starting at review 6k |
| Reviews.ChunkedFlatten | src/components/Reviews.tsx:194 | Consecutive chunks of six concatenate to the reviews they cover |
| Reviews.ChunkedSizes | src/components/Reviews.tsx:194 | Every chunk has one to six reviews and all but the last have six |

## Left out

- Rendering, animation, carousels and effect lifecycles are left out. They
  are markup with no state of their own. The effects appear only as step
  functions: `Contact.Step`, `OrderPage.LoadPlans`, `OrderPage.LoadCards`.
- HTTP requests, the `isMounted` guards, `setInterval`/`setTimeout`
  scheduling, the clipboard, object URLs for the receipt preview, and
  `FormData` are left out. These are network and browser I/O.
  - A response appears as an optional value, `None` for a failed request.
  - A file appears as an opaque number.
  - The error text of a failed contact post and the contact success
    message are not modelled. The confirmation post's outcome is
    (`OrderPage.AfterPost`).
- The translation lookup is an input.
  - `review_texts` is the `Reviews.Translation` parameter.
  - The translated phone error is a boolean.
- `import.meta.glob` runs at build time. Its path → URL entries are the
  input of `Reviews.AvatarsWithIndex`, and their order is taken as given.
- `getCardAccent`, the plan's display name ("Tarif tanlang"), the
  displayed price and the opening and closing of the plan list
  (`setIsPlansOpen`) are cosmetic and not modelled.
- Courses.OriginalPriceFor: returns the anchor price as a number, not its
  `toLocaleString()` + "sum" rendering. The rendering is locale-dependent
  library code.
- Courses.Build: a card's `price` is the API's price text. Rendering it with
  locale separators and "sum" is locale-dependent library code. The same
  holds for `formatPrice` on the order page.
- Courses.Build: price-list and row orders are given as integers,
  `Number(order)` when finite and `None` otherwise.
  - The caller encodes `Number()`'s coercion, for example `null` reading as
    0.
  - Non-integer orders are not modelled. Floating point is left out.
- Courses.Build: `price_list` is taken as present, as its declared type
  says. A row without one would be dropped by the `?.` guard, and that case
  is not modelled.
- OrderPage.PlanOrderKey: an `order` that is not a JSON number sorts as
  `MAX_SAFE_INTEGER`. JavaScript would coerce a numeric string through the
  subtraction in the comparator. Such payloads fail the declared type and
  are not modelled.
- OrderPage.IdString: a numeric id is written with all its digits.
  `String(id)` switches to exponent form from 1e21 on, and such ids are
  not modelled.
- Json.Value: numbers are integers. Every number the pages inspect is an id
  or an order.
- Contact.Resync: the server's `remaining_seconds` is given as the text
  `parseInt` reads.
  - A numeric value is covered through its decimal rendering
    (`Contact.ResyncNumber`).
  - Exponent renderings of huge or tiny numbers are not modelled.
  - The parsed value is kept as an exact integer. `parseInt` yields a
    double, so digit strings beyond 2^53 are rounded, and a run of more
    than about 309 digits becomes `Infinity`, which `formatTime` would
    render as "Infinity:NaN:NaN" and the tick would never lower. Neither
    is modelled.
- Reviews.ImageIndex: digit runs are read exactly. `parseInt` loses
  precision beyond 2^53.
- Reviews.FindImage: case-insensitive matching is ASCII lower-casing. This
  is exact for the pattern "image", whose letters have no non-ASCII case
  variants in a non-Unicode regular expression.
