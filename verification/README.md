# AllTrails hike planner: the string and retry logic, in Dafny

The application scrapes a hike's page on AllTrails, validates the URL the user types, cleans
the location it shows, and pins the places an itinerary mentions on a map. This project models
the deterministic core of that, and proves what it promises:

- `PlaceExtractor` (places.dfy): `MapGenerator._extract_places_from_itinerary`. It finds the
  "Places Mentioned" heading, reads the bulleted `name - address` lines after it, cleans both
  parts, and keeps those that pass the length and placeholder filters.
- `FieldExtractor` (fields.dfy): the scraper's `_extract_*` methods and `HikeData`. The parsed
  page is abstract. For each CSS selector it gives the element `select_one` finds, if any. For
  that element it gives the stripped text, the direct children, and the stat nodes' texts. It
  also gives the page's spans by their `.string`. On top of that the model has:
  - the ordered selector fallbacks;
  - the stat classification and its precedence;
  - the feature set;
  - the two reviews patterns.
- `RetryController` (retry.dfy): the five-attempt loop of `scrape_hike`. It is driven by what
  each attempt runs into. It records its pauses, requests and user-agent rotations as events.
- `UrlPattern` and `Validators` (validators.dfy): the URL format expression as declarative
  predicates, the domain check, and the three-step `validate_hike_url`.
- `LocationCleaner` (location.dfy): `clean_location_string`.
- `Text` (text.dfy) holds what Python's `str` gives those: whitespace as `str.isspace` sees it,
  lower-casing, `in`, `find`, `strip`, `split` and `join`.

## Model

| member | source | states |
|---|---|---|
| PlaceExtractor.ExtractPlaces | app/map_generator.py:104-146 | without the case-sensitive heading the result is empty; with it, there are at most as many places as lines from the heading on |
| PlaceExtractor.ExtractedPlacesAcceptable | app/map_generator.py:119-144 | every extracted place has a stripped name longer than 2 characters, not starting with a bullet glyph or whitespace, holding no " - ", not a placeholder in any case; its address is stripped and longer than 10 characters |
| PlaceExtractor.ExtractedPlacesFromBulletedLines | app/map_generator.py:116-144 | every extracted place is what some line of the section from the heading on parses to, and that line, once stripped, starts with a bullet and holds " - " |
| PlaceExtractor.ParseLine | app/map_generator.py:119-144 | a line yields a place only when, once stripped, it starts with a bullet and holds " - "; the name is then longer than 2 characters and the address longer than 10 |
| PlaceExtractor.ParseLineSound | app/map_generator.py:120-144 | only a line that, once stripped, starts with "•", "-" or "*" and holds " - " yields a place, and that place passes the same filters |
| PlaceExtractor.SplitOnce | app/map_generator.py:124 | `split(' - ', 1)` gives one or two parts |
| PlaceExtractor.SplitOnceShape | app/map_generator.py:124-125 | there are two parts exactly when the line holds the separator; they rebuild the line around it, and the first part holds no separator |
| PlaceExtractor.CleanName | app/map_generator.py:125-131 | the cleaned name is stripped and no longer than the raw part |
| PlaceExtractor.CleanNameShape | app/map_generator.py:126-131 | a cleaned name is stripped, starts with neither whitespace nor a bullet glyph, and gains no separator |
| PlaceExtractor.ParseLinesAppend | app/map_generator.py:119-144 | lines are read independently and in order: two blocks of lines give their places concatenated |
| PlaceExtractor.DuplicatesKept | app/map_generator.py:141-144 | a line that appears twice yields its place twice |
| PlaceExtractor.OnlyTextAfterAnchorCounts | app/map_generator.py:109-114 | text before the first heading plays no part |
| PlaceExtractor.AnchorLineYieldsNothing | app/map_generator.py:122 | the heading line itself is not a bulleted line |
| PlaceExtractor.FirstSeparatorAfterName | app/map_generator.py:124 | in a bulleted line built from a name without " - ", the first separator is the one after the name, so the address keeps any later hyphens |
| PlaceExtractor.CleanBulletedName | app/map_generator.py:126-131 | cleaning "bullet, space, name" gives back the name |
| PlaceExtractor.ParseBulletLine | app/map_generator.py:119-144 | any indented bulleted `name - address` line yields exactly (name, address) when the name is longer than 2 characters, the address longer than 10, and the name not a placeholder; otherwise nothing |
| PlaceExtractor.SectionOfOneBulletLine | app/map_generator.py:104-146 | a heading followed by one such line yields that one place or none |
| PlaceExtractor.SectionOfTwoLines | app/map_generator.py:109-119 | a heading followed by one line reads just that line |
| PlaceExtractor.SectionOfLines | app/map_generator.py:109-146 | a heading followed by any lines yields, in order, the place of every line that parses, and nothing else |
| PlaceExtractor.SectionDuplicatesKept | app/map_generator.py:119-146 | under the heading, a line written twice yields its place twice |
| PlaceExtractor.SectionInLineOrder | app/map_generator.py:119-146 | under the heading, the places of two blocks of lines are those of the first block followed by those of the second |
| PlaceExtractor.BlueBottleExample | app/map_generator.py:122-144 | "• Blue Bottle Coffee - 123 Main St, Springfield, IL 62701" after the heading yields exactly that one place |
| PlaceExtractor.ShortNameExample | app/map_generator.py:137-139 | "• Ab - 123 Main St, Springfield, IL" yields nothing: the name is too short |
| PlaceExtractor.UnbulletedLineYieldsNothing | app/map_generator.py:122 | after the heading, a `name - address` line without a bullet yields nothing, whatever its parts |
| PlaceExtractor.UnbulletedExample | app/map_generator.py:122 | "Blue Bottle Coffee - 123 Main St, Springfield, IL 62701" without its bullet yields nothing |
| LocationCleaner.CleanLocation | app/ui_components.py:25-26 | empty input gives "" |
| LocationCleaner.CleanLocationCharacterized | app/ui_components.py:29-32 | when `s[a..b]` starts with neither whitespace nor a list glyph and does not end in whitespace, and only whitespace and glyphs lie before it and only whitespace after it, the result is exactly `s[a..b]` |
| LocationCleaner.CleanLocationShape | app/ui_components.py:29-32 | the result starts with neither whitespace nor a glyph (the glyphs include '·'), does not end in whitespace, and is a contiguous slice of the input |
| LocationCleaner.CleanLocationFixedPoints | app/ui_components.py:29-32 | a string is left unchanged exactly when it is already clean |
| LocationCleaner.CleanLocationIdempotent | app/ui_components.py:29-32 | cleaning twice is cleaning once |
| LocationCleaner.CleanLocationEmptyIff | app/ui_components.py:29-32 | the result is empty exactly when the input is only whitespace and glyphs |
| LocationCleaner.CleanBulletedLocation | app/ui_components.py:29-32 | any clean location written after indentation and a bullet, with a trailing space, cleans back to itself |
| LocationCleaner.CleanLocationExample | app/ui_components.py:29-32 | "  • Yosemite National Park, CA " cleans to "Yosemite National Park, CA" |
| UrlPattern.MatchRejectsWhitespace | app/validators.py:47-55 | a matching URL holds no whitespace, except possibly one final newline |
| UrlPattern.TrailingNewline | app/validators.py:53 | `$` also matches before a final newline: the URL with one newline appended matches exactly when the URL's body does |
| UrlPattern.NoSecondNewline | app/validators.py:53 | two final newlines never match |
| UrlPattern.MatchRequiresScheme | app/validators.py:48 | a matching URL starts with "http://" or "https://", in any case |
| UrlPattern.ComposeMatches | app/validators.py:47-53 | any scheme, host, port and path put together match |
| UrlPattern.HostUnderLower | app/validators.py:49-51 | the host rule ignores case |
| UrlPattern.UrlBodyUnderLower | app/validators.py:47-53 | the whole expression ignores case |
| UrlPattern.MatchIgnoresCase | app/validators.py:47-55 | matching ignores case |
| Validators.IsAlltrailsUrl | app/validators.py:26-30 | an empty URL is never an AllTrails URL |
| Validators.IsValidUrlFormat | app/validators.py:43-55 | an empty URL never has a valid format |
| Validators.ValidateHikeUrl | app/validators.py:72-81 | the verdict is true exactly when the URL is non-empty, mentions the domain and has a valid format; it is true exactly when the message is empty; the message is one of the three |
| Validators.MessageNamesFirstFailure | app/validators.py:72-79 | each message names the first check that fails: empty, then domain, then format |
| Validators.AlltrailsIgnoresCase | app/validators.py:30 | the domain check ignores case |
| Validators.MentioningDomainSuffices | app/validators.py:30 | any URL with "alltrails.com" in it passes the domain check |
| Validators.ValidationIgnoresCase | app/validators.py:72-81 | the whole validation ignores case |
| Validators.AcceptedUrlShape | app/validators.py:72-81 | an accepted URL has a scheme and no whitespace except possibly one final newline |
| Validators.AcceptsTrailUrl | app/validators.py:72-81 | "https://www.alltrails.com/trail/us/california/example" is accepted |
| Validators.RejectsWithoutDoubleL | app/validators.py:72-76 | a non-empty URL with no "ll" in any case is rejected with the AllTrails message |
| Validators.RejectsOtherSite | app/validators.py:75-76 | "https://www.example.com/trail" is rejected with the AllTrails message |
| FieldExtractor.FirstWhere | app/scraper.py:153-156 | the index found is that of the first accepted element; none is found only when no element is accepted |
| FieldExtractor.FirstMatch | app/scraper.py:153-156 | an element is found exactly when some selector finds one, and it is the first selector's that does |
| FieldExtractor.FirstMatchText | app/scraper.py:143-247 | name, location, rating and description are the text of the first selector's element, even if it is empty, or "" when no selector finds anything |
| FieldExtractor.ExtractName | app/scraper.py:143-158 | the name is the text of the first name selector's element, or "" when no name selector finds one |
| FieldExtractor.ExtractLocation | app/scraper.py:160-174 | the same for the location selectors |
| FieldExtractor.ExtractRating | app/scraper.py:204-218 | the same for the rating selectors |
| FieldExtractor.ExtractDescription | app/scraper.py:233-247 | the same for the description selectors |
| FieldExtractor.Classify | app/scraper.py:194-199 | a stat text is read as the difficulty exactly when its lower-cased form holds "difficulty"; as the length exactly when it holds no "difficulty" but "mi" or "km"; as the elevation gain exactly when it holds none of those but "ft" or "m" |
| FieldExtractor.ClassifiedIff | app/scraper.py:192-199 | a stat text is kept exactly when its lower-cased form holds "difficulty", "km", "ft" or "m" |
| FieldExtractor.ClassifyIgnoresCase | app/scraper.py:194-198 | classification ignores case |
| FieldExtractor.ModerateIsElevation | app/scraper.py:196-199 | "Moderate" lands in the elevation gain |
| FieldExtractor.MinutesAreLength | app/scraper.py:196-197 | "45 min" lands in the length |
| FieldExtractor.KilometresAreLength | app/scraper.py:196-199 | "5.2 km" lands in the length, although it also holds the "m" of the elevation test |
| FieldExtractor.DifficultyWins | app/scraper.py:194-197 | a text that opens with "Difficulty" is the difficulty, whatever follows it |
| FieldExtractor.DifficultyExample | app/scraper.py:194-197 | "Difficulty: Moderate 3 mi" is the difficulty, not the length |
| FieldExtractor.SetField | app/scraper.py:194-199 | a stat sets its own field and leaves the others alone |
| FieldExtractor.FoldStatsKeepsLast | app/scraper.py:192-199 | each field holds the last text classified into it, or its starting value when none is |
| FieldExtractor.ExtractStats | app/scraper.py:176-202 | each stat field is either empty or a text that classifies into that very field |
| FieldExtractor.StatsOfFirstContainer | app/scraper.py:188-202 | only the first container found is read, even when it yields nothing; each field holds its last classified text, or "" |
| FieldExtractor.CollectFeaturesIff | app/scraper.py:263-267 | a text is a feature exactly when it is longer than one character and some direct `span`, `div` or `a` child has it |
| FieldExtractor.FeaturesOfFirstContainer | app/scraper.py:259-268 | the same, for the first container a selector finds |
| FieldExtractor.ExtractFeatures | app/scraper.py:249-270 | the features are what the direct children of the first container a selector finds give, and there are none without a container |
| FieldExtractor.DuplicateFeaturesCollapse | app/scraper.py:251-267 | two children with the same text give one feature |
| FieldExtractor.ReviewsPatternsNested | app/scraper.py:222-227 | whatever `\d+ reviews` finds, `\d+.*review` finds too |
| FieldExtractor.ExtractReviewsCount | app/scraper.py:220-231 | a non-empty reviews count is the stripped text of some span |
| FieldExtractor.ReviewsCountEmptyIff | app/scraper.py:220-231 | the reviews count is empty exactly when no span's only string matches `\d+.*review` |
| FieldExtractor.ExactReviewsPatternFirst | app/scraper.py:222-224 | the first span matching `\d+ reviews` wins over every span that only matches the looser pattern |
| FieldExtractor.LooseReviewsPatternFallback | app/scraper.py:227-229 | only when no span matches `\d+ reviews` does the first span matching `\d+.*review` decide |
| FieldExtractor.ExtractHikeData | app/scraper.py:129-141 | the route type is never filled in |
| FieldExtractor.HikeName | app/scraper.py:133 | the record's name is the text of the first name selector's element, or "" when none finds one |
| FieldExtractor.HikeLocation | app/scraper.py:134 | the record's location is the text of the first location selector's element, or "" |
| FieldExtractor.HikeStatFields | app/scraper.py:135 | each stat field of the record holds the last stat text of the first stats container that classifies into it, or "" |
| FieldExtractor.HikeNoStats | app/scraper.py:135 | without a stats container every stat field of the record is empty |
| FieldExtractor.HikeRating | app/scraper.py:136 | the record's rating is the text of the first rating selector's element, or "" |
| FieldExtractor.HikeReviewsCount | app/scraper.py:137 | the record's reviews count is the stripped text of the first span matching `\d+ reviews` |
| FieldExtractor.HikeReviewsCountEmptyIff | app/scraper.py:137 | the record's reviews count is empty exactly when no span matches `\d+.*review` |
| FieldExtractor.HikeDescription | app/scraper.py:138 | the record's description is the text of the first description selector's element, or "" |
| FieldExtractor.HikeFeatures | app/scraper.py:139 | the record's features are the texts longer than one character of the first features container's `span`, `div` and `a` children |
| FieldExtractor.BlankPageGivesEmptyHike | app/scraper.py:18-34 | a page where nothing is found gives a fresh record: every text empty, no features |
| RetryController.Attempt | app/scraper.py:78-99 | an attempt is retried exactly when it hit a 403 or a non-HTTP failure and is not the last; an HTTP failure that ends the run is never a 403 |
| RetryController.RunFrom | app/scraper.py:76-99 | every run starts with a pause of 3 to 8 seconds and a request; an HTTP failure it ends with is never a 403 |
| RetryController.ScrapeHike | app/scraper.py:66-99 | a raised error always carries a message; a scraped record never has a route type |
| RetryController.ScrapeHikeDecided | app/scraper.py:77-99 | when the decisive attempt fetched a page, `scrape_hike` returns at once the record read from that page; otherwise it raises the message of that attempt's error |
| RetryController.RunFromDecided | app/scraper.py:76-99 | the run's outcome is the verdict of its decisive attempt, the first one not retried. It requests once per attempt up to and including that one, and rotates the user agent once per 403 before it |
| RetryController.DecisiveExists | app/scraper.py:76-99 | every run has a decisive attempt |
| RetryController.DecisiveUnique | app/scraper.py:76-99 | a run has only one decisive attempt |
| RetryController.RequestsBounded | app/scraper.py:76-77 | every run requests the page at least once and at most five times |
| RetryController.FourBlocksThenPage | app/scraper.py:77-89 | four 403s and then a page: the page is read after five requests and four rotations |
| RetryController.FourBlocksThenRecord | app/scraper.py:77-89 | four 403s and then a page: the record read from that page is returned |
| RetryController.AlwaysBlocked | app/scraper.py:82-91 | a 403 on every attempt raises the access-denied message after five requests and four rotations |
| RetryController.OtherStatusIsFatal | app/scraper.py:92-93 | another HTTP status on the first attempt raises "HTTP Error <code>: …" at once, with one request and no rotation |
| RetryController.AlwaysFailing | app/scraper.py:94-99 | a non-HTTP failure on every attempt raises "Failed to scrape hike data: …" with the last failure, after five requests and no rotation |
| RetryController.NatToString | app/scraper.py:93 | the status code is written as decimal digits that spell it, with no leading zero except in "0" |
| RetryController.NotFoundMessage | app/scraper.py:92-93 | a 404 raises "HTTP Error 404: " followed by the HTTP library's error text |
| RetryController.RetryEvents | app/scraper.py:84-97 | a retried attempt makes no request of its own; after a 403 it pauses 5 to 15 seconds and rotates the user agent once, after another failure it pauses 2 to 5 seconds and does not rotate |
| RetryController.Message | app/scraper.py:91-99 | every error message is non-empty |
| RetryController.MessageTellsKind | app/scraper.py:91-99 | the three kinds of failure never share a message |

## Left out

- Network and timing: the HTTP session, its headers, the timeouts and `raise_for_status`. The sleeps are kept only as pause events with their bounds; the random durations are not modelled.
- RetryController.Attempt: which user agent a rotation picks is not modelled. `random.choice` may pick the current one again, so the model claims only that a rotation happens, not that the agent changes.
- RetryController.Attempt: a failure while reading a fetched page is not modelled. Reading is total here, so a fetched page always ends the run.
- The HTML parser and its CSS selector engine. A page is given by what `select_one`, the stat-node search, the direct-children search and the spans' `.string` return for it.
- FieldExtractor.ExtractReviewsCount: the result is the stripped only string of the span. That is what `get_text(strip=True)` returns for a span that has exactly one string.
- Feature order: the features are a set. The source returns `list(set)`, whose order is unspecified.
- Geocoding, map building and marker popups: network calls and floating-point coordinates.
- The Streamlit pages and display components other than `clean_location_string`, `app/main.py`, and the OpenAI itinerary generator. They are UI, session state and a foreign client.
- Lower-casing, `re.IGNORECASE`, `[A-Z]` and `\d` are modelled on ASCII only. Python also folds a few non-ASCII letters, such as the Kelvin sign, onto ASCII letters under `IGNORECASE`, and its `\d` accepts every Unicode decimal digit. Whitespace is exactly the set `str.isspace` accepts.
- Validators.IsAlltrailsUrl: inputs that are not strings (`None`, or another type) are outside the model. The `isinstance` test has no counterpart, since the arguments are strings by type.
