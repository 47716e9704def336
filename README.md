# ImmoKraini core in Dafny

ImmoKraini is a SvelteKit real-estate site. Visitors browse, search and save property
listings and send messages through a contact form. Administrators behind an HTTP Basic
gate add, delete and feature properties and manage the agents (staff) the properties
are assigned to. This project models the deterministic core of those server actions and
loaders, and the two pieces of browser logic:

- the Record Store: the Property and Agent tables, with unique slugs, unique agent
  e-mails and agent references that always point at an existing agent
  (`Records.Store`, a class with two maps);
- the admin workflows that write to it:
  - add a property: coercion, validation, main image and gallery upload, the features
    list;
  - delete a property, and toggle its featured flag;
  - add an agent;
  - delete an agent in one transaction that unassigns their properties;
- the validators and coercions: the slug and e-mail patterns, each written as a
  recogniser and proved equal to a structural description, `parseInt`, `trim`, and the
  `|| null` coercions;
- the read side:
  - the search filter, proved to select exactly the properties that satisfy the query;
  - the newest-first order;
  - the home page's four most recent featured properties;
  - the admin and staff lists;
- the contact form: validation, subject, HTML body and the send outcome;
- the `/admin` access gate;
- the saved-properties store (`Favorites.FavoritesStore`, a class over a list of ids);
- the `translate` function with locale and key fallback and `{name}` substitution;
- the database connection-string rule.

The system's external services become parameters of the operations that use them:

| external service | modelled as |
|---|---|
| the image service | `Media.Uploader`, from bytes and a folder to an optional URL |
| `parseFloat` | `AddProperty.FloatParser` |
| base64 decoding | `AccessGate.Base64Decoder` |
| `JSON.parse` | `Favorites.JsonParser` |
| the e-mail service | `Contact.Mailer` |
| a failing database statement | `reachable: bool` |
| a failing query | `rows: Option<...>` |
| ids and timestamps the database assigns | parameters |

Every database statement, or transaction, is one atomic method of `Records.Store`.

The price check follows the code: a price is "missing" only when it parses to zero or to
`NaN`, so a negative price is accepted (`AddProperty.NegativePriceAccepted`), although
the price is described elsewhere as a positive integer. The search loader has no
bedroom or bathroom parameters, so none are modelled.

## Model

| member | source | states |
|---|---|---|
| Records.Unassigned | immokraini-app/src/routes/admin/staff/+page.server.ts:34-37 | afterwards the property does not refer to the agent; a property of another agent is unchanged; only `agentId` can differ |
| Records.Store.InsertProperty | immokraini-app/src/routes/admin/add-property/+page.server.ts:121 | the row is added exactly when id, slug and agent reference are acceptable; otherwise nothing changes; agents never change; the constraints are kept |
| Records.Store.DeleteProperty | immokraini-app/src/routes/admin/properties/+page.server.ts:39 | removes exactly the row with the id and returns it, or returns `None` and changes nothing; agents unchanged; constraints kept |
| Records.Store.SetFeatured | immokraini-app/src/routes/admin/properties/+page.server.ts:63-67 | only the target row's `isFeatured` changes, and the updated row is returned; `None` and no change for a missing id |
| Records.Store.InsertAgent | immokraini-app/src/routes/admin/staff/add/+page.server.ts:59-61 | the agent is added exactly when id and e-mail are unused; otherwise nothing changes; properties never change |
| Records.Store.DeleteAgentUnassigning | immokraini-app/src/routes/admin/staff/+page.server.ts:32-43 | for an existing agent: the agent is removed and every property is unassigned from it; for a missing agent the whole transaction rolls back |
| Text.TrimStart | immokraini-app/src/routes/properties/search/+page.server.ts:24 | the result is a suffix of the input and does not start with white space |
| Text.TrimStartRemoves | immokraini-app/src/routes/properties/search/+page.server.ts:24 | everything removed from the front is white space |
| Text.TrimEnd | immokraini-app/src/routes/properties/search/+page.server.ts:24 | the result is a prefix of the input and does not end with white space |
| Text.TrimEndRemoves | immokraini-app/src/routes/properties/search/+page.server.ts:24 | everything removed from the back is white space |
| Text.Trim | immokraini-app/src/routes/properties/search/+page.server.ts:24 | the result neither starts nor ends with white space |
| Text.TrimRemovesOnlyWhitespace | immokraini-app/src/routes/admin/add-property/+page.server.ts:87 | the trimmed text occurs in the input with only white space before and after it |
| Text.TrimIdempotent | immokraini-app/src/routes/admin/add-property/+page.server.ts:87 | trimming twice is trimming once |
| Text.TrimTrimmed | immokraini-app/src/routes/admin/add-property/+page.server.ts:87 | an already trimmed text is unchanged |
| Text.TrimAllWhitespace | immokraini-app/src/routes/properties/search/+page.server.ts:24 | a text of only white space trims to the empty text |
| Text.ContainsAt | immokraini-app/src/routes/properties/search/+page.server.ts:42-43 | `contains` holds exactly when the pattern occurs at some index |
| Text.ContainsSuffix | immokraini-app/src/lib/server/prisma.ts:13 | a pattern found in the tail is found in the whole |
| Text.NotContainsFirst | immokraini-app/src/routes/properties/search/+page.server.ts:42-43 | a pattern whose first character does not occur is not contained |
| Text.Split | immokraini-app/src/hooks.server.ts:27 | `split` yields at least one piece and no piece holds the separator |
| Text.SplitConcat | immokraini-app/src/hooks.server.ts:33 | splitting `a`, separator, `b` gives the pieces of `a` followed by those of `b` |
| Text.SplitJoin | immokraini-app/src/routes/admin/add-property/+page.server.ts:86 | splitting the join of separator-free pieces gives the pieces back |
| Text.JoinSplit | immokraini-app/src/routes/admin/add-property/+page.server.ts:86 | joining the pieces of a split gives the text back |
| Text.ReplaceAbsent | immokraini-app/src/lib/i18n/i18n.js:44-45 | replacing a pattern that does not occur changes nothing |
| Text.ReplaceCharIsSplitJoin | immokraini-app/src/routes/contact/+page.server.ts:54 | replacing every occurrence of one character is splitting at it and joining with the replacement |
| Text.ReplaceCharRemoves | immokraini-app/src/routes/contact/+page.server.ts:54 | after the replacement the character no longer occurs |
| Text.DigitPrefix | immokraini-app/src/routes/admin/add-property/+page.server.ts:23 | the longest run of digits at the start of the text |
| Text.ParseUnsigned | immokraini-app/src/routes/admin/add-property/+page.server.ts:23 | `NaN` exactly when the text does not start with a digit; otherwise a non-negative value |
| Text.ParseDigits | immokraini-app/src/routes/admin/add-property/+page.server.ts:23 | a digit run followed by a non-digit parses to the run's decimal value |
| Text.ParseZero | immokraini-app/src/routes/admin/add-property/+page.server.ts:23 | `parseInt("0")` is zero |
| Text.ParseNegative | immokraini-app/src/routes/properties/search/+page.server.ts:26-27 | a leading minus negates the value |
| Text.ParseNoDigits | immokraini-app/src/routes/admin/add-property/+page.server.ts:24-27 | a text with no digit parses to `NaN` |
| Validation.SlugRunShape | immokraini-app/src/routes/admin/add-property/+page.server.ts:42 | from either state, the recogniser accepts exactly the texts over `a-z0-9-` with no `--` and no trailing hyphen, where an empty text or a leading hyphen is allowed only inside a word |
| Validation.SlugCharacterisation | immokraini-app/src/routes/admin/add-property/+page.server.ts:42-44 | the slug pattern accepts a text if and only if it is non-empty, uses only `a-z0-9-`, and has no hyphen at either end and no `--` |
| Validation.SlugRunWords | immokraini-app/src/routes/admin/add-property/+page.server.ts:42 | the recogniser accepts exactly when the hyphen-separated segments are non-empty `[a-z0-9]` words |
| Validation.SlugWords | immokraini-app/src/routes/admin/add-property/+page.server.ts:42 | a slug is exactly a text whose hyphen-separated pieces are all non-empty `[a-z0-9]` words |
| Validation.JoinedWordsAreSlug | immokraini-app/src/routes/admin/add-property/+page.server.ts:42 | joining such words with hyphens always gives a slug |
| Validation.DomainCharacterisation | immokraini-app/src/routes/admin/staff/add/+page.server.ts:22 | the domain recogniser accepts exactly the texts without white space or `@` that have a dot that is neither first nor last |
| Validation.LocalRunShape | immokraini-app/src/routes/admin/staff/add/+page.server.ts:22 | the recogniser accepts exactly the texts that split at an `@` into a valid local part and domain |
| Validation.EmailCharacterisation | immokraini-app/src/routes/contact/+page.server.ts:31 | the e-mail pattern accepts a text if and only if it splits at an `@` (not the first character) into a local part and a domain without white space or another `@`, and the domain has an inner dot |
| Validation.EmailConsequences | immokraini-app/src/routes/admin/staff/add/+page.server.ts:22-24 | an accepted address has no white space and exactly one `@` with a dotted domain after it |
| Validation.NonEmpty | immokraini-app/src/routes/admin/add-property/+page.server.ts:88 | `filter(Boolean)` keeps exactly the non-empty pieces |
| Validation.ParseFeatures | immokraini-app/src/routes/admin/add-property/+page.server.ts:83-88 | every feature is non-empty, trimmed and free of commas |
| Validation.ParseFeaturesEmpty | immokraini-app/src/routes/admin/add-property/+page.server.ts:83-88 | an empty or absent field gives no features |
| Validation.ParseFeaturesSingle | immokraini-app/src/routes/admin/add-property/+page.server.ts:86-88 | a piece without commas gives its trimmed text, or nothing when that is blank |
| Validation.ParseFeaturesConcat | immokraini-app/src/routes/admin/add-property/+page.server.ts:86-88 | the features of `a,b` are those of `a` followed by those of `b`, so order is kept |
| Validation.ParseFeaturesJoin | immokraini-app/src/routes/admin/add-property/+page.server.ts:83-88 | joining non-empty, trimmed, comma-free features with commas and parsing them gives them back |
| Validation.OptionalText | immokraini-app/src/routes/admin/add-property/+page.server.ts:28-30 | an absent or empty field becomes null; otherwise the text itself |
| Validation.OptionalInt | immokraini-app/src/routes/admin/add-property/+page.server.ts:24-27 | null exactly when the field parses to `NaN` or to zero; otherwise the parsed value |
| Validation.EmptyIntOrZero | immokraini-app/src/routes/admin/add-property/+page.server.ts:23 | an absent or empty price reads as zero |
| Validation.OptionalCoordinate | immokraini-app/src/routes/admin/add-property/+page.server.ts:31-32 | null exactly when the float parse gives `NaN` or zero; otherwise the parsed value |
| AddProperty.Check | immokraini-app/src/routes/admin/add-property/+page.server.ts:39-48 | the submission passes if and only if the required fields are present, the slug has slug shape and is unused; otherwise the first failing check's message |
| AddProperty.MissingPriceRejected | immokraini-app/src/routes/admin/add-property/+page.server.ts:23-41 | an absent or empty price fails with "Missing required fields." |
| AddProperty.NegativePriceAccepted | immokraini-app/src/routes/admin/add-property/+page.server.ts:39 | a negative price passes the required-field check |
| AddProperty.ContentFiles | immokraini-app/src/routes/admin/add-property/+page.server.ts:68-69 | only files with content are handed to the uploader, and at most as many as were sent |
| AddProperty.ContentFilesComplete | immokraini-app/src/routes/admin/add-property/+page.server.ts:68-69 | every gallery file with content is handed to the uploader |
| AddProperty.GalleryUrls | immokraini-app/src/routes/admin/add-property/+page.server.ts:68-74 | no more URLs than files with content |
| AddProperty.GalleryUrlsSound | immokraini-app/src/routes/admin/add-property/+page.server.ts:71-72 | every gallery URL is the non-empty URL returned for one of the files with content |
| AddProperty.GalleryUrlsComplete | immokraini-app/src/routes/admin/add-property/+page.server.ts:68-74 | the gallery has one URL per file with content if and only if every upload succeeded: failed uploads are silently dropped |
| AddProperty.GalleryUrlsAppend | immokraini-app/src/routes/admin/add-property/+page.server.ts:68-74 | the URLs of two batches are those of each batch, in submission order |
| AddProperty.UploadGallery | immokraini-app/src/routes/admin/add-property/+page.server.ts:57-74 | the loop collects exactly the gallery URLs and uploads exactly the files with content, in order |
| AddProperty.NewProperty | immokraini-app/src/routes/admin/add-property/+page.server.ts:93-115 | the created row carries every coerced form field (title, slug, address, price, beds, baths, area, year built, type, description, video URL, coordinates), the upload URLs and the features, the agent iff one was given, and is not featured |
| AddProperty.Submit | immokraini-app/src/routes/admin/add-property/+page.server.ts:10-128 | 400 with the first validation message and no upload; 500 "File upload failed." when the main upload fails; otherwise exactly the new row is added, or 500 and nothing changes when the database refuses it; agents never change |
| AddProperty.AddedSlugFresh | immokraini-app/src/routes/admin/add-property/+page.server.ts:39-48 | a property that gets through has a well-formed slug that no other property had, and a non-zero price |
| Listing.ToCard | immokraini-app/src/routes/properties/search/+page.server.ts:67-94 | the card copies the selected columns unchanged: the `?? null` step alters no value |
| Listing.Cards | immokraini-app/src/routes/properties/search/+page.server.ts:87-94 | one card per row, in order |
| Listing.Filter | immokraini-app/src/routes/properties/search/+page.server.ts:65-66 | keeps each selected row exactly as often as it occurs and drops the others |
| Listing.InsertNewest | immokraini-app/src/routes/properties/search/+page.server.ts:79 | inserting into a newest-first list keeps it newest first and adds exactly the row |
| Listing.NewestFirst | immokraini-app/src/routes/properties/search/+page.server.ts:79 | the result is a newest-first permutation of the rows |
| Listing.Take | immokraini-app/src/routes/+page.server.ts:26 | the first `n` rows, or all when fewer |
| Search.Term | immokraini-app/src/routes/properties/search/+page.server.ts:24-25 | a text parameter is read trimmed |
| Search.Bound | immokraini-app/src/routes/properties/search/+page.server.ts:26-52 | a price bound exists exactly when the parameter parses to a positive value, and is that value |
| Search.BuildWhere | immokraini-app/src/routes/properties/search/+page.server.ts:34-55 | the filter selects exactly the properties satisfying the query; location, type and price conditions are present exactly when their parameters are non-blank or positive |
| Search.Load | immokraini-app/src/routes/properties/search/+page.server.ts:62-123 | the cards of exactly the satisfying rows, newest first, with the raw parameters echoed; on failure no cards, an error, and the same echo |
| Search.EmptyQueryMatchesAll | immokraini-app/src/routes/properties/search/+page.server.ts:24-55 | without parameters every property is found |
| Search.BlankLocationIgnored | immokraini-app/src/routes/properties/search/+page.server.ts:24-38 | a blank location is the same as none |
| Search.CrossedBoundsMatchNothing | immokraini-app/src/routes/properties/search/+page.server.ts:51-55 | a minimum above the maximum finds nothing |
| Search.NegativeBoundIgnored | immokraini-app/src/routes/properties/search/+page.server.ts:26-52 | a negative price parameter imposes no bound |
| Home.PrefixFacts | immokraini-app/src/routes/+page.server.ts:23-26 | a prefix of a newest-first list is newest first and no row after it is more recent |
| Home.FeaturedSubset | immokraini-app/src/routes/+page.server.ts:9 | the featured filter keeps exactly the featured rows |
| Home.TopFeatured | immokraini-app/src/routes/+page.server.ts:7-27 | up to four rows, all featured, newest first, and no featured row left out is more recent than one shown |
| Home.Load | immokraini-app/src/routes/+page.server.ts:5-45 | the cards of `TopFeatured` (at most four, all featured, newest first) and no error; on failure no cards and the error message |
| Home.ShowsFour | immokraini-app/src/routes/+page.server.ts:26 | with at least four featured properties exactly four are shown |
| Home.UnfeaturedHidden | immokraini-app/src/routes/+page.server.ts:9 | a property that is not featured is never shown |
| AdminProperties.ToRow | immokraini-app/src/routes/admin/properties/+page.server.ts:10-23 | the list row copies the selected columns; the flag is already a boolean |
| AdminProperties.Rows | immokraini-app/src/routes/admin/properties/+page.server.ts:23 | one list row per property, in order |
| AdminProperties.Load | immokraini-app/src/routes/admin/properties/+page.server.ts:7-29 | all properties, newest first; on failure an empty list and the error |
| AdminProperties.Delete | immokraini-app/src/routes/admin/properties/+page.server.ts:34-46 | 400 for a missing id, 500 on a database failure, 404 for an unknown id, all without change; otherwise exactly that property is removed and its title returned |
| AdminProperties.ToggledRow | immokraini-app/src/routes/admin/properties/+page.server.ts:53-59 | only the flag can change, and it flips exactly when the form reported the stored state |
| AdminProperties.ToggleTwiceRestores | immokraini-app/src/routes/admin/properties/+page.server.ts:53-74 | toggling from an accurate form, then again with the state the response reports, restores the row |
| AdminProperties.ToggleFeatured | immokraini-app/src/routes/admin/properties/+page.server.ts:49-84 | 400, 500 and 404 without change; otherwise only the target's flag is set to the negation of the submitted state, and the title and new flag are returned |
| StaffAdd.Check | immokraini-app/src/routes/admin/staff/add/+page.server.ts:19-29 | passes if and only if name and e-mail are present, the e-mail has the checked shape and is unused; otherwise the first failing check's message |
| StaffAdd.NewAgent | immokraini-app/src/routes/admin/staff/add/+page.server.ts:15-55 | the row carries name, e-mail, the phone with empty as null, and the portrait URL or null |
| StaffAdd.Submit | immokraini-app/src/routes/admin/staff/add/+page.server.ts:10-72 | 400 with the echo and no upload; 500 on a failed portrait upload; otherwise exactly the new agent is added, or 500 and nothing changes (the uploaded portrait stays uploaded); properties never change |
| StaffAdd.AddedEmailFresh | immokraini-app/src/routes/admin/staff/add/+page.server.ts:22-29 | an added agent's address has the checked shape and was not in use |
| Staff.LexLeTotal | immokraini-app/src/routes/admin/staff/+page.server.ts:9 | any two names are comparable |
| Staff.LexLeTransitive | immokraini-app/src/routes/admin/staff/+page.server.ts:9 | the name order is transitive |
| Staff.LexLeAntisymmetric | immokraini-app/src/routes/admin/staff/+page.server.ts:9 | names that sort before each other are equal |
| Staff.InsertByName | immokraini-app/src/routes/admin/staff/+page.server.ts:9 | inserting keeps the list ordered by name and adds exactly the agent |
| Staff.ByName | immokraini-app/src/routes/admin/staff/+page.server.ts:9 | the agents, each as often as given, in ascending name order |
| Staff.Load | immokraini-app/src/routes/admin/staff/+page.server.ts:6-16 | all agents ordered by name; on failure an empty list and the error |
| Staff.ByNameUnique | immokraini-app/src/routes/admin/staff/+page.server.ts:9 | with distinct names there is only one ascending order, so the list is fully determined |
| Staff.Delete | immokraini-app/src/routes/admin/staff/+page.server.ts:20-56 | 400, 500 and 404 without any change; otherwise the agent is removed, their properties unassigned, all else unchanged, and the name returned |
| Staff.UnassignEffect | immokraini-app/src/routes/admin/staff/+page.server.ts:34-37 | after the transaction no property refers to the agent, the ids are the same, and every other property is unchanged |
| Contact.EmailSubject | immokraini-app/src/routes/contact/+page.server.ts:40 | "Contact Form: " and the subject when there is one, else the default subject |
| Contact.TemplateLines | immokraini-app/src/routes/contact/+page.server.ts:46-55 | the body template has ten lines |
| Contact.Compose | immokraini-app/src/routes/contact/+page.server.ts:42-57 | fixed sender and recipient, reply-to is the submitted address, and the subject and body built from the form |
| Contact.TemplateLinesUnbroken | immokraini-app/src/routes/contact/+page.server.ts:49-54 | no template line holds a line break when the name, address and subject hold none |
| Contact.MessageOnOneLine | immokraini-app/src/routes/contact/+page.server.ts:46-55 | the body is exactly the ten template lines, and the message fills one line with its own line breaks turned into `<br>` |
| Contact.Submit | immokraini-app/src/routes/contact/+page.server.ts:15-72 | without a key 500 and nothing sent; 400 for missing fields or a malformed address, nothing sent; an e-mail is sent exactly for a valid form, and the outcome follows the service's answer |
| AccessGate.Handle | immokraini-app/src/hooks.server.ts:9-46 | non-admin paths pass and only admin paths are refused; an admin path without a header is challenged, and only that case brings the challenge; a header without a second word is "Invalid auth header"; otherwise the request is admitted if and only if the decoded credentials match, and is refused with "Invalid credentials" when they do not |
| AccessGate.PrefixNotSegment | immokraini-app/src/hooks.server.ts:13 | `/administrator` is gated too |
| AccessGate.SchemeIgnored | immokraini-app/src/hooks.server.ts:27 | the first word of the header is never looked at |
| AccessGate.CorrectCredentialsAdmitted | immokraini-app/src/hooks.server.ts:32-37 | the configured name and password, when neither has a colon, are admitted |
| AccessGate.CredentialsShape | immokraini-app/src/hooks.server.ts:33-35 | for a name and password without colons, the credentials match if and only if the decoded text is the name, a colon and the password, possibly followed by a further colon and anything: text after that colon is ignored |
| AccessGate.AdmittedCredentialsShape | immokraini-app/src/hooks.server.ts:33-35 | matching credentials are exactly the name, a colon and the password, or that followed by a further colon |
| AccessGate.AdmissionSound | immokraini-app/src/hooks.server.ts:13-41 | an admitted admin request had a header whose second word decodes to exactly the name, a colon and the password, or that followed by a further colon |
| AccessGate.ColonPasswordUnmatchable | immokraini-app/src/hooks.server.ts:33-35 | a configured password with a colon can never match |
| Favorites.InitialFavorites | immokraini-app/src/lib/stores/favoritesStore.ts:8-25 | the saved array when in the browser and it parses to an array of strings; otherwise empty |
| Favorites.Without | immokraini-app/src/lib/stores/favoritesStore.ts:48 | the id no longer occurs and every other id occurs as often as before |
| Favorites.WithoutAppend | immokraini-app/src/lib/stores/favoritesStore.ts:48 | removal works piecewise on a concatenation |
| Favorites.WithoutAbsent | immokraini-app/src/lib/stores/favoritesStore.ts:48 | removing an absent id changes nothing |
| Favorites.WithoutKeepsOrder | immokraini-app/src/lib/stores/favoritesStore.ts:48 | the remaining ids keep their order |
| Favorites.ToggleFlips | immokraini-app/src/lib/stores/favoritesStore.ts:44-55 | the toggled id's membership flips and every other id occurs as often as before |
| Favorites.ToggleKeepsNoDuplicates | immokraini-app/src/lib/stores/favoritesStore.ts:44-55 | a list without duplicates stays without duplicates |
| Favorites.ToggleTwiceAbsent | immokraini-app/src/lib/stores/favoritesStore.ts:49-52 | toggling an unsaved id twice restores the list |
| Favorites.ToggleTwicePresent | immokraini-app/src/lib/stores/favoritesStore.ts:46-52 | toggling a saved id twice keeps it saved but moves it to the end |
| Favorites.FavoritesStore.constructor | immokraini-app/src/lib/stores/favoritesStore.ts:28-35 | the store starts with the initial list, already persisted in the browser |
| Favorites.FavoritesStore.IsFavorite | immokraini-app/src/lib/stores/favoritesStore.ts:38-41 | true exactly when the id is in the current list |
| Favorites.FavoritesStore.Toggle | immokraini-app/src/lib/stores/favoritesStore.ts:44-55 | the list becomes the toggled list and, in the browser, is persisted |
| I18n.Translation | immokraini-app/src/lib/i18n/i18n.js:20-49 | an error for an empty key or locale; a "TypeError" exactly when there is no English table and either the locale is unknown or it lacks the key; otherwise the chosen text with variables substituted, or the key itself when no text is found |
| I18n.SubstituteAll | immokraini-app/src/lib/i18n/i18n.js:42-46 | the loop substitutes each variable in turn |
| I18n.Translate | immokraini-app/src/lib/i18n/i18n.js:20-49 | the step-by-step procedure computes `Translation` |
| I18n.UnknownLocaleIsEnglish | immokraini-app/src/lib/i18n/i18n.js:24-26 | a locale not in the table translates as English does |
| I18n.EnglishFallback | immokraini-app/src/lib/i18n/i18n.js:32-34 | a key missing in the locale is taken from English |
| I18n.MissingKeyEchoed | immokraini-app/src/lib/i18n/i18n.js:37-39 | with an English table, a key found nowhere translates to itself, whatever the variables |
| I18n.NoPlaceholdersVerbatim | immokraini-app/src/lib/i18n/i18n.js:42-48 | a text without the variables' placeholders, and any text when there are no variables, is returned verbatim |
| I18n.SingleVariable | immokraini-app/src/lib/i18n/i18n.js:44-45 | one variable replaces every occurrence of its placeholder |
| Connection.Pooled | immokraini-app/src/lib/server/prisma.ts:13-15 | the URL always asks for pooling; it is unchanged when it already did, and otherwise the pooling parameters are appended |
| Connection.ConnectionString | immokraini-app/src/lib/server/prisma.ts:5-15 | an absent or empty URL is an error; otherwise the pooled URL |
| Connection.PooledIdempotent | immokraini-app/src/lib/server/prisma.ts:13-15 | applying the rule twice is applying it once |

## Left out

- Floating point: latitude and longitude come from a `parseFloat` parameter and are kept as opaque values.
- Text.ParseInt: the digit run's value is unbounded, so JavaScript's loss of precision above 2^53 and `Infinity` are not modelled.
- Text.IsWhitespace: the JavaScript white-space set (white space and line terminators) is listed by code point; surrogate pairs and characters outside the Basic Multilingual Plane are not distinguished.
- I18n.Substitute: a variable name is matched literally, so regular-expression metacharacters in a name and `$` patterns in a value are not interpreted; a value is taken to be text.
- I18n.Translation: reading a missing English table throws in the source; the model returns the error "TypeError", not the JavaScript exception object.
- I18n.Lookup: JavaScript property lookup also finds members inherited from `Object.prototype`; a key or locale that names one (such as `constructor` or `toString`) finds that member in the source, while the model's maps do not, so for such keys and locales the model answers as for a missing entry.
- Staff.ByName: the database's collation is not modelled; names are ordered by code point.
- Staff.Load: agents with equal names come out in some order, which the model does not fix.
- Listing.NewestFirst: rows with equal timestamps come out in some order, which the model does not fix. The loaders promise only "a newest-first permutation".
- The database schema's column types, lengths and defaults are not modelled; `isFeatured` of a new property is false.
- The toggle action negates the state the form reports, not the stored one. Two concurrent or stale forms can therefore write the stored state again; only the single-request effect is modelled.
- An image uploaded before the database refuses the row stays uploaded; the model reports the uploaded files (`sent`) and does not clean up.
- Reading a file's bytes (`arrayBuffer`) and the `Buffer` conversion are assumed not to throw.
- Console logging, the image service's internals, e-mail delivery and the database client's construction are left out as I/O.
- Local-storage reads and writes, and JSON serialisation, are left out; the store records the persisted list as a field.
- The derived `t` store and the `locale` store are Svelte reactivity plumbing and are not modelled; only the initial locale "en" is recorded as a constant.
- A failing `findUnique` during validation (slug or e-mail lookup) is not modelled: the lookup is the store's set of slugs or e-mails.
- The saved-properties page and the edit pages are not part of this model.
