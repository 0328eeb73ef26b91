# Email lead agent: a verified model of its mail-handling core

This project models the core of the email lead agent in Dafny. The agent connects Gmail
accounts, pulls their messages into a database, and classifies messages as business leads,
information requests or other. The modelled parts are listed below.

- **Gmail service** (`GmailService`): deciding whether the stored OAuth token must be
  refreshed, and the account fields that changes. It also models building the search
  query with an `after:` date and decoding each fetched message:
  - the subject and From headers;
  - the sender name and address;
  - the plain and HTML bodies;
  - the attachment flag.
  Finally it models the all-or-nothing fetch, which records `last_sync` only when it
  succeeds.
- **Gmail endpoints** (`GmailEndpoints`): the database as a class that holds account
  objects and email rows. It covers:
  - listing a user's accounts;
  - disconnecting an account, which marks it inactive;
  - the fetch endpoint, which stores each fetched email unless a row with the same Gmail
    id already exists for the account. The check only sees rows stored before the batch.
- **IMAP processing** (`ImapProcessing`): extracting a message's sender, subject and body.
  Attachments are skipped, HTML tags are replaced by spaces, whitespace runs are
  collapsed, and the ends are stripped. It also covers the lower-cased training text and
  selecting the most recent messages, newest first, for classification.
- **Label mapping** (`LabelMapping`): numbering the distinct categories in sorted order,
  the inverse numbering, and the id list.
- **Dashboard statistics** (`DashboardStats`): the per-category counts, their
  percentages, and the number of high-confidence leads.
- **CORS setting** (`CorsConfig`): turning a comma-separated origins string into a list.

Python's string helpers are modelled once, in `Strings`: `split`, `strip`, `lower`,
`join`, and lexicographic string order. `Wrappers` holds `Option` and `Result`.

## Model

| member | source | states |
|---|---|---|
| GmailService.GetGmailService | app/services/gmail.py:90-124 | A token with an expiry in the past is refreshed, and the new token and expiry are written to the account. Otherwise the stored token is used and the account is unchanged. A failed refresh raises, and a failed build gives no service. No other account field changes. |
| GmailService.DigitsRoundTrip | app/services/gmail.py:209 | A zero-padded field of `strftime` reads back as the number it was written from. |
| GmailService.BuildQuerySpec | app/services/gmail.py:208-210 | Without a since-date the query is unchanged. With one, the query is kept as a prefix, followed by ` after:` and a `YYYY/MM/DD` date that parses back to the same calendar date. |
| GmailService.FindHeader | app/services/gmail.py:229-230 | The value of the first header whose lower-cased name matches, or "" when none matches. |
| GmailService.ParseSenderSpec | app/services/gmail.py:233-238 | Without both `<` and `>`, the name is "" and the address is the whole header. Otherwise the name is the stripped text before the first `<`, and the address is the text between the first two `<` with `>` stripped from its ends. The address never contains `<`. |
| GmailService.LastDataAbsent | app/services/gmail.py:245-249 | Without a part of the given MIME type, the body stays "". |
| GmailService.LastDataIsLast | app/services/gmail.py:245-249 | The body taken for a MIME type is the data of the last part of that type. |
| GmailService.ExtractPartBodies | app/services/gmail.py:244-249 | The part loop fails exactly when a text/plain or text/html part has no data. Otherwise the plain and HTML bodies are those of the last part of each type. |
| GmailService.SinglePartBodies | app/services/gmail.py:250-254 | A message without parts sets only the body matching its own MIME type. It fails exactly when a text body has no data. |
| GmailService.ScanForAttachment | app/services/gmail.py:256-262 | The flag is set exactly when some part has a non-empty filename. |
| GmailService.DecodeFacts | app/services/gmail.py:227-275 | Decoding fails exactly when the body lookup fails. A decoded email keeps the message id and thread id. A message without parts has no attachments. |
| GmailService.DecodeMessage | app/services/gmail.py:227-275 | The message decoded by the loop body equals the decoding function. |
| GmailService.DecodeAll | app/services/gmail.py:221-277 | On success there is one email per listed id, in order, each the decoding of its message. On failure some id's fetch or decoding failed. |
| GmailService.DecodeAllFailsFromPrefix | app/services/gmail.py:213-287 | A failure on any prefix of the listed ids makes the whole fetch fail (all or nothing). |
| GmailService.FetchListed | app/services/gmail.py:219-277 | The fetch loop yields exactly the all-or-nothing decoding of the listed ids. |
| GmailService.FetchEmails | app/services/gmail.py:182-287 | The result is [] when there is no service, the list call fails, or any message fails. Otherwise it is the decoded messages. `last_sync` is set to now exactly when the fetch succeeds. The token fields change as in the refresh decision. Nothing else on the account changes. |
| GmailEndpoints.NewRowsSpec | app/api/v1/endpoints/gmail.py:164-185 | Every added row comes from the batch under the account, and none was already stored. Every fetched email was either already stored or is added. |
| GmailEndpoints.StoreTwiceAddsNothing | app/api/v1/endpoints/gmail.py:164-185 | Storing the same batch a second time adds no row. |
| GmailEndpoints.DuplicatesWithinBatchBothAdded | app/api/v1/endpoints/gmail.py:164-185 | Two emails with the same Gmail id in one batch, whose id is not yet stored for the account, are both added, because the check sees only rows stored before the batch. |
| GmailEndpoints.NewRowsKeepUnique | app/api/v1/endpoints/gmail.py:164-185 | A batch with distinct Gmail ids keeps the table free of duplicate (Gmail id, account) pairs. |
| GmailEndpoints.FindOwnedIn | app/api/v1/endpoints/gmail.py:104-107 | A found account has the requested id and the requesting owner. Nothing is found only when no account matches both. |
| GmailEndpoints.OwnedBy | app/api/v1/endpoints/gmail.py:83-92 | Exactly the accounts owned by the user, which `list_gmail_accounts` (Database.ListAccounts) returns. |
| GmailEndpoints.Database.Disconnect | app/api/v1/endpoints/gmail.py:95-119 | An owned account gets status "inactive" and is kept. Otherwise the result is 404 and nothing changes. No other account, row or table changes. |
| GmailEndpoints.Database.StoreNew | app/api/v1/endpoints/gmail.py:164-187 | The table becomes the old rows followed by the batch's new rows. Nothing stored is changed or removed. |
| GmailEndpoints.Database.FetchGmailEmails | app/api/v1/endpoints/gmail.py:122-193 | An account the user does not own gives 404, and nothing changes. Otherwise the fetch runs with query "is:unread" and the request's limit and date, and its new rows are stored under the account. A refresh that raises propagates. The account's last sync becomes now exactly when the fetch succeeds. An expired token with refreshed credentials takes the new token and expiry; otherwise both are kept. Its id, email, refresh token, status and owner are unchanged. No other account changes. |
| ImapProcessing.ExtractSenderSpec | classification_sandbox/02_process_emails.py:72-77 | Without a From header the sender is "". Without `<` it is the header unchanged. Otherwise it is the text after the first `<`, up to the next `<` or `>`. |
| ImapProcessing.StripTags | classification_sandbox/02_process_emails.py:116 | Every character other than a blank comes from the body. A leading character that is not `<` is kept. |
| ImapProcessing.StripTagsLeavesNoTag | classification_sandbox/02_process_emails.py:116 | After tag removal no `<…>` tag remains. |
| ImapProcessing.StripTagsPrefix | classification_sandbox/02_process_emails.py:116 | Text without `<` is kept unchanged in front of whatever follows it. |
| ImapProcessing.StripTagsLeadingTag | classification_sandbox/02_process_emails.py:116 | A leading `<…>` tag becomes one space. |
| ImapProcessing.StripTagsReplacesTag | classification_sandbox/02_process_emails.py:116 | Text without `<`, then a tag, then the rest becomes the text, one space, and the cleaned rest. |
| ImapProcessing.StripTagsNoBracket | classification_sandbox/02_process_emails.py:116 | Text without `<` is left unchanged. |
| ImapProcessing.StripTagsKeepsLoneBracket | classification_sandbox/02_process_emails.py:116 | A `<` that opens no tag is kept as text. This holds when no `>` follows it or when `>` comes right after it. |
| ImapProcessing.CollapseSpaces | classification_sandbox/02_process_emails.py:117 | Every whitespace run becomes one blank. The non-whitespace characters and whether the text starts with whitespace are kept. |
| ImapProcessing.CleanBodySpec | classification_sandbox/02_process_emails.py:115-117 | The cleaned body has no leading or trailing whitespace and only single blanks. Its non-whitespace characters are those of the tag-stripped body. |
| ImapProcessing.CollapseWord | classification_sandbox/02_process_emails.py:117 | A text without whitespace passes through collapsing unchanged, in front of whatever follows it. |
| ImapProcessing.CollapseRun | classification_sandbox/02_process_emails.py:117 | A whole whitespace run at the start becomes exactly one blank, followed by the collapsed rest. With CollapseWord this fixes the result on every string. |
| ImapProcessing.WordsAreWords | classification_sandbox/02_process_emails.py:117 | The words of a text are non-empty and hold no whitespace. |
| ImapProcessing.CollapseStripIsJoinedWords | classification_sandbox/02_process_emails.py:117 | Collapsing whitespace runs and stripping gives the text's words, in order, with one blank between each two. |
| ImapProcessing.CleanBodyIsJoinedWords | classification_sandbox/02_process_emails.py:115-117 | The cleaned body is exactly the words of the tag-stripped body joined by single blanks. |
| ImapProcessing.JoinBodyParts | classification_sandbox/02_process_emails.py:89-103 | The walk over the parts produces exactly the text of the non-attachment, non-empty text/plain parts, in order, each followed by a newline. |
| ImapProcessing.GetEmailContent | classification_sandbox/02_process_emails.py:56-124 | The content is the message's content: the sender from the From header, the subject, and the cleaned joined body parts or cleaned payload. An empty single-part body gives "". |
| ImapProcessing.EmptySinglePartIsDropped | classification_sandbox/02_process_emails.py:108-117 | A concrete single-part message with an empty payload is lost by the code as written. |
| ImapProcessing.PreprocessSpec | classification_sandbox/02_process_emails.py:126-137 | The training text is the subject twice and then the body, joined by blanks and lower-cased. Its length is 2·\|subject\| + \|body\| + 2, and it has no upper-case letter. |
| ImapProcessing.SelectRecentSpec | classification_sandbox/02_process_emails.py:148-159 | With a non-negative limit, the last min(n, limit) ids are taken, newest first. No ids give none. A negative limit slices as Python does. |
| ImapProcessing.ProcessAllLength | classification_sandbox/02_process_emails.py:159-182 | At most one result per selected id. |
| ImapProcessing.ProcessAllComplete | classification_sandbox/02_process_emails.py:159-182 | When every fetch succeeds there is one result per id, in order. Entry k holds message k's content and the classification of its preprocessed text. |
| ImapProcessing.ClassifySelected | classification_sandbox/02_process_emails.py:159-182 | The loop's results are exactly the processing of the given ids in order: one entry per id whose fetch succeeds, and failed fetches are skipped. |
| ImapProcessing.FetchAndClassify | classification_sandbox/02_process_emails.py:139-184 | The results are exactly the processing of the ids SelectRecent chooses, newest first (see SelectRecentSpec). No ids are processed when the count is 0. |
| Strings.LessTotal | classification_sandbox/04_advanced_transformer_model.py:93 | Python's string order is total: of two different strings, exactly one is smaller. |
| Strings.LessTransitive | classification_sandbox/04_advanced_transformer_model.py:93 | Python's string order is transitive. |
| LabelMapping.SortedUnique | classification_sandbox/04_advanced_transformer_model.py:93 | The categories without repeats, strictly sorted, with exactly the input's members. |
| LabelMapping.SortedUniqueness | classification_sandbox/04_advanced_transformer_model.py:93 | Two strictly sorted sequences with the same members are equal. |
| LabelMapping.LabelMapKeys | classification_sandbox/04_advanced_transformer_model.py:93-94 | The label map's keys are exactly the categories that occur, one per distinct category. |
| LabelMapping.LabelMapIds | classification_sandbox/04_advanced_transformer_model.py:93-94 | The ids are exactly 0..k-1, none repeated. A name that sorts first has the smaller id, and the converse holds too. |
| LabelMapping.MapsAreInverse | classification_sandbox/04_advanced_transformer_model.py:95 | The id-to-label map and the label map undo each other. |
| LabelMapping.IdsSpec | classification_sandbox/04_advanced_transformer_model.py:97 | The id list has the input's length, and position i holds the number of category i. |
| LabelMapping.MapsDependOnlyOnTheSet | classification_sandbox/04_advanced_transformer_model.py:93 | Inputs with the same set of categories give the same two maps. |
| DashboardStats.CountCategory | classification_sandbox/03_classification_dashboard.py:226-228 | The count is at most the number of emails. It is zero exactly when no email has the category, and full exactly when all have it. |
| DashboardStats.CountHighConfidence | classification_sandbox/03_classification_dashboard.py:236-237 | Business leads with confidence above 0.8. Never more than the business leads, and zero exactly when there is none. |
| DashboardStats.Percent | classification_sandbox/03_classification_dashboard.py:231-233 | The percentage times the total is the count times 100. It lies in [0, 100] when the count does not exceed the total. |
| DashboardStats.GenerateStatistics | classification_sandbox/03_classification_dashboard.py:210-248 | All zero for no emails. The total is the number of emails, and the three counts never exceed it. High-confidence leads never exceed business leads. Every percentage lies in [0, 100]. |
| DashboardStats.StatisticsPercentages | classification_sandbox/03_classification_dashboard.py:231-233 | Each percentage is its count's share of the total, times 100. |
| DashboardStats.ThreeCounts | classification_sandbox/03_classification_dashboard.py:226-228 | The three counts add up to at most the total. They reach it exactly when every category is one of the three. |
| DashboardStats.CountIsMultiplicity | classification_sandbox/03_classification_dashboard.py:226-228 | A category's count is how often that exact string occurs among the categories. |
| DashboardStats.StatisticsCounts | classification_sandbox/03_classification_dashboard.py:226-228 | The statistics' three counts are the multiplicities of the three category names. |
| DashboardStats.StatisticsPartition | classification_sandbox/03_classification_dashboard.py:226-228 | The counts add up to the total exactly when every email has a known category. |
| CorsConfig.AssembleCorsOrigins | app/core/config.py:47-52 | Another type raises ValueError. A list, or a string starting with `[`, is returned unchanged. Any other string gives one item per comma plus one, each stripped and without a comma. |
| CorsConfig.ItemsAreStrippedCommaPieces | app/core/config.py:49 | The items are the string cut at its commas, each stripped: some comma-free pieces join with `,` to the string, and item i is piece i stripped. |
| CorsConfig.EmptyStringIsOneEmptyItem | app/core/config.py:49 | The empty string gives the one-item list `[""]`. |
| CorsConfig.JoinItemsRoundTrip | app/core/config.py:49 | For a string without whitespace, joining the items with `,` gives the string back. |

## Left out

- OAuth and the Gmail API are network calls. The refreshed credentials, the service
  build, the message list and each message fetch are parameters: `refreshed`, `buildOk`,
  and the `Mailbox` functions. `connect_gmail_account` and the authorisation-URL and
  code-exchange helpers (app/services/gmail.py:16-79, 127-179) are not part of this model.
- `datetime.utcnow()` is the parameter `now`. The model uses one `now` for both the
  expiry check and `last_sync`, although the code reads the clock twice.
- `received_at` keeps the raw `internalDate`. The conversion `fromtimestamp(internalDate /
  1000)` is a clock-zone computation and is not modelled.
- GmailService.FetchEmails: a message missing its `payload`/`headers` keys (a KeyError)
  is not modelled. Only a missing `data` in a text body is a failure, and like every
  other error in the loop it empties the whole result.
- GmailService.BuildQuerySpec: dates are limited to years 1-9999, which `datetime` also
  enforces. The `strftime` padding of years below 1000 is taken to be four digits.
- The IMAP connection, `decode_header`, MIME walking, `get_payload(decode=True)` and the
  `strptime` date parsing are not modelled. A message is given as its header values, its
  parts in `walk()` order (the message itself, then its nested parts, depth first) as one
  flat sequence, and its payload, already decoded. The `date` field is not modelled.
- ImapProcessing.GetEmailContent: a text/plain part whose payload decodes to nothing adds
  nothing, which the model captures as an empty payload. Errors while decoding one part
  are not modelled.
- ImapProcessing.FetchAndClassify: the classifier and vectoriser are a function
  parameter. Exceptions raised by them, which the code also skips, are not modelled.
  The loop uses the corrected content (see Findings). As written, a single-part message
  with an empty payload raises a TypeError and its id is skipped; the model keeps it.
  In the model, only a failed fetch skips an id.
- ImapProcessing.ClassifySelected: the same holds for the loop on its own. It uses the
  corrected content and keeps a single-part message with an empty payload.
- ImapProcessing.ProcessAllComplete: the entries hold the corrected content. As written,
  a single-part message with an empty payload gives no entry, so the promise of one
  entry per id holds there only for messages that are multipart or have a payload.
- Character classes are ASCII. `\s`, `strip()` and `lower()` cover the ASCII whitespace
  and letters, not the rest of Unicode.
- Floating point: percentages are exact reals, and the rounding to one decimal is not
  modelled. Confidence scores are reals.
- The fetch endpoint's task id, the completion-time stamp and the response body are not
  modelled. Only the outcome (started, 404) and the stored rows are.
- The training, evaluation and prediction code of the classifiers, the dashboard's HTML,
  plots and JSON loading, and the SQLAlchemy models, sessions and auth endpoints are not
  part of this model.

## Findings

| source | as written | input that shows it | evidently intended | confidence | as-written member | corrected member |
|---|---|---|---|---|---|---|
| classification_sandbox/02_process_emails.py:108-117 | For a single-part message, `body` is replaced by `get_payload(decode=True)`. An empty payload leaves it as `b""`, which is falsy, so it is never decoded. The following `re.sub` on bytes with a str pattern raises `TypeError`, and the whole message is skipped. | a single-part message with subject "Hello" and an empty payload | the message is kept with body "" | not executed | ImapProcessing.EmptySinglePartIsDropped | ImapProcessing.GetEmailContent |
