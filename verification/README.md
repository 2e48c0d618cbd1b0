# Verified core of the CRM backend

A Dafny model of the parts of the backend where correctness is hardest to see by reading, with
proofs of what those parts are for. `dafny verify dfyconfig.toml` checks all of it.

| file | models | main results |
|---|---|---|
| `regex.dfy`, `tag_pattern.dfy` | the regular expressions that the mail tag engine builds | for every pattern and text the built expression parses and finds exactly the whole-word occurrences |
| `tag_engine.dfy` | the two `INSERT … SELECT` statements under SQL's three-valued logic, and histories of them | what each statement selects, exactly when it departs from the documentation, exactly when a history converges |
| `base64.dfy`, `cursor.dfy` | cursors of the mail, sent-mail, SMS and document feeds | round trip, injectivity, exactly what is accepted, for integer and UUID ids |
| `sent_feed.dfy` | the feed of sent mail and clients that walk it while the table changes | nothing missed, nothing twice, walk equals first feed |
| `admin_client.dfy` | the admin client with its process-wide prefix cache, every `await` a step | bounds and termination in every interleaving, exactly when the cache stays right |
| `mail_client.dfy` | retries under a deadline, and the budget chain of the settings | a closed form of every run, budget below the proxy's |
| `permissions.dfy`, `permission_order.dfy` | role permissions, their union, validation, admin level | least upper bound, order independence, the order of pages and actions, monotone admin level |
| `backfill.dfy`, `migrations.dfy` | migrations 0037, 0041 and 0042 | what they keep, exactly, per role and per user |
| `rate_limit.dfy` | the sliding-window login limiter | the deque implements a full-history specification, and what remains of it when the clock goes back |
| `display_name.dfy` | taking mailbox names apart and building them | parse after build after parse is parse, on every text |
| `telegram_split.dfy` | splitting long notifications | nothing is lost but line breaks, or a marked prefix; exactly which tags and entities are cut |
| `billing.dfy` | AI cost synchronisation | time partition, complete sums, no partial sum, who pays for unattributed rows |

## How to read the model

Values are datatypes and functions; objects and loops that change state step by step are classes and
methods proved against those functions (`RateLimit.Limiter`, `AdminClient.Client`,
`Migrations.RoleTable`, `Billing.Wire`, the loops of `permissions.dfy`, `backfill.dfy`,
`telegram_split.dfy` and `billing.dfy`). What the network, the database and the clock do is a
parameter: a table per request, an answer per exchange, a script of attempts. Where calls interleave,
the schedule is a parameter too, and a lemma about `Run` speaks of every schedule.

Character tables are abstract. `Regex.Alphabet` asks only that a blank is a space and that the
characters with a special meaning are neither spaces nor alphanumeric; `DisplayName.Chars` that
digits, spaces and commas are apart. `Cursor.Library` takes `isoformat`/`fromisoformat` and UTF-8
encoding as given inverse pairs; base64 (section 5 of RFC 4648, with the padding left out as section
3.2 allows), decimal integers, UUID texts and the split at the last separator are concrete. Decoding
follows the lenient automaton of CPython's `binascii.a2b_base64`.

## Where code and documentation disagree

The model follows the code. Each point is a theorem below.

- `mail_tags_sql.py:18` promises that an `all` tag needs every rule to match. On a message with a NULL
  subject the apply-to-existing statement skips subject rules (`TagEngine.ApplyMeansDocumented` says
  exactly when that shows). On arrival the repository binds `subject or ""`, which is right for every
  pattern that the interface accepts (`TagEngine.AcceptedTags`), so the two statements can disagree
  about one message (`TagEngine.IngestAgreesWithApply`, `TagEngine.SubjectlessWitness`). What this does
  to whole histories is exactly `TagEngine.EndsAsMeantIff`.
- `permissions.py:68` excludes the page `users` from valid roles; the code accepts it
  (`Permissions.ValidatePermissions`, `Migrations.UsersRoleIsValid`).
- The header of migration 0041 wants users with the whole catalog to stay administrators. It looks at
  one role at a time, so a user who covers the catalog only by the union of several roles does not
  stay one unless some roles had the users page before (`Migrations.AdminLevelAfter`,
  `Migrations.OneRoleMustCover`, `Migrations.TwoRolesLoseCoverage`).
- The admin client's cache is filled by any answer but 404, before the answer is looked at
  (`AdminClient.CacheIsLastHeard`). It stays right exactly while no wrong prefix answers anything else
  (`AdminClient.RightPrefixOnly`); one 401 is enough (`AdminClient.WrongPrefixIsRemembered`).
- OpenAI's costs are asked for without a key and grouped by it, and rows without a key id are charged
  to every key of the organisation (`Billing.KeysShareTheBill`, `Billing.BillIsConservedIff`,
  `Billing.TwoKeysPayTwice`). Anthropic's reports name the key, so nothing is claimed for them.
- `mail_notify.py:132-133` calls the escaped text of a message safe for Telegram's HTML. That is so of the
  whole text, but the parts are cut by counting characters: a tag or entity that straddles a multiple
  of 3800 in its line is torn (`TelegramSplit.SeveredIff`, `TelegramSplit.AmpersandIsTorn`).

`_validate_mail_timeout_chain` agrees with its documentation, but two of its four checks cannot fail:
the field bounds already guarantee the request budgets (`MailClient.AcceptedIff`).

## Model

| member | source | states |
|---|---|---|
| `TagPattern.PgContainsIsWholeWord` | backend/app/domain/mail_tags_sql.py:6-17 | For every pattern and text, the expression built by escaping, nbsp and whitespace normalisation and the two boundary groups is well formed and matches the normalised text iff the normalised pattern occurs in it literally with start or non-word before and end or non-word after |
| `TagPattern.EscapeNorm` | backend/app/domain/mail_tags_sql.py:49 | Normalising the escaped pattern is escaping the normalised pattern, although the statement escapes first |
| `TagPattern.RunIsOneBlank` | backend/app/domain/mail_tags_sql.py:10-11 | A run of whitespace and no-break spaces of any length, anywhere in a text, normalises as one blank does |
| `TagPattern.PlainStays` | backend/app/domain/mail_tags_sql.py:10-11 | A text without no-break spaces, without whitespace but the blank and without two blanks together is its own normal form; with the row above this fixes the normal form of every text |
| `TagPattern.ParseEscaped` | backend/app/domain/mail_tags_sql.py:12-13 | Parsing an escaped text gives back exactly its literal characters: no character of a pattern keeps a special meaning |
| `TagPattern.ParsePattern` | backend/app/domain/mail_tags_sql.py:49 | The whole right operand of the operator parses to boundary, literal, boundary |
| `TagPattern.MatchesLiteral` | backend/app/domain/mail_tags_sql.py:13 | A literal expression matches a piece of text iff the piece begins with the literal and the rest matches the tail |
| `TagPattern.EmptyTextContains` | backend/app/repositories/mail_tag_repository.py:126-127 | An empty text matches the empty pattern and no other, hence no pattern that the interface accepts |
| `TagPattern.StripTagsLeavesNone` | backend/app/domain/mail_tags_sql.py:14-15 | After tag stripping no tag is left anywhere, so stripping again changes nothing |
| `TagPattern.FirstTagGoes` | backend/app/domain/mail_tags_sql.py:14-15 | The first `<`, everything up to the next `>` if that is not empty, and the `>` give way to one blank, the text before stays and stripping goes on behind |
| `TagPattern.NoTagStays` | backend/app/domain/mail_tags_sql.py:14-15 | A text in which no `<` is followed by some other character and later a `>` stays as it is |
| `TagEngine.OwnKindDecides` | backend/app/domain/mail_tags_sql.py:48-58 | In three-valued logic the disjunction of the four guarded tests is the test of the rule's own kind, even if the other three are unknown |
| `TagEngine.RulePredicateMeans` | backend/app/domain/mail_tags_sql.py:95-106 | The rule predicate is unknown exactly for a subject rule on a NULL subject, and otherwise the documented two-valued meaning |
| `TagEngine.RuleInColumns` | backend/app/domain/mail_tags_sql.py:96-105 | On which columns a rule of each kind is true: a whole word of the subject, of the body or the stripped HTML, of the address or the name; or the same address whatever the case |
| `TagEngine.WhereMeans` | backend/app/domain/mail_tags_sql.py:92-127 | The WHERE clause is never unknown; with a subject it is the documented any/all meaning, with a NULL subject `any` still is, and `all` means at least one rule and every non-subject rule holds |
| `TagEngine.WhereByRules` | backend/app/domain/mail_tags_sql.py:93-126 | In terms of single rules: `any` selects iff one is true, `all` iff there is one and none is false, so that an unknown rule does not stand in the way |
| `TagEngine.ApplyMeansDocumented` | backend/app/domain/mail_tags_sql.py:109-125 | Apply-to-existing departs from the documented meaning iff an `all` tag has a subject rule, the subject is NULL and the other rules hold; it never selects too little |
| `TagEngine.IngestMeansDocumented` | backend/app/repositories/mail_tag_repository.py:114-140 | Tagging on arrival departs from it iff the subject is NULL, a subject pattern is empty, and no other rule of an `any` tag holds, or all other rules of an `all` tag hold and it has no non-empty subject pattern; it never selects too little |
| `TagEngine.IngestAgreesWithApply` | backend/app/repositories/mail_tag_repository.py:114-146 | The two statements give a message and a tag the same verdict iff the subject is present, or an `any` tag has no empty subject pattern or another rule that holds, or an `all` tag has no non-empty subject pattern or another rule that fails |
| `TagEngine.AcceptedTags` | backend/app/schemas/mail.py:388-392 | For tags with the non-empty patterns that the interface accepts, arrival is right on every message, and re-application disagrees with it exactly where it departs from the documentation |
| `TagEngine.RunKeeps` | backend/app/services/mail_ingest_service.py:72-92 | No history of ingests and re-applications changes a tag or a stored message or loses a link |
| `TagEngine.FirstArrivalStays` | backend/app/services/mail_ingest_service.py:72-77 | In every history the first arrival of a new id is stored as it came, an absent subject staying absent, and later arrivals of the id change nothing |
| `TagEngine.OnlyArrivalsAreStored` | backend/app/services/mail_ingest_service.py:72-77 | In every history a message that was not there before is one that arrived |
| `TagEngine.RunLinks` | backend/app/domain/mail_tags_sql.py:41-82 | After any history a link exists iff it existed before or some step examined the pair and its statement selects it |
| `TagEngine.EndsAsMeantIff` | backend/app/domain/mail_tags_sql.py:88-129 | For every history and whatever the subjects: the links end as the prior ones plus exactly the documented ones iff no documented pair went unexamined and no new pair was examined by a statement that departs on it |
| `TagEngine.RunConverges` | backend/app/domain/mail_tags_sql.py:88-129 | An interleaving that examines every pair ends so iff no new pair was examined by a statement that departs on it |
| `TagEngine.TaggingStaysComplete` | backend/app/services/mail_ingest_service.py:78-90 | A complete store stays complete through every history in which no ingest loses its savepoint, whatever the subjects, and gains nothing else iff neither statement departs on a new pair |
| `TagEngine.StepIsIdempotent` | backend/app/domain/mail_tags_sql.py:81 | After any history a repeated ingest changes nothing, and a repeated re-application changes nothing iff every matching message that arrived in between is linked already: from before, by a re-application in between, or on arrival where the two statements agree |
| `TagEngine.SubjectlessWitness` | backend/app/models/mail_message.py:53 | A concrete message without subject and `all` tag: tagging on arrival links nothing, re-applying links it, the documentation does not grant it |
| `Base64.ScanEncode` | backend/app/domain/mail.py:75-76 | The lenient decoder reads every padded encoding back |
| `Base64.PaddingRestored` | backend/app/domain/mail.py:76-89 | The recomputed padding is exactly what stripping removed, for all three tail lengths |
| `Base64.RoundTrip` | backend/app/domain/documents.py:58-72 | Decoding the unpadded encoding of any bytes gives them back |
| `Base64.EncodingIs` | backend/app/domain/mail.py:75-76 | Three octets become four letters that are the digits to the base 64 of the 24-bit number, and the rest is encoded behind them |
| `Base64.EncodedEnds` | backend/app/domain/mail.py:75-76 | One and two octets at the end become two and three letters, the missing bits zero, without padding |
| `Base64.ForeignIsSkipped` | backend/app/domain/mail.py:89 | An ASCII character outside the alphabet changes nothing of what is decoded, wherever it stands |
| `Base64.SpellingsAreOne` | backend/app/domain/mail.py:89 | `+` and `-`, and `/` and `_`, are the same letters to the decoder |
| `Base64.PaddingIs` | backend/app/domain/mail.py:87-89 | A `=` ends the text where it completes a quantum and is skipped elsewhere |
| `Base64.RefusedIff` | backend/app/domain/mail.py:87-93 | A text of letters is refused iff its length is 1 modulo 4 |
| `Cursor.LastIndexSplits` | backend/app/domain/mail.py:90 | The last separator is found at the join, whatever the part before it contains |
| `Cursor.RoundTrip` | backend/app/domain/mail.py:68-97 | Decoding an encoded position gives the same time and id, for every aware time and every readable id |
| `Cursor.EncodedIs` | backend/app/domain/mail.py:75-76 | A cursor decodes from base64 to the UTF-8 bytes of time, bar and id |
| `Cursor.DecodedIs` | backend/app/domain/mail.py:87-97 | For a cursor whose text has its last bar between a and b: accepted with a time and an id iff a reads as that time, with a zone, and b as that id; naive iff only the zone is missing; broken otherwise |
| `Cursor.UnreadableIsBroken` | backend/app/domain/mail.py:85-94 | Blank iff empty; broken if base64, UTF-8 or the bar fail |
| `Cursor.Injective` | backend/app/domain/documents.py:52-80 | Different positions have different cursors |
| `Cursor.AcceptedIsCanonical` | backend/app/domain/sms.py:99-117 | Every accepted text decodes to an aware position whose own cursor decodes to it too |
| `IntIds.ReadShow` | backend/app/domain/sms.py:95-112 | Reading the decimal text of any integer, negative ones included, gives it back |
| `IntIds.ShowIs` | backend/app/domain/mail.py:75 | Decimal notation digit by digit: no leading zero, a minus for negative numbers |
| `IntIds.ReadIffNumeral` | backend/app/domain/mail.py:92 | Read iff digits with single underscores between them |
| `IntIds.NumeralIs` | backend/app/domain/mail.py:92 | Underscores count for nothing and each further digit for its decimal place |
| `IntIds.SignsAre` | backend/app/domain/mail.py:92 | A numeral is read for its value without a sign or with a plus, and for its negative with a minus |
| `IntIds.BlanksGo` | backend/app/domain/mail.py:92 | Blanks at either end make no difference |
| `IntIds.IntIdsReadable` | backend/app/domain/mail.py:75-92 | Integer ids meet what the round trip asks of ids: they read back and hold no separator |
| `UuidIds.ReadShow` | backend/app/domain/mail.py:105-118 | Reading the dashed 32-digit text of any UUID gives it back |
| `UuidIds.ShowIs` | backend/app/domain/mail.py:105 | Thirty-six characters, dashes at 8, 13, 18 and 23, and between them the 32 lower-case hexadecimal digits of the number, most significant first |
| `UuidIds.OtherFormsAreRead` | backend/app/domain/mail.py:118 | The bare digits, the form in braces and the URN form are read as the same UUID |
| `UuidIds.LettersAre` | backend/app/domain/mail.py:118 | Capital digits count as small ones and any other character is refused |
| `UuidIds.UuidIdsReadable` | backend/app/domain/documents.py:58-74 | UUID ids meet what the round trip asks of ids |
| `SentFeed.SentTokensFaithful` | backend/app/domain/mail.py:103-123 | The real cursors of the sent feed are never empty and name their positions faithfully |
| `SentFeed.SortedLists` | backend/app/repositories/mail_sent_message_repository.py:71 | The sorted selection holds exactly the selected rows, each once, newest first |
| `SentFeed.NewestComesFirst` | backend/app/repositories/mail_sent_message_repository.py:71 | Of two rows of the sorted selection the one further up is strictly newer, or of the same instant with the higher id |
| `SentFeed.Request` | backend/app/services/mail_service.py:429-457 | One request shows the first `limit` rows of its selection; it has a next cursor iff there are more, and then that of the last row shown |
| `SentFeed.PageShowsTheNewest` | backend/app/repositories/mail_sent_message_repository.py:58-72 | A page in the fields of its rows: at most `limit`, strictly newer first with ties by the higher id, only rows of visible accounts strictly below the position of the cursor, and all of those unless there is a next cursor; then it names the last row shown, there are more, and all that are not shown lie below it |
| `SentFeed.RefusedIff` | backend/app/services/mail_service.py:429-443 | The limit is refused iff it is not between 1 and 200, and else the cursor iff it is given and unreadable |
| `SentFeed.SortedTail` | backend/app/repositories/mail_sent_message_repository.py:63-71 | The rows below the k-th row of the feed, by the query's own comparison, are the feed after its k-th row |
| `SentFeed.PageThenRest` | backend/app/repositories/mail_sent_message_repository.py:63-72 | Every selected row is on the page or below its cursor, and everything below the cursor is older than the page |
| `SentFeed.WalkDescends` | backend/app/repositories/mail_sent_message_repository.py:51-72 | However the table changes between requests, the rows of a walk come strictly newer first, ties by the higher id, so no row comes twice; each is of a visible account and below the first cursor |
| `SentFeed.WalkInventsNothing` | backend/app/services/mail_service.py:445-457 | Every collected row was in a table that some request saw |
| `SentFeed.WalkMissesNothing` | backend/app/repositories/mail_sent_message_repository.py:58-72 | A walk that ends has collected every row of a visible account below the first cursor that was present throughout |
| `SentFeed.WalkFinishes` | backend/app/services/mail_service.py:445-457 | Every walk ends, however the table changes: if all rows that ever appear among those selected are at most n times limit, n requests are enough |
| `SentFeed.WalkIsTheFirstFeed` | backend/app/services/mail_service.py:445-457 | If only newer rows arrive, n requests finish the walk of n times limit rows and it is exactly the feed as it was at the first request |
| `SentFeed.DateAloneLosesRows` | backend/app/domain/mail.py:71-73 | Paging by the time alone never shows one of two rows of one instant, however many requests are made |
| `AdminClient.OutcomesAreExplained` | backend/app/infra/backend_admin_client.py:366-377 | In every interleaving a finished call reports its own last answer, and returns a body only if that answered a request of its own |
| `AdminClient.OutcomeTellsTheAnswer` | backend/app/infra/backend_admin_client.py:422-498 | In every interleaving each outcome of a finished call, by constructor, iff its last answers: a body iff its own request, the last, got a 2xx with an object; a missing user, a missing extension or an unsupported contract iff 404 on a path of that kind or, for the last, from both candidates; timeout, transport, refused key, bad request, conflict, unusable response and every other status likewise |
| `AdminClient.RunKeepsInv` | backend/app/infra/backend_admin_client.py:358-401 | Every interleaving keeps the shape of each call and never takes a cached prefix away |
| `AdminClient.RequestsAreBounded` | backend/app/infra/backend_admin_client.py:358-377 | In every interleaving a call makes at most three requests; a POST, PATCH or GET other than the probe sends its own at most once, and last |
| `AdminClient.NotSupportedIsEarned` | backend/app/infra/backend_admin_client.py:371-400 | "Contract not supported" is reported iff both candidates answered 404 to the detection or the call's own contract path did; the branch for an empty cache after a successful probe is never taken |
| `AdminClient.CallFinishes` | backend/app/infra/backend_admin_client.py:342-401 | Five resumptions finish any call, whatever the others do: the recursion terminates |
| `AdminClient.CachedPrefixAnswered` | backend/app/infra/backend_admin_client.py:370-377 | In every run each cached prefix was there at the start or answered some request to that backend with something other than 404 |
| `AdminClient.CacheIsLastHeard` | backend/app/infra/backend_admin_client.py:370-377 | In every run the cache holds for each backend exactly the prefix that last answered with anything but 404, or what it held at the start |
| `AdminClient.RightPrefixOnly` | backend/app/infra/backend_admin_client.py:363-377 | For every schedule: the cache is right at the start and after every step iff it is at the start and no wrong prefix ever answers with a status other than 404 |
| `AdminClient.UserPathToldIff` | backend/app/infra/backend_admin_client.py:434-446 | In every interleaving, cold or warm, a call for a user or extension path is told that the contract is not supported iff both candidates, the right one too, answered its detection with 404 |
| `AdminClient.OnePrefixBackends` | backend/app/infra/backend_admin_client.py:358-401 | In every interleaving against backends that keep to one prefix every call other than the probe sends its own request to the right prefix only, and no call for a user or extension path is told that the contract is not supported |
| `AdminClient.WrongPrefixIsRemembered` | backend/app/infra/backend_admin_client.py:376-377 | Without the hypothesis: one 401 from the wrong prefix is cached and a later call for a user is told there is no such user |
| `AdminClient.ProbeIsDetection` | backend/app/infra/backend_admin_client.py:383-401 | A probe run as a call of its own, followed by reading the cache, is what the step model calls detection |
| `AdminClient.Client.RememberPrefix` | backend/app/infra/backend_admin_client.py:448-455 | The cache maps the backend to the prefix afterwards and is unchanged elsewhere |
| `AdminClient.Client.Send` | backend/app/infra/backend_admin_client.py:342-381 | The recursive request leaves the cache, the outcome and the number of exchanges of the uninterrupted step-by-step run; the raise after the loop is unreachable |
| `AdminClient.Client.DetectPrefix` | backend/app/infra/backend_admin_client.py:383-401 | After a successful detection the call continues as the step model does, and a failed one is its outcome |
| `MailClient.Request` | backend/app/infra/mail_client.py:232-321 | A call ends as described: earlier attempts all failed to connect, and either the last one decided in time or the deadline fell into it or into the pause behind it |
| `MailClient.RunIsDetermined` | backend/app/infra/mail_client.py:246-258 | That description has exactly one run for each network and deadline |
| `MailClient.FirstConnectionDecides` | backend/app/infra/mail_client.py:246-310 | The run has a closed form: the first of three attempts that gets past connecting, or else the third, decides; the call is cut iff that attempt would end after the deadline, and otherwise its event alone gives the outcome |
| `MailClient.OutcomeTellsTheDecider` | backend/app/infra/mail_client.py:315-386 | What the caller learns, by constructor: the empty result, the object, a refusal with its status and code, an unavailable connector and a timeout each iff the deciding attempt ended so in time; a timeout without a status also iff the deadline cut the call |
| `MailClient.ThreeFailures` | backend/app/infra/mail_client.py:275-296 | Three attempts that cannot connect take their durations and pauses of 0.2 s and 0.5 s, or stop at the deadline |
| `MailClient.NoWriteIsRepeated` | backend/app/infra/mail_client.py:287-305 | Of all attempts of a call at most one got past connecting, and exactly one if the connector's own verdict is reported |
| `MailClient.AcceptedIff` | backend/app/config.py:194-240 | Settings are accepted iff every field is within its bounds and both read budgets are below their deadlines; the two checks of the request budgets cannot fail |
| `MailClient.ChainErrorSaysWhy` | backend/app/config.py:213-239 | For any numbers, in bounds or not, which of the four errors is reported, with a request budget that has to stay below 120 s by 15 s for the cleanup and 5 s of overhead |
| `MailClient.CreateWithCleanup` | backend/app/config.py:223-239 | For all accepted settings one call and the cleanup of an orphan, of at most 15 s, end more than 5 s before the 120 s of the proxy |
| `Permissions.UnionPermissions` | backend/app/domain/permissions.py:89-121 | The loops over roles, pages and actions compute the union function, order included |
| `Permissions.UnionGrants` | backend/app/domain/permissions.py:89-113 | The union has a page iff some role has it and grants an action iff some role grants it |
| `Permissions.UnionIs` | backend/app/domain/permissions.py:100-113 | In the entries of the roles: a page is in the union iff some role has it, and an action is on it iff some role that has the page lists it |
| `Permissions.UnionIsLeastUpperBound` | backend/app/domain/permissions.py:89-113 | The union is below a dictionary iff every role is, and above every role |
| `Permissions.UnionOfValid` | backend/app/domain/permissions.py:93-95 | On catalog-valid roles the pages of the union come in catalog order |
| `PermissionOrder.UnionIsOrdered` | backend/app/domain/permissions.py:89-121 | For any roles, valid or not: no page comes twice; pages of the catalog come first and in its order, the others behind them in the order in which the roles first name them; and so for the actions of every page |
| `Permissions.UnionIsByGrants` | backend/app/domain/permissions.py:89-121 | Two lists of catalog-valid roles that grant the same have the same union, order included |
| `Permissions.UnionIgnoresOrder` | backend/app/domain/permissions.py:89-121 | Permuting or repeating catalog-valid roles changes nothing, order included |
| `Permissions.UnionIsIdempotent` | backend/app/domain/permissions.py:89-121 | The union of catalog-valid roles is catalog-valid and its own union |
| `Permissions.ValidatePermissions` | backend/app/domain/permissions.py:65-86 | Accepts iff every page is known and every list has only known actions and no duplicate; otherwise names the first offence |
| `Permissions.CoverageIsByGrants` | backend/app/domain/permissions.py:170-174 | A user covers the catalog iff each of its actions is granted by some role |
| `Permissions.AdminLevelIff` | backend/app/domain/permissions.py:162-174 | Admin level iff by flag, by a role named `admin`, or because each action of each page of the catalog is listed by some role |
| `Permissions.AdminLevelIsMonotone` | backend/app/domain/permissions.py:162-174 | A role added anywhere never takes the admin level away |
| `Backfill.ApplyBackfill` | backend/alembic/versions/0037_knowledge_bot_links.py:55-79 | The page loop computes the backfill function |
| `Backfill.AdminGetsCatalog` | backend/alembic/versions/0037_knowledge_bot_links.py:35-58 | The role named admin gets exactly the thirteen pages and their actions, written out, whatever it had |
| `Backfill.BackfillGrants` | backend/alembic/versions/0037_knowledge_bot_links.py:51-74 | At the real catalog any other role keeps its actions on every page but broadcast and gains exactly sync and tags of mail, transfer and sync of SMS and share of documents where it had view, edit, delete and, except for SMS, create of that page |
| `Backfill.BackfillAppends` | backend/alembic/versions/0037_knowledge_bot_links.py:68-74 | What it gains on a page stands behind what it had there, which keeps its order |
| `Backfill.BackfillOfBroadcast` | backend/alembic/versions/0037_knowledge_bot_links.py:76-78 | Its broadcast page becomes view and send iff it had the actions, written out page by page, that it takes to cover the rest afterwards, and stays as it was otherwise |
| `Backfill.FillIsInflationaryAndValid` | backend/alembic/versions/0037_knowledge_bot_links.py:60-79 | A catalog-valid role keeps all its rights and stays catalog-valid, without duplicates |
| `Backfill.FillLosesIff` | backend/alembic/versions/0037_knowledge_bot_links.py:76-79 | Any role keeps all its rights iff it does not earn the broadcast page or has no foreign action on it |
| `Backfill.FillIsMonotone` | backend/alembic/versions/0037_knowledge_bot_links.py:60-79 | A role with fewer rights before has fewer after |
| `Backfill.FillIsIdempotent` | backend/alembic/versions/0037_knowledge_bot_links.py:60-79 | A second backfill changes nothing, list for list |
| `Backfill.FillCoversIff` | backend/alembic/versions/0037_knowledge_bot_links.py:60-79 | A role covers the whole catalog after the backfill iff on every page but broadcast it had what is needed: the basic actions where they earn the extra ones, everything elsewhere |
| `Backfill.BackfillOfRoles` | backend/alembic/versions/0037_knowledge_bot_links.py:35-79 | At the migration's own catalog every valid role keeps its rights, stays valid and is filled once and for all |
| `Backfill.ThreeMigrations` | backend/alembic/versions/0037_knowledge_bot_links.py:60-79 | After 0037, 0041 and 0042 a role not named admin covers today's catalog iff it had what 0037 needs, and the basic actions in any users entry it had |
| `Migrations.CoversOldCatalog` | backend/alembic/versions/0041_roles_users_page_permission.py:58-66 | The early-return loop decides whether a single stored role lists every action of every page |
| `Migrations.CurrentIsValid` | backend/app/domain/permissions.py:20-50 | Today's catalog repeats no page and no action |
| `Migrations.UsersRoleIsValid` | backend/app/domain/permissions.py:65-86 | A role with rights on the users page is valid, which the documentation of the validation excludes |
| `Migrations.OldIsValid` | backend/alembic/versions/0041_roles_users_page_permission.py:39-53 | The migrations' own copy of the catalog repeats no page and no action |
| `Migrations.CurrentIs` | backend/app/domain/permissions.py:20-50 | Today's catalog is the migrations' copy and one page more with five actions |
| `Migrations.Up41Is` | backend/alembic/versions/0041_roles_users_page_permission.py:58-82 | 0041 adds the four basic actions on users, at the end, to a role that lists every action of the old catalog and has no users entry, and changes no other |
| `Migrations.Up42Is` | backend/alembic/versions/0042_roles_users_assign_any.py:41-58 | 0042 adds one action at the end of a users list that has create or edit and not that action, and changes nothing else |
| `Migrations.Down42Is` | backend/alembic/versions/0042_roles_users_assign_any.py:61-74 | The downgrade takes that one action out of the list and keeps everything before and behind it in order |
| `Migrations.Down42Removes` | backend/alembic/versions/0042_roles_users_assign_any.py:71 | It takes it out wherever it stands and no other action |
| `Migrations.RoleTable.Upgrade0041` | backend/alembic/versions/0041_roles_users_page_permission.py:69-82 | Every row is migrated by its own contents alone |
| `Migrations.RoleTable.Upgrade0042` | backend/alembic/versions/0042_roles_users_assign_any.py:41-58 | Every row is migrated by its own contents alone |
| `Migrations.RoleTable.Downgrade0042` | backend/alembic/versions/0042_roles_users_assign_any.py:61-74 | Every row loses just the one action |
| `Migrations.Downgrade42Restores` | backend/alembic/versions/0042_roles_users_assign_any.py:41-74 | Downgrading after upgrading gives a role back iff it did not have the action before |
| `Migrations.MigratedUsers` | backend/alembic/versions/0041_roles_users_page_permission.py:76-78 | A role without a users entry has one after both migrations iff it covered the old catalog, and then with all five actions |
| `Migrations.RoleCoversAfter` | backend/alembic/versions/0041_roles_users_page_permission.py:58-82 | After both migrations a role covers today's catalog iff it covered the old one and any users entry it had listed the four basic actions |
| `Migrations.UserCoversAfter` | backend/app/api/deps.py:169-178 | Any user, with or without users entries, covers today's catalog after both migrations iff the roles together covered the old one and each users action is granted by some role: by its own entry as 0042 completes it, or because it covered the old catalog alone |
| `Migrations.OneRoleMustCover` | backend/alembic/versions/0041_roles_users_page_permission.py:58-82 | Where no role had a users entry this is: iff a single role covered the old catalog |
| `Migrations.AdminLevelAfter` | backend/app/domain/permissions.py:162-174 | Any user is at admin level after both migrations iff by flag, by a role named admin, or by that condition at the real catalogs |
| `Migrations.AdminLevelInFull` | backend/app/domain/permissions.py:162-174 | The same in terms of the stored rows before the migrations, action by action |
| `Migrations.TwoRolesLoseCoverage` | backend/alembic/versions/0041_roles_users_page_permission.py:73-77 | For any two pages there are two roles that cover the catalog only together and lose the coverage |
| `RateLimit.Limiter.IsAllowed` | backend/app/infra/rate_limit.py:23-34 | For every clock reading the verdict and the deques are those that replaying the history through the deques gives; if the readings are in lock order, the call is admitted iff fewer than the limit of admissions of its key lie in the closed window that ends at it |
| `RateLimit.VerdictIsSpecified` | backend/app/infra/rate_limit.py:26-34 | On readings in lock order the deque of a key gives the full-history verdict |
| `RateLimit.ClockedIsCorrect` | backend/app/infra/rate_limit.py:23-34 | A whole history in lock order meets the full-history specification |
| `RateLimit.Prune` | backend/app/infra/rate_limit.py:29-30 | The popping loop drops a prefix of expired readings and leaves no expired head |
| `RateLimit.QueueIsWindow` | backend/app/infra/rate_limit.py:26-31 | The length of a pruned deque is the number of admissions in the window |
| `RateLimit.NeverMoreThanLimit` | backend/app/infra/rate_limit.py:23-34 | For every history: if no reading falls more than d behind an earlier one in lock order, no closed interval as long as the window less d, wherever it starts, holds more than the limit of admissions of one key; for d = 0 this is the whole window |
| `RateLimit.ClockedIffNoDrift` | backend/app/infra/rate_limit.py:23-27 | Readings are in lock order iff none falls behind an earlier one at all |
| `RateLimit.ClockOrderIsNeeded` | backend/app/infra/rate_limit.py:25-27 | The drift has to be taken off: readings 0, 1, 12, 10 in lock order, with a limit of 2 in 10 s, are all admitted, three of them between 0 and 10 |
| `RateLimit.KeysAreIndependent` | backend/app/infra/rate_limit.py:28 | In every history a key has the deque and gets the verdicts it would have if no other key were used |
| `DisplayName.MatchSplits` | backend/app/domain/mail.py:156 | The greedy match of the number list and what follows it make up the text |
| `DisplayName.AfterListEnds` | backend/app/domain/mail.py:156 | Greedy matching never leaves a rest that starts with a digit or with a comma and a digit |
| `DisplayName.SplitGivesTokens` | backend/app/domain/mail.py:176 | Splitting the matched list at commas and stripping gives exactly its numbers |
| `DisplayName.ParseOfList` | backend/app/domain/mail.py:156-178 | Spaces, then numbers with a comma and any spaces between two, then a text that does not go on as such a list: the numbers come back in order with exactly a comma and a blank between two, and the text without outer spaces, or nothing if it is blank |
| `DisplayName.EveryTextIsOne` | backend/app/domain/mail.py:156 | Every text that begins with a digit is such a list and such a rest |
| `DisplayName.ParseOfPlain` | backend/app/domain/mail.py:170-175 | Any other text has no number and comes back without outer spaces, or as nothing if it is blank |
| `DisplayName.BuildIs` | backend/app/domain/mail.py:188-189 | The two parts without outer spaces and a blank between them; one alone; nothing |
| `DisplayName.JoinIsList` | backend/app/domain/mail.py:156-176 | The joined numbers, followed by what cannot continue a list, are matched as that same list |
| `DisplayName.ParseBuildParse` | backend/app/domain/mail.py:159-189 | parse(build(parse(x))) == parse(x) for every text and for no text |
| `DisplayName.BuildAfterParseIsIdempotent` | backend/app/domain/mail.py:181-189 | Building after parsing is idempotent |
| `TelegramSplit.Split` | backend/app/domain/mail_notify.py:162-185 | One to four chunks, each cut before the last line break that fits or else at the limit, line breaks behind a cut dropped; the last is marked iff something is left over |
| `TelegramSplit.SplittingIsUnique` | backend/app/domain/mail_notify.py:162-185 | That description fits exactly one list of chunks for each text |
| `TelegramSplit.MessagesTellTheText` | backend/app/domain/mail_notify.py:162-185 | One to four messages of at most 3800 characters; line breaks apart the whole text, or else four, the last without its trailing spaces and with a line break and an ellipsis put behind, and without that a prefix of the text |
| `TelegramSplit.MarkedFits` | backend/app/domain/mail_notify.py:173-185 | Every chunk has at most 3800 characters, a marked last one at most 3802 |
| `TelegramSplit.NothingIsLost` | backend/app/domain/mail_notify.py:173-182 | Line breaks apart, the chunks followed by what is left over are the text |
| `TelegramSplit.NoBreaksIs` | backend/app/domain/mail_notify.py:182 | To leave line breaks apart is to drop each of them and no other character |
| `TelegramSplit.CutOffIsPrefix` | backend/app/domain/mail_notify.py:183-185 | Line breaks apart, the chunks of a cut-off text without the mark are a prefix of it |
| `TelegramSplit.SeveredIff` | backend/app/domain/mail_notify.py:173-182 | Any piece of one line that begins in what is sent, say a tag or an entity, is cut in two iff it straddles a multiple of 3800 characters counted from the start of its own line, in whichever chunk and truncation included |
| `TelegramSplit.ShortLinesStayWhole` | backend/app/domain/mail_notify.py:173-182 | So nothing within the first 3800 characters of its line is ever cut |
| `TelegramSplit.OneLongLine` | backend/app/domain/mail_notify.py:173-182 | A header and one body line of more than 3800 and at most 7600 characters: the header is one chunk and the line is cut after 3800 characters |
| `TelegramSplit.AmpersandIsTorn` | backend/app/domain/mail_notify.py:123-141 | The formatted text of a message whose body is 3798 letters and an ampersand: the header is one part, the next ends in `&a` and the last is `mp;` |
| `Billing.ChunkUtcDays` | backend/app/infra/ai_provider_billing.py:277-286 | The pieces follow one another from start to end, are non-empty and at most 31 days long, and only the last may be shorter |
| `Billing.TilesPartition` | backend/app/infra/ai_provider_billing.py:277-286 | An instant of the interval lies in exactly one piece, any other in none |
| `Billing.ReportsMeet` | backend/app/infra/ai_provider_billing.py:305-312 | In the whole seconds that are sent the reports still meet from the anchor to now; one asks for nothing iff it is the last and begins in the second that ends the interval |
| `Billing.ReportIs` | backend/app/infra/ai_provider_billing.py:305-312 | Each report names the key and the whole seconds in which its span begins and ends: 2,678,400 s apart, or at most that if it is the last |
| `Billing.TruncatedIs` | backend/app/infra/ai_provider_billing.py:227 | The anchor is sent in whole seconds, cut towards zero also before 1970 |
| `Billing.RequestWithRetries` | backend/app/infra/ai_provider_billing.py:97-118 | A request ends with the first attempt that is neither broken nor 5xx, or with the third, and repeats itself unchanged |
| `Billing.SettlesIff` | backend/app/infra/ai_provider_billing.py:105-117 | Attempts are one request iff they are at most three and all but the last, and the last too only if it is the third, were lost or answered by 500 to 599 |
| `Billing.AddPage` | backend/app/infra/ai_provider_billing.py:251-267 | A page adds every readable amount of every bucket whose key id is absent or equal |
| `Billing.AmountIs` | backend/app/infra/ai_provider_billing.py:58-72 | A number, a text that reads as one, or an object around an amount; anything else is no amount |
| `Billing.RowCounts` | backend/app/infra/ai_provider_billing.py:258-267 | One row more adds its amount iff it names the key or none and the amount is readable |
| `Billing.PageRowsAre` | backend/app/infra/ai_provider_billing.py:251-259 | The rows of a page are those of its buckets one after the other; a page or bucket without a list has none |
| `Billing.TokenIs` | backend/app/infra/ai_provider_billing.py:268-273 | Another page follows iff there is more and its token is a text that is not empty |
| `Billing.SumPages` | backend/app/infra/ai_provider_billing.py:313-351 | The paging loop reads the pages of one query from the first on, each by the token of the one before, until none is named or one fails |
| `Billing.SumOpenAiCosts` | backend/app/infra/ai_provider_billing.py:216-274 | The sum of all pages since the anchor, or the failure of the first bad one |
| `Billing.SumAnthropicCosts` | backend/app/infra/ai_provider_billing.py:289-352 | The sum of all pages of the reports on that key for all pieces of the interval, in cents over a hundred, or the failure of the first bad one |
| `Billing.SyncBalance` | backend/app/infra/ai_provider_billing.py:355-400 | On success spent and remaining add up to the initial balance and spent is the sum over a complete walk for that key; on a failed look-up nothing is asked |
| `Billing.EndIsDetermined` | backend/app/infra/ai_provider_billing.py:236-274 | The answers of the network decide the pages read, the attempts made, and success or failure |
| `Billing.BadPageMeansNoSum` | backend/app/infra/ai_provider_billing.py:243-250 | A walk that reaches a bad page ends in that page's failure, never in a sum; the reason is the invalid key iff 401, the forbidden one iff 403, an exception iff no answer or no JSON |
| `Billing.KeysShareTheBill` | backend/app/infra/ai_provider_billing.py:228-267 | Successful OpenAI synchronisations of any distinct keys over the same answers have together spent what names one of them, once, and what names none, once per key |
| `Billing.RowIsBilled` | backend/app/infra/ai_provider_billing.py:258-267 | Each row counts in full for the whole bill, for the named keys iff it names one of them, and as unattributed iff it names none |
| `Billing.TwoKeysPayTwice` | backend/app/infra/ai_provider_billing.py:262-267 | A page with one row that names no key: two keys have together spent twice its amount |
| `Billing.BillIsConservedIff` | backend/app/infra/ai_provider_billing.py:228-267 | Those synchronisations together count each row that concerns them once iff there is one key or nothing is unattributed; if no row names another key that is the whole bill |

## Left out

- HTTP, TLS, timeouts of single phases, logging, metrics and the database engine: only their outcomes enter, as parameters that the proofs leave free.
- The character tables of PostgreSQL and Python: abstract predicates with the few facts named above; the texts of `int()` and `uuid.UUID()` are read with ASCII digits only; single underscores between decimal digits are accepted as in the source, those that the hexadecimal digits of a UUID could also contain are refused, and so are the `0x` prefix, the sign and the surrounding blanks that `int(hex, 16)` would take among its 32 characters.
- `isoformat`, `fromisoformat` and UTF-8: a given inverse pair in `Cursor.Library`, with awareness as a predicate.
- PostgreSQL's regular expressions beyond the fragment that the statements can reach: ranges, equivalence and other named classes, back references, lookaround, non-greedy quantifiers and embedded options do not parse in the model.
- Changes of rules and tags between steps: histories keep the tag table fixed, since no step of the two statements changes it; deleting messages is not a step.
- The order of the savepoint inside one ingest: an ingest either tags or loses its savepoint as one step.
- The feeds of incoming mail, SMS and documents: their cursors are modelled, but of the keyset queries only the one of sent mail; the others add filters, and documents walk in ascending order.
- Account visibility, mail scope and the filters of the sent feed: the resolved account list is a parameter of each walk.
- SentFeed.ListFeed: is a specification over sets of rows, not a query planner; the statement object that the source reassigns is one WHERE clause here.
- Interleavings inside the class `AdminClient.Client`: the class runs one call without interruption; interleavings are on the values of the step model, to which `AdminClient.Client.Send` is tied.
- URL building, actor headers, `Retry-After` and the texts of errors in the admin client: they do not influence its control flow.
- Clearing the prefix cache: only tests do it, and the results assume that nothing does.
- MailClient.Request: durations and backoff pauses are exact reals, so scheduling delays of the event loop are inside the durations.
- MailClient.CreateWithCleanup: covers one call and one cleanup; the work of the service between them is the fixed overhead of the settings.
- RateLimit.Limiter.IsAllowed: gives the window count only for readings in lock order; otherwise it says what the deques do, and the bound that is left is in `RateLimit.NeverMoreThanLimit`. The clock is a real number, not a float.
- Migrations.Load: a stored page that is no list reads as a page without actions, where the union would raise on null or a number and take a string apart into characters; the two migrations leave such pages alone, as in the source.
- Migrations.RoleTable.Upgrade0041: the statements that write single rows back are assignments to the list of rows; JSON text decoding and the primary keys are not modelled.
- Downgrade of 0041, the row loop of 0037, and migrations that only change the schema: one statement or wiring each.
- Backfill.FillIsInflationaryAndValid: for roles that are not named admin; a role of that name gets the fixed catalog and nothing is to be shown.
- Gates of the API (`require`, `require_admin_or`) and the per-module visibility predicates: one boolean expression each over the admin level and the union.
- TelegramSplit.Split: the set of characters that `rstrip` removes is a parameter.
- Billing.SyncBalance: the look-up of the key id is a parameter with its possible failures; the current time is a parameter too.
- Billing.SumPages: the network has finitely many answers and then fails, so endless paging is not modelled; `Decimal` amounts are reals, so the context precision, `NaN` and infinities are not modelled.
- Billing.SumAnthropicCosts: time is UTC; a time zone other than UTC would be formatted as if it were.
- Backoff pauses of the billing client: they change no result.
- Notifications, thresholds, key masks, address and phone normalisation, HMAC and Fernet wrappers: true but settled by reading one function.
