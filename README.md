# API-key authentication and helpers of a Django project template, in Dafny

This project models the API-key authentication layer of a Django REST project template, plus the
smaller rules around it, and proves what each one promises.

- **The `APIKey` record** (`common/models.py`, module `ApiKeys`), a class whose fields the
  methods update in place. It covers:
  - the field defaults;
  - key generation and the 8-character prefix on first save;
  - the validity check (active flag and expiry);
  - the comma-separated IP allow-list;
  - the map from HTTP method to permission flag;
  - the usage counter.
- **`APIKeyAuthentication` and `CombinedAuthentication`** (`common/authentication.py`, module
  `Authentication`). It covers:
  - tokenising the raw `Authorization` bytes as `bytes.split()` does;
  - decoding the credential as UTF-8;
  - resolving the client address;
  - the fixed order of guards, each with its own message;
  - the usage update, which happens only when every guard passes;
  - falling back from JWT to the API key.
- **Soft deletion** (`common/mixins.py`, module `SoftDelete`): the `BaseModel` class with
  `soft_delete`, `restore` and `save`.
- **Health checks** (`common/health_checks.py`, module `HealthChecks`):
  - the overall status;
  - the choice between the HTML page and JSON, and the status codes;
  - the per-check classification and the loop of `prepare_html_context`;
  - the readiness probe's order of checks.
- **API versioning** (`config/versioning.py`, module `Versioning`):
  - the version context;
  - the v1 and newer response envelopes;
  - the deprecation headers, set in place on a view.
- **Utilities** (`common/utils.py`, module `Utils`):
  - the response envelopes;
  - the upload path;
  - the size and extension validators (`os.path.splitext` semantics);
  - page selection over a ceiling-division paginator.
- **The issue analyzer script** (`scripts/claude-automation/issue-analyzer.py`, module
  `IssueAnalyzer`):
  - the issue type;
  - the branch name and its title cleaning;
  - the complexity estimate, a loop with an early return;
  - the parsing of an issue reference, with `re.search` as a leftmost match.

Shared modules hold the Python semantics the core relies on:

- `Wrappers`: Option and Result.
- `Users`: the user id that rows and credentials refer to.
- `Text`: `split`, `join`, `strip`, `lower`, substring search and decimal numerals.
- `Json`: Python values and their truthiness.
- `Utf8`: `bytes.decode('utf-8')` and its inverse.

Time is an integer `now` in seconds. Users are opaque ids. Several outside pieces are inputs:

- The key store (`APIKey.objects`) is a map from key text to record.
- The user directory is the set of active user ids.
- The JWT authenticator's outcome is an input value.
- The 64 random choices of `secrets.choice` are a sequence of alphabet indices.

Three behaviours of the source shape the model:

- `check_rate_limit` always allows the request. No sliding window is modelled.
- An out-of-range page, including page 0 or a negative page, falls back to the **last** page, because
  Django raises `EmptyPage` for both.
- `BaseModel.save` re-stamps `updated_at`, so `soft_delete` and `restore` change that field too.

## Model

| member | source | states |
|---|---|---|
| `ApiKeys.APIKey.constructor` | common/models.py:12-39 | A new record is active, can read but not write or delete, has a zero request count, no key, no expiry, no allow-list and no hourly limit. |
| `ApiKeys.GenerateKey` | common/models.py:54-58 | The key has 64 characters, all letters or digits, and character i is the alphabet symbol of draw i. |
| `ApiKeys.EveryKeyCanBeGenerated` | common/models.py:54-58 | Every 64-character alphanumeric string comes from some valid draws, so the generator can produce any key. |
| `ApiKeys.AlphabetIndexOf` | common/models.py:56-57 | Each key character sits at exactly one index of `ascii_letters + digits`. |
| `ApiKeys.APIKey.Save` | common/models.py:48-52 | With no key, save stores a well-formed generated key and sets the prefix to its first 8 characters. With a key, both key and prefix stay as they were. |
| `ApiKeys.APIKey.IsValid` | common/models.py:60-68 | An inactive key is never valid. Validity means active and either no expiry or `now <= expires_at`, so expiring exactly now is still valid. |
| `ApiKeys.APIKey.IsIpAllowed` | common/models.py:70-76 | A blank list admits every address, even none. A non-blank list refuses a missing address, and admits an address exactly when it equals one of the comma-separated fields after `strip()`. |
| `ApiKeys.AllowListMember` | common/models.py:75-76 | A text is on the allow-list exactly when it is the stripped form of one of the comma-separated fields. |
| `ApiKeys.AllowListOfEntries` | common/models.py:70-76 | For a list written as comma-joined entries, padded or not, an address is admitted if and only if it equals the stripped form of one of them. |
| `ApiKeys.PaddedAllowList` | common/models.py:70-76 | A list written `a, b` admits both a and b, and never the padded ` b`. |
| `ApiKeys.APIKey.HasPermission` | common/models.py:84-93 | GET follows can_read. POST, PUT and PATCH follow can_write. DELETE follows can_delete. Any other name is refused, lower-case names included. |
| `ApiKeys.APIKey.IncrementUsage` | common/models.py:78-82 | The count rises by exactly one and last_used becomes now. The modifies frame keeps every other field unchanged. |
| `Authentication.FixedMessageShape` | common/authentication.py:32-78 | Each fixed failure text of `Message` has its own length, and none has the permission message's character at index 8. |
| `Authentication.MethodMessageNamesMethod` | common/authentication.py:70-73 | The permission message spells out the refused method at a fixed position. |
| `Authentication.MethodMessagesDistinct` | common/authentication.py:70-73 | Permission refusals for two different methods read differently. |
| `Authentication.MessagesDistinct` | common/authentication.py:32-78 | `Message` is injective: any two different failures have different texts. |
| `Authentication.Tokens` | common/authentication.py:26 | `split()` gives non-empty tokens without whitespace, and the first token starts with the first byte. |
| `Authentication.TokensOfJoinedWords` | common/authentication.py:26 | Splitting whitespace-free words joined by single spaces gives the words back. |
| `Authentication.ParseHeader` | common/authentication.py:26-42 | No tokens, or another scheme (compared case-insensitively), is not handled. One token means no credentials; more than two means spaces. Otherwise the credential is exactly the UTF-8 decoding of the second token. |
| `Authentication.ApiKeyHeaderParses` | common/authentication.py:26-42 | `<scheme in any case> <key>`, for a key without whitespace, is read back as exactly that key. |
| `Authentication.MalformedApiKeyHeaders` | common/authentication.py:31-36 | The scheme alone fails with no credentials, and three tokens fail with the spaces error. |
| `Authentication.ClientIp` | common/authentication.py:89-96 | With a non-empty X-Forwarded-For, the address is its unstripped first comma-separated field, a prefix ending at the first comma. Otherwise it is REMOTE_ADDR. |
| `Authentication.CheckRateLimit` | common/authentication.py:98-113 | Every key passes, with or without a limit and whatever its last use. |
| `Authentication.CredentialVerdict` | common/authentication.py:46-87 | An unknown key fails with InvalidKey. |
| `Authentication.GuardOrder` | common/authentication.py:50-78 | The verdict fails or succeeds. Each failure holds exactly when the earlier guards pass and its own guard fails. Success means every guard holds and yields the key's owner and record. Rate limiting never fails. |
| `Authentication.Verdict` | common/authentication.py:22-44 | Not handled exactly when the header is not an API-key header. A malformed header fails with its header error. |
| `Authentication.HeaderFailuresIgnoreStore` | common/authentication.py:26-42 | A header that is not handled or is malformed gets the same answer whatever the store, the users or the time. |
| `Authentication.AuthenticateCredentials` | common/authentication.py:46-87 | The outcome is the guard verdict. On success the key's count rises by one and last_used is now. On failure, and for every other key, count and last_used are unchanged. |
| `Authentication.Authenticate` | common/authentication.py:22-44 | The outcome is the verdict. Any outcome other than success leaves every record unchanged. Success updates only the returned key. |
| `Authentication.CombinedAuthenticate` | common/authentication.py:128-145 | An accepted JWT wins and changes nothing. When JWT returns None or raises, the outcome is exactly the API-key outcome. On that fallback a refusal leaves every record unchanged, and a success raises only the returned key's count by one and sets its last_used to now. |
| `Authentication.UnrestrictedKeyVerdict` | common/authentication.py:50-87 | An active, unexpired, unrestricted key with read access authenticates a GET as its owner. |
| `Authentication.IssueThenAuthenticate` | common/models.py:48-58 | A freshly issued key, presented as `ApiKey <key>` in a GET, authenticates as its owner and leaves its request count at one. |
| `SoftDelete.BaseModel.constructor` | common/mixins.py:6-37 | A new row has both stamps set to now, no users, and is not deleted, with no deletion time or user. |
| `SoftDelete.BaseModel.Save` | common/mixins.py:8 | Saving sets the auto_now update stamp to now. |
| `SoftDelete.BaseModel.SoftDelete` | common/mixins.py:42-46 | The row is deleted at now by the given user (possibly none). Only the deletion fields and the update stamp change. |
| `SoftDelete.BaseModel.Restore` | common/mixins.py:48-52 | The deletion fields are back to their defaults. Only they and the update stamp change. |
| `SoftDelete.DeleteThenRestore` | common/mixins.py:42-52 | After delete then restore, the deletion fields equal a new row's, and the creation stamps and updated_by are as before. |
| `SoftDelete.DeleteTwice` | common/mixins.py:42-46 | A second delete keeps the row deleted and only re-stamps time and user. |
| `HealthChecks.OverallStatus` | common/health_checks.py:41-45 | The overall status is one of healthy, warning or unhealthy. |
| `HealthChecks.OverallAgreesWithClassification` | common/health_checks.py:41-45 | Unhealthy exactly when some check is classed unhealthy. Warning exactly when none is unhealthy and some is a warning. Healthy exactly when all are healthy. |
| `HealthChecks.HtmlOnlyGetsPage` | common/health_checks.py:55-56 | `text/html` alone selects the page. |
| `HealthChecks.JsonAcceptGetsJson` | common/health_checks.py:55-56 | Two examples get JSON: the Accept value `text/html, application/json` and an empty Accept. |
| `HealthChecks.HealthCheck` | common/health_checks.py:41-71 | The page is served exactly when `WantsHtml` holds, that is when the Accept header contains `text/html` and not `application/json`. The code is 200 exactly when healthy, else 503. The JSON body carries the overall status and the raw checks; the page carries the processed checks. |
| `HealthChecks.HtmlAndJsonCodesAgree` | common/health_checks.py:58-71 | The page and JSON status codes agree for the same probe results. |
| `HealthChecks.StatusStyle` | common/health_checks.py:107-114 | Healthy, warning and unhealthy get their styles, error shares the unhealthy one, and anything else is unknown/secondary. |
| `HealthChecks.OverallStyleNamesStatus` | common/health_checks.py:107-114 | The overall style's class is the overall status itself, never the unknown badge. |
| `HealthChecks.ProcessCheck` | common/health_checks.py:118-140 | The processed check keeps every original key and value and adds exactly the three UI keys with the class, badge and text of `Classify`: a falsy or missing status gives unhealthy/danger, then a truthy warning gives warning/warning, otherwise healthy/success. |
| `HealthChecks.ProcessedChecks` | common/health_checks.py:117-140 | The processed checks have exactly the input's key set. |
| `HealthChecks.ProcessChecks` | common/health_checks.py:117-140 | The loop builds exactly the processed checks. |
| `HealthChecks.PrepareHtmlContext` | common/health_checks.py:98-152 | The context is the status, its style, the checks as the processing loop leaves them, version, timestamp and project name. |
| `HealthChecks.Readiness` | common/health_checks.py:166-191 | Ready (200) exactly when database and cache both pass. Otherwise 503: a failed database gives exactly not_ready with `database_unavailable`, and a passing database with a failed cache gives exactly not_ready with `cache_unavailable`. |
| `HealthChecks.ReadinessIgnoresCacheWhenDatabaseDown` | common/health_checks.py:176-181 | With the database down, the cache result makes no difference. |
| `Versioning.RequestVersion` | config/versioning.py:86 | A request without a version attribute is v1. One whose version is None stays None, and a set version name is returned as it is. |
| `Versioning.ApiVersionContext` | config/versioning.py:82-93 | is_v1 holds exactly for v1 and is_v2 exactly for v2, so never both. The default is v1. |
| `Versioning.Success` | config/versioning.py:101-120 | Code 200. v1 gives exactly success/message/data with success true. Any other version, None included, gives exactly status/message/result/version with status success. |
| `Versioning.Error` | config/versioning.py:122-141 | Code 400. v1 gives exactly success/message/errors with success false. Otherwise it gives exactly status/message/details/version with status error. |
| `Versioning.EnvelopesRoundTrip` | config/versioning.py:101-141 | A client reading either envelope, for any version, gets back the outcome, message and payload that were passed. |
| `Versioning.DeprecationHeaders` | config/versioning.py:64-79 | A non-deprecated version leaves the headers as they were. A deprecated one adds exactly the warning and the date (Unknown when none is configured), and every other header keeps its value. |
| `Versioning.DeprecationHeadersIdempotent` | config/versioning.py:64-79 | Handling deprecation twice gives the same headers as once. |
| `Versioning.APIVersionView.HandleDeprecatedVersion` | config/versioning.py:64-79 | The view's headers become the deprecation headers of its request version. |
| `Utils.SuccessResponse` | common/utils.py:89-97 | success is true and the message is kept. data is present exactly when truthy, and then it is the given data. No other keys. |
| `Utils.ErrorResponse` | common/utils.py:99-107 | success is false and the message is kept. errors is present exactly when truthy, and then it is the given errors. No other keys. |
| `Utils.ResponsesRoundTrip` | common/utils.py:89-107 | The two envelopes are told apart by success. `.get` gives back the payload when truthy and None otherwise. |
| `Utils.RFind` | common/utils.py:124 | The last index of the character, or -1. |
| `Utils.UploadPath` | common/utils.py:110-112 | The upload path starts with the model name and `s/`, is as long as that prefix and the file name together, and its last component is the file name whenever that has no slash. |
| `Utils.Extension` | common/utils.py:124 | The extension is empty or a dot followed by neither dot nor slash, and it is a suffix of the name. |
| `Utils.ExtensionOfName` | common/utils.py:124 | `stem.e` with a stem that is not all dots has extension `.e`. |
| `Utils.HiddenFileHasNoExtension` | common/utils.py:124 | A leading-dot name like `.bashrc` has no extension. |
| `Utils.ValidateFileSize` | common/utils.py:116-120 | Passes exactly when size <= max MB * 1024 * 1024, so the limit itself passes. Otherwise it fails with the limit in the message. |
| `Utils.FileSizeMonotone` | common/utils.py:116-120 | A passing size still passes for a smaller file or a larger limit. |
| `Utils.ValidateFileType` | common/utils.py:122-127 | Passes exactly when the lower-cased extension, dot included, is allowed. Otherwise it fails naming that extension. |
| `Utils.UpperCaseExtensionAccepted` | common/utils.py:122-127 | `report.PDF` passes a `.pdf` allow-list. |
| `Utils.NumPages` | common/utils.py:135 | There is always at least one page. |
| `Utils.NumPagesBounds` | common/utils.py:135 | The page count is the least n with n pages covering all items (one page when empty). |
| `Utils.SelectPage` | common/utils.py:137-142 | A non-integer page gives page 1, an in-range page is itself, and an out-of-range page gives the last page. |
| `Utils.Paginate` | common/utils.py:130-153 | The result has the selected page's items, the totals, has_next exactly before the last page and has_previous exactly after the first. |
| `Utils.PageSizes` | common/utils.py:130-153 | Pages before the last are full. The last holds the remainder. With items, no page is empty. |
| `Utils.PagesUpToPrefix` | common/utils.py:130-153 | The first k pages joined are the items up to k page sizes. |
| `Utils.PagesPartitionItems` | common/utils.py:130-153 | All pages joined in order are exactly the items. |
| `Utils.TwentyFiveItems` | common/utils.py:130-153 | 25 items in pages of 10 make 3 pages. Page 1 has no previous but a next; page 3 has 5 items and no next. Page 0 or 99 gives page 3; a non-integer gives page 1. |
| `IssueAnalyzer.TitleType` | scripts/claude-automation/issue-analyzer.py:40-49 | The title rules give fix, feature or enhancement. |
| `IssueAnalyzer.IssueType` | scripts/claude-automation/issue-analyzer.py:26-49 | The type is one of five. A bug/fix label gives fix. docs and test come only from labels. With no matching label, the lower-cased title decides. |
| `IssueAnalyzer.FirstLabelRuleWins` | scripts/claude-automation/issue-analyzer.py:29-38 | Over the five label rules in their order, the first that applies gives the type, whatever later rules and the title say. |
| `IssueAnalyzer.FirstTitleRuleWins` | scripts/claude-automation/issue-analyzer.py:39-47 | With no label rule, over the three title rules in their order, the first whose keyword occurs in the lower-cased title gives the type. |
| `IssueAnalyzer.NoRuleMeansFeature` | scripts/claude-automation/issue-analyzer.py:26-49 | When no label rule and no title rule applies, the type is feature. |
| `IssueAnalyzer.EnhancementBeforeFeature` | scripts/claude-automation/issue-analyzer.py:29-34 | Labels `feature` and `improvement` give enhancement, because that rule is tried first, whatever the title. |
| `IssueAnalyzer.LabelsOverrideTitle` | scripts/claude-automation/issue-analyzer.py:29-38 | Once a label rule applies, the title makes no difference. |
| `IssueAnalyzer.IssueTypeExamples` | scripts/claude-automation/issue-analyzer.py:26-49 | A bug label beats an improvement title, `Fix typo` is a fix, and an unmatched label leaves the title to decide. |
| `IssueAnalyzer.RemoveDisallowed` | scripts/claude-automation/issue-analyzer.py:55 | Only word characters, whitespace and hyphens remain, all from the input, and an input of those is unchanged. |
| `IssueAnalyzer.RemoveDisallowedConcat` | scripts/claude-automation/issue-analyzer.py:55 | The filter of a concatenation is the concatenation of the filters. |
| `IssueAnalyzer.RemoveDisallowedChar` | scripts/claude-automation/issue-analyzer.py:55 | A single character is kept exactly when it is a word character, whitespace or a hyphen. |
| `IssueAnalyzer.DashRuns` | scripts/claude-automation/issue-analyzer.py:56 | No whitespace remains, every character is a hyphen or from the input, and whitespace-free text is unchanged. |
| `IssueAnalyzer.DashRunsOfWords` | scripts/claude-automation/issue-analyzer.py:56 | Non-empty whitespace-free words separated by non-empty whitespace runs become the words joined by single hyphens. |
| `IssueAnalyzer.DashedOfWords` | scripts/claude-automation/issue-analyzer.py:55-56 | A title of lower-case word characters and hyphens between whitespace runs is dashed to its words joined by single hyphens. |
| `IssueAnalyzer.CleanTitle` | scripts/claude-automation/issue-analyzer.py:55-57 | The cleaned title is the prefix of the dashed title of length min(50, its length), so at most 50 characters, all lower-case word characters or hyphens. |
| `IssueAnalyzer.CleanTitleExample` | scripts/claude-automation/issue-analyzer.py:55-57 | `Fix: Login  fails!` is cleaned to `fix-login-fails`: punctuation goes and the double space becomes one hyphen. |
| `IssueAnalyzer.CleanTitleIdempotent` | scripts/claude-automation/issue-analyzer.py:55-57 | Cleaning a cleaned title changes nothing. |
| `IssueAnalyzer.CleanOfBranchChars` | scripts/claude-automation/issue-analyzer.py:55-57 | A short title of branch characters is its own cleaned form. |
| `IssueAnalyzer.BranchName` | scripts/claude-automation/issue-analyzer.py:51-59 | The branch name splits at its only slash into the issue type and `issue-<number>-<clean>`. |
| `IssueAnalyzer.FallbackComplexity` | scripts/claude-automation/issue-analyzer.py:158-164 | The fallback is simple exactly for at most 2 requirements, medium exactly for 3 to 5, and complex exactly for more than 5. |
| `IssueAnalyzer.Complexity` | scripts/claude-automation/issue-analyzer.py:143-164 | The complexity is simple, medium or complex. |
| `IssueAnalyzer.AnalyzeComplexity` | scripts/claude-automation/issue-analyzer.py:143-164 | The loop with its early return computes the complexity. |
| `IssueAnalyzer.FirstKeywordCategoryWins` | scripts/claude-automation/issue-analyzer.py:145-155 | The first category in the order simple, medium, complex with a keyword in the lower-cased title and body decides. |
| `IssueAnalyzer.NoKeywordUsesCount` | scripts/claude-automation/issue-analyzer.py:158-164 | With no keyword, the requirement count decides. |
| `IssueAnalyzer.FallbackMonotone` | scripts/claude-automation/issue-analyzer.py:158-164 | More requirements never give a simpler fallback. |
| `IssueAnalyzer.SearchUrl` | scripts/claude-automation/issue-analyzer.py:208 | Any URL capture is a non-empty digit string. |
| `IssueAnalyzer.SearchHash` | scripts/claude-automation/issue-analyzer.py:213 | Any `#N` capture is a non-empty digit string. |
| `IssueAnalyzer.SearchUrlLeftmost` | scripts/claude-automation/issue-analyzer.py:208 | A found URL capture is the match at some position, with no match at any earlier position. Finding none means no position matches. |
| `IssueAnalyzer.SearchHashLeftmost` | scripts/claude-automation/issue-analyzer.py:213 | A found `#N` capture is the match at some position, with no match at any earlier position. Finding none means no position matches. |
| `IssueAnalyzer.FirstMatchLeftmost` | scripts/claude-automation/issue-analyzer.py:208-213 | Given the match at each position, `re.search` returns one that has no match at any earlier position, and returns none only when no position matches. |
| `IssueAnalyzer.FirstMatchSkips` | scripts/claude-automation/issue-analyzer.py:208-213 | Positions where no match starts do not change what the search returns. |
| `IssueAnalyzer.SearchUrlFinds` | scripts/claude-automation/issue-analyzer.py:208 | With a URL match at p and none before it, the URL search returns the match at p. |
| `IssueAnalyzer.SearchHashFinds` | scripts/claude-automation/issue-analyzer.py:213 | With a `#N` match at p and none before it, the `#N` search returns the match at p. |
| `IssueAnalyzer.UrlMatchesAt` | scripts/claude-automation/issue-analyzer.py:208 | Say the prefix is written at i and `/issues/` at x. Say the longest slash-free run after the prefix ends at a slash, and the one after that slash ends at x. Then the pattern matches at i and captures the longest digit run after `/issues/`, whatever follows it. |
| `IssueAnalyzer.UrlAfterPrefix` | scripts/claude-automation/issue-analyzer.py:208 | An issue URL written between any prefix and a rest that does not continue its number matches where it starts, capturing the number. |
| `IssueAnalyzer.UrlMatchParts` | scripts/claude-automation/issue-analyzer.py:208 | A match at a position has cut points: the prefix, a slash-free owner ended by a slash, a slash-free repository ended by `/issues/`, and the captured digits, not followed by a digit. |
| `IssueAnalyzer.UrlMatchLayout` | scripts/claude-automation/issue-analyzer.py:208 | A match at a position means an issue URL is written there: prefix, non-empty slash-free owner and repository, `/issues/`, the captured digits, and a rest not starting with a digit. |
| `IssueAnalyzer.UrlMatchAtIff` | scripts/claude-automation/issue-analyzer.py:208 | The pattern matches at a position with capture d exactly when an issue URL with number d is written there. |
| `IssueAnalyzer.HashMatchesAt` | scripts/claude-automation/issue-analyzer.py:213 | `#` then a digit run not followed by another digit is a `#N` match capturing that run. |
| `IssueAnalyzer.HashAfterPrefix` | scripts/claude-automation/issue-analyzer.py:213 | After a prefix in which no `#` is followed by a digit, `#` and a digit run, followed by anything that does not continue it, is what the `#N` search finds. |
| `IssueAnalyzer.ParseIssueReference` | scripts/claude-automation/issue-analyzer.py:205-221 | A URL match wins, then `#N`, then an all-digit reference, each giving the value of its digits. Failure happens exactly when none applies, with the reference in the message. |
| `IssueAnalyzer.ParsePlainNumber` | scripts/claude-automation/issue-analyzer.py:218-219 | A number as `str(n)` writes it parses back to n. |
| `IssueAnalyzer.ParseHashNumber` | scripts/claude-automation/issue-analyzer.py:213-215 | `#N` on its own parses back to N. |
| `IssueAnalyzer.ParseHashReference` | scripts/claude-automation/issue-analyzer.py:207-215 | `#N` anywhere in a reference parses back to N. This needs no `#` followed by a digit before it, no digit right after it, and no `g`, so no URL. |
| `IssueAnalyzer.ParseIssueUrl` | scripts/claude-automation/issue-analyzer.py:208-211 | `github.com/<owner>/<repo>/issues/N` parses back to N. Before it may stand any text without a `g`. After it may stand any text that does not start with a digit. |
| `IssueAnalyzer.ParseHttpsIssueUrl` | scripts/claude-automation/issue-analyzer.py:208-211 | `https://github.com/<owner>/<repo>/issues/N` parses back to N. |
| `IssueAnalyzer.NoUrlWithoutG` | scripts/claude-automation/issue-analyzer.py:208 | Text without a `g` has no URL match. |
| `IssueAnalyzer.NoHashWithoutHash` | scripts/claude-automation/issue-analyzer.py:213 | Text without a `#` has no `#N` match. |
| `IssueAnalyzer.RefusesOtherReferences` | scripts/claude-automation/issue-analyzer.py:221 | `abc` and the empty reference are refused. |

## Left out

- JWT validation, `get_user_model` and the ORM lookup are not modelled. The JWT outcome is an input,
  the user directory is a set of active ids, and `APIKey.objects` is a map whose entries are stored
  under their own key.
- `request.api_key = api_key` (common/authentication.py:84) is not modelled, because the request
  object is immutable here.
- `APIKey.__str__` and `authenticate_header` are not modelled. They only format strings for display.
- The concurrency of `increment_usage` is not modelled. The update is sequential, with no atomicity
  claim.
- `Authentication.CheckRateLimit`: no sliding window is modelled, because the source's check always
  allows the request.
- `secrets.choice` randomness is not modelled. The draws are a parameter, and only the alphabet and
  length are specified.
- `ApiKeys.APIKey.Save`: the `created_at`/`updated_at` stamping that `super().save()` performs through
  `TimestampMixin` (common/models.py:6,9,52) is not modelled, and the record has no such fields.
- The `created_by`/`updated_by` stamping by views or middleware is not modelled. Only `auto_now` on
  `updated_at` is part of `save`.
- The probes (`check_database`, `check_cache`, `check_redis`, `check_disk_space`, `check_memory`),
  `metrics_endpoint` and `liveness_probe` are not modelled. Their results are inputs to the model.
- The exception paths of `health_check` and `readiness_probe` that answer 500 or 503 with an error
  body are not modelled, because they depend on a probe raising.
- `HealthChecks.HealthCheck` requires a `status` entry in every probe result, which the source
  indexes directly.
- `HealthChecks.Readiness` requires a `status` entry in both probe results.
- Logging is not modelled: the `logger.warning`, `logger.info` and `logger.error` calls
  (common/authentication.py:53-86, common/health_checks.py:74 and 194) have no effect on results.
- Python dict insertion order is not modelled, because dicts are Dafny maps.
- `CustomURLPathVersioning`, `get_serializer_class` and `get_queryset` are not modelled. They are
  framework dispatch.
- `Utils.Paginate` abstracts the page argument. `int(page)` either yields an integer or fails, and
  float and string forms are not modelled.
- `Utils.Paginate` requires a positive page size. Django's `Paginator` divides by `per_page`, so a
  page size of 0 raises `ZeroDivisionError`, which is not modelled.
- Django's `Paginator` internals are not modelled. The page count is ceiling division, at least one
  page.
- The pagination response's `next`/`previous` links are not modelled.
- `EmailService` and `SMSService` are not modelled. They make SMTP and Twilio calls.
- `IssueAnalyzer.AnalyzeComplexity`: the requirement count is a parameter, because the
  `requirements` property is not modelled.
- `extract_files_to_modify`, `fetch_issue`, `_get_current_repo` and `main` are not modelled. They
  are regular-expression scraping, subprocess calls and file writes.
- `IssueAnalyzer.CleanTitle`: `\w` and `str.lower` are taken over ASCII only, so non-ASCII letters
  and digits are neither kept as word characters nor lower-cased. Whitespace (`\s`) is Unicode
  whitespace, as in Python.
- `IssueAnalyzer.ParseIssueReference`: `\d` and `str.isdigit` are taken over ASCII digits only, so
  other Unicode digits are not modelled.
- `IssueAnalyzer.IssueType`: the title's `.lower()` lower-cases ASCII letters only.
- `ValidateFileType` (`Utils.ValidateFileType`): the extension's `.lower()` lower-cases ASCII letters
  only, where Python's is Unicode, so a non-ASCII upper-case extension is not modelled.
- Time is an integer `now`. Time zones and `datetime` arithmetic are not modelled.
- common/cache.py, common/tasks.py, common/middleware.py, settings and URL files are not part of this
  model.
