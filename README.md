# Travel-agency back office: a Dafny model of its service core

This project models the service layer of a NestJS back office for a travel agency. That layer covers:

- user accounts with roles;
- authentication with password-reset tokens;
- contact requests sent through the public site, with a filtered and paginated listing;
- countries with per-country attribute values;
- the upload helpers (MIME whitelists, extension filters, stored file names and URLs);
- the Arabic-aware search-term expansion;
- the global exception filter that shapes every error response;
- the interceptor that shapes every success response.

Each database repository is modelled as a table, a `map` from id to row held in a field of the service `class`, with an auto-increment counter. Methods that insert, update or delete rows change those fields, and their `ensures` state the whole new state. The pure parts are Dafny functions with lemmas about them:

- normalisation and search terms;
- filters, sort parsing and pagination arithmetic;
- the upload filters;
- the error and success envelopes.

The error and success envelopes are values of a small JavaScript value model (`Js.Value`). It has truthiness, property lookup, the `in` test, object spread, `Object.values` and `join`. Values the services never see are not modelled:

- bcrypt hashes are the injective tag `Hash(plain)`, and comparing a password means comparing its hash;
- the clock (`now`), the random reset token and the random file-name digits are parameters;
- JWT signing is reduced to the claims it signs.

Modules:

| file | module | models |
|---|---|---|
| common.dfy | `Common` | errors and results, ASCII case folding, substring search, `split`/`join`, decimal rendering, ascending id order |
| pagination.dfy | `Pagination` | `skip`/`take` windows and `Math.ceil(total / limit)` |
| arabic_search.dfy | `ArabicSearch` | `normalizeArabicForSearch`, `COUNTRY_ALIASES`, `getSearchTermsWithAliases` |
| contact_requests.dfy | `ContactRequests` | `ContactRequestsService` |
| users.dfy | `Users` | `UsersService` |
| auth.dfy | `Auth` | `AuthService` |
| countries.dfy | `Countries` | `CountriesService` |
| file_upload_util.dfy | `FileUploadUtil` | whitelist filters, `getFileUrl`, `normalizeFilePath` |
| file_upload_helper.dfy | `FileUploadHelper` | extension-based filters, `path.extname`, `editFileName` |
| js.dfy | `Js` | the JavaScript value operations the filter and the interceptor use |
| http_exception_filter.dfy | `HttpExceptionFilter` | `HttpExceptionFilter.catch` |
| response_interceptor.dfy | `ResponseInterceptor` | the `map` callback of `ResponseInterceptor.intercept` |

## Model

| member | source | states |
|---|---|---|
| Common.Lower | src/common/utils/arabic-search.util.ts:34 | `toLowerCase` on ASCII: same length, each letter A-Z lowered, every other character unchanged |
| Common.ContainsIffOccurs | src/contact-requests/contact-requests.service.ts:28-32 | `ILIKE '%x%'` as substring search: contained exactly when some offset matches |
| Common.JoinSplit | src/contact-requests/contact-requests.service.ts:66-68 | joining the pieces of `split(sep)` with `sep` gives back the input |
| Common.SplitConcat | src/common/utils/file-upload.util.ts:60-62 | splitting at a separator distributes over a concatenation around that separator |
| Common.AscendingKeys | src/countries/countries.service.ts:50-55 | the loop lists every id of a table once, strictly ascending, as the specification function `Ascending` does |
| Common.AscendingUnique | src/countries/countries.service.ts:53 | only one strictly ascending sequence lists a given set of ids |
| Pagination.Skip | src/contact-requests/contact-requests.service.ts:78 | `(page - 1) * limit` is never negative and is 0 on page 1 |
| Pagination.CeilDiv | src/contact-requests/contact-requests.service.ts:89 | `totalPages` is the least number of `limit`-row pages holding `total` rows |
| Pagination.Window | src/contact-requests/contact-requests.service.ts:79 | `skip(s).take(t)`: at most `t` rows, the rows from offset `s` in order, empty past the end |
| Pagination.PageNonEmptyIffWithinTotal | src/contact-requests/contact-requests.service.ts:78-89 | a page holds rows exactly when its number is at most `totalPages` |
| Pagination.HasNextIffBelowTotal | src/contact-requests/contact-requests.service.ts:90 | `page * limit < total` exactly when `page < totalPages` |
| Pagination.PagesArePrefix | src/contact-requests/contact-requests.service.ts:78-81 | pages 1..n read in turn are the first `n * limit` matching rows |
| Pagination.AllPagesListEveryRow | src/contact-requests/contact-requests.service.ts:78-91 | pages 1..totalPages together list every matching row exactly once, in order |
| ArabicSearch.ReplaceAll | src/common/utils/arabic-search.util.ts:10-14 | a one-for-one character replacement keeps the length |
| ArabicSearch.RemoveTashkeel | src/common/utils/arabic-search.util.ts:16 | removing U+064B..U+0652 never lengthens the text |
| ArabicSearch.CharImage | src/common/utils/arabic-search.util.ts:8-16 | each character normalises to at most one character |
| ArabicSearch.ReplaceAllConcat | src/common/utils/arabic-search.util.ts:10-14 | replacement distributes over concatenation |
| ArabicSearch.RemoveTashkeelConcat | src/common/utils/arabic-search.util.ts:16 | diacritic removal distributes over concatenation |
| ArabicSearch.NormalizeChar | src/common/utils/arabic-search.util.ts:8-16 | a one-character text normalises to that character's image |
| ArabicSearch.NormalizeConcat | src/common/utils/arabic-search.util.ts:8-16 | normalisation distributes over concatenation |
| ArabicSearch.NormalizeIsImages | src/common/utils/arabic-search.util.ts:6-16 | normalising equals mapping every character to its image, in order; the empty text stays empty |
| ArabicSearch.NormalizeRemovesVariants | src/common/utils/arabic-search.util.ts:10-16 | the output has no أ إ آ ة ى and no diacritic U+064B..U+0652 |
| ArabicSearch.KeptCharacter | src/common/utils/arabic-search.util.ts:8-16 | every other character passes through unchanged |
| ArabicSearch.NormalizeShortens | src/common/utils/arabic-search.util.ts:8-16 | the output is never longer than the input |
| ArabicSearch.NormalizeIdempotent | src/common/utils/arabic-search.util.ts:6-16 | normalising twice is normalising once |
| ArabicSearch.AmericaSpellingsAgree | src/common/utils/arabic-search.util.ts:10 | "أمريكا" and "امريكا" normalise to the same text, "امريكا" |
| ArabicSearch.EntryTerms | src/common/utils/arabic-search.util.ts:43-47 | a matching entry pushes its standard name and then its aliases as written; a non-matching entry pushes nothing |
| ArabicSearch.ExpandEntries | src/common/utils/arabic-search.util.ts:39-48 | the loop over `COUNTRY_ALIASES` pushes the contributions of the entries in declaration order |
| ArabicSearch.RemoveDuplicates | src/common/utils/arabic-search.util.ts:51 | `[...new Set(terms)]` keeps the first occurrence of each term, in order |
| ArabicSearch.SearchTerms | src/common/utils/arabic-search.util.ts:33-52 | for any alias table the result is the de-duplicated list: query, folded query if different, then the matching entries' names |
| ArabicSearch.GetSearchTermsWithAliases | src/common/utils/arabic-search.util.ts:33-52 | the same, for the fixed `COUNTRY_ALIASES` table |
| ArabicSearch.DedupSameElements | src/common/utils/arabic-search.util.ts:51 | de-duplication keeps exactly the same set of terms |
| ArabicSearch.DedupDistinct | src/common/utils/arabic-search.util.ts:51 | no term appears twice after de-duplication |
| ArabicSearch.DedupKeepsOrder | src/common/utils/arabic-search.util.ts:51 | the terms keep the order of their first occurrence |
| ArabicSearch.ExpansionMembers | src/common/utils/arabic-search.util.ts:39-48 | a term is pushed by the loop exactly when it names an entry whose folded standard name or some folded alias contains the folded query |
| ArabicSearch.QueryFirst | src/common/utils/arabic-search.util.ts:35 | the result's first term is the original query |
| ArabicSearch.TermsSoundAndComplete | src/common/utils/arabic-search.util.ts:33-51 | a term is returned exactly when it is the query, the folded query, or a name (as written) of a matching entry; folded alias forms are never added |
| ArabicSearch.TermsDistinctAndOrdered | src/common/utils/arabic-search.util.ts:35-51 | the result has no duplicates and follows the order in which terms were first pushed |
| ArabicSearch.EmptyQueryMatchesAll | src/common/utils/arabic-search.util.ts:23-28 | the empty query returns every standard name and alias of the table |
| ArabicSearch.AmericaExpandsToStandardName | src/common/utils/arabic-search.util.ts:24 | searching "أمريكا" yields "الولايات المتحدة" |
| ContactRequests.AllHoldAppend | src/contact-requests/contact-requests.service.ts:28-62 | adding an `andWhere` clause conjoins it with the clauses before it |
| ContactRequests.BuildConditions | src/contact-requests/contact-requests.service.ts:28-62 | the accumulated clauses hold for a row exactly when every supplied filter holds for it; the date range gives `BETWEEN`, `>=`, `<=` or nothing |
| ContactRequests.NoCriteriaMatchesAll | src/contact-requests/contact-requests.service.ts:28-62 | with no filter supplied every row matches |
| ContactRequests.DateRangeInclusive | src/contact-requests/contact-requests.service.ts:49-53 | with both dates, a matching row's creation time lies between them, bounds included |
| ContactRequests.InsertUnderscores | src/contact-requests/contact-requests.service.ts:70 | inserting `_` before capitals never shortens the key |
| ContactRequests.SnakeKey | src/contact-requests/contact-requests.service.ts:70 | the column name is never shorter than the key and has no ASCII capital left |
| ContactRequests.SnakeKeyConcat | src/contact-requests/contact-requests.service.ts:70 | snake-casing distributes over concatenation |
| ContactRequests.SnakeKeyOfChar | src/contact-requests/contact-requests.service.ts:70 | a capital X becomes `_x`, any other character stays |
| ContactRequests.SnakeKeyKeepsLowerKeys | src/contact-requests/contact-requests.service.ts:70 | a key without capitals is unchanged |
| ContactRequests.CreatedAtColumn | src/contact-requests/contact-requests.service.ts:70 | "createdAt" becomes "created_at" |
| ContactRequests.SortField | src/contact-requests/contact-requests.service.ts:68-71 | a field without ':' fails with the TypeError from `order.toUpperCase()`; any failure is that TypeError or the query builder's rejection of the direction |
| ContactRequests.SortFieldDirection | src/contact-requests/contact-requests.service.ts:68-71 | a field with ':' parses exactly when its upper-cased direction is `ASC` or `DESC`, and the clause carries that direction |
| ContactRequests.SortFieldParts | src/contact-requests/contact-requests.service.ts:68-71 | "key:order" orders by the snake-cased column with the direction upper-cased when that is `ASC` or `DESC`, and is rejected by `addOrderBy` otherwise |
| ContactRequests.SortClausesShape | src/contact-requests/contact-requests.service.ts:66-72 | the sort succeeds exactly when every field parses, and then gives one order-by per field, in input order |
| ContactRequests.SortClausesFirstFailure | src/contact-requests/contact-requests.service.ts:66-72 | a failing sort fails with the error of its first field that does not parse |
| ContactRequests.SortOrders | src/contact-requests/contact-requests.service.ts:65-75 | a successful ORDER BY has at least one clause, and every clause is `ASC` or `DESC` |
| ContactRequests.TwoClauses | src/contact-requests/contact-requests.service.ts:66-72 | with two fields the first failure wins, otherwise one clause each, in order |
| ContactRequests.ParseSort | src/contact-requests/contact-requests.service.ts:65-75 | the `forEach` loop yields the same order-by list as the specification function, `created_at DESC` with no sort |
| ContactRequests.TwoFieldSort | src/contact-requests/contact-requests.service.ts:66-71 | "a:x,b:y" gives the two order-bys for `a` then `b` when both directions are `ASC` or `DESC`, and the query builder's rejection otherwise |
| ContactRequests.FieldFailureFails | src/contact-requests/contact-requests.service.ts:66-72 | one field that does not parse makes the whole listing fail, with that field's error when every earlier field parsed |
| ContactRequests.MissingDirectionFails | src/contact-requests/contact-requests.service.ts:68-71 | one field without ':' makes the whole listing fail, with the TypeError when every earlier field parsed |
| ContactRequests.FailureSticks | src/contact-requests/contact-requests.service.ts:67-72 | once a field has failed, later fields do not change the failure |
| ContactRequests.ListingMeta | src/contact-requests/contact-requests.service.ts:83-92 | the meta echoes total, page and limit; `totalPages` is the ceiling of `total / limit`; `hasNextPage` iff `page < totalPages`; `hasPreviousPage` iff `page > 1` |
| ContactRequests.MatchingSoundAndComplete | src/contact-requests/contact-requests.service.ts:81 | a row is counted exactly when it is in the table and satisfies the filter |
| ContactRequests.PatchedKeepsIdentity | src/contact-requests/contact-requests.service.ts:108-111 | `Object.assign` keeps the id and creation time, and applying the same patch twice is applying it once |
| ContactRequests.EmptyPatchKeepsRow | src/contact-requests/contact-requests.service.ts:110 | an empty patch leaves the row as it was |
| ContactRequests.ContactRequestsService.Create | src/contact-requests/contact-requests.service.ts:17-20 | one new row under a fresh id, holding the submitted fields; the other rows are unchanged |
| ContactRequests.ContactRequestsService.FindAll | src/contact-requests/contact-requests.service.ts:22-94 | a sort that does not parse fails with its error; otherwise the page of matching rows, the meta for all matching rows and the parsed order-by |
| ContactRequests.ContactRequestsService.RunQuery | src/contact-requests/contact-requests.service.ts:81 | the query loop returns exactly the matching rows, ascending by id |
| ContactRequests.ContactRequestsService.FindOne | src/contact-requests/contact-requests.service.ts:96-106 | the row with that id, or NotFound "Contact request with ID n not found" |
| ContactRequests.ContactRequestsService.Update | src/contact-requests/contact-requests.service.ts:108-112 | a missing id gives NotFound and changes nothing; otherwise only that row changes, to the patched row |
| ContactRequests.ContactRequestsService.Remove | src/contact-requests/contact-requests.service.ts:114-117 | a missing id gives NotFound and changes nothing; otherwise exactly that row is deleted |
| ContactRequests.SatisfiesAll | src/contact-requests/contact-requests.service.ts:28-62 | the row check answers true exactly when every clause holds |
| ContactRequests.SortErrorKinds | src/contact-requests/contact-requests.service.ts:71 | sorting fails only with the TypeError of a missing direction or the query builder's rejection of a direction |
| Users.CompareIffHashOf | src/users/users.service.ts:97-99 | a password is accepted exactly when the stored hash is its hash |
| Users.InactiveFilterExcludesActive | src/users/users.service.ts:52-54 | an `isActive=false` filter excludes active users, because `false` is not `undefined` |
| Users.MatchingSoundAndComplete | src/users/users.service.ts:47-70 | a user is counted exactly when in the table and matching role, `isActive` and the search on email, first or last name |
| Users.PatchedKeepsIdentity | src/users/users.service.ts:113 | an update keeps id, password and creation time; applying it twice is applying it once |
| Users.PatchCanDuplicateEmail | src/users/users.service.ts:109-116 | an update may set an email another user holds, since no check is made |
| Users.UsersService.FindByEmail | src/users/users.service.ts:93-95 | the user holding that email, or nothing exactly when no user holds it; never an error |
| Users.UsersService.RunQuery | src/users/users.service.ts:47-70 | the query before the window returns exactly the users that satisfy the filter, ascending by id |
| Users.UsersService.Create | src/users/users.service.ts:17-37 | a taken email gives Conflict "Email already exists" and changes nothing; otherwise one new user with the hashed password and the given role or USER; emails stay unique |
| Users.UsersService.FindAll | src/users/users.service.ts:39-81 | the page of matching users without passwords, meta with the ceiling of `total / limit`, the requested or default sort (`createdAt DESC`) |
| Users.UsersService.FindOne | src/users/users.service.ts:83-91 | the user with that id, or NotFound "User not found" |
| Users.UsersService.ValidatePassword | src/users/users.service.ts:97-99 | true exactly when the hash matches |
| Users.UsersService.UpdatePassword | src/users/users.service.ts:101-106 | a missing id gives NotFound and changes nothing; otherwise only that user's password changes, to the new hash |
| Users.UsersService.Update | src/users/users.service.ts:109-116 | a missing id gives NotFound and changes nothing; otherwise only that row changes, to the patched row |
| Users.UsersService.Remove | src/users/users.service.ts:119-122 | a missing id gives NotFound and changes nothing; otherwise exactly that user is deleted |
| Auth.SessionOf | src/auth/auth.service.ts:64-76 | the token claims and the returned user carry the user's id and role |
| Auth.LoginSucceedsIff | src/auth/auth.service.ts:44-77 | login succeeds exactly for a known, active user with the right password, and returns the user without the password |
| Auth.WrongPasswordLooksUnknown | src/auth/auth.service.ts:47-58 | a wrong password gets the same answer as an unknown email |
| Auth.DeactivatedMeansRightPassword | src/auth/auth.service.ts:56-62 | "Account is deactivated" is only reported after the password was checked right |
| Auth.Invalidated | src/auth/auth.service.ts:100-103 | marking tokens used keeps the same token rows |
| Auth.PurgedKeepsLive | src/auth/auth.service.ts:150-152 | deleting expired tokens keeps exactly the tokens with `expiresAt >= now` |
| Auth.InvalidatedClearsUser | src/auth/auth.service.ts:100-103 | afterwards the user has no unused token; other users' tokens are untouched |
| Auth.AuthService.Register | src/auth/auth.service.ts:23-42 | a taken email gives Conflict and changes nothing; otherwise a new ADMIN user with the hashed password, whatever role was asked for |
| Auth.AuthService.Login | src/auth/auth.service.ts:44-77 | an unknown email gives "Invalid credentials"; otherwise the check chain on the stored user |
| Auth.AuthService.ForgotPassword | src/auth/auth.service.ts:83-122 | an unknown email changes nothing and reveals nothing; a known one invalidates that user's unused tokens and adds one new token valid for an hour, which is then the user's only unused token |
| Auth.AuthService.IssueToken | src/auth/auth.service.ts:96-112 | the bulk update marks every unused token of the user used, and one unused token valid for an hour is saved under the next id; afterwards it is the user's only unused token and unused token values stay distinct |
| Auth.AuthService.ResetPassword | src/auth/auth.service.ts:124-158 | an unknown or used token gives "Invalid or expired reset token", an expired one "Reset token has expired", both changing nothing; success sets the new hash, marks the token used, deletes expired tokens, and the token cannot be reused |
| Auth.AuthService.FindUnused | src/auth/auth.service.ts:126-132 | the row of an unused token with that value, or nothing exactly when there is none |
| Auth.AcceptedAtExpiry | src/auth/auth.service.ts:138 | a token is still accepted at exactly its expiry instant |
| Countries.NewRows | src/countries/countries.service.ts:35-44 | one row per supplied attribute, under consecutive fresh ids, each linked to the country and carrying that attribute's values |
| Countries.ReplacedRows | src/countries/countries.service.ts:88-104 | after replacement the country's rows are exactly the new ones (none for an empty array); other countries' rows are unchanged |
| Countries.CountriesService.Detail | src/countries/countries.service.ts:57-61 | the country with exactly its attribute rows |
| Countries.CountriesService.FindOne | src/countries/countries.service.ts:57-68 | the country with its attributes, or NotFound "Country with ID n not found" |
| Countries.CountriesService.FindByWorldId | src/countries/countries.service.ts:20-22 | the country holding a `countryWorldId`, or nothing exactly when none holds it |
| Countries.CountriesService.Create | src/countries/countries.service.ts:18-48 | a held `countryWorldId` gives Conflict and adds nothing; otherwise one country and one linked row per attribute; `countryWorldId` stays unique |
| Countries.CountriesService.Update | src/countries/countries.service.ts:70-107 | a missing id gives NotFound; a truthy `countryWorldId` held by another country gives Conflict before any write; otherwise the id is renumbered and an attributes array replaces the rows; uniqueness is kept |
| Countries.CountriesService.ReplaceAttributes | src/countries/countries.service.ts:88-104 | the country's rows are deleted and the new ones inserted, and nothing else changes |
| Countries.CountriesService.SaveAttributes | src/countries/countries.service.ts:35-45 | one new attribute row per input under consecutive fresh ids, no row when the list is empty, countries untouched |
| Countries.CountriesService.Remove | src/countries/countries.service.ts:109-112 | a missing id gives NotFound; otherwise the country and its attribute rows are deleted |
| Countries.CountriesService.FindAll | src/countries/countries.service.ts:50-55 | every country with its attributes, ascending by id |
| Countries.Renumbered | src/countries/countries.service.ts:73-83 | an absent or 0 `countryWorldId` keeps the current one; any other requested value replaces it |
| FileUploadUtil.ImageFileFilter | src/common/utils/file-upload.util.ts:30-36 | a rejection is a BadRequest |
| FileUploadUtil.ImageFilterAcceptsExactly | src/common/utils/file-upload.util.ts:15-36 | exactly the four image types pass; any other type gets the message listing them joined by ", " |
| FileUploadUtil.VideoFilterAcceptsExactly | src/common/utils/file-upload.util.ts:16-44 | exactly the four video types pass; any other type gets the message listing them |
| FileUploadUtil.VideoFileFilter | src/common/utils/file-upload.util.ts:38-44 | a rejection is a BadRequest |
| FileUploadUtil.ImageOrVideoFileFilter | src/common/utils/file-upload.util.ts:51-58 | a rejection is BadRequest "Only image/video files are allowed" |
| FileUploadUtil.ImageOrVideoIffEither | src/common/utils/file-upload.util.ts:51-58 | the combined filter accepts exactly what the image or the video filter accepts |
| FileUploadUtil.WhitelistsDisjoint | src/common/utils/file-upload.util.ts:15-16 | no type is on both lists; image types start "image/", video types "video/" |
| FileUploadUtil.MimeComparisonIsCaseSensitive | src/common/utils/file-upload.util.ts:31 | an upper-case spelling of a listed type is refused |
| FileUploadUtil.GetFileUrl | src/common/utils/file-upload.util.ts:60-62 | the URL starts with '/' and is two characters longer than folder and filename together |
| FileUploadUtil.FileUrlSegments | src/common/utils/file-upload.util.ts:60-62 | the URL's '/'-segments are an empty root, the folder's segments, then the filename's |
| FileUploadUtil.FileUrlRecoversParts | src/common/utils/file-upload.util.ts:60-62 | a folder and filename without '/' are recovered from the URL |
| FileUploadUtil.NormalizeFilePath | src/common/utils/file-upload.util.ts:64-66 | same length; each backslash becomes '/', every other character stays |
| FileUploadUtil.NormalizeReplacesOnlyBackslashes | src/common/utils/file-upload.util.ts:64-66 | no backslash is left, and a path without one is unchanged |
| FileUploadUtil.NormalizeIdempotent | src/common/utils/file-upload.util.ts:64-66 | normalising twice is normalising once |
| FileUploadHelper.LastSegment | src/common/utils/file-upload.helper.ts:13 | the base name is a '/'-free suffix of the path |
| FileUploadHelper.Extname | src/common/utils/file-upload.helper.ts:13 | `extname` is empty or a '.' followed by no further '.' or '/' |
| FileUploadHelper.ExtnameOfName | src/common/utils/file-upload.helper.ts:13 | the extension of "x.c" is ".c" |
| FileUploadHelper.ExtOfName | src/common/utils/file-upload.helper.ts:13 | the tested extension of "x.c" is `c` lower-cased, without the dot |
| FileUploadHelper.NoDotNoExtension | src/common/utils/file-upload.helper.ts:13 | a name without '.' has no extension |
| FileUploadHelper.MediaFileFilter | src/common/utils/file-upload.helper.ts:6-29 | a rejection is BadRequest with the images-and-videos message |
| FileUploadHelper.ImageFileFilter | src/common/utils/file-upload.helper.ts:32-51 | a rejection is BadRequest with the images message |
| FileUploadHelper.ImageFilterIsImageHalf | src/common/utils/file-upload.helper.ts:37-41 | the image filter accepts exactly the image half of the media filter's condition |
| FileUploadHelper.MismatchRejected | src/common/utils/file-upload.helper.ts:16-19 | an image-only extension with a video MIME type is rejected, and the reverse |
| FileUploadHelper.UnanchoredExtensionPasses | src/common/utils/file-upload.helper.ts:11-16 | "name.pngx" with an image MIME type passes, because the match is an unanchored substring test |
| FileUploadHelper.UpperCaseExtensionPasses | src/common/utils/file-upload.helper.ts:13 | the extension test ignores case: "name.PNG" passes |
| FileUploadHelper.UpperCaseMimeRejected | src/common/utils/file-upload.helper.ts:16-17 | the MIME prefix test is case-sensitive: "IMAGE/PNG" is refused |
| FileUploadHelper.NoExtensionRejected | src/common/utils/file-upload.helper.ts:13-19 | a name without extension is refused |
| FileUploadHelper.Hex | src/common/utils/file-upload.helper.ts:63 | a digit 0..16 in hexadecimal has one character, two exactly for 16, all of them hexadecimal digits |
| FileUploadHelper.RandomName | src/common/utils/file-upload.helper.ts:61-64 | the random part holds lower-case hexadecimal digits only |
| FileUploadHelper.RandomNameLength | src/common/utils/file-upload.helper.ts:61-64 | the random part has between 16 and 32 characters for 16 draws; exactly 16 iff no draw rounds up to 16, exactly 32 iff every draw does |
| FileUploadHelper.EditFileName | src/common/utils/file-upload.helper.ts:54-66 | the stored name starts with the original name's text before its first '.' (a '.'-free prefix of the name) and "-"; between that and the original extension at its end stand the time in decimal, "-" and the random part, and nothing else |
| FileUploadHelper.EditFileNameDropsMiddle | src/common/utils/file-upload.helper.ts:59-65 | for "a.b.c" the stored name keeps `a` and ".c" and drops the middle part `b` |
| Js.Or | src/common/filters/http-exception.filter.ts:30 | `a \|\| b` is truthy exactly when `a` or `b` is; it is `a` when `a` is truthy, else `b` |
| Js.GetProp | src/common/filters/http-exception.filter.ts:39 | reading a property throws exactly on `null` and `undefined`; otherwise it is `undefined` when the object lacks the key, else the value of the key's first occurrence |
| Js.SetThenLookup | src/common/interceptors/response.interceptor.ts:21-24 | after `{ ...o, key: v }` the key reads `v`, every other property reads as before, and the key set gains only `key` |
| Js.SetTwice | src/common/interceptors/response.interceptor.ts:21-24 | overriding a property twice is overriding it once |
| HttpExceptionFilter.EnvelopeReports | src/common/filters/http-exception.filter.ts:50-57 | the envelope has `success` false, `code`, `message` and `time`, and a `details` key exactly when details were computed |
| HttpExceptionFilter.ErrorFields | src/common/filters/http-exception.filter.ts:52-56 | the `error` object reads back its `code` and `message`, and `details` only when there are details |
| HttpExceptionFilter.DetailOf | src/common/filters/http-exception.filter.ts:34-43 | the callback throws exactly on a `null` or `undefined` element |
| HttpExceptionFilter.Details | src/common/filters/http-exception.filter.ts:34-43 | the `map` fails exactly when some element makes the callback throw; otherwise one entry per element, in order |
| HttpExceptionFilter.AlwaysFailure | src/common/filters/http-exception.filter.ts:13-61 | every written envelope reports failure with the exception's status, 500 for non-HTTP errors |
| HttpExceptionFilter.NonHttpErrors | src/common/filters/http-exception.filter.ts:18-48 | a non-Error value gives 500 "Internal server error"; a plain Error gives 500 with its own message |
| HttpExceptionFilter.StringResponse | src/common/filters/http-exception.filter.ts:22-27 | an HttpException keeps its status and a string response is the message |
| HttpExceptionFilter.ObjectResponse | src/common/filters/http-exception.filter.ts:28-30 | an object response gives `message \|\| error \|\| "Internal server error"`, without details |
| HttpExceptionFilter.DetailFields | src/common/filters/http-exception.filter.ts:35-41 | a string element is reported under "unknown" with itself as message; an object element under `property \|\| field \|\| "unknown"` with the joined constraints, its message, or itself |
| HttpExceptionFilter.ValidationArray | src/common/filters/http-exception.filter.ts:33-44 | an array message gives "Validation failed" with one detail per element, in order, each with its field |
| HttpExceptionFilter.ConstraintDetail | src/common/filters/http-exception.filter.ts:38-41 | a class-validator error is reported under its property with its constraint text |
| HttpExceptionFilter.Catch | src/common/filters/http-exception.filter.ts:13-61 | the filter itself throws exactly for an HttpException whose response is `null`, or whose `message` is an array holding a `null` or `undefined` element; every other exception gives an envelope |
| ResponseInterceptor.Fresh | src/common/interceptors/response.interceptor.ts:28-44 | a new envelope starts with `success: true` and has no `time` of its own |
| ResponseInterceptor.Wrap | src/common/interceptors/response.interceptor.ts:18-45 | every response becomes an object |
| ResponseInterceptor.TimeAlwaysSet | src/common/interceptors/response.interceptor.ts:18-45 | every envelope has `time` = now and a `success` key, true unless the result brought its own |
| ResponseInterceptor.PassthroughKeepsFields | src/common/interceptors/response.interceptor.ts:20-25 | a result with `success` keeps every property except `time`, which becomes now |
| ResponseInterceptor.SuccessTakesPrecedence | src/common/interceptors/response.interceptor.ts:20-28 | an object with its own `success`, `data` and `meta` passes through, keeps its `success` and gets no `message` |
| ResponseInterceptor.PaginatedEnvelope | src/common/interceptors/response.interceptor.ts:28-36 | a `{data, meta}` result lifts both, with its message when truthy, else "Success" |
| ResponseInterceptor.DefaultEnvelope | src/common/interceptors/response.interceptor.ts:39-44 | anything else is wrapped whole as `data` with message "Success" and no `meta` |
| ResponseInterceptor.DataMessageNested | src/common/interceptors/response.interceptor.ts:39-44 | a `{data, message}` result without `meta` is nested whole and its message is not lifted |
| ResponseInterceptor.RewrapRefreshesTime | src/common/interceptors/response.interceptor.ts:20-44 | wrapping an envelope again only refreshes its `time` |

## Left out

- Controllers, modules, guards and bootstrapping are left out. They are HTTP routing and configuration.
- Country reordering and next-order assignment are left out. No service shown implements them: the controller's `reorder` target does not exist, and no service assigns `Attribute.order`.
- The pass-through attribute and world-country services are left out. They add no rules of their own.
- Database ordering: listings return matching rows ascending by id. The order-by clauses of the contact and user listings are computed and returned, but rows are not sorted by them.
- `ILIKE` is an ASCII case-insensitive substring test. `%` and `_` typed by the user are not treated as wildcards, and Postgres collation is ignored.
- Case folding (`toLowerCase`/`toUpperCase`) covers ASCII only. Arabic letters have no case.
- Concurrency: the check-then-insert races in user and country creation, and the non-atomic multi-step saves of country creation and update, are outside the sequential model.
- bcrypt, JWT signing, `crypto.randomBytes`, `Math.random` and the clock are parameters or abstract values:
  - the reset token and the random file-name digits are inputs;
  - `ForgotPassword` requires the new token to differ from every stored token;
  - collisions of random values are not modelled.
- Time is an integer count of milliseconds. `setHours(getHours() + 1)` is taken as exactly one hour later, so daylight-saving jumps are not modelled.
- The interceptor's three-hour clock shift and `toISOString` formatting are left out: the formatted time is the parameter `now`. The filter's own `now` is a parameter too.
- Writing the envelope with `response.status().json()` is I/O and is left out.
- JSON serialisation dropping `undefined` properties is not modelled.
- Numbers are integers, so floating point and `NaN` are absent. `Math.ceil(total / limit)` is an integer ceiling division under `limit >= 1`.
- Pagination.Skip: `page >= 1` and `limit >= 1` are preconditions. The query DTO's validation is not part of this model, so non-positive and fractional pages are not modelled.
- ContactRequests.ContactRequestsService.FindAll: requires page and limit of at least 1, as for `Pagination.Skip`.
- Users.UsersService.FindAll: requires page and limit of at least 1, as for `Pagination.Skip`.
- The `updatedAt` columns maintained by TypeORM are not modelled.
- The user entity, the password-reset token entity, the country DTOs and the pagination query DTO are not part of this model. Their fields appear only as record fields.
- Foreign keys from country attributes to the attribute table are not checked. The order of the loaded `attributes` relation is not modelled: a country's attributes are a map keyed by row id.
- Country deletion removes the country's attribute rows, as the database's cascade does.
- `path.extname` follows the POSIX rules on '/'-separated names. Windows paths are not modelled.
- `createMulterStorage` and the `editFileName` of the util file are left out: they are disk storage plus time and randomness only.
- `Js.Value` objects are their own properties in insertion order. Arrays have no numeric keys and no `length` for `in`, the spread of an array is not modelled, and strings have no properties.
- `Object.values` of a number or boolean gives no values.
- HttpExceptionFilter.Catch: where JavaScript itself would throw a TypeError (a `null` response object, a `null` or `undefined` array element), the model returns `None`. The error that would then propagate is not modelled.
- ContactRequests.SortField: a sort key is not checked against the table's columns. An unknown column such as `foo:asc` gives an order-by clause here, while the database rejects the query when it runs.
- Users.CompareIffHashOf: bcrypt is modelled as an injective, unsalted digest. Salting (two digests of one password differ) and bcrypt's use of only the first 72 bytes of a password are not modelled, so two passwords that share their first 72 bytes are told apart here.
- Auth.LoginSucceedsIff: its second clause, about `Hash`, rests on the digest abstraction of `Users.CompareIffHashOf`; the first clause and the other login lemmas are stated through `Compare`.
- Countries.CountriesService.Update: a new `countryWorldId` is written to the column only. The `countryWorld` relation loaded by `findOne` (src/countries/countries.service.ts:58-60) is saved with the row (:81, :84) and may write the old `country_world_id` back; the model keeps the new value.
- Countries.CountriesService.Update: the foreign key from `country_world_id` to `countries_world` (src/countries/entities/country.entity.ts:13-14) is not checked, so any world id is accepted.
- Countries.CountriesService.Create: the foreign key from `country_world_id` to `countries_world` (src/countries/entities/country.entity.ts:13-14) is not checked, so any world id is accepted.
- Auth.AuthService.IssueToken: requires the new token to differ from every stored token. `crypto.randomBytes(32)` makes a repeat unlikely, not impossible; what happens on a repeat is not modelled.
- Auth.AuthService.ResetPassword: the expiry test and the purge each read the clock (src/auth/auth.service.ts:138 and :151). The model uses one `now` for both, so a token that expires between the two reads is not modelled.
- Strings are sequences of Unicode scalar values, while JavaScript strings are sequences of UTF-16 code units. Lengths and indices differ for characters outside the Basic Multilingual Plane; every character the code names (ASCII, Arabic letters, tashkeel) is one code unit.
