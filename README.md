# Keyword oracle request script, modelled in Dafny

The request script `app-request.js` runs inside an oracle runtime. It reads a
social-media handle and a comma-separated keyword list from its positional
arguments (`args[2]`, `args[3]`). It refuses an empty API key. It asks the
Mainline API for the account's recent tweets and collects the `tweet` field
of every record. It then sets the flag `keywordsFound` when some tweet,
lower-cased, includes some keyword, also lower-cased. That flag is the
script's return value, passed through `Functions.encodeUint256`.

The model has four modules:

- `Wrappers` (`wrappers.dfy`): `Option` for a variable that is never assigned, and `Result` for a thrown exception.
- `Text` (`text.dfy`): the JavaScript string operations the script uses. These are `split(",")`, ASCII `toLowerCase`, and `includes`. Split is proved against `join(",")`, includes against a substring existential, and `toLowerCase` by a property contract that fixes its result. An ASCII `toUpperCase` is there only as a sanity check of the case-change relation; the script never upper-cases.
- `AppRequest` (`app_request.dfy`): the script itself. Lines 1-4 become the function `ParseHandle`. The push loop of lines 30-37 becomes the method `ExtractTweets`. The filter of lines 42-44 becomes the function `FilterMatching`. The flag loop of lines 40-48 becomes the method `KeywordsFound`. Line 50 becomes `FlagValue`. The whole script becomes the method `Run`, which is proved equal to the ghost function `Expected`. `Expected` states the outcome with the existential `AnyMatch` in place of the loops.
- `AppRequestProperties` (`properties.dfy`): lemmas about `Expected` and `AnyMatch`. They cover order independence, the monotone flag, case insensitivity, empty keywords, error ordering, and four worked examples.

The HTTP call is a parameter. `Run` takes the response as an input. Its outcome has two parts. The first is the request the script sent (URL and `X-Api-Key` header value), or none when it threw before line 23. The second is the number it returned or the exception it threw. A throw at line 43 therefore still records the request sent at lines 23-26.

The model follows the code, including where it may surprise a reader:

- A handle without a leading `@` is never assigned. The template literal then renders it as `undefined`, so `"abc"` is requested as `.../handle/undefined`, not as `.../handle/abc` (`HandleTargets`).
- The header is named `X-Api-Key` in the code.
- A record whose `tweet` is not a string is not skipped. It is pushed as it is, and `toLowerCase` throws on it at line 43. `split` always yields at least one keyword, so the filter always runs (`ScenarioMalformedRecord`).
- Lines 31 and 33 name `mainlineRequest` and `data`, which are never declared. See "## Findings". The rest of the model uses `mainlineResponse.error` and `mainlineResponse.data[i].tweet`.

Everything is a function of its inputs, so running the script twice on the same arguments, secrets and response gives the same output.

## Model

| member | source | states |
|---|---|---|
| `AppRequest.ParseHandle` | app-request.js:1-4 | a handle exists iff `args[2]` starts with `@`, and then `args[2]` is `@` followed by the handle: exactly one `@` is removed |
| `AppRequestProperties.HandleExamples` | app-request.js:1-4 | `"@@kol"` gives `"@kol"`, `"@"` gives the empty handle, `"kol"` and `""` leave it unassigned |
| `AppRequest.BuildRequest` | app-request.js:23-26 | the URL is the endpoint followed by the handle, or by `undefined` when the handle is unassigned; the only header is `X-Api-Key`, carrying `secrets.apiKey` when present and `undefined` otherwise |
| `AppRequestProperties.DistinctHandlesDistinctUrls` | app-request.js:24 | two different assigned handles are requested at two different URLs |
| `AppRequestProperties.UnassignedHandleAsksForUndefined` | app-request.js:1-24 | an argument without a leading `@` is requested at the same URL as the account `@undefined` |
| `AppRequestProperties.HandleTargets` | app-request.js:1-26 | `"@abc"` is requested at the endpoint plus `abc`, `"abc"` at the endpoint plus `undefined`, and the two URLs differ |
| `Text.Split` | app-request.js:6 | `split(",")` yields at least one piece, no piece contains a comma, and joining the pieces with commas gives back the argument |
| `Text.SplitJoin` | app-request.js:6 | splitting the comma-join of any non-empty list of comma-free pieces returns that list |
| `Text.SplitUnique` | app-request.js:6 | the pieces of `split(",")` are the only non-empty, comma-free list whose join is the argument |
| `AppRequestProperties.SplitExamples` | app-request.js:6 | `""` splits to `[""]`, `"a,,b"` to `["a","","b"]`, `","` to `["",""]` |
| `AppRequestProperties.DoubleCommaGivesEmptyPiece` | app-request.js:6 | two adjacent commas in the argument produce an empty keyword |
| `AppRequestProperties.SentExactlyPastChecks` | app-request.js:1-26 | a request is sent iff both arguments are present and the key check passes; the one sent is always the request built from `args[2]` and the secrets; when none is sent, the script threw |
| `AppRequest.ApiKeyEmpty` | app-request.js:8 | the check fails exactly when the `X-Api-Key` header would carry the empty string; an absent key passes it, since `undefined == ""` is false |
| `AppRequestProperties.EmptyApiKeyThrowsFirst` | app-request.js:8-10 | with the arguments present, an empty `secrets.apiKey` throws the API-key error whatever the response, and no request is sent |
| `AppRequest.TweetsAsWritten` | app-request.js:30-37 | as written, the block always throws, with a ReferenceError for `mainlineRequest` |
| `AppRequest.TweetFields` | app-request.js:32-33 | one tweet per record, and tweet `i` is the `tweet` field of record `i` |
| `AppRequest.TweetsOf` | app-request.js:30-37 | the closed form of the block: with no error flag, the tweets have the length of `data` and `tweets[i]` is `data[i].tweet`; with the error flag set, there are none |
| `AppRequest.ExtractTweets` | app-request.js:30-37 | with no error flag, the tweets have the length of `data` and `tweets[i]` is `data[i].tweet`, in order; with the error flag set, there are no tweets |
| `AppRequestProperties.AsWrittenAlwaysThrows` | app-request.js:31-33 | on the well-formed response with one tweet "gm", the written code throws while the intended code collects `["gm"]` |
| `Text.LowerStr` | app-request.js:43 | `toLowerCase` keeps the length, leaves no upper-case letter, leaves every other character where it was, and only changes the case of each character |
| `Text.LowerIdempotent` | app-request.js:43 | lower-casing an already lower-cased string changes nothing |
| `Text.CaseChangeSameLower` | app-request.js:43 | strings that differ by any ASCII case change have the same lower-case form |
| `Text.UpperLowerAreCaseChanges` | app-request.js:43 | sanity check of the case-change relation used by the lemmas about line 43: upper-casing and lower-casing a whole string are both case changes |
| `Text.Includes` | app-request.js:43 | `includes` is true exactly when the needle occurs at some offset of the haystack, in both directions; so the empty needle is in every string |
| `AppRequest.FilterMatching` | app-request.js:42-44 | the filter throws iff some tweet is not a string; otherwise a string is kept iff it is one of the tweets and mentions the keyword, and the result is non-empty iff some tweet mentions the keyword |
| `AppRequest.KeywordsFound` | app-request.js:40-48 | the loop throws iff there is a keyword and a non-string tweet; otherwise the flag is true iff some keyword is mentioned by some tweet (invariant: true iff so among the first `i` keywords) |
| `AppRequest.AnyMatchStep` | app-request.js:45-47 | a match among the first `i+1` keywords is a match among the first `i` or a tweet mentioning keyword `i`: the flag is only ever raised |
| `AppRequestProperties.NoTweetsNoMatch` | app-request.js:40-48 | with no tweets the flag is false for any keywords |
| `AppRequestProperties.AnyMatchAppend` | app-request.js:40-48 | the flag over two concatenated keyword lists is the disjunction of their flags |
| `AppRequestProperties.KeywordOrderIrrelevant` | app-request.js:40-48 | two keyword lists with the same elements give the same flag, whatever their order or repetition |
| `AppRequestProperties.EmptyKeywordMatches` | app-request.js:42-44 | an empty keyword matches as soon as one tweet is a string |
| `AppRequestProperties.MatchSameLower` | app-request.js:43 | keyword and tweet lists that agree once lower-cased carry a match over |
| `AppRequestProperties.CaseInsensitive` | app-request.js:43 | any ASCII case change of any keyword and any tweet changes neither the flag nor whether the filter throws |
| `AppRequestProperties.SplitCaseChange` | app-request.js:6 | a case change of the keyword argument is a piece-by-piece case change of its split |
| `AppRequestProperties.ScriptCaseInsensitive` | app-request.js:6-50 | the script's outcome is unchanged by an ASCII case change of the keyword argument and of the tweets |
| `AppRequest.FlagValue` | app-request.js:50 | the encoded number is at most 1, and it is 1 iff keywords were found |
| `AppRequestProperties.FlagRoundTrip` | app-request.js:50 | sanity check only, not in the script: reading the number as nonzero gives back the flag |
| `AppRequest.Run` | app-request.js:1-50 | the script throws for a missing `args[2]`, then for a missing `args[3]`, then for an empty API key, none of these three sends a request; past them the built request is sent, and then the script throws for a non-string tweet or returns `FlagValue(AnyMatch(split keywords, tweets))`, as `Expected` states |
| `AppRequestProperties.ExpectedOnWellFormedInput` | app-request.js:23-50 | past the argument and key checks, with string tweets only, the script sends the built request and returns the flag of `AnyMatch` |
| `AppRequestProperties.ErrorResponseGivesZero` | app-request.js:30-50 | a response with its error flag set gives result 0 and no exception |
| `AppRequestProperties.DoubleCommaMatchesAnyTweet` | app-request.js:6-48 | a keyword argument with two adjacent commas gives result 1 for every non-empty list of string tweets |
| `AppRequestProperties.ScenarioMatch` | app-request.js:1-50 | `@kol1`, `"airdrop,launch"`, tweets "Big AIRDROP today!" and "gm": URL ends in `kol1`, result 1 |
| `AppRequestProperties.ScenarioNoMatch` | app-request.js:1-50 | `kol2`, `"moon"`, tweets "gm" and "wagmi": URL ends in `undefined`, result 0 |
| `AppRequestProperties.ScenarioRemoteError` | app-request.js:1-50 | `kol3`, `"x,y"`, a response with the error flag set: result 0, nothing thrown |
| `AppRequestProperties.ScenarioMalformedRecord` | app-request.js:30-48 | a record whose `tweet` is not a string, among valid ones, makes the script throw after it has sent the request for `kol4` |

## Left out

- `tasks/Functions-app/1_deployCommunityEngine.js` is not part of this model. It is deployment orchestration over the Hardhat toolchain: compiling, deploying, waiting for confirmations, and block-explorer verification.
- `Functions.makeHttpRequest` (lines 23-26) is not modelled: no transport, no 10-second timeout, no failure behaviour. The response is an input of `Run`, and the sent request is part of its outcome.
- `console.log` diagnostics (lines 28 and 36) are not modelled: they do not affect the result.
- The byte layout of `Functions.encodeUint256` (line 50) is not modelled, because that library is not shown. The script passes it a raw boolean. The model assumes the boolean is read as the number 0 or 1 (`FlagValue`).
- `Text.LowerStr`: only ASCII letters are case-folded. JavaScript's `toLowerCase` also folds non-ASCII letters, and a few of them change the string's length. The case-insensitivity lemmas cover ASCII case changes only.
- A response whose `data` is not an array, when the error flag is clear, is not modelled: `Response.data` is always a sequence. In the script a missing or `null` `data` makes `data.length` throw a TypeError; a number or an object has an undefined length, so the loop at line 32 runs zero times; a string runs the loop over its characters and pushes an `undefined` tweet for each.
- A non-string `tweet` stands for every other JavaScript value (missing, `null`, a number, an object) as one case, `NonString`. None of them has `toLowerCase`. A record that is itself `null` or `undefined` in `data` throws a TypeError already at line 33 (`data[i].tweet`); the model can only show it as `Post(NonString)`, which throws later with `TweetNotString`, so the outcome is still a throw but with a different error.
- `args` and `secrets` are parameters rather than ambient globals. Argument values are strings.

## Findings

| source | as written | input that shows it | evidently intended | confidence | as-written member | corrected member |
|---|---|---|---|---|---|---|
| app-request.js:31-33 | the condition reads `mainlineRequest.error` and the loop reads `data[i]`; neither identifier is declared, so line 31 throws a ReferenceError | any arguments that pass lines 1-10, with the response `{error: false, data: [{tweet: "gm"}]}` | read `mainlineResponse.error` and `mainlineResponse.data[i].tweet`, the response fetched at line 23 | high; not executed | `AppRequest.TweetsAsWritten`, `AppRequestProperties.AsWrittenAlwaysThrows` | `AppRequest.ExtractTweets`, `AppRequest.TweetsOf` |
