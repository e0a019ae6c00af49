# CommunityLearn: login attempt guard and keyword functions

A Dafny model of two small cores of CommunityLearn.

**The brute-force guard of the login route** (`CommunityLearn/frontend/src/App.js`,
an Express server). An in-memory map from e-mail to a failure count and the
time of the last failure locks an account after five failures for fifteen
minutes. The login route checks the fields, then the lock, then the
credentials. A failure is recorded and a success clears the record. The
e-mail and password validators sit next to it.

**The word functions of the AI service** (`CommunityLearn/ai-service/ai_service.py`,
a Flask service):
- `preprocess_text` and `extract_keywords`;
- the grouping of keywords into at most two topics in `extract_topics`;
- the missing-keyword difference in `grade_answer`.

Files:

| file | module | contents |
|---|---|---|
| results.dfy | `Results` | `Option`, `Result` |
| text.dfy | `Text` | Python `str.isspace`, `lower()` (ASCII), `split()`, `' '.join` and their round trip |
| keywords.dfy | `Keywords` | stop words, candidate filter, first-occurrence dedup, `s[:k]`, `extract_keywords` |
| preprocess.dfy | `Preprocess` | `strip`, the two `re.sub` calls, `preprocess_text` |
| topics.dfy | `Topics` | topic grouping and the `extract-topics` result |
| grading.dfy | `Grading` | missing keywords and the `grade-answer` error path |
| validation.dfy | `Validation` | `isValidEmail` as a direct check equal to the regular expression, `isStrongPassword` with UTF-16 length |
| login_guard.dfy | `LoginGuard` | `isAccountLocked`, `recordFailedLogin`, `resetLoginAttempts`, remaining-attempts hint |
| login_route.dfy | `LoginRoute` | the login route over the guard, runs of requests, the case-sensitivity finding |

Modelling choices:
- The map is a value. Each guard operation returns the new map.
- `Date.now()` becomes the parameter `now`, in milliseconds.
- The user lookup and the bcrypt comparison arrive together as one `CredentialCheck` verdict in the request.
- The model follows the code where it departs from what its own comments suggest:
  - The route's comment at App.js:193 says the user lookup uses a "case-insensitive email". The lockout map, however, is keyed by the e-mail string exactly as sent, so the guard is case-sensitive (see Findings).
  - A record below five failures never expires. Failures of any age add up (`LoginRoute.FailuresAccumulate`); only a record at the threshold is dropped once fifteen minutes have passed.

## Model

| member | source | states |
|---|---|---|
| LoginGuard.IsAccountLocked | CommunityLearn/frontend/src/App.js:55-71 | locked exactly when a record exists with count at least 5 and less than fifteen minutes since the last failure; an expired record at the threshold is deleted, nothing else changes |
| LoginGuard.LockCheckIdempotent | CommunityLearn/frontend/src/App.js:56-71 | a second lock check at the same time returns the same answer and map |
| LoginGuard.RecordFailedLogin | CommunityLearn/frontend/src/App.js:73-79 | the record becomes (previous count or 0) + 1 at time `now`; the key set gains the e-mail; other keys untouched |
| LoginGuard.ResetLoginAttempts | CommunityLearn/frontend/src/App.js:81-84 | the e-mail's record is gone, every other record is untouched |
| LoginGuard.ResetUnlocks | CommunityLearn/frontend/src/App.js:56-84 | after a reset the account is not locked and the check leaves the map alone |
| LoginGuard.AttemptsRemaining | CommunityLearn/frontend/src/App.js:211-216 | the hint is 5 minus the count, floored at 0: zero exactly at the threshold, 5 without a record |
| LoginGuard.RemainingZeroIffLocked | CommunityLearn/frontend/src/App.js:209-216 | right after a failure the hint is 0 exactly when the account is locked |
| LoginGuard.KeysIndependent | CommunityLearn/frontend/src/App.js:56-84 | operations on one e-mail never change the lock state or hint of another |
| LoginRoute.LoginResponse.Status | CommunityLearn/frontend/src/App.js:183-236 | the route answers 400, 429, 401 or Express's default 200, and only a successful login is outside the 4xx range |
| LoginRoute.Login | CommunityLearn/frontend/src/App.js:177-221 | 400 exactly when a field is empty; 429 exactly when locked; otherwise a failure records (restarting at one after an expired lock) and a success clears; the hint appears only for a wrong password |
| LoginRoute.LockedIgnoresCredentials | CommunityLearn/frontend/src/App.js:186-191 | the lock check comes before the credentials: a locked request is refused identically whatever the lookup would say, and the map is unchanged |
| LoginRoute.LoginPreservesBound | CommunityLearn/frontend/src/App.js:56-79 | every stored count stays between 1 and 5 after any request, with any clock value |
| LoginRoute.Run | CommunityLearn/frontend/src/App.js:177-221 | requests are handled one after another; no requests leave the map as it was, and a key appears or disappears only if some request names that e-mail |
| LoginRoute.RunPreservesBound | CommunityLearn/frontend/src/App.js:177-221 | the 1..5 bound holds after any sequence of requests |
| LoginRoute.RunOthersUnchanged | CommunityLearn/frontend/src/App.js:56-84 | requests for other e-mails never touch an e-mail's record |
| LoginRoute.FailuresAccumulate | CommunityLearn/frontend/src/App.js:74-79 | up to five consecutive failures from no record leave count = number of failures and the time of the last, whatever the gaps between them |
| LoginRoute.FewFailuresDoNotLock | CommunityLearn/frontend/src/App.js:15 | fewer than five failures never lock and the hint is 5 minus the failures |
| LoginRoute.FiveFailuresLock | CommunityLearn/frontend/src/App.js:14-16 | after five failures the account is locked exactly until fifteen minutes after the last, and the hint is 0 |
| LoginRoute.LockoutBypassedByCase | CommunityLearn/frontend/src/App.js:187-197 | with "a@x.com" locked, "A@x.com" with the right password logs in |
| LoginRoute.LoginCaseInsensitive | CommunityLearn/frontend/src/App.js:193-197 | corrected route: refused exactly when the lower-cased e-mail is locked; every new key is lower-case |
| LoginRoute.SpellingDoesNotMatter | CommunityLearn/frontend/src/App.js:193-197 | in the corrected route, two spellings that lower-case alike get the same outcome and map |
| LoginRoute.LoginCaseInsensitivePreservesBound | CommunityLearn/frontend/src/App.js:56-79 | the corrected route keeps counts within 1..5 |
| Validation.IsJsSpace | CommunityLearn/frontend/src/App.js:88 | `\s` of the regular expression: on ASCII exactly tab, newline, vertical tab, form feed, carriage return and space |
| Validation.IndexOf | CommunityLearn/frontend/src/App.js:88 | finds the first occurrence of a character, or none exactly when it is absent |
| Validation.IsValidEmail | CommunityLearn/frontend/src/App.js:87-90 | an accepted address has at least five characters, contains `@` and `.`, has no JavaScript whitespace, and has exactly one `@` |
| Validation.IsValidEmailMatchesPattern | CommunityLearn/frontend/src/App.js:86-90 | the direct check accepts exactly the strings `^[^\s@]+@[^\s@]+\.[^\s@]+$` matches |
| Validation.Utf16Length | CommunityLearn/frontend/src/App.js:94 | JavaScript `length` is the code point count plus the number of characters above U+FFFF, so it lies between the count and twice it |
| Validation.IsStrongPassword | CommunityLearn/frontend/src/App.js:93-95 | strong exactly when the code point count plus the number of characters above U+FFFF is at least six |
| Validation.StrongPasswordByLength | CommunityLearn/frontend/src/App.js:93-95 | six code points always pass, fewer than three never do, and on text without characters above U+FFFF the test is exactly "at least six" |
| Text.IsPySpace | CommunityLearn/ai-service/ai_service.py:25 | on ASCII, exactly tab, newline, vertical tab, form feed, carriage return, the four separators U+001C to U+001F, and space; whitespace is never a word character |
| Text.LowerChar | CommunityLearn/ai-service/ai_service.py:23 | each upper-case ASCII letter maps to the lower-case letter at the same alphabet position; the result is never an upper-case letter; whitespace stays whitespace; other characters are unchanged |
| Text.Lower | CommunityLearn/ai-service/ai_service.py:30 | same length, character by character lower-cased, result lower-case |
| Text.LowerFixesExactlyLowercase | CommunityLearn/ai-service/ai_service.py:30 | lower-casing leaves a string unchanged exactly when it is already lower-case |
| Text.DropSpaces | CommunityLearn/ai-service/ai_service.py:23 | the result is a suffix, everything dropped is whitespace, and it does not start with whitespace |
| Text.TakeWord | CommunityLearn/ai-service/ai_service.py:30 | the longest whitespace-free prefix |
| Text.Words | CommunityLearn/ai-service/ai_service.py:30 | every piece `split()` returns is non-empty and free of whitespace; there are none exactly when the text is all whitespace |
| Text.WordsSkipsLeadingSpace | CommunityLearn/ai-service/ai_service.py:30 | a leading whitespace character does not change the split |
| Text.WordsDropSpaces | CommunityLearn/ai-service/ai_service.py:30 | dropping all leading whitespace does not change the split |
| Text.WordsBlankPrefix | CommunityLearn/ai-service/ai_service.py:30 | whitespace of any length in front does not change the split |
| Text.WordsBlankSuffix | CommunityLearn/ai-service/ai_service.py:30 | whitespace of any length behind does not change the split |
| Text.WordsOfWord | CommunityLearn/ai-service/ai_service.py:30 | a single word splits into itself |
| Text.NonSpaceChars | CommunityLearn/ai-service/ai_service.py:25 | reference definition, not a model of the line: the non-whitespace characters of a text, in order, against which the whitespace substitution is measured; its contract only bounds the length and excludes whitespace |
| Text.NonSpaceCharsAppend | CommunityLearn/ai-service/ai_service.py:25 | reference definition: taking the non-whitespace characters distributes over concatenation |
| Text.Join | CommunityLearn/ai-service/ai_service.py:335 | joining no words gives the empty string, one word gives that word, and otherwise the result starts with the first word and ends with the last |
| Text.JoinAppend | CommunityLearn/ai-service/ai_service.py:335 | exactly one separator stands between the joins of two non-empty lists; with the one-word case this determines the join |
| Text.WordsOfLowercase | CommunityLearn/ai-service/ai_service.py:30 | splitting lower-case text gives lower-case words |
| Text.WordsOfWordThen | CommunityLearn/ai-service/ai_service.py:30 | a word followed by whitespace or the end splits off as the first piece |
| Text.SplitJoin | CommunityLearn/ai-service/ai_service.py:335 | joining words with single spaces and splitting again gives back the words |
| Keywords.FirstIndex | CommunityLearn/ai-service/ai_service.py:37-40 | the position of the first occurrence |
| Keywords.Candidates | CommunityLearn/ai-service/ai_service.py:32-33 | a word is kept exactly when it occurs and is neither a stop word nor shorter than four characters |
| Keywords.Unique | CommunityLearn/ai-service/ai_service.py:35-40 | same elements, no repeats, in order of first occurrence |
| Keywords.CandidatesKeepOrder | CommunityLearn/ai-service/ai_service.py:33 | filtering keeps the relative order of first occurrences |
| Keywords.PyPrefix | CommunityLearn/ai-service/ai_service.py:41 | `s[:k]` has length min(k, len) for k ≥ 0 and len + k floored at 0 for negative k, and is a prefix |
| Keywords.KeywordListPrefix | CommunityLearn/ai-service/ai_service.py:41 | a prefix of a keyword list is a keyword list |
| Keywords.AllKeywordsFacts | CommunityLearn/ai-service/ai_service.py:30-40 | the deduplicated candidates are exactly the candidate words of the text, distinct, lower-case, in order of first occurrence |
| Keywords.ExtractKeywords | CommunityLearn/ai-service/ai_service.py:28-41 | at most `top_k` distinct candidate words of the lower-cased text in first-occurrence order, a prefix of all of them, and all of them when fewer than `top_k` are returned |
| Keywords.DedupKeywords | CommunityLearn/ai-service/ai_service.py:35-40 | the loop with a `seen` set computes the first-occurrence list |
| Preprocess.DropTrailingSpaces | CommunityLearn/ai-service/ai_service.py:23 | the result is a prefix, everything dropped is whitespace, and it does not end in whitespace |
| Preprocess.Strip | CommunityLearn/ai-service/ai_service.py:23 | `strip()` is the slice between the leading and trailing whitespace and starts and ends with non-whitespace |
| Preprocess.StripIdempotent | CommunityLearn/ai-service/ai_service.py:23 | stripping twice equals stripping once |
| Preprocess.RemovePunctuation | CommunityLearn/ai-service/ai_service.py:24 | exactly the word and whitespace characters survive, and text made only of them is unchanged; a single character is kept or dropped on its own |
| Preprocess.RemovePunctuationAppend | CommunityLearn/ai-service/ai_service.py:24 | removal distributes over concatenation, so what is kept stays in its original order |
| Preprocess.WordChars | CommunityLearn/ai-service/ai_service.py:24 | reference definition, not a model of the line: the word characters of a text, in order, against which punctuation removal is measured; its contract only bounds the length |
| Preprocess.RemovePunctuationKeepsWords | CommunityLearn/ai-service/ai_service.py:24 | the non-whitespace characters left by removal are exactly the word characters of the input, in order |
| Preprocess.StripParts | CommunityLearn/ai-service/ai_service.py:23 | the input is its strip with a blank prefix in front and a blank suffix behind |
| Preprocess.StripKeepsWordChars | CommunityLearn/ai-service/ai_service.py:23 | stripping removes whitespace only: the word characters are the same, in order |
| Preprocess.CollapseSpaces | CommunityLearn/ai-service/ai_service.py:25 | empty exactly when the input is; starts and ends as the input does, whitespace read as a space; the only whitespace left is single plain spaces; other characters come from the input |
| Preprocess.CollapseSpacesWordThen | CommunityLearn/ai-service/ai_service.py:25 | a leading run without whitespace passes through unchanged |
| Preprocess.CollapseSpacesKeepsWords | CommunityLearn/ai-service/ai_service.py:25 | each whitespace run becomes one space in the same place: the text splits into the same words before and after |
| Preprocess.CollapseSpacesKeepsNonSpace | CommunityLearn/ai-service/ai_service.py:25 | collapsing keeps every non-whitespace character, in order |
| Preprocess.CollapseSpacesFixes | CommunityLearn/ai-service/ai_service.py:25 | text with only single plain spaces is left unchanged |
| Preprocess.CollapseSpacesIdempotent | CommunityLearn/ai-service/ai_service.py:25 | collapsing twice equals collapsing once |
| Preprocess.PreprocessText | CommunityLearn/ai-service/ai_service.py:21-26 | the output holds only lower-case word characters and single plain spaces |
| Preprocess.PreprocessKeepsWordBoundaries | CommunityLearn/ai-service/ai_service.py:21-26 | the output splits into exactly the words of the lower-cased input with its punctuation removed |
| Preprocess.RemovePunctuationFramed | CommunityLearn/ai-service/ai_service.py:23-24 | whitespace around a text survives punctuation removal unchanged |
| Preprocess.PreprocessKeepsWords | CommunityLearn/ai-service/ai_service.py:21-26 | the non-space characters of the output are exactly the word characters of the lower-cased input, in order |
| Preprocess.CleanIsLowercase | CommunityLearn/ai-service/ai_service.py:21-26 | clean text is lower-case |
| Preprocess.CleanIsKept | CommunityLearn/ai-service/ai_service.py:24-25 | punctuation removal leaves clean text alone, and its only whitespace is the plain space |
| Preprocess.StripKeepsClean | CommunityLearn/ai-service/ai_service.py:23 | stripping clean text keeps it clean |
| Preprocess.CleanSlice | CommunityLearn/ai-service/ai_service.py:21-26 | any slice of clean text is clean |
| Preprocess.CleanPreprocessesToStrip | CommunityLearn/ai-service/ai_service.py:21-26 | on clean text `preprocess_text` only strips |
| Preprocess.PreprocessTwice | CommunityLearn/ai-service/ai_service.py:21-26 | a second pass equals stripping the first pass's output |
| Preprocess.PreprocessNotIdempotent | CommunityLearn/ai-service/ai_service.py:21-26 | "! a" becomes " a", which becomes "a": the order strip-then-remove can leave an edge space |
| Topics.GroupTopics | CommunityLearn/ai-service/ai_service.py:331-344 | no topic below three keywords, one below six, else two; three keywords each, confidence 80 then 60 |
| Topics.GroupTopicsTiles | CommunityLearn/ai-service/ai_service.py:331-344 | the topics' keyword lists laid end to end are a prefix of the keyword list |
| Topics.TopicOfSlice | CommunityLearn/ai-service/ai_service.py:335-336 | a topic name splits back into the topic's keywords |
| Topics.TopicsDisjoint | CommunityLearn/ai-service/ai_service.py:339-344 | over a repeat-free keyword list the two topics share no keyword |
| Topics.ExtractTopics | CommunityLearn/ai-service/ai_service.py:318-349 | error exactly for empty text; at most ten keywords and two topics; topic words are candidate words of the text; names split back into keywords; the topics are disjoint; the topics are exactly the grouping of the returned keywords |
| Grading.Without | CommunityLearn/ai-service/ai_service.py:166 | exactly the entries not excluded, repeat-free when the input is, empty exactly when everything is excluded; a single entry is kept exactly when it is not excluded |
| Grading.WithoutAppend | CommunityLearn/ai-service/ai_service.py:166 | the difference distributes over concatenation, so the remaining entries keep their order |
| Grading.MissingKeywords | CommunityLearn/ai-service/ai_service.py:163-175 | exactly the model-answer keywords the student answer lacks, empty exactly when the student covers them all, at most five, no repeats |
| Grading.TruncationKeepsAll | CommunityLearn/ai-service/ai_service.py:164-175 | the `[:5]` cut never drops a missing keyword |
| Grading.NothingMissingFromSameAnswer | CommunityLearn/ai-service/ai_service.py:164-166 | grading an answer against itself misses nothing |
| Grading.GradeAnswerKeywords | CommunityLearn/ai-service/ai_service.py:127-132 | error exactly when either answer is empty, else the missing keywords |

## Left out

- Express and Flask routing, JSON bodies and the `try`/`catch` 500 paths: transport, not logic.
- The SQL user lookup, bcrypt and the JWT token: external services. Their verdict is the `credentials` field of a request.
- The registration route and every other endpoint: outside the guard and the word functions.
- `Date.now()`: the clock is the `now` parameter. Two reads inside `recordFailedLogin` are taken as one instant.
- LoginRoute.Login: uses one `now` for the lock check's clock read (App.js:61) and for the failure record's reads (App.js:75-77). In the route those happen after the awaited user lookup and bcrypt comparison (App.js:194, App.js:207), so a later time could be recorded; the model does not promise anything about that gap.
- Concurrency between requests sharing the map: requests are handled one after another (`LoginRoute.Run`).
- Embeddings, cosine similarity, the score bands and `round`: floating point and a neural model.
- The `suggestions` text of `grade_answer`: it joins the first three missing keywords in Python's unspecified set order.
- Grading.MissingKeywords: Python set order is unspecified, so the model lists missing keywords in model-answer order and its contract speaks only of contents, count and distinctness.
- Text.Lower: models `str.lower()` on ASCII letters only; other cased letters are left as they are.
- Preprocess.RemovePunctuation: `\w` is modelled as ASCII letters, digits and underscore; Unicode letters and digits count as punctuation here.
- LoginRoute.LoginCaseInsensitive: lower-cases with the ASCII `Lower`, while SQL `LOWER` is Unicode-aware.
- Non-string inputs (a JSON number for `email`, a missing `text` key giving `''`): the model takes strings, and a missing key is the empty string.

## Findings

| source | as written | input that shows it | evidently intended | confidence | as-written member | corrected member |
|---|---|---|---|---|---|---|
| CommunityLearn/frontend/src/App.js:187-200 | the lockout map is keyed by the e-mail exactly as typed, while the user lookup compares `LOWER(email)` | lock "a@x.com" with five failures, then log in as "A@x.com": the lock is not seen and the password is checked | one failure counter per account, whatever the case of the typed e-mail | not executed | LoginRoute.LockoutBypassedByCase | LoginRoute.SpellingDoesNotMatter |
