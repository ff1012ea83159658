# Scam checker core, in Dafny

A model of the deterministic core of a Streamlit scam and phishing checker
(`streamlit_app.py`). The core has three parts:

- **URL scoring** (`check_url_safety`). A URL starts at 100 points. It loses
  30 if the scheme or netloc is missing, 20 if it is not https, and 25 if the
  netloc matches one of three suspicious regular expressions (at most once).
  It loses 15 if the certificate cannot be checked and 40 if it has expired.
  The score is clamped at 0. Each deduction comes with a Japanese warning. An
  exception from `urlparse` gives score 0 with a single error warning.
  Module `UrlSafety`: the method `CheckUrlSafety` is proved against the
  specification function `Assess`.
- **Score bands** of the URL tab: green from 80, yellow from 60, red below
  60. These are `UrlSafety.BandOf` and its lemmas.
- **Contact extraction** (`extract_contacts_from_text`). It collects the
  findall matches of six phone patterns, one e-mail pattern and one URL
  pattern. Each category appears only when it found something, with its
  matches de-duplicated. Module `Contacts`: the method `ExtractContacts` keeps
  the phone loop.

Both the scorer and the extractor rest on Python's `re` module. Module
`Regex` models the fragment of it that the program uses: literal
characters, character classes with `{lo,hi}` repetition, and `\b`. It has a
greedy backtracking matcher (`MatchAt`), `re.search` (`Search`) and
`re.findall` (`FindAll`). The matcher is proved sound and complete against a
declarative relation `Matches`. All eleven regular expressions of the
program are written out as `Pattern` values, character for character.

`urlparse`, the TLS connection and the clock are inputs:

- a `Parse` is the scheme and netloc, or the exception's text;
- a `CertProbe` is either `Unreachable` or the certificate's `notAfter`;
- `now` is the current time, on the same time line as `notAfter`.

## Model

| member | source | states |
|---|---|---|
| UrlSafety.CheckUrlSafety | streamlit_app.py:26-75 | The running score and warning list built step by step, with the suspicious-pattern loop stopping at the first hit, equal the specified assessment; the score is within 0..100 |
| UrlSafety.Assess | streamlit_app.py:26-75 | The score is within 0..100; for a URL that parsed it is 100 minus what its warnings cost, clamped at 0; when urlparse raised it is 0 with only the error warning carrying the exception text |
| UrlSafety.SuspiciousLoopExit | streamlit_app.py:50-54 | The loop over the three patterns leaves early, at the first pattern found, exactly when the netloc is suspicious |
| UrlSafety.DeductionPerWarning | streamlit_app.py:34-69 | For a URL that parsed, the unclamped score is 100 minus the sum of the points of the warnings issued (30, 20, 25, 15, 40) |
| UrlSafety.TotalDeductionAppend | streamlit_app.py:34-69 | The points lost to a list of warnings add up over concatenation |
| UrlSafety.WarningsOrdered | streamlit_app.py:34-69 | Warnings appear in the order the checks run: format, https, domain, certificate; each kind at most once, so at most four |
| UrlSafety.SuspiciousAtMostOnce | streamlit_app.py:44-54 | The suspicious-domain warning appears at most once, and it appears exactly when some suspicious pattern occurs in the netloc |
| UrlSafety.MissingSchemeLosesBoth | streamlit_app.py:34-41 | A URL without a scheme gets the invalid-format and the not-https warnings, first and second, so its score is at most 50 |
| UrlSafety.CertificateOutcome | streamlit_app.py:57-69 | The unavailable warning is issued iff the probe fails, the expired warning iff notAfter is strictly before now; they cost 15 and 40 points, and a valid certificate costs nothing |
| UrlSafety.CleanExactly | streamlit_app.py:28-75 | The result is (100, no warnings) iff the URL parses, is https with a netloc, matches no suspicious pattern, and its certificate has not expired |
| UrlSafety.ParseFailureResult | streamlit_app.py:71-75 | When urlparse raises, the score is 0 and the only warning is the error message carrying the exception text |
| UrlSafety.WorstCaseClampsToZero | streamlit_app.py:34-75 | A schemeless URL with a suspicious netloc and an expired certificate loses 30 + 20 + 25 + 40 = 115 points, reaches -15 and is reported as 0 |
| UrlSafety.MessageInjective | streamlit_app.py:35-72 | Distinct warnings have distinct message texts, so the list shown to the user determines the warnings |
| UrlSafety.SuspiciousHostSpec | streamlit_app.py:44-51 | A netloc is suspicious iff it holds four dot-separated non-empty ASCII digit runs, three hyphen-joined non-empty lower-case alphanumeric labels followed by a dot, or eight ASCII digits in a row |
| UrlSafety.DottedQuadSpec | streamlit_app.py:45 | `[0-9]+\.[0-9]+\.[0-9]+\.[0-9]+` is found in a string iff four non-empty ASCII digit runs separated by single dots occur in it, of any lengths |
| UrlSafety.DottedQuadSplit | streamlit_app.py:45 | A match of the IPv4-like pattern consists of four non-empty digit runs with dots between them, ending at the match's end |
| UrlSafety.DottedQuadBuild | streamlit_app.py:45 | Four non-empty digit runs with dots between them match the IPv4-like pattern |
| UrlSafety.HyphenatedSpec | streamlit_app.py:46 | `[a-z0-9]+-[a-z0-9]+-[a-z0-9]+\.` is found in a string iff three non-empty lower-case alphanumeric labels joined by hyphens and followed by a dot occur in it |
| UrlSafety.HyphenatedSplit | streamlit_app.py:46 | A match of the hyphen pattern consists of three non-empty labels, two hyphens and a final dot, ending just after the dot |
| UrlSafety.HyphenatedBuild | streamlit_app.py:46 | Three non-empty labels joined by hyphens and followed by a dot match the hyphen pattern |
| UrlSafety.LongDigitRunSpec | streamlit_app.py:47 | `[0-9]{8,}` is found in a string iff eight ASCII digits stand in a row somewhere in it |
| UrlSafety.PrivateAddressSuspicious | streamlit_app.py:45 | The netloc 192.168.0.1, with groups of three, three, one and one digits, is suspicious |
| UrlSafety.PhishingHostSuspicious | streamlit_app.py:46 | The netloc secure-login-page.com, with multi-letter labels, is suspicious |
| UrlSafety.PlainHttpUnreachable | streamlit_app.py:26-75 | An http URL with an unsuspicious netloc whose certificate cannot be checked scores 65 (yellow) with the not-https and certificate warnings |
| UrlSafety.PlainHttpIpAddress | streamlit_app.py:26-75 | An http URL whose netloc holds four dot-separated digit runs of any lengths, and whose certificate cannot be checked, scores 40 (red) with three warnings, the suspicious one only once |
| UrlSafety.BandOf | streamlit_app.py:152-157 | Green iff the score is at least 80; red iff it is below 60; yellow otherwise |
| UrlSafety.BandMonotone | streamlit_app.py:152-157 | A higher score never gets a more severe band |
| UrlSafety.BandOfAssessment | streamlit_app.py:146-157 | A parse failure is red; otherwise the URL is green iff it lost at most 20 points, and red iff it lost more than 40 |
| Contacts.ExtractContacts | streamlit_app.py:88-119 | A category key is present iff its patterns found something; its value has no duplicates and holds exactly the matches found |
| Contacts.PutEntry | streamlit_app.py:106-117 | One `if found: contacts[key] = list(set(found))` step makes that key's entry right (present iff something was found, holding the de-duplicated matches) and leaves the other keys as they were |
| Contacts.EntriesComplete | streamlit_app.py:88-119 | Right entries for the three keys make the whole dictionary right |
| Contacts.Dedup | streamlit_app.py:107 | `list(set(...))`: no duplicates, and exactly the same elements as the input |
| Contacts.AllMatchesUnion | streamlit_app.py:102-104 | A string is among the concatenated findall results iff one of the patterns found it |
| Contacts.AllMatchesSingle | streamlit_app.py:110-117 | A category with a single pattern finds exactly what that pattern's findall returns |
| Contacts.PhonesAreUnion | streamlit_app.py:93-107 | A phone value is one that one of the six phone patterns found |
| Contacts.FoundAreMatches | streamlit_app.py:93-117 | Every reported value is a substring of the text that one of its category's patterns matches |
| Contacts.PhoneValuesShape | streamlit_app.py:93-100 | Every phone value starts with 0 or with +81 |
| Contacts.MatchStartsWith | streamlit_app.py:93-100 | The text of a match of a pattern that starts with a literal starts with that literal |
| Contacts.PhonePrefix | streamlit_app.py:93-100 | Each of the six phone patterns starts with a literal prefix beginning with 0, or with +81 |
| Contacts.EmailSplit | streamlit_app.py:110 | A match of the e-mail pattern is a word-boundary-delimited address: a non-empty local part of `[A-Za-z0-9._%+-]`, an @, a non-empty domain of `[A-Za-z0-9.-]`, a dot and at least two letters of `[A-Z\|a-z]` |
| Contacts.EmailBuild | streamlit_app.py:110 | Every address laid out that way, between word boundaries, matches the e-mail pattern |
| Contacts.EmailValuesShape | streamlit_app.py:110-112 | Every e-mail value is such an address, standing at word boundaries of the text |
| Contacts.UrlValuesShape | streamlit_app.py:115-117 | Every URL value starts with http:// or https://, has something after it, contains no whitespace, and runs on to the next whitespace character or the end of the text |
| Contacts.UrlMatchEnds | streamlit_app.py:115 | The greedy URL match at a position ends at whitespace or at the end of the text |
| Contacts.UrlMatchShape | streamlit_app.py:115 | A match of `https?://[^\s]+` starts with http:// or https:// and contains no whitespace |
| Contacts.SchemeOfSlice | streamlit_app.py:115 | The http:// or https:// prefix at a match's start is the prefix of the returned substring |
| Contacts.HttpsSpelled | streamlit_app.py:115 | `http`, the optional `s` taken, and `://` spell `https://` |
| Contacts.UrlMatchParts | streamlit_app.py:115 | A match of the URL pattern consists of its literal prefix, an optional s, the `://` separator and at least one non-space character |
| Contacts.UrlPatternSpelled | streamlit_app.py:115 | The URL pattern is the literal `http`, an optional `s`, the literal `://` and the non-space run |
| Contacts.MobileIntro | streamlit_app.py:97-99 | Text shaped `0x0-dddd-dddd` matches the corresponding mobile pattern |
| Contacts.MobileMatchLength | streamlit_app.py:97-99 | Every match of a mobile pattern is exactly 13 characters long |
| Contacts.GroupsLength | streamlit_app.py:97-99 | `\d{4}-\d{4}` matches exactly nine characters |
| Contacts.MobileFound | streamlit_app.py:97-107 | A 090 number with no 0 before it in the text is among the phone values |
| Contacts.NoUrlWithoutH | streamlit_app.py:115-117 | A text without the letter h yields no URL values |
| Contacts.SampleMessage | streamlit_app.py:88-119 | The message "call 090-1234-5678 or email foo@bar.com" yields a phone value 090-1234-5678 and no URL value |
| Contacts.SampleNumberAt | streamlit_app.py:97 | The sample message holds a 090 number at position 5, with no 0 before it |
| Contacts.SampleHasNoH | streamlit_app.py:115 | The sample message has no letter h, so the URL pattern cannot start anywhere in it |
| Regex.MatchAt | streamlit_app.py:51 | A match found at a position ends between that position and the end of the text |
| Regex.MatchAtSound | streamlit_app.py:51 | Whatever the backtracking matcher returns is a match of the pattern |
| Regex.MatchAtComplete | streamlit_app.py:51 | If the pattern matches at a position, the matcher finds a match there |
| Regex.BacktrackSound | streamlit_app.py:51 | Trying repetition counts from the largest down returns only ends of genuine matches |
| Regex.BacktrackFinds | streamlit_app.py:51 | If some allowed repetition count lets the rest match, backtracking finds a match |
| Regex.MatchAtMaximal | streamlit_app.py:115 | A match of a pattern ending in a greedy unbounded run stops at the end of the text or at a character outside the run's class |
| Regex.BacktrackMaximal | streamlit_app.py:115 | The same for the backtracking step over repetition counts |
| Regex.RunLength | streamlit_app.py:51 | The longest run of class characters at a position: all in the class, and the next character is not |
| Regex.Search | streamlit_app.py:51 | `re.search` succeeds iff the matcher succeeds at some start |
| Regex.SearchFromScan | streamlit_app.py:51 | The scan from a position succeeds iff the matcher succeeds at some start at or after it |
| Regex.SearchSpec | streamlit_app.py:51 | `re.search` succeeds iff some substring matches the pattern |
| Regex.SearchFound | streamlit_app.py:51 | A match anywhere makes `re.search` succeed |
| Regex.SearchFromSound | streamlit_app.py:51 | A successful search from a position has a matching start at or after it |
| Regex.SearchFromFinds | streamlit_app.py:51 | A matching start at or after a position makes the search from it succeed |
| Regex.FindAll | streamlit_app.py:104 | `re.findall` returns nothing iff the matcher fails at every start |
| Regex.FindAllFromEmpty | streamlit_app.py:104 | The scan from a position returns nothing iff the matcher fails at every start at or after it |
| Regex.FindAllSound | streamlit_app.py:104 | Every string `re.findall` returns is a substring of the text that the pattern matches |
| Regex.FindAllFromSound | streamlit_app.py:104 | Every string the scan returns is the matcher's result at some start at or after the scan position |
| Regex.FindAllFromReaches | streamlit_app.py:104 | The first start where the pattern matches contributes its match to `re.findall` |
| Regex.FindAllFromMissingChar | streamlit_app.py:115 | A pattern that begins with a character absent from the text finds nothing |
| Regex.RepeatIntro | streamlit_app.py:45-47 | A run of class characters whose length is within the bounds, followed by a match of the rest, matches the repetition |
| Regex.RepeatElim | streamlit_app.py:45-47 | A match of a repetition splits into an allowed run of class characters and a match of the rest |
| Regex.RunSepIntro | streamlit_app.py:45-46 | A non-empty class run, a separator character and a match of the rest match `cls+` followed by the separator and the rest |
| Regex.RunSepElim | streamlit_app.py:45-46 | A match of `cls+` then a separator splits at the separator into a non-empty class run and a match of the rest |
| Regex.CharElim | streamlit_app.py:94-99 | A match of a literal character starts with that character and continues with a match of the rest |
| Regex.LitsIntro | streamlit_app.py:115 | The literal text followed by a match of the rest matches the literal pattern |
| Regex.LitsElim | streamlit_app.py:115 | A match of a literal pattern starts with that literal text |
| Regex.MatchesEnd | streamlit_app.py:51 | A match ends between its start and the end of the text |

## Left out

- The Streamlit user interface, the Gemini calls (`analyze_with_gemini`), image and OCR handling, and every tab except the URL score display are not modelled.
- `urlparse` is not modelled. The scorer receives the scheme and netloc it would produce, or the text of the exception it raised. Its lower-casing of the scheme and its other parsing rules are outside the model.
- The TLS connection is not modelled: its timeout, the handshake, and parsing `notAfter` with `strptime`. Any failure among them is the input `Unreachable`. The certificate's expiry and the current time are integers on one time line, so time zones and formats are not modelled.
- UrlSafety.CertificateOutcome: `ssl.create_default_context()` verifies the certificate during `wrap_socket` (streamlit_app.py:58-60), so an expired certificate normally raises there and costs the 15 points of the unavailable branch. The 40-point expired branch (streamlit_app.py:64-66) is reached only when the naive UTC `notAfter` lies behind the naive local `datetime.now()` although the handshake accepted it, which happens within the UTC offset of a host east of Greenwich (up to nine hours in Japan). The model's free input `Retrieved(notAfter)` admits more than this: it lets any retrieved certificate be expired.
- UrlSafety.CheckUrlSafety: an exception raised after the expired-certificate warning has been appended (for instance while the socket closes) would add the unavailable warning as well. The model does not capture this, because it treats a retrieved certificate as a finished probe.
- `str(e)` of an exception is taken as given: `ParseFailed` carries the text directly.
- Regex: `\d` is approximated as ASCII and full-width digits, not every Unicode decimal digit. `\s` is Python's whitespace set for characters. The `\w` test inside `\b` is exact on ASCII and approximated by Unicode blocks elsewhere.
- Regex: only the constructs the program's patterns use are modelled. Alternation, groups, anchors, lazy quantifiers and flags are left out.
- The pattern constants (`SuspiciousPatterns`, `PhonePatterns`, `EmailPattern`, `UrlPattern`) have no contract of their own; what each one matches is stated by `SuspiciousHostSpec` with the three per-pattern lemmas, `PhonePrefix`, `EmailSplit` and `EmailBuild`, and `UrlPatternSpelled`.
- The character class `[A-Z|a-z]` of the e-mail pattern also admits the character `|`. The model keeps it as written.
- Contacts.UrlValuesShape: the URL pattern `https?://[^\s]+` takes everything up to the next whitespace, so punctuation or Japanese text written right after a URL becomes part of the value. The model keeps this, and the lemma states it.
- Contacts.Dedup: `list(set(...))` leaves the order to Python's set. The model keeps first occurrences, and its contract promises only no duplicates and the same elements, not an order.
- Contacts.ExtractContacts: the dictionary keys 電話番号, メールアドレス and URL are the constructors `Phone`, `Email` and `Web`. The insertion order of the dictionary is not modelled.
- Contacts.SampleMessage: the sample message's e-mail value is not derived. Matching the e-mail pattern against it is left unproved, so only the phone and URL parts of that example are stated.
