# SEC investor scraper: a Dafny model of its record logic

The scraper builds a list of investment firms from SEC EDGAR and enriches
each record with its contact details and a category. This project models the
deterministic core of `sec_scraper.py` and proves properties of it:

- the sliding-window rate limiter (`_rate_limit`)
- the keyword filter over the company listing, with its early exit (`get_investment_advisers`)
- the 13F feed handling (`get_recent_13f_filers`): entries are cut out of the Atom text, at most `limit` of them are examined, each yields a holder only when both a title and a `CIK=` digit run are found, and the title loses its form-type suffix through two regular-expression substitutions
- CIK zero-padding, JSON value reading and address assembly (`get_adviser_details`)
- the ordered keyword classifier (`classify_investor_type`)
- the first-match state-code extractor (`extract_state`)
- in `main`: the merge of advisers and holders through a set of seen CIKs, then the enrichment loop

Modules, one per concern:

| file | module | contents |
|---|---|---|
| strings.dfy | `Strings` | Python's `strip`, ASCII `lower`, substring search, `Option`, subsequences |
| records.dfy | `Records` | the company row and the investor record (a field per dictionary key) |
| rate_limit.dfy | `RateLimit` | one limiter call over an abstract clock, and a run of many calls |
| classifier.dfy | `Classifier` | the six keyword rules and the default label |
| states.dfy | `StateCodes` | the 51 codes and the three patterns |
| advisers.dfy | `AdviserSearch` | the keyword filter with its limit |
| filings.dfy | `FilingFeed` | entry extraction, title and CIK search, title cleanup, the entry loop |
| details.dfy | `AdviserDetails` | `zfill`, JSON `null` versus absent keys, the address, the details record |
| pipeline.dfy | `Pipeline` | the merge, one enrichment step, the enrichment loop and the whole run |

Modelling choices:

- **Regular expressions.** Each is an explicit string function that follows Python's `re` for that one pattern: the leftmost match, greedy and lazy repetition, `.` not matching a newline (except under `re.DOTALL`, as in `Entries`), and `$` matching at the end or before a final newline.
- **Whitespace and case.** `strip` and `\s` use the full set of characters for which Python's `str.isspace` is true. `lower` is ASCII-only (see Left out).
- **Clock.** The limiter's clock is abstract. `now` is the reading at the start of a call, and the recorded reading is `now + slept + overrun` with `overrun >= 0`.
- **Network and JSON.** Fetched data are parameters. The company listing is a sequence, the 13F feed is a status and a body, and each details reply is a decoded submissions document or a failure.
- **Missing versus null.** A JSON value is `Absent`, `Null` or `Present`, because the program's `dict.get(key, '')` treats the first two differently.
- **Record fields.** The record's `type` key is the field `category`. A record field holding `None` stands for a key that is missing or holds Python's `None`. `dict.get(key, '')` does tell these apart: it gives `''` for a missing key and `None` for a `None` value. But each place the program reads such a key collapses the two. The SIC description reaches the classifier, which maps a `None` to `''` through `if sic_desc else ''` (sec_scraper.py:228). The state is tested with `not investor.get('state')` (sec_scraper.py:328). The address is a string whenever the key is present (sec_scraper.py:212), so `investor.get('address', '')` (sec_scraper.py:329) never meets a `None`.

## Model

| member | source | states |
|---|---|---|
| RateLimit.Prune | sec_scraper.py:44 | A time is kept exactly when it was in the list and lies less than a second before `now`; the list never grows. |
| RateLimit.RateLimit | sec_scraper.py:39-54 | After a call the list holds the times of the last second before `now` followed by one new reading no earlier than `now`. |
| RateLimit.WaitIffFull | sec_scraper.py:46-51 | With times not after `now`, a call sleeps exactly when ten or more admissions lie within the last second, and sleeps between 0 and 1 second. |
| RateLimit.PruneIsSuffix | sec_scraper.py:44 | On sorted times, pruning keeps a suffix: everything before the cut is at least a second old, everything after is recent. |
| RateLimit.PruneDropsOld | sec_scraper.py:44 | Times at least a second old in front of the list make no difference to the pruned result. |
| RateLimit.RetainedBound | sec_scraper.py:44-54 | In a spaced, sorted history at most ten times are retained. |
| RateLimit.AdmitKeepsSpacing | sec_scraper.py:39-54 | Appending the recorded reading keeps the history sorted, and any two admissions ten places apart stay at least a second apart. |
| RateLimit.RecentBelowCeiling | sec_scraper.py:39-54 | In such a history every admission finds fewer than ten earlier admissions within the second before it, so no one-second window holds more than ten. |
| RateLimit.ListAgreesWithHistory | sec_scraper.py:44-54 | The limiter's short list prunes to the same times as the whole history of admissions would. |
| RateLimit.StampLatest | sec_scraper.py:47-54 | The recorded reading is no earlier than `now` nor than any earlier admission. |
| RateLimit.ListIsRecentSuffix | sec_scraper.py:44-54 | On a sorted history, the list after a call is a suffix of the extended history, and the admissions it lacks are at least a second older than the new reading. |
| RateLimit.TracksAfter | sec_scraper.py:39-54 | From a sorted, spaced history, the list after a call is linked to the extended history by the tracking invariant. |
| RateLimit.StepTracks | sec_scraper.py:39-54 | One call preserves the invariant linking the limiter's list to the history: a suffix whose missing front is at least a second old. |
| RateLimit.GapBetween | sec_scraper.py:39-54 | When each admission waits for its own call's gap after the previous one, the first admission is at least one gap after the start and each later one at least its gap after its predecessor. |
| RateLimit.FollowsStep | sec_scraper.py:39-54 | Admitting the next call no earlier than one gap after the latest admission keeps every admission at least its gap after its predecessor. |
| RateLimit.SimStep | sec_scraper.py:39-54 | One call admitted from a state where the short list is the recent suffix of a sorted, spaced history leaves the history sorted and spaced, with the list again its recent suffix, the latest admission last and every admission at least its gap after its predecessor. |
| RateLimit.Simulate | sec_scraper.py:39-54 | Over any sequence of calls with a non-decreasing clock, the recorded admissions are sorted, spaced, each is at least its call's gap after the previous one, and each has fewer than ten predecessors in its last second. |
| Classifier.Combined | sec_scraper.py:227-229 | The text the rules test: the lower-cased name, a space, the lower-cased description. Its meaning is stated by `Classifier.Classify` and `Classifier.ClassifyIgnoresCase`, which show that the label depends only on the lower-cased inputs. |
| Classifier.ClassifyText | sec_scraper.py:231-255 | The six tests on the combined text always return one of the seven labels. |
| Classifier.Classify | sec_scraper.py:225-255 | The result is always one of the seven labels. |
| Classifier.ClassifyIsFirstMatch | sec_scraper.py:225-255 | The label is that of the first rule, in program order, with a keyword in the combined text; "Other Institutional" exactly when no rule fires. |
| Classifier.ClassifyIsFirstFiringRule | sec_scraper.py:225-255 | The hand-written chain of tests equals reading the rule table in order. |
| Classifier.ClassifyIgnoresCase | sec_scraper.py:227-229 | Names and descriptions with the same lower-case forms get the same label. |
| Classifier.FamilyRuleComesFirst | sec_scraper.py:231-237 | "Acme Family Trust Ventures" is a family office, since that rule precedes the venture rule. |
| StateCodes.Mentions | sec_scraper.py:268-270 | The three spellings a code may take in an address. `StateCodes.FindFrom` and `StateCodes.ExtractState` state that the extracted code is the first code in list order mentioned this way, and `StateCodes.FirstCodeExample`, `StateCodes.WordAfterNone` and `StateCodes.LeadingCodeMissed` pin it on concrete addresses. |
| StateCodes.FindFrom | sec_scraper.py:267-270 | The index found is the first code of the list, from `k` on, that the address mentions; none means no code from `k` on is mentioned. |
| StateCodes.ExtractState | sec_scraper.py:257-272 | An empty address gives nothing; otherwise the result is the first listed code the address mentions, and nothing exactly when none is mentioned. |
| StateCodes.CodesAreTwoLetters | sec_scraper.py:262-266 | Every code in the list is two upper-case letters. |
| StateCodes.ExtractedIsKnownCode | sec_scraper.py:261-272 | Any extracted value is one of the 51 codes and is mentioned in the address. |
| StateCodes.FirstCodeExample | sec_scraper.py:267-270 | "1 Commerce St, Montgomery, AL 36104" yields "AL". |
| StateCodes.ListOrderWins | sec_scraper.py:268-270 | Codes are tried in list order, not text order: "PO Box 1, Juneau, AK 99801, Mobile, AL" mentions AK first and still yields AL. |
| StateCodes.WordAfterNone | sec_scraper.py:268-270 | "None AL 1, Boston,  02110" yields AL, which stands there as a separate word. |
| StateCodes.LeadingCodeMissed | sec_scraper.py:268-270 | "AL 1, Boston,  02110" does not yield AL: a code at the very start has neither a space nor a comma in front of it. |
| AdviserSearch.IsAdviserName | sec_scraper.py:105 | The keyword test on the lower-cased name. `AdviserSearch.Matching` and `AdviserSearch.MatchingComplete` state that the matches are exactly the companies passing it, in listing order. |
| AdviserSearch.Matching | sec_scraper.py:101-105 | There are no more matches than companies, and each match's lower-cased name holds a keyword. |
| AdviserSearch.MatchingInOrder | sec_scraper.py:101-105 | The matches form an order-preserving subsequence of the listing. |
| AdviserSearch.ToAdviser | sec_scraper.py:106-112 | An adviser record keeps the company's CIK and name and carries no filing type. |
| AdviserSearch.SelectAdvisers | sec_scraper.py:99-116 | The loop returns the records of the first `max(limit, 1)` matching companies, or of all of them when fewer match. |
| AdviserSearch.SelectionStops | sec_scraper.py:101-116 | Whether the scan stops at the end of the listing or after keeping `max(limit, 1)` advisers, it has kept the first matches up to that count. |
| AdviserSearch.SelectionBounded | sec_scraper.py:105-116 | At most `max(limit, 1)` advisers are kept, and each carries a matching name. |
| AdviserSearch.SelectionComplete | sec_scraper.py:101-116 | When fewer than `limit` advisers are kept, every matching company of the listing is among them. |
| AdviserSearch.SelectionInListingOrder | sec_scraper.py:101-116 | The advisers are the records of an order-preserving subsequence of the listing. |
| AdviserSearch.MatchingComplete | sec_scraper.py:101-105 | Every company with a matching name is among the matches. |
| FilingFeed.Entries | sec_scraper.py:162 | The non-overlapping, lazily closed `<entry>` blocks of the feed. `FilingFeed.EntriesOfFeed`, `FilingFeed.EntriesInside`, `FilingFeed.EntriesDelimited`, `FilingFeed.EntriesLazy` and `FilingFeed.EntriesNone` state what it yields. |
| FilingFeed.EntryAt | sec_scraper.py:162 | The entry at any index stands between `<entry>` and `</entry>` in the feed text and holds no `</entry>` of its own. |
| FilingFeed.EntriesInside | sec_scraper.py:162 | Every string the scan returns stands between `<entry>` and `</entry>` in the feed text and holds no `</entry>` of its own. |
| FilingFeed.EntriesSplit | sec_scraper.py:162 | Text with an entry splits into its first entry, delimited in the text and free of `</entry>`, followed by the entries of a strictly shorter text that lies inside the original one. |
| FilingFeed.EntriesNone | sec_scraper.py:162 | A text without `<entry>` has no entries. |
| FilingFeed.OpenFound | sec_scraper.py:162 | After text free of `<entry>`, the scan finds the `<entry>` placed there and resumes right after it. |
| FilingFeed.CloseFound | sec_scraper.py:162 | After a body free of `</entry>`, the lazy `.*?` stops at the `</entry>` placed there, and the scan resumes right after it. |
| FilingFeed.EntriesCons | sec_scraper.py:162 | Text free of `<entry>`, then a block `<entry>e</entry>` with no `</entry>` in `e`, then more text: the entries are `e` followed by the entries of the remaining text. |
| FilingFeed.FeedStep | sec_scraper.py:162 | One more block in front of a feed adds its body in front of the entries. |
| FilingFeed.BlockInFront | sec_scraper.py:162 | A block `<entry>…</entry>` whose body holds no `</entry>`, in front of text whose entries are known, adds exactly its body in front of them. |
| FilingFeed.EntriesOfFeed | sec_scraper.py:162 | For bodies without `</entry>`, the entries of the concatenated blocks are exactly those bodies, all of them and in order. |
| FilingFeed.EntriesDelimited | sec_scraper.py:162 | Every extracted entry stands between `<entry>` and `</entry>` in the feed text. |
| FilingFeed.EntriesLazy | sec_scraper.py:162 | No extracted entry contains a `</entry>` of its own. |
| FilingFeed.TitleAt | sec_scraper.py:166 | At a given `<title`, the capture is exactly the text of a match of the title pattern, and there is none when no match starts there. |
| FilingFeed.TitleFrom | sec_scraper.py:166 | The search returns the capture of the leftmost match at or after the start position, and nothing only when no match exists there. |
| FilingFeed.TitleOf | sec_scraper.py:166 | A found title is the capture of the leftmost match of the pattern, so it is non-empty and holds no `<`; no title exactly when the pattern matches nowhere. |
| FilingFeed.CikFrom | sec_scraper.py:167 | The search returns the whole digit run after the first `CIK=` at or after the start that is followed by a digit; nothing only when there is no such `CIK=`. |
| FilingFeed.CikOf | sec_scraper.py:167 | A found CIK is the whole digit run after the entry's first `CIK=` that is followed by a digit, so a non-empty digit string following `CIK=`; none exactly when no `CIK=` is followed by a digit. |
| FilingFeed.CleanTitle | sec_scraper.py:170-179 | The cleaned name has no leading or trailing whitespace. |
| FilingFeed.StripParenSuffix | sec_scraper.py:174 | The result is a prefix of the title. `FilingFeed.SubstitutionsNeedFormType` and `FilingFeed.CleanTitleDropsParenNote` state when it removes a parenthesised note. |
| FilingFeed.StripBareSuffix | sec_scraper.py:175 | The bare form-type substitution. `FilingFeed.BareSuffixRemovesFormType` and `FilingFeed.SubstitutionsNeedFormType` state that it changes a title only when the title holds the form type, and that on a single line nothing of the form type survives it. |
| FilingFeed.SubstitutionsNeedFormType | sec_scraper.py:174-175 | Neither substitution changes a string without `13F-HR`. |
| FilingFeed.BareSuffixRemovesFormType | sec_scraper.py:175 | On a single line, the second substitution leaves no `13F-HR`. |
| FilingFeed.CleanTitleDropsFormType | sec_scraper.py:170-179 | A single-line title's cleaned name contains no `13F-HR`. |
| FilingFeed.CleanTitleOnlyStrips | sec_scraper.py:170-179 | A title without `13F-HR` is only stripped of surrounding whitespace. |
| FilingFeed.CleanTitleDropsParenNote | sec_scraper.py:174-179 | A name without `(` or `13F-HR`, followed by a single-line ` (13F-HR…)` note and spaces, cleans to the name. |
| FilingFeed.CleanTitleExample | sec_scraper.py:174-179 | "Acme Capital Partners (13F-HR) " cleans to "Acme Capital Partners". |
| FilingFeed.SliceTo | sec_scraper.py:164 | `entries[:limit]` is a prefix of length `min(limit, n)` for `limit >= 0`, and `max(n + limit, 0)` for a negative `limit`. |
| FilingFeed.HolderOf | sec_scraper.py:166-183 | An entry yields a holder exactly when both its title and its CIK are found; the holder carries that CIK and the cleaned title. |
| FilingFeed.Holders | sec_scraper.py:164-183 | There are no more holders than entries, and every holder has a digit CIK, the form type `13F-HR` and a stripped name. |
| FilingFeed.HoldersAppend | sec_scraper.py:164-183 | The holders of two runs of entries are those of the first run followed by those of the second. |
| FilingFeed.HoldersOne | sec_scraper.py:166-183 | A single entry contributes its holder when both patterns match and nothing otherwise, so there is one holder per such entry, in entry order. |
| FilingFeed.HoldersComplete | sec_scraper.py:169-183 | Each entry that yields a holder has that holder among the holders. |
| FilingFeed.HolderSource | sec_scraper.py:169-183 | Each holder is the holder of some entry. |
| FilingFeed.HoldersExactlyMatched | sec_scraper.py:169-183 | Every entry with both a title and a CIK is represented among the holders, and every holder comes from such an entry. |
| FilingFeed.Recent13FFilers | sec_scraper.py:139-190 | A failed request or a status other than 200 gives no holders; otherwise every holder is well formed, and a non-negative `limit` bounds their number. |
| FilingFeed.HoldersFromFirstEntries | sec_scraper.py:164-183 | Only the first `limit` entries are examined: holders come from them, and each of them with a title and a CIK yields its holder. |
| AdviserDetails.ZFill | sec_scraper.py:199 | The padded string has length `max(n, width)`; it ends with the original and is zeros in front, after any leading sign. |
| AdviserDetails.ZFillKeepsValue | sec_scraper.py:199 | Padding a digit string keeps it a digit string denoting the same number. |
| AdviserDetails.ZFillIdempotent | sec_scraper.py:199 | Padding twice to the same width pads once. |
| AdviserDetails.DetailUrl | sec_scraper.py:199-200 | The document address for a CIK. `AdviserDetails.PaddedInUrl` and `AdviserDetails.DetailUrlIdentifiesCik` state that short CIKs appear padded to ten digits and that two such CIKs share a URL exactly when they denote the same number. |
| AdviserDetails.PaddedInUrl | sec_scraper.py:199-200 | A CIK of at most ten characters is padded to exactly ten, which stand right after the URL's fixed prefix. |
| AdviserDetails.DetailUrlIdentifiesCik | sec_scraper.py:199-200 | CIKs of at most ten digits give the same document URL exactly when they denote the same number. |
| AdviserDetails.GetText | sec_scraper.py:212-217 | `.get(key, '')` gives the default for an absent key, nothing for a null, the value otherwise. |
| AdviserDetails.BusinessOf | sec_scraper.py:208-212 | The business entry is unreadable exactly when `addresses` or `business` is null: a null `addresses` makes the `.get` at line 209 raise, and a null `business` makes the first `business.get` at line 212 raise. |
| AdviserDetails.AddressAsWritten | sec_scraper.py:212 | The program's address has no surrounding whitespace. |
| AdviserDetails.NullStreetPrintsNone | sec_scraper.py:212 | With a null `street2`, the program builds "1 Main St None, Boston, MA 02110". |
| AdviserDetails.Address | sec_scraper.py:212 | The intended address has no surrounding whitespace. |
| AdviserDetails.AddressIgnoresNulls | sec_scraper.py:212 | The intended address treats a null part like an absent one, and agrees with the program's whenever no part is null. |
| AdviserDetails.NullStreetLeavesGap | sec_scraper.py:212 | With a null `street2`, the intended address is "1 Main St , Boston, MA 02110". |
| AdviserDetails.LineMentionsCode | sec_scraper.py:212 | The stripped address line contains ", " followed by the state part whenever that part does not end in whitespace. |
| AdviserDetails.StateAfterComma | sec_scraper.py:212 | Both the program's address and the intended one hold ", " followed by a state part that does not end in whitespace. |
| AdviserDetails.MentionedAfterComma | sec_scraper.py:257-272 | A listed code found after a comma is mentioned, so some state is extracted. |
| AdviserDetails.NullLeadPrintsNone | sec_scraper.py:212 | With a null `street1` and `street2` "AL 1", the program builds "None AL 1, Boston,  02110". |
| AdviserDetails.NullLeadStartsWithCode | sec_scraper.py:212 | For the same entry the intended address is "AL 1, Boston,  02110". |
| AdviserDetails.NullPartShiftsState | sec_scraper.py:268-270 | For that entry the state extracted from the program's address is AL, and from the intended address it is not AL. |
| AdviserDetails.AddressMentionsState | sec_scraper.py:212 | When the document's state is one of the 51 codes, both the address the program builds and the intended one mention it after a comma, so a state can always be extracted from either. |
| AdviserDetails.DetailsOf | sec_scraper.py:211-218 | The details record carries the intended address, which treats a null part like an absent one and equals the program's whenever no part is null; it holds no state or SIC description exactly when the document has a null there. |
| AdviserDetails.GetAdviserDetails | sec_scraper.py:192-223 | Details exist exactly for a 200 reply with a JSON object whose `addresses` and `business` are not null; the address is stripped, is the intended address of the business entry, and is the program's whenever no part is null. |
| Pipeline.Dedup | sec_scraper.py:293-306 | No more records are kept than given, and none of their CIKs was already seen. |
| Pipeline.DedupShape | sec_scraper.py:293-306 | The kept records form a subsequence of the input with pairwise distinct CIKs. |
| Pipeline.DedupKeepsEveryCik | sec_scraper.py:293-306 | A CIK survives exactly when it occurs in the input and was not seen before. |
| Pipeline.DedupKeepsFirst | sec_scraper.py:293-306 | Every surviving record is the first record of the input with its CIK. |
| Pipeline.DedupAppend | sec_scraper.py:293-306 | Filtering advisers then holders equals filtering the advisers, then the holders against the advisers' CIKs as well. |
| Pipeline.DedupDistinct | sec_scraper.py:293-306 | Records with distinct, unseen CIKs all survive unchanged. |
| Pipeline.KeepFirst | sec_scraper.py:293-296 | One loop over a list, with a running result and set of seen CIKs, appends the first-occurrence filter of the list against those CIKs and adds every CIK of the list to the set. |
| Pipeline.Merge | sec_scraper.py:285-306 | The two loops sharing `seen_ciks` compute the first-occurrence filter of the advisers followed by the holders. |
| Pipeline.MergeProperties | sec_scraper.py:285-306 | The merged CIKs are pairwise distinct, every CIK of either source appears, each carried by its first record, in source order, with the advisers first. |
| Pipeline.MergeFront | sec_scraper.py:293-306 | The merged list starts with the filtered advisers, followed by the holders whose CIK no adviser has. |
| Pipeline.MergeKeepsDistinct | sec_scraper.py:285-306 | When no CIK repeats across both sources, nothing is dropped. |
| Pipeline.ReplyFor | sec_scraper.py:316 | The reply to the details request for a CIK, with a missing reply read as a transport error. `Pipeline.Enriched`, `Pipeline.EnrichAll` and `Pipeline.Run` state that each record is enriched with the reply for its own CIK. |
| Pipeline.Update | sec_scraper.py:317-319 | Without details a record is unchanged; an update never touches the CIK, name, ticker, URL, filing type or category. |
| Pipeline.Enrich | sec_scraper.py:312-329 | Enrichment keeps the identity fields, always sets a category that is one of the seven labels, and takes address and SIC description from the update. |
| Pipeline.EnrichCategory | sec_scraper.py:321-325 | The category is the classifier applied to the name and the updated SIC description, a missing one read as empty. |
| Pipeline.EnrichState | sec_scraper.py:327-329 | The state is kept when non-empty; otherwise it becomes the state extracted from the address (empty when missing), and it is never left empty. |
| Pipeline.EnrichCopiesDetails | sec_scraper.py:317-319 | Found details overwrite address, city, phone, SIC and SIC description, whatever the record held. |
| Pipeline.EnrichIdempotent | sec_scraper.py:312-329 | Enriching a record a second time with the same details changes nothing. |
| Pipeline.Enriched | sec_scraper.py:315-329 | A record enriched with the details reply for its CIK keeps its CIK and name and carries one of the seven labels. |
| Pipeline.EnrichAll | sec_scraper.py:312-329 | The loop keeps the number and order of records, each record's CIK and name, and enriches each with the reply for its CIK. |
| Pipeline.SameCiks | sec_scraper.py:312-329 | Two lists with the same CIK at every index name the same CIKs, and both or neither repeat one. |
| Pipeline.EnrichedMerge | sec_scraper.py:285-329 | Enriching the merged list record for record yields exactly the CIKs of the advisers and holders, each once, at most as many records as both together, the advisers' first-occurrence records at the front. |
| Pipeline.Run | sec_scraper.py:275-329 | A whole run yields, record for record, the first-occurrence filter of the capped matching advisers followed by the feed's holders, each enriched with the reply for its CIK. So every CIK of either source appears exactly once, the advisers' come first in listing order, there are at most 250 records, and each carries one of the seven labels. |

## Left out

- HTTP: the session, headers, timeouts and `raise_for_status`. Every reply is a parameter instead: the listing, the feed reply, and a map from CIK to details reply, where a missing CIK counts as a transport error.
- `get_company_tickers` is not modelled. Its output, the company listing, is an input; a failed fetch corresponds to the empty listing.
- JSON decoding is not modelled, and details values that are numbers, lists or objects rather than strings are not represented.
- The `scraped_at` wall-clock stamps, the `time.sleep(0.2)` every twenty records, and all printing, the DataFrame and the CSV file.
- The unused EFTS `url` and `params` and the unused `ratelimit` import (dead code); `setup.py` (packaging metadata).
- RateLimit.RateLimit: the limiter is not threaded through the fetches of the pipeline, because each fetch's reply is already a parameter. The limiter is modelled on its own, and over arbitrary call sequences in `Simulate`.
- RateLimit.Simulate: clock readings are exact reals rather than IEEE doubles.
- Strings.Lower: lowers ASCII letters only. Among non-ASCII characters only U+0130 and U+212A lower into ASCII letters, and neither can complete a keyword differently.
- FilingFeed.CikOf: `\d` is ASCII digits only, where Python also accepts other Unicode decimal digits.
- FilingFeed.CleanTitleDropsFormType: proved for single-line titles only; a title spanning lines can keep a `13F-HR` on an earlier line.
- FilingFeed.Recent13FFilers: the `count` request parameter only shapes the server's reply and is not modelled.
- AdviserDetails.DetailsOf: the details record carries the corrected address (`AdviserDetails.Address`), not the one sec_scraper.py:212 builds. For a business entry with a null part, the model leaves that part empty where the program prints `None`. The contract states that the two agree whenever no part is null, and `AdviserDetails.AddressAsWritten` is the address as written (see Findings).
- AdviserDetails.GetAdviserDetails: returns the corrected address for the same reason, so `Pipeline.Enrich`, `Pipeline.EnrichAll` and `Pipeline.Run` also work with the corrected address. Where an entry has a null part and no state, the state that enrichment extracts can therefore differ from the program's. With `street1` null, `street2` "AL 1", city "Boston", no state and ZIP "02110", the program extracts AL from "None AL 1, Boston,  02110", and the model does not extract AL from "AL 1, Boston,  02110" (`AdviserDetails.NullPartShiftsState`).

## Findings

| source | as written | input that shows it | evidently intended | confidence | as-written member | corrected member |
|---|---|---|---|---|---|---|
| sec_scraper.py:212 | `business.get('street2', '')` returns `None` for a key holding JSON `null`, and the f-string prints it as `None` | a business entry with `street1` "1 Main St", `street2` null, city "Boston", state "MA", ZIP "02110" gives "1 Main St None, Boston, MA 02110" | a null part left empty like an absent one: "1 Main St , Boston, MA 02110" | medium; not executed | AdviserDetails.NullStreetPrintsNone | AdviserDetails.AddressIgnoresNulls |

