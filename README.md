# Connectinno notes API: summarizer and handler decisions in Dafny

This project models the core of the Connectinno notes backend and proves properties about it. The model has two parts.

- **The extractive summarizer** `summarize_text` (`backend/app/ai_utils.py`). It works as follows:
  - The sentence splitter `_split_sentences` trims the text and cuts it after `.`, `!` or `?` where whitespace follows. It trims every piece and drops the empty ones.
  - The summarizer builds a frequency table of the lower-cased word tokens longer than two characters across the whole text. The table is built by a counting loop.
  - It scores every sentence as the sum of the table counts of its own tokens.
  - It keeps the best `max_sentences` sentences: a higher score first, and the earlier sentence on a tie.
  - It joins the kept sentences with single spaces, in their original order.
- **The decision logic of the HTTP handlers** (`backend/app/main.py`):
  - Bearer-token extraction and user-id resolution in `get_current_user`.
  - The search filter and the pinned-first sort of `list_notes`.
  - The title check and the normalisation of `create_note`.
  - The lookup, ownership and validation checks of `update_note`, `delete_note` and `summarize_note`. The ownership checks give 500, 404 and 403, in that order. Once they pass, every error is a 400.
  - The payload filtering of `update_note`.
  - The clamp of `max_sentences` to [1, 10].

Modules:
- `Options`: the optional values of request bodies and rows.
- `Sequences`: Python's `xs[:k]`, and a stable insertion sort that stands for `sorted` and `list.sort`. The sort is proved to permute its input, to order it and to be stable.
- `Text`: ASCII models of `\s`, `\w`, `str.strip`, `str.lower`, `in` on strings and `' '.join`.
- `Sentences`: the splitter.
- `Summarizer`: tokens, the frequency loop, scores, selection and the summary.
- `Handlers`: the handler decisions.
- `SummaryExample`: a worked summary of a four-sentence text, proved end to end.

Whitespace is `str.isspace()` over ASCII: the space and the characters with codes 9 to 13 and 28 to 31. `\w` is `[A-Za-z0-9_]`, and `lower()` maps `A`–`Z` only.

The separator of the splitter is the maximal whitespace run right after a terminator. `RegexSplit` models this. Two character-by-character readings of the text state where the cuts fall. `SquashSeparators` replaces each separator run with a single space. `DropSeparators` removes every separator character. The pieces joined with single spaces give the first reading, and the pieces concatenated give the second. Together with the shape of the pieces, the first reading determines the sentence list: `Sentences.SplitSentencesUnique` proves this.

The listing sorts ascending by `(0 if pinned else 1, updated_at or created_at)`. Pinned notes therefore come first and, within each group, older timestamps come first, although a comment next to the sort in `list_notes` says "desc". The model follows the code.

For the text "Cats are great. Cats are furry. Dogs bark loudly. The weather today is sunny and warm." and two sentences, the code's frequency table gives the last sentence the highest score. It has six content words that occur once each, and "is" is too short to count. The first two sentences tie at five, and the earlier one wins the tie. The code therefore returns the first and the last sentence, joined by a space. `SummaryExample.ExampleSummary` proves this outcome.

## Model

| member | source | states |
|---|---|---|
| Text.Strip | backend/app/ai_utils.py:7-8 | the result is the input with a whitespace-only prefix and suffix removed, has no whitespace at either end, and is empty exactly when the input is blank |
| Text.StripStripped | backend/app/ai_utils.py:8 | stripping a string with no surrounding whitespace leaves it unchanged, so stripping twice is stripping once |
| Text.Lower | backend/app/ai_utils.py:25 | lower-casing keeps the length and maps every character through the ASCII lower-case map |
| Text.ContainsAt | backend/app/main.py:118-121 | `needle in hay` holds exactly when the needle occurs at some offset of the haystack |
| Text.JoinSpaceEnds | backend/app/ai_utils.py:22 | joining non-empty parts with spaces gives a non-empty string that begins with the first part's first character and ends with the last part's last character |
| Sequences.SortBy | backend/app/ai_utils.py:36-37 | the sorted list is a permutation of the input and is ordered by the key |
| Sequences.SortByStable | backend/app/main.py:124 | the elements with any given key keep their relative order through the sort, as Python's sort guarantees |
| Sequences.SortByDistinct | backend/app/ai_utils.py:36-37 | sorting a list without repeats gives a list without repeats |
| Sentences.FirstBoundary | backend/app/ai_utils.py:7 | the result is the leftmost position at or after the start where whitespace follows a terminator, or the end of the text |
| Sentences.RegexSplit | backend/app/ai_utils.py:7 | `re.split` returns at least one piece, and the pieces joined with single spaces are the text with each separator run squashed to one space, so the cuts fall exactly at the separator runs |
| Sentences.SplitSentences | backend/app/ai_utils.py:5-9 | every sentence is non-empty and has no whitespace at either end |
| Sentences.SplitSentencesShape | backend/app/ai_utils.py:5-9 | the sentences have no split point inside, every sentence but the last ends with a terminator, their concatenation is the stripped text with exactly the separator whitespace removed, and joined with single spaces they are the stripped text with each separator run squashed to one space |
| Sentences.SplitSentencesUnique | backend/app/ai_utils.py:5-9 | the sentence list is the only well-formed list that joins with single spaces to the stripped text with its separator runs squashed, so the text is cut at every separator run and nowhere else |
| Sentences.SplitSentencesBlank | backend/app/ai_utils.py:7-8 | the split is empty exactly when the text is blank |
| Sentences.SplitSentencesSingle | backend/app/ai_utils.py:7-8 | a non-blank text whose stripped form has no terminator followed by whitespace is the single sentence of its stripped self |
| Sentences.SplitJoinRoundTrip | backend/app/ai_utils.py:7-8 | splitting the space-joined sentences of any well-formed list gives that list back |
| Sentences.SplitExample | backend/app/ai_utils.py:5-9 | "Hello world. This is great! Is it?" splits into its three sentences, each keeping its terminator |
| Summarizer.Words | backend/app/ai_utils.py:25 | every token is a non-empty run of word characters |
| Summarizer.WordsCoverWordChars | backend/app/ai_utils.py:25 | the tokens, concatenated, are exactly the word characters of the text in order |
| Summarizer.WordsAppend | backend/app/ai_utils.py:25 | texts that meet at a non-word character are tokenized piecewise |
| Summarizer.Significant | backend/app/ai_utils.py:25 | the kept words are longer than two characters and have no upper-case letter |
| Summarizer.SignificantSelects | backend/app/ai_utils.py:25 | the kept words are exactly the words longer than two characters, each lower-cased, in their original order |
| Summarizer.SignificantAppend | backend/app/ai_utils.py:25 | keeping and lower-casing words distributes over concatenation |
| Summarizer.CountWords | backend/app/ai_utils.py:26-28 | the loop builds a table whose keys are exactly the content words and whose values are their numbers of occurrences, at least one each |
| Summarizer.SumCountsPermutation | backend/app/ai_utils.py:30-32 | a score depends only on the multiset of the sentence's words, counting repeats |
| Summarizer.SumCountsAtLeastLength | backend/app/ai_utils.py:32 | when every word is in the table, the score is at least the number of words |
| Summarizer.ScoreAll | backend/app/ai_utils.py:34 | entry `i` is sentence `i` with index `i` and its score |
| Summarizer.TopInOrderMembers | backend/app/ai_utils.py:36-37 | the kept entries are `min(k, n)` entries of the scored list, each at its own index, in strictly increasing index order |
| Summarizer.TopInOrderRank | backend/app/ai_utils.py:36 | every entry left out has a lower score than every entry kept, or the same score and a larger index |
| Summarizer.SelectIsOrderedSelection | backend/app/ai_utils.py:21-22 | selecting keeps `min(k, n)` sentences at strictly increasing positions, and all of them when `n <= k` |
| Summarizer.SelectKeepsBestScores | backend/app/ai_utils.py:34-38 | when sentences are dropped, every dropped sentence scores lower than every kept one, or the same and comes later |
| Summarizer.SummarizeText | backend/app/ai_utils.py:12-38 | the step-by-step summarizer, with the table built by its loop, returns the specified summary |
| Summarizer.SummaryIsOrderedSelection | backend/app/ai_utils.py:18-38 | the summary's sentences are `min(k, n)` of the text's `n` sentences at strictly increasing positions, so they are distinct and in original order, and all of them when `n <= k` |
| Summarizer.SummaryKeepsBestScores | backend/app/ai_utils.py:36 | the tie-break: every sentence not in the summary scores lower than every sentence in it, or the same and comes later |
| Summarizer.SummaryRoundTrip | backend/app/ai_utils.py:22 | splitting the summary again gives back exactly the chosen sentences |
| Summarizer.SummaryEmptyIffBlank | backend/app/ai_utils.py:18-22 | the summary is empty exactly when the text is empty or blank |
| SummaryExample.ExampleSplit | backend/app/ai_utils.py:5-9 | the example text splits into its four sentences, each keeping its full stop |
| SummaryExample.ExampleContent | backend/app/ai_utils.py:25 | the content words of the example are the lower-cased words of its four sentences in order, without the two-letter "is" |
| SummaryExample.UniqueWordsScore | backend/app/ai_utils.py:26-32 | the distinct words of a sentence that occur nowhere else in the text score one each |
| SummaryExample.ExampleScores | backend/app/ai_utils.py:24-32 | under the frequency table of the whole example, its sentences score 5, 5, 3 and 6 |
| SummaryExample.PickTwo | backend/app/ai_utils.py:34-38 | of four sentences scoring 5, 5, 3 and 6, keeping two keeps the fourth and, of the two tied at 5, the first, in original order |
| SummaryExample.ExampleSummary | backend/app/ai_utils.py:12-38 | `summarize_text` on the example with two sentences returns "Cats are great. The weather today is sunny and warm." |
| Handlers.AfterFirstSpace | backend/app/main.py:64 | `split(' ', 1)[1]` exists exactly when there is a space, and it is the text after the first space |
| Handlers.BearerToken | backend/app/main.py:60-64 | a missing, empty or non-`Bearer ` header gives 401; otherwise the token is the stripped text after `Bearer ` |
| Handlers.CurrentUser | backend/app/main.py:58-75 | every failure is 401; the caller is known exactly when the header holds a token that the identity provider resolves to a non-empty id, and that id is the result |
| Handlers.KeepMatchingCounts | backend/app/main.py:114-122 | every matching note is kept as often as it occurs, and no other note is |
| Handlers.KeepMatchingOrder | backend/app/main.py:122 | the kept notes are in their original relative order |
| Handlers.FilterNotesSpec | backend/app/main.py:112-122 | without a non-empty query all notes are kept; with one, exactly the notes matching the lower-cased query where `filter` says, in order |
| Handlers.NoteOrder | backend/app/main.py:124 | after sorting, pinned notes precede unpinned ones, timestamps ascend within each group, notes with equal keys keep their order, and nothing is added or lost |
| Handlers.ListNotes | backend/app/main.py:106-125 | a failed read gives 500; otherwise the filtered notes, permuted so that pinned ones come first and timestamps ascend within each group |
| Handlers.CreateNote | backend/app/main.py:130-137 | 400 exactly for a blank title; otherwise the insert of the stripped title and content with `pinned` defaulting to false, owned by the authenticated caller |
| Handlers.OwnedNote | backend/app/main.py:148-155 | 500 exactly when the read fails, 404 exactly when no row comes back, 403 exactly when the first row belongs to someone else |
| Handlers.Payload | backend/app/main.py:156 | the payload holds exactly the fields that were given, with their values |
| Handlers.UpdateNote | backend/app/main.py:146-162 | the ownership checks come first, and their error is passed on unchanged; once they pass, the result is an error exactly when no field is given or a given title is blank, and that error is 400; otherwise the update of exactly the given fields |
| Handlers.DeleteNote | backend/app/main.py:168-178 | the outcome is the ownership checks' error, or the delete of that note |
| Handlers.ClampMaxSentences | backend/app/main.py:204 | the clamped count lies in [1, 10], equals the request inside that range, and is 1 below it and 10 above it |
| Handlers.SummarizeNote | backend/app/main.py:192-207 | the ownership checks come first, and their error is passed on unchanged; once they pass, the result is an error exactly for blank content, and that error is 400; otherwise a non-empty summary that splits into `min(k, n)` sentences, between 1 and 10 |
| Handlers.SummaryFacts | backend/app/main.py:201-207 | for non-blank content and a count in [1, 10], the summary is non-empty and splits into between 1 and 10 of the content's sentences |

## Left out

- The identity provider and the table store are outside the model. This covers `_get_user_from_supabase_token` and every `supabase` call. Each handler takes the store's read result as a `Lookup` input and the provider as the `resolve` parameter.
- The store writes, and the 500 errors raised after them (create, update and delete), are left out. A handler ends with the insert, update or delete it asks for.
- FastAPI routing, dependency injection, `async`, pydantic validation and length limits, `signup`, `login` and the health route are framework plumbing or pass-throughs to the provider.
- Unicode is not modelled. Whitespace, word characters and lower-casing are modelled over ASCII.
- Handlers.ClampMaxSentences: the `except` branch that falls back to 3 is not modelled. The parameter already arrives as an integer, so `int()` cannot fail there.
- Summarizer.SummaryIsOrderedSelection, Summarizer.SelectIsOrderedSelection, Summarizer.SummaryKeepsBestScores and Summarizer.SummaryRoundTrip are stated for `max_sentences >= 0` only. Summarizer.SummaryEmptyIffBlank is stated for `max_sentences >= 1` only. `TakePrefix` models the negative slice, but no property is proved for it, because the only caller clamps the count to [1, 10].
- Handlers.Note: timestamps are integers, and `created_at` is always present. Comparing values of different types in the sort key is not modelled.
- Handlers.CurrentUser: any falsy provider answer is `None`. That includes `None` and an empty mapping. Ids are strings or absent.
- Handlers.ListNotes: the store's `user_id` filter is not modelled. The rows given are taken to be the caller's rows.
- Handlers.UpdateNote: the `isinstance(..., str)` check cannot fail here, because the title is typed as a string.
- Handlers.OwnedNote: the 500 detail is the store's message string. The difference between `str(error)` and `error.message` is not modelled.
- `list.sort` and `sorted` are modelled on values by a stable insertion sort. `notes.sort` sorts a list local to `list_notes` that nothing else refers to, so in-place update adds nothing.
