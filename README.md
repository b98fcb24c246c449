# Keyword Processor: a verified model of its keyword deduplicator

Keyword Processor is a small Streamlit page. The user types keywords into a text
area and presses "Make Keywords". The page then passes to `st.write` a string that
holds each distinct word once, in the order it first appears, every word followed
by one space.

The logic behind that page is `format_text_to_list` in `main.py`. It splits the
text with Python's `str.split()` and keeps each word unless it is already in
`final_list`. The button handler then builds the string it passes to `st.write` with
`keyword_string += wrd + " "`. This project models both parts in Dafny:

- `split.dfy`, module `Split`: `str.split()` with no argument. `IsWs` is the set of
  characters for which Python's `str.isspace()` holds, written out as a fixed table.
  `Tokens` returns the maximal runs of non-whitespace characters. Lemmas pin down its
  behaviour: leading whitespace is skipped, a word ending at whitespace or at the end
  of the string becomes one piece, no non-whitespace character is lost or added, and
  the result is empty exactly when the input is all whitespace.
- `keywords.dfy`, module `KeywordProcessor`:
  - `Dedup` is the value of `final_list` after the loop has read a token sequence. It is
    defined one appended token at a time, the same way the loop works.
  - `Dedup` is also characterised independently. Its result has no repeated word, has
    exactly the input's words, and lists them in order of first occurrence (`FirstIndex`).
    `DedupCharacterization` shows the two descriptions agree, in both directions.
  - `Join` and `Width` describe the string passed to `st.write` and its length.
  - The methods `FormatTextToList`, `JoinWithTrailingSpace` and `MakeKeywords` follow the
    source's loops. Each is proved against these functions.
  - `TokensOfJoin` and `KeywordsIdempotent` prove the round trip: splitting the string
    passed to `st.write` gives the keyword list back, so processing it a second time changes nothing.

`main.py` splits on whitespace only and keeps the words' case. It does no comma
splitting, trimming, upper-casing, phrase extraction, dictionary look-ups or session
state, and neither does the model.

## Model

| member | source | states |
|---|---|---|
| `Split.Tokens` | main.py:5 | every piece `str.split()` returns is non-empty and has no whitespace character; there are at most as many pieces as characters |
| `Split.TokensEmptyIffAllWs` | main.py:5 | the split is empty if and only if the text is empty or only whitespace |
| `Split.TokensSkipWs` | main.py:5 | whitespace of any length before the text produces no piece |
| `Split.TokensWordThen` | main.py:5 | a run of non-whitespace characters ending at whitespace or at the end of the text is returned whole, as the next piece |
| `Split.TokensKeepNonWs` | main.py:5 | the pieces laid end to end are exactly the text with its whitespace removed: nothing lost, nothing added, order kept |
| `KeywordProcessor.Dedup` | main.py:6-9 | the appended-unless-present list has no duplicate, contains exactly the elements of its input, and is no longer than the input |
| `KeywordProcessor.DedupFirstOccurrenceOrder` | main.py:7-9 | the kept elements appear in the order of their first occurrence in the input, so the result is a subsequence that picks each element at its first position |
| `KeywordProcessor.DedupUnique` | main.py:6-9 | any sequence with no duplicates, the input's elements and first-occurrence order is the loop's result |
| `KeywordProcessor.DedupCharacterization` | main.py:6-9 | a sequence is the loop's result if and only if it has no duplicates, has exactly the input's elements and is in first-occurrence order |
| `KeywordProcessor.DedupOfDistinct` | main.py:7-9 | a list without repetitions passes through the loop unchanged |
| `KeywordProcessor.Join` | main.py:26-27 | the keyword string is empty exactly when the word list is empty |
| `KeywordProcessor.JoinSnoc` | main.py:27 | one more word in the list adds that word and one space at the end of the string |
| `KeywordProcessor.JoinLength` | main.py:26-27 | the string's length is the sum over the words of the word's length plus one |
| `KeywordProcessor.JoinAt` | main.py:26-27 | word k stands in the string right after the earlier words and their spaces, exactly one space follows it, and word k+1 starts right after that space, so with `JoinLength` the segments cover the whole string |
| `KeywordProcessor.TokensOfJoin` | main.py:26-27 | splitting the string of a list of whitespace-free non-empty words on whitespace gives that list back |
| `KeywordProcessor.FormatTextToList` | main.py:4-10 | the returned list is the deduplicated split of the text: no duplicates, exactly the text's words, every entry a non-empty whitespace-free word, no longer than the split; the loop keeps `final_list` equal to the deduplication of the tokens read so far |
| `KeywordProcessor.JoinWithTrailingSpace` | main.py:26-27 | the loop's string is each word followed by one space, in order; the loop keeps it equal to that string for the words read so far |
| `KeywordProcessor.MakeKeywords` | main.py:24-27 | the string passed to `st.write` is the joined keyword list; splitting it gives exactly the keyword list; it is empty if and only if the text area held only whitespace |
| `KeywordProcessor.KeywordsIdempotent` | main.py:4-10 | running `format_text_to_list` on the string passed to `st.write` gives the same keyword list |
| `KeywordProcessor.KeywordsEmpty` | main.py:5-10 | the keyword list is empty if and only if the text is empty or only whitespace |

## Left out

- The Streamlit page is left out: `st.set_page_config`, the CSS that hides the menu, `st.markdown`, `st.text_area`, `st.button` and `st.write` (main.py:1, 13-23, 28). These are presentation and I/O. `MakeKeywords` takes the text area's contents as a parameter and returns the string passed to `st.write`.
- `st.write` renders a `str` as Markdown, so the page may not show the string as it is: `# a` appears as a heading, `*x*` in italics, and the trailing space is never visible. This rendering is not modelled.
- Dafny's `char` is a Unicode scalar value, so the model cannot represent a Python `str` holding lone surrogates (U+D800..U+DFFF). These are not whitespace, so `str.split()` would treat them like any other word character.
- `Split.IsWs` uses a fixed table of Python's whitespace characters. It is not derived from a Unicode database. A Python built on a different Unicode version could classify a few characters differently.
- `final_list` is modelled as a `seq`. The `in` test and `append` are the sequence operations `in` and `+ [word]`. The linear search Python performs for `in` is not modelled step by step, and neither is the cost of the operations.
- Phrase extraction, thesaurus and dictionary look-ups, word clouds, export and import, and session state do not appear in `main.py`. They are not part of this model.
