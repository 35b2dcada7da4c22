# Chat bot retrieval engine, modelled in Dafny

The KPMIM college chat bot answers a typed question by retrieval. It does this
in five steps:

1. It loads a list of FAQ items (question, answer, keywords).
2. It builds a sorted vocabulary of all keywords.
3. It turns every item into a vector of keyword counts over that vocabulary.
4. It tokenizes the user's message the same way, then scores each item by
   cosine similarity.
5. It answers with the first best-scoring item, or with one of three canned
   "unclear" replies when the best score is under 0.05.

A blank message, or an empty knowledge base, gets a fixed "empty" reply. A
separate filter offers up to four FAQ questions as suggestions while the user
types.

The model follows `script.js` function by function:

| module | models |
|---|---|
| `Text` | character classes `\w` and `\s`, ASCII `toLowerCase`, `trim`, `includes`, the UTF-16 `length`, the default string order of `sort` |
| `Tokenizer` | `tokenize`: lower-case, replace non-word characters by spaces, `split(/\s+/)` with its empty leading and trailing pieces, drop pieces of one character |
| `TokenLaws` | laws of `tokenize` on concatenated text, and worked sample messages |
| `Faq` | the FAQ item and the keyword walk of `buildTFIDF` |
| `Vocabulary` | the vocabulary half of `buildTFIDF` (`new Set`, `Array.from`, `sort`) |
| `Vectors` | the counting loop shared by `buildTFIDF` and `queryVector` (`indexOf`, then `vec[idx] += 1`) |
| `Cosine` | `cosineSimilarity`, in exact arithmetic |
| `Engine` | the loaded state as an immutable `Context`, the best-score scan and `getBestAnswer` |
| `Suggest` | the auto-suggest filter of the input handler |
| `Scenarios` | worked queries against a one-item knowledge base |

Scores are exact rather than floating point. A `Score` holds the integers
`dot` and `magA * magB`, and stands for the cosine `dot / sqrt(magA * magB)`.
Every count is non-negative, so `dot` is too. Every comparison the engine
makes on cosines can therefore be made on their squares:

- `score > bestScore` on cosines is `>` on squares.
- `bestScore < 0.05` on cosines is `< 0.0025` on squares.

`Cosine.CosineOrderIsSquaredOrder` proves both equivalences.

`Math.random()` becomes a parameter. `pick` is the value of
`Math.floor(Math.random() * 3)`, so the caller supplies any `pick` in
{0, 1, 2}.

The comments in the source call the vectors "TF-IDF". The code stores raw
keyword counts and never computes an inverse document frequency. The model
follows the code, so vectors are plain counts.

## Model

| member | source | states |
|---|---|---|
| Text.TrimEmptyIffBlank | script.js:101 | `msg.trim()` is empty exactly when every character of the message is white space |
| Text.ContainsIffOccurs | script.js:151-152 | `includes` holds exactly when the needle occurs at some offset of the haystack |
| Text.Utf16Length | script.js:148 | `text.length` counts UTF-16 code units: between one and two per character, and exactly one per character precisely when every character lies in the Basic Multilingual Plane |
| Text.Utf16LengthAppend | script.js:148 | the code-unit count of a concatenation is the sum of the counts of its parts; with the one-character values of `Utf16Length` (1 inside the Basic Multilingual Plane, 2 outside) it fixes `text.length` for every string |
| Text.Utf16ShortIff | script.js:148 | `text.length < 2` holds exactly for the empty string and for a single character of the Basic Multilingual Plane |
| Tokenizer.CleanChar | script.js:35-36 | after lower-casing and `replace(/[^\w\s]/g, " ")`, a character is white space or a lower-case word character: word characters are lowered, white space is kept, anything else becomes a space |
| Tokenizer.Split | script.js:37 | `split(/\s+/)` always yields at least one piece; no piece holds white space and every character of a piece comes from the input; a blank string yields only empty pieces |
| TokenLaws.SplitKeepsWords | script.js:37 | the pieces written one after another are exactly the input's non-white-space characters, in order: splitting loses and adds nothing else |
| Tokenizer.SplitWord | script.js:37 | text without white space is one piece, itself |
| TokenLaws.SplitAfterRun | script.js:37 | a word, a non-empty run of white space and then text that does not start with white space split into the word followed by the pieces of that text: a piece ends exactly where a run of white space begins |
| TokenLaws.SplitAtSpace | script.js:37 | splitting at one white-space character gives, apart from empty pieces, the pieces of the text before it followed by the pieces of the text after it |
| Tokenizer.KeepLong | script.js:38 | a word survives `filter(word => word.length > 1)` exactly when it is in the input and longer than one character |
| Tokenizer.KeepLongCons | script.js:38 | the filter keeps a leading word exactly when it is longer than one character, and filters the rest the same way |
| TokenLaws.KeepLongAppend | script.js:38 | filtering a concatenation is filtering each part: the filter keeps order and repeats and never looks at a word's neighbours |
| Tokenizer.Tokenize | script.js:34-39 | every token has at least two characters, all of them lower-case word characters; a blank message has no tokens |
| TokenLaws.TokenizeAtSpace | script.js:34-39 | a white-space character separates tokens: the tokens of the text around it are the tokens before it followed by the tokens after it |
| TokenLaws.TokenizeWordPunct | script.js:34-39 | a word of two or more ASCII letters followed by punctuation is one token, the word lower-cased |
| TokenLaws.TokenizeWord | script.js:34-39 | a lower-case ASCII word of two or more letters is its own only token |
| TokenLaws.TokenizeExample | script.js:34-39 | `"Fees?"` tokenizes to `["fees"]`: the capital is lowered and the question mark dropped |
| TokenLaws.TokenizeTwoWords | script.js:34-39 | `"Fees? Admission!!"` tokenizes to `["fees", "admission"]`, in that order |
| Faq.AllKeywords | script.js:47-49 | the nested `forEach` visits a word exactly when it is a keyword of some FAQ item |
| Vocabulary.SortDistinct | script.js:51 | `Array.from(set).sort()` is strictly sorted (so duplicate-free) and has exactly the input's elements |
| Vocabulary.SortedUnique | script.js:51 | two strictly sorted sequences with the same elements are equal, so the sorted vocabulary is fixed by the set of keywords alone |
| Vocabulary.Build | script.js:45-51 | the vocabulary is strictly sorted and holds a word exactly when it is a keyword of some item |
| Vocabulary.BuildIgnoresOrder | script.js:45-51 | knowledge bases with the same keywords, in any order and any item arrangement, get the same vocabulary |
| Vocabulary.BuildSize | script.js:45-51 | the vocabulary has one coordinate per distinct keyword |
| Vectors.IndexOf | script.js:58 | `indexOf` is -1 exactly when the term is absent; otherwise it is the first position holding the term |
| Vectors.EncodeCounts | script.js:53-63 | over a duplicate-free vocabulary, component `j` of the counting loop is the number of occurrences of `vocabulary[j]` among the terms |
| Vectors.EncodeUnknownIsZero | script.js:57-60 | terms that are all outside the vocabulary leave every component at 0 |
| Vectors.EncodeTotal | script.js:57-60 | the components sum to the number of terms the vocabulary knows: each known term adds exactly one, unknown terms add nothing |
| Vectors.QueryVector | script.js:85-95 | the query vector is as long as the vocabulary; over a duplicate-free vocabulary, component `j` counts the message tokens equal to `vocabulary[j]` |
| Vectors.QueryVectorUnknown | script.js:89-92 | a message none of whose tokens is in the vocabulary gets the all-zero vector |
| Vectors.EntryVector | script.js:53-63 | an item's vector is as long as the vocabulary; over a duplicate-free vocabulary (the only kind loading builds), component `j` counts the item's keywords equal to `vocabulary[j]` |
| Cosine.NormZeroIff | script.js:74-75 | `magA` is 0 exactly when every component of the vector is 0 |
| Cosine.CauchySchwarz | script.js:70-79 | `dot * dot <= magA * magB` for any two count vectors of equal length |
| Cosine.CosineSimilarity | script.js:69-80 | the denominator is 0 exactly when one vector is all zero, and the score is then 0; otherwise the cosine lies in [0, 1] |
| Cosine.CosineSymmetric | script.js:69-80 | `cosineSimilarity(a, b) == cosineSimilarity(b, a)` |
| Cosine.CosineSelf | script.js:69-80 | a vector that is not all zero has cosine exactly 1 with itself |
| Cosine.ComputeCosine | script.js:70-79 | the index loop accumulating `dot`, `magA` and `magB` computes the same score as the recursive definition |
| Cosine.CosineOrderIsSquaredOrder | script.js:115-121 | for non-negative cosines, `x > y` iff their squares compare the same way, and `x < 0.05` iff the square is under 0.0025 |
| Engine.Load | script.js:44-64 | after `buildTFIDF` there is one vector per item, each as long as the vocabulary; the vocabulary is strictly sorted and holds exactly the keywords; entry `[i][j]` counts item `i`'s keywords equal to `vocabulary[j]` |
| Engine.LoadNothing | script.js:15-17 | before any FAQ has loaded, the state is the empty knowledge base with an empty vocabulary and no vectors |
| Engine.Scan | script.js:109-119 | the scan with strict `>` starting from score 0 and index -1 leaves index -1 exactly when no score is above zero, with score 0; otherwise the index is the first position of the highest score, and the score is that item's score |
| Engine.FirstBestUnique | script.js:113-119 | at most one position is the first position of the highest score |
| Engine.SelectAnswer | script.js:121-138 | if every score is under 0.05, the reply is the picked deflection, the intent is "unclear", and the confidence is the highest score (0 if none is positive); if the first best item reaches 0.05, the reply, intent and confidence are its answer, its question and its score |
| Engine.MatchWhenAboveFloor | script.js:113-138 | if any score reaches 0.05, the reply is the answer of the first best item |
| Engine.NothingScoredIsUnclear | script.js:110-131 | when no score is above zero, the reply is the picked deflection with intent "unclear" and confidence exactly 0 |
| Engine.GetBestAnswer | script.js:100-139 | a blank message or an empty knowledge base gets the fixed empty reply with intent "empty" and confidence 0; any other message gets the selection over its scores against every item |
| Engine.NoSharedTermIsUnclear | script.js:100-131 | a non-blank message none of whose tokens is in the vocabulary is deflected with confidence 0 |
| Engine.PickOnlyChoosesDeflection | script.js:127-131 | the random choice changes only the reply text, and only for an "unclear" outcome; the intent and confidence never depend on it |
| Suggest.MatchingEntries | script.js:150-153 | the filter keeps an item exactly when its lower-cased question, or one of its keywords, contains the typed text; it adds nothing |
| Suggest.MatchingAppend | script.js:150-153 | filtering a concatenation of item lists is filtering each list, in order: the filter keeps FAQ order and repeats |
| Suggest.MatchingOne | script.js:150-153 | a single item is kept exactly when it matches |
| Suggest.Suggestions | script.js:145-155 | at most four suggestions; none when the trimmed, lower-cased input is shorter than two UTF-16 code units; otherwise a prefix of the matches: all of them when there are at most four, exactly four otherwise |
| Suggest.FewMatchesAllShown | script.js:148-155 | with at most four matches, every matching item is suggested |
| Scenarios.FeesVocabulary | script.js:45-51 | an item with keywords `fees`, `admission` gets the vocabulary `["admission", "fees"]` |
| Scenarios.FeesQueryMatches | script.js:100-139 | against that item, a message with one `fees` token and no `admission` token scores 1/sqrt(2) and gets the item's answer |
| Scenarios.WeatherQueryIsUnclear | script.js:100-139 | against that item, a message with tokens but neither keyword is deflected with confidence 0 |
| Scenarios.FeesWordMatches | script.js:100-139 | the message `"fees"` gets the answer `"Fees are 50000."`, the intent `"What are the fees?"` and the confidence 1/sqrt(2) |
| Scenarios.WeatherWordIsUnclear | script.js:100-139 | the message `"weather"` gets the picked deflection, intent `"unclear"` and confidence 0 |

## Left out

- The DOM and user interface are not modelled: the chat window, buttons, typing indicator, quick suggestion buttons and `innerHTML` writes are presentation only.
- `fetch("faq.json")` and JSON parsing are not modelled; `Engine.Load` takes the parsed items. A failed load leaves the empty state (`Engine.LoadNothing`).
- FAQ items without a `keywords` array are not modelled, because the model's `Entry` always has a keyword list. In the source, `FAQ = data` runs before `buildTFIDF` throws on such an item. `FAQ` is then non-empty while `vocabulary` and `tfidfVectors` stay empty, so every non-blank message gets a deflection with intent "unclear" and confidence 0, never the "empty" reply. `Engine.Context.Consistent` excludes this state.
- `Math.random` is replaced by the parameter `pick`.
- Floating point is not modelled: `Math.sqrt`, the division and `toFixed` are replaced by exact scores. Where two cosines differ only by rounding, or a cosine sits right at 0.05, the source's floating-point comparison may differ from the exact one. The values differ too: in double arithmetic `cosineSimilarity([1,1],[1,1])` is 0.9999999999999998 and `cosineSimilarity([1,1,1],[1,1,1])` is 1.0000000000000002, so the "exactly 1" of `Cosine.CosineSelf` and the bound 1 of `Cosine.CosineSimilarity` hold for the exact score, not for the number the source returns.
- Text.Lower: covers ASCII letters only. Other characters are left unchanged, whereas `toLowerCase` also maps non-ASCII capitals. For the tokenizer this matters only for the non-ASCII characters whose lower-case form contains an ASCII letter. These are U+212A KELVIN SIGN, which lowers to `k`, and U+0130 LATIN CAPITAL LETTER I WITH DOT ABOVE, which lowers to `i` followed by U+0307. In the source `"xİ"` tokenizes to `["xi"]`; in the model it tokenizes to `[]`.
- Vocabulary.SortDistinct: orders strings by character (code point). `sort` compares UTF-16 code units, so the two differ only for keywords with characters outside the Basic Multilingual Plane.
- Vectors.QueryVector: states the per-term counts only over a duplicate-free vocabulary. That is the only kind `buildTFIDF` produces (`Engine.Load` proves it).
- Vectors.EntryVector: states the per-keyword counts only over a duplicate-free vocabulary, for the same reason. Over a vocabulary with repeats, only the first copy of a word is counted.
- The weighting the source's comments call "TF-IDF" is not modelled, because the code never computes it: vectors are raw keyword counts.
- The auto-suggest handler's `!text` test is not modelled separately, because it is subsumed by `text.length < 2`.
- The tokenizer's `replace(/[^\w\s]/g, " ")` works on UTF-16 code units, so a character outside the Basic Multilingual Plane becomes two spaces, while the model's `CleanChar` makes it one. Splitting merges runs of white space, so the tokens are the same. Every token is made of ASCII word characters, so `word.length` equals the model's `|w|`.
