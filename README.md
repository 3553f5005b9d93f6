# Resume classifier: a verified model of its text pipeline and ranking

The original program is a single-page Streamlit app (`app.py`). A visitor either
uploads a PDF/DOCX resume or pastes text. The app then:

- extracts the text;
- normalises it (`clean_text`);
- feeds it to a pre-trained TF-IDF vectoriser and classifier;
- shows the predicted job role together with every role's rounded probability,
  sorted from most to least likely.

This project models that core in Dafny:

- `wrappers.dfy` (`Wrappers`): `Option`, for Python's `None`-or-value.
- `py_str.dfy` (`PyStr`): the Python `str` builtins the app relies on.
  - `isspace` uses CPython's whitespace set, which is also what `\s` matches in `re`.
  - Also modelled: `lower`, `split()`, `' '.join`, `strip()` and `endswith`.
  - Each comes with its round trips and shape facts.
- `text_normalizer.dfy` (`TextNormalizer`): `clean_text` in five steps.
  1. Lowercase.
  2. Delete every character except ASCII letters and whitespace.
  3. Split on whitespace.
  4. Drop stopwords.
  5. Lemmatise and join with single spaces.
- `text_extractor.dfy` (`TextExtractor`): how the extracted text is put together.
  - PDF: the pages' texts concatenated, with a missing text layer counting as `""`. This is written as a loop method proved against a function.
  - DOCX: the paragraphs joined by single spaces.
- `ranking.dfy` (`Ranking`): the ranking built in `predict_role`.
  - `probability.round(3)`, modelled as round-half-even at three decimals.
  - `dict(zip(classes_, …))` with Python's insertion-order dict semantics.
  - `sorted(…, key=score, reverse=True)` as a stable descending insertion sort.
  - numpy's `argmax`, with its first-maximum rule.
- `app.dfy` (`App`): the page's branches and the pipeline, with `predict_role`
  exactly as written (ranking on the rounded probabilities).
  - The branches decide what `text` holds: the upload/paste choice, the `.pdf` suffix test, `strip()` on pasted text, and the warning.
  - `if text:` decides whether classification runs.
  - `predict_role` ties the pipeline together.

Foreign code is a parameter of the model:

- the stopword list (a `set<string>`);
- the WordNet lemmatiser (any `string -> string`);
- `tfidf.transform` followed by `model.predict_proba` (any function from
  cleaned text to one probability per class);
- the PDF and DOCX parsers (functions from the file's bytes to page texts and
  paragraph texts).

`model.predict` is taken to be the class at the first maximum of the
unrounded `predict_proba` distribution.

An upload whose extracted text is empty (a scanned PDF with no text layer)
might be expected to flow on and be classified with low confidence. It is
not: `if text:` (app.py:87) is false for `""`, so no prediction is shown at
all. The model follows the code (`App.UploadGate`,
`App.TextlessPdfNotClassified`).

## Model

| member | source | states |
|---|---|---|
| PyStr.LowerChar | app.py:21 | an ASCII capital becomes its lowercase letter (code point + 32); every other character is unchanged |
| PyStr.Lower | app.py:21 | `text.lower()` (ASCII range) leaves no capital and keeps every other character where it was |
| PyStr.LowerAppend | app.py:21 | lowercasing works piece by piece: lowering a concatenation is concatenating the lowered pieces |
| PyStr.LowerIdempotent | app.py:21 | lowercasing twice is lowercasing once |
| PyStr.TrimStart | app.py:82 | the result is a suffix starting at the first non-whitespace character; only whitespace is removed |
| PyStr.TrimEnd | app.py:82 | the result is a prefix ending at the last non-whitespace character; only whitespace is removed |
| PyStr.Strip | app.py:82 | `s.strip()` as `rstrip` of `lstrip`; what it promises is stated by `PyStr.TrimStart`, `PyStr.TrimEnd`, `PyStr.StripEmpty` and `PyStr.StripSlice` |
| PyStr.StripEmpty | app.py:82 | `s.strip()` is empty exactly when `s` is all whitespace (including `""`) |
| PyStr.StripSlice | app.py:82 | `s.strip()` is a contiguous slice of `s`; when non-empty it neither starts nor ends with whitespace |
| PyStr.Split | app.py:23 | `split()` yields only non-empty tokens without whitespace, and yields none exactly when the text is all whitespace |
| PyStr.SplitChars | app.py:23 | every character of every token comes from the input |
| PyStr.SplitConcat | app.py:23 | the tokens concatenated are the input with its whitespace removed, so `split()` keeps every other character in order |
| PyStr.SplitSpaceJoin | app.py:23-26 | round trip: `' '.join(tokens).split()` gives back any list of tokens |
| PyStr.SpaceJoin | app.py:26 | `' '.join(parts)`; its round trip with `split()` is `PyStr.SplitSpaceJoin`, its shape `PyStr.SpaceJoinOfTokens` |
| PyStr.SpaceJoinOfTokens | app.py:26 | joining tokens gives `""` only for no tokens; otherwise no whitespace at either end, only single `' '` separators, never two whitespace characters in a row |
| PyStr.SpaceJoinChars | app.py:26 | every character of a join is a separator or a character of some part |
| PyStr.SpaceJoinAppend | app.py:26 | joining two non-empty lists is joining each and putting one space between |
| PyStr.EndsWith | app.py:74 | `name.endswith('.pdf')`; `PyStr.EndsWithConcat` characterises it |
| PyStr.EndsWithConcat | app.py:74 | a name ends with a suffix exactly when it is some string followed by that suffix |
| TextNormalizer.DeleteNonLetters | app.py:22 | `re.sub(r'[^a-zA-Z\s]', '', s)` keeps exactly the characters that are ASCII letters or whitespace and inserts nothing |
| TextNormalizer.DeleteNonLettersAppend | app.py:22 | the substitution works character by character: it distributes over concatenation, so kept characters keep their order and whitespace stays between the words it separated |
| TextNormalizer.DeleteNonLettersOfChar | app.py:22 | on one character, the substitution keeps it exactly when it is an ASCII letter or whitespace; with `DeleteNonLettersAppend` this pins the result for every text |
| TextNormalizer.DeleteNonLettersKeepsAll | app.py:22 | text made only of letters and whitespace is left unchanged by the substitution |
| TextNormalizer.DropStopwords | app.py:24 | a token survives exactly when it was a token and is not a stopword |
| TextNormalizer.DropStopwordsAppend | app.py:24 | the filter works token by token: it distributes over concatenation, so order is kept |
| TextNormalizer.DropStopwordsKeepsAll | app.py:24 | a list without stopwords is kept whole |
| TextNormalizer.Lemmatise | app.py:25 | one lemma per token, position by position |
| TextNormalizer.LemmatiseAppend | app.py:25 | the lemmatiser is applied token by token: it distributes over concatenation |
| TextNormalizer.LemmatiseFixes | app.py:25 | tokens that are their own lemmas come out unchanged |
| TextNormalizer.CleanText | app.py:20-26 | `clean_text` as the composition of the five steps; what it promises is stated by `CleanTextShape`, `CleanTextWithoutLetters`, `CleanTextFixpoint` and `CleanTextIdempotent` |
| TextNormalizer.AfterDeletion | app.py:21-22 | after lowercasing and deletion, only `a`-`z` and whitespace remain; every letter (lowercased) and every whitespace character of the text survives, and nothing else appears |
| TextNormalizer.DeletionOfLowered | app.py:21-22 | with the whitespace removed, what lowercasing and deletion leave is exactly the text's ASCII letters, lowercased, in order |
| TextNormalizer.LemmatiserInputWords | app.py:21-24 | every token reaching the lemmatiser is a non-empty word of `a`-`z` and not a stopword |
| TextNormalizer.LemmatiserInputOrder | app.py:21-24 | with no stopwords the tokens spell out the text's lowercased letters in source order, and the stopword filter splits over any split of the token list |
| TextNormalizer.CleanTextShape | app.py:20-26 | for a lemmatiser that yields tokens, `clean_text(t).split()` is the lemmas of the non-stopword tokens in source order; the output is `""` exactly when no token survives the filter; there is no whitespace at the ends and exactly one space between words |
| TextNormalizer.CleanTextWithoutLetters | app.py:20-26 | text with no ASCII letter (empty, blank, digits, punctuation) cleans to `""` (with ASCII-only lowercasing; see `PyStr.Lower` under Left out) |
| TextNormalizer.CleanTextFixpoint | app.py:20-26 | already clean text (non-stopword lowercase words the lemmatiser leaves alone, single-space joined) is returned unchanged |
| TextNormalizer.CleanTextIdempotent | app.py:20-26 | `clean_text` is idempotent when lemmas are non-stopword words that are their own lemmas |
| TextNormalizer.LemmaMayBeStopword | app.py:24-25 | the stopword filter runs before the lemmatiser, so a lemma that is a stopword stays in the output (and a second cleaning removes it) |
| TextExtractor.PageText | app.py:32 | `page.extract_text() or ''`: a page without a text layer contributes `""` |
| TextExtractor.PdfText | app.py:28-33 | the page texts concatenated in order; the loop is proved equal to it by `TextExtractor.ExtractPdf`, and its properties are the `PdfText…` lemmas |
| TextExtractor.ExtractPdf | app.py:28-33 | the loop that appends each page's text (or `''`) builds exactly the concatenation of all page texts in order |
| TextExtractor.PdfTextAppend | app.py:31-32 | the PDF text of a page list distributes over splitting the list |
| TextExtractor.PdfTextLength | app.py:31-32 | no separator is added: the PDF text is exactly as long as all page texts together |
| TextExtractor.PdfPageAt | app.py:31-32 | page `i`'s text appears in the PDF text right after the texts of the pages before it |
| TextExtractor.PdfTextEmpty | app.py:28-33 | the PDF text is empty exactly when no page has any text |
| TextExtractor.DocxText | app.py:35-37 | `' '.join(para.text for para in doc.paragraphs)`; its properties are `DocxSeparators`, `DocxParagraphAt` and `DocxTextEmpty` |
| TextExtractor.DocxSeparators | app.py:37 | with n >= 1 paragraphs, the DOCX text holds every paragraph's characters plus exactly n - 1 added spaces, also around empty paragraphs |
| TextExtractor.DocxParagraphAt | app.py:37 | paragraph `i` appears after the earlier paragraphs and their separators, followed by a single space unless it is the last |
| TextExtractor.DocxTextEmpty | app.py:37 | the DOCX text is empty exactly for no paragraphs or one empty paragraph |
| Ranking.RoundHalfEven | app.py:44 | the result is within one half of `x`, and exact halves go to the even integer |
| Ranking.Round3 | app.py:44 | rounding to three decimals moves a probability by at most 0.0005 |
| Ranking.Round3Monotone | app.py:44 | rounding never reverses the order of two probabilities |
| Ranking.RoundAll | app.py:44 | `probability.round(3)` rounds each entry in place, moving none by more than 0.0005 |
| Ranking.RoundAllOrder | app.py:44 | rounding keeps the order of the probabilities: a smaller one never gets a larger rounded value |
| Ranking.Zip | app.py:44 | `zip` pairs entries position by position and stops at the shorter input |
| Ranking.ZipUnzip | app.py:44 | round trip: for equally long inputs, taking the zipped pairs apart gives back the labels and the values |
| Ranking.DictSet | app.py:44 | storing a key in the dict keeps the new item and otherwise only items already there |
| Ranking.DictSetKeys | app.py:44 | storing an item adds exactly its key, and keys stay distinct |
| Ranking.DictSetNewRole | app.py:44 | a new key is appended at the end, in insertion order |
| Ranking.DictItems | app.py:44 | `dict(pairs).items()` built by storing the pairs one by one; its contract is `Ranking.DictItemsKeys` and `Ranking.DictItemsOfDistinct` |
| Ranking.DictItemsKeys | app.py:44 | `dict(pairs).items()` has distinct keys and exactly the keys of the pairs |
| Ranking.DictItemsOfDistinct | app.py:44 | with distinct keys, `dict(pairs).items()` is the pairs themselves, in order |
| Ranking.Insert | app.py:45 | inserting into a non-increasing list gives a non-increasing permutation of the list plus the item |
| Ranking.InsertBehind | app.py:45 | passing a higher-scored head keeps the result a permutation and non-increasing |
| Ranking.InsertWithScore | app.py:45 | the item lands in front of the items with its own score, keeping their order |
| Ranking.InsertDistinct | app.py:45 | inserting an item with a new key keeps keys distinct |
| Ranking.SortDescending | app.py:45 | `sorted(items, key=score, reverse=True)` is a permutation of the items and non-increasing by score |
| Ranking.SortDescendingStable | app.py:45 | the sort is stable: for every score, the items with that score keep their input order |
| Ranking.SortDescendingDistinct | app.py:45 | sorting keeps keys distinct |
| Ranking.Predict | app.py:42 | `model.predict(vector)[0]` is one of the classes, the one at the first maximum of the unrounded distribution |
| Ranking.ArgMax | app.py:42 | the index holds a largest value, and every earlier value is strictly smaller (numpy's first maximum) |
| Ranking.WithScoreCons | app.py:45 | selecting the items with a given score works item by item |
| Ranking.WithScoreFirst | app.py:45 | the first item with the maximum's score is the first maximum |
| Ranking.SortedFirstScore | app.py:45 | the first item after sorting carries the largest score |
| Ranking.SortedTop | app.py:45 | the first item after the stable descending sort is the input's first maximum |
| Ranking.SortedZipTop | app.py:44-45 | sorting classes zipped with values puts the class at the values' argmax first |
| Ranking.RoundScores | app.py:44 | each label keeps its place and its score is rounded to three decimals |
| Ranking.RoundScoresKeepsOrder | app.py:44 | rounding the scores keeps the labels in order and keeps a non-increasing list non-increasing |
| Ranking.Ranked | app.py:44-45 | `ranked` as written: the dict items sorted on the rounded scores; its contract is `RankedOnePerClass`, `RankedRoles`, `RankedTop` and `PredictionVersusTop` |
| Ranking.RankedOnePerClass | app.py:44-45 | `ranked` has one entry per class (distinct classes), holds exactly the pairs (class, rounded probability), is non-increasing, and keeps `classes_` order among equal rounded scores |
| Ranking.RankedRoles | app.py:44-45 | the labels in `ranked` are exactly the classifier's classes |
| Ranking.RankedTop | app.py:44-45 | `ranked[0]` is the first class in `classes_` order whose rounded probability is largest, and no entry scores above it |
| Ranking.ArgMaxOfRounded | app.py:42-44 | the first maximum of the rounded distribution is no later than that of the unrounded one and has the same rounded value; the two are equal exactly when no earlier class rounds to the same value |
| Ranking.PredictionVersusTop | app.py:42-45 | `ranked[0]` always carries the predicted class's rounded score; its label equals `prediction` if and only if no earlier class rounds to the same value |
| Ranking.BothRoundToHalf | app.py:44 | 0.4996 and 0.5004 both round to 0.5 |
| Ranking.TopCanDifferFromPrediction | app.py:42-45 | with probabilities 0.4996 / 0.5004 the model predicts the second class while `ranked[0]` names the first |
| Ranking.RankedByProbabilityTop | app.py:42-45 | sorted on the unrounded probabilities, the top entry is always the predicted class, carries the largest rounded score, and the rounded scores still never increase |
| Ranking.RoundScoresElements | app.py:44 | rounding the scores of two lists with the same items gives lists with the same items |
| Ranking.RankedByProbabilityOnePerClass | app.py:44-45 | the corrected ranking has one entry per class and shows exactly the same entries as `ranked` as written; only the order can differ |
| Ranking.RankedByProbabilityRoles | app.py:44-45 | the labels in the corrected ranking are exactly the classifier's classes |
| App.Probabilities | app.py:40-43 | the classifier's distribution for the cleaned text, `predict_proba(tfidf.transform([clean_text(text)]))[0]` |
| App.PredictRole | app.py:39-46 | the prediction is the first class with the largest probability; `ranked` lists every class exactly once with its rounded probability and never increases; its first entry carries the predicted class's rounded score and names the predicted class exactly when no earlier class rounds to the same value |
| App.RunPage | app.py:68-89 | `text` is set as the branches dictate (the file's PDF or DOCX text; pasted text only after a click and only if not blank); a warning is shown exactly for a click on blank text; classification runs exactly when `text` is truthy and then on `text` |
| App.Extracted | app.py:74-77 | the text of an uploaded file: the PDF text when its name ends with `.pdf`, the DOCX text otherwise |
| App.InputText | app.py:68-85 | the value `text` holds when the gate is reached; `App.RunPage` is proved to set exactly this |
| App.Truthy | app.py:87 | Python's truthiness of `text`: neither `None` nor `""` |
| App.PasteGate | app.py:79-87 | pasted text is accepted, and then always classified, exactly when "Classify" was clicked and the text is not all whitespace |
| App.UploadGate | app.py:70-87 | an upload is classified exactly when its extracted text is non-empty: for a PDF, when some page has text; for a DOCX, when it has two or more paragraphs or one non-empty paragraph |
| App.TextlessPdfNotClassified | app.py:28-87 | a PDF whose pages all lack a text layer yields `""` and no prediction is shown |
| App.EmptyParagraphsStillClassified | app.py:35-87 | two empty DOCX paragraphs yield `" "`, which passes the `if text:` gate although it cleans to `""` |

## Findings

| source | as written | input that shows it | evidently intended | confidence | as-written member | corrected member |
|---|---|---|---|---|---|---|
| app.py:42-45 | `ranked` is sorted on the probabilities after rounding them to three decimals. A stable sort then puts the earlier class first among equal rounded values, while `prediction` comes from the unrounded distribution, so `ranked[0]` can name a different class than `prediction`. The page lists `ranked[1:]` as "Other Possible Matches" (app.py:109), so the predicted role then appears among the "other" matches, and `ranked[0]`'s class is in neither the badge nor that list (only the pie chart, app.py:106, labels it) | `classes_ = ["React_Developer", "SQL_Developer"]`, `predict_proba = [0.4996, 0.5004]`: the prediction is `SQL_Developer`, both round to 0.5, and `ranked[0]` is `React_Developer` | rounding is for display only: `ranked[0]` is always the predicted role | not executed | Ranking.TopCanDifferFromPrediction | Ranking.RankedByProbabilityTop |

## Left out

- Ranking.Predict: `model.predict` is not modelled from the classifier's internals. It is taken to return the class at numpy's first maximum of `predict_proba`, which holds for the usual probabilistic scikit-learn classifiers but is an assumption.
- The TF-IDF vectoriser and classifier (app.py:14-15, 41, 43) are one abstract function from cleaned text to a probability distribution, required to give one value per class. Their numerical behaviour and the pickled artifacts are outside the model.
- Loading resources (app.py:11-18): `nltk.download`, `joblib.load`. The stopword list and the WordNet lemmatiser are parameters, a set of words and any `string -> string` function.
- The PDF and DOCX parsers (pdfplumber, python-docx) are functions from the file's bytes to page texts or paragraph texts. A file they cannot parse raises an exception the app does not catch, and that failure path is not modelled.
- PyStr.Lower: lowercases only `A`-`Z` and keeps the length. Python's `str.lower` also maps non-ASCII capitals, and some of them become ASCII letters: U+212A KELVIN SIGN lowers to `k`, and U+0130 (capital I with dot above) lowers to the two characters `i` U+0307, so the length can grow. Python then keeps those `k`/`i` letters, while the model deletes the original characters: `clean_text("\u212A")` is `lemmatize("k")` unless `k` is a stopword, where the model gives `""`. `CleanTextWithoutLetters` and the statements built on `Lower` hold for this ASCII-only lowercasing.
- Ranking.Round3: works on exact reals. numpy rounds binary floating-point values, so its results can differ at values that are not exactly representable. Floating point is not modelled.
- The display (app.py:48-66, 91-116) is not modelled: page layout, the pie chart `show_pie_chart`, the role badge, the `int(score*100)` percentages and the 1000-character preview.
- The uploader's `type=['pdf', 'docx']` filter (app.py:71) belongs to the widget. The model takes any file name and follows the code's case-sensitive `endswith('.pdf')` test, so every other name goes to the DOCX branch.
