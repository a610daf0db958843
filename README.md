# TF-IDF question answering demo in Spanish: the text pipeline, in Dafny

The page takes a block of documents, one per line, and a question in
Spanish. It shows which document best answers the question by TF-IDF
weighting and cosine similarity. This project models the logic the page
owns itself, and proves properties of it:

- **The normaliser `tokenize_and_stem`** (module `Normalizer`). It
  lower-cases the text and replaces every character outside
  `[a-záéíóúüñ\s]` with one space. It splits on runs of whitespace, drops
  tokens of one character, and stems the rest. The Spanish Snowball
  stemmer is a foreign algorithm, so it is the parameter
  `stem: string -> string`, and nothing is assumed about it.
- **Corpus preparation and input validation** (module `Corpus`). The text
  area is split on `"\n"` and each line is stripped. Blank lines are
  dropped. An empty corpus is reported first ("Ingresa al menos un
  documento"), then a blank question ("Escribe una pregunta").
- **Answer selection** (module `Retrieval`). It takes the first document
  with the highest similarity (numpy's `argmax`). The answer is confident
  exactly when that similarity is above the threshold. The threshold is the
  binary double that Python's literal `0.01` denotes. The similarities are an
  input, one per document. The module also defines the vectorizer's
  vocabulary as a set of stems.
- Module `Chars` holds the character classes. These are the Spanish
  letters, the upper-case letters the model lower-cases, and Python's
  whitespace set. That set is the same for `str.isspace`, `\s` in a `str`
  pattern, `str.split()` and `str.strip()`.

Everything is pure functions and lemmas, as in the source. The source has
no mutable state outside the UI.

Two facts are proved about how validation and vectorising fit together:

- Validation does not look at the vocabulary. Take a text area with at
  least one non-blank line and no two adjacent letters in any of its
  documents, for example one holding just "1" or "a", together with a
  question that is not blank. That input passes both checks, but its
  vocabulary is empty (`Retrieval.NoLetterPairsPassesValidation`,
  `Retrieval.OneCharPassesValidation`, `Retrieval.VocabularyEmptyIff`).
  The source then fits the vectorizer at Inicio.py:82. That call raises an
  "empty vocabulary" error, and the analysis stops there.
- The question is checked after stripping (Inicio.py:72) but handed to
  the vectorizer unstripped (Inicio.py:94). Stripping does not change the
  question's stems (`Retrieval.StripStems`), so the scores would be the
  same either way.

One stem per surviving token, in the tokens' order and with duplicates
kept, is the definition of `Normalizer.TokenizeAndStem` itself. The
lemmas in the table below are about the tokens and how they arise.

## Model

| member | source | states |
|---|---|---|
| `Chars.LowerChar` | Inicio.py:24 | Each capital A-Z becomes the small letter at the same place in the alphabet, and Á É Í Ó Ú Ü Ñ become á é í ó ú ü ñ. No upper-case letter is left, every other character is unchanged, and whitespace stays whitespace. |
| `Normalizer.CleanTextAlphabet` | Inicio.py:24-26 | Lower-casing plus substitution keeps the length. Every position becomes a lower-case Spanish letter or whitespace. Capitals become their small letters. Letters and whitespace stay as they were. A character that is neither whitespace nor a letter after lower-casing becomes one space. |
| `Normalizer.CleanTextAppend` | Inicio.py:24-26 | The character filter works character by character, so it distributes over concatenation. |
| `Normalizer.CleanTextIdempotent` | Inicio.py:24-26 | Running lower-casing and substitution on their own output changes nothing. |
| `Normalizer.WordLen` | Inicio.py:28 | Gives the length of the maximal whitespace-free prefix. Every character before it is non-whitespace, and the character at it is whitespace or the end of the text. |
| `Normalizer.Split` | Inicio.py:28 | Every token of `split()` is non-empty and has no whitespace. |
| `Normalizer.SplitAtSpace` | Inicio.py:28 | A whitespace character separates: tokens of `a + [c] + b` are the tokens of `a` followed by those of `b`. |
| `Normalizer.SplitWord` | Inicio.py:28 | A non-empty run without whitespace is one token, itself. |
| `Normalizer.SplitAllSpace` | Inicio.py:28 | Text made only of whitespace has no tokens. |
| `Normalizer.SplitJoin` | Inicio.py:28 | Splitting words joined by single spaces gives the words back, in order. |
| `Normalizer.SplitLetters` | Inicio.py:26-28 | In text of letters and whitespace, every token is made only of letters. |
| `Normalizer.LongTokensSpec` | Inicio.py:28 | The length filter keeps only tokens longer than one character. Each kept token appears as many times as in its input, and the output is never longer. |
| `Normalizer.LongTokensAppend` | Inicio.py:28 | The length filter keeps relative order: filtering a concatenation is concatenating the filtered parts. |
| `Normalizer.LongTokensKeepLetters` | Inicio.py:26-28 | If every token is made of letters, so is every surviving token. |
| `Normalizer.TokensSpec` | Inicio.py:22-31 | Every surviving token has at least two characters, all lower-case Spanish letters. The tokens are the long tokens of the filtered text, with their multiplicities. |
| `Normalizer.TokenizeAndStemAtSpace` | Inicio.py:22-31 | Whitespace anywhere in the input splits the stems: the stems of `a + [c] + b` are those of `a` followed by those of `b`. |
| `Normalizer.TokenizeAndStemOtherChar` | Inicio.py:24-26 | A character that is not a letter after lower-casing acts exactly like a space. |
| `Normalizer.TokenizeAndStemWord` | Inicio.py:22-31 | A word of two or more letters gives one stem: the stem of its lower-case form. |
| `Normalizer.TokenizeAndStemLetter` | Inicio.py:28 | A one-character text gives no stems. |
| `Normalizer.TokenizeAndStemEmpty` | Inicio.py:22-31 | The empty text gives no stems. |
| `Normalizer.LongTokensOfSplitEmpty` | Inicio.py:28 | A string has no token of two or more characters exactly when it has no two adjacent non-whitespace characters. |
| `Normalizer.CleanTextWordPair` | Inicio.py:24-26 | The filtered text has two adjacent non-whitespace characters exactly when the input has two adjacent characters that are letters after lower-casing. |
| `Normalizer.TokenizeAndStemEmptyIff` | Inicio.py:22-31 | No stems come out exactly when no two adjacent characters of the text are letters after lower-casing. |
| `Normalizer.ExampleQuestion` | Inicio.py:22-31 | "¿Qué es y?" gives the stems of "qué" and "es". The question marks become spaces and the lone "y" is dropped. |
| `Corpus.LineLen` | Inicio.py:68 | Gives the position of the first "\n", or the length when there is none. |
| `Corpus.SplitLines` | Inicio.py:68 | `split("\n")` always gives at least one piece, and no piece holds a "\n". |
| `Corpus.JoinSplitLines` | Inicio.py:68 | Joining the pieces with "\n" gives back the text. |
| `Corpus.SplitJoinLines` | Inicio.py:68 | Splitting lines that hold no "\n", after joining them, gives the lines back. |
| `Corpus.LeadLen` | Inicio.py:68 | Counts the leading whitespace, which is exactly the whitespace prefix up to the first non-whitespace character. |
| `Corpus.TrailLen` | Inicio.py:68 | Counts the trailing whitespace, which is exactly the whitespace suffix after the last non-whitespace character. |
| `Corpus.Strip` | Inicio.py:68 | `strip()` gives an empty result or one that starts and ends with non-whitespace. It is empty exactly when the line is all whitespace. |
| `Corpus.StripSlice` | Inicio.py:68 | The stripped line is a contiguous part of the line, with only whitespace before and after it. |
| `Corpus.StripUnique` | Inicio.py:68 | Stripping is determined by those properties: whitespace + core + whitespace strips to the core. |
| `Corpus.StripIdempotent` | Inicio.py:68 | Stripping twice is stripping once. |
| `Corpus.NonBlankSpec` | Inicio.py:68 | There are no more documents than lines. Every document is non-empty and already stripped. |
| `Corpus.NonBlankAppend` | Inicio.py:68 | Lines are kept in their relative order: the documents of two blocks of lines are the first block's followed by the second's. |
| `Corpus.NonBlankSingle` | Inicio.py:68 | A blank line gives no document. Any other line gives its stripped form. |
| `Corpus.DocumentsOfLines` | Inicio.py:68 | For a text made of lines, the corpus holds the stripped non-blank lines in order, and it is no longer than the number of lines. |
| `Corpus.DocumentsEmptyIff` | Inicio.py:68-71 | The corpus is empty exactly when the whole text area is whitespace. |
| `Corpus.Validate` | Inicio.py:70-74 | An empty corpus is reported first. A whitespace-only question is reported only when there are documents. Analysis proceeds exactly when there are documents and the question is not blank. |
| `Retrieval.ArgMax` | Inicio.py:98 | `argmax` gives an index in range. Its score is at least every score and strictly greater than every score before it, so the first maximum wins. |
| `Retrieval.ArgMaxUnique` | Inicio.py:98 | Those two properties single out the index: no other position has them. |
| `Retrieval.ArgMaxTie` | Inicio.py:98 | When all scores are equal, the first document wins. |
| `Retrieval.Select` | Inicio.py:98-111 | The answer's document is `documents[best_idx]` and its score is `similarities[best_idx]`. That score is the first maximum, and the answer is confident exactly when the score is above the threshold. The threshold is the double that the literal `0.01` denotes, slightly above the decimal 0.01. |
| `Retrieval.SelectAllZero` | Inicio.py:98-111 | With all similarities zero, the first document is returned with low confidence. |
| `Retrieval.Analyze` | Inicio.py:67-111 | A whitespace-only text area gives the "no documents" error. Otherwise a blank question gives the "no question" error. Otherwise the answer is the selection over the corpus. |
| `Retrieval.VocabularySpec` | Inicio.py:76-82 | With `min_df=1`, a string is a vocabulary entry exactly when it is a stem of at least one document. |
| `Retrieval.VocabularyEmptyIff` | Inicio.py:76-82 | The vocabulary is empty exactly when no document has two adjacent letters. |
| `Retrieval.NoLetterPairsPassesValidation` | Inicio.py:68-82 | A text area with a non-blank line and no two adjacent letters in any document, together with a non-blank question, passes validation while its vocabulary is empty. |
| `Retrieval.LeadingSpaceStems` | Inicio.py:22-31 | Whitespace in front of a text adds no stems. |
| `Retrieval.TrailingSpaceStems` | Inicio.py:22-31 | Whitespace after a text adds no stems. |
| `Retrieval.StripStems` | Inicio.py:72-94 | The stripped question that is validated and the unstripped question that is vectorised have the same stems. |
| `Retrieval.OneCharPassesValidation` | Inicio.py:68-82 | A text area of one non-whitespace character, with a non-blank question, passes validation as a one-document corpus, and its vocabulary is empty. |

## Left out

- Streamlit layout, buttons, the suggested-question session state and all rendering (Inicio.py:8-17, 33-66, 85-91, 102-111 output calls). These are UI.
- The TF-IDF fitting and transform: IDF smoothing, L2 normalisation and column order (Inicio.py:76-82, 94). This is a foreign library with floating-point numerics. Only the vocabulary as a set of stems is modelled.
- The vectorizer's error on an empty vocabulary. The model does not capture that this error stops the analysis. `Retrieval.Analyze` takes whatever scores it is given, and `Retrieval.NoLetterPairsPassesValidation` and `Retrieval.OneCharPassesValidation` show which inputs reach this case.
- `cosine_similarity` (Inicio.py:95). This is floating-point linear algebra in a foreign library. The similarities are an input to `Retrieval.Analyze` and `Retrieval.Select`, one real number per document.
- The Snowball stemming rules (Inicio.py:20, 30). This is a foreign algorithm, so it is the parameter `stem`.
- Chars.LowerChar: it models `str.lower()` only for A-Z and Á É Í Ó Ú Ü Ñ, and leaves every other character unchanged. Any other upper-case letter whose lower-case form is also outside `[a-záéíóúüñ]` ends as a space either way. The few characters whose lower-case form is an ASCII letter are turned into a space here and not into that letter. Examples are the Kelvin sign and the dotted capital I. The dotted capital I lower-cases to two characters in Python: 'i' followed by U+0307. The source therefore keeps an 'i' and then a space, and the text gets one character longer there. The model keeps the length and gives one space instead.
- The vectorizer lower-cases the text once more before calling the tokenizer. This changes nothing: lower-casing is idempotent here (`Chars.LowerChar` never yields an upper-case letter and leaves other characters unchanged).
- NaN similarities. Reals have no NaN, so numpy's NaN handling in `argmax` is not modelled.
- The wording of the two error messages and the 3-decimal display rounding. These are presentation only.
