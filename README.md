# Text clustering pipeline: tokenizer, TF/DF vectorizer, K-Means

This project models the algorithmic core of a small document-clustering
program: raw text becomes tokens, tokens become a vector of term-frequency /
document-frequency ratios, and vectors are grouped by K-Means.

- `Tokenizer.dfy` (module `Tokenizer`): `AlphaOnlyTokenizer.clean`. The string
  chain (delete everything but ASCII letters and spaces, lowercase, `trim`,
  `split("\\s+")`) is a set of functions. It includes Java's quirk that an
  empty string splits into one empty token. The stopword pass is the method
  `Clean`, whose nested loops are proved equal to `CleanSpec`.
- `Vectorizer.dfy` (module `Vectorizer`): `TFIDFVectorizer`.
  - The constructor builds the document-frequency map in a loop and prunes it,
    then lists its keys as the vocabulary.
  - `GetTermFreq` counts words.
  - `Embed` fills an array with Java's Integer/Integer floor quotient.
  - The vocabulary order, which comes from a `HashMap`, is any duplicate-free
    listing of the keys.
- `Clustering.dfy` (module `Clustering`): `KMeans`.
  - `centroids` is an array of k rows.
  - `Fit` runs the initial draw and then a fixed number of rounds. The random
    draw is replaced by injected indices `picks`.
  - `Infer` is the nearest-centroid scan, with the exact `<=` tie-break.
  - `Mean` averages coordinates.
  - The mean of an empty group is Java's row of NaNs (`0.0 / 0`). The model
    makes it an explicit `Undefined` centroid, and `Infer` compares its NaN
    distance the way Java compares doubles:
    - an undefined centroid at index 0 captures every vector;
    - an undefined centroid at any other index is never chosen.

The code behaves as follows in four places where a reader might expect otherwise:

- An input without letters cleans to `[""]`, not to an empty sequence (the empty string splits into one empty token). It cleans to `[]` only when `""` is a stopword.
- Idempotence of clean holds except in one case: when every token of the first result is a stopword, the result is `[]`, and cleaning the empty joined text gives `[""]` again (`Tokenizer.CleanIdempotent` states the exact condition).
- The embedding divides two Java `Integer`s, so the three-document example `[["a","b","b"],["a","c","c"],["b","b","c"]]` embeds `["a","b","b"]` as `[0, 1, 0]`, not `[0.5, 1.0, 0.0]` (`Vectorizer.CorpusEmbedding`).
- Ties in `infer` go to the last minimal index, because the comparison is `<=`.

## Model

| member | source | states |
|---|---|---|
| Tokenizer.AlphaOnlyTokenizer.constructor | AlphaOnlyTokenizer.java:13-15 | the stopword list is the one given |
| Tokenizer.AlphaOnlyTokenizer.Clean | AlphaOnlyTokenizer.java:21-43 | the result is the split tokens with every lowercased-stopword token removed (order and duplicates kept); every token is lowercase ASCII letters; no token equals a lowercased stopword |
| Tokenizer.AlphaOnlyTokenizer.MatchesStopword | AlphaOnlyTokenizer.java:30-35 | the flag is set exactly when some stopword, lowercased, equals the word |
| Tokenizer.KeepAlphaSpace | AlphaOnlyTokenizer.java:22 | the filtered text holds only ASCII letters and spaces and is no longer than the input |
| Tokenizer.KeepAlphaSpaceKeepsLetters | AlphaOnlyTokenizer.java:22 | the filter keeps every letter of the input, in order |
| Tokenizer.KeepAlphaSpaceOfConcat | AlphaOnlyTokenizer.java:22 | the filter works character by character: filtering `a + b` gives the filtered `a` followed by the filtered `b` |
| Tokenizer.KeepAlphaSpaceOfChar | AlphaOnlyTokenizer.java:22 | a single letter or space is kept and any other single character leaves nothing; with the concatenation lemma this fixes the filter on every input |
| Tokenizer.KeepAlphaSpaceWithoutSpaces | AlphaOnlyTokenizer.java:22 | on text without spaces the filter returns exactly the letters, so a deleted character leaves no gap (`"a1b"` gives `"ab"`) |
| Tokenizer.LettersOfLower | AlphaOnlyTokenizer.java:23 | lowercasing and taking the letters commute |
| Tokenizer.LowerKeepsShape | AlphaOnlyTokenizer.java:23 | lowercasing letters-and-spaces text keeps the spaces where they are and turns every other character into a lowercase letter |
| Tokenizer.Trim | AlphaOnlyTokenizer.java:24 | the trimmed text neither starts nor ends with a character up to U+0020 |
| Tokenizer.TrimKeepsLetters | AlphaOnlyTokenizer.java:24 | trim removes only spaces from letters-and-spaces text: the letters are all kept |
| Tokenizer.Words | AlphaOnlyTokenizer.java:24 | the split pieces are non-empty, contain no space, and are made of characters of the text |
| Tokenizer.WordsOfWord | AlphaOnlyTokenizer.java:24 | a non-empty space-free word splits into itself |
| Tokenizer.WordsOfSpaceConcat | AlphaOnlyTokenizer.java:24 | a space always separates: splitting `a + " " + b` gives the pieces of `a` followed by those of `b`, however many spaces surround it |
| Tokenizer.JavaSplit | AlphaOnlyTokenizer.java:24 | the split is never empty, and it holds an empty token exactly when the trimmed text is empty |
| Tokenizer.ConcatOfWords | AlphaOnlyTokenizer.java:24 | the split pieces concatenated are the letters of the text |
| Tokenizer.WordsOfJoin | AlphaOnlyTokenizer.java:24 | splitting non-empty space-free words joined by single spaces gives the words back |
| Tokenizer.TokensShape | AlphaOnlyTokenizer.java:22-24 | text without letters splits into `[""]`; otherwise every token is a non-empty lowercase word |
| Tokenizer.Tokens | AlphaOnlyTokenizer.java:22-24 | every token is lowercase ASCII letters, and the tokens are `[""]` exactly when the input has no letter |
| Tokenizer.TokensOfSpaceFreeText | AlphaOnlyTokenizer.java:22-24 | text without spaces but with a letter gives one token, its letters lowercased |
| Tokenizer.RemoveStopwords | AlphaOnlyTokenizer.java:26-42 | the result is no longer than the input and holds no lowercased stopword |
| Tokenizer.RemoveStopwordsSubset | AlphaOnlyTokenizer.java:28-40 | every kept token is an input token that matches no lowercased stopword |
| Tokenizer.RemoveStopwordsCounts | AlphaOnlyTokenizer.java:26-42 | a token occurs in the result as often as in the input when it is not a stopword, and never when it is |
| Tokenizer.RemoveStopwordsOfConcat | AlphaOnlyTokenizer.java:26-42 | the stopword pass works token by token, so the order of the tokens is preserved |
| Tokenizer.RemoveStopwordsIdentity | AlphaOnlyTokenizer.java:28-40 | tokens that are not stopwords are all kept |
| Tokenizer.RemoveNoStopwords | AlphaOnlyTokenizer.java:28-40 | an empty stopword list keeps every token |
| Tokenizer.CleanTokensAreLowerWords | AlphaOnlyTokenizer.java:22-24 | every output token consists only of the letters `a`-`z` |
| Tokenizer.CleanDropsStopwords | AlphaOnlyTokenizer.java:28-40 | no output token equals `s.toLowerCase()` for a stopword `s` |
| Tokenizer.CleanEmptyToken | AlphaOnlyTokenizer.java:22-24 | if the filtered text has a letter, no token is empty; if it has none, the result is `[""]`, or `[]` when `""` is a stopword |
| Tokenizer.CleanConcatIsLetters | AlphaOnlyTokenizer.java:22-24 | with no stopwords, the tokens concatenated are the lowercased letters of the input, in order |
| Tokenizer.CleanOfEmptyText | AlphaOnlyTokenizer.java:22-42 | the empty text cleans to `[""]`, or to `[]` when `""` is a stopword |
| Tokenizer.CleanOfJoinedWords | AlphaOnlyTokenizer.java:21-43 | cleaning non-stopword lowercase words joined by spaces gives the words back |
| Tokenizer.CleanIdempotent | AlphaOnlyTokenizer.java:21-43 | `clean(join(clean(t)))` equals `clean(t)`, except that an empty first result becomes `[""]` unless `""` is a stopword |
| Tokenizer.StopwordScenario | AlphaOnlyTokenizer.java:21-43 | `"The Vaccine is Safe 123"` with stopwords `the`, `is` cleans to `["vaccine", "safe"]` |
| Vectorizer.TFIDFVectorizer.constructor | TFIDFVectorizer.java:26-44 | the table maps each term to the number of documents in which it occurs more than `minOccurence` times, with the terms of every document removed; the vocabulary lists its keys once each; an empty corpus gives an empty vocabulary |
| Vectorizer.TFIDFVectorizer.CountDocument | TFIDFVectorizer.java:29-38 | after one more document, each term maps to the number of documents seen so far, this one included, in which it occurs more than `minOccurence` times |
| Vectorizer.TFIDFVectorizer.AddDocument | TFIDFVectorizer.java:31-38 | each surviving term of one document gains one document; new terms start at one; no other entry changes |
| Vectorizer.TFIDFVectorizer.KeysOf | TFIDFVectorizer.java:42 | the key listing has no duplicates and holds exactly the keys of the table |
| Vectorizer.TFIDFVectorizer.GetTermFreq | TFIDFVectorizer.java:50-60 | the keys are exactly the words of the document and each value is that word's number of occurrences |
| Vectorizer.TermFreqSumsToLength | TFIDFVectorizer.java:50-60 | the values of a term-count table add up to the length of the document, whatever the key order |
| Vectorizer.PrunedTermFreq | TFIDFVectorizer.java:29-30 | after pruning, the keys are the terms that occur more than `minOccurence` times |
| Vectorizer.RawDocFreqStep | TFIDFVectorizer.java:28-39 | one more document adds one to the count of each of its surviving terms |
| Vectorizer.RawDocFreq | TFIDFVectorizer.java:26-39 | after the loop every key maps to a count between 1 and the number of documents |
| Vectorizer.DocFreq | TFIDFVectorizer.java:26-41 | after the final pruning every key maps to a count of at least 1 and below the number of documents |
| Vectorizer.DocCountPositive | TFIDFVectorizer.java:33-37 | a term is in the table exactly when it survives in at least one document |
| Vectorizer.DocCountAtMost | TFIDFVectorizer.java:28-39 | no term is counted in more documents than there are |
| Vectorizer.DocCountAll | TFIDFVectorizer.java:41 | a term's count equals the number of documents exactly when it survives in every document |
| Vectorizer.DocFreqMeaning | TFIDFVectorizer.java:28-41 | a term is kept exactly when `1 <= count < |documents|`, and its value is its count |
| Vectorizer.UniversalTermsPruned | TFIDFVectorizer.java:41 | a term that survives in every document is not in the vocabulary |
| Vectorizer.EmptyCorpus | TFIDFVectorizer.java:41-42 | an empty corpus gives an empty table |
| Vectorizer.DistinctCardinality | TFIDFVectorizer.java:42 | a duplicate-free listing of the keys has as many elements as the table |
| Vectorizer.TFIDFVectorizer.Embed | TFIDFVectorizer.java:66-79 | the embedding has one coordinate per vocabulary term, equal to the term's count in the document divided by its document frequency, rounding down |
| Vectorizer.Embedding | TFIDFVectorizer.java:66-79 | one coordinate per vocabulary term, none larger than the term's count in the document |
| Vectorizer.EmbeddingCoordinates | TFIDFVectorizer.java:70-76 | a term absent from the document gives 0, and no coordinate exceeds the term's count |
| Vectorizer.OutOfVocabularyIsZero | TFIDFVectorizer.java:67-76 | a document made only of out-of-vocabulary words embeds to all zeros |
| Vectorizer.TFIDFVectorizer.GetDimension | TFIDFVectorizer.java:81-83 | the dimension is the number of entries of the table |
| Vectorizer.TFIDFVectorizer.GetVocab | TFIDFVectorizer.java:85-87 | the vocabulary has no duplicates, holds exactly the keys of the table, and has as many elements |
| Vectorizer.SurvivorsBelowOne | TFIDFVectorizer.java:30 | with `minOccurence` below one, every word of a document survives |
| Vectorizer.CorpusDocFreq | TFIDFVectorizer.java:26-41 | the three-document example gives the table `a:2, b:2, c:2` |
| Vectorizer.CorpusEmbedding | TFIDFVectorizer.java:66-79 | in any vocabulary order, `["a","b","b"]` embeds to 1 for `b` and 0 for `a` and `c` |
| Clustering.KMeans.constructor | KMeans.java:15-20 | k centroids, each `embeddingDimension` zeros |
| Clustering.KMeans.Fit | KMeans.java:27-53 | the centroids after fit are those of `Train`, started from the injected draw, for `max(0, trainingIterations)` rounds; there are still k of them |
| Clustering.KMeans.DrawCentroids | KMeans.java:29-33 | centroid i becomes the vector at the injected index picks[i] |
| Clustering.KMeans.RunRounds | KMeans.java:35-52 | the centroids after the rounds are `Train` of the centroids before them, for `max(0, trainingIterations)` rounds |
| Clustering.KMeans.RunRound | KMeans.java:36-51 | one round replaces the centroids by `Step` of the centroids before it |
| Clustering.KMeans.AssignGroups | KMeans.java:36-45 | group j lists, in input order, the vectors that infer assigns to centroid j |
| Clustering.KMeans.UpdateCentroids | KMeans.java:47-51 | every centroid becomes the mean of its group |
| Clustering.InitialCentroids | KMeans.java:29-33 | k centroids, each equal to one of the input vectors |
| Clustering.GroupCovers | KMeans.java:41-49 | every member of a group is wide enough for mean, since it is an input vector |
| Clustering.GroupMembership | KMeans.java:41-45 | a vector is in group j exactly when it is an input vector whose nearest centroid is j |
| Clustering.GroupsPartition | KMeans.java:41-45 | with k >= 1, the group sizes add up to the number of vectors |
| Clustering.Step | KMeans.java:36-51 | one round keeps the number of centroids and their shape |
| Clustering.Train | KMeans.java:35-52 | the rounds keep the number of centroids and their shape |
| Clustering.TrainShape | KMeans.java:47-50 | after at least one round every defined centroid has exactly `embeddingDimension` coordinates; with no vectors every centroid is the NaN row (or empty when there is no coordinate) |
| Clustering.KMeans.Infer | KMeans.java:59-76 | the index is `Nearest`; it is below k when k >= 1 and 0 when k = 0; a NaN distance to centroid 0 gives 0; otherwise it is the last index with the least numeric distance |
| Clustering.DistanceTo | KMeans.java:64-68 | the distance is NaN exactly for a NaN row with at least one coordinate, and otherwise a number that is not negative |
| Clustering.Scan | KMeans.java:60-74 | the index held by the loop is 0 before any centroid and below the number of centroids seen after |
| Clustering.Nearest | KMeans.java:59-76 | the returned index is 0 with no centroid and below k otherwise |
| Clustering.NearestIsLastMinimum | KMeans.java:59-76 | what infer returns in every case: the bounds, the NaN case, and otherwise the last index minimising the squared Euclidean distance |
| Clustering.ScanState | KMeans.java:63-74 | after i centroids, the loop holds the least numeric distance seen and the last index attaining it, or NaN at index 0 |
| Clustering.LastNearestUnique | KMeans.java:70 | at most one index is the last index of the minimum, so the tie-break fixes the answer |
| Clustering.NearestWhenDefined | KMeans.java:63-74 | when every centroid is defined, the returned centroid is at a least squared Euclidean distance from the vector |
| Clustering.SingleCentroid | KMeans.java:60-75 | with one centroid, infer returns 0 |
| Clustering.ZeroDimensionPicksLast | KMeans.java:64-70 | with no coordinate, every distance is 0 and the last centroid is returned |
| Clustering.SqDistNonNegative | KMeans.java:64-68 | the squared distance is never negative |
| Clustering.SqDistZero | KMeans.java:64-68 | the squared distance is 0 exactly when the compared coordinates agree |
| Clustering.MeanOf | KMeans.java:90-101 | the mean of an empty group is the NaN row when there is a coordinate; otherwise it has exactly `embeddingDimension` coordinates |
| Clustering.KMeans.Mean | KMeans.java:90-101 | coordinate i is the sum of the i-th coordinates divided by the group size; an empty group gives the NaN row |
| Clustering.ColumnSumOfCopies | KMeans.java:94-97 | the column sum of n copies of a vector is n times its coordinate |
| Clustering.MeanOfCopies | KMeans.java:90-101 | the mean of copies of one vector is that vector |
| Clustering.KMeans.GetK | KMeans.java:78-80 | k is the number of centroids |
| Clustering.KMeans.GetCentroids | KMeans.java:82-84 | k centroids, each wide enough for infer |
| Clustering.TwoPairsScenario | KMeans.java:27-76 | on two pairs of equal points with one initial centroid on each pair, one round keeps both centroids and infer separates the pairs |

## Left out

- URLReader.java: fetching pages and stripping tags are network I/O and are not part of this model.
- UnsupervisedClassifier.java: the driver's hard-coded URLs, console output and top-terms report are not part of this model.
- The vocabulary size printed at TFIDFVectorizer.java:43 is console output and is not modelled.
- `java.util.Random` at KMeans.java:30-31 is replaced by the parameter `picks` of `Fit`. It holds k indices into the vectors.
- Doubles are modelled as reals. Rounding, overflow to infinity and NaN from any source other than the empty-group mean are not modelled.
- `toLowerCase` is modelled for the ASCII letters only. For the text at AlphaOnlyTokenizer.java:23 that is exact, because only ASCII letters and spaces reach it. Stopwords at AlphaOnlyTokenizer.java:32 are lowercased as given, and the model lowercases their ASCII letters only. A non-ASCII stopword that Java lowercases to ASCII letters is not modelled: the Kelvin sign U+212A, for example, lowercases to `k` in Java, and then Java drops the token `k` while the model keeps it. The locale is not modelled.
- Null strings, arrays and list elements are not modelled. Most of them make the Java code throw. A null token in a vectorizer document does not: `HashMap` accepts a null key, so TFIDFVectorizer.java:52-57 counts it like any other word.
- HashMap iteration order is not modelled. The vocabulary is any duplicate-free listing of the keys, and the order in which `AddDocument` visits a document's terms does not matter.
- Clustering.KMeans.Fit: requires `picks` to index the vectors. In Java, an empty vector array with k >= 1 makes `Random.nextInt(0)` throw, and the model excludes that case.
- Clustering.KMeans.Fit: requires k >= 1 when there is a vector and at least one round. With k = 0, Java's `groups[0]` throws.
- Clustering.KMeans.Fit: always requires every vector to have at least `embeddingDimension` coordinates, so that every centroid stays wide enough for a later infer. Java throws on a shorter vector only once a round runs with k >= 1; with no round (KMeans.java:35) a short vector can become a centroid without an error.
- Clustering.KMeans.Infer: requires the vector to have at least `embeddingDimension` coordinates. Java throws on a shorter one only when k >= 1 and the row is read; with k = 0 the loop at KMeans.java:63 never runs and infer returns 0.
- Clustering.KMeans.constructor: `k` and `embeddingDimension` are naturals. Negative values make Java throw `NegativeArraySizeException`.
- Clustering.KMeans.Fit: rows are values, so aliasing is not modelled. After the draw, Java's centroid rows share storage with the input vectors. Fit never writes into a row, so the inputs are never modified, and in the model they are immutable.
- Clustering.KMeans.GetCentroids: returns a copy of the rows, whereas Java returns the array itself.
- Vectorizer.TFIDFVectorizer.GetVocab: returns the vocabulary as a value, whereas Java returns its internal array, which a caller could modify.
- Vectorizer.TFIDFVectorizer.Embed: returns naturals. Java returns the same integer quotients widened to `double`.
