# resume-ranker ranking engine in Dafny

This project models the ranking engine of resume-ranker. It covers four backend files:

- **backend/app/models.py**, `extract_text_from_pdf` (module `PdfText`). The direct pass
  concatenates the non-empty text layer of every page, each followed by a newline. When the
  fallback is enabled and that text is whitespace-only, an OCR pass appends the recognised text of
  every page the same way. The function returns the text together with the `used_ocr` flag.
- **backend/model.py**, `extract_text` and `rank_resumes` (module `TfidfRanking`). The extractor
  reads `.txt` files as text. It reads everything else as a PDF with the same page rule, and any
  failure gives the empty string. The ranker keeps folder entries whose lower-cased name ends
  with `.pdf` or `.txt`. It gives each one a record: "no text" (score 0), "transform failed"
  (score 0) or a percentage score. It then stable-sorts the records by score, highest first.
- **backend/app/main.py**, lines 93-113 of the `/rank` route (module `EmbeddingRanking`). It
  computes the cosine similarity of the query vector with every stored embedding, with `1e-10`
  added to the denominator. It stable-sorts the pairs by score and copies them into the response.
- **backend/app.py**, the file filter and the two 400 errors of `/rank` (module
  `UploadValidation`). An empty upload is rejected. Files whose lower-cased extension is `.pdf`
  or `.txt` are kept and saved in upload order, and a blank text only triggers a warning. The
  request is rejected when nothing was kept.

Shared modules:

- `Pages`: the page-concatenation rule.
- `Text`: `str.lower`, `str.endswith`, the blank test `not s.strip()`, `os.path.splitext` and
  `os.path.join`.
- `StableSort`: Python's stable `list.sort(reverse=True)`. It is written as a reference insertion
  sort, plus a uniqueness lemma: every sorted order that keeps equal keys in input order equals it.
- `Vectors`: dot product, the Euclidean-norm abstraction and Cauchy-Schwarz.
- `Seqs`: order-preserving filtering.
- `Wrappers`: `Option` and `Result`.

Each imperative function is a `method` whose loops mirror the source. Its `ensures` ties the
result to a specification function. The lemmas state what the source promises about that function.

Foreign libraries become inputs:

- What PyPDF2, PyMuPDF and tesseract read from a file: per-page texts, or a failure.
- The fitted TF-IDF transform: a function from text to a similarity or a `ValueError`.
- werkzeug's `secure_filename`: a function parameter.
- `np.linalg.norm`: any function that is non-negative and squares to the dot product of a vector
  with itself. That it is zero exactly for the zero vector is proved, not assumed.

Where the specification and the code differ, the model follows the code:

- `extract_text` in backend/model.py does not report an unreadable PDF as an error; it returns "".
  In backend/app/models.py, a document that cannot be opened does raise, and the model returns
  `Failure` there.
- Files whose names fail the suffix filter are not accounted for: `rank_resumes` skips them.
- Each non-empty page is followed by "\n" (a terminator, not a separator).

## Model

| member | source | states |
|---|---|---|
| PdfText.Extracted | backend/app/models.py:16-37 | OCR runs exactly when the fallback is enabled and every page's text layer is whitespace-only. When it runs, the OCR pages are appended after the direct text. Otherwise the direct text is returned unchanged. With the fallback disabled the flag is always false. |
| PdfText.ExtractTextFromPdf | backend/app/models.py:7-37 | A document that cannot be opened fails. Otherwise the two loops and the flag give exactly `Extracted(pages, ocrIfEmpty)`. |
| PdfText.AppendPages | backend/app/models.py:20-23 | One pass over the pages appends each non-empty page text plus a newline, in page order. The existing text stays as the prefix. |
| PdfText.DirectTextIsPrefix | backend/app/models.py:16-35 | The direct-pass text is always a prefix of the result. It equals the in-order concatenation of the non-empty page texts only. |
| PdfText.EmptyTextAfterOcr | backend/app/models.py:28-37 | A scan with an empty text layer and an empty OCR reading returns `("", True)`: empty text is a valid result after OCR. |
| PdfText.WhitespaceLayerKept | backend/app/models.py:28-35 | A whitespace-only text layer triggers OCR and stays in front of the OCR text. |
| Pages.JoinSkipsEmptyPages | backend/app/models.py:20-23 | Empty pages contribute nothing: joining all pages equals joining only the non-empty ones. |
| Pages.JoinBlankIff | backend/app/models.py:28 | The joined text is whitespace-only exactly when every page text is. |
| Pages.JoinEmptyIff | backend/model.py:23-26 | The joined text is empty exactly when every page text is empty. |
| TfidfRanking.ExtractedTextCases | backend/model.py:14-30 | A ".txt" extension (case-insensitive) gives the file's text. Otherwise an unreadable PDF or any failing page gives "". A fully read PDF gives its non-empty page texts, in order, each followed by a newline. |
| TfidfRanking.PagesTextCases | backend/model.py:20-29 | Reading the pages fails exactly when some page raises. Otherwise it yields the joined page texts. |
| TfidfRanking.ExtractText | backend/model.py:14-18 | The dispatch on the lower-cased extension returns `ExtractedText`. |
| TfidfRanking.ReadPdf | backend/model.py:19-30 | The page loop, with its early exit on the first failure, returns the PDF branch's text. |
| TfidfRanking.Classify | backend/model.py:41-51 | The note is "no text" exactly for the empty text; a whitespace-only text is transformed. The note is "transform failed" exactly when the transform raises `ValueError`. A noted record scores 0; otherwise the score is 100 × similarity. The record keeps the file name. |
| TfidfRanking.RankResumes | backend/model.py:32-53 | The loop with its two `continue`s, then the sort, returns the stable descending sort of one record per qualifying entry. |
| TfidfRanking.RecordsAccounting | backend/model.py:37-51 | Exactly one record per qualifying entry, in folder order: record i is the outcome of the i-th qualifying entry. |
| TfidfRanking.RankedRecords | backend/model.py:37-53 | The output has one record per qualifying entry. It is a permutation of the records built and is sorted by score, non-increasing. Equal scores keep folder order. No record has a non-qualifying name. |
| TfidfRanking.QualifyingEntryRanked | backend/model.py:37-52 | Every qualifying entry's record appears in the output; none is dropped. |
| TfidfRanking.TieOrderExample | backend/model.py:52 | Records C (50), A (80), B (80), built in that order, are returned as A, B, C. |
| TfidfRanking.BareTxtReadAsPdf | backend/model.py:15-38 | A file named ".txt" passes the suffix filter, but its extension is empty, so its text contents are ignored and it is read as a PDF. |
| StableSort.SortByKeyDesc | backend/model.py:52 | The reference order keeps every item (same length, same multiset). Keys never increase, and the items of each key keep their input order. |
| StableSort.StableSortIsSortByKeyDesc | backend/app/main.py:101 | Any ordering that is sorted descending and keeps the items of each key in input order equals `SortByKeyDesc`. |
| StableSort.InsertPlacement | backend/model.py:52 | Inserting an item puts it right after an item whose key is at least its own and before a run of items whose keys are all smaller. |
| StableSort.SortSnocPlacement | backend/app/main.py:101 | Sorting one more item places it after every item whose key is at least its own and before every item whose key is smaller. The other items keep their sorted order. |
| Vectors.NormZeroIff | backend/app/main.py:98 | A Euclidean norm is zero exactly for the all-zero vector. |
| Vectors.DotBound | backend/app/main.py:98 | The dot product lies between minus and plus the product of the two norms (Cauchy-Schwarz). |
| EmbeddingRanking.Denominator | backend/app/main.py:98 | The denominator `norm(q)*norm(emb) + 1e-10` is at least 1e-10, so the division never fails. |
| EmbeddingRanking.Cosine | backend/app/main.py:95-98 | The similarity lies strictly between -1 and 1. It is exactly 0 when either vector is all zeros. |
| EmbeddingRanking.SelfSimilarity | backend/app/main.py:98 | A non-zero vector's similarity with itself is positive. It falls short of 1 by exactly 1e-10 / (\|v\|² + 1e-10). |
| EmbeddingRanking.Scores | backend/app/main.py:93-99 | One pair per fetched row, in row order, holding that row's id and its cosine similarity. |
| EmbeddingRanking.RankedScoresBounded | backend/app/main.py:98-101 | After sorting, every score still lies in (-1, 1), and all are 0 for an all-zero query. |
| EmbeddingRanking.ResponseProperties | backend/app/main.py:93-113 | The response has one entry per row, with non-increasing scores in (-1, 1), all 0 for an all-zero query. |
| EmbeddingRanking.Rank | backend/app/main.py:93-113 | The request fails exactly when some embedding's length differs from the query's. Otherwise the response is the sorted pairs, copied in order. |
| EmbeddingRanking.BuildResponse | backend/app/main.py:103-112 | The response has the sorted pairs' length and order, and each entry carries its pair's id and score. |
| UploadValidation.Rank | backend/app.py:56-86 | "No files provided" (400) exactly for an empty upload. "No valid resumes uploaded" (400) exactly when uploads exist but none is kept. Whenever some upload is kept the request is accepted, with the saved paths and the blank-text warnings of the filter loop. |
| UploadValidation.SavedPathsAccounting | backend/app.py:62-82 | One saved path per upload with an allowed extension, in upload order. The kept uploads are a subsequence of the uploads. |
| UploadValidation.NothingSavedIff | backend/app.py:63-86 | Nothing is saved exactly when no upload's lower-cased extension is ".pdf" or ".txt". |
| UploadValidation.AllowedUploadSaved | backend/app.py:64-82 | An upload with an allowed extension is saved whatever its text; a blank text does not drop it. |
| UploadValidation.BlankPathsSaved | backend/app.py:78-82 | Every path warned about for having no text is also a saved path. |
| UploadValidation.UploadFilterImpliesRankFilter | backend/app.py:65-68 | A name with an allowed extension also passes the `endswith` filter of `rank_resumes`. |
| UploadValidation.RankFilterImpliesUploadFilter | backend/model.py:38 | Conversely, a name that passes the `endswith` filter has an allowed extension when it has no '/' and a non-dot character before the suffix. |
| UploadValidation.BareSuffixRejectedAtUpload | backend/app.py:65-68 | Without that character the filters disagree: ".pdf" passes `endswith` but has an empty extension. |
| Text.ExtensionShape | backend/app.py:65 | The `splitext` extension is empty, or it is a suffix of the name that starts with its only dot and holds no '/'. A non-empty extension has a character other than a dot before it in the last path component (leading dots do not start an extension). |
| Text.ExtensionOfJoin | backend/model.py:15 | Joining a non-empty name without '/' onto a directory leaves its extension unchanged. So `extract_text` on the saved path sees the extension the upload filter tested. |
| Text.JoinPathShape | backend/model.py:40 | `os.path.join(dir, name)`: an absolute name replaces the directory. Otherwise the name follows the directory, with one '/' inserted only when the directory is non-empty and does not end with one. |
| Text.LowerSpec | backend/model.py:38 | `str.lower` keeps the length, turns each ASCII capital into its small letter, keeps every other character, and leaves no ASCII capital. |
| Text.Strip | backend/app/models.py:28 | `str.strip()` is a contiguous middle part of the text. Everything before and after it is whitespace, and it neither starts nor ends with whitespace. |
| Text.BlankIffStripEmpty | backend/app.py:79 | `not s.strip()` holds exactly when every character is whitespace in Python's `str.isspace` sense: space, '\t' to '\r', U+001C to U+001F, U+0085, U+00A0, U+1680, U+2000 to U+200A, U+2028, U+2029, U+202F, U+205F and U+3000. |
| Pages.JoinPages | backend/app/models.py:20-23 | The text built from the pages is empty or ends with a newline, since each non-empty page is followed by one. |

## Left out

- Database, network and e-mail calls (Supabase inserts and selects, the OpenAI embedding call, SendGrid) are left out. The embeddings arrive as parameters. `EmbeddingRanking.RankedResume` carries the resume id instead of the metadata row fetched at backend/app/main.py:111.
- The other routes, logging, CORS and file-size limits are left out.
- The file libraries are inputs: PyPDF2, PyMuPDF, tesseract/PIL and UTF-8 decoding with `errors="ignore"`.
- Exceptions from page rendering or OCR in backend/app/models.py are not modelled. Neither is a failure to open a `.txt` file in `extract_text`; both would propagate.
- TfidfRanking.Classify: the score is 100 × similarity as a real number. The `round(..., 2)` of backend/model.py:48 and all floating-point rounding are left out, and the same holds for `EmbeddingRanking.Cosine`.
- TfidfRanking.RankedRecords: because the rounding is left out, the sort key at backend/model.py:52 is the unrounded score, and "equal scores keep folder order" means equal before rounding. Scores 45.124 and 45.121 both round to 45.12 in the source, so their records keep folder order there; the model puts 45.124 first.
- TfidfRanking.Classify: only `ValueError` from the transform is modelled. Other exceptions would abort `rank_resumes`.
- Fitting the TF-IDF vectorizer on the job description, and the vectors it produces, are left out. Each text's transform outcome is a given function.
- Vectors.NormZeroIff: `np.linalg.norm` is not computed. The model assumes any norm that is non-negative and whose square is the dot product of the vector with itself.
- Text.Lower: only ASCII letters are lower-cased. Python's full Unicode case mapping is not modelled. It cannot turn a non-ASCII character into any of ".pdf" or ".txt".
- UploadValidation.Rank: saving files to disk, overwrites between equal names, and the call to `rank_resumes` over the folder (backend/app.py:88-95, with its 500 error) are not modelled. The route's result is the saved paths and the blank-text warnings. The folder listing that `rank_resumes` reads is the separate input of `TfidfRanking.RankResumes`.
- The order in which `os.listdir` reports entries is arbitrary. The model takes the entries as a sequence in listing order.
- EmbeddingRanking.Rank: numpy's dimension error is modelled as `Failure(DimensionMismatch)`, and other numpy failures are left out. The `dtype=float` conversions and the `float(...)` casts are left out too.
