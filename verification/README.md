# Student portal: retrieval indexing and lookup, in Dafny

This project models the core of a study portal. Students upload past exam papers as PDFs.
A language model analyses each paper, and students chat with a paper through
retrieval-augmented generation. The model covers five parts:

- **Text extraction** (`extraction.dfy`, module `Extraction`). The page texts of a PDF are
  concatenated in page order. A page with no text contributes `""`. Any exception gives `None`.
- **Similarity query** (`sections.dfy`, module `Sections`). This is the `document_sections`
  table shape and the `match_document_sections` SQL function. The query filters to one
  document and keeps rows strictly above the threshold. It orders them by descending
  similarity and applies `LIMIT`. The generic "order descending, take k" used by this query
  and by the store lives in `ordering.dfy` (module `Ordering`).
- **Record store** (`records.dfy`, module `Records`). The `users`, `master_files` and
  `document_sections` tables are fields of a class `Store`. `login_user`,
  `save_file_record`, `get_all_files`, `update_ai_analysis`, `get_leaderboard` and the
  "wipe all files" action are methods on it. Each takes a `connected` flag that says
  whether opening the database connection succeeded.
- **Indexing** (`indexing.dfy`, module `Indexing`). This covers one upload: extract, hash,
  save the raw record, store the analysis, cut the text into 1000-character chunks, embed
  each chunk and keep the chunks whose embedding succeeded.
- **Chat** (`chat.dfy`, module `Chat`). This is the file-name to hash map of the chat tab,
  plus one chat turn over the session transcript.

External services appear as parameters:

- MD5 hashing is a function `md5: string -> string`. Only its determinism matters.
- The analysis model is a function of the file name and text. It always returns a string,
  because the source returns error text instead of failing.
- The embedding service is a sequence of answers, one per chunk.
- Query retrieval and the chat model are functions.
- Cosine similarity is an abstract score `sim(embedding, query)`.
- The database clock (`created_at`) is a `now` parameter.

Behaviour of the code that the model keeps:

- `ask_gemini` returns error text instead of raising (utils.py:52-56). The upload stores
  whatever text it returned as the analysis, with status `analyzed` (app.py:227-230).
- Any exception while reading the PDF gives `None`, never partial text (utils.py:21-23).
- The upload hashes the extracted text without checking it (app.py:200). When extraction
  gives `None`, that call raises, modelled as `Indexing.UploadOutcome.Crashed`.
- The default threshold and limit of the retrieval wrapper are not assumed.
- SQL leaves the order of rows with equal keys unspecified. The model's sort picks one such
  order, and every contract promises only the ordering and the membership.
- A negative `LIMIT` is an SQL error, modelled as `Err`.

## Model

| member | source | states |
|---|---|---|
| `Extraction.ExtractText` | utils.py:14-23 | Returns text iff the reader opens and no page raises. The text is then the concatenation of the page texts in page order. Any exception gives `None`, never partial text. |
| `Extraction.PagesText` | utils.py:17-19 | The text accumulated page by page is empty exactly when no page yields any text. |
| `Extraction.PagesTextAppend` | utils.py:17-19 | Accumulating page by page is a homomorphism: the text of `a + b` is the text of `a` followed by the text of `b`. |
| `Extraction.EmptyPageContributesNothing` | utils.py:19 | A page that yields `None` or `""` contributes nothing, and the pages after it are still appended. |
| `Extraction.PagesTextLength` | utils.py:17-20 | The length of the result is the sum of the per-page text lengths. Zero pages give `""`. |
| `Ordering.SortDesc` | db.py:84 | The result is a permutation of the rows, ordered by non-increasing key. |
| `Ordering.TopK` | setup_db.py:45-46 | `ORDER BY key DESC LIMIT k`. Keeps exactly min(k, n) rows drawn from the input, in non-increasing key order. Every row left out has a key no greater than any row returned. |
| `Sections.Qualifying` | setup_db.py:42-44 | A row is kept iff it belongs to the filtered document and its similarity is strictly above the threshold. The kept rows are a sub-multiset of the table. |
| `Sections.Ranked` | setup_db.py:41-46 | The qualifying rows after ordering and limit: min(count, #qualifying) table rows of that document, each above the threshold, by non-increasing similarity. No qualifying row left out is more similar than a returned one. No row is returned more often than it qualifies, so a table row never appears twice. |
| `Sections.MatchDocumentSections` | setup_db.py:22-46 | The query fails iff the limit is negative. Otherwise it returns min(count, #qualifying) rows. Each row is the `(id, content, similarity)` of a table row of the filtered document, with similarity above the threshold. Rows come in non-increasing similarity (ascending distance), and any qualifying row not returned scores no higher than every returned row. The result is a sub-multiset of the projected qualifying rows, so no row is repeated. |
| `Records.DisplayName` | db.py:48 | `email.split('@')[0]`: a prefix of the email without '@'. When shorter than the email, it stops exactly at the first '@'. |
| `Records.FindUser` | db.py:41-42 | Finds a user with that email iff one exists, and the user found is from the table. |
| `Records.UsersAfterLogin` | db.py:41-51 | The existing rows are kept in place. The table grows by exactly one row iff the email was unknown, and that row has the email, the name before '@' and xp 0. Afterwards a user with the email exists. |
| `Records.LoginIsUpsert` | db.py:40-51 | Login keeps emails unique and is idempotent: logging in twice equals logging in once. Afterwards the user with that email exists. |
| `Records.TopUsers` | db.py:110 | The users behind the leaderboard: min(10, n) of them, drawn from the table, by non-increasing xp. Every user left out has xp no greater than each one returned. |
| `Records.Leaderboard` | db.py:110 | `SELECT full_name, xp ... ORDER BY xp DESC LIMIT 10`: min(10, n) rows by non-increasing xp. The rows are a sub-multiset of the users' `(name, xp)` rows, so no user is listed twice. A user whose row is not listed has xp no greater than every listed row. |
| `Records.LeftOutUsersRankLower` | db.py:110 | A user left off the top ten has xp no greater than any row listed. |
| `Records.FilesAfterSave` | db.py:62-75 | Existing rows are kept in place. A row is added iff the hash was absent, and it carries the hash, the name, the text under `content`, status `completed`, no analysis and the insert time. Afterwards the hash is present. |
| `Records.SaveKeepsOneRowPerHash` | db.py:62-75 | Insert-if-absent keeps hashes unique and leaves the hash present. The table grows by one row exactly when the hash was new. |
| `Records.FilesAfterAnalysis` | db.py:95-98 | Same rows in the same order, each keeping its hash, name, content and timestamp. Rows of the hash get the analysis and status `analyzed`; all other rows are unchanged. |
| `Records.AnalysisTouchesOnlyItsRow` | db.py:94-99 | Rows of other hashes are unchanged. The matching row gets the analysis and status `analyzed` and keeps its name, content and timestamp. An unknown hash leaves the table unchanged. Hash uniqueness and the set of stored hashes are preserved. |
| `Records.NewestFirst` | db.py:84 | Every file row exactly once, ordered by `created_at` descending. |
| `Records.Store.constructor` | setup_db.py:13-18 | Creates empty tables satisfying the store invariant: unique emails, unique file hashes, unique section ids, and 3072-dimensional embeddings. |
| `Records.Store.Login` | db.py:34-54 | Connection failure gives `None` and no change. An existing email returns that user and leaves the table unchanged. A new email appends exactly one user with the name before '@' and xp 0, and returns it. |
| `Records.Store.SaveFile` | db.py:56-77 | Returns `False` on connection failure, else `True`. A present hash changes nothing. A new hash appends one `completed` row with the text under `content` and no analysis. Only `files` changes. |
| `Records.Store.AllFiles` | db.py:79-87 | `[]` on connection failure. Otherwise a permutation of the file rows, newest first. |
| `Records.Store.UpdateAnalysis` | db.py:89-101 | Returns `False` on connection failure with no change. Otherwise it returns `True`, even for an unknown hash, and the table becomes `FilesAfterAnalysis`. |
| `Records.Store.Leaders` | db.py:103-113 | `[]` on connection failure. Otherwise the top min(10, n) users' names and xp, by non-increasing xp. The rows are a sub-multiset of the users' rows, and no user left off has more xp than a listed row. |
| `Records.Store.Wipe` | app.py:104-116 | On success both `master_files` and `document_sections` are empty and users are kept. On connection failure nothing changes. |
| `Indexing.Chunks` | app.py:235 | No chunks iff the text is empty. Every chunk has between 1 and `size` characters. |
| `Indexing.ChunkAt` | app.py:235 | The k-th chunk starts at k·1000 inside the text and runs 1000 characters or to the end of the text. |
| `Indexing.ChunkCount` | app.py:235 | There are ceil(len/size) chunks, and no chunks iff the text is empty. |
| `Indexing.ChunkLengths` | app.py:235 | Every chunk but the last has exactly `size` characters. The last has between 1 and `size`. |
| `Indexing.ChunksRoundTrip` | app.py:235 | Concatenating the chunks in order gives back the text exactly. |
| `Indexing.ThreeThousandCharacters` | app.py:235 | A 3000-character text gives three chunks, each exactly its 1000-character third. |
| `Indexing.Surviving` | app.py:237-241 | At most one entry per chunk. Each entry is a chunk of the text with a non-empty vector the service returned. |
| `Indexing.KeptIndices` | app.py:238-241 | The positions whose embedding succeeded, strictly increasing, including every successful position. |
| `Indexing.SurvivingAreEmbeddedChunks` | app.py:237-241 | `sections_to_save` has one entry per successful position, in chunk order. Each entry is that chunk paired with its own vector. |
| `Indexing.SurvivingCount` | app.py:237-241 | One entry is kept per chunk whose embedding succeeded. |
| `Indexing.SomeSurviveIffSomeEmbedded` | app.py:243-244 | There is something to save, so `save_document_sections` is called, iff at least one embedding succeeded. |
| `Indexing.SelectSections` | app.py:237-241 | The loop builds exactly the surviving `(chunk, vector)` pairs. |
| `Indexing.FilesAfterUpload` | app.py:200-230 | The table grows by one row iff the save connects and the hash is new. After a successful save the hash is present. Rows of other hashes are unchanged. After a successful update the rows of the hash carry the analysis with status `analyzed`. With both connections failing nothing changes. |
| `Indexing.ProcessUpload` | app.py:197-244 | A failed extraction raises at hashing and leaves the store unchanged. Otherwise the record is saved under `md5(text)` and the analysis model's reply stored. The surviving sections are handed to the section store iff there are any. |
| `Indexing.SameTextOneRecord` | app.py:200-204 | Uploading the same text twice adds at most one row, and hashes stay unique. The second upload adds no row. |
| `Chat.FileOptions` | app.py:260 | The map's names are exactly the names of the listed files. |
| `Chat.LastFileWins` | app.py:260 | Each name maps to the hash of the last file listed under it. |
| `Chat.ChatSession.constructor` | app.py:268-269 | The transcript starts empty. |
| `Chat.ChatSession.Turn` | app.py:282-310 | The question is always appended. The chat model is consulted, and its answer appended, iff the query embedding is non-empty and retrieval returned something. Otherwise the turn reports a failed embedding or no relevant section, and the transcript grows by exactly one entry. |

## Left out

- Streamlit presentation: CSS, sidebar, tabs, dialogs, metrics, progress bar, spinners and reruns (app.py:12-98, 119-187, 245-253). Session login and logout are UI state.
- The HTTP call to the analysis model (`ask_gemini`, utils.py:25-56). It appears as a string-valued function parameter, and the prompt template is not modelled.
- `generate_embedding`, `ask_gemini_chat`, `save_document_sections`, the Python `match_document_sections` wrapper and `get_file_content` are not part of this model: app.py imports them (app.py:3-8), but db.py and utils.py do not define them. Embeddings and chat answers are parameters. The sections a save would receive are returned in `Indexing.UploadOutcome`, so in the model the `document_sections` table changes only by the wipe.
- MD5 (app.py:200) is a foreign primitive and appears as a function parameter.
- PDF parsing inside `PdfReader` is a foreign library. The model takes the outcome of each page's extraction.
- Connection setup and DDL execution (db.py:9-28, setup_db.py:51-59) are I/O. Connection failure is a boolean parameter of each store method. SQL errors other than a failed connection are not modelled.
- Cosine distance over float vectors (setup_db.py:40) is replaced by an abstract real-valued similarity. NaN and rounding are not modelled.
- The connection that `save_file_record` leaves open on its early return (db.py:65) is not modelled.
- The outer loop over several uploaded files (app.py:189-250) is not modelled. Each iteration is one `Indexing.ProcessUpload`. Store calls in one iteration may each fail to connect independently.
- XP awards and the "mark as mastered" action have no code in the modelled files and are not part of this model.
- `TRUNCATE ... CASCADE` also empties tables that reference `master_files`. The schema beyond the three tables is not modelled.
