# Stolen-items labeling: table logic

This project models the domain logic of a crowd-labeling web app. Users
of retail companies log in and see marketplace listings one at a time.
For each listing they give a suspicion score from 1 to 5 and a Yes/No
"likely stolen" flag. Their progress is counted in batches of 30 labels.
Every table of the app is a CSV file in a remote folder. The app reads the
whole file, changes the frame in memory and writes the whole file back.

In the model a CSV file is a `Tables.Table<R>`:

- `NoFile` is the column-less frame returned for a missing file.
- `Csv(rows)` is a frame with its header and a sequence of typed rows.

Rows are immutable records (`Records.Item`, `Records.Label`,
`Records.User`). A company cell is an `Option<string>`, where `None` is
a blank cell. All operations are pure functions over these values. The one
exception is `Assignment.NextItem`, a method: it stands for pandas'
random `sample(1)` with an arbitrary choice (`:|`) from the remaining
listings.

Modules:

- `Records`: row types, the batch size 30, the error kinds, and the score and flag domains.
- `Tables`: frames and `pd.concat` of one row.
- `Text`: `str.split` on `/` and the image file name taken from a photo URL.
- `Batches`: the user's labels and the batch progress.
- `Assignment`: the pool of listings not yet labelled and the choice of the next one.
- `Submission`: building a label row and appending it to the label table.
- `Accounts`: registration, login, the company list and adding a company.

The model follows the code where the code is stricter than the UI suggests:

- The app reads `users_df['email']` (app.py:51, app.py:65). On a
  column-less frame this raises `KeyError`, so with no users.csv nobody can
  register or log in. `Register` and `Login` return `MissingEmailColumn` in
  that case.
- A label row is given the label table's own columns by position
  (app.py:106-109). A missing labels.csv therefore cannot take the row.
  `Submit` returns `ColumnCountMismatch` in that case.
- The score and the flag are never checked by the app. Only the slider
  range and the radio choices limit them. `Submit` therefore has a
  precondition that the score is in 1..5 and the flag is "Yes" or "No".
  It does not reject bad values with an error.
- The "Start new batch" branch (app.py:84-87) can never be taken. The
  position is a remainder modulo 30, so it is always below 30. The
  contract of `Assignment.NextItem` says a listing is shown exactly when
  the remaining pool is non-empty.

## Model

| member | source | states |
|---|---|---|
| Tables.Append | app.py:56 | concatenating one row keeps every earlier row in place and puts the new row last; a missing file becomes a one-row table |
| Text.Split | app.py:91 | split returns at least one piece, no piece contains the separator, and joining the pieces with the separator gives back the string |
| Text.SplitJoin | app.py:91 | the other round trip: splitting the join of separator-free pieces gives back the pieces |
| Text.SplitPrefix | app.py:91 | a leading separator-free piece is glued onto the first part of the rest of the split |
| Text.JoinLast | app.py:91 | the last piece of a join is its suffix, preceded by the separator when there are several pieces |
| Text.ImageName | app.py:91 | the image name is a suffix of the URL with no '/', it starts right after a '/' unless it is the whole URL, and it is the whole URL when the URL has no '/' |
| Text.ImageNameUnique | app.py:91 | any slash-free suffix that is the whole URL or follows a '/' equals the image name, so the contract of ImageName fixes its result |
| Batches.LabelsOf | app.py:77 | the selected rows all belong to the user and come from the table, and every row of that user is selected |
| Batches.LabelsOfConcat | app.py:77 | selecting the user's rows from two tables joined end to end gives the two selections joined, in table order |
| Batches.UserLabels | app.py:77 | the empty-frame guard gives the same rows as selecting from the table directly |
| Batches.ProgressOf | app.py:78-79 | position below 30, and completed batches times 30 plus position equals the user's label count |
| Batches.ProgressUnique | app.py:78-79 | a quotient and remainder with these two properties are exactly the displayed progress |
| Batches.ProgressOfNoLabels | app.py:77-79 | an empty label table shows 0 completed batches at position 0 |
| Batches.ProgressStep | app.py:78-79 | one more label moves the position up by one, or from 29 to 0 with one more completed batch |
| Assignment.LabelledUrls | app.py:83 | a URL is in the set exactly when some label carries it |
| Assignment.Remaining | app.py:83 | every listing kept is in the catalog and its URL is not labelled, and every catalog listing with an unlabelled URL is kept |
| Assignment.RemainingFor | app.py:77-83 | the user's pool is the catalog filtered by the URLs of the user's labels; the empty-frame guard changes nothing |
| Assignment.RemainingForExcludesLabelled | app.py:77-83 | every listing in the user's pool is from the catalog and carries no URL the user has labelled |
| Assignment.LabelledUrlsAppend | app.py:83 | one more label adds exactly its photo URL to the labelled set |
| Assignment.RemainingForOwnLabel | app.py:77-83 | a label of the user's own, appended to the table, removes exactly its URL from the user's pool |
| Assignment.RemainingConcat | app.py:83 | filtering two catalogs joined end to end gives the two filtered catalogs joined, so catalog order is kept |
| Assignment.RemainingNothingDone | app.py:83 | with no labelled URLs the whole catalog remains |
| Assignment.RemainingTwice | app.py:83 | filtering by one URL set and then by another equals filtering once by their union |
| Assignment.RemainingForNewUser | app.py:77-83 | a user with no labels has the whole catalog remaining |
| Assignment.OtherUsersIrrelevant | app.py:77-83 | a label appended by another user leaves this user's remaining pool unchanged |
| Assignment.OnlyUnlabelledRemains | app.py:83-90 | with listings P1 and P2 and only P1 labelled, exactly P2 remains |
| Assignment.NextItem | app.py:84-90 | a listing is shown exactly when the pool is non-empty; it comes from the pool and its URL is not labelled by the user; with one listing left, that listing is shown |
| Submission.NewLabel | app.py:106-108 | the new row holds exactly the shown listing, the session's email and company, a slash-free image name from the URL, and the score, flag and timestamp |
| Submission.Submit | app.py:105-110 | it fails exactly when labels.csv is missing; otherwise exactly one row is appended after the unchanged earlier rows, and that row holds the listing, the user, the score and the flag |
| Submission.SubmitCounts | app.py:105-110 | the submitter's labels gain the new row at their end, and every other user's labels stay the same |
| Submission.SubmitAdvancesProgress | app.py:105-110 | the submitter's progress advances one step, rolling over at 30, and every other user's progress is unchanged |
| Submission.SubmitCompletesBatch | app.py:105-110 | 29 prior labels plus one submission give 1 completed batch at position 0 |
| Submission.SubmitShrinksRemaining | app.py:105-110 | afterwards the submitter's pool is the old pool without the submitted URL |
| Submission.SubmitKeepsOnePerUserAndItem | app.py:105-110 | submitting a listing from the submitter's pool keeps at most one label per user and listing |
| Submission.SubmitKeepsValidJudgements | app.py:102-108 | if every stored score was in 1..5 and every flag Yes/No, that still holds after a submission |
| Accounts.Register | app.py:50-57 | it fails exactly when users.csv is missing or the email is taken; otherwise exactly this user is appended and the email is then registered |
| Accounts.RegisterTwice | app.py:50-57 | registering the same email again right after a registration is refused as taken |
| Accounts.RegisterKeepsEmailsUnique | app.py:50-57 | a successful registration keeps emails unique |
| Accounts.FirstMatch | app.py:65-68 | the index found matches both email and password and no earlier row does; none is found only when no row matches |
| Accounts.Login | app.py:65-68 | with a users file, login succeeds exactly when some row matches both email and password; the session has the typed email and the company of the first matching row |
| Accounts.RegisterThenLogin | app.py:50-68 | just after registering, the user can log in with the new password and gets the company they registered with |
| Accounts.Present | app.py:32 | the kept names are exactly the values of the non-blank cells, and there are no more of them than cells; with PresentConcat this keeps each non-blank cell once, in table order |
| Accounts.PresentConcat | app.py:32 | dropping blank cells from two tables joined end to end gives the two results joined, so table order is kept |
| Accounts.Dedup | app.py:32 | the result has no repeats and holds exactly the values of its input |
| Accounts.DedupPrefix | app.py:32 | deduplicating any prefix gives a prefix of the deduplicated whole, so values come in order of first occurrence |
| Accounts.DedupDistinct | app.py:32 | a sequence without repeats is left as it is |
| Accounts.DedupIdempotent | app.py:32 | deduplicating twice gives the same as deduplicating once |
| Accounts.CompanyList | app.py:32 | the list has no repeats, and a name is listed exactly when some non-blank cell holds it |
| Accounts.AddCompany | app.py:133-136 | it is refused exactly when the name is listed; otherwise one row is appended and the name is added at the end of the company list |
| Accounts.AddCompanyTwice | app.py:133-136 | adding the same name again right after an addition is refused |

## Left out

- The Drive helper module (folder and file lookup, chunked download, upload branching on whether the file exists, credentials). drive_utils.py is not part of this model. The store is whole tables passed in and returned.
- CSV parsing and writing by pandas. Every cell is text of a known column. Type inference on read is not modelled. For example, a numeric password read back as an integer never equals the typed string. An added blank company name reads back as a missing cell.
- The dataset catalog is taken as an existing table, given as a sequence of listings. The app stops only when there is no date folder (app.py:18-26). If the folder exists but the dataset CSV does not, `download_csv` returns a column-less frame. Registration, login and progress (app.py:36-81) then run normally, and app.py:83 raises `KeyError` on `dataset_csv['photo_url']` once a logged-in user reaches the labelling page. The model does not represent that missing catalog.
- The label header's column order is not modelled. Rows have named fields. It is assumed that an existing labels.csv has the 12 columns of app.py:106-108, with the user's email in the `email` column that app.py:77 filters on.
- A user's company is always a string. With an empty company list the select box of app.py:46 yields no value, and the model does not represent that blank company.
- `Submission.Submit` takes the labelled listing as a free `item` parameter. In the app, clicking "Submit Label" reruns the script, and app.py:90 draws a new `remaining.sample(1)` before app.py:105 sees the click. The score and flag are therefore stored against that new draw (app.py:106-108). With two or more listings left, it need not be the listing the user rated. `item` stands for that redrawn listing. No lemma ties it to the listing `Assignment.NextItem` showed before the click.
- `datetime.now()` is the opaque `now` parameter of `Submission.Submit`.
- Randomness of `sample(1)`: `Assignment.NextItem` makes an arbitrary choice and does not model a distribution.
- The Streamlit UI: widgets, `st.rerun`, the session-state lifecycle including logout (app.py:36-48, 62-64, 116-119), and the manager portal's user display (app.py:122-129). The session is a plain `Records.Session` value returned by `Accounts.Login`.
- The Drive lookup of the image file (app.py:92) and the Streamlit display of the listing (app.py:93-100). The lookup is a call into Drive, and the display is UI.
- Concurrent sessions overwriting each other's whole-table writes. That is a race at the remote store. It is outside a sequential model.
- Plaintext password storage. It is a security matter. There is no behaviour here to verify.
