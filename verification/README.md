# geeohdotnet core in Dafny

A model of the core of geeohdotnet. It is a personal Django blog that has two
generations of storage.

- **Flat-file generation** (`pages.py`). Articles live in a JSON index plus one
  markdown file per article.
  - `find` returns the first item that satisfies a predicate.
  - The article page looks up the index entry with the requested id and
    raises Http404 when there is none.
  - `publish` allocates a date-keyed id. It steps a sequence suffix, formatted
    with `:02d`, until no index entry holds the candidate. It then puts the new article
    dict at the front of the index and pops its `content` out into the
    markdown file. The index list holds that same dict, so the index that is
    written loses `content` as well.
- **Relational generation** (`models.py`).
  - `_gen_pk` is the primary-key default. It uses the same scheme, but month
    and day are zero-padded, and "in use" means an `Article` with that key
    exists.
  - `_thumb_loc` and `_banner_loc` name upload paths after the article id and
    the text between the filename's first and second dots (the extension
    only when the name has a single dot).
  - `Article.__str__` is the display label.
- **Credential backend** (`backends.py`).
  - `authenticate` finds the first account with the given username and
    accepts only its exact password.
  - `get_user` rebuilds a user from the first account with the given id.

Module layout:

- `Text`: the Python string conversions the code relies on. These are `str`,
  `int`, `format(n, '02d')` and `split`, each with its round-trip lemma.
- `DateKey`: the candidate-id arithmetic the two generations share, and the
  generic allocation loop.
- `Pages`, `Models`, `Backends`: one module per source file.
- `Wrappers`: `Option` and `Result`.

`publish` changes state in place. It is modelled with two classes:

- `JsonObject`, a dict held by reference, whose `Pop` removes a key;
- `ArticleList`, the list of those dicts, whose `InsertFront` is
  `list.insert(0, …)`.

`Publish` itself is a method proved against the value-level functions
`ArticleData`, `PublishCandidate` and `ArticleLookup`.

The allocation loops become one generic method, `DateKey.FirstFreeCandidate`.
Its parameters are a strictly increasing candidate function and an "in use"
test. The two source loops (`pages.py:95-102` and `models.py:10-19`) differ
only in those two parameters: the unpadded or padded prefix, and index
membership or key existence. `Pages.NextArticleId` and `Models.GenPk` each
call `FirstFreeCandidate` with their own parameters.

### No exhaustion error

Neither allocation loop (`pages.py:95-102`, `models.py:10-19`) has a branch
that gives up. At iteration 100, `format(100, '02d')` is `"100"`, so the key
gains a digit. The candidate still grows strictly
(`DateKey.CandidateIncreasing`), and the loop continues. The model does the
same:

- there is no exhaustion error;
- the loop is proved to stop after at most one more step than there are ids
  in use (`DateKey.FirstFreeCandidate`), because of the strict growth.

## Model

| member | source | states |
|---|---|---|
| Pages.Find | geeohdotnet/pages.py:17-21 | `None` exactly when no item satisfies the predicate; otherwise the item at the first position that satisfies it |
| Pages.FindIgnoresSuffix | geeohdotnet/pages.py:17-21 | items after the first match are never consulted: appending items does not change the result |
| Pages.InIndex | geeohdotnet/pages.py:98 | the truthiness of the `find` over the index holds exactly when some entry's `id` equals the candidate |
| Pages.ArticleLookup | geeohdotnet/pages.py:43-46 | Http404 exactly when no index entry has the id; otherwise the first entry that has it |
| Pages.LookupPastNewEntry | geeohdotnet/pages.py:111 | putting an entry with another id at the front leaves the lookup of an id unchanged |
| Pages.NextArticleId | geeohdotnet/pages.py:93-102 | the id is held by no index entry; it is the candidate of the smallest iteration k ≥ 1 whose candidate is free, and k is at most the number of entries plus one |
| Pages.PublishCandidate | geeohdotnet/pages.py:96-100 | `int(f'{year}{month}{day}{iteration:02d}'[2:])`: for iterations below 100 the iteration is the id's last two decimal digits, and the digits before them read as the unpadded date prefix without its first two characters |
| Pages.PublishCandidateExample | geeohdotnet/pages.py:96 | month and day are not padded: the first candidate on 2024-3-9 is 243901 |
| Pages.PublishCandidateDatesCollide | geeohdotnet/pages.py:96 | 2024-1-11 and 2024-11-1 produce the same candidate at every iteration |
| Pages.JsonObject.Pop | geeohdotnet/pages.py:122 | `dict.pop` returns the value of the key and removes only that key |
| Pages.ArticleList.InsertFront | geeohdotnet/pages.py:111 | `list.insert(0, x)` puts x before the old items, which are unchanged |
| Pages.DateText | geeohdotnet/pages.py:106 | `f'{year}-{month}-{day}'` without padding; its properties are stated by `Pages.DateTextReadsBack` |
| Pages.DateTextReadsBack | geeohdotnet/pages.py:106 | the date text splits at its dashes into exactly three pieces, the decimal forms of year, month and day, which read back as those numbers |
| Pages.ArticleData | geeohdotnet/pages.py:104-110 | the new article's dict has exactly the keys `id`, `date`, `title`, `description` and `content`; it carries the allocated id, the date text, the posted title and description, and the posted content |
| Pages.LookupNewEntry | geeohdotnet/pages.py:111 | an entry put at the front with an id is the entry the lookup of that id finds |
| Pages.Publish | geeohdotnet/pages.py:93-123 | the new id was held by no entry of the old index and is the first free candidate; the new index is the new article's entry followed by the old index unchanged; the new entry has exactly `id`, `date`, `title` and `description` (its `content` was popped through the shared dict); looking up the new id now yields that entry; the markdown text is the posted content |
| DateKey.CandidateShape | geeohdotnet/models.py:11 | a candidate equals the value of the prefix after its first two characters, shifted by the width of the padded suffix, plus the suffix |
| DateKey.TwoDigitSuffixCandidate | geeohdotnet/models.py:16 | for suffixes below 100 the candidate equals the shortened prefix value times 100 plus the suffix |
| DateKey.CandidateIncreasing | geeohdotnet/pages.py:99-100 | for a fixed date, the candidate strictly increases with the iteration, including where the suffix reaches three digits |
| DateKey.FirstFreeCandidate | geeohdotnet/models.py:10-19 | the loop shared by both generations: it returns the candidate of the first iteration ≥ 1 that is not in use, every earlier candidate is in use, and the iteration is at most the number of ids in use plus one |
| Models.GenPk | geeohdotnet/models.py:8-19 | the key is not an existing primary key; it is the candidate of the smallest free suffix k ≥ 1, with k at most the number of keys plus one; when suffix 1 is free, it is chosen |
| Models.PkCandidate | geeohdotnet/models.py:11-16 | `int(f"{year}{month:02d}{day:02d}{i:02d}"[2:])`: for suffixes below 100 the suffix is the key's last two decimal digits, and the digits before them read as the padded date prefix without its first two characters |
| Models.PkPrefixValue | geeohdotnet/models.py:11 | the padded date prefix without its first two characters reads as YYMMDD |
| Models.PkCandidateDigits | geeohdotnet/models.py:11 | for a four-digit year and suffixes 1 to 99, the key is YYMMDDNN: (year mod 100)·10⁶ + month·10⁴ + day·10² + suffix |
| Models.PkCandidateInjective | geeohdotnet/models.py:11 | within one century and for suffixes 1 to 99, equal keys mean the same date and the same suffix |
| Models.PkCandidateExample | geeohdotnet/models.py:11 | the first key of 2024-03-09 is 24030901 |
| Models.UploadLocation | geeohdotnet/models.py:22-27 | the IndexError of `split('.')[1]` (modelled as `None`) happens exactly when the filename has no dot |
| Models.ThumbLoc | geeohdotnet/models.py:22-23 | `_thumb_loc` fails exactly for a dot-less filename |
| Models.BannerLoc | geeohdotnet/models.py:26-27 | `_banner_loc` fails exactly for a dot-less filename |
| Models.UploadLocationExtension | geeohdotnet/models.py:22-27 | for `stem.ext…` the location is `<id>/<kind>.ext`, where ext is the text between the first and second dots (so `a.tar.gz` keeps `tar`) |
| Models.UploadLocationSeparatesIds | geeohdotnet/models.py:22-27 | two articles with different ids never get the same upload location of a kind |
| Models.ArticleLabel | geeohdotnet/models.py:41-42 | `Article.__str__`: the label is `[`, then the id's decimal digits, which read back as the id, then `] ` and the title; `Models.ArticleLabelInjective` reads both back from a label |
| Models.ArticleLabelInjective | geeohdotnet/models.py:41-42 | the label `[id] title` determines both the id and the title |
| Backends.Authenticate | geeohdotnet/backends.py:13-20 | no user when the username or password is missing or empty, or no account has the username; otherwise take the first account with that username: a user with that account's id, the given username and the given password when the password matches exactly, else none |
| Backends.GetUser | geeohdotnet/backends.py:22-28 | none exactly when no account has the id; otherwise the user built from the first account with it |
| Backends.AuthenticateIgnoresLaterAccounts | geeohdotnet/backends.py:15-16 | accounts after the first one with the username (duplicates included) never affect authentication |
| Backends.GetUserAfterAuthenticate | geeohdotnet/backends.py:17-27 | when account ids are unique, `get_user` on the id of an authenticated user gives back the same user |
| Text.Split | geeohdotnet/models.py:23 | `split` on one character gives at least one piece; no piece contains the separator; joining the pieces with the separator gives back the string; there is exactly one piece exactly when the separator does not occur |
| Text.SplitSecond | geeohdotnet/models.py:23 | piece 1 of a split is the text between the first and second separators |
| Text.Str | geeohdotnet/models.py:41-42 | `str(n)` for a non-negative n: a non-empty string of decimal digits that starts with 0 only for n = 0 |
| Text.Int | geeohdotnet/pages.py:96 | `int(s)` on a non-empty string of decimal digits: a value below 10 to the power of the string's length |
| Text.IntStr | geeohdotnet/models.py:41-42 | `int(str(n)) == n`: the decimal form of an id reads back as that id |
| Text.ZeroPad2Value | geeohdotnet/models.py:11 | `format(n, '02d')` reads back as n; it is two characters wide below 100 and as wide as `str(n)` from 100 on |
| Text.IntConcat | geeohdotnet/pages.py:96 | reading a concatenation of digit strings gives the left value times 10 to the power of the right string's width, plus the right value |

## Left out

- File I/O is not modelled. This covers reading and creating `articles/index.json` (`get_articles`), writing the markdown file and the index, and writing media files. The index is `ArticleList.Entries()` after the call. The markdown text is `Publish`'s `markdown` result.
- Creating the media directories and the uploaded thumbnail, banner and extra files is not modelled. It is pure I/O.
- Reading the credentials file is not modelled. The accounts are a parameter, as a sequence of records.
- The clock is not modelled. `datetime.utcnow()` and `timezone.now()` become a `Date` parameter.
- The ORM is not modelled. `Article.objects.get(pk=…)` succeeding is membership in a set of existing keys. Field options, `OverwriteStorage` and migrations are not part of this model.
- Rendering is not modelled. This covers markdown2 (`markdownify`, the article page's rendering, `content_formatted`), templates, `css_age` and redirects. Only the decision each handler makes is modelled.
- The GET branches of `publish`, `auth` and `markdownify`, the 405 responses, `login_required`, and sessions (`login`/`logout` in `auth`) are not modelled. They are framework control flow with no logic of the core.
- The `User` model that the backend instantiates is not part of this model. It becomes a record of id, username and password.
- Concurrency is not modelled. Two simultaneous publishes can both pick the same id before either writes the index. Each call is modelled as atomic.
- A missing `title`, `description` or `content` POST field (KeyError) is not modelled. Nor is an index entry without an `id` key (KeyError in the `find` predicate). Entries without an `id` are simply never matched.
- Pages.JsonObject.Pop: requires the key to be present instead of modelling `pop`'s KeyError, because `publish` only pops the `content` key it has just set.
- JSON values other than integers and strings are not modelled. The index only holds those.
- Text.Int: only reads non-empty digit strings, because every `int(...)` in the core is applied to such a string. `int()`'s ValueError cannot arise there.
- Text.Str: covers non-negative integers only, because every id and date component in the core is non-negative.
- Backends.Authenticate: a non-string truthy username or password is not modelled. The arguments are optional strings, and truthiness is "present and non-empty".
- Models.PkCandidateInjective: is stated for four-digit years within one century and suffixes 1 to 99. Keys of different centuries differ only in digits that `[2:]` drops, and suffixes of three digits change the width.
- The settings, URL routing, forms, admin registration and `views.py` are not modelled. They are configuration and wiring, not core logic.

## Findings

| source | as written | input that shows it | evidently intended | confidence | as-written member | corrected member |
|---|---|---|---|---|---|---|
| geeohdotnet/pages.py:96 | the id prefix is `{date.year}{date.month}{date.day}` without zero-padding, so different dates can share a prefix | 2024-1-11 and 2024-11-1 both have prefix `2024111`, and both give 2411101 for iteration 1; the second date's first article then receives 2411102, and the id no longer identifies the date | one key space per date (YYMMDDNN), as the padded prefix of `models.py:11` gives | high, not executed | Pages.PublishCandidateDatesCollide | Models.PkCandidateInjective |

`Pages.NextArticleId` and `Pages.Publish` keep the unpadded prefix, because
they model `pages.py` as written. The corrected, padded candidate
`Models.PkCandidate` is the one the relational generation allocates with
(`Models.GenPk`). For that candidate, `Models.PkCandidateInjective` proves
that dates no longer collide.
