# farguscovers bot: a verified model of its catalog core

This project models the core of a Telegram bot that browses a catalog of game
covers. Each cover belongs to a game, a game may belong to a game series, and
authors are linked to the covers they drew. The model covers:

- **The catalog query layer** (`bot/db.py`):
  - the four `get_filters` compositions, from optional scoping ids;
  - 1-based pagination, `count`/`count_by`, `get_by_page` and its inverse `get_page`;
  - the get-or-create lookups by slug, with their refusals on blank keys;
  - the de-duplicating relation helpers of covers and authors;
  - the chat request counter.

  The tables are in-memory sequences of records (`catalog.dfy`). The database
  is a class whose tables are `seq` fields, which its methods reassign
  (`store.dfy`).
- **The slug normaliser** `get_slug` (`bot/common.py`).
- **The callback-token codec**:
  - the four cover-pagination patterns of `bot/regexp_patterns.py`;
  - `fill_string_pattern` of `third_party/regexp.py`, which writes a pattern out with numbers in its groups;
  - a decoder that accepts exactly what the pattern's regular expression accepts.
- **Reply chunking** (`third_party/reply_message.py`): the severity marker, and
  the loop that cuts the text into pieces of at most 4096 characters.
- **Ingestion** (`data_vk/fill_db.py`):
  - `append_to_db`, one dump record added through a chain of get-or-create steps;
  - `make_identical_authors_unique`, which tags every author whose name is shared with ` (id<id>)`.

Each imperative operation is a method proved against a specification function
(`AppendToDb` against `AppendTo`, `ReplyMessage` against `Formatted` and
`Joined`, `GetPage` against `Ordered`). The lemmas state what the source
promises about those functions: round trips, idempotence, preserved table
invariants, and both directions of each filter's meaning.

Files:
- `wrappers.dfy`: `Option` and `Result`.
- `decimal.dfy`: `str()` and `int()` on decimal digits.
- `slug.dfy`: `get_slug`.
- `fill_pattern.dfy`: `fill_string_pattern`.
- `callback_patterns.dfy`: the patterns, the decoder, the round trip and disjointness.
- `reply_message.dfy`: reply chunking.
- `seqs.dfy`: stable sorting and first-occurrence de-duplication.
- `catalog.dfy`: entities, tables and the schema's integrity.
- `catalog_filters.dfy`: the `get_filters` methods.
- `catalog_pages.dfy`: pagination and page lookup.
- `catalog_relations.dfy`: the relation helpers.
- `lookups.dfy`: `get_by_slug` and `get_by`.
- `store.dfy`: get-or-create on the tables, the `Database` class and `Chat`.
- `ingest.dfy`: `fill_db.py`.

## Model

| member | source | states |
|---|---|---|
| ReplyMessage.Marker | third_party/reply_message.py:15-18 | the prefix each `SeverityEnum` value puts before `{text}`; its characters are stated by `Markers` |
| ReplyMessage.Formatted | third_party/reply_message.py:32 | `severity.value.format(text=text)`; `FormattedKeepsText` states that it is the marker followed by the unchanged text |
| ReplyMessage.FormattedKeepsText | third_party/reply_message.py:15-32 | the formatted text is the marker followed by the unchanged text; `NONE` leaves the text as it is |
| ReplyMessage.Markers | third_party/reply_message.py:15-18 | `INFO` prefixes `ℹ️ ` (three characters), `ERROR` prefixes `⚠ ` (two characters) |
| ReplyMessage.ReplyMessage | third_party/reply_message.py:34-41 | the sends concatenate to the formatted text; every piece is 1..4096 long, all but the last exactly 4096; there are ceil(len/4096) sends, none for an empty text; every send carries the same markup and quote flag |
| ReplyMessage.ProgressStep | third_party/reply_message.py:34-35 | one pass of the loop, sending `text[n:n+4096]`, keeps the reassembly and size invariant and advances by 4096 |
| ReplyMessage.CeilingCount | config.py:63 | k pieces of at most 4096 characters, all but the last full, are exactly ceil(len/4096) |
| FillPattern.StripLeading | third_party/regexp.py:12 | removes exactly the leading run of `^`/`$` characters |
| FillPattern.StripTrailing | third_party/regexp.py:12 | removes exactly the trailing run of `^`/`$` characters |
| FillPattern.StripAnchorsExact | third_party/regexp.py:12 | `strip('^$')` of anchors, a body without anchors at its ends, and anchors gives back that body |
| FillPattern.SubGroupsPlain | third_party/regexp.py:13 | text without `(` is copied by the group substitution, unchanged and in order |
| FillPattern.SubGroupsGroup | third_party/regexp.py:13 | a group `(…)` without a newline, ended by its first `)`, becomes `{}` |
| FillPattern.FormatPlain | third_party/regexp.py:13 | text without braces is copied by `format` unchanged |
| FillPattern.FormatField | third_party/regexp.py:13 | `{}` takes `str()` of the next argument; with none left `format` fails (IndexError) |
| Decimal.ParseDigits | third_party/regexp.py:13 | `int(str(n)) == n` for every non-negative n |
| Decimal.DigitsInjective | third_party/regexp.py:13 | different non-negative numbers have different decimal texts |
| Decimal.IntToStringInjective | third_party/regexp.py:13 | `str()` is injective on all integers, negative ones included |
| Decimal.DigitsLength | third_party/regexp.py:13 | a number below 10^k has at most k digits |
| CallbackPatterns.PageCoverSource | bot/regexp_patterns.py:11 | the template's pattern text is `^cover#(\d+)$` |
| CallbackPatterns.PageCoverByGameSource | bot/regexp_patterns.py:14 | the pattern text is `^cover#(\d+)_by_game_id=(\d+)$` |
| CallbackPatterns.PageCoverByGameSeriesSource | bot/regexp_patterns.py:17 | the pattern text is `^cover#(\d+)_by_game_series_id=(\d+)$` |
| CallbackPatterns.PageCoverByAuthorSource | bot/regexp_patterns.py:20 | the pattern text is `^cover#(\d+)_by_author_id=(\d+)$` |
| CallbackPatterns.PatternsWellFormed | bot/regexp_patterns.py:11-20 | every pattern alternates non-empty literals of safe characters with digit groups |
| CallbackPatterns.Decode | bot/regexp_patterns.py:11-20 | a successful match captures one non-empty digit string per group |
| CallbackPatterns.DecodeSound | bot/regexp_patterns.py:11-20 | a matched string is the template spelled with its captures, with at most one final newline (`$`) |
| CallbackPatterns.DecodeComplete | bot/regexp_patterns.py:11-20 | the template spelled with any digit captures, plus an optional final newline, matches and yields those captures |
| CallbackPatterns.DecodeExactly | bot/regexp_patterns.py:11-20 | match with captures g if and only if g are digit strings and the text spells the template with g |
| CallbackPatterns.PageCoverLanguage | bot/regexp_patterns.py:11 | `PATTERN_PAGE_COVER` accepts exactly `cover#` plus one or more digits, capturing the digits |
| CallbackPatterns.ScopedLanguage | bot/regexp_patterns.py:14-20 | each `by_*` pattern accepts exactly `cover#<digits><scope><digits>`, capturing page then id |
| CallbackPatterns.PatternsDisjoint | bot/regexp_patterns.py:11-20 | no string matches two of the four patterns |
| FillPattern.Fill | third_party/regexp.py:10-13 | `fill_string_pattern`: strip the anchors, replace each group by `{}`, then `format` the arguments; `StripAnchorsExact`, `SubGroupsGroup`, `FormatField` and `CallbackPatterns.FillSource` state what it writes |
| CallbackPatterns.FillSource | third_party/regexp.py:10-13 | `fill_string_pattern` on a template's pattern text writes the literals with `str()` of the arguments in the groups; too few arguments fail |
| CallbackPatterns.RenderLength | third_party/regexp.py:13 | a token's length is the literal length plus the decimal length of each number |
| CallbackPatterns.RenderDecode | third_party/regexp.py:10-13 | a filled token matches its own pattern if and only if every number is non-negative, and then its groups parse back to the numbers |
| Slug.GetSlug | bot/common.py:97-102 | the slug holds only lower-case word characters, is no longer than the text, and is empty for `None` and `''` |
| Slug.SlugOfNothing | bot/common.py:120-126 | `get_slug('')` and `get_slug(None)` are `''` |
| Slug.OuterSpaceIgnored | bot/common.py:101 | whitespace around the text does not change the slug |
| Slug.NormalizeByChars | bot/common.py:101-102 | after stripping, each space becomes `_`, each word character its lower case, and every other character is dropped |
| Slug.SlugIsFixedPoint | bot/common.py:97-102 | a text of lower-case word characters is its own slug |
| Slug.SlugIdempotent | bot/common.py:97-102 | `get_slug(get_slug(x)) == get_slug(x)` |
| Slug.DigitsKept | bot/common.py:123 | a text of digits is its own slug |
| Slug.SpacedMarksSlug | bot/common.py:122 | a mark, a space, the mark, a space and the mark becomes `__` |
| Slug.SpaceHyphenSlug | bot/common.py:124 | `d1 d2-d3` with digits becomes `d1_d2d3` |
| Slug.SlugExampleMarks | bot/common.py:122 | `get_slug("! ! !") == "__"` |
| Slug.SlugExampleDigits | bot/common.py:123 | `get_slug("123") == "123"` |
| Slug.SlugExampleHyphen | bot/common.py:124 | `get_slug("1 2-3") == "1_23"` |
| Lookups.GetBySlug | bot/db.py:138-145 | `get_by_slug` for any table with a slug column; its meaning is stated by `GetBySlugMeaning` |
| Lookups.GetBy | bot/db.py:147-152 | `get_by` for any table with a slug column; its meaning is stated by `GetByMeaning` |
| Lookups.SeriesGetBySlug | bot/db.py:138-145 | `GameSeries.get_by_slug`, stated by `GetBySlugMeaning` and `EmptySlugRefused` |
| Lookups.SeriesGetBy | bot/db.py:147-152 | `GameSeries.get_by`, stated by `GetByMeaning` and `BlankValuesRefused` |
| Lookups.GameGetBySlug | bot/db.py:219-226 | `Game.get_by_slug`, stated by `GetBySlugMeaning` and `EmptySlugRefused` |
| Lookups.GameGetBy | bot/db.py:228-233 | `Game.get_by`, stated by `GetByMeaning` and `BlankValuesRefused` |
| Lookups.FindBySlug | bot/db.py:145 | finds a row with that slug, or there is none |
| Lookups.GetBySlugMeaning | bot/db.py:139-145 | an empty slug is refused with `NotDefinedParameter("slug")`; otherwise the row with that slug, if any |
| Lookups.GetByMeaning | bot/db.py:148-152 | a blank name is refused for `name`, a name with an empty slug for `slug`; otherwise the row with the name's slug |
| Lookups.EmptySlugRefused | bot/db.py:139-152 | every lookup of series and games refuses a value whose slug is empty |
| Lookups.BlankValuesRefused | bot/test.py:50-57 | all four lookups refuse `''`, `'    '`, `' ! '` and `None` |
| Lookups.FindBySlugUnique | bot/db.py:136 | with unique slugs, looking up a row's slug finds that row |
| Lookups.FindBySlugAppend | bot/db.py:158-164 | a created row is found by its slug afterwards |
| Store.NextId | bot/db.py:158-164 | the id SQLite gives a row created without one: larger than every stored id |
| Store.ProfileUrl | bot/db.py:455-456 | the address `https://vk.com/id<id>` an author gets without a url; `ProfileUrlInjective` states that different ids get different addresses |
| Store.ProfileUrlInjective | bot/db.py:455-456 | different author ids have different derived profile addresses |
| Store.AddSeriesTo | bot/db.py:155-164 | the series table is unchanged or grows by the returned row |
| Store.AddSeriesRefusals | bot/db.py:148-164 | a blank name is refused, a name with an empty slug is refused, and any other name with a free id succeeds |
| Store.AddSeriesExisting | bot/db.py:155-157 | a name whose slug is stored returns that row and stores nothing |
| Store.AddSeriesFinds | bot/db.py:155-164 | after `add`, `get_by(name)` finds the returned row, whose slug is the name's slug |
| Store.AddSeriesIdempotent | bot/db.py:155-164 | adding the same name again returns the same row and changes nothing |
| Store.AddSeriesKeepsValid | bot/db.py:155-164 | `add` keeps unique ids, unique slugs, non-empty slugs and foreign keys |
| Store.AddGameTo | bot/db.py:236-245 | the game table is unchanged or grows by the returned row |
| Store.AddGameExisting | bot/db.py:236-238 | a name whose slug is stored returns that game and stores nothing |
| Store.AddGameFinds | bot/db.py:236-245 | after `add`, `get_by(name)` finds the returned game |
| Store.AddGameIdempotent | bot/db.py:236-245 | adding the same name again, with any series, returns the same game and changes nothing |
| Store.NewGameFits | bot/db.py:239-243 | a created game has a fresh id and slug, a non-empty slug, and a series that exists |
| Store.AddGameKeepsValid | bot/db.py:236-245 | `add` keeps the table invariants |
| Store.AddAuthorTo | bot/db.py:454-466 | the author table is unchanged or grows by the returned author, who has the requested id |
| Store.AddAuthorExisting | bot/db.py:458-459 | an existing id returns the stored author unchanged, name included |
| Store.AddAuthorNew | bot/db.py:454-466 | a new id is stored with `https://vk.com/id<id>` when no url is given; a url already in use is an integrity error |
| Store.AddAuthorKeepsValid | bot/db.py:454-466 | `add` keeps unique ids and unique urls |
| Store.Database.AddSeries | bot/db.py:155-164 | the method returns what `AddSeriesTo` returns and leaves the other tables alone |
| Store.Database.GetUnknown | bot/db.py:167-168 | `get_unknown` is `add("<Без серии>", id=0)` |
| Store.Database.AddGame | bot/db.py:236-245 | the method returns what `AddGameTo` returns and leaves the other tables alone |
| Store.Database.AddAuthor | bot/db.py:454-466 | the method returns what `AddAuthorTo` returns and leaves the other tables alone |
| Store.Database.CreateCover | data_vk/fill_db.py:41-48 | a new cover gets the next id and the given fields; a taken file name or a missing game is an integrity error |
| Store.Database.CreateLink | bot/db.py:534-541 | a link is added once; a duplicate pair or a missing author or cover is an integrity error |
| Store.Database.AddChat | bot/db.py:617-640 | get-or-create of a chat: an unknown id starts with 0 requests |
| Store.Chat.IncNumberRequests | bot/db.py:671-676 | the stored counter of this chat grows by one; the loaded object keeps its old count |
| Store.Chat.IsFirstRequest | bot/db.py:678-679 | true exactly when the count is 0 or 1 |
| Filters.CoverGetFilters | bot/db.py:307-344 | one filter per given scope (an id of 0 included), then the caller's filters; a cover passes all exactly when it is in every given scope |
| Filters.CoverOfAuthorMeaning | bot/db.py:316-324 | the author filter passes exactly the covers linked to the author |
| Filters.CoverInSeriesMeaning | bot/db.py:326-334 | the series filter passes exactly the covers whose game is in the series |
| Filters.CoverPassesAllAppend | bot/db.py:341-342 | passing a concatenation of filters is passing both parts |
| Filters.GameGetFilters | bot/db.py:248-271 | one filter per given scope, then the caller's; a game passes all exactly when it is in every given scope |
| Filters.GameOfAuthorMeaning | bot/db.py:256-261 | a game passes the author filter exactly when one of its covers is linked to the author |
| Filters.GamePassesAllAppend | bot/db.py:268-269 | passing a concatenation is passing both parts |
| Filters.SeriesGetFilters | bot/db.py:171-189 | one filter for a given author, then the caller's; a series passes exactly when it is in the scope |
| Filters.SeriesOfAuthorMeaning | bot/db.py:178-184 | a series passes the author filter exactly when one of its games has a cover linked to the author |
| Filters.SeriesPassesAllAppend | bot/db.py:186-187 | passing a concatenation is passing both parts |
| Filters.AuthorGetFilters | bot/db.py:469-499 | one filter per given scope, then the caller's; an author passes exactly when it is in every given scope |
| Filters.AuthorInSeriesMeaning | bot/db.py:477-483 | an author passes the series filter exactly when linked to a cover of a game of the series |
| Filters.AuthorOfGameMeaning | bot/db.py:485-494 | an author passes the game filter exactly when linked to a cover of the game |
| Filters.AuthorPassesAllAppend | bot/db.py:496-497 | passing a concatenation is passing both parts |
| Pages.Paginate | bot/db.py:91 | a page holds at most `items_per_page` rows |
| Pages.PaginateRows | bot/db.py:76-92 | page k ≥ 1 of n rows is the slice [(k-1)·n, k·n) of the ordered, filtered rows; it is full while rows remain |
| Pages.PaginateWindow | bot/db.py:91 | page k ≥ 1 of n rows is the window of at most n rows at offset (k-1)·n, empty past the end |
| Pages.FirstPage | bot/db.py:91 | the first page of n rows is the first n rows, or all of them |
| Pages.PaginateNonPositive | bot/db.py:91 | a page number below 1 gives the first page |
| Pages.PaginateSingle | bot/db.py:378-384 | with one row per page, page p is row p, or empty past the end |
| Pages.PaginateWithin | bot/test.py:32-45 | page k of n rows is page k of the first m·n rows for k ≤ m |
| Pages.PagesJoin | bot/test.py:32-45 | pages 1..m of n rows concatenate to the first m·n rows, neither overlapping nor skipping |
| Pages.Selected | bot/db.py:83-86 | the filtered rows are the table rows that pass every filter, in table order |
| Pages.SelectedInScope | bot/db.py:85-86 | filters built by `get_filters` select exactly the covers in the scope |
| Pages.OrderedMembers | bot/db.py:378-383 | a scope's browsing order holds exactly its covers, sorted by `date_time`, with unique ids |
| Pages.OrderedUnique | bot/db.py:378-383 | with the schema's unique cover ids, no cover id appears twice in a scope's browsing order |
| Pages.Count | bot/db.py:108-113 | a count of filtered rows never exceeds the table |
| Pages.CountInScope | bot/db.py:108-113 | counting with the filters of a scope gives exactly the number of covers the scope browses |
| Pages.CountBy | bot/db.py:347-360 | `count_by` is the number of covers the scope browses |
| Pages.Paginating | bot/db.py:76-92 | `paginating`: the filtered rows ordered by the key, cut into the page; `PaginateRows`, `PaginateSingle` and `PagesJoin` state which rows a page holds |
| Pages.GetByPage | bot/db.py:363-384 | page p in 1..count is the p-th cover by date; past the end there is none; below 1 it is the first |
| Pages.FirstPageOf | bot/db.py:409-411 | the loop returns the first 1-based position holding the id, or reports that none does |
| Pages.GetPage | bot/db.py:387-415 | `get_page` is the first 1-based position of the id in the scope's order; an id outside the scope is an error |
| Pages.PageRoundTrip | bot/db.py:363-415 | `get_page(get_by_page(p).id) == p` for every page p in 1..count |
| Pages.QueryIsOrdered | bot/db.py:395-408 | the rows a query with a scope's filters orders by `date_time` are exactly the covers that scope browses |
| Pages.ScopeRows | bot/db.py:395-408 | the query `get_page` numbers returns exactly the scope's covers in browsing order |
| Pages.OrderIsForced | bot/db.py:378-408 | when no two covers of a scope share a `date_time`, every ordering of them by date is the browsed one, so both queries see the same order |
| Relations.SeriesName | bot/db.py:273-275 | `Game.series_name`, stated by `SeriesNameMeaning` |
| Relations.SeriesNameMeaning | bot/db.py:273-275 | a game's series name is its series row's name, and empty without a series |
| Relations.LinkedAuthorsMembers | bot/db.py:419-420 | the links of a cover reach exactly the authors linked to it |
| Relations.LinkedCoversMembers | bot/db.py:502 | the links of an author reach exactly the covers linked to it |
| Relations.LinkedGamesMembers | bot/db.py:511-512 | the links of an author reach exactly the games of the covers linked to it |
| Relations.LinkedSeriesSome | bot/db.py:523-524 | the links reach a series exactly when a game of it has a cover linked to the author |
| Relations.LinkedSeriesNone | bot/db.py:523-524 | the links reach "no series" exactly when a game without a series has a linked cover |
| Relations.DedupedAuthors | bot/db.py:418-422 | the de-duplicated authors of a cover are its linked authors, each once |
| Relations.GetAuthors | bot/db.py:417-424 | `get_authors` holds exactly the cover's authors, sorted by strictly increasing id, or strictly decreasing with `reverse` |
| Relations.GetCovers | bot/db.py:501-504 | `get_covers` is a permutation of the covers the author's links reach, sorted by id ascending, or descending with `reverse`; under the unique (author, cover) index the order is strict |
| Relations.GetGames | bot/db.py:509-516 | `get_games` is the first occurrence of each game reached through the links: exactly the author's games, without duplicates |
| Relations.GetGameSeries | bot/db.py:521-528 | `get_game_series` is the first occurrence of each series (or none) reached: exactly the author's series, with "no series" when a linked game has none |
| Seqs.SortBy | bot/db.py:423 | sorting keeps the elements as a multiset and orders them by the key |
| Seqs.InsertSorted | bot/db.py:423 | inserting into a sorted sequence keeps it sorted |
| Seqs.ReverseSorted | bot/db.py:423 | reversing an ascending sequence makes it descending |
| Seqs.DedupElements | bot/db.py:418-422 | de-duplication keeps exactly the same elements, each once |
| Seqs.DedupFirstOccurrence | bot/db.py:509-516 | de-duplicated elements come in the order of their first occurrences |
| Seqs.SortKeepsUnique | bot/db.py:423 | sorting keeps a key unique |
| Seqs.ReverseMultiset | bot/db.py:503 | reversing keeps every element, as many times as before |
| Seqs.SortedDistinctForced | bot/db.py:403-408 | two orderings of the same rows by a key no two rows share are equal |
| Catalog.CoverByIdUnique | bot/db.py:293 | with unique ids, looking up a cover's id finds that cover |
| Ingest.SeriesStep | data_vk/fill_db.py:16-17 | only the series table changes, and it only grows |
| Ingest.GameStep | data_vk/fill_db.py:19-20 | only series and games change, they only grow, and the game returned is stored |
| Ingest.AuthorsStep | data_vk/fill_db.py:22-31 | only the author table changes, and it only grows |
| Ingest.AuthorsStepMeaning | data_vk/fill_db.py:22-31 | unless refused, every author of the dump is stored; every new author comes from the dump with its profile address |
| Ingest.AuthorsStepExisting | data_vk/fill_db.py:25-31 | when every author's id is stored, the loop stores nothing and overwrites no name |
| Ingest.AuthorsStepKeepsValid | data_vk/fill_db.py:22-31 | the loop keeps the table invariants |
| Ingest.AuthorsStepNeverRefuses | data_vk/fill_db.py:22-31 | on authors stored under their own profile addresses the loop is never refused, and it stores new authors the same way |
| Ingest.CoverStep | data_vk/fill_db.py:33-48 | only covers change; the cover returned is stored under the dump's file name |
| Ingest.CoverStepNew | data_vk/fill_db.py:35-48 | a new cover carries the dump's text, file name, urls, date and game; a stored file name changes nothing |
| Ingest.CoverStepExisting | data_vk/fill_db.py:33-35 | a stored file name returns the stored cover, with its fields unchanged |
| Ingest.CoverStepKeepsValid | data_vk/fill_db.py:33-48 | the step keeps the table invariants |
| Ingest.LinksAfterMeaning | data_vk/fill_db.py:50-53 | the link loop only appends; it adds exactly the missing (author, cover) pairs and nothing when all exist |
| Ingest.LinksAfterKeepsValid | data_vk/fill_db.py:50-53 | the link table keeps no duplicate pairs and valid foreign keys |
| Ingest.AuthorsBeforeLinks | data_vk/fill_db.py:22-53 | every author the link loop refers to was stored by the author loop |
| Ingest.AppendGrows | data_vk/fill_db.py:15-53 | `append_to_db` only appends rows, even when a step refuses |
| Ingest.AppendKeepsValid | data_vk/fill_db.py:15-53 | `append_to_db` keeps the table invariants |
| Ingest.AppendStoresGame | data_vk/fill_db.py:16-20 | after success the series (if any) and the game are stored under their slugs |
| Ingest.AppendStoresAuthors | data_vk/fill_db.py:22-31 | after success every author of the dump is stored |
| Ingest.AppendStoresCover | data_vk/fill_db.py:33-53 | after success the cover is stored and linked to every author of the dump |
| Ingest.AppendTo | data_vk/fill_db.py:15-53 | `append_to_db` on values: the series, game, author, cover and link steps in order, stopping at the first refusal; stated by `AppendStores`, `AppendIdempotent`, `AppendGrows` and `AppendKeepsValid` |
| Ingest.AppendStores | data_vk/fill_db.py:15-53 | after success the tables contain the whole dump |
| Ingest.AppendIdempotent | data_vk/fill_db.py:15-53 | tables that contain the dump are left unchanged |
| Ingest.AppendTwice | data_vk/fill_db.py:15-53 | appending the same dump a second time changes nothing |
| Ingest.AppendRefusesSluglessGame | data_vk/fill_db.py:19-20 | a game name with an empty slug is refused |
| Ingest.AppendNewGames | data_vk/fill_db.py:16-20 | without a series, a newly created game has no series (`None`) |
| Ingest.AppendNewAuthors | data_vk/fill_db.py:26-29 | every new author has a dump author's id and name, and the profile address |
| Ingest.AppendNewCovers | data_vk/fill_db.py:35-48 | every new cover carries the dump's fields |
| Ingest.AppendNewLinks | data_vk/fill_db.py:50-53 | every new link joins a dump author to the dump's cover |
| Ingest.AddGameOf | data_vk/fill_db.py:16-20 | the method's new state and result are those of `GameStep` |
| Ingest.AddAuthors | data_vk/fill_db.py:22-31 | the loop's new state and refusal are those of `AuthorsStep` |
| Ingest.CoverOf | data_vk/fill_db.py:33-48 | the method's new state and cover are those of `CoverStep` |
| Ingest.LinkOnce | data_vk/fill_db.py:51-53 | a link is appended only when the pair is absent; nothing else changes |
| Ingest.AddLinks | data_vk/fill_db.py:50-53 | the loop's new link table is `LinksAfter` |
| Ingest.AppendKeepsDerivedUrls | data_vk/fill_db.py:15-53 | a run keeps every author under the profile address of its own id |
| Ingest.AppendToDb | data_vk/fill_db.py:15-53 | the method's new state and refusal are those of `AppendTo` |
| Ingest.Positions | data_vk/fill_db.py:62-64 | the positions of a name are exactly, and in table order, the authors with that name |
| Ingest.GroupsMeaning | data_vk/fill_db.py:62-64 | grouping maps each name present, once, to exactly the positions of its authors |
| Ingest.GroupByName | data_vk/fill_db.py:62-64 | the grouping loop builds `name_by_objects` as `GroupsOf` states |
| Ingest.GroupSize | data_vk/fill_db.py:66-68 | a group has more than one author exactly when another author shares the name |
| Ingest.Tagged | data_vk/fill_db.py:72 | the new name `f'{name} (id{author.id})'`; `TaggedInjective` states that one name's tags differ by id |
| Ingest.Renamed | data_vk/fill_db.py:66-75 | the author at a position after renaming; `UniqueNameKept`, `SharedNameTagged` and `RenamingKeepsValid` state what changes |
| Ingest.UniqueNameKept | data_vk/fill_db.py:66-68 | an author whose name nobody else has keeps it |
| Ingest.SharedNameTagged | data_vk/fill_db.py:70-72 | an author whose name is shared is renamed to `name (id<id>)` |
| Ingest.TaggedInjective | data_vk/fill_db.py:72 | two authors with the same name get the same tag only when their ids are equal |
| Ingest.RenamedDistinctInGroup | data_vk/fill_db.py:70-76 | within a group the new names are pairwise distinct |
| Ingest.RenamingKeepsValid | data_vk/fill_db.py:75-76 | changing only names keeps the table invariants |
| Ingest.TagAuthors | data_vk/fill_db.py:70-76 | exactly the authors of the group are renamed, in place |
| Ingest.MakeIdenticalAuthorsUnique | data_vk/fill_db.py:56-76 | every author afterwards is the renamed one: tagged if the name was shared, unchanged otherwise; nothing else changes |

## Left out

- The SQLite/peewee layer (write queue, pragmas, connecting, table creation) is not modelled. Tables are in-memory sequences in insertion order, and the integrity the schema enforces is the predicate `ValidTables`.
- Ordering by `date_time` is a stable insertion sort over table order. SQL leaves the order of equal timestamps unspecified, so the model fixes one order where the database may choose another.
- `date_time` is an integer. Parsing ISO dates (`datetime.fromisoformat`) is not modelled.
- The `filters` a caller passes to `get_filters` are modelled as sets of ids. Over a fixed catalog with unique ids, any row predicate selects such a set.
- Peewee's `paginate` turns a page p > 0 into offset (p-1)·n, and SQLite treats a negative offset as 0. So a page of 0 or less gives the first page, where one might expect no page.
- `Pages.PageRoundTrip` assumes that `get_by_page` and the `row_number()` of `get_page` order covers with equal `date_time` the same way. SQL does not promise that. When no two covers of the scope share a date, the order is forced (`Pages.OrderIsForced`), and the round trip holds whatever order SQL picks.
- `Store.Database.AddChat` models only a chat's id and its request counter. The other `TgChat` columns are not modelled. These include the NOT NULL `type`: `TgChat.add(id)` without a type would raise an integrity error for a new id. Its caller in the bot, `get_from`, always passes the Telegram chat's type.
- `Pages.GetPage`: the exception raised for an id outside the scope is the error value `NotInScope`, and its message text is not modelled.
- A `$` at the end of a Python regular expression also accepts one final newline. The decoder models this, so a token followed by `\n` decodes too.
- Regular-expression `\d` and `\W` and `str.lower` are modelled for ASCII and the basic Cyrillic block (U+0400–U+045F). Other Unicode digits and letters are not. `str.strip` is modelled for all of Python's whitespace (`Slug.IsSpace`).
- The `get_slug` examples `'Half-Life 2: Episode Two'` and `'  Привет World!'` are not evaluated as constants. What they illustrate is proved for every text: outer whitespace is ignored (`Slug.OuterSpaceIgnored`), and each character is replaced, lower-cased or dropped (`Slug.NormalizeByChars`).
- `TgUser`, `TgChat.get_from` and `actualize`, `Cover.find`, `BaseModel.__str__`, `get_first`, `get_last` and `print_count_of_tables` are not modelled. They depend on Telegram objects, the clock, Unicode `str.upper`, or text formatting.
- The `get_authors`, `get_games` and `get_number_of_*` helpers of `GameSeries` and `Game` are not modelled. They sit outside the modelled query layer.
- `Store.Chat.IncNumberRequests`: the counter lives in a map of the database, indexed by chat id. The loaded object keeps its old count, as peewee's UPDATE query leaves it.
- Sending a reply (`reply_text`, its extra keyword arguments) is not modelled. `ReplyMessage.ReplyMessage` returns the list of pieces it would send.
- `data_vk/fill_db.py` imports the root `db.py`, whose `Author` table has no url column. The model stores the address `https://vk.com/id<id>` that its `url` property derives, and keeps the unique-url check of `bot/db.py`. Ingestion passes no url, so it refuses an author only when another author already holds the address derived from that author's id. `Ingest.AuthorsStepNeverRefuses` proves this never happens when every stored author has the address of its own id, and ingestion keeps that (`Ingest.AppendKeepsDerivedUrls`).
- Each step of `append_to_db` commits on its own. A refusal part-way keeps what earlier steps stored (`Ingest.AppendGrows`), and there is no transaction.
- The rename message printed by `make_identical_authors_unique`, the loading of the dump file and the `__main__` driver are not modelled.
- The docstring example `'DELETED (id74388128)'` is not evaluated as a constant. `Ingest.SharedNameTagged` states the general form.
- `Ingest.RenamedDistinctInGroup` proves renamed names distinct within their group only. A tagged name can still equal a name another author already has, and the source does not prevent that.
- Some relation lemmas require the schema's unique ids and foreign keys (`Consistent` or `UniqueBy`): `Relations.GetAuthors`, `Relations.GetCovers`, `Relations.GetGames`, `Relations.GetGameSeries` and `Pages.PageRoundTrip`. The database guarantees these, and the source relies on them.
- A game without a series is stored with `series = None`, as the code does. No sentinel series row is created.
